/** Ranking of clan-search results: exact case-insensitive name matches
    first, then by edit distance to the query, then by clan level, highest
    first, with a stable sort so that full ties keep their input order. */
module Search {
  import opened WarModel

  /** A search result; only the name and the level take part in ranking. */
  datatype ClanItem = ClanItem(tag: string, name: string, clanLevel: i8, badgeUrls: BadgeUrls)

  // ---------------------------------------------------------------------
  // Lower case and edit distance
  // ---------------------------------------------------------------------

  function LowerChar(c: char): char {
    if 'A' <= c <= 'Z' then (c as int - 'A' as int + 'a' as int) as char else c
  }

  /** Two characters that are the same letter, ignoring ASCII case. */
  predicate CharsAgree(x: char, y: char) {
    x == y
    || ('A' <= x <= 'Z' && y as int == x as int + 32)
    || ('A' <= y <= 'Z' && x as int == y as int + 32)
  }

  /** Two strings that spell the same text, ignoring ASCII case. */
  predicate SameUpToCase(a: string, b: string) {
    |a| == |b| && forall i :: 0 <= i < |a| ==> CharsAgree(a[i], b[i])
  }

  /** Lower case, on the ASCII letters: the result spells the same text
      as the input and holds no upper-case ASCII letter. */
  function Lower(s: string): (r: string)
    ensures SameUpToCase(s, r)
    ensures forall i :: 0 <= i < |r| ==> !('A' <= r[i] <= 'Z')
  {
    seq(|s|, i requires 0 <= i < |s| => LowerChar(s[i]))
  }

  lemma LowerIdempotent(s: string)
    ensures Lower(Lower(s)) == Lower(s)
  {
  }

  lemma LowerCharEqualIff(x: char, y: char)
    ensures LowerChar(x) == LowerChar(y) <==> CharsAgree(x, y)
  {
  }

  /** Lower case identifies exactly the strings that agree up to case. */
  lemma LowerEqualIff(a: string, b: string)
    ensures Lower(a) == Lower(b) <==> SameUpToCase(a, b)
  {
    if Lower(a) == Lower(b) {
      forall i | 0 <= i < |a|
        ensures CharsAgree(a[i], b[i])
      {
        assert Lower(a)[i] == Lower(b)[i];
        LowerCharEqualIff(a[i], b[i]);
      }
    }
    if SameUpToCase(a, b) {
      forall i | 0 <= i < |a|
        ensures Lower(a)[i] == Lower(b)[i]
      {
        LowerCharEqualIff(a[i], b[i]);
      }
    }
  }

  function Min3(a: nat, b: nat, c: nat): nat {
    if a <= b && a <= c then a else if b <= c then b else c
  }

  /** The Levenshtein distance: the fewest single-character insertions,
      deletions and substitutions that turn `a` into `b`. */
  function Levenshtein(a: string, b: string): nat
    decreases |a| + |b|
  {
    if |a| == 0 then |b|
    else if |b| == 0 then |a|
    else Min3(
      Levenshtein(a[1..], b[1..]) + (if a[0] == b[0] then 0 else 1),
      Levenshtein(a[1..], b) + 1,
      Levenshtein(a, b[1..]) + 1)
  }

  /** The distance is 0 exactly when the strings are equal. */
  lemma {:induction false} LevenshteinZeroIff(a: string, b: string)
    ensures Levenshtein(a, b) == 0 <==> a == b
    decreases |a| + |b|
  {
    if |a| > 0 && |b| > 0 {
      LevenshteinZeroIff(a[1..], b[1..]);
      if a == b {
        assert a[1..] == b[1..];
      }
      if Levenshtein(a, b) == 0 {
        assert a[0] == b[0] && Levenshtein(a[1..], b[1..]) == 0;
        assert a == [a[0]] + a[1..] && b == [b[0]] + b[1..];
      }
    }
  }

  // ---------------------------------------------------------------------
  // The comparator
  // ---------------------------------------------------------------------

  datatype Ordering = Less | Equal | Greater

  function CompareNat(x: nat, y: nat): Ordering {
    if x < y then Less else if x == y then Equal else Greater
  }

  function CompareInt(x: int, y: int): Ordering {
    if x < y then Less else if x == y then Equal else Greater
  }

  /** The comparator handed to the sort, with the query already lower-cased. */
  function Compare(queryLower: string, a: ClanItem, b: ClanItem): Ordering {
    var aName, bName := Lower(a.name), Lower(b.name);
    var aLev, bLev := Levenshtein(queryLower, aName), Levenshtein(queryLower, bName);
    if aName == queryLower && bName != queryLower then Less
    else if aName != queryLower && bName == queryLower then Greater
    else if aLev != bLev then CompareNat(aLev, bLev)
    else CompareInt(b.clanLevel as int, a.clanLevel as int)
  }

  /** The rank of an item: its distance to the query, then its level negated. */
  datatype RankKey = RankKey(distance: nat, negLevel: int)

  function Key(queryLower: string, c: ClanItem): RankKey {
    RankKey(Levenshtein(queryLower, Lower(c.name)), -(c.clanLevel as int))
  }

  /** Lexicographic order on keys. */
  predicate KeyLe(x: RankKey, y: RankKey) {
    x.distance < y.distance || (x.distance == y.distance && x.negLevel <= y.negLevel)
  }

  function CompareKeys(x: RankKey, y: RankKey): Ordering {
    if x.distance != y.distance then CompareNat(x.distance, y.distance)
    else CompareInt(x.negLevel, y.negLevel)
  }

  /** Because a distance of 0 means an exact match, the comparator's
      first rule is subsumed by the second: it is the lexicographic comparison
      of keys. */
  lemma CompareIsKeyOrder(queryLower: string, a: ClanItem, b: ClanItem)
    ensures Compare(queryLower, a, b) == CompareKeys(Key(queryLower, a), Key(queryLower, b))
  {
    LevenshteinZeroIff(queryLower, Lower(a.name));
    LevenshteinZeroIff(queryLower, Lower(b.name));
  }

  /** The comparator is a total preorder, as a sort requires: it is
      antisymmetric in its results, reflexive, and transitive. */
  lemma CompareConsistent(q: string, a: ClanItem, b: ClanItem, c: ClanItem)
    ensures Compare(q, a, a) == Equal
    ensures Compare(q, a, b) == Less <==> Compare(q, b, a) == Greater
    ensures Compare(q, a, b) == Equal <==> Compare(q, b, a) == Equal
    ensures (Compare(q, a, b) != Greater && Compare(q, b, c) != Greater) ==> Compare(q, a, c) != Greater
    ensures (Compare(q, a, b) == Less && Compare(q, b, c) != Greater) ==> Compare(q, a, c) == Less
  {
    CompareIsKeyOrder(q, a, a);
    CompareIsKeyOrder(q, a, b);
    CompareIsKeyOrder(q, b, a);
    CompareIsKeyOrder(q, b, c);
    CompareIsKeyOrder(q, a, c);
  }

  // ---------------------------------------------------------------------
  // Sortedness and stability
  // ---------------------------------------------------------------------

  predicate SortedByKey(q: string, s: seq<ClanItem>) {
    forall i, j :: 0 <= i < j < |s| ==> KeyLe(Key(q, s[i]), Key(q, s[j]))
  }

  /** The items of `s` whose key is `k`, in their order in `s`. */
  function WithKey(q: string, s: seq<ClanItem>, k: RankKey): seq<ClanItem> {
    if |s| == 0 then []
    else (if Key(q, s[0]) == k then [s[0]] else []) + WithKey(q, s[1..], k)
  }

  /** `t` keeps the relative order of every group of equally ranked items of `s`. */
  ghost predicate StableRearrangement(q: string, s: seq<ClanItem>, t: seq<ClanItem>) {
    forall k :: WithKey(q, s, k) == WithKey(q, t, k)
  }

  lemma {:induction false} WithKeyConcat(q: string, s: seq<ClanItem>, t: seq<ClanItem>, k: RankKey)
    ensures WithKey(q, s + t, k) == WithKey(q, s, k) + WithKey(q, t, k)
    decreases |s|
  {
    if |s| == 0 {
      assert s + t == t;
    } else {
      assert (s + t)[1..] == s[1..] + t;
      WithKeyConcat(q, s[1..], t, k);
    }
  }

  /** An item with key `k` at some position puts something in the group of `k`. */
  lemma {:induction false} WithKeyNonEmpty(q: string, s: seq<ClanItem>, m: nat)
    requires m < |s|
    ensures WithKey(q, s, Key(q, s[m])) != []
    decreases m
  {
    if m > 0 {
      assert s[1..][m - 1] == s[m];
      WithKeyNonEmpty(q, s[1..], m - 1);
    }
  }

  /** A non-empty group has a member in `s`. */
  lemma {:induction false} WithKeyWitness(q: string, s: seq<ClanItem>, k: RankKey) returns (m: nat)
    requires WithKey(q, s, k) != []
    ensures m < |s| && Key(q, s[m]) == k
    decreases |s|
  {
    if Key(q, s[0]) == k {
      m := 0;
    } else {
      var m' := WithKeyWitness(q, s[1..], k);
      m := m' + 1;
    }
  }

  /** Exchanging two neighbours of different rank leaves every group as it was. */
  lemma SwapKeepsGroups(q: string, s: seq<ClanItem>, j: nat)
    requires 0 < j < |s|
    requires Key(q, s[j - 1]) != Key(q, s[j])
    ensures StableRearrangement(q, s, s[j - 1 := s[j]][j := s[j - 1]])
  {
    var t := s[j - 1 := s[j]][j := s[j - 1]];
    var front, back := s[..j - 1], s[j + 1..];
    assert s == front + [s[j - 1], s[j]] + back;
    assert t == front + [s[j], s[j - 1]] + back;
    forall k
      ensures WithKey(q, s, k) == WithKey(q, t, k)
    {
      WithKeyConcat(q, front + [s[j - 1], s[j]], back, k);
      WithKeyConcat(q, front, [s[j - 1], s[j]], k);
      WithKeyConcat(q, front + [s[j], s[j - 1]], back, k);
      WithKeyConcat(q, front, [s[j], s[j - 1]], k);
      assert [s[j - 1], s[j]][1..] == [s[j]];
      assert [s[j], s[j - 1]][1..] == [s[j - 1]];
    }
  }

  /** Sorted and stable determine the result: two sorted sequences that
      agree on every group are equal. So any stable sort by this comparator
      (the library's merge sort as much as the insertion sort below) gives
      the same sequence. */
  lemma {:induction false} SortedStableUnique(q: string, s: seq<ClanItem>, t: seq<ClanItem>)
    requires SortedByKey(q, s) && SortedByKey(q, t)
    requires StableRearrangement(q, s, t)
    ensures s == t
    decreases |s| + |t|
  {
    if |s| == 0 && |t| == 0 {
    } else if |s| == 0 {
      WithKeyNonEmpty(q, t, 0);
      assert false;
    } else if |t| == 0 {
      WithKeyNonEmpty(q, s, 0);
      assert false;
    } else {
      var ks, kt := Key(q, s[0]), Key(q, t[0]);
      WithKeyNonEmpty(q, s, 0);
      WithKeyNonEmpty(q, t, 0);
      assert WithKey(q, s, ks) == WithKey(q, t, ks);
      assert WithKey(q, s, kt) == WithKey(q, t, kt);
      var mt := WithKeyWitness(q, t, ks);
      var ms := WithKeyWitness(q, s, kt);
      assert KeyLe(kt, ks) by {
        if mt > 0 { assert KeyLe(Key(q, t[0]), Key(q, t[mt])); }
      }
      assert KeyLe(ks, kt) by {
        if ms > 0 { assert KeyLe(Key(q, s[0]), Key(q, s[ms])); }
      }
      assert ks == kt;
      assert WithKey(q, s, ks) == [s[0]] + WithKey(q, s[1..], ks);
      assert WithKey(q, t, ks) == [t[0]] + WithKey(q, t[1..], ks);
      assert s[0] == WithKey(q, s, ks)[0] == WithKey(q, t, ks)[0] == t[0];
      forall k
        ensures WithKey(q, s[1..], k) == WithKey(q, t[1..], k)
      {
        assert WithKey(q, s, k) == WithKey(q, t, k);
        if k == ks {
          assert WithKey(q, s, k) == [s[0]] + WithKey(q, s[1..], k);
          assert WithKey(q, t, k) == [t[0]] + WithKey(q, t[1..], k);
          assert WithKey(q, s[1..], k) == WithKey(q, s, k)[1..];
          assert WithKey(q, t[1..], k) == WithKey(q, t, k)[1..];
        } else {
          assert WithKey(q, s, k) == WithKey(q, s[1..], k);
          assert WithKey(q, t, k) == WithKey(q, t[1..], k);
        }
      }
      SortedStableUnique(q, s[1..], t[1..]);
      assert s == [s[0]] + s[1..] && t == [t[0]] + t[1..];
    }
  }

  /** What the ranked list promises, item by item: exact matches lead,
      distances never decrease, and at equal distance levels never increase. */
  lemma RankedOrder(q: string, s: seq<ClanItem>)
    requires SortedByKey(q, s)
    ensures forall i, j :: 0 <= i < j < |s| && Lower(s[j].name) == q ==> Lower(s[i].name) == q
    ensures forall i, j :: 0 <= i < j < |s| ==>
      Levenshtein(q, Lower(s[i].name)) <= Levenshtein(q, Lower(s[j].name))
    ensures forall i, j :: 0 <= i < j < |s| && Levenshtein(q, Lower(s[i].name)) == Levenshtein(q, Lower(s[j].name)) ==>
      s[i].clanLevel >= s[j].clanLevel
  {
    forall i, j | 0 <= i < j < |s| && Lower(s[j].name) == q
      ensures Lower(s[i].name) == q
    {
      assert KeyLe(Key(q, s[i]), Key(q, s[j]));
      LevenshteinZeroIff(q, Lower(s[j].name));
      LevenshteinZeroIff(q, Lower(s[i].name));
    }
    forall i, j | 0 <= i < j < |s|
      ensures Levenshtein(q, Lower(s[i].name)) <= Levenshtein(q, Lower(s[j].name))
    {
      assert KeyLe(Key(q, s[i]), Key(q, s[j]));
    }
    forall i, j | 0 <= i < j < |s| && Levenshtein(q, Lower(s[i].name)) == Levenshtein(q, Lower(s[j].name))
      ensures s[i].clanLevel >= s[j].clanLevel
    {
      assert KeyLe(Key(q, s[i]), Key(q, s[j]));
    }
  }

  // ---------------------------------------------------------------------
  // The sort and the search command
  // ---------------------------------------------------------------------

  /** The state inside the insertion step: the first `i + 1` items are in
      key order except that the item at `j` may still be out of place. */
  ghost predicate SortedExcept(q: string, s: seq<ClanItem>, i: nat, j: nat) {
    && i < |s|
    && forall p, r :: 0 <= p < r <= i && r != j ==> KeyLe(Key(q, s[p]), Key(q, s[r]))
  }

  lemma InsertStart(q: string, s: seq<ClanItem>, i: nat)
    requires i < |s| && SortedByKey(q, s[..i])
    ensures SortedExcept(q, s, i, i)
  {
    forall p, r | 0 <= p < r < i ensures KeyLe(Key(q, s[p]), Key(q, s[r])) {
      assert s[..i][p] == s[p] && s[..i][r] == s[r];
    }
  }

  /** Exchanging the misplaced item with a left neighbour that ranks strictly
      after it moves the gap one place left and keeps every group. */
  lemma InsertSwap(q: string, s: seq<ClanItem>, i: nat, j: nat)
    requires 0 < j <= i && SortedExcept(q, s, i, j)
    requires CompareKeys(Key(q, s[j]), Key(q, s[j - 1])) == Less
    ensures SortedExcept(q, s[j - 1 := s[j]][j := s[j - 1]], i, j - 1)
    ensures multiset(s[j - 1 := s[j]][j := s[j - 1]]) == multiset(s)
    ensures StableRearrangement(q, s, s[j - 1 := s[j]][j := s[j - 1]])
  {
    var t := s[j - 1 := s[j]][j := s[j - 1]];
    forall p, r | 0 <= p < r <= i && r != j - 1 ensures KeyLe(Key(q, t[p]), Key(q, t[r])) {
      if p == j - 1 && r > j {
        assert KeyLe(Key(q, s[j - 1]), Key(q, s[r]));
      }
    }
    SwapKeepsGroups(q, s, j);
  }

  /** When the misplaced item meets a neighbour that does not rank after it,
      the first `i + 1` items are sorted. */
  lemma InsertDone(q: string, s: seq<ClanItem>, i: nat, j: nat)
    requires j <= i && SortedExcept(q, s, i, j)
    requires j > 0 ==> CompareKeys(Key(q, s[j]), Key(q, s[j - 1])) != Less
    ensures SortedByKey(q, s[..i + 1])
  {
    forall p, r | 0 <= p < r <= i ensures KeyLe(Key(q, s[p]), Key(q, s[r])) {
      if r == j && p < j - 1 {
        assert KeyLe(Key(q, s[p]), Key(q, s[j - 1]));
      }
    }
    var front := s[..i + 1];
    forall p, r | 0 <= p < r < |front| ensures KeyLe(Key(q, front[p]), Key(q, front[r])) {
      assert front[p] == s[p] && front[r] == s[r];
    }
  }

  lemma StableTransitive(q: string, s: seq<ClanItem>, t: seq<ClanItem>, u: seq<ClanItem>)
    requires StableRearrangement(q, s, t) && StableRearrangement(q, t, u)
    ensures StableRearrangement(q, s, u)
  {
    forall k ensures WithKey(q, s, k) == WithKey(q, u, k) {
      assert WithKey(q, s, k) == WithKey(q, t, k);
    }
  }

  /** A stable in-place sort by the comparator: an item moves left past its
      neighbour only while it compares `Less`. */
  method SortBy(a: array<ClanItem>, queryLower: string)
    modifies a
    ensures SortedByKey(queryLower, a[..])
    ensures multiset(a[..]) == multiset(old(a[..]))
    ensures StableRearrangement(queryLower, old(a[..]), a[..])
  {
    var i := 0;
    while i < a.Length
      invariant 0 <= i <= a.Length
      invariant SortedByKey(queryLower, a[..i])
      invariant multiset(a[..]) == multiset(old(a[..]))
      invariant StableRearrangement(queryLower, old(a[..]), a[..])
    {
      InsertStart(queryLower, a[..], i);
      var j := i;
      while j > 0 && Compare(queryLower, a[j], a[j - 1]) == Less
        invariant 0 <= j <= i
        invariant SortedExcept(queryLower, a[..], i, j)
        invariant multiset(a[..]) == multiset(old(a[..]))
        invariant StableRearrangement(queryLower, old(a[..]), a[..])
      {
        CompareIsKeyOrder(queryLower, a[j], a[j - 1]);
        ghost var before := a[..];
        InsertSwap(queryLower, before, i, j);
        a[j - 1], a[j] := a[j], a[j - 1];
        assert a[..] == before[j - 1 := before[j]][j := before[j - 1]];
        StableTransitive(queryLower, old(a[..]), before, a[..]);
        j := j - 1;
      }
      if j > 0 {
        CompareIsKeyOrder(queryLower, a[j], a[j - 1]);
      }
      InsertDone(queryLower, a[..], i, j);
      i := i + 1;
    }
    assert a[..] == a[..a.Length];
  }

  /** The ranked copy of the search results for `query`. */
  method RankSearchResults(query: string, items: seq<ClanItem>) returns (ranked: seq<ClanItem>)
    ensures SortedByKey(Lower(query), ranked)
    ensures multiset(ranked) == multiset(items)
    ensures StableRearrangement(Lower(query), items, ranked)
  {
    var queryLower := Lower(query);
    var a := new ClanItem[|items|](k requires 0 <= k < |items| => items[k]);
    assert a[..] == items;
    SortBy(a, queryLower);
    ranked := a[..];
  }
}
