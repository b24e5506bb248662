/** The backend's war commands: the pooled average attack duration, the
    `M:SS` and percentage renderings, the two-sided war summary, and the
    status table of the current-war request. */
module ClanInfo {
  import opened WarModel
  import opened Text

  // ---------------------------------------------------------------------
  // Durations of all attacks of a side
  // ---------------------------------------------------------------------

  /** The durations of a member list's attacks, in order. */
  function AttackDurations(attacks: seq<Attack>): (d: seq<int>)
    ensures |d| == |attacks|
  {
    if |attacks| == 0 then []
    else AttackDurations(attacks[..|attacks| - 1]) + [attacks[|attacks| - 1].duration as int]
  }

  /** A member without an attack list contributes nothing. */
  function MemberDurations(m: Member): seq<int>
  {
    match m.attacks
    case None => []
    case Some(attacks) => AttackDurations(attacks)
  }

  /** Every attack of every member, member by member. */
  function Durations(members: seq<Member>): seq<int>
  {
    if |members| == 0 then []
    else Durations(members[..|members| - 1]) + MemberDurations(members[|members| - 1])
  }

  function Sum(s: seq<int>): int
  {
    if |s| == 0 then 0 else Sum(s[..|s| - 1]) + s[|s| - 1]
  }

  predicate NonNegative(s: seq<int>) {
    forall k :: 0 <= k < |s| ==> s[k] >= 0
  }

  /** The number of attacks pooled over all members. */
  function AttackCount(members: seq<Member>): nat {
    |Durations(members)|
  }

  /** The summed duration pooled over all members. */
  function TotalDuration(members: seq<Member>): int {
    Sum(Durations(members))
  }

  /** What the source relies on for its 32-bit accumulators: durations are
      non-negative and neither the running total nor the count overflows. */
  predicate DurationsFit(members: seq<Member>) {
    && NonNegative(Durations(members))
    && TotalDuration(members) <= I32_MAX
    && AttackCount(members) <= I32_MAX
  }

  lemma SumAppend(s: seq<int>, x: int)
    ensures Sum(s + [x]) == Sum(s) + x
  {
    assert (s + [x])[..|s|] == s;
  }

  lemma {:induction false} SumConcat(a: seq<int>, b: seq<int>)
    ensures Sum(a + b) == Sum(a) + Sum(b)
    decreases |b|
  {
    if |b| == 0 {
      assert a + b == a;
    } else {
      var b' := b[..|b| - 1];
      assert a + b == (a + b') + [b[|b| - 1]];
      SumAppend(a + b', b[|b| - 1]);
      SumConcat(a, b');
    }
  }

  /** A prefix of non-negative numbers sums to at most the whole. */
  lemma {:induction false} SumPrefixBound(s: seq<int>, t: seq<int>)
    requires s <= t
    requires NonNegative(t)
    ensures 0 <= Sum(s) <= Sum(t)
    decreases |t|
  {
    if |t| > 0 {
      var t' := t[..|t| - 1];
      assert NonNegative(t');
      if |s| == |t| {
        assert s == t;
        SumPrefixBound(t', t');
      } else {
        assert s <= t';
        SumPrefixBound(s, t');
      }
    }
  }

  lemma {:induction false} DurationsPrefix(members: seq<Member>, i: nat)
    requires i <= |members|
    ensures Durations(members[..i]) <= Durations(members)
    decreases |members|
  {
    if i < |members| {
      var front := members[..|members| - 1];
      assert members[..i] == front[..i];
      DurationsPrefix(front, i);
    } else {
      assert members[..i] == members;
    }
  }

  lemma {:induction false} AttackDurationsPrefix(attacks: seq<Attack>, j: nat)
    requires j <= |attacks|
    ensures AttackDurations(attacks[..j]) <= AttackDurations(attacks)
    decreases |attacks|
  {
    if j < |attacks| {
      var front := attacks[..|attacks| - 1];
      assert attacks[..j] == front[..j];
      AttackDurationsPrefix(front, j);
    } else {
      assert attacks[..j] == attacks;
    }
  }

  /** Durations pool over a concatenation of member lists: the count and
      the total of the whole are those of the parts added, so the average is
      one mean over every attack and not a mean of per-member means. */
  lemma {:induction false} DurationsConcat(a: seq<Member>, b: seq<Member>)
    ensures Durations(a + b) == Durations(a) + Durations(b)
    ensures AttackCount(a + b) == AttackCount(a) + AttackCount(b)
    ensures TotalDuration(a + b) == TotalDuration(a) + TotalDuration(b)
  {
    DurationsConcatSeq(a, b);
    SumConcat(Durations(a), Durations(b));
  }

  lemma {:induction false} DurationsConcatSeq(a: seq<Member>, b: seq<Member>)
    ensures Durations(a + b) == Durations(a) + Durations(b)
    decreases |b|
  {
    if |b| == 0 {
      assert a + b == a;
    } else {
      var b' := b[..|b| - 1];
      assert b == b' + [b[|b| - 1]];
      DurationsConcatSeq(a, b');
      DurationsLast(a + b, a + b', b[|b| - 1]);
      DurationsLast(b, b', b[|b| - 1]);
      ConcatAssociative(Durations(a), Durations(b'), MemberDurations(b[|b| - 1]));
    }
  }

  /** Regrouping of a three-part concatenation. */
  lemma ConcatAssociative(x: seq<int>, y: seq<int>, z: seq<int>)
    ensures (x + y) + z == x + (y + z)
  {
  }

  /** The unfolding of `Durations` at a list's last member. */
  lemma DurationsLast(s: seq<Member>, front: seq<Member>, last: Member)
    requires s == front + [last]
    ensures Durations(s) == Durations(front) + MemberDurations(last)
  {
    assert s[..|s| - 1] == front;
  }

  /** When no member has an attack, whether its list is absent or empty,
      nothing is pooled. */
  lemma {:induction false} NoAttacksNothingPooled(members: seq<Member>)
    requires forall i :: 0 <= i < |members| ==> members[i].attacks.None? || members[i].attacks.value == []
    ensures Durations(members) == []
    ensures DurationsFit(members) && AttackCount(members) == 0
    decreases |members|
  {
    if |members| > 0 {
      NoAttacksNothingPooled(members[..|members| - 1]);
    }
  }

  // ---------------------------------------------------------------------
  // calculate_average_duration
  // ---------------------------------------------------------------------

  /** The pooled mean duration, truncated; 0 when there is no attack. */
  function AverageDuration(members: seq<Member>): (avg: u32)
    requires DurationsFit(members)
    ensures AttackCount(members) == 0 ==> avg == 0
    ensures AttackCount(members) > 0 ==>
      avg as int * AttackCount(members) <= TotalDuration(members) < (avg as int + 1) * AttackCount(members)
  {
    SumPrefixBound(Durations(members), Durations(members));
    var total, count := TotalDuration(members), AttackCount(members);
    if count > 0 then
      DivisionBounds(total, count);
      (total / count) as u32
    else 0
  }

  /** Division of a non-negative number truncates: the quotient times the
      divisor does not exceed the dividend, and one more does. */
  lemma DivisionBounds(total: int, count: int)
    requires 0 <= total && 0 < count
    ensures 0 <= total / count <= total
    ensures (total / count) * count <= total < (total / count + 1) * count
  {
    var q, r := total / count, total % count;
    assert total == q * count + r && 0 <= r < count;
    QuotientBounds(q, r, count);
  }

  /** The bounds of a quotient, stated on the quotient and remainder alone
      so that the solver meets only their linear combination. */
  lemma QuotientBounds(q: int, r: int, count: int)
    requires 0 <= r < count && 0 <= q * count + r
    ensures 0 <= q <= q * count + r
    ensures q * count <= q * count + r < (q + 1) * count
  {
    if q < 0 {
      ProductBelow(q, count);
    } else {
      ProductAbove(q, count);
    }
  }

  /** Sign facts about a product with a positive factor. */
  lemma ProductBelow(q: int, count: int)
    requires q < 0 && 0 < count
    ensures q * count <= -count
  {
  }

  lemma ProductAbove(q: int, count: int)
    requires 0 <= q && 0 < count
    ensures q <= q * count
  {
  }

  /** The average of no attacks at all is 0. */
  lemma AverageWithoutAttacks(members: seq<Member>)
    requires forall i :: 0 <= i < |members| ==> members[i].attacks.None? || members[i].attacks.value == []
    ensures DurationsFit(members) && AverageDuration(members) == 0
  {
    NoAttacksNothingPooled(members);
  }

  lemma AttackDurationsSnoc(attacks: seq<Attack>, j: nat)
    requires j < |attacks|
    ensures AttackDurations(attacks[..j + 1]) == AttackDurations(attacks[..j]) + [attacks[j].duration as int]
  {
    assert attacks[..j + 1][..j] == attacks[..j];
  }

  /** One more attack of a member: its duration joins the running sum, which
      stays between 0 and the member's whole sum. */
  lemma AttackStep(attacks: seq<Attack>, j: nat)
    requires j < |attacks| && NonNegative(AttackDurations(attacks))
    ensures Sum(AttackDurations(attacks[..j + 1])) == Sum(AttackDurations(attacks[..j])) + attacks[j].duration as int
    ensures 0 <= Sum(AttackDurations(attacks[..j + 1])) <= Sum(AttackDurations(attacks))
  {
    AttackDurationsSnoc(attacks, j);
    SumAppend(AttackDurations(attacks[..j]), attacks[j].duration as int);
    AttackDurationsPrefix(attacks, j + 1);
    SumPrefixBound(AttackDurations(attacks[..j + 1]), AttackDurations(attacks));
  }

  /** One more member: the pooled sequence grows by the member's durations,
      whose sum and count keep the running total and count in range. */
  lemma MemberStep(members: seq<Member>, i: nat)
    requires DurationsFit(members) && i < |members|
    ensures Durations(members[..i + 1]) == Durations(members[..i]) + MemberDurations(members[i])
    ensures Sum(Durations(members[..i + 1])) == Sum(Durations(members[..i])) + Sum(MemberDurations(members[i]))
    ensures 0 <= Sum(Durations(members[..i]))
    ensures NonNegative(MemberDurations(members[i]))
    ensures Sum(Durations(members[..i])) + Sum(MemberDurations(members[i])) <= I32_MAX
    ensures |Durations(members[..i])| + |MemberDurations(members[i])| <= I32_MAX
  {
    var front, next := Durations(members[..i]), Durations(members[..i + 1]);
    MemberSplit(members, i);
    SumConcat(front, MemberDurations(members[i]));
    DurationsPrefix(members, i);
    SumPrefixBound(front, Durations(members));
    DurationsPrefix(members, i + 1);
    SumPrefixBound(next, Durations(members));
    NonNegativeParts(front, MemberDurations(members[i]), Durations(members));
  }

  lemma MemberSplit(members: seq<Member>, i: nat)
    requires i < |members|
    ensures Durations(members[..i + 1]) == Durations(members[..i]) + MemberDurations(members[i])
  {
    assert members[..i + 1][..i] == members[..i];
  }

  /** The second part of a prefix of non-negative numbers is non-negative. */
  lemma NonNegativeParts(a: seq<int>, b: seq<int>, t: seq<int>)
    requires a + b <= t && NonNegative(t)
    ensures NonNegative(b)
  {
    forall k | 0 <= k < |b| ensures b[k] >= 0 {
      assert b[k] == (a + b)[|a| + k] == t[|a| + k];
    }
  }

  /** The inner loop over one member's attacks, adding to the 32-bit total
      and count. */
  method AddAttacks(attacks: seq<Attack>, total: i32, count: i32) returns (newTotal: i32, newCount: i32)
    requires 0 <= total && NonNegative(AttackDurations(attacks))
    requires total as int + Sum(AttackDurations(attacks)) <= I32_MAX
    requires count as int + |attacks| <= I32_MAX
    ensures newTotal as int == total as int + Sum(AttackDurations(attacks))
    ensures newCount as int == count as int + |attacks|
  {
    newTotal, newCount := total, count;
    var j := 0;
    assert attacks[..0] == [];
    while j < |attacks|
      invariant 0 <= j <= |attacks|
      invariant newTotal as int == total as int + Sum(AttackDurations(attacks[..j]))
      invariant newCount as int == count as int + j
    {
      AttackStep(attacks, j);
      newTotal := newTotal + attacks[j].duration;
      newCount := newCount + 1;
      j := j + 1;
    }
    assert attacks[..j] == attacks;
  }

  /** The source's loop over the members, with 32-bit accumulators. */
  method CalculateAverageDuration(members: seq<Member>) returns (avg: u32)
    requires DurationsFit(members)
    ensures avg == AverageDuration(members)
  {
    var total: i32 := 0;
    var count: i32 := 0;
    var i := 0;
    while i < |members|
      invariant 0 <= i <= |members|
      invariant total as int == Sum(Durations(members[..i]))
      invariant count as int == |Durations(members[..i])|
    {
      MemberStep(members, i);
      var member := members[i];
      if member.attacks.Some? {
        total, count := AddAttacks(member.attacks.value, total, count);
      }
      i := i + 1;
    }
    assert members[..i] == members;
    AverageFromTotals(members, total as int, count as int);
    if count > 0 {
      // Both are non-negative, so truncating and Euclidean division agree.
      avg := (total as int / count as int) as u32;
    } else {
      avg := 0;
    }
  }

  /** The loop's final total and count give the specified average. */
  lemma AverageFromTotals(members: seq<Member>, total: int, count: int)
    requires DurationsFit(members)
    requires total == TotalDuration(members) && count == AttackCount(members)
    ensures 0 <= total
    ensures count > 0 ==> AverageDuration(members) as int == total / count
    ensures count == 0 ==> AverageDuration(members) == 0
  {
    SumPrefixBound(Durations(members), Durations(members));
  }

  // ---------------------------------------------------------------------
  // format_duration and format_percentage
  // ---------------------------------------------------------------------

  /** Whole minutes, ':', and the remaining seconds in two digits. */
  function FormatDuration(seconds: u32): (text: string)
    ensures ReadDuration(text) == Some(seconds as nat)
  {
    var minutes, rest := seconds as nat / 60, seconds as nat % 60;
    var text := NatToString(minutes) + [':'] + ZeroPad2(rest);
    DigitsAvoid(NatToString(minutes), ':');
    DigitsAvoid(ZeroPad2(rest), ':');
    SplitAtFirst(NatToString(minutes), ':', ZeroPad2(rest));
    SplitWithoutSeparator(ZeroPad2(rest), ':');
    ParseNatToString(minutes);
    text
  }

  /** The inverse of `FormatDuration`: a number of seconds from `M:SS`. */
  function ReadDuration(text: string): Option<nat>
  {
    var parts := Split(text, ':');
    if |parts| == 2 && IsNatText(parts[0])
       && |parts[1]| == 2 && AllDigits(parts[1]) && ParseNat(parts[1]) < 60
    then Some(ParseNat(parts[0]) * 60 + ParseNat(parts[1]))
    else None
  }

  /** The reader accepts no other text for a value than the rendered one, so
      the round trip fixes the exact text: unpadded minutes, two-digit seconds. */
  lemma ReadDurationExact(text: string, seconds: u32)
    requires ReadDuration(text) == Some(seconds as nat)
    ensures text == FormatDuration(seconds)
  {
    var parts := Split(text, ':');
    JoinTwo(parts, ':');
    var m, r := ParseNat(parts[0]), ParseNat(parts[1]);
    assert seconds as nat / 60 == m && seconds as nat % 60 == r;
    NatTextCanonical(parts[0]);
    ZeroPad2Canonical(parts[1]);
  }

  /** Distinct averages render differently. */
  lemma FormatDurationInjective(a: u32, b: u32)
    requires FormatDuration(a) == FormatDuration(b)
    ensures a == b
  {
  }

  lemma FormatDurationExamples()
    ensures FormatDuration(125) == "2:05"
    ensures FormatDuration(59) == "0:59"
    ensures FormatDuration(600) == "10:00"
  {
    assert NatToString(2) == "2" && ZeroPad2(5) == "05";
    assert NatToString(0) == "0" && ZeroPad2(59) == "59";
    assert NatToString(10) == NatToString(1) + [DigitChar(0)];
    assert ZeroPad2(0) == "00";
  }

  /** Decimal places of a percentage: none for exactly 100, one otherwise. */
  function PercentageDecimals(value: real): (places: nat)
    ensures places <= 1
    ensures places == 0 <==> value == 100.0
  {
    if value == 100.0 then 0 else 1
  }

  /** `fixed(v, p)` stands for fixed-point rendering of `v` with `p` decimal places. */
  function FormatPercentage(value: real, fixed: (real, nat) -> string): string
  {
    fixed(value, PercentageDecimals(value))
  }

  // ---------------------------------------------------------------------
  // parse_wardata
  // ---------------------------------------------------------------------

  /** The display record of one side. */
  datatype ClanData = ClanData(badge: string, stars: string, percentage: string, duration: string, attacks: string)

  datatype WarData = WarData(clan: ClanData, opponent: ClanData)

  /** The `unwrap` calls that panic, in the order the source reaches them. */
  datatype Panic = MissingClanMembers | MissingOpponentMembers | MissingAttacksPerMember

  datatype Summary = Summarised(data: WarData) | Panicked(reason: Panic)

  function OrZero(x: Option<i32>): int {
    match x
    case None => 0
    case Some(v) => v as int
  }

  function OrZeroReal(x: Option<real>): real {
    match x
    case None => 0.0
    case Some(v) => v
  }

  /** The attacks available to a side: attacks per member times roster size. */
  function Available(attacksPerMember: i8, memberCount: nat): int {
    attacksPerMember as int * memberCount
  }

  /** `len() as i32` and the 32-bit product do not overflow. */
  predicate AvailableFits(attacksPerMember: i8, memberCount: nat) {
    memberCount <= I32_MAX && -0x8000_0000 <= Available(attacksPerMember, memberCount) <= I32_MAX
  }

  /** What a side must satisfy for the source's arithmetic to stay in range. */
  predicate SideFits(side: WarClan, attacksPerMember: Option<i8>) {
    side.members.Some? ==>
      DurationsFit(side.members.value)
      && (attacksPerMember.Some? ==> AvailableFits(attacksPerMember.value, |side.members.value|))
  }

  /** `used/available`. */
  function AttacksText(used: int, available: int): (text: string)
    ensures ReadRatio(text) == Some((used, available))
  {
    var u, a := IntToString(used), IntToString(available);
    IntToStringRoundTrip(used);
    IntToStringRoundTrip(available);
    NoSlashInNumber(used);
    NoSlashInNumber(available);
    SplitAtFirst(u, '/', a);
    SplitWithoutSeparator(a, '/');
    u + ['/'] + a
  }

  lemma NoSlashInNumber(i: int)
    ensures '/' !in IntToString(i)
  {
    var s := IntToString(i);
    if i < 0 {
      DigitsAvoid(s[1..], '/');
      assert s == [s[0]] + s[1..];
    } else {
      DigitsAvoid(s, '/');
    }
  }

  /** The inverse of `AttacksText`. */
  function ReadRatio(text: string): Option<(int, int)>
  {
    var parts := Split(text, '/');
    if |parts| == 2 && IsIntText(parts[0]) && IsIntText(parts[1])
    then Some((ParseInt(parts[0]), ParseInt(parts[1])))
    else None
  }

  /** The reader accepts no other text for a pair than the rendered one, so
      the round trip fixes the exact `used/available` text. */
  lemma ReadRatioExact(text: string, used: int, available: int)
    requires ReadRatio(text) == Some((used, available))
    ensures text == AttacksText(used, available)
  {
    var parts := Split(text, '/');
    JoinTwo(parts, '/');
    IntTextCanonical(parts[0]);
    IntTextCanonical(parts[1]);
  }

  /** The record of one side, built from that side's fields only. */
  function SummariseSide(side: WarClan, members: seq<Member>, attacksPerMember: i8,
                         fixed: (real, nat) -> string): (d: ClanData)
    requires DurationsFit(members) && AvailableFits(attacksPerMember, |members|)
    ensures d.badge == side.badgeUrls.large
    ensures d.stars == IntToString(OrZero(side.stars))
    ensures d.percentage == FormatPercentage(OrZeroReal(side.destructionPercentage), fixed)
    ensures ReadDuration(d.duration) == Some(AverageDuration(members) as nat)
    ensures ReadRatio(d.attacks) == Some((OrZero(side.attacks), Available(attacksPerMember, |members|)))
  {
    ClanData(
      side.badgeUrls.large,
      IntToString(OrZero(side.stars)),
      FormatPercentage(OrZeroReal(side.destructionPercentage), fixed),
      FormatDuration(AverageDuration(members)),
      AttacksText(OrZero(side.attacks), Available(attacksPerMember, |members|)))
  }

  /** The summary of a war snapshot, clan first and opponent second. */
  function ParseWarData(war: War, fixed: (real, nat) -> string): (r: Summary)
    requires SideFits(war.clan, war.attacksPerMember) && SideFits(war.opponent, war.attacksPerMember)
    ensures r.Summarised? <==>
      war.clan.members.Some? && war.opponent.members.Some? && war.attacksPerMember.Some?
    ensures war.clan.members.None? ==> r == Panicked(MissingClanMembers)
    ensures war.clan.members.Some? && war.opponent.members.None? ==> r == Panicked(MissingOpponentMembers)
    ensures war.clan.members.Some? && war.opponent.members.Some? && war.attacksPerMember.None? ==>
      r == Panicked(MissingAttacksPerMember)
    ensures r.Summarised? ==>
      && r.data.clan == SummariseSide(war.clan, war.clan.members.value, war.attacksPerMember.value, fixed)
      && r.data.opponent == SummariseSide(war.opponent, war.opponent.members.value, war.attacksPerMember.value, fixed)
  {
    if war.clan.members.None? then Panicked(MissingClanMembers)
    else if war.opponent.members.None? then Panicked(MissingOpponentMembers)
    else if war.attacksPerMember.None? then Panicked(MissingAttacksPerMember)
    else
      var apm := war.attacksPerMember.value;
      Summarised(WarData(
        SummariseSide(war.clan, war.clan.members.value, apm, fixed),
        SummariseSide(war.opponent, war.opponent.members.value, apm, fixed)))
  }

  /** The sides are treated alike and apart: swapping clan and opponent in
      the snapshot swaps the two records. */
  lemma SummarySwapsWithSides(war: War, fixed: (real, nat) -> string)
    requires SideFits(war.clan, war.attacksPerMember) && SideFits(war.opponent, war.attacksPerMember)
    requires war.clan.members.Some? && war.opponent.members.Some? && war.attacksPerMember.Some?
    ensures var swapped := war.(clan := war.opponent, opponent := war.clan);
      ParseWarData(swapped, fixed).Summarised? &&
      ParseWarData(swapped, fixed).data ==
        WarData(ParseWarData(war, fixed).data.opponent, ParseWarData(war, fixed).data.clan)
  {
  }

  /** An empty side object reads as `DefaultClan`, which has no member
      list, so the snapshot cannot be summarised. */
  lemma DefaultSideCannotBeSummarised(war: War, fixed: (real, nat) -> string)
    requires war.clan == DefaultClan() || war.opponent == DefaultClan()
    requires SideFits(war.clan, war.attacksPerMember) && SideFits(war.opponent, war.attacksPerMember)
    ensures ParseWarData(war, fixed).Panicked?
  {
  }

  /** Reading the summary back gives the side's stars (0 when absent), its
      used and available attacks, and the pooled average duration. */
  lemma {:induction false} SummaryReadsBack(war: War, fixed: (real, nat) -> string)
    requires SideFits(war.clan, war.attacksPerMember) && SideFits(war.opponent, war.attacksPerMember)
    requires ParseWarData(war, fixed).Summarised?
    ensures var d := ParseWarData(war, fixed).data;
      && IsIntText(d.clan.stars) && ParseInt(d.clan.stars) == OrZero(war.clan.stars)
      && (war.clan.stars.None? ==> d.clan.stars == "0")
      && ReadRatio(d.clan.attacks) ==
           Some((OrZero(war.clan.attacks), war.attacksPerMember.value as int * |war.clan.members.value|))
      && ReadRatio(d.opponent.attacks) ==
           Some((OrZero(war.opponent.attacks), war.attacksPerMember.value as int * |war.opponent.members.value|))
      && ReadDuration(d.clan.duration) == Some(AverageDuration(war.clan.members.value) as nat)
      && ReadDuration(d.opponent.duration) == Some(AverageDuration(war.opponent.members.value) as nat)
  {
    IntToStringRoundTrip(OrZero(war.clan.stars));
  }

  lemma AttacksTextExample()
    ensures AttacksText(3, Available(2, 5)) == "3/10"
  {
    assert NatToString(10) == NatToString(1) + [DigitChar(0)];
  }

  // ---------------------------------------------------------------------
  // get_war
  // ---------------------------------------------------------------------

  /** The failure kinds of the game-data client; `OtherError` stands for
      every further kind, with its own description. */
  datatype ApiError =
    | ClientNotReady
    | BadParameters
    | AccessDenied
    | NotFound
    | RequestThrottled
    | UnknownError
    | InMaintenance
    | OtherError(description: string)

  datatype Response = Response(status: nat, message: string)

  /** The outcome of the current-war request. */
  datatype Fetch = Fetched(war: War) | FetchFailed(error: ApiError)

  /** The status and message for a failed request. */
  function ErrorResponse(e: ApiError): (r: Response)
    ensures r.status == 400 <==> e == ClientNotReady || e == BadParameters
    ensures r.status == 403 <==> e == AccessDenied
    ensures r.status == 404 <==> e == NotFound || e.OtherError?
    ensures r.status == 429 <==> e == RequestThrottled
    ensures r.status == 500 <==> e == UnknownError
    ensures r.status == 503 <==> e == InMaintenance
    ensures e.OtherError? ==> r.message == e.description
  {
    match e
    case ClientNotReady => Response(400, "Client is not ready.")
    case BadParameters => Response(400, "Bad parameters.")
    case AccessDenied => Response(403, "Access denied.")
    case NotFound => Response(404, "Not found.")
    case RequestThrottled => Response(429, "Request throttled.")
    case UnknownError => Response(500, "Unknown error.")
    case InMaintenance => Response(503, "In maintenance.")
    case OtherError(description) => Response(404, description)
  }

  /** `clientObtained` says whether `get_client` returned a client rather
      than an error; `serialise` stands for the JSON rendering of the war. */
  function GetWar(clientObtained: bool, fetch: Fetch, serialise: War -> string): (r: Response)
    ensures r.status == 200 <==> clientObtained && fetch.Fetched?
    ensures r.status in {200, 400, 403, 404, 429, 500, 503}
    ensures !clientObtained ==> r == Response(400, "Client is not initialized.")
    ensures clientObtained && fetch.Fetched? ==> r.message == serialise(fetch.war)
    ensures clientObtained && fetch.FetchFailed? ==> r == ErrorResponse(fetch.error)
  {
    if !clientObtained then Response(400, "Client is not initialized.")
    else
      match fetch
      case Fetched(war) => Response(200, serialise(war))
      case FetchFailed(e) => ErrorResponse(e)
  }
}
