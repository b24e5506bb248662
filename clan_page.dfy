/** The non-DOM logic of the clan page script: its duration rendering, the
    query-string reader, the first-attack time totals, the grouping of the
    member list into columns of ten, and the war-state label. */
module ClanPage {
  import opened WarModel
  import opened Text
  import ClanInfo

  // ---------------------------------------------------------------------
  // formatDuration
  // ---------------------------------------------------------------------

  /** Whole minutes, 'm', the remaining seconds without padding, 's'. */
  function FormatDuration(seconds: nat): (text: string)
    ensures ReadDuration(text) == Some(seconds)
  {
    var m, s := NatToString(seconds / 60), NatToString(seconds % 60);
    var text := m + ['m'] + s + ['s'];
    DigitsAvoid(m, 'm');
    DigitsAvoid(s, 'm');
    assert text[..|text| - 1] == m + ['m'] + s;
    SplitAtFirst(m, 'm', s);
    SplitWithoutSeparator(s, 'm');
    ParseNatToString(seconds / 60);
    ParseNatToString(seconds % 60);
    text
  }

  /** The inverse of `FormatDuration`. */
  function ReadDuration(text: string): Option<nat>
  {
    if |text| == 0 || text[|text| - 1] != 's' then None
    else
      var parts := Split(text[..|text| - 1], 'm');
      if |parts| == 2 && IsNatText(parts[0]) && IsNatText(parts[1]) && ParseNat(parts[1]) < 60
      then Some(ParseNat(parts[0]) * 60 + ParseNat(parts[1]))
      else None
  }

  /** The reader accepts no other text for a value than the rendered one,
      so the round trip fixes the exact text: neither part is padded. */
  lemma ReadDurationExact(text: string, seconds: nat)
    requires ReadDuration(text) == Some(seconds)
    ensures text == FormatDuration(seconds)
  {
    var body := text[..|text| - 1];
    var parts := Split(body, 'm');
    JoinTwo(parts, 'm');
    assert text == body + ['s'];
    assert seconds / 60 == ParseNat(parts[0]) && seconds % 60 == ParseNat(parts[1]);
    NatTextCanonical(parts[0]);
    NatTextCanonical(parts[1]);
  }

  lemma FormatDurationExample()
    ensures FormatDuration(125) == "2m5s"
    ensures FormatDuration(60) == "1m0s"
  {
  }

  // ---------------------------------------------------------------------
  // getQueryParams
  // ---------------------------------------------------------------------

  /** `substring(1)`: the text after the first character, empty when there is none. */
  function DropFirst(s: string): string {
    if |s| == 0 then "" else s[1..]
  }

  /** The '&'-separated pairs of a location's search text. */
  function Pairs(search: string): (pairs: seq<string>)
    ensures 1 <= |pairs|
    ensures forall i :: 0 <= i < |pairs| ==> '&' !in pairs[i]
    ensures Join(pairs, '&') == DropFirst(search)
  {
    Split(DropFirst(search), '&')
  }

  /** A pair's key: the text before its first '='. */
  function PairKey(pair: string): string {
    Split(pair, '=')[0]
  }

  /** A pair's value: the text between its first and second '=', decoded;
      with no '=' at all the value is undefined, which decodes to the text
      "undefined". */
  function PairValue(pair: string, decode: string -> string): string {
    var parts := Split(pair, '=');
    if |parts| >= 2 then decode(parts[1]) else decode("undefined")
  }

  /** The parameters named by the pairs, each later pair overwriting its key. */
  function ParamsOf(pairs: seq<string>, decode: string -> string): map<string, string>
  {
    if |pairs| == 0 then map[]
    else ParamsOf(pairs[..|pairs| - 1], decode)[PairKey(pairs[|pairs| - 1]) := PairValue(pairs[|pairs| - 1], decode)]
  }

  /** The source's loop over the pairs; `decode` stands for URI decoding. */
  method GetQueryParams(search: string, decode: string -> string) returns (params: map<string, string>)
    ensures params == ParamsOf(Pairs(search), decode)
  {
    var pairs := Split(DropFirst(search), '&');
    params := map[];
    var i := 0;
    while i < |pairs|
      invariant 0 <= i <= |pairs|
      invariant params == ParamsOf(pairs[..i], decode)
    {
      var parts := Split(pairs[i], '=');
      var key := parts[0];
      var value := if |parts| >= 2 then decode(parts[1]) else decode("undefined");
      assert pairs[..i + 1][..i] == pairs[..i];
      params := params[key := value];
      i := i + 1;
    }
    assert pairs[..i] == pairs;
  }

  /** The keys named by a list of pairs. */
  function KeysOf(pairs: seq<string>): set<string> {
    set i | 0 <= i < |pairs| :: PairKey(pairs[i])
  }

  /** Every pair's key is a parameter, and nothing else is. */
  lemma {:induction false} ParamsKeys(pairs: seq<string>, decode: string -> string)
    ensures ParamsOf(pairs, decode).Keys == KeysOf(pairs)
    decreases |pairs|
  {
    if |pairs| > 0 {
      ParamsKeys(pairs[..|pairs| - 1], decode);
      KeysOfLast(pairs);
    }
  }

  lemma KeysOfLast(pairs: seq<string>)
    requires |pairs| > 0
    ensures KeysOf(pairs) == KeysOf(pairs[..|pairs| - 1]) + {PairKey(pairs[|pairs| - 1])}
  {
    var front := pairs[..|pairs| - 1];
    forall x | x in KeysOf(pairs) ensures x in KeysOf(front) + {PairKey(pairs[|pairs| - 1])} {
      var i :| 0 <= i < |pairs| && PairKey(pairs[i]) == x;
      if i < |front| { assert front[i] == pairs[i]; }
    }
    forall x | x in KeysOf(front) ensures x in KeysOf(pairs) {
      var i :| 0 <= i < |front| && PairKey(front[i]) == x;
      assert front[i] == pairs[i];
    }
  }

  /** A key's value is that of its last pair: a later duplicate overwrites
      an earlier one. */
  lemma {:induction false} LastPairWins(pairs: seq<string>, decode: string -> string, i: nat)
    requires i < |pairs|
    requires forall l :: i < l < |pairs| ==> PairKey(pairs[l]) != PairKey(pairs[i])
    ensures PairKey(pairs[i]) in ParamsOf(pairs, decode)
    ensures ParamsOf(pairs, decode)[PairKey(pairs[i])] == PairValue(pairs[i], decode)
    decreases |pairs|
  {
    if i < |pairs| - 1 {
      var front := pairs[..|pairs| - 1];
      assert front[i] == pairs[i];
      forall l | i < l < |front| ensures PairKey(front[l]) != PairKey(front[i]) {
        assert front[l] == pairs[l];
      }
      LastPairWins(front, decode, i);
    }
  }

  /** A value is the text between the first two '=': "a=b=c" reads as a -> b. */
  lemma PairExample(decode: string -> string)
    ensures PairKey("a=b=c") == "a" && PairValue("a=b=c", decode) == decode("b")
    ensures PairKey("tag") == "tag" && PairValue("tag", decode) == decode("undefined")
  {
    assert "a=b=c" == "a" + ['='] + "b=c";
    SplitAtFirst("a", '=', "b=c");
    assert "b=c" == "b" + ['='] + "c";
    SplitAtFirst("b", '=', "c");
    SplitWithoutSeparator("tag", '=');
  }

  // ---------------------------------------------------------------------
  // The total-time loops of populateClanData
  // ---------------------------------------------------------------------

  /** The sum of first-attack durations over the members that have an attack
      list; `None` where the script throws, which is when a member's list is
      present but empty (its first attack is undefined). */
  function FirstAttackTotal(members: seq<Member>): Option<int>
  {
    if |members| == 0 then Some(0)
    else
      var before := FirstAttackTotal(members[..|members| - 1]);
      var m := members[|members| - 1];
      match before
      case None => None
      case Some(total) =>
        match m.attacks
        case None => Some(total)
        case Some(attacks) => if |attacks| == 0 then None else Some(total + attacks[0].duration as int)
  }

  /** A side's first-attack total; `None` also where the side has no member
      list at all, since the script cannot iterate over it. */
  function SideTotal(side: WarClan): Option<int> {
    match side.members
    case None => None
    case Some(members) => FirstAttackTotal(members)
  }

  /** The script's loop over one side's members. */
  method SideTotalTime(side: WarClan) returns (total: Option<int>)
    ensures total == SideTotal(side)
  {
    if side.members.None? {
      return None;
    }
    var members := side.members.value;
    var sum := 0;
    var i := 0;
    while i < |members|
      invariant 0 <= i <= |members|
      invariant FirstAttackTotal(members[..i]) == Some(sum)
    {
      var member := members[i];
      assert members[..i + 1][..i] == members[..i];
      if member.attacks.Some? {
        if |member.attacks.value| == 0 {
          ThrowPersists(members, i + 1);
          return None;
        }
        sum := sum + member.attacks.value[0].duration as int;
      }
      i := i + 1;
    }
    assert members[..i] == members;
    total := Some(sum);
  }

  /** What the time line of the page shows. */
  datatype TimeLine = NotShown | Shown(clanTotal: int, opponentTotal: int) | Threw

  /** The guarded part of populateClanData: outside the not-in-war state
      both sides are summed, clan first, and the first side that throws
      stops the script. The member columns drawn just before throw under
      exactly the same conditions, so they do not change the outcome. */
  method WarTimeTotals(war: War) returns (line: TimeLine)
    ensures war.state == "notInWar" ==> line == NotShown
    ensures war.state != "notInWar" && SideTotal(war.clan).Some? && SideTotal(war.opponent).Some? ==>
      line == Shown(SideTotal(war.clan).value, SideTotal(war.opponent).value)
    ensures war.state != "notInWar" && (SideTotal(war.clan).None? || SideTotal(war.opponent).None?) ==>
      line == Threw
  {
    if war.state == "notInWar" {
      return NotShown;
    }
    var clanTotal := SideTotalTime(war.clan);
    if clanTotal.None? {
      return Threw;
    }
    var opponentTotal := SideTotalTime(war.opponent);
    if opponentTotal.None? {
      return Threw;
    }
    line := Shown(clanTotal.value, opponentTotal.value);
  }

  /** Once the script has thrown, the rest of the list does not matter. */
  lemma {:induction false} ThrowPersists(members: seq<Member>, i: nat)
    requires 0 < i <= |members|
    requires FirstAttackTotal(members[..i]).None?
    ensures FirstAttackTotal(members).None?
    decreases |members|
  {
    if i < |members| {
      assert members[..|members| - 1][..i] == members[..i];
      ThrowPersists(members[..|members| - 1], i);
    } else {
      assert members[..i] == members;
    }
  }

  /** The script throws exactly when some member has an empty attack list. */
  lemma {:induction false} TotalFailsIff(members: seq<Member>)
    ensures FirstAttackTotal(members).None? <==>
      exists i :: 0 <= i < |members| && members[i].attacks == Some([])
    decreases |members|
  {
    if |members| > 0 {
      var front := members[..|members| - 1];
      TotalFailsIff(front);
      if exists i :: 0 <= i < |front| && front[i].attacks == Some([]) {
        var i :| 0 <= i < |front| && front[i].attacks == Some([]);
        assert members[i] == front[i];
      }
      if exists i :: 0 <= i < |members| && members[i].attacks == Some([]) {
        var i :| 0 <= i < |members| && members[i].attacks == Some([]);
        if i < |front| { assert front[i] == members[i]; }
      }
    }
  }

  /** Where every member made at most one attack, the page's first-attack
      total is the backend's pooled total. */
  lemma {:induction false} FirstAttackTotalIsPooledTotal(members: seq<Member>)
    requires forall i :: 0 <= i < |members| ==>
      members[i].attacks.None? || |members[i].attacks.value| == 1
    ensures FirstAttackTotal(members) == Some(ClanInfo.TotalDuration(members))
    decreases |members|
  {
    if |members| > 0 {
      var front := members[..|members| - 1];
      FirstAttackTotalIsPooledTotal(front);
      var m := members[|members| - 1];
      if m.attacks.Some? {
        var a := m.attacks.value;
        assert a[..0] == [];
        assert a[..|a| - 1] == a[..0];
      }
      ClanInfo.SumConcat(ClanInfo.Durations(front), ClanInfo.MemberDurations(m));
    }
  }

  // ---------------------------------------------------------------------
  // addMembers
  // ---------------------------------------------------------------------

  function Min(a: int, b: int): int {
    if a < b then a else b
  }

  /** `groups` cuts `members` into consecutive groups of ten: group `g`
      holds the members from index `10 * g` on, ten of them or as many as
      are left. */
  ghost predicate IsGrouping<T>(groups: seq<seq<T>>, members: seq<T>) {
    && |groups| == (|members| + 9) / 10
    && (forall g :: 0 <= g < |groups| ==> |groups[g]| == Min(10, |members| - 10 * g))
    && (forall g, k :: 0 <= g < |groups| && 0 <= k < |groups[g]| ==> groups[g][k] == members[10 * g + k])
  }

  /** The script's loop, which opens a new group at every index divisible by
      ten and appends each member to the newest group. */
  method AddMembers<T>(members: seq<T>) returns (groups: seq<seq<T>>)
    ensures IsGrouping(groups, members)
  {
    groups := [];
    var index := 0;
    while index < |members|
      invariant 0 <= index <= |members|
      invariant IsGrouping(groups, members[..index])
    {
      if index % 10 == 0 {
        groups := groups + [[members[index]]];
      } else {
        var last := |groups| - 1;
        groups := groups[last := groups[last] + [members[index]]];
      }
      index := index + 1;
    }
    assert members[..index] == members;
  }

  /** Every group holds one to ten members, and all but the last hold ten. */
  lemma GroupSizes<T>(groups: seq<seq<T>>, members: seq<T>)
    requires IsGrouping(groups, members)
    ensures forall g :: 0 <= g < |groups| ==> 1 <= |groups[g]| <= 10
    ensures forall g :: 0 <= g < |groups| - 1 ==> |groups[g]| == 10
  {
  }

  /** Member `i` is entry `i % 10` of group `i / 10`. */
  lemma GroupIndex<T>(groups: seq<seq<T>>, members: seq<T>, i: nat)
    requires IsGrouping(groups, members)
    requires i < |members|
    ensures i / 10 < |groups| && i % 10 < |groups[i / 10]|
    ensures groups[i / 10][i % 10] == members[i]
  {
  }

  function Flatten<T>(groups: seq<seq<T>>): seq<T> {
    if |groups| == 0 then [] else Flatten(groups[..|groups| - 1]) + groups[|groups| - 1]
  }

  /** Reading the groups in order gives back the member list: no member is
      lost, repeated or moved. */
  lemma {:induction false} GroupingFlattens<T>(groups: seq<seq<T>>, members: seq<T>)
    requires IsGrouping(groups, members)
    ensures Flatten(groups) == members
    decreases |groups|
  {
    if |groups| > 0 {
      var last := |groups| - 1;
      var front := members[..10 * last];
      assert IsGrouping(groups[..last], front) by {
        forall g, k | 0 <= g < last && 0 <= k < |groups[..last][g]|
          ensures groups[..last][g][k] == front[10 * g + k]
        {
          assert groups[..last][g] == groups[g];
        }
      }
      GroupingFlattens(groups[..last], front);
      assert groups[last] == members[10 * last..] by {
        forall k | 0 <= k < |groups[last]| ensures groups[last][k] == members[10 * last + k] {}
      }
      assert members == front + members[10 * last..];
    }
  }

  // ---------------------------------------------------------------------
  // stateText
  // ---------------------------------------------------------------------

  const PreparationLabel: string := "준비중"
  const InWarLabel: string := "전쟁중"
  const WarEndedLabel: string := "전쟁종료. 다음전쟁까지 대기"
  const DefaultLabel: string := "전쟁중이 아님. 대기중.."

  /** The label shown for a war state; unknown states get the default label. */
  function StateText(state: string): (text: string)
    ensures text == PreparationLabel <==> state == "preparation"
    ensures text == InWarLabel <==> state == "inWar"
    ensures text == WarEndedLabel <==> state == "warEnded"
    ensures text == DefaultLabel <==> state !in {"preparation", "inWar", "warEnded"}
  {
    if state == "preparation" then PreparationLabel
    else if state == "inWar" then InWarLabel
    else if state == "warEnded" then WarEndedLabel
    else DefaultLabel
  }
}
