/** The war snapshot as the game-data API delivers it: every field the API
    may omit is an `Option`, and each field that a side's object omits takes
    the value of that field in `DefaultClan`, so an empty side object reads
    as `DefaultClan` itself. */
module WarModel {

  datatype Option<T> = None | Some(value: T)

  const I32_MAX: int := 0x7fff_ffff

  /** The fixed-width integers of the records. */
  newtype i8 = x: int | -0x80 <= x < 0x80
  newtype i32 = x: int | -0x8000_0000 <= x < 0x8000_0000
  newtype u32 = x: int | 0 <= x < 0x1_0000_0000

  datatype BadgeUrls = BadgeUrls(small: string, large: string, medium: string)

  /** One attack of a war member; both percentages are floating point in the
      record and `real` here. */
  datatype Attack = Attack(
    attackerTag: string,
    defenderTag: string,
    stars: i32,
    destructionPercentage: real,
    order: i32,
    duration: i32)

  datatype Member = Member(
    tag: string,
    name: string,
    townhallLevel: i8,
    mapPosition: i32,
    attacks: Option<seq<Attack>>,
    opponentAttacks: i32,
    bestOpponentAttack: Option<Attack>)

  /** One side of a war. */
  datatype WarClan = WarClan(
    tag: string,
    name: string,
    badgeUrls: BadgeUrls,
    clanLevel: i8,
    attacks: Option<i32>,
    stars: Option<i32>,
    destructionPercentage: Option<real>,
    members: Option<seq<Member>>)

  /** The three time fields hold the API's compact timestamp text. */
  datatype War = War(
    state: string,
    teamSize: Option<i32>,
    attacksPerMember: Option<i8>,
    preparationStartTime: Option<string>,
    startTime: Option<string>,
    endTime: Option<string>,
    clan: WarClan,
    opponent: WarClan)

  datatype LeagueMember = LeagueMember(tag: string, name: string, townHallLevel: i8)

  datatype LeagueGroupClan = LeagueGroupClan(
    tag: string,
    name: string,
    badgeUrls: BadgeUrls,
    clanLevel: i8,
    members: seq<LeagueMember>)

  datatype Round = Round(warTags: seq<string>)

  datatype LeagueGroup = LeagueGroup(
    state: string,
    season: string,
    clans: seq<LeagueGroupClan>,
    rounds: seq<Round>)

  /** A badge record whose three URLs are all empty. */
  predicate NoBadges(b: BadgeUrls) {
    b.small == "" && b.large == "" && b.medium == ""
  }

  /** The value of a clan side that the payload does not describe. */
  function DefaultClan(): (c: WarClan)
    ensures c.tag == "" && c.name == "" && NoBadges(c.badgeUrls) && c.clanLevel == 0
    ensures c.attacks.None? && c.stars.None? && c.destructionPercentage.None? && c.members.None?
  {
    WarClan("", "", BadgeUrls("", "", ""), 0, None, None, None, None)
  }

  /** The value of a league-group clan that the payload does not describe. */
  function DefaultLeagueGroupClan(): (c: LeagueGroupClan)
    ensures c.tag == "" && c.name == "" && NoBadges(c.badgeUrls)
    ensures c.clanLevel == 0 && c.members == []
  {
    LeagueGroupClan("", "", BadgeUrls("", "", ""), 0, [])
  }

  /** A time field parsed with `parse`, which stands for the calendar
      parser; absent stays absent. */
  function ParseTime<D>(field: Option<string>, parse: string -> D): (t: Option<D>)
    ensures t.None? <==> field.None?
    ensures field.Some? ==> t.value == parse(field.value)
  {
    match field
    case None => None
    case Some(text) => Some(parse(text))
  }

  function StartTime<D>(w: War, parse: string -> D): (t: Option<D>)
    ensures t.None? <==> w.startTime.None?
    ensures w.startTime.Some? ==> t == Some(parse(w.startTime.value))
  {
    ParseTime(w.startTime, parse)
  }

  function EndTime<D>(w: War, parse: string -> D): (t: Option<D>)
    ensures t.None? <==> w.endTime.None?
    ensures w.endTime.Some? ==> t == Some(parse(w.endTime.value))
  {
    ParseTime(w.endTime, parse)
  }

  function PreparationStartTime<D>(w: War, parse: string -> D): (t: Option<D>)
    ensures t.None? <==> w.preparationStartTime.None?
    ensures w.preparationStartTime.Some? ==> t == Some(parse(w.preparationStartTime.value))
  {
    ParseTime(w.preparationStartTime, parse)
  }
}
