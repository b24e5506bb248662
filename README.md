# Clan-war scoreboard: a verified model of its core logic

The scoreboard is a desktop application. Its backend, written in Rust, fetches
Clash of Clans war snapshots and clan-search results from the game's data
API. Its web front end shows them on a clan page and a scoreboard overlay.
This project models, in Dafny, the parts of that logic that need no I/O:

- **The war data model** (`war.dfy`, module `WarModel`). It holds the war
  snapshot records:
  - every field that the API may omit is an `Option`;
  - each field that a side's object omits takes the value of that field in
    the default clan, so an empty side object reads as the default clan;
  - the three time accessors map the optional timestamp text through a calendar
    parser, which the model takes as a parameter.
- **The war summariser** (`clan_info.dfy`, module `ClanInfo`). It turns a
  snapshot into two display records, one for the clan and one for the
  opponent:
  - the badge URL;
  - the stars;
  - the destruction percentage, with no decimals at exactly 100 and one decimal
    otherwise;
  - the mean attack duration, pooled over every attack of every member,
    truncated, and rendered `M:SS`;
  - the attack ratio `used/available`.

  The summariser panics when either side has no member list or the war has no
  attacks-per-member value. The model represents each panic as an explicit
  `Panicked` result. The module also holds the table that maps API errors
  to status codes for the current-war command. The nested loops of the
  average are an imperative method. It is proved equal to the pooled-mean
  specification, with 32-bit accumulators.
- **Clan-search ranking** (`search.dfy`, module `Search`). The comparator
  puts exact case-insensitive name matches first, then orders by
  Levenshtein distance to the query, then by clan level, highest first.
  - The comparator is proved to be the lexicographic order on the key
    (distance, −level), because distance 0 means an exact match.
  - The ranking is a stable in-place insertion sort over an array. It is
    proved sorted, a permutation of its input, and stable.
  - Any two sorted rearrangements that keep every group of equal keys in order
    are proved equal. So the library's stable merge sort produces the same
    sequence as this sort.
- **The clan page script** (`clan_page.dfy`, module `ClanPage`). These are the
  non-DOM helpers:
  - the `XmYs` duration text;
  - the query-string reader;
  - the first-attack total-time loops, including the case where the script
    throws;
  - the grouping of the member list into columns of ten;
  - the war-state label.
- **Decimal text** (`text.dfy`, module `Text`). It holds integer rendering and
  parsing, two-digit zero padding, and a one-character `split` with the
  semantics of JavaScript's `String.prototype.split`. The renderers in the other
  modules are stated through these, and the properties are round trips back to
  the numbers.

Attacks per member is an optional field of the war record. The summariser
unwraps it, so a missing value panics, and `ParseWarData` models that panic.

## Model

| member | source | states |
|---|---|---|
| WarModel.DefaultClan | src-tauri/src/models/war.rs:77-92 | the default clan has empty tag, name and badge URLs, level 0, and no attacks, stars, percentage or member list |
| WarModel.DefaultLeagueGroupClan | src-tauri/src/models/war.rs:43-55 | the default league-group clan has empty tag, name and badge URLs, level 0 and an empty member list |
| WarModel.ParseTime | src-tauri/src/models/war.rs:123-129 | an optional timestamp maps to absent exactly when the text is absent, and otherwise to the parse of the text |
| WarModel.StartTime | src-tauri/src/models/war.rs:123-129 | the start time is absent exactly when the start-time field is absent, and otherwise is the parsed field |
| WarModel.EndTime | src-tauri/src/models/war.rs:137-143 | the end time is absent exactly when its field is absent, and otherwise is the parsed field |
| WarModel.PreparationStartTime | src-tauri/src/models/war.rs:151-163 | the preparation start time is absent exactly when its field is absent, and otherwise is the parsed field |
| ClanInfo.AverageDuration | src-tauri/src/coc_models/clan_info.rs:126-141 | with no attack the average is 0; otherwise avg·count ≤ total < (avg+1)·count over all pooled attacks, so it is the truncated mean |
| ClanInfo.CalculateAverageDuration | src-tauri/src/coc_models/clan_info.rs:126-142 | the nested loops with 32-bit total and count return exactly the pooled truncated mean |
| ClanInfo.AddAttacks | src-tauri/src/coc_models/clan_info.rs:130-135 | the loop over one member's attacks adds their summed durations to the total and their number to the count, without overflow |
| ClanInfo.DurationsConcat | src-tauri/src/coc_models/clan_info.rs:129-136 | pooling is additive over member lists: the durations, count and total of a concatenation are those of the parts combined |
| ClanInfo.NoAttacksNothingPooled | src-tauri/src/coc_models/clan_info.rs:129-136 | members whose attack list is absent or empty contribute no duration, so nothing is pooled and the count is 0 |
| ClanInfo.AverageWithoutAttacks | src-tauri/src/coc_models/clan_info.rs:129-141 | when no member has an attack, whether the list is absent or empty, the average is 0 |
| ClanInfo.FormatDuration | src-tauri/src/coc_models/clan_info.rs:144-148 | the `M:SS` text reads back as the same number of seconds: minutes, then ':', then two digits below 60 |
| ClanInfo.FormatDurationInjective | src-tauri/src/coc_models/clan_info.rs:144-148 | distinct second counts render as distinct texts |
| ClanInfo.FormatDurationExamples | src-tauri/src/coc_models/clan_info.rs:144-148 | 125 renders "2:05", 59 renders "0:59", 600 renders "10:00" |
| ClanInfo.ReadDurationExact | src-tauri/src/coc_models/clan_info.rs:144-148 | the only text that reads back as a second count is its `M:SS` rendering: minutes unpadded, seconds two digits |
| ClanInfo.PercentageDecimals | src-tauri/src/coc_models/clan_info.rs:84-90 | a percentage gets no decimal place exactly when it is 100, and one decimal place otherwise |
| ClanInfo.AttacksText | src-tauri/src/coc_models/clan_info.rs:97-102 | the attacks text reads back as the pair (used, available) |
| ClanInfo.AttacksTextExample | src-tauri/src/coc_models/clan_info.rs:97-102 | 3 used of 2 per member times 5 members renders "3/10" |
| ClanInfo.ReadRatioExact | src-tauri/src/coc_models/clan_info.rs:97-102 | the only text that reads back as a pair is its attacks rendering: two canonical decimal integers around '/' |
| ClanInfo.SummariseSide | src-tauri/src/coc_models/clan_info.rs:92-116 | a side's record has its large badge URL verbatim, its stars or 0, its percentage or 0 formatted, its pooled average duration, and used/(per-member × roster size); the duration and attacks readers accept only canonical text, so, with the two exactness lemmas, these fix the texts themselves |
| ClanInfo.ParseWarData | src-tauri/src/coc_models/clan_info.rs:77-118 | the summary succeeds exactly when both member lists and attacks-per-member are present; otherwise it panics at the first missing one in source order; the clan record comes from clan fields only and the opponent record from opponent fields only |
| ClanInfo.SummarySwapsWithSides | src-tauri/src/coc_models/clan_info.rs:92-116 | swapping clan and opponent in the snapshot swaps the two records |
| ClanInfo.DefaultSideCannotBeSummarised | src-tauri/src/coc_models/clan_info.rs:77-82 | a side that took the default clan value has no member list, so summarising panics |
| ClanInfo.SummaryReadsBack | src-tauri/src/coc_models/clan_info.rs:92-116 | the stars text reads back as the stars, and is "0" when they are absent; the attacks texts read back as used and available; the durations read back as the averages; every reader here accepts only canonical decimal text |
| ClanInfo.ErrorResponse | src-tauri/src/coc_models/clan_info.rs:16-49 | status 400 exactly for not-ready or bad parameters, 403 for access denied, 404 for not found or any other error (message = its description), 429 throttled, 500 unknown, 503 maintenance |
| ClanInfo.GetWar | src-tauri/src/coc_models/clan_info.rs:9-56 | status 200 exactly when `get_client` returns a client and the fetch succeeds, with the serialised war; an error from `get_client` gives 400 "Client is not initialized."; a failed fetch gives the error's response; the status is always one of the seven codes |
| Search.Lower | src-tauri/src/coc_models/search.rs:25-30 | the lowered name spells the same text up to ASCII case and holds no upper-case ASCII letter |
| Search.LowerEqualIff | src-tauri/src/coc_models/search.rs:25-30 | two names lower to the same text exactly when they agree character by character up to ASCII case |
| Search.LevenshteinZeroIff | src-tauri/src/coc_models/search.rs:32-33 | the edit distance of two names is 0 exactly when they are equal |
| Search.CompareIsKeyOrder | src-tauri/src/coc_models/search.rs:28-44 | the comparator equals the lexicographic comparison of (distance, −level) |
| Search.CompareConsistent | src-tauri/src/coc_models/search.rs:28-44 | the comparator is reflexive, antisymmetric in its results and transitive: a total preorder |
| Search.RankedOrder | src-tauri/src/coc_models/search.rs:35-42 | in a ranked list exact matches precede non-matches, distances never decrease, and at equal distance levels never increase |
| Search.SortedStableUnique | src-tauri/src/coc_models/search.rs:28 | two sorted sequences that agree on the order within every group of equal keys are equal, so every stable sort by the comparator gives the same result |
| Search.SortBy | src-tauri/src/coc_models/search.rs:26-44 | the in-place sort leaves the array sorted by key, a permutation of its old contents, and with every group of equal keys in its old order |
| Search.RankSearchResults | src-tauri/src/coc_models/search.rs:24-28 | the ranked copy of the items is sorted by key, a permutation of them, and stable |
| Text.ZeroPad2 | src-tauri/src/coc_models/clan_info.rs:147 | a number below 100 renders as exactly two digits that read back as the number |
| Text.Split | src/clan.js:13-14 | splitting on a character yields at least one part, no part contains the separator, and joining the parts gives back the text |
| ClanPage.FormatDuration | src/clan.js:20-24 | the `XmYs` text reads back as the same number of seconds: whole minutes, 'm', unpadded seconds below 60, 's' |
| ClanPage.ReadDurationExact | src/clan.js:20-24 | the only text that reads back as a second count is its `XmYs` rendering: both numbers unpadded |
| ClanPage.FormatDurationExample | src/clan.js:20-24 | 125 renders "2m5s" and 60 renders "1m0s" |
| ClanPage.Pairs | src/clan.js:13 | the search text after its first character splits into at least one pair; no pair contains '&', and joining the pairs with '&' gives back that text |
| ClanPage.GetQueryParams | src/clan.js:11-18 | the loop builds the map that sets each pair's key to its decoded value, pair by pair in order |
| ClanPage.ParamsKeys | src/clan.js:13-16 | the parameter names are exactly the keys of the pairs |
| ClanPage.LastPairWins | src/clan.js:15 | a key's value is the decoded value of its last pair: a later duplicate overwrites an earlier one |
| ClanPage.PairExample | src/clan.js:14-15 | "a=b=c" gives key a with value b; a pair without '=' gets the decoding of "undefined" |
| ClanPage.SideTotalTime | src/clan.js:125-137 | the loop sums the first attack's duration of each member that has an attack list; it throws when the side has no list or a member's list is empty |
| ClanPage.WarTimeTotals | src/clan.js:121-137 | in the not-in-war state no totals are computed; otherwise both totals are shown when both sides can be summed, and the script throws otherwise |
| ClanPage.TotalFailsIff | src/clan.js:125-130 | the total fails exactly when some member has an empty attack list |
| ClanPage.FirstAttackTotalIsPooledTotal | src/clan.js:125-130 | when every member's attack list is absent or holds exactly one attack, the page's first-attack total equals the backend's pooled total |
| ClanPage.AddMembers | src/clan.js:98-120 | the loop cuts the member list into ceil(n/10) consecutive groups, with a new group opened at every index divisible by ten |
| ClanPage.GroupSizes | src/clan.js:101-106 | every group holds one to ten members, and all but the last hold ten |
| ClanPage.GroupIndex | src/clan.js:101-106 | member i is entry i mod 10 of group i div 10 |
| ClanPage.GroupingFlattens | src/clan.js:101-119 | reading the groups in order gives back the member list |
| ClanPage.StateText | src/clan.js:149-158 | preparation, inWar and warEnded get their labels, and every other state gets the default label, in both directions |

## Left out

- JSON parsing and serialisation are not modelled. The summariser and the
  search command take typed values, and `GetWar` takes the serialiser as a
  parameter. So the `Err` path for a payload that fails to parse is not
  modelled.
- The calendar parser is a parameter. The panic its `unwrap` raises on
  malformed timestamp text is not modelled.
- Floating point is modelled as `real`, and fixed-point rendering is an
  abstract function `fixed(value, places)`. Only the choice of decimal places
  is modelled.
- The clan page sums destruction percentages in floating point. That sum is
  not modelled.
- `search_clans` has client-side failures, and they are not modelled:
  - a poisoned lock gives 400;
  - a failed clan search gives 400 with the error text.

  Only the ranking of the returned items is modelled.
- `ClanItem` keeps only the fields the ranking reads. The search library's full
  clan record is not part of this model.
- Search.Lower: lowercases ASCII letters only, because Rust's Unicode
  lowercase mapping is not modelled.
- Search.SortBy: is an insertion sort, not the library's merge sort. It has
  the same result, because `Search.SortedStableUnique` shows that the stable
  sorted rearrangement is unique.
- ClanInfo.CalculateAverageDuration: requires non-negative durations and a
  total and count that fit in 32 bits. The i32 wrap-around or overflow panic
  is not modelled.
- ClanInfo.AverageDuration: has the same precondition as
  `CalculateAverageDuration`.
- ClanInfo.ParseWarData: requires that each side's durations fit as above.
  It also requires that the roster length cast to i32 and the
  attacks-per-member product do not overflow.
- The networked calls of the game-data client are not modelled. `GetWar`
  takes whether `get_client` returned a client and the outcome of the fetch
  as inputs.
- ClanInfo.GetWar: does not model the panic before the first login.
  `get_client` and `search_clans` both unwrap the global client cell, which
  is empty until a login succeeds, so either call panics then. After a
  login the cell always holds a client, so a poisoned lock is the only
  error `get_client` returns.
- The async runtime is not modelled.
- Login and session storage (`login.rs`) and window management (`window.rs`)
  are not part of this model. Neither is the application bootstrap
  (`main.rs`, `lib.rs`, `mod.rs`).
- The clan page's DOM updates, `invoke`/`emit` calls, timers, file readers
  and the scoreboard window are not modelled. URI decoding is a
  parameter `decode`.
- ClanPage.FormatDuration: takes a non-negative number of seconds. The
  shown time difference can be negative, and JavaScript's floor and remainder
  on negative numbers are not modelled.
- ClanPage.StateText: looks up the three own labels only. The script's object
  lookup would also find inherited property names such as `toString`. That
  lookup is not modelled.
- ClanPage.GetQueryParams: stores every key as an ordinary map entry. The
  script's plain object would not store a `__proto__` key as a parameter.
  `decode` is total, while `decodeURIComponent` throws a URIError on a
  malformed escape; that exception is not modelled.
- ClanPage.SideTotalTime: sums unbounded integers. The script adds doubles,
  which are exact only below 2^53, so rounding of larger sums is not
  modelled.
- ClanPage.AddMembers: models the grouping only. The HTML of each member
  entry is not modelled, and neither is the TypeError it raises on an empty
  attack list. `ClanPage.WarTimeTotals` raises under the same conditions.
