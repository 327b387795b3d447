# Genrl core: a verified model

Genrl follows a MyAnimeList watch list, works out which episode comes next, finds a release, downloads it
and files it. This project models the parts of `genrl-core` whose correctness is not visible in any one
function, and proves what they are for.

| file | models |
|---|---|
| `Graphs`, `HashOrders`, `Sorting`, `Sets`, `ListModels`, `MalModels`, `ChainTheorems` | `build_chains`: season chains from sequel and prequel links |
| `PlannerList`, `Totals`, `RegroupTheorems` | `MalList::chains`: regrouping the stored list, and what a regrouped chain counts |
| `Season`, `SeasonDecide`, `WalkLaws`, `DecideLaws`, `AbsoluteNumbering` | season numbers, the walk to the next want, the decision on a release |
| `EditDistance` | `levenshtein` and `fuzzy_ratio` |
| `Calendar`, `PubDate`, `DateText` | civil dates, printed timestamps, RFC 822 dates |
| `Limiter`, `Breaker`, `Gate`, `GateLaws` | the traffic gate: token buckets, circuit breaker, retry loop |
| `Jobs`, `JobLaws`, `Scheduler`, `SchedulerLaws`, `ResumeLaws` | the job table, parking and resuming, the retry budget, concurrency counters |
| `Logging` | the rotating log |
| `Crc`, `CrcReference`, `Zlib`, `Png` | the solid-colour icon writer, against the definitions of its formats |
| `Text`, `Utf8`, `UrlCodec` | percent-encoding and query strings, lossy conversion to text |
| `Bytes`, `Numbers`, `Wrappers` | bytes, minimum and maximum, result types |

Where the source updates an object, an array or a table in place, so does the model: `BuildChains` and
`WriteOrder` write an array of entries, `Levenshtein` swaps two arrays, and `Limiter`, `CircuitBreaker`,
`ServiceState`, `Store`, `Scheduler` and `RotatingWriter` are classes. The trace of a gate call and the
marks of a scheduler are ghost fields that the effects themselves extend: taking a permit, reading the phase,
sending, reporting, sleeping; looking at a counter, starting a task, ending one. Each such method is proved
against a function or predicate on values, and the theorems are about those. What such a function means is said
without it: by column in `JobLaws`, by kind of outcome in `GateLaws`, in the fields of entry, want and release in
`DecideLaws` and `WalkLaws`, in the fields of a row in `SchedulerLaws` and `ResumeLaws`, by the relations in
`ComesBefore`, and against RFC 1950, RFC 1951, RFC 3629, RFC 3986, IEEE 802.3 and the PNG format.

Hash maps are visited by arbitrary choice, and the set that orders a chain in an order that is an argument, so
results hold for every iteration order. Clock readings, wire outcomes, other callers, finishing tasks, short
writes and probe answers are arguments, so results hold for all of them.

## Properties that hold only under a condition

Several expected properties are not true of the code on all inputs. For each, the exact condition is proved,
as an if and only if, or an input that shows the failure stands beside it.

- `decide` indexes past the chain when the wanted season number is more than one past its end, which an
  explicit season number in a title can cause: `SomeReleaseStopsIffSeasonPastEnd`,
  `MarkedTitleMakesDecideStop`.
- `season_of` recurses by id, so it is the left fold it is meant to be exactly when no new id follows a
  repeated one: `SeasonOfIsFoldIffNewIdsFirst`. Distinct ids, which the list has, are enough.
- The orders `build_chains` emits, over all hash orders, are exactly those whose every pick obeys its rule:
  `EmittedIffKahn`. So season numbers of an acyclic component are the same for every hash order if and only if
  each entry is linked to the next: `HashOrderNeverShowsIffLinear`. Franchise numbers always are.
- Regrouping the written list gives back an emitted order if and only if no entry shadowed by a repeated id
  carries the franchise and the seasons along the order never fall, equal ones standing in list order:
  `RegroupingReproducesOrderIff`.
- A release number can fit two wants. It fits one only if and only if it exceeds the count of every season
  but the first, the season it falls in excepted when that carries no offset:
  `UnambiguousIffBeyondLaterSeasons`.
- `decide` asks `episodes_before`, which counts by position, for the season that `season_of` gives, which a
  cour or part does not advance. The two agree on an entry if and only if no such split stands up to it:
  `SeasonMatchesPositionIffNoSplit`.
- An offset is written by place in the emitted order, `episodes_before` counts by season number. Where seasons
  never fall along the order, the two agree on an entry if and only if its season is its place; when that
  place lies between two entries of the same season, as after a second part of season 2, this also needs them
  in list order: `OffsetsAgreeIffSeasonIsPlace`, with an input in `SecondPartListedFirstDisagrees`.
- A release with a fractional number beyond the season's count delivers the episode of its whole part:
  `FractionHitsIff`.
- `CircuitBreaker::failures` is documented as the number of consecutive failures, but a failed trial sets it
  back to the threshold. It is that number if and only if no failure since the last success came after a look
  past the cooldown, with no report between look and failure: `FailuresExactIffNotCapped`, with an input in
  `FailureCountIsCapped`.
- `get_with` claims the half-open probe before it looks into the cache. It gives the probe back if and only if
  the cache has nothing to answer with; a fresh entry and a failed read both keep it, and every later check is
  then rejected: `ProbeReleasedIffCacheMisses`, `CacheKeepsRejecting`.
- A job's log tells its state if and only if the job was never resolved by the answer to another question of
  its show, which writes `add` into the row past `transition`: `LogAgreesIffNeverAutoAdded`, with an input in
  `AutoAddPartsRowAndLog`. A later move repairs kind and parking note, never the log: `MainMoveRepairsStep`.
- Parking keeps a job's note right if and only if the job is not parked already:
  `ParkingKeepsAgreementIffNotParked`.
- A parked job is meant to be resumed when what it waits for is in order. It is, whatever the probes say, if and
  only if the path or the client's error in its reason does not contain one of the words the reason is searched
  for; a download folder below a directory named Nyaa waits for the breaker of the release site instead of the
  disk: `ResumedWhenInOrderIff`, `ParkedIsResumedIff`.
- A finished or parked row lasts until a batch add of another job deletes it, and no shorter: `DoneIsFinal`,
  `ParkThenResume`.
- Three of the moves that worker steps ask for, and two that crash recovery asks for, are not on the
  transition table: `StepMoveLegalIff`, `RecoveryMoveLegalIff`.
- One tick can start two tasks for one job. It does so if and only if two of its passes take the job, which
  needs its kind to change between the two reads: `TwoTasksMeanKindChanged`, with an input in
  `HandoverStartsTwice`.
- A publication date whose local day starts below the 64-bit range, or whose local time lies above it,
  overflows in the final sum: `PubDateTextRoundTrip`.
- An image without rows or columns, with more than 2^31 - 1 of either, or with more compressed data than that is
  not a PNG: `SolidFileReadsBack`.
- `pct_decode` slices text at byte positions and stops when the slice would end inside a character:
  `DecodeStopsIffBadSlice`. What it returns is the encoded bytes if and only if those are UTF-8:
  `DecodeTextUndoesEncodeIffUtf8`.

Where comments and code differ, the model follows the code: `rotate` drops file `keep`, not `keep - 1`
(logging.rs:68-75), and `authorize_url` announces the plain challenge, not S256 (mal/pkce.rs:37-41).

## Model

| member | source | states |
|---|---|---|
| `Graphs.SourceExists` | core/crates/genrl-core/src/mal/models.rs:281-294 | Any nonempty vertex set of a finite acyclic graph holds a vertex nothing in the set points at, so a ready id exists while ids remain |
| `Graphs.ReadyWhenAcyclic` | core/crates/genrl-core/src/mal/models.rs:281-301 | In an acyclic component every pick of an emitted order is a ready one |
| `Graphs.FallbackNeverTakenIffAcyclic` | core/crates/genrl-core/src/mal/models.rs:273-304 | An order the loop may emit never took the smallest-id fallback, and equivalently puts every predecessor first, if and only if the component has no cycle |
| `Graphs.TopologicalMeansAcyclic` | core/crates/genrl-core/src/mal/models.rs:273-304 | A cyclic component has no order with predecessors first, so the fallback is unavoidable there |
| `Sorting.SortByKeyIsStableSort` | core/crates/genrl-core/src/planner/list.rs:148 | The contract of `sort_by_key`: ordered by key, same elements, equal keys in their old order |
| `Sorting.SortIsLexicographic` | core/crates/genrl-core/src/planner/list.rs:148 | Sorting by key a list that stands in some order sorts it by key first and that order second |
| `Sorting.LexicographicIsUnique` | core/crates/genrl-core/src/planner/list.rs:148 | No other arrangement of the same elements stands in that order |
| `Sorting.SamePartBelow` | core/crates/genrl-core/src/planner/list.rs:148 | Two arrangements of the same elements have the same elements below any key |
| `HashOrders.EmittedIsKahn` | core/crates/genrl-core/src/mal/models.rs:277-304 | For every way to iterate the hash set of remaining ids, all ids come out once and every pick was ready or, when nothing was, the smallest |
| `HashOrders.EmittedIffKahn` | core/crates/genrl-core/src/mal/models.rs:277-304 | The orders that come out, over all ways to iterate it, are exactly the orders whose every pick obeys that rule |
| `MalModels.BuildGraphs` | core/crates/genrl-core/src/mal/models.rs:226-247 | For every visiting order of the relation map: `precedes` leads from a to b exactly when both are in the list, differ, and a lists b as its sequel or b lists a as its prequel; `links` both ways |
| `MalModels.EdgeIffComesBefore` | core/crates/genrl-core/src/mal/models.rs:238-242 | The pairs the chains are built on are exactly those, in that direction |
| `MalModels.AddRelations` | core/crates/genrl-core/src/mal/models.rs:233-246 | The inner loop adds exactly the pairs one entry's sequel and prequel relations declare, in their direction, skipping foreign ids, self-links and other relation types |
| `MalModels.Explore` | core/crates/genrl-core/src/mal/models.rs:257-268 | The stack search visits every id of the connectivity class exactly once and nothing else, for every neighbour order |
| `MalModels.Components` | core/crates/genrl-core/src/mal/models.rs:251-271 | The components partition the ids into sorted connectivity classes, for every hash order |
| `MalModels.FindReady` | core/crates/genrl-core/src/mal/models.rs:280-294 | The scan returns the first ready id in iteration order, or none when no remaining id is ready |
| `MalModels.Smallest` | core/crates/genrl-core/src/mal/models.rs:297 | The fallback is the minimum of the remaining ids |
| `MalModels.EmitOrder` | core/crates/genrl-core/src/mal/models.rs:277-304 | The loop ends, cycles included, and emits the order that the iteration order of its hash set determines: a permutation of the component in which every pick was ready or, when nothing was, the smallest |
| `MalModels.IndexById` | core/crates/genrl-core/src/mal/models.rs:217-222 | Each id is indexed under the last entry that carries it |
| `MalModels.WriteOrder` | core/crates/genrl-core/src/mal/models.rs:308-319 | In place: franchise the smallest id, season the title's number or the position, offset the sum of the earlier counts or 0 once one is unknown; every other row untouched |
| `MalModels.ChainComponent` | core/crates/genrl-core/src/mal/models.rs:273-320 | One component is ordered and its rows written without disturbing the components before it |
| `MalModels.BuildChains` | core/crates/genrl-core/src/mal/models.rs:216-321 | The whole pass: every indexed row is placed by the order its component emits under the given iteration order, rows shadowed by a later duplicate id keep everything |
| `ChainTheorems.SameFranchiseIffConnected` | core/crates/genrl-core/src/mal/models.rs:249-271 | Two entries get the same franchise if and only if sequel/prequel links inside the list connect them |
| `ChainTheorems.FranchiseIsSmallestConnected` | core/crates/genrl-core/src/mal/models.rs:306-313 | The franchise is the smallest MAL id those links reach |
| `ChainTheorems.FranchiseIndependentOfHashOrder` | core/crates/genrl-core/src/mal/models.rs:306-313 | Two runs that visited the hash maps differently write the same franchises |
| `ChainTheorems.UnmarkedSeasonIsPosition` | core/crates/genrl-core/src/mal/models.rs:314-315 | Without a number in the title the season is the position in the emitted order |
| `ChainTheorems.SeasonsFollowLinksIffAcyclic` | core/crates/genrl-core/src/mal/models.rs:273-316 | In a component without numbered titles every sequel has a larger season than its prequel if and only if the declared order is acyclic |
| `ChainTheorems.SequelsFollowIffAcyclic` | core/crates/genrl-core/src/mal/models.rs:226-321 | In an unnumbered component, every row whose entry another lists as its sequel, or which lists that one as its prequel, gets the larger season, if and only if the declared links have no cycle |
| `ChainTheorems.TitleNumberIsSeason` | core/crates/genrl-core/src/mal/models.rs:313-316 | A number in the title is the season wherever the entry stands; without one its place in the order is |
| `ChainTheorems.OrderUniqueIffLinear` | core/crates/genrl-core/src/mal/models.rs:279-304 | An acyclic component has one order that obeys the rule if and only if each entry is directly linked to the next |
| `ChainTheorems.HashOrderNeverShowsIffLinear` | core/crates/genrl-core/src/mal/models.rs:273-304 | An acyclic component comes out in the same order for every way to iterate the hash set if and only if each entry is directly linked to the next |
| `PlannerList.Dedup` | core/crates/genrl-core/src/planner/list.rs:139 | On a sorted list `dedup` leaves the distinct values, ascending |
| `PlannerList.ChainOfFranchise` | core/crates/genrl-core/src/planner/list.rs:142-151 | One chain holds the entries of one franchise, stably sorted by season |
| `PlannerList.ChainsOf` | core/crates/genrl-core/src/planner/list.rs:136-154 | One chain per franchise, franchises ascending |
| `PlannerList.ChainEntryIsRow` | core/crates/genrl-core/src/planner/list.rs:41-51 | A chain's entry has the row's fields, and counts as aired unless the row has a count that is not reached |
| `PlannerList.EveryEntryInExactlyOneChain` | core/crates/genrl-core/src/planner/list.rs:136-154 | Conservation: the chains together are the list, every entry as often as it occurs there |
| `RegroupTheorems.RegroupingReproducesOrderIff` | core/crates/genrl-core/src/planner/list.rs:136-154 | Regrouping the written list gives back an emitted order if and only if no entry shadowed by a repeated id carries its franchise and the seasons along the order never fall, equal ones in list order |
| `RegroupTheorems.RegroupingReproducesOrder` | core/crates/genrl-core/src/planner/list.rs:136-154 | Without numbered titles it does if and only if no shadowed entry carries the franchise |
| `RegroupTheorems.OffsetsAgree` | core/crates/genrl-core/src/mal/models.rs:306-319 | In a franchise without numbered titles and shadowed entries, the offset written for an entry is what `episodes_before` of its season gives on the regrouped chain, or 0 when an earlier count is unknown; the rest of the list may be anything |
| `RegroupTheorems.OffsetsAgreeIffSeasonIsPlace` | core/crates/genrl-core/src/mal/models.rs:306-319 | With any titles, known positive counts and seasons that never fall along the order, the two agree on an entry if and only if its season is its place in the order; a place between two entries of that same season needs equal seasons in list order |
| `RegroupTheorems.SecondPartListedFirstDisagrees` | core/crates/genrl-core/src/mal/models.rs:306-319 | Without that they can disagree: season 2 behind its second part in the list |
| `Totals.TotalsAgreeIff` | core/crates/genrl-core/src/planner/list.rs:136-154 | What the first entries of any season-sorted arrangement count is what stands before a place in the order only for as many entries as the place has before it |
| `RegroupTheorems.BuiltChainIsCumulative` | core/crates/genrl-core/src/mal/models.rs:306-319 | Without numbered titles and with known counts, the chain regrouped from a written list carries exactly the cumulative offsets that absolute numbering needs |
| `RegroupTheorems.BuiltChainUnambiguousIff` | core/crates/genrl-core/src/season/decide.rs:78-120 | On such a chain a number of the run downloads the episode at its place and no other if and only if it exceeds the count of every season but the first |
| `Season.ComputeSeasonOf` | core/crates/genrl-core/src/season/types.rs:94-120 | The recursion with its counting loop ends and computes the numbering by position |
| `Season.ScanIsFoldPlusOne` | core/crates/genrl-core/src/season/types.rs:108-118 | The counting loop is one more than the left fold over the entries before |
| `Season.SeasonAtIsFold` | core/crates/genrl-core/src/season/types.rs:94-120 | On chains whose new ids come first, recursion and scan together equal one left fold: the explicit number, else the previous season for a split, else one more |
| `Season.SeasonOfIsFoldIffNewIdsFirst` | core/crates/genrl-core/src/season/types.rs:94-120 | That holds for all titles and marker functions if and only if no new id follows a repeated one |
| `Season.SplitAfterRepeatDisagrees` | core/crates/genrl-core/src/season/types.rs:103-105 | A chain, titles and markers on which look-up by id makes recursion and fold disagree |
| `Season.FirstAtIsPosition` | core/crates/genrl-core/src/season/types.rs:95 | The look-up by id finds exactly the first position that carries it |
| `SeasonDecide.EpisodesBefore` | core/crates/genrl-core/src/season/types.rs:133-139 | The early-return sum is the total of the earlier counts, none as soon as one is unknown, given that the slice exists |
| `SeasonDecide.WalkWantsFirstUnfinished` | core/crates/genrl-core/src/season/walk.rs:14-91 | The walk wants exactly the first entry it does not pass over, if that entry wants one, at the next episode, never beyond a known count |
| `SeasonDecide.WalkOfPassedChain` | core/crates/genrl-core/src/season/walk.rs:19-76 | A chain with nothing left is skipped with that reason |
| `SeasonDecide.FullyWatchedIff` | core/crates/genrl-core/src/season/walk.rs:53-66 | The suggestion to mark a show Completed comes exactly when the first entry not passed over is watched to its end |
| `WalkLaws.WalkSays` | core/crates/genrl-core/src/season/walk.rs:19-76 | The walk stops at the first entry that is neither completed nor planned, allowed and watched out, and says what its status calls for: on hold, dropped, manual, watched out, or the next episode under the entry's own id, title and season; past the end, nothing left; the show's override decides over the setting |
| `WalkLaws.SeasonCountsOn` | core/crates/genrl-core/src/season/types.rs:94-120 | On distinct ids the season is the number last named in a title up to the entry plus the later entries up to it that are no cour or part |
| `WalkLaws.SeasonCountsFromOne` | core/crates/genrl-core/src/season/types.rs:94-120 | Without such a title the first entry is season 1 and the count goes on from there |
| `SeasonDecide.NotFoundIff` | core/crates/genrl-core/src/season/decide.rs:10-33 | Not found is answered if and only if the chain has no such entry or the release names another season |
| `DecideLaws.DecideTells` | core/crates/genrl-core/src/season/decide.rs:10-140 | For every chain, want and release whose season fits: exactly when the release is downloaded, asked about, skipped, or makes the slice stop, in terms of the first entry with the id, the counts, the number, the batch mark and whether the show has aired; a download is always of the wanted season and episode |
| `DecideLaws.UnknownCountNeverGuesses` | core/crates/genrl-core/src/season/decide.rs:78-139 | On an entry without a count a whole number delivers an episode if and only if it is its number, or that plus a nonzero offset; any other later number is asked about |
| `DecideLaws.TotalIsSum` | core/crates/genrl-core/src/season/types.rs:133-139 | The total before a season is the sum of the counts before it, known if and only if each of them is |
| `SeasonDecide.SomeReleaseStopsIffSeasonPastEnd` | core/crates/genrl-core/src/season/decide.rs:106-114 | Some release makes the slice in `episodes_before` go out of range if and only if the want's season is more than one past the end of the chain and its entry has a count |
| `SeasonDecide.MarkedTitleMakesDecideStop` | core/crates/genrl-core/src/season/decide.rs:106-114 | The walk itself can produce such a want: one entry with a number in its title |
| `AbsoluteNumbering.HitIff` | core/crates/genrl-core/src/season/decide.rs:76-140 | Exactly which whole numbers download an episode: its own, its own plus a nonzero offset, or the cumulative one beyond the season's count |
| `AbsoluteNumbering.AskIff` | core/crates/genrl-core/src/season/decide.rs:93-140 | A whole number that downloads nothing is asked about exactly when it is beyond the season's count and not the place of another episode of that season in the run, else skipped |
| `AbsoluteNumbering.FractionHitsIff` | core/crates/genrl-core/src/season/decide.rs:106-121 | A fractional number downloads an episode if and only if its whole part is that episode's place in the run beyond the season's count |
| `AbsoluteNumbering.FindSeason` | core/crates/genrl-core/src/season/types.rs:133-139 | Every number up to the grand total falls into a season |
| `AbsoluteNumbering.AbsoluteNumberHitsOneEpisode` | core/crates/genrl-core/src/season/decide.rs:106-120 | A number beyond every single count, up to the total, downloads exactly one (season, episode), the one with n = earlier totals + episode |
| `AbsoluteNumbering.UnambiguousIffBeyondLaterSeasons` | core/crates/genrl-core/src/season/decide.rs:78-120 | With each offset cumulative or unset, a number of the run is unambiguous if and only if it exceeds the count of every season but the first, its own excepted when that has no offset |
| `AbsoluteNumbering.WalkWantsByPosition` | core/crates/genrl-core/src/season/walk.rs:78-91 | Without markers the walk asks for exactly the position-numbered wants these results speak of |
| `AbsoluteNumbering.WalkedWantIsServedIff` | core/crates/genrl-core/src/season/decide.rs:76-140 | The want the walk finds on a plain chain with known counts is downloaded, under its own season and episode, for exactly these whole numbers: its own, its own plus a nonzero offset, and the cumulative one beyond the season's count |
| `AbsoluteNumbering.CumulativeIsUnambiguousIff` | core/crates/genrl-core/src/season/decide.rs:78-120 | With every offset cumulative, the number of a place delivers that place alone if and only if it exceeds the count of every season but the first |
| `AbsoluteNumbering.EpisodesBeforeIffPositional` | core/crates/genrl-core/src/season/types.rs:133-139 | With known, positive counts, the total before a season is the total before a position only if the season is that position's |
| `AbsoluteNumbering.SplitsHoldBack` | core/crates/genrl-core/src/season/types.rs:94-120 | Without numbered titles a season never runs ahead of its position, and equals it if and only if no entry up to it, the first excepted, is a cour or part |
| `AbsoluteNumbering.SeasonMatchesPositionIffNoSplit` | core/crates/genrl-core/src/season/decide.rs:106-114 | The total that `decide` subtracts for an entry is the total of the entries before it if and only if no cour or part stands up to it |
| `EditDistance.EveryScriptCosts` | core/crates/genrl-core/src/filename/normalize.rs:98-110 | No edit script between two strings is cheaper than the table entry |
| `EditDistance.BestScript` | core/crates/genrl-core/src/filename/normalize.rs:98-110 | Some edit script costs exactly the table entry: with the row above, the table is the minimum |
| `EditDistance.ZeroIffEqual` | core/crates/genrl-core/src/filename/normalize.rs:98-110 | Distance 0 if and only if the strings are equal |
| `EditDistance.Symmetric` | core/crates/genrl-core/src/filename/normalize.rs:98-110 | The distance is symmetric |
| `EditDistance.Compose` | core/crates/genrl-core/src/filename/normalize.rs:98-110 | Two scripts in a row merge into one that costs no more than both |
| `EditDistance.TriangleInequality` | core/crates/genrl-core/src/filename/normalize.rs:98-110 | The triangle inequality |
| `EditDistance.LengthBounds` | core/crates/genrl-core/src/filename/normalize.rs:98-110 | At least the difference of the lengths, at most the larger length |
| `EditDistance.FillRow` | core/crates/genrl-core/src/filename/normalize.rs:102-106 | The inner loop turns the finished row of a prefix into the row of the next |
| `EditDistance.Levenshtein` | core/crates/genrl-core/src/filename/normalize.rs:98-110 | The two swapped rows return the minimum edit distance of any two strings |
| `EditDistance.FuzzyRatio` | core/crates/genrl-core/src/filename/normalize.rs:85-96 | The ratio of the source, empty cases included |
| `EditDistance.RatioLaws` | core/crates/genrl-core/src/filename/normalize.rs:84-96 | The ratio is symmetric, within [0, 1], and 1 on equal titles only |
| `EditDistance.RatioIsShareKept` | core/crates/genrl-core/src/filename/normalize.rs:84-96 | For nonempty titles one minus the ratio, times the longer length, is the cost of a cheapest edit script; an empty title is like nothing but another empty one |
| `Calendar.DaysRoundTrip` | core/crates/genrl-cli/src/commands/common.rs:13-24 | For every day number, the civil date is a Gregorian date and `days_from_civil` gives the number back |
| `Calendar.DateRoundTrip` | core/crates/genrl-core/src/nyaa.rs:345-354 | For every Gregorian date, its day number converts back to the date |
| `Calendar.DayNumberCountsDays` | core/crates/genrl-core/src/nyaa.rs:345-354 | The day number goes up by one from each calendar day to the next |
| `Calendar.EpochIsDayZero` | core/crates/genrl-core/src/nyaa.rs:345-354 | 1970-01-01 is day 0: with the row above this fixes `days_from_civil` completely |
| `Calendar.StampRoundTrip` | core/crates/genrl-cli/src/commands/common.rs:11-31 | Every timestamp, negative too, splits into a valid date and time of day that recombine to it |
| `Calendar.StampFromSeconds` | core/crates/genrl-cli/src/commands/common.rs:11-31 | Every valid date and time of day is what its own timestamp splits into |
| `DateText.StampTextReadsBack` | core/crates/genrl-cli/src/commands/common.rs:25-30 | The zero-padded text of any date and time, years before 1 and above 9999 included, reads back as that date and time |
| `DateText.PrintedStampDeterminesTime` | core/crates/genrl-cli/src/commands/common.rs:11-31 | Reading the text that `chrono_lite` prints for any 64-bit timestamp gives the timestamp back |
| `DateText.PubDateTextRoundTrip` | core/crates/genrl-core/src/nyaa.rs:294-316 | The text of any 64-bit timestamp, written in any zone, with or without a weekday, with any whitespace before, between and behind its fields, parses back to the timestamp if its local day starts and its local time lies within 64 bits, and overflows otherwise |
| `PubDate.SumFitsIff` | core/crates/genrl-core/src/nyaa.rs:315 | Taken from left to right, no partial sum leaves 64 bits if and only if the day's start and the local time are within them |
| `PubDate.DateFitsByNumber` | core/crates/genrl-core/src/nyaa.rs:345-354 | For every date of the 64-bit seconds no step of `days_from_civil` leaves 64 bits |
| `DateText.SplitFindsWords` | core/crates/genrl-core/src/nyaa.rs:295 | `split_whitespace` finds the same fields whatever whitespace stands around them |
| `PubDate.PrintedFieldsParse` | core/crates/genrl-core/src/nyaa.rs:296-316 | The fields of any valid stamp parse to the sum of its day, clock and zone, which is its seconds less the zone unless it overflows |
| `PubDate.MonthParses` | core/crates/genrl-core/src/nyaa.rs:318-327 | Every month name gives its number |
| `PubDate.MonthIffStarts` | core/crates/genrl-core/src/nyaa.rs:318-327 | A field is month m if and only if it starts with that month's three letters, in any case |
| `PubDate.ClockDefaults` | core/crates/genrl-core/src/nyaa.rs:307-311 | Minutes and seconds may be missing |
| `PubDate.ZoneDefaults` | core/crates/genrl-core/src/nyaa.rs:329-343 | A missing zone and a zone by name count as zero; without a sign the zone lies east |
| `PubDate.IncompleteIsNoDate` | core/crates/genrl-core/src/nyaa.rs:294-307 | Only a first field that ends with a comma is skipped; too few fields, a day or year that is no number, and no month are no date |
| `PubDate.NumberForms` | core/crates/genrl-core/src/nyaa.rs:304-311 | A plus sign is allowed; a sign alone and any other character are not |
| `PubDate.ZoneParses` | core/crates/genrl-core/src/nyaa.rs:329-343 | Every +HHMM or -HHMM zone gives its signed seconds |
| `PubDate.SignedParses` | core/crates/genrl-core/src/nyaa.rs:304-311 | Every 64-bit decimal, signed or not, parses to its value |
| `Limiter.Limiter.constructor` | core/crates/genrl-core/src/http/limiter.rs:65-80 | A full bucket for the rate, any rate, with a burst of at least one, and one for a positive per-minute cap; usable if and only if the rate is positive |
| `Limiter.Limiter.ProbeAll` | core/crates/genrl-core/src/http/limiter.rs:88-96 | The probing loop refills every bucket in place and finds the longest wait |
| `Limiter.Limiter.TryAcquire` | core/crates/genrl-core/src/http/limiter.rs:85-104 | One round spends from every bucket or from none |
| `Limiter.Limiter.Acquire` | core/crates/genrl-core/src/http/limiter.rs:83-117 | Over the turns it gets at the lock, other callers' turns between them, the wait probes and spends as the events at the lock say |
| `Limiter.WaitEndsAtFirstGrant` | core/crates/genrl-core/src/http/limiter.rs:83-117 | The wait ends exactly at the first of its own rounds that finds a token in every bucket, and goes on if there is none |
| `Limiter.Limiter.QueuedWait` | core/crates/genrl-core/src/http/limiter.rs:120-128 | The query refills and reports the longest wait, and spends nothing |
| `Limiter.SpendTogether` | core/crates/genrl-core/src/http/limiter.rs:32-56 | In every run, all buckets lose one token or none does, and tokens stay within [0, capacity] |
| `Limiter.RateBound` | core/crates/genrl-core/src/http/limiter.rs:83-117 | In every run and window, each bucket grants at most capacity + rate x time |
| `Limiter.RefillTwice` | core/crates/genrl-core/src/http/limiter.rs:32-39 | Refilling in two steps is refilling once |
| `Limiter.QueriesChangeNothing` | core/crates/genrl-core/src/http/limiter.rs:120-128 | Erasing every diagnostic query from a run leaves a state no later attempt can tell apart |
| `Limiter.WaitIsExact` | core/crates/genrl-core/src/http/limiter.rs:43-52 | After a failed round the next is granted if and only if the reported wait has passed |
| `Breakers.CircuitBreaker.constructor` | core/crates/genrl-core/src/http/breaker.rs:33-42 | A closed breaker with a threshold of at least one |
| `Breakers.CircuitBreaker.Check` | core/crates/genrl-core/src/http/breaker.rs:49-75 | New fields and verdict of `check` |
| `Breakers.CircuitBreaker.Peek` | core/crates/genrl-core/src/http/breaker.rs:83-95 | New fields and answer of `peek` |
| `Breakers.CircuitBreaker.OnSuccess` | core/crates/genrl-core/src/http/breaker.rs:97-102 | New fields of `on_success` |
| `Breakers.CircuitBreaker.OnFailure` | core/crates/genrl-core/src/http/breaker.rs:104-121 | New fields of `on_failure`, the counter saturating |
| `Breakers.RunReflects` | core/crates/genrl-core/src/http/breaker.rs:49-121 | How the fields stand after every history, late reports in any order included |
| `Breakers.HistoryDeterminesVerdict` | core/crates/genrl-core/src/http/breaker.rs:49-121 | Closed if and only if fewer than threshold failures since the last success; every verdict, retry time included, is the one the history alone determines |
| `Breakers.PeekErasure` | core/crates/genrl-core/src/http/breaker.rs:77-95 | Erasing every `peek` from a history leaves the next verdict as it was |
| `Breakers.AtMostOneTrial` | core/crates/genrl-core/src/http/breaker.rs:63-74 | Once tripped, at most one check is allowed between two consecutive reports |
| `Breakers.HalfOpenIffProbed` | core/crates/genrl-core/src/http/breaker.rs:49-95 | Over every monotone history: half-open if and only if, since the last report and with the breaker tripped, somebody looked after the cooldown |
| `Breakers.FailuresExactIffNotCapped` | core/crates/genrl-core/src/http/breaker.rs:104-125 | `failures()` never exceeds the number of failures since the last success, and is that number if and only if none of them was reported in the half-open phase |
| `Breakers.FailureCountIsCapped` | core/crates/genrl-core/src/http/breaker.rs:107-112 | A history on which it is smaller |
| `Gate.ServiceState.Dispatch` | core/crates/genrl-core/src/http/gate.rs:192-328 | Over the real limiter and breaker, with other callers interfering anywhere: what each effect of the loop recorded, where it left breaker and buckets, and its answer are those of the recursive account |
| `Gate.ServiceState.TryOnce` | core/crates/genrl-core/src/http/gate.rs:195-309 | One round does what the account of a round says, and stops the loop exactly when that does |
| `Gate.ServiceState.GetWith` | core/crates/genrl-core/src/http/gate.rs:113-151 | Refused by the breaker, answered or failed by the cache with nothing sent, or dispatched |
| `Gate.ServiceState.SendAndReport` | core/crates/genrl-core/src/http/gate.rs:217-294 | Each outcome is sent once and reported once, as a success or a failure as the branches say, right behind the send |
| `GateLaws.SendsAreBoundedAndBracketed` | core/crates/genrl-core/src/http/gate.rs:192-328 | At most max(1, max_attempts) sends, each after a grant and a look at a breaker that is not open, each followed by exactly one report; none after an answer, a client error, an oversized body or an open breaker |
| `GateLaws.EveryOutcomeIsFollowedUp` | core/crates/genrl-core/src/http/gate.rs:217-326 | Of every request in a call, by kind of outcome: an answer, a client error and an oversized body are reported as a success and end the call; a rate limit, a server error and a transport error are reported as a failure, and then, with the breaker not open, tried again if and only if attempts are left and the time with the wait that is due, Retry-After or the jittered step of the schedule, stays in the budget |
| `GateLaws.SendsKeepTheRate` | core/crates/genrl-core/src/http/gate.rs:195-210 | In every call, whatever other callers take meanwhile, the requests sent are at most the capacity of each bucket plus its rate times the time from first to last turn at the lock |
| `GateLaws.SleepsAreBounded` | core/crates/genrl-core/src/http/gate.rs:314-326 | The sleeps total at most max_total_wait, each at most max_delay, whatever Retry-After asks |
| `GateLaws.DelaysFollowSchedule` | core/crates/genrl-core/src/http/backoff.rs:10-17 | Attempts 1, 2, ... wait the steps of the schedule in order, its last step repeated |
| `GateLaws.AnswersAreReal` | core/crates/genrl-core/src/http/gate.rs:198-324 | The answer is the outcome of the last request sent, or breaker-open if and only if the breaker was found open after the wait for the limiter; the two placeholder errors are never returned |
| `GateLaws.ProbeIsReleased` | core/crates/genrl-core/src/http/gate.rs:192-328 | A half-open probe held on entry is released before every return |
| `GateLaws.RoundsBreaker` | core/crates/genrl-core/src/http/gate.rs:192-328 | The breaker on return is the one all events since the call began lead to |
| `GateLaws.ProbeReleasedIffCacheMisses` | core/crates/genrl-core/src/http/gate.rs:113-151 | In `get_with` the claimed probe is given back if and only if the cache has nothing to answer with: a fresh entry and a failed read both return without a report |
| `GateLaws.CacheAnswersAtOnce` | core/crates/genrl-core/src/http/gate.rs:124-141 | A rejected call is refused as open, a fresh entry is the answer and a failed read the error, each without a permit or a request |
| `GateLaws.CacheKeepsRejecting` | core/crates/genrl-core/src/http/gate.rs:124-141 | After a call that ended at the cache, a half-open breaker rejects the next check, however late |
| `Jobs.AssembleRow` | core/crates/genrl-core/src/jobs/transitions.rs:138-189 | The UPDATE assembled clause by clause gives the row after the move, field by field |
| `JobLaws.AllowedIffOnDiagram` | core/crates/genrl-core/src/jobs/transitions.rs:16-57 | The table of moves is the diagram: forward by one step, the side states, and three steps back |
| `JobLaws.MoveWritesColumns` | core/crates/genrl-core/src/jobs/transitions.rs:103-216 | A move off the diagram, of a finished or an unknown job changes nothing; any other writes this row only, column by column: torrent, progress and stall timer cleared together or kept together, the reason kept for parked and failed jobs and spent on leaving, the next run as given, in 30 seconds when parked, else at once, attempts, kind, note and one log line |
| `JobLaws.ParkWritesColumns` | core/crates/genrl-core/src/worker/engine.rs:140-149 | The same for parking |
| `JobLaws.NextWritesColumns` | core/crates/genrl-core/src/worker/helpers.rs:166-201 | Another candidate: torrent, progress and stall timer forgotten, one attempt more; the next search while attempts are left, else a failed job and a question |
| `JobLaws.RetryForgetsTorrent` | core/crates/genrl-core/src/worker/helpers.rs:166-201 | After a retry the job holds no torrent until one is chosen for it or an answer gives it one, in any run |
| `JobLaws.SmallWritesColumns` | core/crates/genrl-core/src/jobs/transitions.rs:222-253 | What postponing, an auto-add, a batch add's deletion and a new search leave, column by column, and every other row as it was |
| `Jobs.Store.Transition` | core/crates/genrl-core/src/jobs/transitions.rs:103-216 | Row and log line change together or not at all; unknown ids, terminal states and moves off the table are refused |
| `Jobs.Store.Reschedule` | core/crates/genrl-core/src/jobs/transitions.rs:222-253 | Only next run, last error and time stamp change, with a note in the log |
| `Jobs.Store.Block` | core/crates/genrl-core/src/worker/engine.rs:140-149 | Parking notes the state in the caller's copy of the row |
| `Jobs.Store.TryNextCandidate` | core/crates/genrl-core/src/worker/helpers.rs:166-201 | The next search while the caller's copy has attempts left, else a question and a failed job |
| `Jobs.Store.EnqueueSearch` | core/crates/genrl-core/src/jobs/enqueue.rs:31-72 | An open search of the episode is found, or a new row and its log line are made under an id never used before |
| `Jobs.Store.AutoAdd` | core/crates/genrl-core/src/worker/inbox.rs:280-285 | A row that waits for an answer becomes an add, with no log line and its kind as before; any other row stays |
| `Jobs.Store.DropSearches` | core/crates/genrl-core/src/worker/steps_acquire.rs:363-368 | Exactly the other rows of kind search of the given episodes go |
| `Jobs.OpKeepsAgreementIff` | core/crates/genrl-core/src/jobs/transitions.rs:103-216 | Exactly which writes keep a row in agreement with its log: those that give a parking note, if any, for the step the row is in, and do not auto-add it |
| `Jobs.ParkingKeepsAgreementIffNotParked` | core/crates/genrl-core/src/worker/engine.rs:140-149 | Parking with an up-to-date copy keeps the agreement if and only if the row is not parked already |
| `Jobs.LogAgreesIffNeverAutoAdded` | core/crates/genrl-core/src/jobs/transitions.rs:103-216 | In every run, replaying a job's logged moves from search gives its state by legal steps, its kind is that of its last main step, and a parking note names that step, if and only if the job was never auto-added |
| `Jobs.MainMoveRepairsStep` | core/crates/genrl-core/src/jobs/transitions.rs:145-165 | After any move to another main step, kind and note belong to the last logged main step again, whatever was written past the log before |
| `Jobs.AutoAddPartsRowAndLog` | core/crates/genrl-core/src/worker/inbox.rs:280-285 | A run of moves that the steps ask for, search to choose to needs-input to add, after which row and log disagree and a batch add deletes the job |
| `Jobs.RowsAreSound` | core/crates/genrl-core/src/jobs/transitions.rs:138-189 | In every run, auto-adds and deletions included, only a parked row has a parking note, and it names a main step of the row's kind |
| `Jobs.DoneIsFinal` | core/crates/genrl-core/src/jobs/transitions.rs:123-127 | Done is never left, whatever callers do, and the row is there if and only if no batch add of another job covered it |
| `Jobs.ParkThenResume` | core/crates/genrl-core/src/jobs/transitions.rs:154-158 | A parked job is there if and only if no batch add of another job covered it, and then resumes by a legal move to the same step, with kind, attempts and torrent intact, whatever other jobs did meanwhile |
| `Jobs.RetriesUseAttempts` | core/crates/genrl-core/src/worker/helpers.rs:166-201 | Each retry uses one of the attempts left below the limit |
| `Jobs.RetryBudget` | core/crates/genrl-core/src/worker/helpers.rs:166-201 | Between two resets a job is sent back to search at most max_failed_candidates - 1 times, in any run |
| `Jobs.StepMoveLegalIff` | core/crates/genrl-core/src/worker/steps_finish.rs:19-28 | Of the moves worker steps ask for, exactly three are refused and change nothing: add to needs-input, monitor to choose, finalize to search |
| `Jobs.RecoveryMoveLegalIff` | core/crates/genrl-core/src/queue/reconcile.rs:44-97 | Crash recovery asks for a legal move if and only if it is neither an added, completed torrent nor a monitored job without a torrent |
| `JobLaws.RecoveryFollowsClient` | core/crates/genrl-core/src/queue/reconcile.rs:44-97 | Recovery sends an added or monitored job to finalize if and only if its download is complete, to choose if and only if it has no torrent, an added one whose download runs to monitor, a monitored one whose download is gone to search, and no other job anywhere |
| `Scheduler.DueJobs` | core/crates/genrl-core/src/jobs/queries.rs:11-42 | The due main-step jobs of the kinds, the oldest ones, in order of age, as many as fit |
| `SchedulerLaws.PassStartsOldest` | core/crates/genrl-core/src/jobs/queries.rs:24-35 | A pass starts only jobs of its kind in a main step whose time, if they have one, has come, oldest first, each once, no more than its setting leaves free; it leaves such a job only when none younger has taken what is free |
| `SchedulerLaws.TickStartsOldest` | core/crates/genrl-core/src/queue/scheduler.rs:104-129 | So does every pass of a tick |
| `SchedulerLaws.PostponedUntilItsTime` | core/crates/genrl-core/src/jobs/transitions.rs:222-253 | A postponed job is started by no pass before its time, and from then on by one that finds room |
| `SchedulerLaws.SideStatesNeverStart` | core/crates/genrl-core/src/queue/scheduler.rs:122-126 | Parked, asking, failed and finished jobs are never started |
| `Scheduler.Scheduler.InFlight` | core/crates/genrl-core/src/queue/scheduler.rs:69-76 | A look returns the number of live tasks of a kind, and is recorded |
| `Scheduler.Scheduler.Complete` | core/crates/genrl-core/src/queue/scheduler.rs:324-327 | A finishing task lowers its own kind's counter by one, at any moment, and no other |
| `Scheduler.Scheduler.Dispatch` | core/crates/genrl-core/src/queue/scheduler.rs:305-333 | Counting and spawning raise one counter by one and keep every counter equal to the live tasks of its kind |
| `Scheduler.Scheduler.Reap` | core/crates/genrl-core/src/queue/scheduler.rs:335-338 | Exactly the handles of ended tasks are forgotten, in order, and no counter changes |
| `Scheduler.Scheduler.Settle` | core/crates/genrl-core/src/queue/scheduler.rs:158-174 | Waiting for every handle leaves no task and every counter at zero, so the wait ends |
| `Scheduler.Scheduler.RunPass` | core/crates/genrl-core/src/queue/scheduler.rs:115-129 | A pass reads the counter, takes exactly the room it leaves under the limit, starts exactly the oldest due jobs that fit, in order and once each, and no start takes the counter above the limit, however tasks finish meanwhile |
| `Scheduler.Scheduler.Tick` | core/crates/genrl-core/src/queue/scheduler.rs:87-139 | A paused or resource-blocked tick starts nothing; any other runs the four passes in order, each with the room it found, and the tasks spawned are exactly the four lists of started jobs one after the other |
| `SchedulerLaws.StartedTwiceIffTakenTwice` | core/crates/genrl-core/src/queue/scheduler.rs:104-129 | A tick starts two tasks for a job if and only if two of its passes take the job; no pass takes one twice |
| `SchedulerLaws.TwoTasksMeanKindChanged` | core/crates/genrl-core/src/queue/scheduler.rs:87-139 | After a settled tick, a job can have two tasks of the next only when its kind changes between the tables two passes read |
| `SchedulerLaws.HandoverStartsTwice` | core/crates/genrl-core/src/queue/scheduler.rs:104-129 | It happens: a job moved on from choose to add between the search pass and the add pass |
| `Scheduler.FinishOne` | core/crates/genrl-core/src/queue/scheduler.rs:324-327 | One task ending lowers the live count of its own kind only |
| `Scheduler.ResumeBlocked` | core/crates/genrl-core/src/queue/scheduler.rs:346-401 | The resumption loop over a listing read once before the first move, every row with its own probe answers |
| `Scheduler.ResumeIsLegal` | core/crates/genrl-core/src/queue/scheduler.rs:388-398 | Resuming a parked row is a legal move and touches no other row |
| `Scheduler.ResumedJobsReturn` | core/crates/genrl-core/src/queue/scheduler.rs:346-401 | A tick resumes exactly the listed jobs whose blocker cleared, in order, each to the step it was parked from, with kind, attempts and torrent intact, and touches no other |
| `Scheduler.ReachableJobsReturn` | core/crates/genrl-core/src/queue/scheduler.rs:346-401 | So it is for every listing of parked rows of a table that a run of job writes reaches |
| `ResumeLaws.ResumedWhenInOrderIff` | core/crates/genrl-core/src/queue/scheduler.rs:346-387 | For the reasons the steps park with: a job is resumed exactly when what it waits for, metadata, the release site, the disk and folder, or nothing, is in order, for all probes, if and only if the path or error in the reason contains none of the words that are searched for |
| `ResumeLaws.ParkedIsResumedIff` | core/crates/genrl-core/src/worker/engine.rs:140-149 | From parking to resuming: such a job, parked from any main step, is resumed exactly when that is in order |
| `Logging.RotatingWriter.constructor` | core/crates/genrl-core/src/logging.rs:47-60 | Opening keeps what is there; from nothing, the writer starts with an empty current file |
| `Logging.RotatingWriter.Rotate` | core/crates/genrl-core/src/logging.rs:62-80 | For any set of numbered files, holes included: where each file's contents end up |
| `Logging.RotatingWriter.Write` | core/crates/genrl-core/src/logging.rs:98-107 | Rotate if the buffer does not fit, append what the system accepts; `written` is the current file's length and the kept files stay a cut of the history |
| `Logging.KeptFilesAreSuffix` | core/crates/genrl-core/src/logging.rs:62-107 | The numbered files are contiguous and, read from the oldest on, are a suffix of everything written, cut between two writes |
| `Logging.RotationKeepsWrites` | core/crates/genrl-core/src/logging.rs:62-80 | A rotation drops at most the oldest file and never reorders or splits a write |
| `Logging.RotationKeepsSizes` | core/crates/genrl-core/src/logging.rs:62-80 | Every file stays within max_bytes or holds a single write |
| `Logging.AppendKeepsWrites` | core/crates/genrl-core/src/logging.rs:104-105 | An append extends the newest cut by one write, within the size rule |
| `Crc.Crc32` | core/crates/genrl-core/src/library/icons.rs:11-24 | The two loops compute the checksum as a function of the message |
| `Crc.BitStepInjective` | core/crates/genrl-core/src/library/icons.rs:15-21 | The bit step is injective, so no two registers merge |
| `Crc.FeedIsSteps` | core/crates/genrl-core/src/library/icons.rs:13-22 | Up to four bytes act on the register like one word mixed in before the bit steps |
| `Crc.DetectsShortChanges` | core/crates/genrl-core/src/library/icons.rs:11-24 | Changing up to four consecutive bytes of a message of any length changes the checksum |
| `Crc.DetectsOneByte` | core/crates/genrl-core/src/library/icons.rs:11-24 | Changing one byte anywhere changes the checksum |
| `CrcReference.ChecksumIsFrameCheck` | core/crates/genrl-core/src/library/icons.rs:11-24 | For every message the checksum is the frame check sequence of IEEE 802.3: message times x^32 with its first 32 bits complemented, divided by the generator, the remainder complemented and sent highest coefficient first |
| `Zlib.StoreBlocks` | core/crates/genrl-core/src/library/icons.rs:84-98 | The chunk loop emits the stored-block form of the data, every length within 16 bits |
| `Zlib.StoredRoundTrip` | core/crates/genrl-core/src/library/icons.rs:84-98 | Decoding the blocks as section 3.2.4 of RFC 1951 says gives back every nonempty buffer exactly |
| `Zlib.ExactlyOneFinalBlock` | core/crates/genrl-core/src/library/icons.rs:88-90 | Exactly one block is marked final, and none for an empty buffer |
| `Zlib.StoredLength` | core/crates/genrl-core/src/library/icons.rs:84-98 | Five bytes of framing for every 65535 bytes or part of them |
| `Zlib.AdlerNext` | core/crates/genrl-core/src/library/icons.rs:101-104 | One round of the loop takes the closed-form sums of a prefix to those of the next |
| `Zlib.Adler32` | core/crates/genrl-core/src/library/icons.rs:100-105 | The loop computes the closed-form Adler-32 of section 2.2 of RFC 1950, and no sum leaves 32 bits |
| `Zlib.StreamRoundTrip` | core/crates/genrl-core/src/library/icons.rs:80-106 | The zlib stream reads back as its buffer, with the check value of RFC 1950 computed byte by byte, if and only if the buffer is not empty |
| `Bytes.ByteOrders` | core/crates/genrl-core/src/library/icons.rs:40-51 | Lengths and checksums are read with the first byte weighing most, block lengths with the last one |
| `Png.WriteChunk` | core/crates/genrl-core/src/library/icons.rs:40-51 | Length cut to 32 bits, tag, data and the checksum of tag and data |
| `Png.ChunkRoundTrip` | core/crates/genrl-core/src/library/icons.rs:40-51 | A reader that tests the frame check sequence of IEEE 802.3 gets tag and data back from any chunk within the format's length limit of 2^31 - 1 |
| `Png.LongChunkMisread` | core/crates/genrl-core/src/library/icons.rs:41 | A longer chunk is refused or leaves at least 2^32 bytes unread |
| `Png.CorruptChunkRefused` | core/crates/genrl-core/src/library/icons.rs:40-51 | Changing any one byte behind the length of such a chunk makes a reader refuse it |
| `Png.ReadSolidRows` | core/crates/genrl-core/src/library/icons.rs:66-78 | The scanlines decode to rows of one colour |
| `Png.SolidDataSize` | core/crates/genrl-core/src/library/icons.rs:66-106 | The size of the compressed data from width and height alone |
| `Png.SolidFileReadsBack` | core/crates/genrl-core/src/library/icons.rs:27-112 | A reader that keeps the format's limits gets the solid image back if and only if width and height are in 1..2^31 - 1 and the compressed data is at most 2^31 - 1 bytes long; otherwise it gets none |
| `Png.WriteSolidPng` | core/crates/genrl-core/src/library/icons.rs:27-112 | The writer with its loops produces that file, for every size and colour |
| `UrlCodec.PctEncode` | core/crates/genrl-core/src/mal/pkce.rs:52-63 | The loop writes unreserved characters as they are and everything else as %XX |
| `UrlCodec.FormEncode` | core/crates/genrl-core/src/nyaa.rs:356-368 | The same with a space as a plus sign |
| `UrlCodec.PctDecode` | core/crates/genrl-core/src/mal/pkce.rs:65-92 | The loop decodes up to the lossy conversion to text, or stops if and only if some percent sign is followed, three bytes on, by the inside of a character |
| `UrlCodec.DecodeStopsIffBadSlice` | core/crates/genrl-core/src/mal/pkce.rs:70-71 | That condition, for every byte string |
| `UrlCodec.AsciiDecodes` | core/crates/genrl-core/src/mal/pkce.rs:65-92 | ASCII text is always decoded |
| `UrlCodec.EncodedIsUrlSafe` | core/crates/genrl-core/src/mal/pkce.rs:49-63 | Encoded text holds only unreserved characters, percent and plus signs, so no separator |
| `UrlCodec.ByteIsWritten` | core/crates/genrl-core/src/mal/pkce.rs:49-63 | Byte by byte: letters, digits, hyphen, low line, full stop and tilde stand for themselves, a space is a plus sign in a form, any other byte a percent sign and two upper-case digits |
| `UrlCodec.DecodeStarts` | core/crates/genrl-core/src/mal/pkce.rs:65-92 | A plus sign is a space; any byte but a percent sign, and a percent sign near the end, is itself |
| `UrlCodec.DecodeNamed` | core/crates/genrl-core/src/mal/pkce.rs:65-92 | A percent sign and two hexadecimal digits in either case are the byte they name |
| `UrlCodec.DecodeUnnamed` | core/crates/genrl-core/src/mal/pkce.rs:65-92 | A percent sign before anything else, a plus sign apart, is itself |
| `UrlCodec.DecodeUndoesEncode` | core/crates/genrl-core/src/mal/pkce.rs:52-92 | Before the conversion to text, decoding undoes both encodings on every byte string |
| `UrlCodec.DecodeTextUndoesEncodeIffUtf8` | core/crates/genrl-core/src/mal/pkce.rs:52-92 | With it, decoding undoes them if and only if the bytes are UTF-8 |
| `Utf8.LossyIsValid` | core/crates/genrl-core/src/mal/pkce.rs:91 | The lossy conversion always gives UTF-8 |
| `Utf8.LossyKeepsIffValid` | core/crates/genrl-core/src/mal/pkce.rs:91 | It leaves a byte string as it is if and only if that is UTF-8 |
| `Utf8.ValidIffText` | core/crates/genrl-core/src/mal/pkce.rs:91 | Bytes count as UTF-8 if and only if they are the encoded text of code points that are no surrogates |
| `UrlCodec.ParseUndoesQueryText` | core/crates/genrl-core/src/mal/login.rs:111-119 | Parsing any list of encoded pairs of texts joined by ampersands returns exactly that list, the empty one included |
| `UrlCodec.AuthorizeUrlParses` | core/crates/genrl-core/src/mal/pkce.rs:39-47 | Behind its question mark the authorize URL parses to the six pairs, the four arguments exactly as given |
| `Text.SplitOnNext` | core/crates/genrl-core/src/mal/login.rs:113 | A separator ends the first piece and splitting goes on behind it |
| `Text.SplitOnceAt` | core/crates/genrl-core/src/mal/login.rs:115 | `split_once` cuts at the first separator |

## Left out

- Network, SQL text, keyring, OAuth listener, torrent client, file moves, external programs, user interface and command line: plumbing around the modelled logic. Tables are maps, responses are arguments.
- `extract_season_from_title` and `is_cour_or_part_split`: regular expressions over titles; here two arbitrary functions of the title, so every result holds for any pair of them.
- `clean_title`, `normalize`, release-name parsing and candidate scoring: branch lists over regular expressions and weights, which would only add easy members.
- Floating point: tokens, times, ratios and episode numbers are real numbers; rounding, NaN and the saturation of `as i64` are not modelled, truncation toward zero is.
- Integer width: `i64` and `usize` overflow of sums and counts is not modelled, except where named: 32-bit CRC and Adler sums, 16-bit block lengths, the 32-bit chunk length, the saturating failure counter and the range of parsed 64-bit numbers.
- `Limiter.Limiter.Acquire`: for a positive rate, since `probe` divides by it; a run over given turns at the lock. The sleeps between rounds, with their jitter, only decide when those turns come. A run may end while the call still waits; a call in that state has no answer yet, and the laws on answers leave it out.
- `GateLaws.SleepsAreBounded`: jitter is any nonnegative factor and the sleeps are the requested ones; how far a sleep overshoots is part of the next clock reading.
- `Gate.ServiceState.Dispatch`: URLs, bodies, cache writes and the 304 refresh, which all come after the report; the outcome of a request is one of the six the loop tells apart. How long a call waits for a permit is an argument beside the turns at the lock, not computed from them.
- `Gate.ServiceState.GetWith`: URL parsing, which comes before the claim; which entries are fresh is an argument.
- `Jobs.LogAgreesIffNeverAutoAdded`: for callers that give a parking note only when parking and only for the step the row is in, which `Jobs.OpKeepsAgreementIff` shows to be needed. The log is everything ever recorded; the pruning and clearing of old events (core/crates/genrl-core/src/events.rs:200-220) is not modelled.
- Runs of the job table start from empty tables: the upgrade of an old database, which renames states past the log (core/crates/genrl-core/src/db/migrations/003_queue_bookkeeping.sql:25-27), is not modelled.
- `DateText.PubDateTextRoundTrip`: an overflow is an outcome of its own, as in a build that checks arithmetic; a build that does not wraps around instead.
- `Jobs.Store.DropSearches`: the episodes of the show are an argument; deletion of shows and episodes, which the code never does, would delete their jobs by cascade.
- `Jobs.StepMoveLegalIff`: which moves the steps ask for; when they do, and what they do to files and the client, is not part of this model.
- `Jobs.RetryBudget`: for one value of `max_failed_candidates` throughout and callers' copies with no fewer attempts than the row; `fail_or_reschedule` has no such bound, because its reschedule path counts no attempt.
- `Jobs.RecoveryMoveLegalIff`: the choice of target only; the client queries before it are an argument.
- `ResumeLaws.ResumedWhenInOrderIff`: the reasons of the search, add and monitor steps; those of the library step, which name a destination folder and an error of the file system, are read by the same search for words. How the disk and the metadata are probed is an argument.
- `Scheduler.DueJobs`: rows of equal age come in any order, as SQLite may return them; nothing in the query excludes a job that is already running, which `SchedulerLaws` takes up.
- `Scheduler.Scheduler.Tick`: the table each pass reads is an argument, so the resumption before the passes is modelled beside it, in `Scheduler.ResumeBlocked`.
- `Scheduler.Scheduler.Complete`: tasks that panic, which would leave their counter raised, are not modelled.
- `Logging.RotatingWriter.Rotate`: every rename of an existing file succeeds; the source ignores failed ones.
- `Png.WriteSolidPng`: file creation and write errors; the file is the bytes written to it.
- `MalModels.BuildChains`: the other fields of an entry are untouched by the source and have no counterpart; a stale index, which the source's `get` tolerates, cannot occur.
- `SeasonDecide.NotFoundIff`: the texts of skip, ask and not-found reasons are constructors; show types, which `wanted_from` treats alike, are carried along and never read.
- `RegroupTheorems.OffsetsAgreeIffSeasonIsPlace`: orders along which title numbers go down are not covered, nor entries whose place lies between two entries of their own season that stand against the list order; what the chain counts then depends on the list order.
- At most one live job per episode: `enqueue_search` looks only at jobs of kind search, and the table constraints are not part of this model.
- `random_token` and the verifier it makes: randomness.
