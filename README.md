# calendar-summary occupancy engine, in Dafny

This project models the day/region occupancy engine of the calendar-availability
summarizer (`src/event-parsing.ts`), the region table it is built on
(`src/constants.ts`), and the `upsert_env` helper of the ngrok script
(`scripts/ngrok2env.py`).

The engine does three things:

- It generates 14 days from today. Each day is cut into the regions Morning
  (06-12), Afternoon (12-17) and Evening (17-24).
- It sorts the calendar events by start, in place.
- It folds every event over every region of every day. An event is recorded in
  a region when its start or its end lies strictly inside the region. The
  record is clipped to the region's bounds. The record's effective duration is
  its clipped length minus its positive overlaps with the events already
  recorded there. That effective duration is subtracted from the region's
  remaining time.

How the model is built:

- Instants and durations are integer milliseconds.
- The start of today, which the source reads from the clock, is a parameter.
- The sort key is `start.unix()`, the start in whole seconds rounded down.
- The in-place sort is an insertion sort on an `array`. It is proved equal to
  a stable sort function whose output is proved sorted, a permutation of the
  input, and stable for each key.
- The fold is pure in the source (`reduce`/`map` with spreads), so it is
  modelled as functions over sequences.
- `upsert_env` is a method with the source's loop, `break` and `for ... else`.
  The file's lines are an input, or `None` when the file does not exist.

The model keeps the code's behaviour where it differs from what the tests and
comments suggest:

- The region test is exclusive. An event that exactly covers a region, or
  contains it, is not recorded there.
- Overlaps with earlier records are summed, not merged, and nothing is clamped.
  With three identical events the third's effective duration is negative. With
  four, a region ends with more time remaining than its total
  (`EventParsingScenarios.OverlapsSummedNotMerged`).

## Model

| member | source | states |
|---|---|---|
| Constants.RegionTableOrder | src/constants.ts:5-27 | the table has exactly three regions, am, pm and eve in that order, with pairwise distinct ids |
| Constants.RegionTablePartition | src/constants.ts:9-24 | regions run without gaps from 06:00 to the next midnight (am.end = pm.start = 12h, pm.end = eve.start = 17h); spans are 6h, 5h and 7h; 00:00-06:00 is in no region |
| Constants.ContiguousIsOrdered | src/constants.ts:5-27 | in a contiguous table the regions are in ascending order, lie within the covered span and do not overlap |
| Constants.RegionsDisjoint | src/constants.ts:9-24 | in the region table itself (am, pm, eve), each region ends no later than every later region starts, so no two regions overlap |
| CalendarEvents.UnixSeconds | src/event-parsing.ts:63 | the sort key `unix()` is the floor of the instant in seconds |
| CalendarEvents.UnixSecondsMonotone | src/event-parsing.ts:63 | rounding to seconds keeps the order of instants |
| EventSort.Insert | src/event-parsing.ts:63 | inserting one event adds exactly that event to the multiset of events |
| EventSort.InsertSorted | src/event-parsing.ts:63 | inserting into a sequence sorted by start keeps it sorted |
| EventSort.SortByStart | src/utils.spec.ts:61-84 | the sort's result is a permutation of its input, ascending by start second |
| EventSort.SortByStartStable | src/utils.spec.ts:72-84 | events with equal start keys keep their input order |
| EventSort.SortByStartOfSorted | src/utils.spec.ts:61-84 | an input already in start order is returned unchanged |
| EventSort.SortInPlace | src/event-parsing.ts:63 | the caller's array is reordered in place into the stable ascending sort of its old contents |
| EventSort.InsertLast | src/event-parsing.ts:63 | one insertion pass moves the next event into the sorted prefix and leaves the rest of the array alone |
| EventParsing.CreateEmptyRegion | src/event-parsing.ts:44-56 | a fresh region has absolute bounds start of day + table offsets, total = remaining = its length, and no records |
| EventParsing.CreateEmptyDay | src/event-parsing.ts:39-59 | day n starts n days after today, ends one millisecond before the next midnight, and has one fresh region per table entry in table order |
| EventParsing.EmptyDays | src/event-parsing.ts:62 | the skeleton has `count` days and day i is the empty day i days from today |
| EventParsing.EmptyDayLayout | src/event-parsing.ts:39-59 | a fresh day's regions start at 06:00, are contiguous, end at the next midnight, have all their time remaining and satisfy the region invariant |
| EventParsing.AssignUnchangedIff | src/event-parsing.ts:68-73 | a region is returned unchanged exactly when neither the event's start nor its end lies strictly inside it |
| EventParsing.ContainingEventSkipped | src/event-parsing.ts:68-73 | an event equal to a region, or containing it, is not recorded in it |
| EventParsing.ClipWithinRegion | src/event-parsing.ts:76-79 | the record is max(start, region.start) to min(end, region.end), lies within the region, is no longer than the event or the region, and its effective duration is at most its clipped length |
| EventParsing.AssignTouched | src/event-parsing.ts:93-109 | a touched region gets exactly one record of the event appended; remaining drops by the record's effective duration; every other field is unchanged |
| EventParsing.SubtractOverlaps | src/event-parsing.ts:82-91 | the overlap reduction never adds time |
| EventParsing.SubtractOverlapsIsSum | src/event-parsing.ts:82-91 | the reduction subtracts exactly the sum of the positive overlaps with the earlier records, without merging them |
| EventParsing.OverlapSumZeroIff | src/event-parsing.ts:82-91 | the overlap sum is non-negative, and zero exactly when no earlier record overlaps by a positive amount |
| EventParsing.EffectiveDurationIff | src/event-parsing.ts:82-91 | the effective duration is at most the clipped length, and equal to it exactly when no earlier record overlaps by a positive amount |
| EventParsing.EffectiveDurationDisjoint | src/event-parsing.ts:82-91 | earlier records that end at or before the new start, or start at or after its end (back-to-back), subtract nothing |
| EventParsing.AssignKeepsValid | src/event-parsing.ts:67-110 | folding a well-formed event keeps the region invariant: records clipped inside the region, each with its effective duration against the records before it, and remaining = total - sum of effective durations |
| EventParsing.FoldEvents | src/event-parsing.ts:65-114 | the fold keeps the number of days and the number of regions of each day |
| EventParsing.EventsByDayRegion | src/event-parsing.ts:61-115 | the result has 14 days, each with one region per table entry |
| EventParsing.GetEventsByDayRegion | src/event-parsing.ts:61-115 | the caller's array ends up sorted by start, and the result is the sorted events folded over the 14 empty days |
| EventParsing.FoldRegionUntouched | src/event-parsing.ts:71-73 | a region that no event touches passes through the whole fold unchanged |
| EventParsing.FoldRegionKeepsFrame | src/event-parsing.ts:103-107 | folding never changes a region's day id, region id, name, emoji, start, end or total |
| EventParsing.FoldRegionKeepsValid | src/event-parsing.ts:65-114 | folding well-formed events keeps the region invariant |
| EventParsing.FoldRegionKeepsOrder | src/event-parsing.ts:63-65 | folding events sorted by start keeps each region's records in start order |
| EventParsing.FoldEventsPointwise | src/event-parsing.ts:65-114 | folding over the days works region by region; each day keeps its start and end of day |
| EventParsing.ResultRegion | src/event-parsing.ts:61-115 | region j of day i of the result is the sorted events folded into the fresh region j of day i |
| EventParsing.ResultLayout | src/event-parsing.ts:39-62 | the result has 14 days; day i starts i days after today; its regions follow the table with their bounds and totals |
| EventParsing.ResultValid | src/event-parsing.ts:61-115 | for well-formed events every region of the result satisfies the region invariant |
| EventParsing.ResultInStartOrder | src/event-parsing.ts:63-65 | every region's records in the result are in ascending start order |
| EventParsing.OneEventRemaining | src/event-parsing.ts:76-107 | a single event consumes exactly its clipped length |
| EventParsing.TwoEventsRemaining | src/event-parsing.ts:82-107 | two events in a fresh region consume exactly the length of the union of their clipped intervals |
| EventParsingScenarios.ThreeHoursOfMorning | src/event-parsing.spec.ts:47-62 | 06:00-09:00 leaves 3 of the morning's 6 hours |
| EventParsingScenarios.BackToBackMorning | src/event-parsing.spec.ts:65-86 | 06-08 and 08-11 leave 1 hour; the second event's effective duration is its full clipped length |
| EventParsingScenarios.CrossingEvent | src/event-parsing.spec.ts:89-108 | 11:00-14:00 is recorded once in am as 11-12 and once in pm as 12-14 |
| EventParsingScenarios.HalfHourOfAfternoon | src/event-parsing.spec.ts:132-149 | 12:00-12:30 leaves 4.5 of the afternoon's 5 hours and is not recorded in the morning |
| EventParsingScenarios.OverflowIntoNextDay | src/event-parsing.spec.ts:152-167 | 22:00-02:00 is clipped at the next midnight ("00:00") and records nothing on the next day |
| EventParsingScenarios.EarlyStartClipped | src/event-parsing.spec.ts:170-187 | 04:00-08:00 is clipped to start at 06:00 |
| EventParsingScenarios.OverlappingAfternoon | src/event-parsing.spec.ts:190-214 | 13-15 and 14-16 leave 2 hours of the afternoon, not 1 |
| EventParsingScenarios.WholeRegionEventSkipped | src/event-parsing.ts:68-73 | an event of exactly 12:00-17:00 is recorded in no region |
| EventParsingScenarios.NoEventsAllFree | src/event-parsing.ts:61-115 | with no events every region of every day keeps all of its time and has no records |
| EventParsingScenarios.AssignSameAgain | src/event-parsing.ts:82-107 | re-recording an interval already recorded n times subtracts it n times |
| EventParsingScenarios.FourCopies | src/event-parsing.ts:82-107 | with four copies of one event, the third's effective duration is minus its clipped length and remaining grows by twice that length |
| EventParsingScenarios.OverlapsSummedNotMerged | src/event-parsing.ts:82-105 | four identical 13-16 events give the third a -3h effective duration and leave 11h remaining of a 5h afternoon |
| Ngrok2Env.UpsertEnv | scripts/ngrok2env.py:21-35 | missing file: the entry alone; a first line starting with `VAR=` is replaced by the entry and nothing else changes; with no such line the entry is appended after the unchanged lines |
| Ngrok2Env.MatchCases | scripts/ngrok2env.py:26-31 | either no line assigns the variable or there is a first line that does, never both |
| Ngrok2Env.UpsertKeepsOtherLines | scripts/ngrok2env.py:26-29 | after a replacement the line count is unchanged and every line other than the first match, later matches included, is kept |
| Ngrok2Env.MatchIsLiteral | scripts/ngrok2env.py:27 | `FOO` does not match `FOOBAR=...` or `FOO =...`, and does match `FOO=...` |

## Left out

- The clock read `dayjs()` in `createEmptyDay`: the start of today is a parameter. The source reads the clock once per day it builds, 14 times in all. The model has all 14 days share one reading, so a run that crosses midnight is not captured. Time zones, daylight-saving days and local `startOf('day')` are not modelled; a day is 24 hours.
- `dayId` is the day's start instant rather than its `YYYY-MM-DD` text. Date formatting is not modelled.
- dayjs `isBetween` also accepts reversed bounds. Region bounds are always ordered (`RegionTablePartition`), so only the ordered case is modelled.
- The comparator `sortByAccessor` is not in the shown `src/utils.ts`. The sort is modelled as the stable ascending sort that its tests describe.
- Each region object also carries the table entry's `id` through the spread. The spread's `start` and `end` are overwritten by the absolute instants, which the model keeps. Only `id` is dropped, since it duplicates `regionId`.
- `CalendarEvent` keeps only `id`, `summary`, `start` and `end`. The engine reads no other field. Recurrence rules are not expanded, so no recurring-event property is stated.
- `TOKEN_STORAGE_KEY` in `src/constants.ts` carries no engine behaviour. The engine never reads it, and the UI keeps its own `STORAGE_KEY` in `src/useAuth.tsx`. `StatusEmoji` in `src/constants.ts` is referenced nowhere. Nothing in this revision computes a status from `remaining`.
- `upsert_env`: the file read and write are not modelled. A last line without a trailing newline would run into the appended entry once written; the model stays at the level of lines.
- `get_tunnel_url` and `main` in `scripts/ngrok2env.py`: ngrok network calls and argument parsing.
- The React UI, OAuth, the HTTP clients and the dayjs plugin setup (`src/App.tsx`, `src/auth.tsx`, `src/useAuth.tsx`, `src/main.tsx`, `src/api.ts`, `src/dayjs.ts`, `src/dayjs-extensions.ts`) are not part of this model.
