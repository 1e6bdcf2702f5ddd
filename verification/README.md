# Verified models of the campus assistant's small protocols

The repository is a campus assistant: a chat server, an MCP server for live campus data (`dash_mcp`), an
ingest script that fills a Qdrant knowledge base, and scripts that migrate its database. Most of it moves data.
This project models the parts that contain an algorithm or a protocol, and proves what each of them is for.

| file | models |
|---|---|
| `Calendar.dfy`, `CampusTime.dfy` | ECMAScript day arithmetic; campus days and wall times across daylight-saving changes |
| `Windows.dfy`, `Departures.dfy` | half-open windows over campus days; train departures printed without a date |
| `IsoText.dfy`, `OpenStatus.dfy` | ISO texts compared as strings; which places are open at an instant |
| `CanonicalJson.dfy`, `JsonReader.dfy` | canonical printing of JSON values over UTF-16 code units, and a reader of RFC 8259 texts to read it back |
| `PlaceMatching.dfy` | which places a query names, for any table of aliases |
| `SessionTable.dfy`, `SessionRuns.dfy`, `SessionHistory.dfy` | MCP sessions: reservations, eviction, idle sweep, all their interleavings, and what the events of a run say about them |
| `Scheduling.dfy` | background polling and the order of a shutdown |
| `SweepElection.dfy` | which cluster worker runs the retention sweep |
| `MapPool.dfy` | a pool of lanes that share a counter |
| `CodeFileNames.dfy`, `CodeFileDuplicates.dfy` | fresh names for duplicates, and the migration that hands them out |
| `SharedLinks.dfy` | the permission migration of shared links, over runs that stop anywhere |
| `Fnv.dfy`, `SparseVectors.dfy`, `Ingest.dfy` | the token hash, the term-count vector, and build, check, swap, prune and rollback |
| `Text.dfy`, `Sorting.dfy` | decimal texts, options, and a stable sort |

Code that updates fields in place is a class whose methods are proved against functions on values
(`SwatHttpServer`, `PollScheduler`, `MasterProcess`, `WorkerProcess`, `FileCollection`, `Database`, `Qdrant`). The
table names those methods whose contract says more than the step they make; the laws are proved about those functions and about all sequences of their steps. JavaScript between two awaits is one
step; a call to another system may fail at any point. Clocks, random ids, library parsing and the answers of other
systems are parameters.

## Where the code does less than it says

Each of these is a lemma in the table below.

- `campusDayRange` is right exactly for dates after 1 January 100: `Date.UTC` takes the years 0 to 99 for 1900 to
  1999, so "0050-06-15" gives a day of 1950, and on 1 January 100 the represented time is still one of the year 99
  (`CampusTime.DayRangeExact`, `CampusTime.DateRangeExact`).
- `campusWallTime` fails for the same years and, from then on, exactly from 02:00 to 06:59 on the day the clock springs
  forward, when it is an hour late also from 03:00 where the time exists, and from 02:00 to 05:59 on the day it falls
  back, when it is an hour early (`CampusTime.WallTimeReadsBack`).
- `closes_at` and `opens_at` compare ISO texts, whose order is that of the instants except across the end of the year
  9999 and between two different years before 0 (`IsoText.IsoOrderExact`). The two texts stand for the greatest end
  and the least later start exactly when no other candidate is on the wrong side (`OpenStatus.ClosesAtExact`,
  `OpenStatus.OpensAtExact`); a place open until 23:59:59 on 31 December 9999 in New York already fails
  (`OpenStatus.ClosesAtFails`, `OpenStatus.OpensAtFails`).
- The live filter drops a record whose date cannot be read and the cached filter keeps it (`Windows.FiltersAgree`).
- An ingest that fails part of the way, and whose cleanup then fails too, leaves a half-filled collection that
  `rollback` serves; a rollback is safe at every point of a run exactly when that never happens
  (`Ingest.SafeThroughoutExactly`, `Ingest.PartialCanBeServed`).
- The permission migration treats any value of `isPublic` other than `false`, such as null, as public
  (`SharedLinks.OtherValuesBecomePublic`).
- A worker that has exited but not yet disconnected can be given the retention sweep, and then keeps the
  assignment although every worker is listening (`SweepElection.DeadWorkerCanHoldAssignment`).
- `mapPool` with a limit of zero or less returns an array of holes (`MapPool.EverySchedule`).
- A place whose name has no letter and no digit in it does not answer to its own aliases
  (`PlaceMatching.AnswersToItsNames`).

## Model

| member | source | states |
|---|---|---|
| `Calendar.DateRoundTrip` | dash_mcp/src/util.ts:98-100 | `Date.UTC` and the `getUTC` accessors are inverse on every valid Gregorian date |
| `Calendar.DayRoundTrip` | dash_mcp/src/util.ts:98-100 | reading a day number as a date and making the day again gives the same day |
| `Calendar.CivilAdvances` | dash_mcp/src/util.ts:99-100 | the accessor arithmetic follows the calendar's own successor rule: the next day number is the next date |
| `Calendar.CivilCounts` | dash_mcp/src/util.ts:99-100 | the date of a day number is the one reached by counting that many days on from 1 January 1970 |
| `CampusTime.DayBoundaries` | dash_mcp/src/util.ts:104-112 | the campus clock shows a day exactly from that day's first instant up to the next day's first instant |
| `CampusTime.UtcOfParts` | dash_mcp/src/util.ts:118-123 | formatting an instant into parts and rebuilding it with `Date.UTC` gives its local time, from the year 100 on |
| `CampusTime.DayRangeExact` | dash_mcp/src/util.ts:96-102 | for every accepted text, also with overflowing month or day, the range holds exactly the instants of the day that the fields name if and only if the year is at least 100 and that day is after 1 January 100 |
| `CampusTime.DateRangeExact` | dash_mcp/src/util.ts:96-102 | for the text of a valid date of any year from 0 to 9999, the range is that civil day if and only if it is after 1 January 100 |
| `CampusTime.UtcDayRange` | dash_mcp/src/util.ts:96-102 | whatever the text, the range is the day that `Date.UTC` makes of its fields if and only if that day is after 1 January 100 |
| `CampusTime.DayRangeIsCampusDate` | dash_mcp/src/util.ts:96-125 | an instant lies in `campusDayRange(d)` exactly when `currentCampusDate` of it is `d`; each range lasts 23, 24 or 25 hours and the next one starts where it ends |
| `CampusTime.DayLength` | dash_mcp/src/util.ts:96-102 | a day lasts 23 hours exactly when the zone springs forward in it and 25 exactly when it falls back |
| `CampusTime.DateTextPattern` | dash_mcp/src/util.ts:97-108 | a printed date is accepted as input exactly for years of four digits, and is then read back as that date |
| `CampusTime.WallTimeReadsBack` | dash_mcp/src/util.ts:114-125 | for all unsigned date fields, the result reads as the requested wall clock if and only if the year is at least 100, the guess is not shown with the year 99, and it is not one of the hours around a zone change; how far off it is there, and where a right answer exists |
| `CampusTime.WallTimeUnique` | dash_mcp/src/util.ts:114-125 | on a day without a zone change an instant reads as requested if and only if it is the result |
| `Windows.OverlapsDays` | dash_mcp/src/service.ts:679-687 | a range of campus days selects an item exactly when the item touches one of them; an end at midnight belongs to the day before |
| `Windows.DaysSelect` | dash_mcp/src/service.ts:679-687 | consecutive campus days select exactly what one of them selects; a zero-length item belongs to exactly one day |
| `Windows.MultiDayRange` | dash_mcp/src/service.ts:453-458 | the window from the start of a first date's `campusDayRange` to the end of a last date's selects exactly the items that the range of one date between them selects |
| `Windows.InstantHasOneDate` | dash_mcp/src/service.ts:679-687 | the range of a date selects a zero-length item if and only if `currentCampusDate` of its start is that date |
| `Windows.KeptLiveExactly` | dash_mcp/src/service.ts:661-669 | a record is kept if and only if nothing is written in its date, or its item, from the start or publication to a readable end or else the start itself, touches the window |
| `Windows.KeptCachedExactly` | dash_mcp/src/service.ts:671-677 | a cached item is kept if and only if the record of its text fields is undated, has an unreadable date, or touches the window |
| `Windows.FiltersAgree` | dash_mcp/src/service.ts:661-677 | the live and the cached filter agree on a record if and only if its date is readable or missing |
| `Windows.FilteredListsAgree` | dash_mcp/src/service.ts:661-677 | on lists with readable dates both filters select the same public records in the same order |
| `Departures.PrintedHours` | dash_mcp/src/service.ts:892 | the printed hour and letter of a twelve-hour clock name the hour of the day: 12 A is 0, 12 P is 12, and P adds twelve to 1 to 11 |
| `Departures.ScheduledByGuess` | dash_mcp/src/service.ts:892-893 | the scheduled instant is the printed hour and minute on the campus date of the observation, corrected by the offset in force at the guess |
| `Departures.DepartureNearObservation` | dash_mcp/src/service.ts:881-898 | without its delay the departure is within twelve hours of the observation and the nearest such occurrence; it reads the printed hour and minute exactly when the zone offset is the one at the guess |
| `IsoText.IsoReadsBack` | dash_mcp/src/service.ts:706 | the text of every instant that a `Date` can hold reads back as that instant |
| `IsoText.IsoOrder` | dash_mcp/src/service.ts:706-713 | between the years 0 and 9999 comparing ISO texts as strings compares the instants |
| `IsoText.IsoOrderExact` | dash_mcp/src/service.ts:706-713 | for any two instants that a `Date` can hold, the earlier one has the smaller text if and only if they are not on two sides of the end of the year 9999 nor in two different years before 0; texts of different instants differ |
| `OpenStatus.OpenStatusByPlace` | dash_mcp/src/service.ts:695-724 | one entry per place that has a row: open exactly when a row contains now, null exactly when no row is timed, greatest end of the containing rows, least later start; open places first, then those that open later, then those that are over, then the unknown ones, each kind by opening text and then by name |
| `OpenStatus.AbsorbDescribes` | dash_mcp/src/service.ts:698-714 | one pass of the loop keeps every entry the answer over all rows so far |
| `OpenStatus.RankingIsTotal` | dash_mcp/src/service.ts:718-724 | the comparison is a total preorder, and places that tie are the same place |
| `OpenStatus.RowOrderIrrelevant` | dash_mcp/src/service.ts:695-716 | any two orders of the same rows give the same places, states, times and ranking |
| `OpenStatus.ClosesAtExact` | dash_mcp/src/service.ts:707-709 | `closes_at` is the text of the greatest end among the place's rows that contain now if and only if every smaller end among them has its text in order with it |
| `OpenStatus.OpensAtExact` | dash_mcp/src/service.ts:713 | `opens_at` is the text of the least later start of the place if and only if every other later start has its text in order with it |
| `OpenStatus.ClosesAtFails` | dash_mcp/src/service.ts:707-709 | two rows, one ending on 31 December 9999 and one at 23:59:59 of that day in New York: every answer closes at the smaller end |
| `OpenStatus.OpensAtFails` | dash_mcp/src/service.ts:713 | the same two instants as starts: every answer opens at the later one |
| `CanonicalJson.Canonical` | dash_mcp/src/util.ts:5-12 | two values print alike if and only if they are equal up to the order of object keys |
| `CanonicalJson.TextDetermines` | dash_mcp/src/util.ts:5-12 | a printed value followed by anything that does not continue a number can be split off in one way only: the printing is uniquely decodable |
| `CanonicalJson.QuoteUnique` | dash_mcp/src/util.ts:9-11 | `JSON.stringify` of a string determines the string and where it ends, for all UTF-16 texts including lone surrogates |
| `JsonReader.QuoteReads` | dash_mcp/src/util.ts:9-11 | a printed string reads back as the string |
| `JsonReader.PrintedReadsBack` | dash_mcp/src/util.ts:5-12 | a separately written reader of JSON texts gives every printed value back, up to the order of object keys, with nothing left over |
| `PlaceMatching.TwoReplacements` | dash_mcp/src/hoursAliases.ts:71-72 | the two replacements drop the quotes and spell out the ampersands of a text, character by character |
| `PlaceMatching.NormalForm` | dash_mcp/src/hoursAliases.ts:68-76 | a normalised text is exactly the words of the text joined by single spaces |
| `PlaceMatching.PhraseTest` | dash_mcp/src/hoursAliases.ts:78-80 | on normalised text the padded substring test means a stretch of consecutive whole words |
| `PlaceMatching.MatchesByWords` | dash_mcp/src/hoursAliases.ts:45-66 | a missing query matches; any other matches exactly when it has no words, each of its words is contained, or it mentions the name or an alias of the table entry of a most detailed place that the value names |
| `PlaceMatching.OwnAliasesOnly` | dash_mcp/src/hoursAliases.ts:56-66 | for the name of a place of the table, only names and aliases filed under that very name count |
| `PlaceMatching.ParentStaysSilent` | dash_mcp/src/hoursAliases.ts:56-63 | a place whose name is part of another place's name lends no alias to values that name the other one |
| `PlaceMatching.AnswersToItsNames` | dash_mcp/src/hoursAliases.ts:45-66 | for any table with distinct places, the place of each entry answers to its name and to every alias of the entry, exactly unless its name has no word and the alias has one |
| `SessionTable.OldestIdle` | dash_mcp/src/http.ts:257-259 | the candidate for eviction is an idle session seen no later than any other idle one; none exactly when all are busy |
| `SessionTable.SwatHttpServer.ReserveSession` | dash_mcp/src/http.ts:255-271 | refuses or claims a slot, evicting at the cap, and changes nothing else |
| `SessionTable.SwatHttpServer.Release` | dash_mcp/src/http.ts:266-270 | the slot is given back once, however often the release is called |
| `SessionTable.SwatHttpServer.SessionInitialized` | dash_mcp/src/http.ts:128-134 | the session enters the map with one open response and its slot is given back |
| `SessionTable.SwatHttpServer.SweepIdleSessions` | dash_mcp/src/http.ts:232-239 | exactly the expired idle sessions leave the map, and the count returned is how many |
| `SessionTable.SwatHttpServer.Close` | dash_mcp/src/http.ts:280-283 | no session is left and the pending slots are untouched |
| `SessionRuns.StepKeeps` | dash_mcp/src/http.ts:101-155 | each atomic step of any request keeps the cap, the reservations and the counters right |
| `SessionRuns.EveryRun` | dash_mcp/src/http.ts:118-149 | in every interleaving: live sessions and pending slots stay within the cap, pending slots are the unreleased reservations, counters are the open responses, and no slot leaks once all initializes have settled |
| `SessionRuns.BusySessionStays` | dash_mcp/src/http.ts:232-278 | neither eviction nor sweep nor any other session's request removes a session with an open response |
| `SessionRuns.ReservationOutcome` | dash_mcp/src/http.ts:255-265 | an initialize is refused if and only if the cap is reached and every live session is busy; at the cap a least recently seen idle session goes and no other |
| `SessionRuns.SweepOutcome` | dash_mcp/src/http.ts:232-239 | a session leaves in a sweep if and only if it has no open response and was idle longer than allowed |
| `SessionRuns.RefusalCanEnd` | dash_mcp/src/http.ts:118-149 | from every state the initializes in progress can settle and the open responses end, after which no slot is held, every session is idle and an initialize is granted, unless the cap is zero |
| `SessionHistory.TableTellsHistory` | dash_mcp/src/http.ts:241-248 | in every run each session of the table was last seen at the time of the last event that used it, and counts the responses its events have left open; both told by the events alone |
| `SessionHistory.EvictionByHistory` | dash_mcp/src/http.ts:255-265 | after every run an initialize is refused if and only if the cap is reached and every live session has an open response; at the cap the quiet session whose last use is least recent goes and no other |
| `SessionHistory.SweepByHistory` | dash_mcp/src/http.ts:232-239 | after every run a sweep closes exactly the quiet sessions whose last use is longer ago than allowed |
| `Scheduling.PollScheduler.Start` | dash_mcp/src/scheduler.ts:13-23 | arms one timeout for each of the five jobs, or nothing when polling is off |
| `Scheduling.PollScheduler.Stop` | dash_mcp/src/scheduler.ts:31-36 | clears the timeouts kept in `timers` and waits for what was running |
| `Scheduling.StepKeeps` | dash_mcp/src/scheduler.ts:31-48 | every pending timeout is the one kept under its name, and each job is waiting or running, once |
| `Scheduling.EveryRun` | dash_mcp/src/scheduler.ts:31-48 | in every run after one start no job runs twice at once and none is lost; once `stop` has resolved no job runs and no timeout is left to start one |
| `Scheduling.NothingBeginsAfterStop` | dash_mcp/src/index.ts:53-61 | no job begins after the first signal, and after the store is closed none runs for the rest of the run |
| `Scheduling.SignalEffect` | dash_mcp/src/index.ts:33-48 | the first signal clears every timeout and waits for the jobs in progress, a second one changes nothing |
| `Scheduling.ShutdownCompletes` | dash_mcp/src/index.ts:53-61 | from every state of a shutdown there is a run that closes the store |
| `SweepElection.MasterProcess.AssignRetentionSweepWorker` | api/server/experimental.js:163-183 | keeps an assignment still in the worker table, else assigns the last connected worker, a listening one if there is any, and says whom it told |
| `SweepElection.MasterProcess.Listening` | api/server/experimental.js:212-220 | the master's state and message after a worker starts listening |
| `SweepElection.MasterProcess.Exit` | api/server/experimental.js:222-228 | the master's state and message after a worker exits |
| `SweepElection.AtMostOneSweeper` | api/server/experimental.js:158-281 | in every run at most one live worker sweeps, it is the assigned one, and a worker starts at most once and exactly when assignment and configuration have both come, in either order |
| `SweepElection.EitherOrderStarts` | api/server/experimental.js:265-281 | a live worker that was told sweeps once assignment and configuration have reached it, in either order |
| `SweepElection.TableIsLiveOrConnected` | api/server/experimental.js:163-170 | in every run the worker table holds exactly the workers that are alive or still connected |
| `SweepElection.AssignedWhenAllListen` | api/server/experimental.js:212-220 | when the last worker starts listening, a live worker is assigned if and only if no exited but still connected worker held the assignment |
| `SweepElection.ListenersFirst` | api/server/experimental.js:168-183 | whoever is told to sweep when a worker starts listening is alive and listening |
| `SweepElection.AllListeningAssigned` | api/server/experimental.js:212-235 | in every run, whenever all workers listen, a live worker is assigned if and only if no exited but still connected worker held the assignment when a worker last started listening |
| `SweepElection.DeadWorkerCanHoldAssignment` | api/server/experimental.js:163-235 | a run after which all workers listen and the assigned one is dead |
| `MapPool.StepKeeps` | eval/run.ts:287-292 | a lane's step keeps: indices claimed in order and once, each held by one lane or answered; and the steps left go down |
| `MapPool.EverySchedule` | eval/run.ts:280-295 | under every schedule at most limit and at most n calls are in flight, each index is called once, the run is bounded, and position i holds the answer for item i; all holes for a limit of zero or less |
| `MapPool.BoundIsReached` | eval/run.ts:287 | for a positive limit some schedule has min(limit, n) calls in flight |
| `MapPool.MapPool` | eval/run.ts:280-295 | terminates under an arbitrary scheduler with the answers in place |
| `CodeFileNames.NumberBeforeExtension` | config/migrate-code-file-duplicates.js:25-30 | a name with a stem and an extension becomes the stem, the number in parentheses, and the extension |
| `CodeFileNames.NumberAtEnd` | config/migrate-code-file-duplicates.js:25-30 | a name without an extension gets the number at its end |
| `CodeFileNames.SuffixInjective` | config/migrate-code-file-duplicates.js:26-30 | different names or different numbers never give the same replacement |
| `CodeFileNames.TriesBounded` | config/migrate-code-file-duplicates.js:38-46 | as many different candidates as were tried are taken, so at most one more try than taken names |
| `CodeFileNames.NextAvailableName` | config/migrate-code-file-duplicates.js:38-46 | the loop ends with the first free candidate and adds it to the taken names |
| `CodeFileNames.FirstFree` | config/migrate-code-file-duplicates.js:38-46 | the number found is free, all smaller ones are taken, and it is at most one more than the number of taken names |
| `CodeFileDuplicates.PlanFresh` | config/migrate-code-file-duplicates.js:134-141 | the names planned for a group are free, different from each other, and suffixed forms of the group's name |
| `CodeFileDuplicates.PlanUnaffected` | config/migrate-code-file-duplicates.js:126-141 | in the middle of a live run a group's plan is what it was at the start |
| `CodeFileDuplicates.DryRunIsExact` | config/migrate-code-file-duplicates.js:113-147 | for any order of the groups a dry run plans exactly the renames of a live run, which re-reads the taken names |
| `CodeFileDuplicates.LiveRunResult` | config/migrate-code-file-duplicates.js:97-147 | after a live run names are unique in every scope, no file is lost or moved, only older copies are renamed, and the newest of each group keeps its name |
| `CodeFileDuplicates.SecondRunIdle` | config/migrate-code-file-duplicates.js:97-147 | once names are unique there is no group and nothing is renamed |
| `CodeFileDuplicates.FileCollection.PlanRenames` | config/migrate-code-file-duplicates.js:126-141 | the loop plans what the specification of a group's plan says |
| `CodeFileDuplicates.FileCollection.RenameStale` | config/migrate-code-file-duplicates.js:143-147 | all planned renames are made, or a write raised |
| `CodeFileDuplicates.FileCollection.Migrate` | config/migrate-code-file-duplicates.js:113-182 | a dry run writes nothing; if nothing raises the plans and the files are those of the laws above; errors are zero exactly if no read, no rename and not the index build raised; the index is built exactly after such a live run, and then the names are unique |
| `SharedLinks.BatchCovered` | config/migrate-shared-link-permissions.js:153-259 | however a bulk write ends, every link of the batch has its grants or is recorded as failed |
| `SharedLinks.Database.CollectOps` | config/migrate-shared-link-permissions.js:154-231 | every grant a link of the batch calls for is among the operations, each beside the link it is for |
| `SharedLinks.Database.BlamedLinks` | config/migrate-shared-link-permissions.js:237-257 | nobody is blamed for a write that succeeded, exactly the links of the reported operations for one that reports errors, and the batch for one that raised |
| `SharedLinks.Database.ProcessBatch` | config/migrate-shared-link-permissions.js:153-259 | grants are only added, only ones that links call for, also when the run stops in the batch; otherwise links without theirs are among the failed, and a link newly failed had an operation reported as failed or the write raised |
| `SharedLinks.Database.UnsetIsPublic` | config/migrate-shared-link-permissions.js:291-303 | the field is removed only from links whose grants are in place, also when the update stops half-way |
| `SharedLinks.Database.Migrate` | config/migrate-shared-link-permissions.js:126-309 | every run, wherever it stops, also inside a batch, is a step that the laws below are about; it crashes exactly when it is stopped, aborts exactly on unforced links marked false, and finishes without a failed link when every bulk write succeeded, and then every link with a user has its owner grant, every public one the public grant, and no field is left |
| `SharedLinks.NeverLosesNorLeaks` | config/migrate-shared-link-permissions.js:153-302 | over any sequence of runs a public link keeps its field or has the public grant, a link marked false never gets one, and no link gets a foreign owner |
| `SharedLinks.OtherValuesBecomePublic` | config/migrate-shared-link-permissions.js:197-228 | after such a run a link has the public grant exactly when it had it or its field was there and not false |
| `Fnv.Fnv1a` | ingest/ingest.py:129-134 | the loop computes the masked hash, which is the unmasked one modulo 2^32 |
| `Fnv.MaskingCommutes` | ingest/ingest.py:129-134 | masking at every round gives the low 32 bits of the computation that never masks |
| `Fnv.OneByteMatters` | ingest/ingest.py:129-134 | tokens of equal length that differ in exactly one byte never have the same hash |
| `Fnv.StatesStayApart` | ingest/ingest.py:129-134 | different hash states stay different whatever bytes follow |
| `SparseVectors.SparseVectorOf` | ingest/ingest.py:137-146 | distinct indices, each with the number of long enough tokens that hash to it, and none missing |
| `SparseVectors.TokensAreRuns` | ingest/ingest.py:139 | the tokens are all maximal runs of lower-case letters and digits in the text, each once and in order |
| `SparseVectors.SampleVector` | ingest/ingest.py:149-160 | the sample of the self-check has the one pinned index with the value 2 |
| `SparseVectors.TokensJoin` | ingest/ingest.py:139 | the tokens of two texts joined by a separator are those of the one, then those of the other |
| `SparseVectors.VectorsAdd` | ingest/ingest.py:137-146 | the vector of two joined texts is the sum of their vectors, index by index and in total |
| `SparseVectors.SumIsLong` | ingest/ingest.py:137-146 | the values sum to the number of tokens of length two or more |
| `Ingest.Qdrant.UpsertAll` | ingest/ingest.py:210-224 | stores exactly the points when it returns, a part of them when it raises, and touches no other collection |
| `Ingest.Qdrant.CheckNewCollection` | ingest/ingest.py:274-278 | a collection that passes is not empty and holds the expected number of points |
| `Ingest.Qdrant.SwapAlias` | ingest/ingest.py:281-291 | the alias moves to the new name, or the call raised and it moved or stayed |
| `Ingest.Qdrant.DropOldCollections` | ingest/ingest.py:294-298 | only `kb_*` collections other than the two kept go, and all of them when it returns |
| `Ingest.Qdrant.FillAndCheck` | ingest/ingest.py:410-415 | a collection that passes holds exactly the points, and no other collection is touched |
| `Ingest.Qdrant.Ingest` | ingest/ingest.py:418-452 | every way an ingest can end, and the state it leaves: it refuses only if a directory, a group, points or the embedding service are missing or the points shrink too much without force; with nothing refused, nothing raised and a corpus that can be built it completes; before the swap neither the alias nor an old collection has changed; a completed one serves the new complete collection, and of the `kb_*` collections only it and the previous target are left |
| `Ingest.Qdrant.Rollback` | ingest/ingest.py:455-465 | every way a rollback can end: without a raised call the alias moves to the newest other non-empty `kb_*` collection, or stays if there is none |
| `Ingest.PartialOnlyByFailedCleanup` | ingest/ingest.py:437-452 | a step keeps every non-empty `kb_*` collection complete if and only if it is not a half-way failure whose cleanup failed too |
| `Ingest.RollbackSafeExactly` | ingest/ingest.py:437-465 | after an ingest every rollback serves a fully loaded collection if and only if the ingest did not fail that way or a newer candidate was there |
| `Ingest.SafeThroughoutExactly` | ingest/ingest.py:410-465 | in every run whose collection names are in the order of time, a rollback at any point leaves the alias on a fully loaded collection if and only if no ingest of the run failed that way |
| `Ingest.AliasAlwaysLoaded` | ingest/ingest.py:410-465 | in every other run of ingests and rollbacks the alias, once on a fully loaded non-empty collection, always is |
| `Ingest.AliasLoadedFromStart` | ingest/ingest.py:410-465 | starting from an empty Qdrant the alias, once set, always targets such a collection |
| `Ingest.PartialCanBeServed` | ingest/ingest.py:439-465 | a run with a failed cleanup after which a rollback serves a partial collection |
| `Ingest.TwoRollbacks` | ingest/ingest.py:455-465 | two rollbacks right after a successful ingest restore the alias; the first serves the previous target exactly when that is a non-empty `kb_*` collection |

## Left out

Assumptions about what the code calls:

- The zone of America/New_York has offsets -5 h and -4 h and changes only at 02:00 local time (15 U.S.C. section 260a), and in `CampusTime.WallTimeReadsBack` changes are more than a day apart; local mean time before 1883 and wartime changes are not modelled. The formatter of the runtime is taken to read that offset and the proleptic Gregorian calendar, and to print a year before 1 so that it differs from every year after it; a formatter without an era prints the year of the era, and then `currentCampusDate` of an instant before the year 1 may read as a later date.
- `localeCompare` is a total order on keys, and on the texts that are ranked; collations in which different strings tie are not modelled.
- `CanonicalJson` takes JSON values: a number is its JSON text; undefined, functions, dates and non-finite numbers, which `JSON.stringify` drops or replaces, are not modelled. `JsonReader` reads texts without white space between tokens, and takes for a number any run of the characters of numbers.
- Lower-casing and Unicode decomposition are parameters of `PlaceMatching`; texts there are sequences of code points, so the length of a name counts a character outside the basic plane once. `SparseVectors` takes text already in lower case.
- `new Date(text)` is a parameter: it gives an instant or nothing, the same one each time. Of a departure the matched clock fields and the delay are the input; the two regular expressions are not modelled.
- The library calls the session callback at most once and before the initialize request has failed or settled; constructing the server and the transport does not raise; session ids are never repeated.
- In `SessionTable` the session objects are values kept in insertion order; a close event of a session that has left the map changes only the object that is no longer reachable from it.
- `PollScheduler.start` is called once. The job lock, the intervals with their jitter, metrics and the shutdown deadline that exits the process are not modelled; a signal before the scheduler has started is not either.
- A worker is in the cluster table until it has both exited and disconnected; forking does not fail; the number of workers is a positive whole number. Replacing the master and its shutdown are not modelled.
- `MapPool` models workers that do not fail, and an integer limit.
- File names contain no path separator; a missing scope key and a null one are one value; only records of the code-execution context are in the collection, and nobody else writes while the migration runs. The sample of at most 50 details is not modelled.
- A bulk write with error reports lists every operation that failed. The contents of a grant (permission bits, role, time, tenant, expiry), the counters and the progress messages of the permission migration are left out; so are links created while it runs.
- In `Ingest.SafeThroughoutExactly` the clock that gives the names does not run backwards.
- Killing the process without an exception in the middle of an ingest is outside the claims about rollback. Parsing, chunking, embedding, the health check's transport and the `--diff` report are not modelled; the smoke queries are taken to find nothing in an empty collection.

Members stated weaker than the source could be read:

- OpenStatus.RowOrderIrrelevant: does not cover `category` and `hours`, which keep the first row's category and the order of the rows.
- CampusTime.DayRangeIsCampusDate: is about dates whose text has four year digits, because no other text of `currentCampusDate` is accepted by `campusDayRange`; all accepted texts are in CampusTime.DayRangeExact.
- Windows.MultiDayRange: is about first and last dates from the years 1000 to 9999; earlier ones are in Windows.DaysSelect, over days.
- Ingest.AliasAlwaysLoaded: gives a sufficient condition; the exact one is in Ingest.SafeThroughoutExactly, because a partial collection harms the alias only when a rollback follows.
- OpenStatus.RankingIsTotal: takes the ISO texts and the places to be compared by one total order.

Parts of the repository that are not modelled:

- The chat server, its client, retrieval and reranking, the PostgreSQL store, login strategies, index synchronisation, caches, scrapers and HTML cleaning: input and output, or behaviour of libraries.
- `withoutTypename`, `normalizeRawRecord`, `contentHash` and `fuzzyMatch` of `dash_mcp/src/util.ts`: clipping and choosing of fields.
- Answer metadata, warning texts, metrics, logging and the status report: wording and counts.
