# Flood fill and call station, modelled in Dafny

Two independent in-memory components of an iOS coursework repository.

**Flood fill** (`FillWithColor`) takes a grid of colours, a seed cell and a new
colour. It first checks the request. The grid must be non-empty, have at most 50
rows, be rectangular and hold no negative cell. The seed must lie inside the grid
and the new colour must be below 65536. If any check fails, the grid comes back
unchanged. Otherwise the fill collects the cells reachable from the seed by
orthogonal steps through cells of one colour. It then writes the new colour into
exactly those cells of a copy of the grid.

The recursive neighbour walk becomes a worklist loop (`FloodFill.CollectRegion`).
The loop terminates because the set of cells not yet collected shrinks, or stays
the same while the worklist shrinks. The region is defined separately from the
walk: `FloodFill.InRegion` says a path of same-coloured orthogonal steps leads
from the seed to the cell. The walk is proved to collect exactly that region.

**Call station** (`CallStation`) keeps a set of connected users and a record of
every call. The actions are `start`, `answer` and `end`, plus `remove`. They
append records or change a record's status. A status change replaces the record
with one that has the same id and the same two parties.

Swift's `Set<Call>` becomes a sequence of records with distinct ids
(`CallStation.CallStore`). The sequence order stands for the set's iteration
order, so `first(where:)` is a scan from the front. Each lemma quantifies over
every store, so it holds for any iteration order. A new record is appended.
`CallID()` is modelled as an id no stored call carries (`CallStation.FreshId`).

Files:

- `option.dfy`: the optional value.
- `flood_fill.dfy`: the fill, the region, and the lemmas about both.
- `call_station.dfy`: records, actions and queries.
- `call_station_lemmas.dfy`: the single-active invariant, lookups after an
  action, the life cycle of a call, and the lemmas for the points below.

In three places the station's code is looser than the usual meaning of its
words (busy means taking part in an active call, removing a user disconnects
them, and answer and end act on the user's active call); the model follows the
code:

- The busy check in `start` counts calls of every status, not only calling or
  talking calls. After a cancelled call, the caller's next start is still
  rejected as `userBusy` (`CallStationProperties.BusyCheckCountsEndedCalls`).
- `remove` leaves the user connected. It ends the first call the user takes part
  in, whatever that call's status. If that call had already ended, `remove`
  overwrites its reason with `error`
  (`CallStationProperties.RemoveRewritesEndedCall`).
- `answer` and `end` look only at the first record that matches the user, of
  any status. An earlier ended record therefore hides a later active one.

## Model

| member | source | states |
|---|---|---|
| `FloodFill.FillWithColor` | Swift_Task4/ios.stage-task/Exercises/Exercise-2/FillWithColor.swift:20-41 | An invalid request (empty, over 50 rows, ragged, a negative cell, a seed out of bounds, colour 65536 or more) returns the grid unchanged. A valid request keeps every row's length and gives the seed the new colour. Each cell of the seed's region gets the new colour and every other cell keeps its own. The result equals the reference fill `Filled`. |
| `FloodFill.CollectRegion` | Swift_Task4/ios.stage-task/Exercises/Exercise-2/FillWithColor.swift:44-63 | The walk from the seed collects a point exactly when it is a grid cell reachable from the seed through 4-adjacent cells of one colour. |
| `FloodFill.VisitNeighbours` | Swift_Task4/ios.stage-task/Exercises/Exercise-2/FillWithColor.swift:48-62 | Examining the four neighbours of a collected cell collects only in-bounds cells of the seed's region. Afterwards every same-coloured neighbour is collected. Either the collected set grew, or the worklist is unchanged. |
| `FloodFill.RegionStep` | Swift_Task4/ios.stage-task/Exercises/Exercise-2/FillWithColor.swift:56-59 | A neighbour that has a region cell's colour is itself in the region. |
| `FloodFill.RegionHoldsSeedColor` | Swift_Task4/ios.stage-task/Exercises/Exercise-2/FillWithColor.swift:57 | Every region cell is a grid cell with the seed's original colour. |
| `FloodFill.RegionWithinClosedSet` | Swift_Task4/ios.stage-task/Exercises/Exercise-2/FillWithColor.swift:56-61 | Take any set that holds the seed and every same-coloured neighbour of its members. It contains the whole region, so the walk misses no cell. |
| `FloodFill.PaintRegionIsFilled` | Swift_Task4/ios.stage-task/Exercises/Exercise-2/FillWithColor.swift:38-39 | A copy of the grid that holds the new colour in exactly the collected cells, and the old colour elsewhere, is the reference fill `Filled` once the collected cells are the seed's region. |
| `FloodFill.FilledWithSeedColorIsIdentity` | Swift_Task4/ios.stage-task/Exercises/Exercise-2/FillWithColor.swift:36-40 | Filling with the seed's own colour returns the input grid. |
| `FloodFill.FilledIdempotent` | Swift_Task4/ios.stage-task/Exercises/Exercise-2/FillWithColor.swift:20-41 | Filling a second time with the same seed and colour changes nothing more. |
| `FloodFill.SingleCellExample` | Swift_Task4/ios.stage-task/Exercises/Exercise-2/FillWithColor.swift:36-40 | `[[5]]` filled at (0,0) with 9 gives `[[9]]`. |
| `FloodFill.ThreeByThreeExample` | Swift_Task4/ios.stage-task/Exercises/Exercise-2/FillWithColor.swift:36-40 | `[[1,1,1],[1,1,0],[1,0,1]]` filled at (1,1) with 2 gives `[[2,2,2],[2,2,0],[2,0,1]]`. The isolated 1 in the corner keeps its colour. |
| `CallStation.Users` | Swift_Task4/ios.stage-task/Exercises/Exercise-3/CallStation.swift:13-15 | The snapshot lists every connected user exactly once and nobody else. |
| `CallStation.Add` | Swift_Task4/ios.stage-task/Exercises/Exercise-3/CallStation.swift:17-19 | The user becomes connected, other users and the calls are untouched, and adding a connected user leaves the station as it was. |
| `CallStation.Remove` | Swift_Task4/ios.stage-task/Exercises/Exercise-3/CallStation.swift:21-25 | The connected users stay the same. With no call involving the user, nothing changes. Otherwise the first such call, whatever its status, becomes `ended(error)`. |
| `CallStation.Unavailable` | Swift_Task4/ios.stage-task/Exercises/Exercise-3/CallStation.swift:36 | The busy filter is empty exactly when no stored call, of any status, has either user as a party. |
| `CallStation.ExecuteStart` | Swift_Task4/ios.stage-task/Exercises/Exercise-3/CallStation.swift:29-41 | An unconnected caller gets no id and nothing changes. Otherwise one record is appended under a fresh id, which is returned. Its status is `ended(error)` for an unconnected callee. It is `ended(userBusy)` when a stored call involves either user, and `calling` when none does. Every earlier record is kept. |
| `CallStation.ExecuteAnswer` | Swift_Task4/ios.stage-task/Exercises/Exercise-3/CallStation.swift:43-49 | With no call for that callee, or a first one that is not `calling`, the result is no id and an unchanged station. Otherwise that call becomes `talk` under its id, which is returned. |
| `CallStation.ExecuteEnd` | Swift_Task4/ios.stage-task/Exercises/Exercise-3/CallStation.swift:51-57 | The first call the user takes part in ends: `calling` becomes `ended(cancel)` and `talk` becomes `ended(end)`, and its id is returned. For an ended call, or no call, there is no id and no change. |
| `CallStation.UpdateKeepsHistory` | Swift_Task4/ios.stage-task/Exercises/Exercise-3/CallStation.swift:139-143 | Updating a stored call by a legal status step keeps the number of records, gives that record the new status with its id and parties, and leaves every other record as it was. |
| `CallStation.Execute` | Swift_Task4/ios.stage-task/Exercises/Exercise-3/CallStation.swift:27-59 | No action changes the connected users or shortens the history. Every earlier record keeps its id and both parties, and its status stays or takes one legal step (`calling`→`talk`, `calling`→`ended(cancel)`, `talk`→`ended(end)`). A returned id names a stored record. |
| `CallStation.AllCalls` | Swift_Task4/ios.stage-task/Exercises/Exercise-3/CallStation.swift:61-63 | Every stored call, of any status, and nothing else. |
| `CallStation.CallsOf` | Swift_Task4/ios.stage-task/Exercises/Exercise-3/CallStation.swift:65-67 | A call is listed exactly when it is stored and the user is one of its parties. |
| `CallStation.CallById` | Swift_Task4/ios.stage-task/Exercises/Exercise-3/CallStation.swift:69-71 | A found record is stored and carries the id. Nothing is found exactly when no record carries it. |
| `CallStation.CurrentCall` | Swift_Task4/ios.stage-task/Exercises/Exercise-3/CallStation.swift:73-76 | A found call is stored, involves the user and is `calling` or `talk`. Nothing is found exactly when no such call exists. |
| `CallStation.AvailabilityOf` | Swift_Task4/ios.stage-task/Exercises/Exercise-3/CallStation.swift:82-84 | A call leaves a list of users available exactly when none of them is one of its parties. |
| `CallStation.NewCall` | Swift_Task4/ios.stage-task/Exercises/Exercise-3/CallStation.swift:86-91 | A new record has the given parties and status and an id no stored call carries. |
| `CallStation.WithStatus` | Swift_Task4/ios.stage-task/Exercises/Exercise-3/CallStation.swift:93-98 | The re-created record keeps the id and both parties and takes the new status. |
| `CallStation.EndReason` | Swift_Task4/ios.stage-task/Exercises/Exercise-3/CallStation.swift:115-119 | `calling` gives `cancel`, `talk` gives `end`, and an ended status gives none. Each direction holds. |
| `CallStation.InsertCall` | Swift_Task4/ios.stage-task/Exercises/Exercise-3/CallStation.swift:133-137 | Exactly one record is appended, under a fresh id that is returned. |
| `CallStation.ReplaceById` | Swift_Task4/ios.stage-task/Exercises/Exercise-3/CallStation.swift:103-105 | Records compare by id, so the replacement takes the place of the record with its id. All other records are untouched and the length is kept. |
| `CallStation.UpdateCall` | Swift_Task4/ios.stage-task/Exercises/Exercise-3/CallStation.swift:139-143 | The call's id is returned and the connected users are untouched. When a record has that id, it gets the new status with the same id and parties, and nothing else changes. When no record has it, the store gains exactly that record with the new status, as a set's `update(with:)` inserts a missing member. |
| `CallStationProperties.CallByIdFindsRecord` | Swift_Task4/ios.stage-task/Exercises/Exercise-3/CallStation.swift:69-71 | Looking up a stored record's id returns that record. |
| `CallStationProperties.CurrentCallFindsActiveCall` | Swift_Task4/ios.stage-task/Exercises/Exercise-3/CallStation.swift:73-76 | Assume each user has at most one active call. Then `currentCall` returns the user's calling or talking call. |
| `CallStationProperties.ExecuteKeepsEndedCalls` | Swift_Task4/ios.stage-task/Exercises/Exercise-3/CallStation.swift:51-57 | No action changes a record that has already ended. |
| `CallStationProperties.EmptySingleActive` | Swift_Task4/ios.stage-task/Exercises/Exercise-3/CallStation.swift:6-7 | A new station, with nobody connected and no calls, has no two active calls sharing a party. |
| `CallStationProperties.ExecutePreservesSingleActive` | Swift_Task4/ios.stage-task/Exercises/Exercise-3/CallStation.swift:27-59 | If no two active calls share a party before an action, none do after it. |
| `CallStationProperties.StartPreservesSingleActive` | Swift_Task4/ios.stage-task/Exercises/Exercise-3/CallStation.swift:29-41 | A start keeps "no two active calls share a party": the record it appends is `calling` only when neither user takes part in any stored call. |
| `CallStationProperties.RemovePreservesSingleActive` | Swift_Task4/ios.stage-task/Exercises/Exercise-3/CallStation.swift:21-25 | `remove` keeps the same invariant. |
| `CallStationProperties.AnswerAt` | Swift_Task4/ios.stage-task/Exercises/Exercise-3/CallStation.swift:43-49 | Answering turns the callee's first call from `calling` into `talk` in place, returns its id and leaves every other record alone. |
| `CallStationProperties.EndAt` | Swift_Task4/ios.stage-task/Exercises/Exercise-3/CallStation.swift:51-57 | Ending gives the user's first call, when it is calling or talking, its end reason in place, returns its id and leaves every other record alone. |
| `CallStationProperties.StartToUnconnectedUser` | Swift_Task4/ios.stage-task/Exercises/Exercise-3/CallStation.swift:29-35 | After connecting the caller, a call to an unconnected user returns an id whose record is `ended(error)`. |
| `CallStationProperties.CallLifeCycle` | Swift_Task4/ios.stage-task/Exercises/Exercise-3/CallStation.swift:27-59 | Take two free, connected users. `start` gives `calling`, the callee's `answer` gives `talk`, and the caller's `end` gives `ended(end)`, all under the id `start` returned. |
| `CallStationProperties.HangUpWhileCallingCancels` | Swift_Task4/ios.stage-task/Exercises/Exercise-3/CallStation.swift:51-57 | Either party's `end` before an answer gives `ended(cancel)`. |
| `CallStationProperties.StartWithBusyUserIsRejected` | Swift_Task4/ios.stage-task/Exercises/Exercise-3/CallStation.swift:36-39 | A start involving a user who already has a call appends an `ended(userBusy)` record and leaves every earlier record as it was. |
| `CallStationProperties.RemoveDuringCall` | Swift_Task4/ios.stage-task/Exercises/Exercise-3/CallStation.swift:21-25 | `remove` during a call ends it with `error` and leaves the user connected. |
| `CallStationProperties.BusyCheckCountsEndedCalls` | Swift_Task4/ios.stage-task/Exercises/Exercise-3/CallStation.swift:36-39 | After a cancelled call the caller has no current call, yet the caller's next start is rejected as `userBusy`. |
| `CallStationProperties.RemoveRewritesEndedCall` | Swift_Task4/ios.stage-task/Exercises/Exercise-3/CallStation.swift:21-25 | `remove` turns an `ended(cancel)` record into `ended(error)`, so its terminal reason changes. |

## Left out

- Persistence of `fillPoints` between calls (FillWithColor.swift:17): the Swift instance never clears its point set. A second fill on the same object therefore also paints the points collected by earlier fills. A point left over from an earlier fill also stops the walk, because inserting it again (line 58) reports it as already present, so a later fill misses region cells reached only through such a point. Painting stale points can also index out of range on a smaller grid. The model fills from an empty set on every call, as each fill is meant to.
- Traversal order and recursion depth: the Swift walk is a depth-first recursion, and the model uses an explicit worklist. Whenever the recursion completes, the point set collected is the same, and only that set reaches the result. The recursion nests about once per collected cell (FillWithColor.swift:56-59), and the guard limits rows to 50 but not columns, so a large one-colour grid can exhaust the Swift call stack; `FillWithColor` models no stack limit and always returns the reference fill.
- Swift `Set` iteration order: the model fixes one order, insertion order with new records appended. `first(where:)` scans from the front. Each property is proved for every store, but which record `first(where:)` picks in a real run depends on hashing, and that is not modelled.
- UUID generation and `hash(into:)` for `User` and `Call`: ids are natural numbers. A new call gets one more than the largest stored id, which stands for a fresh UUID. Users compare by their id.
- The `Station` protocol and the declarations of `User`, `Call`, `CallStatus`, `CallEndReason` and `CallAction` are declared in other files of the repository and are not modelled. The Dafny datatypes carry just the fields the station reads.
- Class and reference semantics: both components are modelled as pure functions from state to state. The fill's `inout` grid is never written during the walk, so the walk reads the input grid.
