# Exam seat allocator, modelled in Dafny

The core of seat-saver is `src/utils/allocateExam.js`, which has two functions.

`allocateExamSeats(classrooms, studentsToAllocate)` seats an exam's students in the registered classrooms:

- Three guards each return a failure record: no rooms, a non-positive count, or too few free seats.
- It copies the room records.
- It splits the copies into partially used rooms and empty rooms. Full rooms fall out.
- It sorts each group stably:
  - partial rooms by floor ascending, then free seats descending;
  - empty rooms by floor ascending, then capacity descending.
- It visits the partial rooms, then the empty ones, and gives each `min(free, remaining)` seats. It raises the room's `usedSeats` in the copy and pushes one plan entry per room. It stops once every student is seated.

`validateClassroom(classroom)` checks a record typed into the form, in order: the room id, then the capacity, then the floor. It stops at the first failure.

Project layout:

- `wrappers.dfy` holds `Option`.
- `classroom.dfy` (`Rooms`) holds the records and the sums over a room list.
- `ordering.dfy` (`Ordering`) holds the two comparators and the stable sort. It proves the sort yields a stably sorted permutation, and that such a permutation is unique.
- `allocator.dfy` (`Allocator`):
  - `Allocate` states the result as a function of the inputs.
  - The method `AllocateExamSeats` has the source's shape: guards, a fresh `array` copy, and the `for...of` loop (`GreedyFill`) updating that array in place. It is proved equal to `Allocate`.
  - `findIndex` by room id is modelled as written.
  - The sorted list holds indices into the array copy. This is how it models that `filter` results alias the copied records.
- `reference.dfy` (`Reference`) is a separate allocator on plain values, with no aliasing and no id lookup. `FillMatchesReference` proves the greedy pass equals it when room ids are unique.
- `properties.dfy` (`AllocatorProperties`) proves what the allocator promises: guard order, records kept, capacity, conservation, plan order, greedy shape, entry fields.
- `validator.dfy` (`Validation`) holds `validateClassroom` and `String.prototype.trim`.
- `decimal.dfy` (`Decimal`) turns integers into text, for the "Not enough seats" message.
- `findings.dfy` (`PlanReporting`) holds the one finding below.
- `scenarios.dfy` (`Scenarios`) holds worked cases.

Plan entries, as the code writes them:

- The field names `previousUsed` and `newUsed`, and the history panel's "previousUsed → newUsed / capacity" display (`src/components/OutputPanel.jsx:139-142`), read as the room's usage before and after the request.
- In the code, `room` is the same record that line 88 has just incremented. So `previousUsed` is the room's usage after the increment, and `newUsed` adds the seats a second time (see Findings).
- `Allocate` keeps this as-written behaviour. `PlanReporting.CorrectedPlan` gives the intended entries.

Preconditions:

- The allocator itself has no precondition; every input is handled.
- The properties assume `Rooms.ValidRooms`: room ids are unique and `0 <= usedSeats <= capacity`. The form refuses duplicate ids (`src/components/AddClassroom.jsx:46`), and new rooms start empty.

## Model

| member | source | states |
|---|---|---|
| Allocator.AllocateExamSeats | src/utils/allocateExam.js:14-110 | The method (guards, a fresh array copy of the rooms, the sorted visiting order, then the greedy loop) returns exactly the result `Allocate` specifies, for every input, with no precondition. |
| Allocator.Allocate | src/utils/allocateExam.js:14-110 | The result as a function of the inputs. It always returns a room list as long as the input (empty for an absent list), and a failure has no entries. Its properties are the `AllocatorProperties` rows. |
| Allocator.NotEnoughMessage | src/utils/allocateExam.js:43 | The message starts with "Not enough seats available. Requested: " and is longer than the fixed text alone. |
| Allocator.NotEnoughMessageNumbers | src/utils/allocateExam.js:43 | The message is the fixed text with two numerals spliced in, and those numerals read back as the requested count and the available count. |
| Allocator.Fill | src/utils/allocateExam.js:76-101 | The greedy pass as the loop runs it returns a room list as long as its input. It is matched to the reference grants by `Reference.FillMatchesReference`. |
| Allocator.BumpedEffect | src/utils/allocateExam.js:86-89 | The increment: when `findIndex` found a room, that room's `usedSeats` rises by the seats and every other room is unchanged; when it found none, nothing changes. |
| Allocator.AddUsage | src/utils/allocateExam.js:86-89 | The in-place increment leaves the array equal to `Bumped` of its old contents. |
| Allocator.FillSkip | src/utils/allocateExam.js:79-81 | A loop step at a room with no free seat leaves the rest of the pass unchanged. |
| Allocator.FillGrant | src/utils/allocateExam.js:83-100 | A loop step at a room with free seats: the increment and the pushed entry are the next part of the pass. |
| Allocator.GreedyFill | src/utils/allocateExam.js:72-101 | The loop over the sorted room indices leaves the array, the pushed entries and the remaining demand equal to the greedy pass `Fill` over the old array contents. The loop invariant is that the plan so far, resumed with `Fill` of the rest of the order, gives the whole pass. |
| Rooms.Min | src/utils/allocateExam.js:83 | `Math.min`: the result is at most both arguments and equal to one of them. |
| Rooms.FindIndex | src/utils/allocateExam.js:86-88 | `findIndex` answers -1 or an index within the list. |
| Rooms.FindIndexSpec | src/utils/allocateExam.js:86-88 | `findIndex` answers -1 exactly when no room has the id. Otherwise it answers the first room with that id. |
| Rooms.FindOwnIndex | src/utils/allocateExam.js:86-88 | With unique ids, looking up a room's own id finds that room. So the increment lands on the visited room. |
| Rooms.TotalAvailable | src/utils/allocateExam.js:35-38 | The `reduce` over the rooms' free seats is never negative when every room is well formed. |
| Rooms.TotalUsedUpdate | src/utils/allocateExam.js:88 | Replacing one room changes total usage by the difference in that room's `usedSeats`. |
| Ordering.Compare | src/utils/allocateExam.js:55-58 | The comparator's sign matches the two-key order: negative exactly when a comes first (lower floor, or the same floor and a larger secondary key), zero exactly when both keys are equal, positive exactly when b comes first. |
| Ordering.Members | src/utils/allocateExam.js:53-54 | The `filter` result lists indices of the collection. |
| Ordering.MembersExactly | src/utils/allocateExam.js:53-54 | The filter keeps input order and keeps exactly the rooms of its group. Partial means `0 < usedSeats < capacity`; empty means `usedSeats == 0`. |
| Ordering.Insert | src/utils/allocateExam.js:55-58 | One insertion step of the sort adds exactly one index and keeps the rest. |
| Ordering.Sort | src/utils/allocateExam.js:55-58 | The sort returns a permutation of its input. |
| Ordering.InsertSorted | src/utils/allocateExam.js:55-58 | Inserting an index that lies before every other index in input order keeps the sequence stably sorted. |
| Ordering.SortSorted | src/utils/allocateExam.js:53-67 | Sorting an index list in input order gives a stably sorted list: ordered by the keys, with equal keys kept in input order. |
| Ordering.SortedDistinct | src/utils/allocateExam.js:53-67 | A stably sorted list repeats no room. |
| Ordering.SortedSameHead | src/utils/allocateExam.js:53-67 | Two stably sorted permutations of the same rooms start with the same room. |
| Ordering.SortedUnique | src/utils/allocateExam.js:53-67 | Two stably sorted permutations of the same rooms are equal, so any stable sort yields this model's order. |
| Ordering.SortedTail | src/utils/allocateExam.js:53-67 | Dropping the first room of a stably sorted list leaves it stably sorted. |
| Ordering.Order | src/utils/allocateExam.js:53-70 | The visiting order lists rooms of the collection. |
| Ordering.ChainDistinct | src/utils/allocateExam.js:70 | A list in visiting order repeats no room. |
| Ordering.OrderCorrect | src/utils/allocateExam.js:53-70 | A room is visited exactly when it is partial or empty, so full rooms never appear. Each room appears once. Every partial room comes before every empty room, whatever its floor. Within a group the keys are ascending and equal keys keep input order. |
| AllocatorProperties.PlanRooms | src/utils/allocateExam.js:91-98 | Maps each plan entry to the room the entry names; one room per entry. |
| AllocatorProperties.GuardsInOrder | src/utils/allocateExam.js:16-47 | The guards, in order: an absent or empty list gives "No classrooms available"; then a count of zero or less gives "Please enter a valid number of students"; then a count above the total free seats gives the "Not enough seats" message with both numbers. Every failure has an empty plan and returns the input list. The result is a success exactly when all three guards pass. |
| AllocatorProperties.FillOnlyRaisesUsage | src/utils/allocateExam.js:86-88 | The greedy pass keeps every room's id, capacity, floor and washroom flag. It only raises `usedSeats`. |
| AllocatorProperties.SuccessKeepsRecords | src/utils/allocateExam.js:50-88 | On success the returned rooms have the input's length and order. Every field but `usedSeats` is as in the input, and `usedSeats` never goes down. This holds for any input, duplicate ids included. |
| AllocatorProperties.ChainPrefix | src/utils/allocateExam.js:70-76 | A prefix of a list in visiting order is again in visiting order. |
| AllocatorProperties.SuccessUnfold | src/utils/allocateExam.js:103-109 | A success means the guards passed, and it carries the greedy pass's plan and rooms. |
| AllocatorProperties.SuccessPlan | src/utils/allocateExam.js:50-109 | With unique ids, a call that passes the guards succeeds. Its entries are the as-written entries of the reference grants, its rooms are those grants applied to the input, `totalRequested` is the request and `totalAllocated` the seats granted. |
| AllocatorProperties.GrantsFacts | src/utils/allocateExam.js:70-101 | Over valid rooms whose free seats cover the request, the reference grants name distinct rooms of the visiting order, in that order. Each grant is between one seat and the room's free seats, all but the last take every free seat, and they add up to the request. The granted rooms are the rooms with free seats in a prefix of the order. |
| AllocatorProperties.SuccessOrderFacts | src/utils/allocateExam.js:70-101 | The granted rooms are the rooms with free seats in a prefix of the visiting order. They are in visiting order and distinct. |
| AllocatorProperties.GrantsKeepCapacity | src/utils/allocateExam.js:79-88 | Grants to distinct rooms, none above the room's free seats, leave every room with `0 <= usedSeats <= capacity`. |
| AllocatorProperties.CapacityRespected | src/utils/allocateExam.js:79-88 | On success with valid rooms, every returned room has `0 <= usedSeats <= capacity`. |
| AllocatorProperties.SeatsOfWritten | src/utils/allocateExam.js:91-98 | The plan entries' seats add up to the seats granted. So does `newUsed - previousUsed` summed over the entries. |
| AllocatorProperties.Conservation | src/utils/allocateExam.js:76-108 | On success with valid rooms, these all equal the request: `totalRequested`, `totalAllocated`, the sum of `seatsAllocated`, and the sum of `newUsed - previousUsed`. Total usage over the returned rooms rises by exactly the request, so the demand ends at 0. |
| AllocatorProperties.PlanRoomsOfWritten | src/utils/allocateExam.js:91-93 | With unique ids, the rooms named by the entries are the granted rooms, in order. |
| AllocatorProperties.PlanFollowsOrder | src/utils/allocateExam.js:53-101 | On success with valid rooms, each entry names a room with free seats. No room appears twice. Entries follow the visiting order. The rooms in the plan are the rooms with free seats in a prefix of that order. |
| AllocatorProperties.PlanOfGrantsFollowsOrder | src/utils/allocateExam.js:53-98 | Entries for grants to rooms of the visiting order name rooms with free seats, each partial or empty, in visiting order, and those rooms are the rooms with free seats in a prefix of the order. |
| AllocatorProperties.GreedyFillsAllButLast | src/utils/allocateExam.js:76-100 | On success with valid rooms, the room of every entry but the last comes back with `usedSeats` equal to its capacity (and that entry's after-update `previousUsed` reads the capacity). A room that no entry names comes back unchanged. |
| AllocatorProperties.GrantsFillAllButLast | src/utils/allocateExam.js:79-98 | Grants to distinct rooms that take all free seats of every room but the last leave those rooms full, and a room no entry names unchanged. |
| AllocatorProperties.EntriesDescribeRooms | src/utils/allocateExam.js:86-98 | On success with valid rooms, each entry copies its room's floor and capacity and has at least one seat. `previousUsed` is the room's usage after the increment (old usage plus the seats, equal to the returned room). `newUsed` is that plus the seats again. |
| Reference.Indices | src/utils/allocateExam.js:76 | Lists the rooms of a grant list, one per grant, in order. |
| Reference.Grants | src/utils/allocateExam.js:76-101 | The reference grants name rooms of the collection. |
| Reference.Give | src/utils/allocateExam.js:88 | Giving seats to one room keeps the collection's length. |
| Reference.Apply | src/utils/allocateExam.js:88 | Applying all grants keeps the collection's length. |
| Reference.WithFree | src/utils/allocateExam.js:79-81 | The rooms the loop does not skip form a list of rooms of the collection. |
| Reference.WithFreeMembers | src/utils/allocateExam.js:79-81 | The loop skips exactly the rooms without free seats. |
| Reference.Pending | src/utils/allocateExam.js:35-38 | The free seats over a list of rooms are never negative. |
| Reference.GrantsBounded | src/utils/allocateExam.js:79-89 | Every reference grant names a room of the order, gives at least one seat, and gives no more than the room's free seats. |
| Reference.GrantsTotal | src/utils/allocateExam.js:76-101 | No demand means no grants. Otherwise the grants add up to the smaller of the demand and the free seats along the order. |
| Reference.GrantsGreedy | src/utils/allocateExam.js:79-83 | Every grant but the last takes all of its room's free seats. |
| Reference.Consumed | src/utils/allocateExam.js:76-77 | The length of the order the loop visits before the demand runs out is within the order. |
| Reference.WithFreeCons | src/utils/allocateExam.js:79-81 | The rooms not skipped, for an order with one more room at the front. |
| Reference.GrantsPrefix | src/utils/allocateExam.js:76-101 | The granted rooms are the rooms with free seats in a prefix of the order. If that prefix is not the whole order, the demand is met. |
| Reference.GrantsPrefixStep | src/utils/allocateExam.js:76-101 | The prefix property carries over from the rest of the order to the whole order. |
| Reference.GrantsHead | src/utils/allocateExam.js:79-100 | One loop step: the first room is granted exactly when it has free seats. The rest of the grants come from the lowered demand. |
| Reference.ApplyEffect | src/utils/allocateExam.js:86-88 | After the grants, an ungranted room is unchanged. A granted room's usage rises by its grant. Total usage rises by the seats granted. |
| Reference.TailIndices | src/utils/allocateExam.js:76 | Dropping the first grant of a distinct grant list leaves the rest distinct, and without the first room. |
| Reference.ApplyUntouched | src/utils/allocateExam.js:86-88 | A room that no grant names is unchanged. |
| Reference.ApplyTouched | src/utils/allocateExam.js:86-88 | A granted room gains exactly its grant. |
| Reference.ApplyTotal | src/utils/allocateExam.js:88 | Total usage rises by the seats granted. |
| Reference.GrantsFrame | src/utils/allocateExam.js:76-101 | The grants depend only on the rooms along the order. |
| Reference.TailDistinct | src/utils/allocateExam.js:76 | The rest of a distinct order is distinct and lacks its first room. |
| Reference.WrittenFrame | src/utils/allocateExam.js:91-98 | The entries depend only on the granted rooms. |
| Reference.FillMatchesReference | src/utils/allocateExam.js:76-101 | With unique ids and a distinct order, the loop as written matches the reference: aliasing and `findIndex` included, it gives the reference entries, the grants applied and the demand minus the seats granted. |
| Reference.FillMatchesStep | src/utils/allocateExam.js:79-101 | One step of that match, for a room with free seats. |
| Reference.StepShapes | src/utils/allocateExam.js:79-98 | The reference grants, rooms and entries for a first room with free seats. |
| Reference.StepFill | src/utils/allocateExam.js:83-101 | With unique ids, one loop step increments the visited room and pushes its entry, then resumes on the rest. |
| Reference.StepFrame | src/utils/allocateExam.js:86-100 | After one step, ids stay unique. The rest of the grants and entries are as if computed on the original rooms. |
| Reference.PendingAppend | src/utils/allocateExam.js:35-38 | Free seats add up over the two halves of a concatenation. |
| Reference.PendingInsert | src/utils/allocateExam.js:55-58 | One insertion step keeps the free seats, plus the inserted room's. |
| Reference.PendingSort | src/utils/allocateExam.js:55-66 | Sorting keeps the free-seat total. |
| Reference.TotalAvailableStep | src/utils/allocateExam.js:35-38 | The `reduce` over a prefix, one room at a time. |
| Reference.PendingMembers | src/utils/allocateExam.js:35-62 | The free seats of the two groups add up to the `reduce` total over the prefix. Full rooms add nothing. |
| Reference.PendingMembersStep | src/utils/allocateExam.js:35-62 | One room's step of that sum, by cases on the room being partial, empty or full. |
| Reference.PendingMembersLast | src/utils/allocateExam.js:53-62 | The filter's last step adds the last room's free seats to its group's sum exactly when the room is in that group. |
| Reference.PendingOrder | src/utils/allocateExam.js:35-70 | Over well-formed rooms, the free seats along the visiting order equal the `totalAvailable` the guard computes. So the guard's check means the demand is met. |
| Reference.ChainWithFree | src/utils/allocateExam.js:79-81 | Skipping rooms without free seats keeps a list in visiting order. |
| Validation.TrimStart | src/utils/allocateExam.js:118 | Removes a prefix consisting only of white space, and what is left does not start with white space. |
| Validation.TrimEnd | src/utils/allocateExam.js:118 | Removes a suffix consisting only of white space, and what is left does not end with white space. |
| Validation.Trim | src/utils/allocateExam.js:118 | `trim()` returns a string no longer than its input that neither starts nor ends with white space. |
| Validation.TrimEmptyIffBlank | src/utils/allocateExam.js:118 | `trim()` gives the empty string exactly when every character is white space. |
| Validation.ValidateClassroom | src/utils/allocateExam.js:117-131 | A failure carries one of the three fixed messages. The order of the checks is `ValidationOrder`. |
| Validation.ValidationOrder | src/utils/allocateExam.js:117-131 | The checks in order, each stopping the rest: a missing or blank id gives "Room ID is required"; then a missing or non-positive capacity gives "Capacity must be a positive number"; then a missing or negative floor gives "Floor number must be 0 or greater". The result is valid exactly when all three pass. |
| Validation.AdmittedRoomWellFormed | src/utils/allocateExam.js:117-131 | A room that passes, admitted with no seats used, is well formed with all its free seats. |
| Decimal.DigitChar | src/utils/allocateExam.js:43 | A digit below ten becomes a character from '0' to '9'. |
| Decimal.NatToString | src/utils/allocateExam.js:43 | The decimal numeral is non-empty and all digits, with no leading zero. |
| Decimal.IntToString | src/utils/allocateExam.js:43 | The numeral starts with '-' exactly for a negative number. |
| Decimal.NatRoundTrip | src/utils/allocateExam.js:43 | Reading the numeral of a natural number back gives that number. |
| Decimal.ParseNegative | src/utils/allocateExam.js:43 | A leading '-' negates the number read. |
| Decimal.ParseDigits | src/utils/allocateExam.js:43 | A numeral starting with a digit reads as a natural number. |
| Decimal.NegativeRoundTrip | src/utils/allocateExam.js:43 | Reading back a negative number's numeral gives that number. |
| Decimal.IntRoundTrip | src/utils/allocateExam.js:43 | Reading back any integer's numeral gives that integer. |
| Decimal.IntToStringInjective | src/utils/allocateExam.js:43 | Different numbers give different numerals, so the message names the right counts. |
| PlanReporting.AsWrittenPlanOverstatesUsage | src/utils/allocateExam.js:91-98 | As written: one empty room of capacity c, asked for c students. The room ends full, but its entry records `previousUsed` c (not 0) and `newUsed` 2c, which is more than the capacity. |
| PlanReporting.SingleRoomFilled | src/utils/allocateExam.js:14-110 | One empty room asked for its capacity: the call succeeds, the room ends full, and the one entry is the source's entry for it. |
| PlanReporting.IntendedEntriesReportUsage | src/utils/allocateExam.js:86-98 | For grants to distinct rooms within their free seats, each intended entry is the written entry with the room's usage before and after the grants, and the after value never exceeds the capacity. |
| PlanReporting.SingleEmptyRoom | src/utils/allocateExam.js:35-70 | One empty room: its free seats are the total, and it is the whole visiting order. |
| PlanReporting.CorrectedPlanReportsUsage | src/utils/allocateExam.js:91-98 | On success with valid rooms, the corrected entries differ from the written ones only in recording each room's usage before and after the request. `newUsed` is `previousUsed` plus the seats and never exceeds the capacity. |
| Scenarios.NoRooms | src/utils/allocateExam.js:16-23 | An empty or absent room list is refused with "No classrooms available", whatever the count. |
| Scenarios.ZeroStudents | src/utils/allocateExam.js:25-32 | A count of 0 is refused with the input returned. |
| Scenarios.NotEnoughSeats | src/utils/allocateExam.js:35-47 | Rooms with 30 and 20 free seats, asked for 60: refused with "Not enough seats available. Requested: 60, Available: 50". |
| Scenarios.NotEnoughText | src/utils/allocateExam.js:43 | The message for 60 requested and 50 available is "Not enough seats available. Requested: 60, Available: 50". |
| Scenarios.TwoRoomsAvailable | src/utils/allocateExam.js:35-38 | The `reduce` over two rooms adds their free seats. |
| Scenarios.TwoDigits | src/utils/allocateExam.js:43 | The numeral of a two-digit number. |
| Scenarios.ThreeRoomsAvailable | src/utils/allocateExam.js:35-38 | The `reduce` over three rooms adds their free seats. |
| Reference.FillEndsAt | src/utils/allocateExam.js:76-101 | When the first room of the order has free seats for all the remaining demand, the pass gives it that demand, pushes one entry and ends with no demand left. |
| Scenarios.FillThenLast | src/utils/allocateExam.js:76-101 | Two rooms with free seats in turn: both are granted, in order, and the plan has one entry for each. |
| Scenarios.PartialFirstOrder | src/utils/allocateExam.js:53-70 | A partial room on floor 3 is visited before an empty room on floor 1. |
| Scenarios.PartialRoomBeforeLowerFloor | src/utils/allocateExam.js:53-101 | The partial room on floor 3 (45 of 50 used) takes 5 students before the empty floor-1 room. The entry reads 50 then 55, and the empty room is untouched. |
| Scenarios.LowerFloorOrder | src/utils/allocateExam.js:61-67 | Of two empty rooms the one on the lower floor is visited first. |
| Scenarios.LowerFloorFirst | src/utils/allocateExam.js:61-101 | 30 students go to the empty floor-1 room, not the floor-2 room listed first. |
| Scenarios.LargerFirstOrder | src/utils/allocateExam.js:61-67 | On one floor the larger empty room is visited first. |
| Scenarios.BothFilled | src/utils/allocateExam.js:76-101 | 100 students fill rooms of 60 and 40 exactly. |
| Scenarios.ExactFit | src/utils/allocateExam.js:14-110 | 100 students across empty rooms of 60 and 40 on one floor: both rooms end full, the larger first, with two entries. |
| Scenarios.FewestOrder | src/utils/allocateExam.js:53-70 | The partial room comes first, then the empty rooms in input order, because their keys are equal. |
| Scenarios.FewestPartial | src/utils/allocateExam.js:53-59 | The partial group is the one partial room. |
| Scenarios.FewestEmpty | src/utils/allocateExam.js:61-67 | The empty group keeps input order for equal keys. |
| Scenarios.FewestRoomsTouched | src/utils/allocateExam.js:14-110 | 10 students and a partial room with 10 free seats: only that room is used, and the empty rooms are untouched. |

## Left out

- The React components (`src/components/*.jsx`) and the page state in `src/pages/Index.jsx` are left out. They are rendering and one-line `setState` array updates (append, delete, reset usage), with `Date.now()` ids. Their form checks repeat the core's checks, apart from the duplicate-id check (`src/components/AddClassroom.jsx:46`), which becomes the `Rooms.UniqueIds` precondition of the properties.
- JavaScript numbers are modelled as unbounded integers. Floating point, `NaN` (which passes the floor check), `parseInt` and usage percentages are not modelled, because the core only does integer arithmetic on well-typed input.
- Validation.ValidateClassroom: a missing field is modelled as `undefined`. A `null` `floorNo` passes the source's floor check (`null === undefined` and `null < 0` are both false), while the model's `None` fails it; `null` fields are not modelled.
- "Undefined" versus a value is modelled with `Option`. A `roomId` that is not a string (where `trim` would throw) is not modelled.
- Decimal.IntToString: gives the plain decimal numeral. JavaScript switches to exponent form from 1e21 upward, which is not modelled.
- Ordering.Sort: the engine's `Array.prototype.sort` is replaced by a stable insertion sort. `SortedUnique` shows that every stable sort produces this same order. The engine's comparison count and internal steps are not modelled.
- Duplicate room ids: if two rooms share an id, `findIndex` raises the first of them, possibly beyond its capacity. The allocator models that case as written. Capacity, conservation, order and entry properties are proved only under `ValidRooms`, because the form refuses duplicate ids.
- The upper-casing of room ids happens in the form, before `validateClassroom`, and is not modelled.
- `toLocaleTimeString` formatting of timestamps is not modelled; it is presentation.
- Allocator.AllocateExamSeats: the copy is an array of immutable records. Aliasing between the sorted lists and the copy is modelled by indices into the array, not by shared mutable objects.

## Findings

| source | as written | input that shows it | evidently intended | confidence | as-written member | corrected member |
|---|---|---|---|---|---|---|
| src/utils/allocateExam.js:91-98 | `room` aliases the record just incremented at line 88, and `src/components/OutputPanel.jsx` shows the pair as "previousUsed → newUsed". So `previousUsed` reads the usage after the increment, and `newUsed` adds the seats again. | One empty room of capacity 60, asked for 60 students: the entry says 60 → 120 / 60. | `previousUsed` is the usage before the request (0), and `newUsed` is the usage after it (60). | not executed | PlanReporting.AsWrittenPlanOverstatesUsage | PlanReporting.CorrectedPlanReportsUsage |
