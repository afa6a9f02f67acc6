/**
 * The greedy seat allocator: three guard checks, a copy of the rooms, the
 * visiting order, and one pass that fills rooms in that order until the demand
 * is met. `Allocate` states the result as a function of the inputs;
 * `AllocateExamSeats` computes it with the source's loop over an array copy.
 */
module Allocator {
  import opened Wrappers
  import opened Rooms
  import opened Ordering
  import Decimal

  datatype AllocationResult =
    | Success(totalRequested: int, totalAllocated: int, allocations: seq<Entry>, classrooms: seq<Classroom>)
    | Failure(error: string, allocations: seq<Entry>, classrooms: seq<Classroom>)

  const NoClassroomsMessage := "No classrooms available"
  const InvalidCountMessage := "Please enter a valid number of students"

  function NotEnoughMessage(requested: int, available: int): (m: string)
    ensures "Not enough seats available. Requested: " <= m
    ensures |m| > |"Not enough seats available. Requested: , Available: "|
  {
    "Not enough seats available. Requested: " + Decimal.IntToString(requested)
      + ", Available: " + Decimal.IntToString(available)
  }

  /** The message is the fixed text with both counts, and each count reads back as the number it renders. */
  lemma NotEnoughMessageNumbers(requested: int, available: int)
    ensures exists a, b ::
      && NotEnoughMessage(requested, available) == "Not enough seats available. Requested: " + a + ", Available: " + b
      && Decimal.ParseInt(a) == requested && Decimal.ParseInt(b) == available
  {
    Decimal.IntRoundTrip(requested);
    Decimal.IntRoundTrip(available);
    var a, b := Decimal.IntToString(requested), Decimal.IntToString(available);
    assert NotEnoughMessage(requested, available) == "Not enough seats available. Requested: " + a + ", Available: " + b;
  }

  /** The state of the greedy pass: the copied rooms, the plan pushed so far, the demand left. */
  datatype FillState = FillState(rooms: seq<Classroom>, plan: seq<Entry>, remaining: int)

  /** `rooms[ri].usedSeats += seats` when findIndex found a room (ri != -1). */
  function Bumped(rooms: seq<Classroom>, ri: int, seats: int): (u: seq<Classroom>)
    requires -1 <= ri < |rooms|
    ensures |u| == |rooms|
  {
    if ri != -1 then rooms[ri := rooms[ri].(usedSeats := rooms[ri].usedSeats + seats)] else rooms
  }

  /** The increment raises the found room's usage by the seats and leaves every other room as it was. */
  lemma BumpedEffect(rooms: seq<Classroom>, ri: int, seats: int)
    requires -1 <= ri < |rooms|
    ensures var u := Bumped(rooms, ri, seats);
      && (forall i :: 0 <= i < |rooms| && i != ri ==> u[i] == rooms[i])
      && (ri != -1 ==> u[ri] == rooms[ri].(usedSeats := rooms[ri].usedSeats + seats))
  {
  }

  /** The entry pushed for `room` (read after the increment) and the seats given to it. */
  function EntryFor(room: Classroom, seats: int): Entry
  {
    Entry(room.roomId, room.floorNo, seats, room.usedSeats, room.usedSeats + seats, room.capacity)
  }

  /** Appends the rest of a pass to the plan already pushed. */
  function Resume(plan: seq<Entry>, rest: FillState): FillState
  {
    FillState(rest.rooms, plan + rest.plan, rest.remaining)
  }

  /**
   * The greedy pass over `order`, as the loop runs it. `room` is the record at
   * `order[0]` of the copy; the increment goes to the record `findIndex` finds by
   * roomId; the entry's fields are read from `room` after that increment.
   */
  function Fill(rooms: seq<Classroom>, order: seq<nat>, remaining: int): (f: FillState)
    requires InRange(rooms, order)
    ensures |f.rooms| == |rooms|
    decreases |order|
  {
    if |order| == 0 || remaining <= 0 then FillState(rooms, [], remaining)
    else
      var available := Free(rooms[order[0]]);
      if available <= 0 then Fill(rooms, order[1..], remaining)
      else
        var seats := Min(available, remaining);
        var ri := FindIndex(rooms, rooms[order[0]].roomId);
        var updated := Bumped(rooms, ri, seats);
        Resume([EntryFor(updated[order[0]], seats)], Fill(updated, order[1..], remaining - seats))
  }

  /** The outcome of `allocateExamSeats(classrooms, students)`. */
  function Allocate(classrooms: Option<seq<Classroom>>, students: int): (r: AllocationResult)
    ensures |r.classrooms| == if classrooms.Some? then |classrooms.value| else 0
    ensures r.Failure? ==> r.allocations == []
  {
    if classrooms.None? || |classrooms.value| == 0 then
      Failure(NoClassroomsMessage, [], if classrooms.Some? then classrooms.value else [])
    else
      var rooms := classrooms.value;
      if students <= 0 then Failure(InvalidCountMessage, [], rooms)
      else if TotalAvailable(rooms) < students then
        Failure(NotEnoughMessage(students, TotalAvailable(rooms)), [], rooms)
      else
        var f := Fill(rooms, Order(rooms), students);
        Success(students, students - f.remaining, f.plan, f.rooms)
  }

  /** The source's allocator: the guards, a fresh array copy of the rooms, and the greedy loop over it. */
  method AllocateExamSeats(classrooms: Option<seq<Classroom>>, students: int) returns (r: AllocationResult)
    ensures r == Allocate(classrooms, students)
  {
    if classrooms.None? || |classrooms.value| == 0 {
      return Failure(NoClassroomsMessage, [], if classrooms.Some? then classrooms.value else []);
    }
    var rooms := classrooms.value;
    if students <= 0 {
      return Failure(InvalidCountMessage, [], rooms);
    }
    var totalAvailable := TotalAvailable(rooms);
    if totalAvailable < students {
      return Failure(NotEnoughMessage(students, totalAvailable), [], rooms);
    }

    var updated := new Classroom[|rooms|](i requires 0 <= i < |rooms| => rooms[i]);
    assert updated[..] == rooms;
    var sortedRooms := Order(rooms);
    var allocations, remaining := GreedyFill(updated, sortedRooms, students);
    r := Success(students, students - remaining, allocations, updated[..]);
  }

  /**
   * The `for...of` loop: visits the rooms of `sortedRooms` (indices into `updated`),
   * increments `usedSeats` in place and pushes one entry per room it gives seats to.
   */
  method GreedyFill(updated: array<Classroom>, sortedRooms: seq<nat>, students: int)
      returns (allocations: seq<Entry>, remaining: int)
    requires InRange(updated[..], sortedRooms)
    modifies updated
    ensures Fill(old(updated[..]), sortedRooms, students) == FillState(updated[..], allocations, remaining)
  {
    allocations := [];
    remaining := students;
    var k := 0;
    while k < |sortedRooms|
      invariant 0 <= k <= |sortedRooms|
      invariant Fill(old(updated[..]), sortedRooms, students)
        == Resume(allocations, Fill(updated[..], sortedRooms[k..], remaining))
    {
      if remaining <= 0 {
        break;
      }
      var idx := sortedRooms[k];
      var availableInRoom := updated[idx].capacity - updated[idx].usedSeats;
      if availableInRoom <= 0 {
        FillSkip(updated[..], sortedRooms, k, remaining);
        k := k + 1;
        continue;
      }
      ghost var before := updated[..];
      var seats := Min(availableInRoom, remaining);
      var roomIndex := FindIndex(updated[..], updated[idx].roomId);
      AddUsage(updated, roomIndex, seats);
      var room := updated[idx];
      var entry := EntryFor(room, seats);
      FillGrant(allocations, before, sortedRooms, k, remaining, updated[..], entry);
      allocations := allocations + [entry];
      remaining := remaining - seats;
      k := k + 1;
    }
    assert allocations + [] == allocations;
  }

  /** `if (roomIndex !== -1) updatedClassrooms[roomIndex].usedSeats += seats`, in place. */
  method AddUsage(updated: array<Classroom>, roomIndex: int, seats: int)
    requires -1 <= roomIndex < updated.Length
    modifies updated
    ensures updated[..] == Bumped(old(updated[..]), roomIndex, seats)
  {
    if roomIndex != -1 {
      updated[roomIndex] := updated[roomIndex].(usedSeats := updated[roomIndex].usedSeats + seats);
    }
  }

  /** A loop step at a room with no free seat leaves the rest of the pass as it was. */
  lemma FillSkip(rooms: seq<Classroom>, order: seq<nat>, k: nat, remaining: int)
    requires InRange(rooms, order) && k < |order| && remaining > 0
    requires Free(rooms[order[k]]) <= 0
    ensures Fill(rooms, order[k..], remaining) == Fill(rooms, order[k + 1..], remaining)
  {
    assert order[k..][0] == order[k] && order[k..][1..] == order[k + 1..];
  }

  /**
   * A loop step at a room with free seats: the increment found by roomId and the
   * entry read from the room after it are the next part of the pass.
   */
  lemma FillGrant(plan: seq<Entry>, rooms: seq<Classroom>, order: seq<nat>, k: nat, remaining: int,
                  after: seq<Classroom>, entry: Entry)
    requires InRange(rooms, order) && k < |order| && remaining > 0
    requires Free(rooms[order[k]]) > 0
    requires var seats := Min(Free(rooms[order[k]]), remaining);
      && after == Bumped(rooms, FindIndex(rooms, rooms[order[k]].roomId), seats)
      && entry == EntryFor(after[order[k]], seats)
    ensures Resume(plan, Fill(rooms, order[k..], remaining))
      == Resume(plan + [entry], Fill(after, order[k + 1..], remaining - entry.seatsAllocated))
  {
    assert order[k..][0] == order[k] && order[k..][1..] == order[k + 1..];
    ResumeAppend(plan, entry, Fill(after, order[k + 1..], remaining - entry.seatsAllocated));
  }

  lemma ResumeAppend(plan: seq<Entry>, e: Entry, rest: FillState)
    ensures Resume(plan, Resume([e], rest)) == Resume(plan + [e], rest)
  {
    assert plan + ([e] + rest.plan) == (plan + [e]) + rest.plan;
  }
}
