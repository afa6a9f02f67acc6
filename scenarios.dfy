/** Worked cases of the allocator's documented behaviour, each on a concrete collection. */
module Scenarios {
  import opened Wrappers
  import opened Rooms
  import opened Ordering
  import opened Allocator
  import opened Reference
  import Decimal

  /** No rooms: the first guard answers, whatever the request. */
  lemma NoRooms(students: int)
    ensures Allocate(Some([]), students) == Failure("No classrooms available", [], [])
    ensures Allocate(None, students) == Failure("No classrooms available", [], [])
  {
  }

  /** A request of zero students is refused with the input echoed back. */
  lemma ZeroStudents()
    ensures var rooms := [Classroom("A101", 60, 1, false, 0)];
      Allocate(Some(rooms), 0) == Failure("Please enter a valid number of students", [], rooms)
  {
  }

  /** 50 free seats, 60 asked for: refused, and the message carries both numbers. */
  lemma NotEnoughSeats()
    ensures var rooms := [Classroom("A101", 30, 1, false, 0), Classroom("A102", 20, 2, false, 0)];
      Allocate(Some(rooms), 60)
        == Failure("Not enough seats available. Requested: 60, Available: 50", [], rooms)
  {
    var rooms := [Classroom("A101", 30, 1, false, 0), Classroom("A102", 20, 2, false, 0)];
    TwoRoomsAvailable(rooms);
    NotEnoughText();
  }

  /** The interpolated message for 60 requested and 50 available. */
  lemma NotEnoughText()
    ensures NotEnoughMessage(60, 50) == "Not enough seats available. Requested: 60, Available: 50"
  {
    TwoDigits(6, 0);
    TwoDigits(5, 0);
  }

  lemma TwoRoomsAvailable(rooms: seq<Classroom>)
    requires |rooms| == 2
    ensures TotalAvailable(rooms) == Free(rooms[0]) + Free(rooms[1])
  {
    assert rooms[..1][..0] == [] && rooms[..1] == [rooms[0]];
    assert TotalAvailable(rooms[..1]) == Free(rooms[0]);
    assert rooms[..|rooms| - 1] == rooms[..1];
  }

  lemma TwoDigits(tens: nat, ones: nat)
    requires 1 <= tens < 10 && ones < 10
    ensures Decimal.IntToString(tens * 10 + ones) == [Decimal.DigitChar(tens), Decimal.DigitChar(ones)]
  {
    var n := tens * 10 + ones;
    assert n / 10 == tens && n % 10 == ones;
    assert Decimal.NatToString(n) == Decimal.NatToString(tens) + [Decimal.DigitChar(ones)];
  }

  lemma ThreeRoomsAvailable(rooms: seq<Classroom>)
    requires |rooms| == 3
    ensures TotalAvailable(rooms) == Free(rooms[0]) + Free(rooms[1]) + Free(rooms[2])
  {
    TwoRoomsAvailable(rooms[..2]);
    assert rooms[..|rooms| - 1] == rooms[..2];
  }

  lemma SeqOfTwo(u: seq<Classroom>, a: Classroom, b: Classroom)
    requires |u| == 2 && u[0] == a && u[1] == b
    ensures u == [a, b]
  {
  }

  lemma TwoIds(rooms: seq<Classroom>)
    requires |rooms| == 2 && rooms[0].roomId != rooms[1].roomId
    ensures UniqueIds(rooms)
  {
  }

  lemma GiveKeepsIds(rooms: seq<Classroom>, gr: Grant)
    requires UniqueIds(rooms) && gr.index < |rooms|
    ensures UniqueIds(Give(rooms, gr))
  {
    var u := Give(rooms, gr);
    assert forall k :: 0 <= k < |u| ==> u[k].roomId == rooms[k].roomId;
  }

  /** The first room is filled to capacity and the second takes the rest of the demand. */
  lemma FillThenLast(rooms: seq<Classroom>, i: nat, j: nat, remaining: int)
    requires UniqueIds(rooms) && i < |rooms| && j < |rooms| && i != j
    requires 0 < Free(rooms[i]) < remaining <= Free(rooms[i]) + Free(rooms[j])
    ensures var s := Free(rooms[i]);
      Fill(rooms, [i, j], remaining)
        == FillState(Give(Give(rooms, Grant(i, s)), Grant(j, remaining - s)),
                     [WrittenEntry(rooms[i], s), WrittenEntry(rooms[j], remaining - s)], 0)
  {
    var s := Free(rooms[i]);
    var first := Give(rooms, Grant(i, s));
    StepFill(rooms, [i, j], remaining);
    assert [i, j][1..] == [j];
    GiveKeepsIds(rooms, Grant(i, s));
    FillEndsAt(first, [j], remaining - s);
    assert [WrittenEntry(rooms[i], s)] + [WrittenEntry(rooms[j], remaining - s)]
      == [WrittenEntry(rooms[i], s), WrittenEntry(rooms[j], remaining - s)];
  }

  lemma ThreeIds(rooms: seq<Classroom>)
    requires |rooms| == 3
    requires rooms[0].roomId != rooms[1].roomId && rooms[0].roomId != rooms[2].roomId
    requires rooms[1].roomId != rooms[2].roomId
    ensures UniqueIds(rooms)
  {
  }

  lemma SeqOfThree(u: seq<Classroom>, a: Classroom, b: Classroom, c: Classroom)
    requires |u| == 3 && u[0] == a && u[1] == b && u[2] == c
    ensures u == [a, b, c]
  {
  }

  // ---------------------------------------------------------------------------
  // Worked cases over rooms described by their fields

  lemma PartialFirstOrder(a: Classroom, b: Classroom)
    requires a.capacity == 50 && a.usedSeats == 0 && b.capacity == 50 && b.usedSeats == 45
    ensures Order([a, b]) == [1, 0]
  {
    var rooms := [a, b];
    assert Members(PartiallyUsed, rooms, 1) == [];
    assert Members(PartiallyUsed, rooms, 2) == [1];
    assert Members(Empty, rooms, 1) == [0];
    assert Members(Empty, rooms, 2) == [0];
  }

  /**
   * An empty room on floor 1 and a partially used room on floor 3 with 5 free seats:
   * all 5 students go to the floor-3 room, since partially used rooms come first.
   */
  lemma PartialRoomBeforeLowerFloor(a: Classroom, b: Classroom)
    requires a.roomId != b.roomId
    requires a.floorNo == 1 && a.capacity == 50 && a.usedSeats == 0
    requires b.floorNo == 3 && b.capacity == 50 && b.usedSeats == 45
    ensures var r := Allocate(Some([a, b]), 5);
      && r.Success? && r.totalAllocated == 5
      && r.allocations == [Entry(b.roomId, 3, 5, 50, 55, 50)]
      && r.classrooms == [a, b.(usedSeats := 50)]
  {
    var rooms := [a, b];
    SeqOfTwo(Give(rooms, Grant(1, 5)), a, b.(usedSeats := 50));
    TwoRoomsAvailable(rooms);
    TwoIds(rooms);
    PartialFirstOrder(a, b);
    FillEndsAt(rooms, [1, 0], 5);
    Admitted(rooms, 5, [1, 0], Fill(rooms, [1, 0], 5));
  }

  lemma LowerFloorOrder(a: Classroom, b: Classroom)
    requires a.floorNo == 2 && a.capacity == 40 && a.usedSeats == 0
    requires b.floorNo == 1 && b.capacity == 40 && b.usedSeats == 0
    ensures Order([a, b]) == [1, 0]
  {
    var rooms := [a, b];
    assert Members(PartiallyUsed, rooms, 1) == [];
    assert Members(PartiallyUsed, rooms, 2) == [];
    assert Members(Empty, rooms, 1) == [0];
    assert Members(Empty, rooms, 2) == [0, 1];
    assert Compare(Empty, rooms[0], rooms[1]) > 0;
    assert Insert(Empty, rooms, 0, [1]) == [1, 0];
    assert Sort(Empty, rooms, [1]) == [1];
  }

  /** Two empty rooms of 40 seats, on floors 2 and 1, and 30 students: the floor-1 room takes them all. */
  lemma LowerFloorFirst(a: Classroom, b: Classroom)
    requires a.roomId != b.roomId
    requires a.floorNo == 2 && a.capacity == 40 && a.usedSeats == 0
    requires b.floorNo == 1 && b.capacity == 40 && b.usedSeats == 0
    ensures var r := Allocate(Some([a, b]), 30);
      && r.Success? && r.totalAllocated == 30
      && r.allocations == [Entry(b.roomId, 1, 30, 30, 60, 40)]
      && r.classrooms == [a, b.(usedSeats := 30)]
  {
    var rooms := [a, b];
    SeqOfTwo(Give(rooms, Grant(1, 30)), a, b.(usedSeats := 30));
    TwoRoomsAvailable(rooms);
    TwoIds(rooms);
    LowerFloorOrder(a, b);
    FillEndsAt(rooms, [1, 0], 30);
    Admitted(rooms, 30, [1, 0], Fill(rooms, [1, 0], 30));
  }

  lemma LargerFirstOrder(a: Classroom, b: Classroom)
    requires a.floorNo == 1 && a.capacity == 60 && a.usedSeats == 0
    requires b.floorNo == 1 && b.capacity == 40 && b.usedSeats == 0
    ensures Order([a, b]) == [0, 1]
  {
    var rooms := [a, b];
    assert Members(PartiallyUsed, rooms, 1) == [];
    assert Members(PartiallyUsed, rooms, 2) == [];
    assert Members(Empty, rooms, 1) == [0];
    assert Members(Empty, rooms, 2) == [0, 1];
    assert Compare(Empty, rooms[0], rooms[1]) < 0;
    assert Insert(Empty, rooms, 0, [1]) == [0, 1];
    assert Sort(Empty, rooms, [1]) == [1];
  }

  lemma BothFilled(a: Classroom, b: Classroom)
    requires a.roomId != b.roomId && a.usedSeats == 0 && a.capacity == 60 && b.usedSeats == 0 && b.capacity == 40
    ensures Fill([a, b], [0, 1], 100)
      == FillState([a.(usedSeats := 60), b.(usedSeats := 40)], [WrittenEntry(a, 60), WrittenEntry(b, 40)], 0)
  {
    var rooms := [a, b];
    SeqOfTwo(Give(Give(rooms, Grant(0, 60)), Grant(1, 40)), a.(usedSeats := 60), b.(usedSeats := 40));
    TwoIds(rooms);
    FillThenLast(rooms, 0, 1, 100);
  }

  /** Empty rooms of 60 and 40 seats on one floor, 100 students: the larger room is filled first, then the smaller. */
  lemma ExactFit(a: Classroom, b: Classroom)
    requires a.roomId != b.roomId
    requires a.floorNo == 1 && a.capacity == 60 && a.usedSeats == 0
    requires b.floorNo == 1 && b.capacity == 40 && b.usedSeats == 0
    ensures var r := Allocate(Some([a, b]), 100);
      && r.Success? && r.totalAllocated == 100
      && r.allocations == [Entry(a.roomId, 1, 60, 60, 120, 60), Entry(b.roomId, 1, 40, 40, 80, 40)]
      && r.classrooms == [a.(usedSeats := 60), b.(usedSeats := 40)]
  {
    var rooms := [a, b];
    assert [WrittenEntry(a, 60), WrittenEntry(b, 40)]
      == [Entry(a.roomId, 1, 60, 60, 120, 60), Entry(b.roomId, 1, 40, 40, 80, 40)];
    TwoRoomsAvailable(rooms);
    LargerFirstOrder(a, b);
    BothFilled(a, b);
    Admitted(rooms, 100, [0, 1], Fill(rooms, [0, 1], 100));
  }

  lemma FewestOrder(a: Classroom, b: Classroom, c: Classroom)
    requires a.floorNo == 1 && a.capacity == 30 && a.usedSeats == 0
    requires b.floorNo == 1 && b.capacity == 50 && b.usedSeats == 40
    requires c.floorNo == 1 && c.capacity == 30 && c.usedSeats == 0
    ensures Order([a, b, c]) == [1, 0, 2]
  {
    FewestPartial(a, b, c);
    FewestEmpty(a, b, c);
  }

  lemma FewestPartial(a: Classroom, b: Classroom, c: Classroom)
    requires a.usedSeats == 0 && b.capacity == 50 && b.usedSeats == 40 && c.usedSeats == 0
    ensures Sort(PartiallyUsed, [a, b, c], Members(PartiallyUsed, [a, b, c], 3)) == [1]
  {
    var rooms := [a, b, c];
    assert Members(PartiallyUsed, rooms, 1) == [];
    assert Members(PartiallyUsed, rooms, 2) == [1];
    assert Members(PartiallyUsed, rooms, 3) == [1];
    assert Sort(PartiallyUsed, rooms, [1]) == [1];
  }

  lemma FewestEmpty(a: Classroom, b: Classroom, c: Classroom)
    requires a.floorNo == 1 && a.capacity == 30 && a.usedSeats == 0
    requires b.usedSeats == 40
    requires c.floorNo == 1 && c.capacity == 30 && c.usedSeats == 0
    ensures Sort(Empty, [a, b, c], Members(Empty, [a, b, c], 3)) == [0, 2]
  {
    var rooms := [a, b, c];
    assert Members(Empty, rooms, 1) == [0];
    assert Members(Empty, rooms, 2) == [0];
    assert Members(Empty, rooms, 3) == [0, 2];
    assert Compare(Empty, rooms[0], rooms[2]) == 0;
    assert Insert(Empty, rooms, 0, [2]) == [0, 2];
    assert Sort(Empty, rooms, [2]) == [2];
  }

  /**
   * A partially used room with 10 free seats between two empty rooms on the same floor,
   * and 10 students: only the partially used room is touched.
   */
  lemma FewestRoomsTouched(a: Classroom, b: Classroom, c: Classroom)
    requires a.roomId != b.roomId && a.roomId != c.roomId && b.roomId != c.roomId
    requires a.floorNo == 1 && a.capacity == 30 && a.usedSeats == 0
    requires b.floorNo == 1 && b.capacity == 50 && b.usedSeats == 40
    requires c.floorNo == 1 && c.capacity == 30 && c.usedSeats == 0
    ensures var r := Allocate(Some([a, b, c]), 10);
      && r.Success? && r.totalAllocated == 10
      && r.allocations == [Entry(b.roomId, 1, 10, 50, 60, 50)]
      && r.classrooms == [a, b.(usedSeats := 50), c]
  {
    var rooms := [a, b, c];
    SeqOfThree(Give(rooms, Grant(1, 10)), a, b.(usedSeats := 50), c);
    ThreeRoomsAvailable(rooms);
    ThreeIds(rooms);
    FewestOrder(a, b, c);
    FillEndsAt(rooms, [1, 0, 2], 10);
    Admitted(rooms, 10, [1, 0, 2], Fill(rooms, [1, 0, 2], 10));
  }
}
