/**
 * The plan's `previousUsed` and `newUsed`. The plan entry is built from `room`,
 * which is the same record whose `usedSeats` the loop has just increased, so
 * `previousUsed` is the usage after this request and `newUsed` adds the seats a
 * second time. The history panel shows the pair as "previousUsed -> newUsed".
 * `CorrectedPlan` gives the entries with the usage before and after the request.
 */
module PlanReporting {
  import opened Wrappers
  import opened Rooms
  import opened Ordering
  import opened Allocator
  import opened Reference
  import opened AllocatorProperties

  /**
   * As written: a single empty room and a request for exactly its capacity. The
   * plan reports the room going from `capacity` to twice `capacity` seats used,
   * though it was empty before and is exactly full after.
   */
  lemma AsWrittenPlanOverstatesUsage(c: Classroom)
    requires c.usedSeats == 0 && c.capacity > 0
    ensures var r := Allocate(Some([c]), c.capacity);
      && r.Success?
      && r.classrooms == [c.(usedSeats := c.capacity)]
      && r.allocations == [Entry(c.roomId, c.floorNo, c.capacity, c.capacity, 2 * c.capacity, c.capacity)]
      && r.allocations[0].previousUsed != c.usedSeats
      && r.allocations[0].newUsed > r.allocations[0].capacity
  {
    SingleRoomFilled(c);
  }

  /** The one empty room takes the whole request, and the loop pushes the source's entry for it. */
  lemma SingleRoomFilled(c: Classroom)
    requires c.usedSeats == 0 && c.capacity > 0
    ensures Allocate(Some([c]), c.capacity)
      == Success(c.capacity, c.capacity, [WrittenEntry(c, c.capacity)], [c.(usedSeats := c.capacity)])
  {
    var rooms := [c];
    SingleEmptyRoom(c);
    FillEndsAt(rooms, [0], c.capacity);
    var f := Fill(rooms, [0], c.capacity);
    assert f.rooms == [c.(usedSeats := c.capacity)] by {
      assert Give(rooms, Grant(0, c.capacity)) == [c.(usedSeats := c.capacity)];
    }
    Admitted(rooms, c.capacity, [0], f);
  }

  lemma SingleEmptyRoom(c: Classroom)
    requires c.usedSeats == 0
    ensures TotalAvailable([c]) == Free(c) && Order([c]) == [0]
  {
    var rooms := [c];
    assert rooms[..0] == [];
    assert Members(PartiallyUsed, rooms, 0) == [] && Members(Empty, rooms, 0) == [];
    assert Members(PartiallyUsed, rooms, 1) == [];
    assert Members(Empty, rooms, 1) == [0];
  }

  /** The plan the history panel is meant to show: usage before and after the request. */
  function CorrectedPlan(classrooms: Option<seq<Classroom>>, students: int): seq<Entry>
  {
    if Allocate(classrooms, students).Failure? then []
    else
      var rooms := classrooms.value;
      IntendedEntries(rooms, Grants(rooms, Order(rooms), students))
  }

  /**
   * Corrected: each entry of CorrectedPlan is the source's entry for the same room
   * with `previousUsed` the room's usage before the request and `newUsed` its usage
   * after, which never exceeds the capacity.
   */
  lemma CorrectedPlanReportsUsage(rooms: seq<Classroom>, students: int)
    requires ValidRooms(rooms)
    ensures var r := Allocate(Some(rooms), students);
      var plan, fixed := r.allocations, CorrectedPlan(Some(rooms), students);
      r.Success? ==>
        |fixed| == |plan| &&
        forall j :: 0 <= j < |plan| ==>
          var i := RoomOf(rooms, plan[j]);
          && 0 <= i < |rooms|
          && fixed[j] == plan[j].(previousUsed := rooms[i].usedSeats, newUsed := r.classrooms[i].usedSeats)
          && fixed[j].newUsed == fixed[j].previousUsed + fixed[j].seatsAllocated <= fixed[j].capacity
  {
    if |rooms| > 0 && 0 < students <= TotalAvailable(rooms) {
      SuccessPlan(rooms, students);
      GrantsFacts(rooms, students);
      IntendedEntriesReportUsage(rooms, Grants(rooms, Order(rooms), students));
    }
  }

  /**
   * For grants to distinct rooms within their free seats, each intended entry is the
   * written entry with the room's usage before and after the grants.
   */
  lemma IntendedEntriesReportUsage(rooms: seq<Classroom>, g: seq<Grant>)
    requires ValidRooms(rooms) && GrantsInRange(rooms, g) && Distinct(Indices(g))
    requires forall k :: 0 <= k < |g| ==> 0 < g[k].seats <= Free(rooms[g[k].index])
    ensures var plan, fixed, u := AsWrittenEntries(rooms, g), IntendedEntries(rooms, g), Apply(rooms, g);
      |fixed| == |plan| &&
      forall j :: 0 <= j < |plan| ==>
        var i := RoomOf(rooms, plan[j]);
        && 0 <= i < |rooms|
        && fixed[j] == plan[j].(previousUsed := rooms[i].usedSeats, newUsed := u[i].usedSeats)
        && fixed[j].newUsed == fixed[j].previousUsed + fixed[j].seatsAllocated <= fixed[j].capacity
  {
    ApplyTouched(rooms, g);
    var plan := AsWrittenEntries(rooms, g);
    forall j | 0 <= j < |plan| ensures RoomOf(rooms, plan[j]) == g[j].index {
      FindOwnIndex(rooms, g[j].index);
    }
  }
}
