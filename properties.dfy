/**
 * What `allocateExamSeats` promises its callers, stated on `Allocate` (and so,
 * through `AllocateExamSeats`'s postcondition, on the loop over the array copy).
 */
module AllocatorProperties {
  import opened Wrappers
  import opened Rooms
  import opened Ordering
  import opened Allocator
  import opened Reference

  /** Seats handed out by a plan. */
  function SeatsInPlan(plan: seq<Entry>): int
  {
    if |plan| == 0 then 0 else plan[0].seatsAllocated + SeatsInPlan(plan[1..])
  }

  /** Sum of `newUsed - previousUsed` over a plan. */
  function UsageRise(plan: seq<Entry>): int
  {
    if |plan| == 0 then 0 else (plan[0].newUsed - plan[0].previousUsed) + UsageRise(plan[1..])
  }

  /** The index of the room an entry names, found by its roomId (-1 if none). */
  function RoomOf(rooms: seq<Classroom>, e: Entry): int
  {
    FindIndex(rooms, e.roomId)
  }

  /** The rooms a plan names, in plan order. */
  function PlanRooms(rooms: seq<Classroom>, plan: seq<Entry>): (s: seq<int>)
    ensures |s| == |plan|
  {
    seq(|plan|, j requires 0 <= j < |plan| => RoomOf(rooms, plan[j]))
  }

  /** The guard checks: which one fails decides the message, and a failure changes nothing. */
  lemma GuardsInOrder(classrooms: Option<seq<Classroom>>, students: int)
    ensures var r := Allocate(classrooms, students);
      && (r.Success? <==> classrooms.Some? && |classrooms.value| > 0 && students > 0
                          && TotalAvailable(classrooms.value) >= students)
      && (r.Failure? ==> r.allocations == [] && r.classrooms == (if classrooms.Some? then classrooms.value else []))
      && (classrooms.None? || |classrooms.value| == 0 ==> r == Failure(NoClassroomsMessage, [], r.classrooms))
      && (classrooms.Some? && |classrooms.value| > 0 && students <= 0 ==> r.Failure? && r.error == InvalidCountMessage)
      && (classrooms.Some? && |classrooms.value| > 0 && students > 0 && TotalAvailable(classrooms.value) < students ==>
            r.Failure? && r.error == NotEnoughMessage(students, TotalAvailable(classrooms.value)))
  {
  }

  // ---------------------------------------------------------------------------
  // Facts that hold for every input

  /** The pass changes only `usedSeats`, and only upwards. */
  lemma {:induction false} FillOnlyRaisesUsage(rooms: seq<Classroom>, order: seq<nat>, remaining: int)
    requires InRange(rooms, order)
    ensures var u := Fill(rooms, order, remaining).rooms;
      forall i :: 0 <= i < |rooms| ==>
        u[i] == rooms[i].(usedSeats := u[i].usedSeats) && rooms[i].usedSeats <= u[i].usedSeats
    decreases |order|
  {
    if |order| > 0 && remaining > 0 {
      var available := Free(rooms[order[0]]);
      if available <= 0 {
        FillOnlyRaisesUsage(rooms, order[1..], remaining);
      } else {
        var seats := Min(available, remaining);
        var updated := Bumped(rooms, FindIndex(rooms, rooms[order[0]].roomId), seats);
        FillOnlyRaisesUsage(updated, order[1..], remaining - seats);
      }
    }
  }

  /**
   * On success the returned collection has the input's rooms in the input's order,
   * with every field but `usedSeats` as it was and `usedSeats` never lower.
   */
  lemma SuccessKeepsRecords(rooms: seq<Classroom>, students: int)
    ensures var r := Allocate(Some(rooms), students);
      r.Success? ==>
        |r.classrooms| == |rooms| &&
        forall i :: 0 <= i < |rooms| ==>
          r.classrooms[i] == rooms[i].(usedSeats := r.classrooms[i].usedSeats) &&
          rooms[i].usedSeats <= r.classrooms[i].usedSeats
  {
    if Allocate(Some(rooms), students).Success? {
      SuccessUnfold(rooms, students);
      FillOnlyRaisesUsage(rooms, Order(rooms), students);
    }
  }

  // ---------------------------------------------------------------------------
  // Facts that hold for a valid collection (unique roomIds, 0 <= usedSeats <= capacity)

  lemma ChainPrefix(rooms: seq<Classroom>, s: seq<nat>, n: nat)
    requires InRange(rooms, s) && Chain(rooms, s) && n <= |s|
    ensures InRange(rooms, s[..n]) && Chain(rooms, s[..n])
  {
    assert forall k :: 0 <= k < n ==> s[..n][k] == s[k];
  }

  lemma SuccessUnfold(rooms: seq<Classroom>, students: int)
    requires Allocate(Some(rooms), students).Success?
    ensures |rooms| > 0 && students > 0 && TotalAvailable(rooms) >= students
    ensures var f := Fill(rooms, Order(rooms), students);
      Allocate(Some(rooms), students) == Success(students, students - f.remaining, f.plan, f.rooms)
  {
  }

  /**
   * A call the guards let through returns the rooms and entries of the reference
   * grants, and reports as allocated the seats those grants hand out.
   */
  lemma SuccessPlan(rooms: seq<Classroom>, students: int)
    requires UniqueIds(rooms)
    requires |rooms| > 0 && 0 < students <= TotalAvailable(rooms)
    ensures var r := Allocate(Some(rooms), students);
      var g := Grants(rooms, Order(rooms), students);
      && r.Success?
      && GrantsInRange(rooms, g)
      && r.allocations == AsWrittenEntries(rooms, g)
      && r.classrooms == Apply(rooms, g)
      && r.totalRequested == students && r.totalAllocated == Granted(g)
  {
    var order := Order(rooms);
    OrderCorrect(rooms);
    FillMatchesReference(rooms, order, students);
    GrantsBounded(rooms, order, students);
  }

  /**
   * What the reference grants over the visiting order satisfy when the free seats
   * cover the request: distinct rooms of the order, each grant within the room's
   * free seats, all but the last taking every free seat, the rooms with free seats
   * in a prefix of the order, and the request met exactly.
   */
  lemma GrantsFacts(rooms: seq<Classroom>, students: int)
    requires ValidRooms(rooms)
    requires 0 < students <= TotalAvailable(rooms)
    ensures var g := Grants(rooms, Order(rooms), students);
      && GrantsInRange(rooms, g)
      && Distinct(Indices(g))
      && (forall k :: 0 <= k < |g| ==> g[k].index in Order(rooms) && 0 < g[k].seats <= Free(rooms[g[k].index]))
      && Granted(g) == students
      && (forall k :: 0 <= k < |g| - 1 ==> g[k].seats == Free(rooms[g[k].index]))
      && (exists n :: 0 <= n <= |Order(rooms)| && Indices(g) == WithFree(rooms, Order(rooms)[..n]))
      && Chain(rooms, Indices(g))
  {
    var order := Order(rooms);
    OrderCorrect(rooms);
    GrantsBounded(rooms, order, students);
    GrantsTotal(rooms, order, students);
    PendingOrder(rooms);
    GrantsGreedy(rooms, order, students);
    SuccessOrderFacts(rooms, students);
  }

  lemma SuccessOrderFacts(rooms: seq<Classroom>, students: int)
    ensures var g := Grants(rooms, Order(rooms), students);
      && (exists n :: 0 <= n <= |Order(rooms)| && Indices(g) == WithFree(rooms, Order(rooms)[..n]))
      && InRange(rooms, Indices(g)) && Chain(rooms, Indices(g)) && Distinct(Indices(g))
  {
    var order := Order(rooms);
    var g := Grants(rooms, order, students);
    OrderCorrect(rooms);
    GrantsPrefix(rooms, order, students);
    var n := Consumed(rooms, order, students);
    assert Indices(g) == WithFree(rooms, order[..n]);
    ChainPrefix(rooms, order, n);
    ChainWithFree(rooms, order[..n]);
    ChainDistinct(rooms, Indices(g));
  }

  /** Every room of the result, touched or not, stays within its capacity. */
  lemma CapacityRespected(rooms: seq<Classroom>, students: int)
    requires ValidRooms(rooms)
    ensures var r := Allocate(Some(rooms), students);
      forall i :: 0 <= i < |r.classrooms| ==> 0 <= r.classrooms[i].usedSeats <= r.classrooms[i].capacity
  {
    if |rooms| > 0 && 0 < students <= TotalAvailable(rooms) {
      SuccessPlan(rooms, students);
      GrantsFacts(rooms, students);
      GrantsKeepCapacity(rooms, Grants(rooms, Order(rooms), students));
    }
  }

  /** Grants to distinct rooms, none above the room's free seats, keep every room within its capacity. */
  lemma GrantsKeepCapacity(rooms: seq<Classroom>, g: seq<Grant>)
    requires ValidRooms(rooms) && GrantsInRange(rooms, g) && Distinct(Indices(g))
    requires forall k :: 0 <= k < |g| ==> 0 < g[k].seats <= Free(rooms[g[k].index])
    ensures var u := Apply(rooms, g);
      forall i :: 0 <= i < |u| ==> 0 <= u[i].usedSeats <= u[i].capacity
  {
    ApplyUntouched(rooms, g);
    ApplyTouched(rooms, g);
    var u := Apply(rooms, g);
    forall i | 0 <= i < |u| ensures 0 <= u[i].usedSeats <= u[i].capacity {
      assert WellFormed(rooms[i]);
      if i in Indices(g) {
        var k :| 0 <= k < |g| && Indices(g)[k] == i;
        assert g[k].index == i;
      }
    }
  }

  lemma {:induction false} SeatsOfWritten(rooms: seq<Classroom>, g: seq<Grant>)
    requires GrantsInRange(rooms, g)
    ensures SeatsInPlan(AsWrittenEntries(rooms, g)) == Granted(g)
    ensures UsageRise(AsWrittenEntries(rooms, g)) == Granted(g)
    decreases |g|
  {
    if |g| > 0 {
      SeatsOfWritten(rooms, g[1..]);
      assert AsWrittenEntries(rooms, g)[1..] == AsWrittenEntries(rooms, g[1..]);
    }
  }

  /**
   * Conservation: the seats in the plan, the rise of `newUsed` over `previousUsed`,
   * the rise of total usage over the collection, `totalAllocated` and
   * `totalRequested` are all the number of students asked for.
   */
  lemma Conservation(rooms: seq<Classroom>, students: int)
    requires ValidRooms(rooms)
    ensures var r := Allocate(Some(rooms), students);
      r.Success? ==>
        && r.totalRequested == students
        && r.totalAllocated == students
        && SeatsInPlan(r.allocations) == students
        && UsageRise(r.allocations) == students
        && TotalUsed(r.classrooms) == TotalUsed(rooms) + students
  {
    if |rooms| > 0 && 0 < students <= TotalAvailable(rooms) {
      SuccessPlan(rooms, students);
      GrantsFacts(rooms, students);
      var g := Grants(rooms, Order(rooms), students);
      SeatsOfWritten(rooms, g);
      ApplyEffect(rooms, g);
    }
  }

  lemma PlanRoomsOfWritten(rooms: seq<Classroom>, g: seq<Grant>)
    requires UniqueIds(rooms) && GrantsInRange(rooms, g)
    ensures PlanRooms(rooms, AsWrittenEntries(rooms, g)) == Indices(g)
  {
    var p := AsWrittenEntries(rooms, g);
    forall j | 0 <= j < |g| ensures RoomOf(rooms, p[j]) == g[j].index {
      FindOwnIndex(rooms, g[j].index);
    }
  }

  /**
   * The plan names each room at most once, never a full one, partially used rooms
   * before empty ones, each group by floor and then its second key with ties in
   * input order; and the rooms it names are the rooms with free seats in a prefix
   * of the visiting order, so later rooms are left alone.
   */
  lemma PlanFollowsOrder(rooms: seq<Classroom>, students: int)
    requires ValidRooms(rooms)
    ensures var r := Allocate(Some(rooms), students);
      var plan := r.allocations;
      r.Success? ==>
        && (forall j :: 0 <= j < |plan| ==> 0 <= RoomOf(rooms, plan[j]) < |rooms|)
        && (forall j :: 0 <= j < |plan| ==>
              var c := rooms[RoomOf(rooms, plan[j])];
              Free(c) > 0 && (InGroup(PartiallyUsed, c) || InGroup(Empty, c)))
        && (forall j1, j2 :: 0 <= j1 < j2 < |plan| ==>
              Ahead(rooms, RoomOf(rooms, plan[j1]), RoomOf(rooms, plan[j2])))
        && (exists n :: 0 <= n <= |Order(rooms)| && PlanRooms(rooms, plan) == WithFree(rooms, Order(rooms)[..n]))
  {
    if |rooms| > 0 && 0 < students <= TotalAvailable(rooms) {
      SuccessPlan(rooms, students);
      GrantsFacts(rooms, students);
      PlanOfGrantsFollowsOrder(rooms, Grants(rooms, Order(rooms), students));
    }
  }

  /**
   * Entries for grants to rooms of the visiting order, in that order, name those
   * rooms in the same order: rooms with free seats, each partial or empty.
   */
  lemma PlanOfGrantsFollowsOrder(rooms: seq<Classroom>, g: seq<Grant>)
    requires UniqueIds(rooms) && GrantsInRange(rooms, g)
    requires forall k :: 0 <= k < |g| ==> g[k].index in Order(rooms) && 0 < g[k].seats <= Free(rooms[g[k].index])
    requires Chain(rooms, Indices(g))
    requires exists n :: 0 <= n <= |Order(rooms)| && Indices(g) == WithFree(rooms, Order(rooms)[..n])
    ensures var plan := AsWrittenEntries(rooms, g);
      && (forall j :: 0 <= j < |plan| ==> 0 <= RoomOf(rooms, plan[j]) < |rooms|)
      && (forall j :: 0 <= j < |plan| ==>
            var c := rooms[RoomOf(rooms, plan[j])];
            Free(c) > 0 && (InGroup(PartiallyUsed, c) || InGroup(Empty, c)))
      && (forall j1, j2 :: 0 <= j1 < j2 < |plan| ==>
            Ahead(rooms, RoomOf(rooms, plan[j1]), RoomOf(rooms, plan[j2])))
      && (exists n :: 0 <= n <= |Order(rooms)| && PlanRooms(rooms, plan) == WithFree(rooms, Order(rooms)[..n]))
  {
    OrderCorrect(rooms);
    PlanRoomsOfWritten(rooms, g);
    var plan := AsWrittenEntries(rooms, g);
    assert forall j :: 0 <= j < |g| ==> RoomOf(rooms, plan[j]) == PlanRooms(rooms, plan)[j] == g[j].index;
  }

  /**
   * Greedy shape: every entry but the last fills its room, which the returned
   * collection shows at its capacity (and the entry's after-update `previousUsed`
   * shows as the capacity too); a room no entry names is returned as it was.
   */
  lemma GreedyFillsAllButLast(rooms: seq<Classroom>, students: int)
    requires ValidRooms(rooms)
    ensures var r := Allocate(Some(rooms), students);
      var plan := r.allocations;
      r.Success? ==>
        && (forall j :: 0 <= j < |plan| - 1 ==>
              var i := RoomOf(rooms, plan[j]);
              0 <= i < |rooms| && r.classrooms[i].usedSeats == rooms[i].capacity)
        && (forall j :: 0 <= j < |plan| - 1 ==> plan[j].previousUsed == plan[j].capacity)
        && (forall i :: 0 <= i < |rooms| && (forall j :: 0 <= j < |plan| ==> plan[j].roomId != rooms[i].roomId) ==>
              r.classrooms[i] == rooms[i])
  {
    if |rooms| > 0 && 0 < students <= TotalAvailable(rooms) {
      SuccessPlan(rooms, students);
      GrantsFacts(rooms, students);
      GrantsFillAllButLast(rooms, Grants(rooms, Order(rooms), students));
    }
  }

  /**
   * Grants to distinct rooms that take all free seats of every room but the last
   * leave those rooms full, and the source's entries for them read the capacity;
   * a room no entry names is kept.
   */
  lemma GrantsFillAllButLast(rooms: seq<Classroom>, g: seq<Grant>)
    requires UniqueIds(rooms) && GrantsInRange(rooms, g) && Distinct(Indices(g))
    requires forall k :: 0 <= k < |g| - 1 ==> g[k].seats == Free(rooms[g[k].index])
    ensures var u, p := Apply(rooms, g), AsWrittenEntries(rooms, g);
      && (forall j :: 0 <= j < |p| - 1 ==>
            var i := RoomOf(rooms, p[j]);
            0 <= i < |rooms| && u[i].usedSeats == rooms[i].capacity)
      && (forall j :: 0 <= j < |p| - 1 ==> p[j].previousUsed == p[j].capacity)
      && (forall i :: 0 <= i < |rooms| && (forall j :: 0 <= j < |p| ==> p[j].roomId != rooms[i].roomId) ==>
            u[i] == rooms[i])
  {
    ApplyUntouched(rooms, g);
    ApplyTouched(rooms, g);
    var u, p := Apply(rooms, g), AsWrittenEntries(rooms, g);
    forall j | 0 <= j < |p| ensures RoomOf(rooms, p[j]) == g[j].index {
      FindOwnIndex(rooms, g[j].index);
    }
    forall i | 0 <= i < |rooms| && (forall j :: 0 <= j < |p| ==> p[j].roomId != rooms[i].roomId)
      ensures u[i] == rooms[i]
    {
      if i in Indices(g) {
        assert false;
      }
    }
  }

  /**
   * Each entry copies roomId, floorNo and capacity from its room, gives it a positive
   * number of seats, and (because `room` and the updated record are one object)
   * reports as `previousUsed` the room's usage after this request and as `newUsed`
   * that value plus the seats given.
   */
  lemma EntriesDescribeRooms(rooms: seq<Classroom>, students: int)
    requires ValidRooms(rooms)
    ensures var r := Allocate(Some(rooms), students);
      var plan := r.allocations;
      r.Success? ==>
        forall j :: 0 <= j < |plan| ==>
          var i := RoomOf(rooms, plan[j]);
          && 0 <= i < |rooms|
          && plan[j].floorNo == rooms[i].floorNo && plan[j].capacity == rooms[i].capacity
          && plan[j].seatsAllocated > 0
          && plan[j].previousUsed == rooms[i].usedSeats + plan[j].seatsAllocated == r.classrooms[i].usedSeats
          && plan[j].newUsed == plan[j].previousUsed + plan[j].seatsAllocated
  {
    var r := Allocate(Some(rooms), students);
    if |rooms| > 0 && 0 < students <= TotalAvailable(rooms) {
      SuccessPlan(rooms, students);
      GrantsFacts(rooms, students);
      var g := Grants(rooms, Order(rooms), students);
      ApplyEffect(rooms, g);
      PlanRoomsOfWritten(rooms, g);
      forall j | 0 <= j < |r.allocations| ensures RoomOf(rooms, r.allocations[j]) == g[j].index {
        assert PlanRooms(rooms, r.allocations)[j] == RoomOf(rooms, r.allocations[j]);
      }
    }
  }
}
