/**
 * A reference reading of the greedy pass: which rooms of the visiting order get
 * how many seats, computed on the rooms as they were before the pass, with no
 * lookup by roomId and no shared records. `FillMatchesReference` shows that the
 * pass as the source runs it gives the same rooms, plan and remaining demand
 * whenever the roomIds are unique.
 */
module Reference {
  import opened Wrappers
  import opened Rooms
  import opened Ordering
  import opened Allocator

  /** Seats given to the room at `index` of the collection. */
  datatype Grant = Grant(index: nat, seats: int)

  predicate GrantsInRange(rooms: seq<Classroom>, g: seq<Grant>)
  {
    forall k :: 0 <= k < |g| ==> g[k].index < |rooms|
  }

  function Indices(g: seq<Grant>): (s: seq<nat>)
    ensures |s| == |g| && forall k :: 0 <= k < |g| ==> s[k] == g[k].index
  {
    if |g| == 0 then [] else [g[0].index] + Indices(g[1..])
  }

  /** Total seats granted. */
  function Granted(g: seq<Grant>): int
  {
    if |g| == 0 then 0 else g[0].seats + Granted(g[1..])
  }

  /** The greedy choice made on the original rooms: each room in turn gets min(free, demand left). */
  function Grants(rooms: seq<Classroom>, order: seq<nat>, remaining: int): (g: seq<Grant>)
    requires InRange(rooms, order)
    ensures GrantsInRange(rooms, g)
    decreases |order|
  {
    if |order| == 0 || remaining <= 0 then []
    else
      var free := Free(rooms[order[0]]);
      if free <= 0 then Grants(rooms, order[1..], remaining)
      else
        var seats := Min(free, remaining);
        [Grant(order[0], seats)] + Grants(rooms, order[1..], remaining - seats)
  }

  function Give(rooms: seq<Classroom>, gr: Grant): (u: seq<Classroom>)
    requires gr.index < |rooms|
    ensures |u| == |rooms|
  {
    rooms[gr.index := rooms[gr.index].(usedSeats := rooms[gr.index].usedSeats + gr.seats)]
  }

  /** The rooms after every grant has been added to its room's usage. */
  function Apply(rooms: seq<Classroom>, g: seq<Grant>): (u: seq<Classroom>)
    requires GrantsInRange(rooms, g)
    ensures |u| == |rooms|
    decreases |g|
  {
    if |g| == 0 then rooms else Apply(Give(rooms, g[0]), g[1..])
  }

  /** The entry the source pushes for room c given s seats: usage is read after the increment. */
  function WrittenEntry(c: Classroom, s: int): Entry
  {
    Entry(c.roomId, c.floorNo, s, c.usedSeats + s, c.usedSeats + 2 * s, c.capacity)
  }

  /** The entry as its field names describe it: usage before and after this request. */
  function IntendedEntry(c: Classroom, s: int): Entry
  {
    Entry(c.roomId, c.floorNo, s, c.usedSeats, c.usedSeats + s, c.capacity)
  }

  /** The plan the source reports for the grants g. */
  function AsWrittenEntries(rooms: seq<Classroom>, g: seq<Grant>): seq<Entry>
    requires GrantsInRange(rooms, g)
  {
    seq(|g|, k requires 0 <= k < |g| => WrittenEntry(rooms[g[k].index], g[k].seats))
  }

  /** The plan for the grants g with before/after usage. */
  function IntendedEntries(rooms: seq<Classroom>, g: seq<Grant>): seq<Entry>
    requires GrantsInRange(rooms, g)
  {
    seq(|g|, k requires 0 <= k < |g| => IntendedEntry(rooms[g[k].index], g[k].seats))
  }

  /** The rooms of s that have a free seat, in the order of s. */
  function WithFree(rooms: seq<Classroom>, s: seq<nat>): (r: seq<nat>)
    requires InRange(rooms, s)
    ensures InRange(rooms, r)
  {
    if |s| == 0 then []
    else (if Free(rooms[s[0]]) > 0 then [s[0]] else []) + WithFree(rooms, s[1..])
  }

  /** WithFree keeps exactly the rooms of s that have a free seat. */
  lemma {:induction false} WithFreeMembers(rooms: seq<Classroom>, s: seq<nat>)
    requires InRange(rooms, s)
    ensures forall x :: x in WithFree(rooms, s) <==> x in s && Free(rooms[x]) > 0
    decreases |s|
  {
    if |s| > 0 {
      WithFreeMembers(rooms, s[1..]);
      assert forall x :: x in s <==> x == s[0] || x in s[1..];
    }
  }

  function PositiveFree(c: Classroom): int
  {
    if Free(c) > 0 then Free(c) else 0
  }

  /** Free seats over the rooms of s (rooms with none count zero). */
  function Pending(rooms: seq<Classroom>, s: seq<nat>): (p: int)
    requires InRange(rooms, s)
    ensures p >= 0
  {
    if |s| == 0 then 0 else PositiveFree(rooms[s[0]]) + Pending(rooms, s[1..])
  }

  // ---------------------------------------------------------------------------
  // What the reference grants

  /** Every grant goes to a room of the order, is positive, and fits in that room's free seats. */
  lemma {:induction false} GrantsBounded(rooms: seq<Classroom>, order: seq<nat>, remaining: int)
    requires InRange(rooms, order)
    ensures var g := Grants(rooms, order, remaining);
      GrantsInRange(rooms, g) &&
      forall k :: 0 <= k < |g| ==> g[k].index in order && 0 < g[k].seats <= Free(rooms[g[k].index])
    decreases |order|
  {
    if |order| > 0 && remaining > 0 {
      GrantsBounded(rooms, order[1..], remaining - Min(Free(rooms[order[0]]), remaining));
      GrantsBounded(rooms, order[1..], remaining);
    }
  }

  /** The demand met is the demand asked for, or all the free seats of the order when those are fewer. */
  lemma {:induction false} GrantsTotal(rooms: seq<Classroom>, order: seq<nat>, remaining: int)
    requires InRange(rooms, order)
    ensures remaining <= 0 ==> Grants(rooms, order, remaining) == []
    ensures remaining > 0 ==> Granted(Grants(rooms, order, remaining)) == Min(remaining, Pending(rooms, order))
    decreases |order|
  {
    if |order| > 0 && remaining > 0 {
      var free := Free(rooms[order[0]]);
      if free <= 0 {
        GrantsTotal(rooms, order[1..], remaining);
      } else {
        GrantsTotal(rooms, order[1..], remaining - Min(free, remaining));
      }
    }
  }

  /** Every grant but the last takes all the free seats of its room. */
  lemma {:induction false} GrantsGreedy(rooms: seq<Classroom>, order: seq<nat>, remaining: int)
    requires InRange(rooms, order)
    ensures var g := Grants(rooms, order, remaining);
      GrantsInRange(rooms, g) &&
      forall k :: 0 <= k < |g| - 1 ==> g[k].seats == Free(rooms[g[k].index])
    decreases |order|
  {
    GrantsBounded(rooms, order, remaining);
    if |order| > 0 && remaining > 0 {
      var free := Free(rooms[order[0]]);
      if free <= 0 {
        GrantsGreedy(rooms, order[1..], remaining);
      } else {
        var rest := Grants(rooms, order[1..], remaining - Min(free, remaining));
        GrantsGreedy(rooms, order[1..], remaining - Min(free, remaining));
        if free >= remaining {
          assert rest == [];
        }
      }
    }
  }

  /** How many rooms of the order the pass looks at before it stops. */
  ghost function Consumed(rooms: seq<Classroom>, order: seq<nat>, remaining: int): (n: nat)
    requires InRange(rooms, order)
    ensures n <= |order|
    decreases |order|
  {
    if |order| == 0 || remaining <= 0 then 0
    else
      var free := Free(rooms[order[0]]);
      1 + Consumed(rooms, order[1..], if free <= 0 then remaining else remaining - Min(free, remaining))
  }

  lemma WithFreeCons(rooms: seq<Classroom>, x: nat, s: seq<nat>)
    requires x < |rooms| && InRange(rooms, s)
    ensures WithFree(rooms, [x] + s) == (if Free(rooms[x]) > 0 then [x] else []) + WithFree(rooms, s)
  {
    assert ([x] + s)[1..] == s;
  }

  /**
   * The granted rooms are the rooms with free seats in a prefix of the order, and
   * when that prefix is not the whole order, the demand has been met.
   */
  lemma {:induction false} GrantsPrefix(rooms: seq<Classroom>, order: seq<nat>, remaining: int)
    requires InRange(rooms, order)
    ensures PrefixGranted(rooms, order, remaining)
    decreases |order|
  {
    if |order| > 0 && remaining > 0 {
      var free := Free(rooms[order[0]]);
      GrantsPrefix(rooms, order[1..], if free <= 0 then remaining else remaining - Min(free, remaining));
      GrantsPrefixStep(rooms, order, remaining);
    }
  }

  /**
   * The granted rooms are the rooms with free seats among the first
   * Consumed(rooms, order, remaining) rooms of the order, and when those are not
   * the whole order, the demand has been met.
   */
  ghost predicate PrefixGranted(rooms: seq<Classroom>, order: seq<nat>, remaining: int)
    requires InRange(rooms, order)
  {
    var n := Consumed(rooms, order, remaining);
    var g := Grants(rooms, order, remaining);
    InRange(rooms, order[..n]) &&
    Indices(g) == WithFree(rooms, order[..n]) && (n < |order| ==> remaining - Granted(g) <= 0)
  }

  /** One room of the order: PrefixGranted for the tail gives it for the whole order. */
  lemma GrantsPrefixStep(rooms: seq<Classroom>, order: seq<nat>, remaining: int)
    requires InRange(rooms, order) && |order| > 0 && remaining > 0
    requires var free := Free(rooms[order[0]]);
      PrefixGranted(rooms, order[1..], if free <= 0 then remaining else remaining - Min(free, remaining))
    ensures PrefixGranted(rooms, order, remaining)
  {
    var free := Free(rooms[order[0]]);
    var next := if free <= 0 then remaining else remaining - Min(free, remaining);
    var m := Consumed(rooms, order[1..], next);
    GrantsHead(rooms, order, remaining);
    assert order[..m + 1] == [order[0]] + order[1..][..m];
    WithFreeCons(rooms, order[0], order[1..][..m]);
  }

  /** The grants of an order are those of its first room followed by those of the rest. */
  lemma GrantsHead(rooms: seq<Classroom>, order: seq<nat>, remaining: int)
    requires InRange(rooms, order) && |order| > 0 && remaining > 0
    ensures var free := Free(rooms[order[0]]);
      var next := if free <= 0 then remaining else remaining - Min(free, remaining);
      var g := Grants(rooms, order, remaining);
      var rest := Grants(rooms, order[1..], next);
      && Indices(g) == (if free > 0 then [order[0]] else []) + Indices(rest)
      && remaining - Granted(g) == next - Granted(rest)
  {
    var free := Free(rooms[order[0]]);
    if free > 0 {
      var g := Grants(rooms, order, remaining);
      assert g[1..] == Grants(rooms, order[1..], remaining - Min(free, remaining));
    }
  }

  // ---------------------------------------------------------------------------
  // Applying grants to the rooms

  /** Applying grants touches only the granted rooms, raises each by its grant, and the total by the sum. */
  lemma ApplyEffect(rooms: seq<Classroom>, g: seq<Grant>)
    requires GrantsInRange(rooms, g) && Distinct(Indices(g))
    ensures var u := Apply(rooms, g);
      && (forall i :: 0 <= i < |rooms| && i !in Indices(g) ==> u[i] == rooms[i])
      && (forall k :: 0 <= k < |g| ==>
            u[g[k].index] == rooms[g[k].index].(usedSeats := rooms[g[k].index].usedSeats + g[k].seats))
      && TotalUsed(u) == TotalUsed(rooms) + Granted(g)
  {
    ApplyUntouched(rooms, g);
    ApplyTouched(rooms, g);
    ApplyTotal(rooms, g);
  }

  lemma TailIndices(g: seq<Grant>)
    requires |g| > 0 && Distinct(Indices(g))
    ensures Indices(g[1..]) == Indices(g)[1..] && Distinct(Indices(g[1..]))
    ensures g[0].index !in Indices(g[1..])
  {
    var t := Indices(g[1..]);
    assert ([g[0].index] + t)[1..] == t;
    TailDistinct(Indices(g));
  }

  lemma {:induction false} ApplyUntouched(rooms: seq<Classroom>, g: seq<Grant>)
    requires GrantsInRange(rooms, g)
    ensures forall i :: 0 <= i < |rooms| && i !in Indices(g) ==> Apply(rooms, g)[i] == rooms[i]
    decreases |g|
  {
    if |g| > 0 {
      var r1 := Give(rooms, g[0]);
      assert Indices(g) == [g[0].index] + Indices(g[1..]);
      ApplyUntouched(r1, g[1..]);
    }
  }

  lemma {:induction false} ApplyTouched(rooms: seq<Classroom>, g: seq<Grant>)
    requires GrantsInRange(rooms, g) && Distinct(Indices(g))
    ensures forall k :: 0 <= k < |g| ==>
      Apply(rooms, g)[g[k].index] == rooms[g[k].index].(usedSeats := rooms[g[k].index].usedSeats + g[k].seats)
    decreases |g|
  {
    if |g| > 0 {
      var r1 := Give(rooms, g[0]);
      TailIndices(g);
      ApplyTouched(r1, g[1..]);
      ApplyUntouched(r1, g[1..]);
      assert g[0].index !in Indices(g[1..]);
      forall k | 1 <= k < |g|
        ensures Apply(rooms, g)[g[k].index] == rooms[g[k].index].(usedSeats := rooms[g[k].index].usedSeats + g[k].seats)
      {
        assert g[1..][k - 1] == g[k];
      }
    }
  }

  lemma {:induction false} ApplyTotal(rooms: seq<Classroom>, g: seq<Grant>)
    requires GrantsInRange(rooms, g)
    ensures TotalUsed(Apply(rooms, g)) == TotalUsed(rooms) + Granted(g)
    decreases |g|
  {
    if |g| > 0 {
      var r1 := Give(rooms, g[0]);
      ApplyTotal(r1, g[1..]);
      TotalUsedUpdate(rooms, g[0].index, r1[g[0].index]);
    }
  }

  // ---------------------------------------------------------------------------
  // The pass as the source runs it agrees with the reference

  lemma {:induction false} GrantsFrame(rooms: seq<Classroom>, other: seq<Classroom>, order: seq<nat>, remaining: int)
    requires InRange(rooms, order) && |other| == |rooms|
    requires forall k :: 0 <= k < |order| ==> other[order[k]] == rooms[order[k]]
    ensures Grants(other, order, remaining) == Grants(rooms, order, remaining)
    decreases |order|
  {
    if |order| > 0 && remaining > 0 {
      var free := Free(rooms[order[0]]);
      GrantsFrame(rooms, other, order[1..], if free <= 0 then remaining else remaining - Min(free, remaining));
    }
  }

  lemma TailDistinct(order: seq<nat>)
    requires Distinct(order) && |order| > 0
    ensures Distinct(order[1..]) && order[0] !in order[1..]
  {
    forall i, j | 0 <= i < j < |order[1..]|
      ensures order[1..][i] != order[1..][j]
    {
      assert order[1..][i] == order[i + 1] && order[1..][j] == order[j + 1];
    }
  }

  lemma {:induction false} WrittenFrame(rooms: seq<Classroom>, other: seq<Classroom>, g: seq<Grant>)
    requires GrantsInRange(rooms, g) && |other| == |rooms|
    requires forall k :: 0 <= k < |g| ==> other[g[k].index] == rooms[g[k].index]
    ensures AsWrittenEntries(other, g) == AsWrittenEntries(rooms, g)
  {
  }

  /**
   * With unique roomIds and each room visited once, the pass that looks rooms up by
   * roomId and reads entries from the shared record gives the reference's rooms,
   * the as-written entries of the reference's grants, and the demand they leave.
   */
  lemma {:induction false} FillMatchesReference(rooms: seq<Classroom>, order: seq<nat>, remaining: int)
    requires UniqueIds(rooms) && InRange(rooms, order) && Distinct(order)
    ensures var g := Grants(rooms, order, remaining);
      GrantsInRange(rooms, g) &&
      Fill(rooms, order, remaining) == FillState(Apply(rooms, g), AsWrittenEntries(rooms, g), remaining - Granted(g))
    decreases |order|
  {
    GrantsBounded(rooms, order, remaining);
    if |order| > 0 && remaining > 0 {
      TailDistinct(order);
      if Free(rooms[order[0]]) <= 0 {
        FillMatchesReference(rooms, order[1..], remaining);
      } else {
        FillMatchesStep(rooms, order, remaining);
      }
    }
  }

  /** One room that gets seats: the step of FillMatchesReference. */
  lemma {:induction false} FillMatchesStep(rooms: seq<Classroom>, order: seq<nat>, remaining: int)
    requires UniqueIds(rooms) && InRange(rooms, order) && Distinct(order)
    requires |order| > 0 && remaining > 0 && Free(rooms[order[0]]) > 0
    ensures var g := Grants(rooms, order, remaining);
      GrantsInRange(rooms, g) &&
      Fill(rooms, order, remaining) == FillState(Apply(rooms, g), AsWrittenEntries(rooms, g), remaining - Granted(g))
    decreases |order|, 0
  {
    var idx := order[0];
    var seats := Min(Free(rooms[idx]), remaining);
    var updated := Give(rooms, Grant(idx, seats));
    var rest := Grants(rooms, order[1..], remaining - seats);
    StepShapes(rooms, order, remaining);
    StepFill(rooms, order, remaining);
    StepFrame(rooms, order, remaining);
    TailDistinct(order);
    FillMatchesReference(updated, order[1..], remaining - seats);
  }

  /** The first grant of one step, and what the reference makes of it. */
  lemma StepShapes(rooms: seq<Classroom>, order: seq<nat>, remaining: int)
    requires InRange(rooms, order)
    requires |order| > 0 && remaining > 0 && Free(rooms[order[0]]) > 0
    ensures var idx := order[0];
      var seats := Min(Free(rooms[idx]), remaining);
      var g := Grants(rooms, order, remaining);
      var rest := Grants(rooms, order[1..], remaining - seats);
      && g == [Grant(idx, seats)] + rest
      && Apply(rooms, g) == Apply(Give(rooms, Grant(idx, seats)), rest)
      && Granted(g) == seats + Granted(rest)
      && AsWrittenEntries(rooms, g) == [WrittenEntry(rooms[idx], seats)] + AsWrittenEntries(rooms, rest)
  {
    var g := Grants(rooms, order, remaining);
    var rest := Grants(rooms, order[1..], remaining - Min(Free(rooms[order[0]]), remaining));
    assert g[1..] == rest;
  }

  /**
   * One step of the pass as the source runs it, with unique roomIds: the room at
   * `order[0]` is the one findIndex finds, it gets min(free, demand left) seats,
   * and its entry is the as-written entry of that grant.
   */
  lemma StepFill(rooms: seq<Classroom>, order: seq<nat>, remaining: int)
    requires UniqueIds(rooms) && InRange(rooms, order)
    requires |order| > 0 && remaining > 0 && Free(rooms[order[0]]) > 0
    ensures var idx := order[0];
      var seats := Min(Free(rooms[idx]), remaining);
      Fill(rooms, order, remaining)
        == Resume([WrittenEntry(rooms[idx], seats)], Fill(Give(rooms, Grant(idx, seats)), order[1..], remaining - seats))
  {
    var idx := order[0];
    var seats := Min(Free(rooms[idx]), remaining);
    FindOwnIndex(rooms, idx);
    assert Bumped(rooms, idx, seats) == Give(rooms, Grant(idx, seats));
  }

  /** The rest of the pass, after one grant, sees the rooms of the tail as they were. */
  lemma StepFrame(rooms: seq<Classroom>, order: seq<nat>, remaining: int)
    requires UniqueIds(rooms) && InRange(rooms, order) && Distinct(order)
    requires |order| > 0 && remaining > 0 && Free(rooms[order[0]]) > 0
    ensures var idx := order[0];
      var seats := Min(Free(rooms[idx]), remaining);
      var updated := Give(rooms, Grant(idx, seats));
      var rest := Grants(rooms, order[1..], remaining - seats);
      && UniqueIds(updated) && InRange(updated, order[1..])
      && Grants(updated, order[1..], remaining - seats) == rest
      && AsWrittenEntries(updated, rest) == AsWrittenEntries(rooms, rest)
  {
    var idx := order[0];
    var tail := order[1..];
    var seats := Min(Free(rooms[idx]), remaining);
    var updated := Give(rooms, Grant(idx, seats));
    TailDistinct(order);
    assert forall k :: 0 <= k < |updated| ==> updated[k].roomId == rooms[k].roomId;
    assert forall k :: 0 <= k < |tail| ==> updated[tail[k]] == rooms[tail[k]];
    GrantsFrame(rooms, updated, tail, remaining - seats);
    var rest := Grants(rooms, tail, remaining - seats);
    GrantsBounded(rooms, tail, remaining - seats);
    WrittenFrame(rooms, updated, rest);
  }

  // ---------------------------------------------------------------------------
  // The free seats of the visiting order are the free seats of the collection

  lemma {:induction false} PendingAppend(rooms: seq<Classroom>, a: seq<nat>, b: seq<nat>)
    requires InRange(rooms, a) && InRange(rooms, b)
    ensures Pending(rooms, a + b) == Pending(rooms, a) + Pending(rooms, b)
    decreases |a|
  {
    if |a| > 0 {
      assert (a + b)[0] == a[0] && (a + b)[1..] == a[1..] + b;
      PendingAppend(rooms, a[1..], b);
    } else {
      assert a + b == b;
    }
  }

  lemma {:induction false} PendingInsert(g: Group, rooms: seq<Classroom>, x: nat, s: seq<nat>)
    requires x < |rooms| && InRange(rooms, s)
    ensures Pending(rooms, Insert(g, rooms, x, s)) == PositiveFree(rooms[x]) + Pending(rooms, s)
    decreases |s|
  {
    if |s| > 0 && Compare(g, rooms[x], rooms[s[0]]) > 0 {
      PendingInsert(g, rooms, x, s[1..]);
    }
  }

  lemma {:induction false} PendingSort(g: Group, rooms: seq<Classroom>, s: seq<nat>)
    requires InRange(rooms, s)
    ensures Pending(rooms, Sort(g, rooms, s)) == Pending(rooms, s)
    decreases |s|
  {
    if |s| > 0 {
      PendingSort(g, rooms, s[1..]);
      PendingInsert(g, rooms, s[0], Sort(g, rooms, s[1..]));
    }
  }

  lemma TotalAvailableStep(rooms: seq<Classroom>, n: nat)
    requires 0 < n <= |rooms|
    ensures TotalAvailable(rooms[..n]) == TotalAvailable(rooms[..n - 1]) + Free(rooms[n - 1])
  {
    assert rooms[..n][..n - 1] == rooms[..n - 1];
  }

  lemma {:induction false} PendingMembers(rooms: seq<Classroom>, n: nat)
    requires n <= |rooms|
    requires forall i :: 0 <= i < |rooms| ==> WellFormed(rooms[i])
    ensures Pending(rooms, Members(PartiallyUsed, rooms, n)) + Pending(rooms, Members(Empty, rooms, n))
      == TotalAvailable(rooms[..n])
    decreases n
  {
    if n > 0 {
      PendingMembers(rooms, n - 1);
      PendingMembersStep(rooms, n);
    } else {
      assert rooms[..0] == [];
    }
  }

  lemma PendingMembersStep(rooms: seq<Classroom>, n: nat)
    requires 0 < n <= |rooms| && WellFormed(rooms[n - 1])
    requires Pending(rooms, Members(PartiallyUsed, rooms, n - 1)) + Pending(rooms, Members(Empty, rooms, n - 1))
      == TotalAvailable(rooms[..n - 1])
    ensures Pending(rooms, Members(PartiallyUsed, rooms, n)) + Pending(rooms, Members(Empty, rooms, n))
      == TotalAvailable(rooms[..n])
  {
    var c := rooms[n - 1];
    PendingMembersLast(PartiallyUsed, rooms, n);
    PendingMembersLast(Empty, rooms, n);
    TotalAvailableStep(rooms, n);
    if c.usedSeats == c.capacity {
      assert !InGroup(PartiallyUsed, c) && Free(c) == 0;
    } else if c.usedSeats == 0 {
      assert InGroup(Empty, c) && !InGroup(PartiallyUsed, c);
    } else {
      assert InGroup(PartiallyUsed, c) && !InGroup(Empty, c);
    }
  }

  /** The filter's last step adds the last room's free seats to its group's sum, if it is in the group. */
  lemma PendingMembersLast(g: Group, rooms: seq<Classroom>, n: nat)
    requires 0 < n <= |rooms|
    ensures Pending(rooms, Members(g, rooms, n))
      == Pending(rooms, Members(g, rooms, n - 1)) + if InGroup(g, rooms[n - 1]) then PositiveFree(rooms[n - 1]) else 0
  {
    var last: seq<nat> := if InGroup(g, rooms[n - 1]) then [n - 1] else [];
    assert Members(g, rooms, n) == Members(g, rooms, n - 1) + last;
    PendingAppend(rooms, Members(g, rooms, n - 1), last);
    assert Pending(rooms, last) == if InGroup(g, rooms[n - 1]) then PositiveFree(rooms[n - 1]) else 0;
  }

  /** With well-formed rooms, the order offers exactly the seats `totalAvailable` counts. */
  lemma PendingOrder(rooms: seq<Classroom>)
    requires forall i :: 0 <= i < |rooms| ==> WellFormed(rooms[i])
    ensures Pending(rooms, Order(rooms)) == TotalAvailable(rooms)
  {
    var p := Members(PartiallyUsed, rooms, |rooms|);
    var e := Members(Empty, rooms, |rooms|);
    PendingAppend(rooms, Sort(PartiallyUsed, rooms, p), Sort(Empty, rooms, e));
    PendingSort(PartiallyUsed, rooms, p);
    PendingSort(Empty, rooms, e);
    PendingMembers(rooms, |rooms|);
    assert rooms[..|rooms|] == rooms;
  }

  /** Dropping the rooms without free seats keeps the visiting order. */
  lemma {:induction false} ChainWithFree(rooms: seq<Classroom>, s: seq<nat>)
    requires InRange(rooms, s) && Chain(rooms, s)
    ensures Chain(rooms, WithFree(rooms, s))
    decreases |s|
  {
    if |s| > 0 {
      assert Chain(rooms, s[1..]) by {
        forall i, j | 0 <= i < j < |s[1..]| ensures Ahead(rooms, s[1..][i], s[1..][j]) {
          assert s[1..][i] == s[i + 1] && s[1..][j] == s[j + 1];
        }
      }
      ChainWithFree(rooms, s[1..]);
      WithFreeMembers(rooms, s[1..]);
      var w := WithFree(rooms, s[1..]);
      forall k | 0 <= k < |w| ensures Ahead(rooms, s[0], w[k]) {
        assert w[k] in w;
        var m :| 0 <= m < |s[1..]| && s[1..][m] == w[k];
        assert s[m + 1] == w[k];
      }
    }
  }

  // ---------------------------------------------------------------------------
  // Shortcuts for a pass that ends at the first room

  /** The first room of the order holds all the demand left: the pass ends there. */
  lemma FillEndsAt(rooms: seq<Classroom>, order: seq<nat>, remaining: int)
    requires UniqueIds(rooms) && InRange(rooms, order) && |order| > 0
    requires 0 < remaining <= Free(rooms[order[0]])
    ensures Fill(rooms, order, remaining)
      == FillState(Give(rooms, Grant(order[0], remaining)), [WrittenEntry(rooms[order[0]], remaining)], 0)
  {
    StepFill(rooms, order, remaining);
  }

  /** A request the guards let through is answered by the greedy pass over the visiting order. */
  lemma Admitted(rooms: seq<Classroom>, students: int, order: seq<nat>, f: FillState)
    requires |rooms| > 0 && students > 0 && TotalAvailable(rooms) >= students
    requires order == Order(rooms) && f == Fill(rooms, order, students)
    ensures Allocate(Some(rooms), students) == Success(students, students - f.remaining, f.plan, f.rooms)
  {
  }
}
