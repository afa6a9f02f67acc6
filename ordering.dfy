/**
 * The order in which the allocator visits rooms: two `filter` calls that split
 * the rooms into partially used and empty ones, two stable sorts with two-key
 * comparators, and their concatenation, partially used rooms first.
 *
 * The filters and sorts hold references to the copied room records; here they
 * hold indices into the copied collection, which is what those references are.
 */
module Ordering {
  import opened Rooms

  datatype Group = PartiallyUsed | Empty

  /** The two filter predicates. A full room satisfies neither. */
  predicate InGroup(g: Group, c: Classroom)
  {
    match g
    case PartiallyUsed => c.usedSeats > 0 && c.usedSeats < c.capacity
    case Empty => c.usedSeats == 0
  }

  /** The second sort key: free seats for partially used rooms, capacity for empty ones. */
  function Secondary(g: Group, c: Classroom): int
  {
    match g
    case PartiallyUsed => Free(c)
    case Empty => c.capacity
  }

  /** The policy: a lower floor first; on the same floor, the larger second key first. */
  predicate KeyBefore(g: Group, a: Classroom, b: Classroom)
  {
    a.floorNo < b.floorNo || (a.floorNo == b.floorNo && Secondary(g, a) > Secondary(g, b))
  }

  predicate SameKey(g: Group, a: Classroom, b: Classroom)
  {
    a.floorNo == b.floorNo && Secondary(g, a) == Secondary(g, b)
  }

  /** The comparator passed to `sort`; its sign encodes the policy. */
  function Compare(g: Group, a: Classroom, b: Classroom): (r: int)
    ensures r < 0 <==> KeyBefore(g, a, b)
    ensures r == 0 <==> SameKey(g, a, b)
    ensures r > 0 <==> KeyBefore(g, b, a)
  {
    if a.floorNo != b.floorNo then a.floorNo - b.floorNo else Secondary(g, b) - Secondary(g, a)
  }

  predicate InRange(rooms: seq<Classroom>, s: seq<nat>)
  {
    forall k :: 0 <= k < |s| ==> s[k] < |rooms|
  }

  predicate Distinct(s: seq<nat>)
  {
    forall i, j :: 0 <= i < j < |s| ==> s[i] != s[j]
  }

  predicate Increasing(s: seq<nat>)
  {
    forall i, j :: 0 <= i < j < |s| ==> s[i] < s[j]
  }

  /** Room x comes before room y in a stable sort by the group's keys: smaller key, or equal key and earlier in the input. */
  predicate Precedes(g: Group, rooms: seq<Classroom>, x: nat, y: nat)
    requires x < |rooms| && y < |rooms|
  {
    KeyBefore(g, rooms[x], rooms[y]) || (SameKey(g, rooms[x], rooms[y]) && x < y)
  }

  predicate StablySorted(g: Group, rooms: seq<Classroom>, s: seq<nat>)
    requires InRange(rooms, s)
  {
    forall i, j :: 0 <= i < j < |s| ==> Precedes(g, rooms, s[i], s[j])
  }

  /** `filter` over the first n rooms: the indices in the group, in input order. */
  function Members(g: Group, rooms: seq<Classroom>, n: nat): (s: seq<nat>)
    requires n <= |rooms|
    ensures InRange(rooms, s)
  {
    if n == 0 then [] else Members(g, rooms, n - 1) + (if InGroup(g, rooms[n - 1]) then [n - 1] else [])
  }

  /** The filter keeps exactly the rooms of the group, in input order. */
  lemma {:induction false} MembersExactly(g: Group, rooms: seq<Classroom>, n: nat)
    requires n <= |rooms|
    ensures Increasing(Members(g, rooms, n))
    ensures forall x: nat :: x in Members(g, rooms, n) <==> x < n && InGroup(g, rooms[x])
    decreases n
  {
    if n > 0 {
      MembersExactly(g, rooms, n - 1);
      var s := Members(g, rooms, n - 1);
      assert forall k :: 0 <= k < |s| ==> s[k] in s;
    }
  }

  /** One step of insertion sort: x goes before the first element it does not follow. */
  function Insert(g: Group, rooms: seq<Classroom>, x: nat, s: seq<nat>): (r: seq<nat>)
    requires x < |rooms| && InRange(rooms, s)
    ensures InRange(rooms, r)
    ensures multiset(r) == multiset(s) + multiset{x}
  {
    if |s| == 0 then [x]
    else if Compare(g, rooms[x], rooms[s[0]]) <= 0 then [x] + s
    else
      assert s == [s[0]] + s[1..];
      [s[0]] + Insert(g, rooms, x, s[1..])
  }

  /** Insertion sort: a stable sort with the group's comparator. */
  function Sort(g: Group, rooms: seq<Classroom>, s: seq<nat>): (r: seq<nat>)
    requires InRange(rooms, s)
    ensures InRange(rooms, r)
    ensures multiset(r) == multiset(s)
  {
    if |s| == 0 then []
    else
      assert s == [s[0]] + s[1..];
      Insert(g, rooms, s[0], Sort(g, rooms, s[1..]))
  }

  lemma {:induction false} InsertSorted(g: Group, rooms: seq<Classroom>, x: nat, s: seq<nat>)
    requires x < |rooms| && InRange(rooms, s)
    requires StablySorted(g, rooms, s)
    requires forall k :: 0 <= k < |s| ==> x < s[k]
    ensures StablySorted(g, rooms, Insert(g, rooms, x, s))
  {
    if |s| == 0 {
    } else if Compare(g, rooms[x], rooms[s[0]]) <= 0 {
    } else {
      var t := Insert(g, rooms, x, s[1..]);
      InsertSorted(g, rooms, x, s[1..]);
      assert multiset(t) == multiset(s[1..]) + multiset{x};
      forall k | 0 <= k < |t|
        ensures Precedes(g, rooms, s[0], t[k])
      {
        assert t[k] in multiset(t);
        if t[k] != x {
          assert t[k] in multiset(s[1..]);
          var m :| 0 <= m < |s[1..]| && s[1..][m] == t[k];
          assert s[m + 1] == t[k];
        }
      }
    }
  }

  /** Sorting indices given in input order yields the stable order by the group's keys. */
  lemma {:induction false} SortSorted(g: Group, rooms: seq<Classroom>, s: seq<nat>)
    requires InRange(rooms, s) && Increasing(s)
    ensures StablySorted(g, rooms, Sort(g, rooms, s))
  {
    if |s| > 0 {
      var t := Sort(g, rooms, s[1..]);
      SortSorted(g, rooms, s[1..]);
      forall k | 0 <= k < |t|
        ensures s[0] < t[k]
      {
        assert t[k] in multiset(s[1..]);
        var m :| 0 <= m < |s[1..]| && s[1..][m] == t[k];
        assert s[m + 1] == t[k];
      }
      InsertSorted(g, rooms, s[0], t);
    }
  }

  /** A stably sorted sequence has no repeated index. */
  lemma SortedDistinct(g: Group, rooms: seq<Classroom>, s: seq<nat>)
    requires InRange(rooms, s) && StablySorted(g, rooms, s)
    ensures Distinct(s)
  {
    forall i, j | 0 <= i < j < |s|
      ensures s[i] != s[j]
    {
      assert Precedes(g, rooms, s[i], s[j]);
    }
  }

  /** Of two stably sorted arrangements of the same indices, both start with the same one. */
  lemma SortedSameHead(g: Group, rooms: seq<Classroom>, s: seq<nat>, t: seq<nat>)
    requires InRange(rooms, s) && InRange(rooms, t)
    requires StablySorted(g, rooms, s) && StablySorted(g, rooms, t)
    requires multiset(s) == multiset(t) && |s| > 0
    ensures |t| > 0 && s[0] == t[0]
  {
    assert s[0] in multiset(t);
    var k :| 0 <= k < |t| && t[k] == s[0];
    assert t[0] in multiset(s);
    var m :| 0 <= m < |s| && s[m] == t[0];
    if k != 0 {
      assert false;
    }
  }

  /**
   * Two stably sorted arrangements of the same indices are the same sequence: any
   * stable sort with this comparator, the insertion sort included, gives this order.
   */
  lemma {:induction false} SortedUnique(g: Group, rooms: seq<Classroom>, s: seq<nat>, t: seq<nat>)
    requires InRange(rooms, s) && InRange(rooms, t)
    requires StablySorted(g, rooms, s) && StablySorted(g, rooms, t)
    requires multiset(s) == multiset(t)
    ensures s == t
    decreases |s|
  {
    assert |s| == |multiset(s)| == |multiset(t)| == |t|;
    if |s| > 0 {
      SortedSameHead(g, rooms, s, t);
      assert s == [s[0]] + s[1..];
      assert t == [t[0]] + t[1..];
      assert multiset(s[1..]) == multiset(s) - multiset{s[0]};
      assert multiset(t[1..]) == multiset(t) - multiset{t[0]};
      SortedTail(g, rooms, s);
      SortedTail(g, rooms, t);
      SortedUnique(g, rooms, s[1..], t[1..]);
    }
  }

  lemma SortedTail(g: Group, rooms: seq<Classroom>, s: seq<nat>)
    requires InRange(rooms, s) && StablySorted(g, rooms, s) && |s| > 0
    ensures InRange(rooms, s[1..]) && StablySorted(g, rooms, s[1..])
  {
    forall i, j | 0 <= i < j < |s[1..]|
      ensures Precedes(g, rooms, s[1..][i], s[1..][j])
    {
      assert s[1..][i] == s[i + 1] && s[1..][j] == s[j + 1];
    }
  }

  /** The visiting order: sorted partially used rooms, then sorted empty rooms. */
  function Order(rooms: seq<Classroom>): (order: seq<nat>)
    ensures InRange(rooms, order)
  {
    Sort(PartiallyUsed, rooms, Members(PartiallyUsed, rooms, |rooms|))
      + Sort(Empty, rooms, Members(Empty, rooms, |rooms|))
  }

  /**
   * Room x is visited before room y: every partially used room before every empty
   * room, and within a group the stable order by that group's keys.
   */
  predicate Ahead(rooms: seq<Classroom>, x: nat, y: nat)
    requires x < |rooms| && y < |rooms|
  {
    || (InGroup(PartiallyUsed, rooms[x]) && InGroup(Empty, rooms[y]))
    || (InGroup(PartiallyUsed, rooms[x]) && InGroup(PartiallyUsed, rooms[y]) && Precedes(PartiallyUsed, rooms, x, y))
    || (InGroup(Empty, rooms[x]) && InGroup(Empty, rooms[y]) && Precedes(Empty, rooms, x, y))
  }

  predicate Chain(rooms: seq<Classroom>, s: seq<nat>)
    requires InRange(rooms, s)
  {
    forall i, j :: 0 <= i < j < |s| ==> Ahead(rooms, s[i], s[j])
  }

  lemma ChainDistinct(rooms: seq<Classroom>, s: seq<nat>)
    requires InRange(rooms, s) && Chain(rooms, s)
    ensures Distinct(s)
  {
    forall i, j | 0 <= i < j < |s|
      ensures s[i] != s[j]
    {
      assert Ahead(rooms, s[i], s[j]);
    }
  }

  /**
   * The visiting order holds exactly the partially used and the empty rooms, each
   * once, partially used ones first, each group in its stable key order.
   */
  lemma OrderCorrect(rooms: seq<Classroom>)
    ensures forall x: nat :: x in Order(rooms) <==>
      x < |rooms| && (InGroup(PartiallyUsed, rooms[x]) || InGroup(Empty, rooms[x]))
    ensures Chain(rooms, Order(rooms))
    ensures Distinct(Order(rooms))
  {
    var p := Members(PartiallyUsed, rooms, |rooms|);
    var e := Members(Empty, rooms, |rooms|);
    var sp, se := Sort(PartiallyUsed, rooms, p), Sort(Empty, rooms, e);
    MembersExactly(PartiallyUsed, rooms, |rooms|);
    MembersExactly(Empty, rooms, |rooms|);
    SortSorted(PartiallyUsed, rooms, p);
    SortSorted(Empty, rooms, e);
    var order := Order(rooms);
    assert order == sp + se;
    forall x: nat
      ensures x in order <==> x < |rooms| && (InGroup(PartiallyUsed, rooms[x]) || InGroup(Empty, rooms[x]))
    {
      assert x in sp <==> x in multiset(p);
      assert x in se <==> x in multiset(e);
    }
    forall i | 0 <= i < |sp|
      ensures InGroup(PartiallyUsed, rooms[sp[i]])
    {
      assert sp[i] in multiset(p);
    }
    forall i | 0 <= i < |se|
      ensures InGroup(Empty, rooms[se[i]])
    {
      assert se[i] in multiset(e);
    }
    forall i, j | 0 <= i < j < |order|
      ensures Ahead(rooms, order[i], order[j])
    {
      if j < |sp| {
        assert Precedes(PartiallyUsed, rooms, sp[i], sp[j]);
      } else if i >= |sp| {
        assert Precedes(Empty, rooms, se[i - |sp|], se[j - |sp|]);
      } else {
        assert InGroup(PartiallyUsed, rooms[sp[i]]) && InGroup(Empty, rooms[se[j - |sp|]]);
      }
    }
    ChainDistinct(rooms, order);
  }
}
