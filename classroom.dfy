/**
 * The records the allocator works on: a classroom and one entry of an
 * allocation plan, with the sums the allocator computes over a room list.
 */
module Rooms {

  /** A classroom record; every field is a plain value, as after `{ ...room }`. */
  datatype Classroom = Classroom(
    roomId: string,
    capacity: int,
    floorNo: int,
    nearWashroom: bool,
    usedSeats: int)

  /** One entry of an allocation plan, with the fields the allocator pushes. */
  datatype Entry = Entry(
    roomId: string,
    floorNo: int,
    seatsAllocated: int,
    previousUsed: int,
    newUsed: int,
    capacity: int)

  function Min(a: int, b: int): (m: int)
    ensures m <= a && m <= b && (m == a || m == b)
  {
    if a <= b then a else b
  }

  /** Seats still free in a room: `capacity - usedSeats`. */
  function Free(c: Classroom): int
  {
    c.capacity - c.usedSeats
  }

  /** The per-room data invariant: usage lies between zero and the capacity. */
  predicate WellFormed(c: Classroom)
  {
    0 <= c.usedSeats <= c.capacity
  }

  /** No two rooms of the collection share a roomId (the caller refuses duplicates). */
  predicate UniqueIds(rooms: seq<Classroom>)
  {
    forall i, j :: 0 <= i < j < |rooms| ==> rooms[i].roomId != rooms[j].roomId
  }

  /** What the allocator relies on about the collection it is given. */
  predicate ValidRooms(rooms: seq<Classroom>)
  {
    UniqueIds(rooms) && forall i :: 0 <= i < |rooms| ==> WellFormed(rooms[i])
  }

  /** `rooms.reduce((sum, room) => sum + (room.capacity - room.usedSeats), 0)`, a left fold. */
  function TotalAvailable(rooms: seq<Classroom>): (t: int)
    ensures (forall i :: 0 <= i < |rooms| ==> WellFormed(rooms[i])) ==> t >= 0
  {
    if |rooms| == 0 then 0 else TotalAvailable(rooms[..|rooms| - 1]) + Free(rooms[|rooms| - 1])
  }

  /** Seats in use over the whole collection. */
  function TotalUsed(rooms: seq<Classroom>): int
  {
    if |rooms| == 0 then 0 else TotalUsed(rooms[..|rooms| - 1]) + rooms[|rooms| - 1].usedSeats
  }

  /** `rooms.findIndex(r => r.roomId === id)`: the first index with that id, or -1. */
  function FindIndex(rooms: seq<Classroom>, id: string): (r: int)
    ensures -1 <= r < |rooms|
  {
    if |rooms| == 0 then -1
    else if rooms[0].roomId == id then 0
    else
      var r := FindIndex(rooms[1..], id);
      if r == -1 then -1 else r + 1
  }

  /** FindIndex answers -1 exactly when no room has the id, and otherwise the first room that has it. */
  lemma {:induction false} FindIndexSpec(rooms: seq<Classroom>, id: string)
    ensures var r := FindIndex(rooms, id);
      && (r == -1 <==> forall j :: 0 <= j < |rooms| ==> rooms[j].roomId != id)
      && (r >= 0 ==> rooms[r].roomId == id && forall j :: 0 <= j < r ==> rooms[j].roomId != id)
    decreases |rooms|
  {
    if |rooms| > 0 && rooms[0].roomId != id {
      FindIndexSpec(rooms[1..], id);
      assert forall j :: 1 <= j < |rooms| ==> rooms[j] == rooms[1..][j - 1];
    }
  }

  /** With unique ids, looking a room up by its own id finds that very room. */
  lemma FindOwnIndex(rooms: seq<Classroom>, i: int)
    requires UniqueIds(rooms)
    requires 0 <= i < |rooms|
    ensures FindIndex(rooms, rooms[i].roomId) == i
  {
    FindIndexSpec(rooms, rooms[i].roomId);
  }

  /** TotalUsed after replacing one room changes by the difference in that room's usage. */
  lemma {:induction false} TotalUsedUpdate(rooms: seq<Classroom>, i: int, c: Classroom)
    requires 0 <= i < |rooms|
    ensures TotalUsed(rooms[i := c]) == TotalUsed(rooms) - rooms[i].usedSeats + c.usedSeats
    decreases |rooms|
  {
    var n := |rooms|;
    var u := rooms[i := c];
    assert u[..n - 1] == if i == n - 1 then rooms[..n - 1] else rooms[..n - 1][i := c];
    if i < n - 1 {
      TotalUsedUpdate(rooms[..n - 1], i, c);
    }
  }
}
