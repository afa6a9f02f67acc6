/**
 * `validateClassroom`: three checks on a candidate record, in order, stopping at
 * the first that fails. A field the form left undefined is `None`.
 */
module Validation {
  import opened Wrappers
  import opened Rooms

  /** A classroom record as the form builds it, before it is admitted. */
  datatype Candidate = Candidate(
    roomId: Option<string>,
    capacity: Option<int>,
    floorNo: Option<int>,
    nearWashroom: bool,
    usedSeats: int)

  /** `{ isValid: true }` or `{ isValid: false, error }`. */
  datatype Verdict = Valid | Invalid(error: string)

  const RoomIdRequired := "Room ID is required"
  const CapacityNotPositive := "Capacity must be a positive number"
  const FloorNegative := "Floor number must be 0 or greater"

  /**
   * The code points `String.prototype.trim` removes: the WhiteSpace and
   * LineTerminator code points of ECMA-262 (sections 12.2 and 12.3).
   */
  predicate IsWhitespace(c: char)
  {
    || c == '\t' || c == '\n' || c == '\U{000B}' || c == '\U{000C}' || c == '\r'
    || c == ' ' || c == '\U{00A0}' || c == '\U{1680}' || ('\U{2000}' <= c <= '\U{200A}')
    || c == '\U{2028}' || c == '\U{2029}' || c == '\U{202F}' || c == '\U{205F}'
    || c == '\U{3000}' || c == '\U{FEFF}'
  }

  predicate Blank(s: string)
  {
    forall k :: 0 <= k < |s| ==> IsWhitespace(s[k])
  }

  function TrimStart(s: string): (r: string)
    ensures |r| <= |s| && r == s[|s| - |r|..]
    ensures forall k :: 0 <= k < |s| - |r| ==> IsWhitespace(s[k])
    ensures |r| > 0 ==> !IsWhitespace(r[0])
  {
    if |s| > 0 && IsWhitespace(s[0]) then TrimStart(s[1..]) else s
  }

  function TrimEnd(s: string): (r: string)
    ensures |r| <= |s| && r == s[..|r|]
    ensures forall k :: |r| <= k < |s| ==> IsWhitespace(s[k])
    ensures |r| > 0 ==> !IsWhitespace(r[|r| - 1])
  {
    if |s| > 0 && IsWhitespace(s[|s| - 1]) then TrimEnd(s[..|s| - 1]) else s
  }

  /** `s.trim()`: s without its leading and trailing white space. */
  function Trim(s: string): (r: string)
    ensures |r| <= |s|
    ensures |r| > 0 ==> !IsWhitespace(r[0]) && !IsWhitespace(r[|r| - 1])
  {
    TrimEnd(TrimStart(s))
  }

  /** `s.trim() === ""` exactly when every character of s is white space. */
  lemma TrimEmptyIffBlank(s: string)
    ensures Trim(s) == "" <==> Blank(s)
  {
    var a := TrimStart(s);
    if Trim(s) == "" {
      assert |a| == 0;
    }
  }

  /** `validateClassroom(classroom)`. */
  function ValidateClassroom(c: Candidate): (v: Verdict)
    ensures v.Invalid? ==> v.error in [RoomIdRequired, CapacityNotPositive, FloorNegative]
  {
    // `!classroom.roomId` holds for an undefined or empty id
    if c.roomId.None? || c.roomId.value == "" || Trim(c.roomId.value) == "" then Invalid(RoomIdRequired)
    // `!classroom.capacity` holds for an undefined or zero capacity
    else if c.capacity.None? || c.capacity.value == 0 || c.capacity.value <= 0 then Invalid(CapacityNotPositive)
    else if c.floorNo.None? || c.floorNo.value < 0 then Invalid(FloorNegative)
    else Valid
  }

  /**
   * The checks in order: a missing or blank id first, then a missing or non-positive
   * capacity, then a missing or negative floor; a candidate passing all three is valid.
   */
  lemma ValidationOrder(c: Candidate)
    ensures var v := ValidateClassroom(c);
      && (c.roomId.None? || Blank(c.roomId.value) ==> v == Invalid(RoomIdRequired))
      && (c.roomId.Some? && !Blank(c.roomId.value) && (c.capacity.None? || c.capacity.value <= 0) ==>
            v == Invalid(CapacityNotPositive))
      && ((c.roomId.Some? && !Blank(c.roomId.value) && c.capacity.Some? && c.capacity.value > 0
           && (c.floorNo.None? || c.floorNo.value < 0)) ==> v == Invalid(FloorNegative))
      && (v == Valid <==>
            c.roomId.Some? && !Blank(c.roomId.value) && c.capacity.Some? && c.capacity.value > 0
            && c.floorNo.Some? && c.floorNo.value >= 0)
  {
    if c.roomId.Some? {
      TrimEmptyIffBlank(c.roomId.value);
    }
  }

  /** A candidate that passes, admitted with no seats used, meets what the allocator relies on. */
  lemma AdmittedRoomWellFormed(c: Candidate)
    requires ValidateClassroom(c) == Valid
    ensures c.roomId.Some? && c.capacity.Some? && c.floorNo.Some?
    ensures var room := Classroom(c.roomId.value, c.capacity.value, c.floorNo.value, c.nearWashroom, 0);
      WellFormed(room) && room.capacity >= 1 && room.floorNo >= 0 && Free(room) == room.capacity
  {
  }
}
