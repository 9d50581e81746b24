/** The sequential overlay: a cursor over a fixed list of modifiable unit
    positions of a carrier buffer.  It is the MP3 data-byte overlay of the
    source, and the same class stands for the image overlays whose visit order
    (a seeded permutation of the eligible pixels) is not part of this model:
    there the visit order is handed to the constructor. */
module Overlays {
  import opened Common

  /** Positions that can be visited: every entry indexes the buffer, and no
      position is listed twice. */
  ghost predicate Positions(order: seq<int>, size: int)
  {
    InRange(order, size) && Distinct(order)
  }

  /** Every position indexes a buffer of the given size. */
  ghost predicate InRange(order: seq<int>, size: int)
  {
    forall j :: 0 <= j < |order| ==> 0 <= order[j] < size
  }

  ghost predicate Distinct(order: seq<int>)
  {
    forall i, j :: 0 <= i < j < |order| ==> order[i] != order[j]
  }

  class SequenceOverlay<T> {
    /** The carrier buffer (mp3Bytes); written in place by SetUnit. */
    const units: array<T>
    /** The visit order (dataByteOrder). */
    const order: seq<int>
    /** Index into order of the unit last returned by Next (currentPosition). */
    var current: int

    ghost predicate Valid()
      reads this
    {
      current >= -1 && Positions(order, units.Length)
    }

    /** Number of units not yet visited (available()). */
    function Available(): (r: int)
      reads this
      ensures 0 <= current + 1 <= |order| ==> r == |order[current + 1..]|
    {
      |order| - current - 1
    }

    /** The seed is accepted and ignored: a sequential overlay has nothing to
        shuffle, so the visit order is exactly the given position list. */
    constructor (bytes: array<T>, positions: seq<int>, seed: int)
      requires Positions(positions, bytes.Length)
      ensures Valid()
      ensures units == bytes && order == positions
      ensures current == -1 && Available() == |positions|
    {
      units := bytes;
      order := positions;
      current := -1;
    }

    /** Advances the cursor and returns the unit now under it.  Past the last
        position it fails, and the cursor has been advanced all the same. */
    method Next() returns (r: Option<T>)
      requires Valid()
      modifies this
      ensures Valid()
      ensures current == old(current) + 1
      ensures Available() == old(Available()) - 1
      ensures r.Some? <==> current < |order|
      ensures r.Some? ==> r.value == units[order[current]]
    {
      current := current + 1;
      if current >= |order| {
        return None;
      }
      r := Some(units[order[current]]);
    }

    /** Overwrites the unit under the cursor and no other; fails, writing
        nothing, when no unit is under the cursor (before the first Next or
        after the last one). */
    method SetUnit(value: T) returns (ok: bool)
      requires Valid()
      modifies units
      ensures ok <==> 0 <= current < |order|
      ensures ok ==> units[..] == old(units[..])[order[current] := value]
      ensures !ok ==> units[..] == old(units[..])
    {
      if current < 0 || current >= |order| {
        return false;
      }
      units[order[current]] := value;
      ok := true;
    }

    /** The buffer that SetUnit writes to, not a copy of it. */
    method GetBytes() returns (r: array<T>)
      ensures r == units
    {
      r := units;
    }
  }
}
