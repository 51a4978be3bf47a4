/**
 * The read and write cursors the bundle code works through. Their sources are not part of
 * this model; only the members the bundle code uses are modelled: the position, `ReadByte`,
 * `Align` and byte writes. Both cursors align to 16 bytes and, when the position is already
 * aligned, still advance a full 16 bytes.
 */
module Cursor {
  import opened Wrappers
  import opened Bytes

  datatype CursorError = UnexpectedEndOfData | BufferOverflow

  /** The position `Align()` moves to from `pos`: the next multiple of 16 strictly above `pos`. */
  function AlignUp(pos: nat): (r: nat)
    ensures r % 16 == 0
    ensures pos < r <= pos + 16
  {
    pos + (16 - pos % 16)
  }

  /** A read cursor over a borrowed buffer. */
  class Reader {
    const data: seq<byte>
    var position: nat

    constructor (data: seq<byte>, position: nat)
      ensures this.data == data && this.position == position
    {
      this.data := data;
      this.position := position;
    }

    method Align()
      modifies this
      ensures position == AlignUp(old(position))
    {
      position := AlignUp(position);
    }

    method ReadByte() returns (r: Result<byte, CursorError>)
      modifies this
      ensures old(position) < |data| ==> r == Ok(data[old(position)]) && position == old(position) + 1
      ensures old(position) >= |data| ==> r == Err(UnexpectedEndOfData) && position == old(position)
    {
      if position < |data| {
        r := Ok(data[position]);
        position := position + 1;
      } else {
        r := Err(UnexpectedEndOfData);
      }
    }
  }

  /** A write cursor over a fixed-capacity, zero-filled buffer. */
  class Writer {
    const buffer: array<byte>
    var position: nat

    ghost predicate Valid()
      reads this, buffer
    {
      position <= buffer.Length &&
      forall i :: position <= i < buffer.Length ==> buffer[i] == 0
    }

    /** What has been written so far. */
    ghost function Written(): seq<byte>
      reads this, buffer
      requires Valid()
    {
      buffer[..position]
    }

    constructor (capacity: nat)
      ensures Valid() && fresh(buffer)
      ensures buffer[..] == seq(capacity, _ => 0)
      ensures position == 0
    {
      buffer := new byte[capacity](_ => 0);
      position := 0;
    }

    /** Writes `s` at the position; writing past the capacity fails and writes nothing. */
    method WriteBytes(s: seq<byte>) returns (r: Result<(), CursorError>)
      requires Valid()
      modifies this, buffer
      ensures Valid()
      ensures r.Ok? <==> old(position) + |s| <= buffer.Length
      ensures r.Ok? ==> Written() == old(Written()) + s
      ensures r.Err? ==> r.error == BufferOverflow && unchanged(this) && unchanged(buffer)
    {
      if position + |s| > buffer.Length {
        return Err(BufferOverflow);
      }
      ghost var before := buffer[..];
      CopyInto(s, buffer, position);
      assert buffer[..position] == before[..position];
      position := position + |s|;
      assert Written() == before[..old(position)] + s;
      r := Ok(());
    }

    /** Pads with zero bytes up to `AlignUp(position)`. */
    method Align() returns (r: Result<(), CursorError>)
      requires Valid()
      modifies this, buffer
      ensures Valid()
      ensures r.Ok? <==> AlignUp(old(position)) <= buffer.Length
      ensures r.Ok? ==> Written() == old(Written()) + seq(AlignUp(old(position)) - old(position), _ => 0)
      ensures r.Err? ==> r.error == BufferOverflow && unchanged(this) && unchanged(buffer)
    {
      var target := AlignUp(position);
      if target > buffer.Length {
        return Err(BufferOverflow);
      }
      assert buffer[position..target] == seq(target - position, _ => 0);
      assert buffer[..target] == buffer[..position] + buffer[position..target];
      position := target;
      r := Ok(());
    }
  }
}
