/** `Field::write` as it runs: a growable byte vector that each write
    changes in place, overwriting a header slot and appending segment bodies
    at the end. Each method is proved to leave the buffer exactly as the
    layout function `Fields.WriteField` describes, so every property proved
    about that function (`Codec.WriteFieldCorrect`) holds of the buffer. */
module Buffers {
  import opened Wrappers
  import opened LittleEndian
  import opened Offsets
  import opened Fields
  import Codec
  import Utf8

  /** A `Vec<u8>`. */
  class Buffer {
    var data: seq<Byte>

    /** `vec![fill; n]` */
    constructor (n: nat, fill: Byte)
      ensures |data| == n && forall i :: 0 <= i < n ==> data[i] == fill
    {
      data := seq(n, _ => fill);
    }

    /** Overwrites the bytes from `at` on with `bytes`, one at a time, as
        `LittleEndian::write_*` and `copy_from_slice` do on a sub-slice. */
    method Put(at: nat, bytes: seq<Byte>)
      requires at + |bytes| <= |data|
      modifies this
      ensures data == Splice(old(data), at, bytes)
    {
      var i := 0;
      while i < |bytes|
        invariant 0 <= i <= |bytes| && |data| == |old(data)|
        invariant forall j :: 0 <= j < |data| ==> data[j] == if at <= j < at + i then bytes[j - at] else old(data)[j]
      {
        data := data[at + i := bytes[i]];
        i := i + 1;
      }
      assert data == Splice(old(data), at, bytes);
    }

    /** `Field::write(value, buffer, from, to)`: a fixed-width value fills its
        slot; a segment value gets a header holding the current length of
        the buffer and its count, and its body is appended. */
    method Write(t: FieldType, v: Value, from: nat)
      requires Typed(t, v) && from + Size(t) <= |data|
      modifies this
      ensures data == WriteField(old(data), t, v, from)
      decreases v, 2
    {
      if !IsSegment(t) {
        Put(from, FixedBytes(t, v));
      } else {
        var header := LeBytes(|data|, 4) + LeBytes(Count(t, v), 4);
        Put(from, header);
        Extend(t, v);
      }
    }

    /** Appends the body of a segment value. A nested message is built in a
        buffer of its own, header first, and then copied; a vector reserves
        its element slots at the end of this buffer and writes each element
        into its slot. */
    method Extend(t: FieldType, v: Value)
      requires IsSegment(t) && Typed(t, v)
      modifies this
      ensures data == AppendBody(old(data), t, v)
      decreases v, 1
    {
      match v
      case Bytes(b) =>
        data := data + b;
      case Text(s) =>
        data := data + Utf8.Encode(s);
      case Record(vals) =>
        var raw := new Buffer(HeaderSize(t.fields), 0);
        assert raw.data == Zeros(HeaderSize(t.fields));
        raw.WriteEach(t, vals, 0);
        data := data + raw.data;
      case List(items) =>
        VecSlotsSize(t.elem, |items|, 0);
        var start := |data|;
        data := data + Zeros(Times(|items|, Size(t.elem)));
        WriteEach(t, items, start);
    }

    /** Writes `vals` into consecutive slots of a container, the first at
        `off`, in order. */
    method WriteEach(parent: FieldType, vals: seq<Value>, off: nat)
      requires SlotsTyped(parent, vals)
      requires off + SlotsSize(parent, |vals|, 0) <= |data|
      modifies this
      ensures data == WriteSlots(old(data), parent, vals, 0, off)
      decreases vals, 1
    {
      ghost var written := WriteSlots(data, parent, vals, 0, off);
      var at: nat := off;
      for k := 0 to |vals|
        invariant Pending(data, parent, vals, k, at, written)
      {
        var size := Size(SlotType(parent, k));
        WriteSlot(parent, vals, k, at, written);
        at := at + size;
      }
    }

    /** One turn of the loop in `WriteEach`: writes `vals[k]` into its slot
        at `at`, leaving the rest of `WriteSlots` to do, so that what the
        loop will have written in the end, `written`, stays the same. */
    method WriteSlot(parent: FieldType, vals: seq<Value>, k: nat, at: nat, ghost written: seq<Byte>)
      requires k < |vals| && Pending(data, parent, vals, k, at, written)
      modifies this
      ensures Pending(data, parent, vals, k + 1, at + Size(SlotType(parent, k)), written)
      decreases vals, 0
    {
      WriteSlotsUnfold(data, parent, vals, k, at);
      Write(SlotType(parent, k), vals[k], at);
    }

    /** `Vec::clear` */
    method Clear()
      modifies this
      ensures data == []
    {
      data := [];
    }

    /** `Vec::resize(n, fill)`: truncates, or extends with `fill`. */
    method Resize(n: nat, fill: Byte)
      modifies this
      ensures |data| == n
      ensures forall i :: 0 <= i < n ==> data[i] == if i < |old(data)| then old(data)[i] else fill
    {
      if n <= |data| {
        data := data[..n];
      } else {
        data := data + seq(n - |data|, _ => fill);
      }
    }
  }

  /** Slots `k` .. of `vals` are still to be written into `buf`, the first
      at `at`, and writing them yields `written`. */
  ghost predicate Pending(buf: seq<Byte>, parent: FieldType, vals: seq<Value>, k: nat, at: nat, written: seq<Byte>) {
    SlotsTyped(parent, vals) && k <= |vals| && at + SlotsSize(parent, |vals|, k) <= |buf|
    && WriteSlots(buf, parent, vals, k, at) == written
  }

  /** `WriteSlots` writes slot `k`, then the rest. */
  lemma WriteSlotsUnfold(buf: seq<Byte>, parent: FieldType, vals: seq<Value>, k: nat, off: nat)
    requires SlotsTyped(parent, vals) && k < |vals|
    requires off + SlotsSize(parent, |vals|, k) <= |buf|
    ensures Typed(SlotType(parent, k), vals[k])
    ensures off + Size(SlotType(parent, k)) + SlotsSize(parent, |vals|, k + 1) <= |buf|
    ensures off + Size(SlotType(parent, k)) + SlotsSize(parent, |vals|, k + 1)
              <= |WriteField(buf, SlotType(parent, k), vals[k], off)|
    ensures WriteSlots(buf, parent, vals, k, off)
      == WriteSlots(WriteField(buf, SlotType(parent, k), vals[k], off), parent, vals, k + 1, off + Size(SlotType(parent, k)))
  {
  }

  /** `assert_write_check_read`: writes `input` into a zeroed buffer of
      `headerSize` bytes, checks it, clones it, clears and re-zeroes the
      original, checks the clone again and reads it back. Both checks accept
      the whole written buffer and the value read back is `input`; the
      clone is a value, so resetting the original does not disturb it. */
  method WriteCheckRead(t: FieldType, input: Value, headerSize: Offset)
    returns (first: Result<Offset, Error>, second: Result<Offset, Error>, output: Value)
    requires Typed(t, input) && Size(t) == headerSize
    requires headerSize + BodyLen(t, input) <= U32_MAX
    ensures first == Ok(headerSize + BodyLen(t, input)) && second == first
    ensures output == input
  {
    var buffer := new Buffer(headerSize, 0);
    var blank := buffer.data;
    buffer.Write(t, input, 0);
    Codec.WriteFieldCorrect(blank, t, input, 0);
    first := CheckField(buffer.data, t, 0, headerSize, headerSize);
    var copy := buffer.data;
    var len := |buffer.data|;
    buffer.Clear();
    buffer.Resize(len, 0);
    second := CheckField(copy, t, 0, headerSize, headerSize);
    output := DecodeField(copy, t, 0);
  }
}
