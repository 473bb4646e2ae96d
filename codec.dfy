/** What the field codec guarantees: `check` depends only on the bytes it
    validates, the buffer `write` produces passes `check`, and `read` then
    returns the value written. */
module Codec {
  import opened Wrappers
  import opened LittleEndian
  import opened Offsets
  import opened Fields
  import Utf8
  import Durations

  /** `a` and `b` both hold the bytes `[lo, hi)` and agree on them. */
  predicate SameOn(a: seq<Byte>, b: seq<Byte>, lo: nat, hi: nat) {
    hi <= |a| && hi <= |b| &&
    forall i {:trigger At(a, i)} {:trigger At(b, i)} :: lo <= i < hi ==> At(a, i) == At(b, i)
  }

  /** The byte at `i`; it names the bytes `SameOn` speaks of, so that the
      agreement is applied only where a proof asks for it. */
  function At(s: seq<Byte>, i: nat): Byte
    requires i < |s|
  {
    s[i]
  }

  /** Two buffers that agree on a range hold the same slices within it. */
  lemma SameOnSlice(a: seq<Byte>, b: seq<Byte>, lo: nat, hi: nat, x: nat, y: nat)
    requires SameOn(a, b, lo, hi) && lo <= x <= y <= hi
    ensures a[x..y] == b[x..y]
  {
    forall j | 0 <= j < y - x
      ensures a[x..y][j] == b[x..y][j]
    {
      assert At(a, x + j) == At(b, x + j);
    }
  }

  lemma TypedSize(t: FieldType, v: Value)
    requires Typed(t, v)
    ensures Size(t) >= 1
  {
  }

  // ------------------------------------------------------ unfolding steps

  /** The check of a segment field is that of its header. */
  lemma CheckIsSegment(buf: seq<Byte>, t: FieldType, from: Offset, mark: Offset)
    requires IsSegment(t) && from + 8 <= |buf| && from + 8 <= U32_MAX
    ensures CheckField(buf, t, from, from + 8, mark) == CheckSegment(buf, t, from, mark)
  {
  }

  /** The read of a segment field follows its header. */
  lemma DecodeIsSegment(buf: seq<Byte>, t: FieldType, from: nat)
    requires IsSegment(t) && from + 8 <= |buf|
    ensures DecodeField(buf, t, from) == DecodeBody(buf, t, ReadOffset(buf, from), ReadOffset(buf, from + 4))
  {
  }

  /** A segment header that checks points at the mark, and its body checks. */
  lemma SegmentIsBody(buf: seq<Byte>, t: FieldType, from: Offset, mark: Offset, e: Offset, count: Offset, end: nat)
    requires IsSegment(t) && from + 8 <= |buf| && CheckSegment(buf, t, from, mark) == Ok(e)
    requires count == ReadOffset(buf, from + 4) && end == mark + Times(count, ItemSize(t))
    ensures ReadOffset(buf, from) == mark
    ensures end <= |buf| && end <= U32_MAX
    ensures CheckBody(buf, t, mark, count, end) == Ok(e)
  {
  }

  /** Conversely, a header pointing at the mark whose body fits is checked
      by its body. */
  lemma BodyIsSegment(buf: seq<Byte>, t: FieldType, from: Offset, mark: Offset, count: Offset, end: Offset)
    requires IsSegment(t) && from + 8 <= |buf|
    requires ReadOffset(buf, from) == mark && ReadOffset(buf, from + 4) == count
    requires end == mark + Times(count, ItemSize(t)) && end <= |buf|
    ensures CheckSegment(buf, t, from, mark) == CheckBody(buf, t, mark, count, end)
  {
  }

  /** The check of a fixed-width field is that of its slot. */
  lemma CheckIsFixed(buf: seq<Byte>, t: FieldType, from: Offset, mark: Offset)
    requires !IsSegment(t) && from + Size(t) <= |buf| && from + Size(t) <= U32_MAX
    ensures CheckField(buf, t, from, from + Size(t), mark) == CheckFixed(buf[from..from + Size(t)], t, mark)
  {
  }

  /** The read of a fixed-width field is that of its slot. */
  lemma DecodeIsFixed(buf: seq<Byte>, t: FieldType, from: nat)
    requires !IsSegment(t) && from + Size(t) <= |buf|
    ensures DecodeField(buf, t, from) == DecodeFixed(buf[from..from + Size(t)], t)
  {
  }

  // ----------------------------------------------------------- framing

  /** `check` of a field looks only at its slot and at the bodies between
      the old and the new end mark: bytes elsewhere, and bytes appended
      later, do not change its outcome. */
  lemma {:induction false} CheckFieldFrame(buf: seq<Byte>, buf2: seq<Byte>, t: FieldType, from: Offset, to: Offset, mark: Offset, e: Offset)
    requires from <= to ==> to - from == Size(t)
    requires CheckField(buf, t, from, to, mark) == Ok(e)
    requires SameOn(buf, buf2, from, to) && SameOn(buf, buf2, mark, e)
    ensures CheckField(buf2, t, from, to, mark) == Ok(e)
    decreases t, 3
  {
    SameOnSlice(buf, buf2, from, to, from, to);
    if IsSegment(t) {
      CheckIsSegment(buf, t, from, mark);
      CheckIsSegment(buf2, t, from, mark);
      SegmentCheckFrame(buf, buf2, t, from, mark, e);
    }
  }

  lemma {:induction false} SegmentCheckFrame(buf: seq<Byte>, buf2: seq<Byte>, t: FieldType, from: Offset, mark: Offset, e: Offset)
    requires IsSegment(t) && from + 8 <= |buf|
    requires CheckSegment(buf, t, from, mark) == Ok(e)
    requires SameOn(buf, buf2, from, from + 8) && SameOn(buf, buf2, mark, e)
    ensures CheckSegment(buf2, t, from, mark) == Ok(e)
    decreases t, 2
  {
    var count := ReadOffset(buf, from + 4);
    var end := mark + Times(count, ItemSize(t));
    HeaderFrame(buf, buf2, from);
    SegmentIsBody(buf, t, from, mark, e, count, end);
    BodyCheckFrame(buf, buf2, t, mark, count, end, e);
    BodyIsSegment(buf2, t, from, mark, count, end);
  }

  lemma {:induction false} BodyCheckFrame(buf: seq<Byte>, buf2: seq<Byte>, t: FieldType, pos: Offset, count: Offset, end: Offset, e: Offset)
    requires IsSegment(t) && pos <= end <= |buf| && end == pos + Times(count, ItemSize(t))
    requires CheckBody(buf, t, pos, count, end) == Ok(e)
    requires SameOn(buf, buf2, pos, e)
    ensures end <= |buf2|
    ensures CheckBody(buf2, t, pos, count, end) == Ok(e)
    decreases t, 1
  {
    SameOnSlice(buf, buf2, pos, e, pos, end);
    if t.VecField? {
      VecSlotsSize(t.elem, count, 0);
      SlotsCheckFrame(buf, buf2, t, count, 0, pos, end, e);
    }
  }

  lemma {:induction false} SlotsCheckFrame(buf: seq<Byte>, buf2: seq<Byte>, parent: FieldType, count: nat, k: nat, off: Offset, mark: Offset, e: Offset)
    requires FitsSlots(parent, count) && k <= count
    requires CheckSlots(buf, parent, count, k, off, mark) == Ok(e)
    requires SameOn(buf, buf2, off, off + SlotsSize(parent, count, k)) && SameOn(buf, buf2, mark, e)
    ensures CheckSlots(buf2, parent, count, k, off, mark) == Ok(e)
    decreases parent, 0, count - k
  {
    if k < count {
      var t := SlotType(parent, k);
      var to := off + Size(t);
      CheckSlotsNext(buf, parent, count, k, off, to, mark, e);
      var m := CheckField(buf, t, off, to, mark).value;
      CheckFieldFrame(buf, buf2, t, off, to, mark, m);
      SlotsCheckFrame(buf, buf2, parent, count, k + 1, to, m, e);
      CheckSlotsUnfold(buf2, parent, count, k, off, to, mark, m);
    }
  }

  /** `read` of a field that checks looks at the same bytes as its check. */
  lemma {:induction false} DecodeFieldFrame(buf: seq<Byte>, buf2: seq<Byte>, t: FieldType, from: Offset, to: Offset, mark: Offset, e: Offset)
    requires from <= to ==> to - from == Size(t)
    requires CheckField(buf, t, from, to, mark) == Ok(e)
    requires SameOn(buf, buf2, from, to) && SameOn(buf, buf2, mark, e)
    ensures DecodeField(buf2, t, from) == DecodeField(buf, t, from)
    decreases t, 3
  {
    SameOnSlice(buf, buf2, from, to, from, to);
    if IsSegment(t) {
      CheckIsSegment(buf, t, from, mark);
      DecodeIsSegment(buf, t, from);
      DecodeIsSegment(buf2, t, from);
      SegmentDecodeFrame(buf, buf2, t, from, mark, e);
    }
  }

  lemma {:induction false} SegmentDecodeFrame(buf: seq<Byte>, buf2: seq<Byte>, t: FieldType, from: Offset, mark: Offset, e: Offset)
    requires IsSegment(t) && from + 8 <= |buf|
    requires CheckSegment(buf, t, from, mark) == Ok(e)
    requires SameOn(buf, buf2, from, from + 8) && SameOn(buf, buf2, mark, e)
    ensures ReadOffset(buf2, from) == ReadOffset(buf, from) && ReadOffset(buf2, from + 4) == ReadOffset(buf, from + 4)
    ensures DecodeBody(buf2, t, ReadOffset(buf, from), ReadOffset(buf, from + 4))
      == DecodeBody(buf, t, ReadOffset(buf, from), ReadOffset(buf, from + 4))
    decreases t, 2
  {
    var count := ReadOffset(buf, from + 4);
    var end := mark + Times(count, ItemSize(t));
    HeaderFrame(buf, buf2, from);
    SegmentIsBody(buf, t, from, mark, e, count, end);
    BodyDecodeFrame(buf, buf2, t, mark, count, end, e);
  }

  lemma {:induction false} BodyDecodeFrame(buf: seq<Byte>, buf2: seq<Byte>, t: FieldType, pos: Offset, count: Offset, end: Offset, e: Offset)
    requires IsSegment(t) && pos <= end <= |buf| && end == pos + Times(count, ItemSize(t))
    requires CheckBody(buf, t, pos, count, end) == Ok(e)
    requires SameOn(buf, buf2, pos, e)
    ensures DecodeBody(buf2, t, pos, count) == DecodeBody(buf, t, pos, count)
    decreases t, 1
  {
    if t.VecField? {
      VecSlotsSize(t.elem, count, 0);
      SameOnSub(buf, buf2, pos, e, pos, end);
      SameOnSub(buf, buf2, pos, e, end, e);
      assert CheckSlots(buf, t, count, 0, pos, end) == Ok(e);
      SlotsDecodeFrame(buf, buf2, t, count, 0, pos, end, e);
    } else {
      SameOnSlice(buf, buf2, pos, e, pos, end);
    }
  }

  lemma {:induction false} SlotsDecodeFrame(buf: seq<Byte>, buf2: seq<Byte>, parent: FieldType, count: nat, k: nat, off: Offset, mark: Offset, e: Offset)
    requires FitsSlots(parent, count) && k <= count
    requires CheckSlots(buf, parent, count, k, off, mark) == Ok(e)
    requires SameOn(buf, buf2, off, off + SlotsSize(parent, count, k)) && SameOn(buf, buf2, mark, e)
    ensures DecodeSlots(buf2, parent, count, k, off) == DecodeSlots(buf, parent, count, k, off)
    decreases parent, 0, count - k
  {
    if k < count {
      var t := SlotType(parent, k);
      var to := off + Size(t);
      CheckSlotsNext(buf, parent, count, k, off, to, mark, e);
      var m := CheckField(buf, t, off, to, mark).value;
      DecodeFieldFrame(buf, buf2, t, off, to, mark, m);
      SlotsDecodeFrame(buf, buf2, parent, count, k + 1, to, m, e);
      DecodeSlotsUnfold(buf, parent, count, k, off, to, DecodeField(buf, t, off), DecodeSlots(buf, parent, count, k + 1, to));
      DecodeSlotsUnfold(buf2, parent, count, k, off, to, DecodeField(buf, t, off), DecodeSlots(buf, parent, count, k + 1, to));
    }
  }

  /** When slots `k` .. check, slot `k` checks, and the rest check from
      where it ends. */
  lemma CheckSlotsNext(buf: seq<Byte>, parent: FieldType, count: nat, k: nat, off: Offset, to: nat, mark: Offset, e: Offset)
    requires FitsSlots(parent, count) && k < count && to == off + Size(SlotType(parent, k))
    requires CheckSlots(buf, parent, count, k, off, mark) == Ok(e)
    ensures to <= U32_MAX
    ensures CheckField(buf, SlotType(parent, k), off, to, mark).Ok?
    ensures CheckSlots(buf, parent, count, k + 1, to, CheckField(buf, SlotType(parent, k), off, to, mark).value) == Ok(e)
  {
    var t := SlotType(parent, k);
    assert Add(off, Size(t)) == Ok(to);
  }

  // ------------------------------------------------------------ layout

  /** `write` of a field changes its own slot and appends, and leaves every
      other byte of the buffer as it was. */
  lemma {:induction false} WriteFieldFrame(buf: seq<Byte>, t: FieldType, v: Value, from: nat)
    requires Typed(t, v) && from + Size(t) <= |buf|
    ensures SameOn(buf, WriteField(buf, t, v, from), 0, from)
    ensures SameOn(buf, WriteField(buf, t, v, from), from + Size(t), |buf|)
    decreases v, 2
  {
    if !IsSegment(t) {
      SpliceFrame(buf, from, FixedBytes(t, v));
    } else {
      var header := LeBytes(|buf|, 4) + LeBytes(Count(t, v), 4);
      var b1 := Splice(buf, from, header);
      SpliceFrame(buf, from, header);
      AppendFrame(b1, t, v);
      SegmentWriteFrame(buf, b1, WriteField(buf, t, v, from), from);
    }
  }

  /** A splice leaves alone the bytes around the spliced range. */
  lemma SpliceFrame(buf: seq<Byte>, at: nat, x: seq<Byte>)
    requires at + |x| <= |buf|
    ensures SameOn(buf, Splice(buf, at, x), 0, at)
    ensures SameOn(buf, Splice(buf, at, x), at + |x|, |buf|)
  {
  }

  lemma SegmentWriteFrame(buf: seq<Byte>, b1: seq<Byte>, out: seq<Byte>, from: nat)
    requires from + 8 <= |buf| == |b1|
    requires SameOn(buf, b1, 0, from) && SameOn(buf, b1, from + 8, |buf|)
    requires SameOn(b1, out, 0, |b1|)
    ensures SameOn(buf, out, 0, from) && SameOn(buf, out, from + 8, |buf|)
  {
    SameOnSub(b1, out, 0, |b1|, 0, from);
    SameOnSub(b1, out, 0, |b1|, from + 8, |buf|);
    SameOnTrans(buf, b1, out, 0, from);
    SameOnTrans(buf, b1, out, from + 8, |buf|);
  }

  /** `extend_buffer` only appends. */
  lemma {:induction false} AppendFrame(buf: seq<Byte>, t: FieldType, v: Value)
    requires IsSegment(t) && Typed(t, v)
    ensures SameOn(buf, AppendBody(buf, t, v), 0, |buf|)
    decreases v, 1
  {
    if v.List? {
      var n := |v.items|;
      VecSlotsSize(t.elem, n, 0);
      var b2 := buf + Zeros(Times(n, Size(t.elem)));
      WriteSlotsFrame(b2, t, v.items, 0, |buf|);
      SameOnTrans(buf, b2, AppendBody(buf, t, v), 0, |buf|);
    }
  }

  /** Writing slots `k` .. leaves alone what lies before them and what lies
      between them and the old end. */
  lemma {:induction false} WriteSlotsFrame(buf: seq<Byte>, parent: FieldType, vals: seq<Value>, k: nat, off: nat)
    requires SlotsTyped(parent, vals) && k <= |vals|
    requires off + SlotsSize(parent, |vals|, k) <= |buf|
    ensures SameOn(buf, WriteSlots(buf, parent, vals, k, off), 0, off)
    ensures SameOn(buf, WriteSlots(buf, parent, vals, k, off), off + SlotsSize(parent, |vals|, k), |buf|)
    decreases vals, 0, |vals| - k
  {
    if k < |vals| {
      var t := SlotType(parent, k);
      var to := off + Size(t);
      SlotsSplit(parent, vals, k);
      var b1 := WriteField(buf, t, vals[k], off);
      var out := WriteSlots(b1, parent, vals, k + 1, to);
      assert out == WriteSlots(buf, parent, vals, k, off);
      WriteFieldFrame(buf, t, vals[k], off);
      WriteSlotsFrame(b1, parent, vals, k + 1, to);
      SameOnStep(buf, b1, out, off, to, off + SlotsSize(parent, |vals|, k));
    }
  }

  // ------------------------------------------------------------- check

  /** What `write` produces passes `check`, which returns the new end. */
  lemma {:induction false} WriteFieldChecks(buf: seq<Byte>, t: FieldType, v: Value, from: nat)
    requires Typed(t, v) && from + Size(t) <= |buf|
    requires |buf| + BodyLen(t, v) <= U32_MAX
    ensures CheckField(WriteField(buf, t, v, from), t, from, from + Size(t), |buf|) == Ok(|WriteField(buf, t, v, from)|)
    decreases v, 3
  {
    if IsSegment(t) {
      SegmentWriteChecks(buf, t, v, from);
    } else {
      var out := WriteField(buf, t, v, from);
      CheckIsFixed(out, t, from, |buf|);
      assert out[from..from + Size(t)] == FixedBytes(t, v);
      FixedSlotChecks(t, v, |buf|);
    }
  }

  /** The slot `write` fills for a fixed-width value passes the slot check. */
  lemma FixedSlotChecks(t: FieldType, v: Value, mark: Offset)
    requires !IsSegment(t) && Typed(t, v)
    ensures CheckFixed(FixedBytes(t, v), t, mark) == Ok(mark)
  {
    if t.DurationField? {
      Durations.EncodeChecks(v.nanos);
    }
  }

  lemma {:induction false} SegmentWriteChecks(buf: seq<Byte>, t: FieldType, v: Value, from: nat)
    requires IsSegment(t) && Typed(t, v) && from + Size(t) <= |buf|
    requires |buf| + BodyLen(t, v) <= U32_MAX
    ensures CheckField(WriteField(buf, t, v, from), t, from, from + Size(t), |buf|) == Ok(|WriteField(buf, t, v, from)|)
    decreases v, 2
  {
    var out := WriteField(buf, t, v, from);
    var pos := |buf|;
    var count := Count(t, v);
    CountBound(t, v);
    var b1 := Splice(buf, from, LeBytes(pos, 4) + LeBytes(count, 4));
    assert out == AppendBody(b1, t, v);
    assert b1[from..from + 8] == LeBytes(pos, 4) + LeBytes(count, 4);
    AppendFrame(b1, t, v);
    AppendChecks(b1, t, v);
    SegmentChecksCompose(b1, out, t, from, pos, count);
  }

  /** A header holding the old end and the count, followed by a body that
      checks there, checks as a segment field. */
  lemma SegmentChecksCompose(b1: seq<Byte>, out: seq<Byte>, t: FieldType, from: nat, pos: Offset, count: Offset)
    requires IsSegment(t) && from + 8 <= |b1| == pos
    requires b1[from..from + 8] == LeBytes(pos, 4) + LeBytes(count, 4)
    requires SameOn(b1, out, 0, |b1|)
    requires pos + Times(count, ItemSize(t)) <= |out| <= U32_MAX
    requires CheckBody(out, t, pos, count, pos + Times(count, ItemSize(t))) == Ok(|out|)
    ensures CheckField(out, t, from, from + 8, pos) == Ok(|out|)
  {
    HeaderReads(b1, out, from, pos, count);
    CheckIsSegment(out, t, from, pos);
    BodyIsSegment(out, t, from, pos, count, pos + Times(count, ItemSize(t)));
  }

  /** The body `extend_buffer` appends passes `check_data` as a segment of
      `Count(t, v)` items starting at the old end. */
  lemma {:induction false} AppendChecks(buf: seq<Byte>, t: FieldType, v: Value)
    requires IsSegment(t) && Typed(t, v)
    requires |buf| + BodyLen(t, v) <= U32_MAX
    ensures Count(t, v) <= |buf| + Times(Count(t, v), ItemSize(t)) <= |AppendBody(buf, t, v)| <= U32_MAX
    ensures CheckBody(AppendBody(buf, t, v), t, |buf|, Count(t, v), |buf| + Times(Count(t, v), ItemSize(t))) == Ok(|AppendBody(buf, t, v)|)
    decreases v, 1
  {
    match v
    case Bytes(b) =>
      BytesChecks(buf, b, buf + b);
    case Text(s) =>
      Utf8.EncodeValid(s);
      TextChecks(buf, Utf8.Encode(s), buf + Utf8.Encode(s));
    case Record(vals) =>
      SerializeChecks(t.fields, vals);
      RecordChecks(buf, t.fields, Serialize(t.fields, vals), AppendBody(buf, t, v));
    case List(items) =>
      ListAppendChecks(buf, t, v);
  }

  /** A byte slice passes as the bytes appended. */
  lemma BytesChecks(buf: seq<Byte>, body: seq<Byte>, out: seq<Byte>)
    requires out == buf + body && |out| <= U32_MAX
    ensures |buf| + Times(|body|, 1) == |out|
    ensures CheckBody(out, BytesField, |buf|, |body|, |out|) == Ok(|out|)
  {
    TimesOne(|body|);
  }

  /** A string whose bytes are valid UTF-8 passes as the bytes appended. */
  lemma TextChecks(buf: seq<Byte>, body: seq<Byte>, out: seq<Byte>)
    requires Utf8.Valid(body) && out == buf + body && |out| <= U32_MAX
    ensures |buf| + Times(|body|, 1) == |out|
    ensures CheckBody(out, StrField, |buf|, |body|, |out|) == Ok(|out|)
  {
    TimesOne(|body|);
    AppendedSlice(buf, body, out);
  }

  /** A nested message passes as its raw bytes do. */
  lemma RecordChecks(buf: seq<Byte>, fs: seq<FieldType>, raw: seq<Byte>, out: seq<Byte>)
    requires out == buf + raw && |out| <= U32_MAX && CheckStruct(raw, fs) == Ok(|raw|)
    ensures |buf| + Times(|raw|, 1) == |out|
    ensures CheckBody(out, StructField(fs), |buf|, |raw|, |out|) == Ok(|out|)
  {
    TimesOne(|raw|);
    AppendedSlice(buf, raw, out);
  }

  /** What was appended to `buf` is the slice after it. */
  lemma AppendedSlice(buf: seq<Byte>, body: seq<Byte>, out: seq<Byte>)
    requires out == buf + body
    ensures out[|buf|..|out|] == body
  {
  }

  lemma {:induction false} ListAppendChecks(buf: seq<Byte>, t: FieldType, v: Value)
    requires t.VecField? && Typed(t, v)
    requires |buf| + BodyLen(t, v) <= U32_MAX
    ensures Count(t, v) <= |buf| + Times(Count(t, v), ItemSize(t)) <= |AppendBody(buf, t, v)| <= U32_MAX
    ensures CheckBody(AppendBody(buf, t, v), t, |buf|, Count(t, v), |buf| + Times(Count(t, v), ItemSize(t))) == Ok(|AppendBody(buf, t, v)|)
    decreases v, 0
  {
    var n := |v.items|;
    if n > 0 {
      TypedSize(t.elem, v.items[0]);
      TimesBound(n, Size(t.elem));
    }
    VecSlotsSize(t.elem, n, 0);
    var b2 := buf + Zeros(Times(n, Size(t.elem)));
    WriteSlotsChecks(b2, t, v.items, 0, |buf|);
  }

  /** The raw bytes of a structured message built from typed values pass
      the message check. */
  lemma {:induction false} SerializeChecks(fs: seq<FieldType>, vals: seq<Value>)
    requires Typed(StructField(fs), Record(vals))
    requires BodyLen(StructField(fs), Record(vals)) <= U32_MAX
    ensures CheckStruct(Serialize(fs, vals), fs) == Ok(|Serialize(fs, vals)|)
    decreases vals, 1
  {
    WriteSlotsChecks(Zeros(HeaderSize(fs)), StructField(fs), vals, 0, 0);
  }

  /** Slots `k` .. of a container, written in order from `off`, pass the
      slot-by-slot check. */
  lemma {:induction false} WriteSlotsChecks(buf: seq<Byte>, parent: FieldType, vals: seq<Value>, k: nat, off: nat)
    requires SlotsTyped(parent, vals) && k <= |vals|
    requires off + SlotsSize(parent, |vals|, k) <= |buf|
    requires |buf| + SlotsBody(parent, vals, k) <= U32_MAX
    ensures CheckSlots(WriteSlots(buf, parent, vals, k, off), parent, |vals|, k, off, |buf|) == Ok(|WriteSlots(buf, parent, vals, k, off)|)
    decreases vals, 0, |vals| - k, 1
  {
    if k < |vals| {
      var t := SlotType(parent, k);
      var to := off + Size(t);
      SlotsSplit(parent, vals, k);
      var b1 := WriteField(buf, t, vals[k], off);
      var out := WriteSlots(b1, parent, vals, k + 1, to);
      assert out == WriteSlots(buf, parent, vals, k, off);
      WriteSlotsStepChecks(buf, parent, vals, k, off, t, to, b1, out);
    }
  }

  /** The first slot, then the rest. */
  lemma {:induction false} WriteSlotsStepChecks(buf: seq<Byte>, parent: FieldType, vals: seq<Value>, k: nat, off: nat,
                                                t: FieldType, to: nat, b1: seq<Byte>, out: seq<Byte>)
    requires SlotsTyped(parent, vals) && k < |vals| && t == SlotType(parent, k) && Typed(t, vals[k])
    requires to == off + Size(t) && to + SlotsSize(parent, |vals|, k + 1) <= |buf|
    requires |buf| + BodyLen(t, vals[k]) + SlotsBody(parent, vals, k + 1) <= U32_MAX
    requires b1 == WriteField(buf, t, vals[k], off)
    requires out == WriteSlots(b1, parent, vals, k + 1, to)
    ensures CheckSlots(out, parent, |vals|, k, off, |buf|) == Ok(|out|)
    decreases vals, 0, |vals| - k, 0
  {
    WriteFieldChecks(buf, t, vals[k], off);
    WriteSlotsChecks(b1, parent, vals, k + 1, to);
    WriteSlotsFrame(b1, parent, vals, k + 1, to);
    SlotsChecksCompose(b1, out, parent, |vals|, k, off, to, |buf|, to + SlotsSize(parent, |vals|, k + 1));
  }

  /** Slot `k` checks in the final buffer as it did once written, and the
      rest follows. */
  lemma SlotsChecksCompose(b1: seq<Byte>, out: seq<Byte>, parent: FieldType, count: nat, k: nat, off: nat, to: nat, mark: nat, tail: nat)
    requires FitsSlots(parent, count) && k < count && to == off + Size(SlotType(parent, k))
    requires to <= tail <= mark <= |b1| <= |out| <= U32_MAX
    requires CheckField(b1, SlotType(parent, k), off, to, mark) == Ok(|b1|)
    requires SameOn(b1, out, 0, to) && SameOn(b1, out, tail, |b1|)
    requires CheckSlots(out, parent, count, k + 1, to, |b1|) == Ok(|out|)
    ensures CheckSlots(out, parent, count, k, off, mark) == Ok(|out|)
  {
    SameOnSub(b1, out, 0, to, off, to);
    SameOnSub(b1, out, tail, |b1|, mark, |b1|);
    CheckFieldFrame(b1, out, SlotType(parent, k), off, to, mark, |b1|);
    CheckSlotsUnfold(out, parent, count, k, off, to, mark, |b1|);
  }

  // ------------------------------------------------------------ decode

  /** What `write` produces reads back as the value written. */
  lemma {:induction false} WriteFieldDecodes(buf: seq<Byte>, t: FieldType, v: Value, from: nat)
    requires Typed(t, v) && from + Size(t) <= |buf|
    requires |buf| + BodyLen(t, v) <= U32_MAX
    ensures DecodeField(WriteField(buf, t, v, from), t, from) == v
    decreases v, 3
  {
    if IsSegment(t) {
      SegmentWriteDecodes(buf, t, v, from);
    } else {
      var out := WriteField(buf, t, v, from);
      DecodeIsFixed(out, t, from);
      assert out[from..from + Size(t)] == FixedBytes(t, v);
      FixedSlotDecodes(t, v);
    }
  }

  /** The slot `write` fills for a fixed-width value holds that value. */
  lemma FixedSlotDecodes(t: FieldType, v: Value)
    requires !IsSegment(t) && Typed(t, v)
    ensures DecodeFixed(FixedBytes(t, v), t) == v
  {
    match t
    case IntField(w, signed) =>
      if signed {
        SignedValueOfBytes(v.n, w.ByteCount());
      } else {
        LeValueOfBytes(v.n, w.ByteCount());
      }
    case BlobField(_) =>
    case DurationField =>
      Durations.EncodeChecks(v.nanos);
  }

  lemma {:induction false} SegmentWriteDecodes(buf: seq<Byte>, t: FieldType, v: Value, from: nat)
    requires IsSegment(t) && Typed(t, v) && from + Size(t) <= |buf|
    requires |buf| + BodyLen(t, v) <= U32_MAX
    ensures DecodeField(WriteField(buf, t, v, from), t, from) == v
    decreases v, 2
  {
    var out := WriteField(buf, t, v, from);
    var pos := |buf|;
    var count := Count(t, v);
    CountBound(t, v);
    var b1 := Splice(buf, from, LeBytes(pos, 4) + LeBytes(count, 4));
    assert out == AppendBody(b1, t, v);
    assert b1[from..from + 8] == LeBytes(pos, 4) + LeBytes(count, 4);
    AppendFrame(b1, t, v);
    AppendDecodes(b1, t, v);
    SegmentDecodesCompose(b1, out, t, from, pos, count, v);
  }

  /** A header holding the old end and the count, followed by a body that
      reads as `v` there, reads as `v`. */
  lemma SegmentDecodesCompose(b1: seq<Byte>, out: seq<Byte>, t: FieldType, from: nat, pos: Offset, count: Offset, v: Value)
    requires IsSegment(t) && from + 8 <= |b1| == pos
    requires b1[from..from + 8] == LeBytes(pos, 4) + LeBytes(count, 4)
    requires SameOn(b1, out, 0, |b1|)
    requires DecodeBody(out, t, pos, count) == v
    ensures DecodeField(out, t, from) == v
  {
    HeaderReads(b1, out, from, pos, count);
    DecodeIsSegment(out, t, from);
  }

  /** The body `extend_buffer` appends reads back, as a segment of
      `Count(t, v)` items at the old end, as the value written. */
  lemma {:induction false} AppendDecodes(buf: seq<Byte>, t: FieldType, v: Value)
    requires IsSegment(t) && Typed(t, v)
    requires |buf| + BodyLen(t, v) <= U32_MAX
    ensures DecodeBody(AppendBody(buf, t, v), t, |buf|, Count(t, v)) == v
    decreases v, 1
  {
    match v
    case Bytes(b) =>
      BytesDecodes(buf, b, buf + b);
    case Text(s) =>
      Utf8.EncodeValid(s);
      TextDecodes(buf, Utf8.Encode(s), buf + Utf8.Encode(s));
    case Record(vals) =>
      SerializeDecodes(t.fields, vals);
      RecordDecodes(buf, t.fields, vals, Serialize(t.fields, vals), AppendBody(buf, t, v));
    case List(items) =>
      ListAppendDecodes(buf, t, v);
  }

  /** A byte slice reads back as the bytes appended. */
  lemma BytesDecodes(buf: seq<Byte>, body: seq<Byte>, out: seq<Byte>)
    requires out == buf + body
    ensures DecodeBody(out, BytesField, |buf|, |body|) == Bytes(body)
  {
    TimesOne(|body|);
    AppendedSlice(buf, body, out);
  }

  /** A string reads back as the decoding of the bytes appended. */
  lemma TextDecodes(buf: seq<Byte>, body: seq<Byte>, out: seq<Byte>)
    requires out == buf + body
    ensures DecodeBody(out, StrField, |buf|, |body|) == Text(Utf8.Decode(body))
  {
    AppendedSlice(buf, body, out);
    TimesOne(|body|);
    StrBody(out, |buf|, |body|);
  }

  /** The read of a string body, in one step. */
  lemma StrBody(buf: seq<Byte>, pos: nat, count: nat)
    requires pos + Times(count, 1) <= |buf|
    ensures DecodeBody(buf, StrField, pos, count) == Text(Utf8.Decode(buf[pos..pos + Times(count, 1)]))
  {
  }

  /** A nested message reads back as the fields its raw bytes decode to. */
  lemma RecordDecodes(buf: seq<Byte>, fs: seq<FieldType>, vals: seq<Value>, raw: seq<Byte>, out: seq<Byte>)
    requires out == buf + raw && DecodeStruct(raw, fs) == vals
    ensures DecodeBody(out, StructField(fs), |buf|, |raw|) == Record(vals)
  {
    TimesOne(|raw|);
    AppendedSlice(buf, raw, out);
  }

  lemma {:induction false} ListAppendDecodes(buf: seq<Byte>, t: FieldType, v: Value)
    requires t.VecField? && Typed(t, v)
    requires |buf| + BodyLen(t, v) <= U32_MAX
    ensures DecodeBody(AppendBody(buf, t, v), t, |buf|, Count(t, v)) == v
    decreases v, 0
  {
    var n := |v.items|;
    VecSlotsSize(t.elem, n, 0);
    var b2 := buf + Zeros(Times(n, Size(t.elem)));
    WriteSlotsDecodes(b2, t, v.items, 0, |buf|);
    assert v.items[0..] == v.items;
  }

  /** The raw bytes of a structured message built from typed values read
      back as those values. */
  lemma {:induction false} SerializeDecodes(fs: seq<FieldType>, vals: seq<Value>)
    requires Typed(StructField(fs), Record(vals))
    requires BodyLen(StructField(fs), Record(vals)) <= U32_MAX
    ensures DecodeStruct(Serialize(fs, vals), fs) == vals
    decreases vals, 1
  {
    WriteSlotsDecodes(Zeros(HeaderSize(fs)), StructField(fs), vals, 0, 0);
    assert vals[0..] == vals;
  }

  /** Slots `k` .. of a container, written in order from `off`, read back
      as the values written. */
  lemma {:induction false} WriteSlotsDecodes(buf: seq<Byte>, parent: FieldType, vals: seq<Value>, k: nat, off: nat)
    requires SlotsTyped(parent, vals) && k <= |vals|
    requires off + SlotsSize(parent, |vals|, k) <= |buf|
    requires |buf| + SlotsBody(parent, vals, k) <= U32_MAX
    ensures DecodeSlots(WriteSlots(buf, parent, vals, k, off), parent, |vals|, k, off) == vals[k..]
    decreases vals, 0, |vals| - k, 1
  {
    if k < |vals| {
      var t := SlotType(parent, k);
      var to := off + Size(t);
      SlotsSplit(parent, vals, k);
      var b1 := WriteField(buf, t, vals[k], off);
      var out := WriteSlots(b1, parent, vals, k + 1, to);
      assert out == WriteSlots(buf, parent, vals, k, off);
      WriteSlotsStepDecodes(buf, parent, vals, k, off, t, to, b1, out);
    } else {
      assert vals[k..] == [];
    }
  }

  /** The first slot, then the rest. */
  lemma {:induction false} WriteSlotsStepDecodes(buf: seq<Byte>, parent: FieldType, vals: seq<Value>, k: nat, off: nat,
                                                 t: FieldType, to: nat, b1: seq<Byte>, out: seq<Byte>)
    requires SlotsTyped(parent, vals) && k < |vals| && t == SlotType(parent, k) && Typed(t, vals[k])
    requires to == off + Size(t) && to + SlotsSize(parent, |vals|, k + 1) <= |buf|
    requires |buf| + BodyLen(t, vals[k]) + SlotsBody(parent, vals, k + 1) <= U32_MAX
    requires b1 == WriteField(buf, t, vals[k], off)
    requires out == WriteSlots(b1, parent, vals, k + 1, to)
    ensures DecodeSlots(out, parent, |vals|, k, off) == vals[k..]
    decreases vals, 0, |vals| - k, 0
  {
    WriteFieldChecks(buf, t, vals[k], off);
    WriteFieldDecodes(buf, t, vals[k], off);
    WriteSlotsDecodes(b1, parent, vals, k + 1, to);
    WriteSlotsFrame(b1, parent, vals, k + 1, to);
    SlotsDecodesCompose(b1, out, parent, |vals|, k, off, to, |buf|, to + SlotsSize(parent, |vals|, k + 1), vals[k], vals[k + 1..]);
    DropFirst(vals, k);
  }

  /** Slot `k` reads in the final buffer as it did once written, and the
      rest follows. */
  lemma SlotsDecodesCompose(b1: seq<Byte>, out: seq<Byte>, parent: FieldType, count: nat, k: nat, off: nat, to: nat, mark: nat, tail: nat,
                            first: Value, rest: seq<Value>)
    requires FitsSlots(parent, count) && k < count && to == off + Size(SlotType(parent, k))
    requires to <= tail <= mark <= |b1| <= |out| <= U32_MAX
    requires CheckField(b1, SlotType(parent, k), off, to, mark) == Ok(|b1|)
    requires DecodeField(b1, SlotType(parent, k), off) == first
    requires SameOn(b1, out, 0, to) && SameOn(b1, out, tail, |b1|)
    requires DecodeSlots(out, parent, count, k + 1, to) == rest
    ensures DecodeSlots(out, parent, count, k, off) == [first] + rest
  {
    SameOnSub(b1, out, 0, to, off, to);
    SameOnSub(b1, out, tail, |b1|, mark, |b1|);
    DecodeFieldFrame(b1, out, SlotType(parent, k), off, to, mark, |b1|);
    DecodeSlotsUnfold(out, parent, count, k, off, to, first, rest);
  }

  // --------------------------------------------------------- round trip

  /** Round trip of one field: `Field::write`, then `Field::check` passes
      and returns the new end, then `Field::read` returns the value written;
      the rest of the buffer is left alone. */
  lemma WriteFieldCorrect(buf: seq<Byte>, t: FieldType, v: Value, from: nat)
    requires Typed(t, v) && from + Size(t) <= |buf|
    requires |buf| + BodyLen(t, v) <= U32_MAX
    ensures SameOn(buf, WriteField(buf, t, v, from), 0, from)
    ensures SameOn(buf, WriteField(buf, t, v, from), from + Size(t), |buf|)
    ensures CheckField(WriteField(buf, t, v, from), t, from, from + Size(t), |buf|) == Ok(|WriteField(buf, t, v, from)|)
    ensures DecodeField(WriteField(buf, t, v, from), t, from) == v
  {
    WriteFieldFrame(buf, t, v, from);
    WriteFieldChecks(buf, t, v, from);
    WriteFieldDecodes(buf, t, v, from);
  }

  /** Round trip of a whole structured message. */
  lemma SerializeCorrect(fs: seq<FieldType>, vals: seq<Value>)
    requires Typed(StructField(fs), Record(vals))
    requires BodyLen(StructField(fs), Record(vals)) <= U32_MAX
    ensures CheckStruct(Serialize(fs, vals), fs) == Ok(|Serialize(fs, vals)|)
    ensures DecodeStruct(Serialize(fs, vals), fs) == vals
  {
    SerializeChecks(fs, vals);
    SerializeDecodes(fs, vals);
  }

  // ----------------------------------------------------------- helpers

  lemma CountBound(t: FieldType, v: Value)
    requires IsSegment(t) && Typed(t, v)
    ensures Count(t, v) <= BodyLen(t, v)
  {
    if t.VecField? && |v.items| > 0 {
      TypedSize(t.elem, v.items[0]);
      TimesBound(|v.items|, Size(t.elem));
    }
  }

  /** Buffers that agree on a segment header read the same pointer and
      count from it. */
  lemma HeaderFrame(buf: seq<Byte>, buf2: seq<Byte>, from: nat)
    requires SameOn(buf, buf2, from, from + 8)
    ensures ReadOffset(buf2, from) == ReadOffset(buf, from) && ReadOffset(buf2, from + 4) == ReadOffset(buf, from + 4)
  {
    assert At(buf, from) == At(buf2, from) && At(buf, from + 1) == At(buf2, from + 1);
    assert At(buf, from + 2) == At(buf2, from + 2) && At(buf, from + 3) == At(buf2, from + 3);
    assert At(buf, from + 4) == At(buf2, from + 4) && At(buf, from + 5) == At(buf2, from + 5);
    assert At(buf, from + 6) == At(buf2, from + 6) && At(buf, from + 7) == At(buf2, from + 7);
  }

  /** The header of a freshly written segment reads back as the pointer and
      count written, also once the body has been appended. */
  lemma HeaderReads(b1: seq<Byte>, out: seq<Byte>, from: nat, pos: Offset, count: Offset)
    requires from + 8 <= |b1| && b1[from..from + 8] == LeBytes(pos, 4) + LeBytes(count, 4)
    requires SameOn(b1, out, 0, |b1|)
    ensures ReadOffset(out, from) == pos && ReadOffset(out, from + 4) == count
  {
    var h := b1[from..from + 8];
    SameOnSlice(b1, out, 0, |b1|, from, from + 4);
    SameOnSlice(b1, out, 0, |b1|, from + 4, from + 8);
    assert out[from..from + 4] == h[..4] == LeBytes(pos, 4);
    assert out[from + 4..from + 8] == h[4..] == LeBytes(count, 4);
    OffsetReads(out, from, pos);
    OffsetReads(out, from + 4, count);
  }

  lemma OffsetReads(buf: seq<Byte>, at: nat, x: Offset)
    requires at + 4 <= |buf| && buf[at..at + 4] == LeBytes(x, 4)
    ensures ReadOffset(buf, at) == x
  {
    Pow256Values();
    LeValueOfBytes(x, 4);
    LeValueFour(buf[at..at + 4]);
  }

  lemma DropFirst<T>(s: seq<T>, k: nat)
    requires k < |s|
    ensures s[k..] == [s[k]] + s[k + 1..]
  {
  }

  /** The first of slots `k` .. and the rest, as `WriteSlots` splits them. */
  lemma SlotsSplit(parent: FieldType, vals: seq<Value>, k: nat)
    requires SlotsTyped(parent, vals) && k < |vals|
    ensures Typed(SlotType(parent, k), vals[k])
    ensures SlotsSize(parent, |vals|, k) == Size(SlotType(parent, k)) + SlotsSize(parent, |vals|, k + 1)
    ensures SlotsBody(parent, vals, k) == BodyLen(SlotType(parent, k), vals[k]) + SlotsBody(parent, vals, k + 1)
  {
  }

  /** `CheckSlots` of slot `k` and the rest, once slot `k` is known to
      check. */
  lemma CheckSlotsUnfold(buf: seq<Byte>, parent: FieldType, count: nat, k: nat, off: Offset, to: Offset, mark: Offset, m: Offset)
    requires FitsSlots(parent, count) && k < count && to == off + Size(SlotType(parent, k))
    requires CheckField(buf, SlotType(parent, k), off, to, mark) == Ok(m)
    ensures CheckSlots(buf, parent, count, k, off, mark) == CheckSlots(buf, parent, count, k + 1, to, m)
  {
    assert Add(off, Size(SlotType(parent, k))) == Ok(to);
  }

  /** `DecodeSlots` of slot `k` and the rest. */
  lemma DecodeSlotsUnfold(buf: seq<Byte>, parent: FieldType, count: nat, k: nat, off: nat, to: nat, first: Value, rest: seq<Value>)
    requires FitsSlots(parent, count) && k < count && to == off + Size(SlotType(parent, k))
    requires DecodeField(buf, SlotType(parent, k), off) == first
    requires DecodeSlots(buf, parent, count, k + 1, to) == rest
    ensures DecodeSlots(buf, parent, count, k, off) == [first] + rest
  {
  }

  /** How the unchanged ranges of two successive writes combine. */
  lemma SameOnStep(buf: seq<Byte>, b1: seq<Byte>, out: seq<Byte>, off: nat, to: nat, tail: nat)
    requires off <= to <= tail <= |buf| <= |b1|
    requires SameOn(buf, b1, 0, off) && SameOn(buf, b1, to, |buf|)
    requires SameOn(b1, out, 0, to) && SameOn(b1, out, tail, |b1|)
    ensures SameOn(buf, out, 0, off) && SameOn(buf, out, tail, |buf|)
    ensures SameOn(b1, out, off, to) && SameOn(b1, out, |buf|, |b1|)
  {
  }

  lemma SameOnSub(a: seq<Byte>, b: seq<Byte>, lo: nat, hi: nat, lo2: nat, hi2: nat)
    requires SameOn(a, b, lo, hi) && lo <= lo2 && hi2 <= hi
    ensures SameOn(a, b, lo2, hi2)
  {
    forall i | lo2 <= i < hi2
      ensures At(a, i) == At(b, i)
    {
      assert At(a, i) == At(b, i);
    }
  }

  lemma SameOnTrans(a: seq<Byte>, b: seq<Byte>, c: seq<Byte>, lo: nat, hi: nat)
    requires SameOn(a, b, lo, hi) && SameOn(b, c, lo, hi)
    ensures SameOn(a, c, lo, hi)
  {
    forall i | lo <= i < hi
      ensures At(a, i) == At(c, i)
    {
      assert At(a, i) == At(b, i) == At(c, i);
    }
  }
}
