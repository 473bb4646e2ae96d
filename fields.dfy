/** The field codec: one generic `write`, `check` and `read` over a byte
    buffer, driven by the type of the field. Fixed-width fields live in
    their header slot; segment fields (byte slices, strings, vectors and
    nested structured messages) keep an 8-byte slot in the header, a `u32`
    pointer followed by a `u32` count, and append their body to the end of
    the buffer. */
module Fields {
  import opened Wrappers
  import opened LittleEndian
  import opened Offsets
  import Utf8
  import Durations

  datatype IntWidth = W8 | W16 | W32 | W64 {
    function ByteCount(): nat {
      match this
      case W8 => 1
      case W16 => 2
      case W32 => 4
      case W64 => 8
    }
  }

  /** The type of a field, as the schema of a structured message declares it. */
  datatype FieldType =
      /** `u8` … `u64`, `i8` … `i64` */
    | IntField(width: IntWidth, signed: bool)
      /** a fixed-size byte array: `Hash`, `PublicKey`, or an opaque 16-byte `Uuid` or `Decimal` */
    | BlobField(size: nat)
    | DurationField
      /** `&[u8]` */
    | BytesField
      /** `&str` */
    | StrField
      /** `Vec<T>`: a segment of `T` slots, the bodies of segment elements after them */
    | VecField(elem: FieldType)
      /** a nested structured message: its own header followed by its own bodies */
    | StructField(fields: seq<FieldType>)

  /** The value of a field. */
  datatype Value =
    | Int(n: int)
    | Blob(blob: seq<Byte>)
      /** a duration, in nanoseconds */
    | Span(nanos: int)
    | Bytes(bytes: seq<Byte>)
    | Text(text: string)
    | List(items: seq<Value>)
    | Record(values: seq<Value>)

  predicate IsSegment(t: FieldType) {
    t.BytesField? || t.StrField? || t.VecField? || t.StructField?
  }

  /** A type whose values hold a sequence of slots: a vector or a structure. */
  predicate IsContainer(t: FieldType) {
    t.VecField? || t.StructField?
  }

  /** The width of the field's slot in the header (`field_size`). */
  function Size(t: FieldType): nat {
    match t
    case IntField(w, _) => w.ByteCount()
    case BlobField(n) => n
    case DurationField => Durations.SLOT_SIZE
    case _ => 8
  }

  /** What one unit of a segment's count occupies (`item_size`): a byte,
      except for a vector, whose count is a number of element slots. */
  function ItemSize(t: FieldType): nat
    requires IsSegment(t)
  {
    if t.VecField? then Size(t.elem) else 1
  }

  /** A container with `count` slots, of which the schema knows the types. */
  predicate FitsSlots(parent: FieldType, count: nat) {
    IsContainer(parent) && (parent.StructField? ==> count <= |parent.fields|)
  }

  /** The type of slot `k` of a container. */
  function SlotType(parent: FieldType, k: nat): FieldType
    requires FitsSlots(parent, k + 1)
  {
    if parent.VecField? then parent.elem else parent.fields[k]
  }

  /** The total width of slots `k` .. `count - 1` of a container. */
  function SlotsSize(parent: FieldType, count: nat, k: nat): nat
    requires FitsSlots(parent, count)
    decreases count - k
  {
    if count <= k then 0 else Size(SlotType(parent, k)) + SlotsSize(parent, count, k + 1)
  }

  /** The header size of a structured message with fields `fs`. */
  function HeaderSize(fs: seq<FieldType>): nat {
    SlotsSize(StructField(fs), |fs|, 0)
  }

  lemma {:induction false} VecSlotsSize(e: FieldType, count: nat, k: nat)
    requires k <= count
    ensures SlotsSize(VecField(e), count, k) == Times(count - k, Size(e))
    decreases count - k
  {
    if k < count {
      VecSlotsSize(e, count, k + 1);
    }
  }

  /** `v` is a value of type `t`: the guarantee Rust's type system gives
      `write`. */
  predicate Typed(t: FieldType, v: Value)
    decreases v
  {
    match v
    case Int(n) =>
      t.IntField? &&
      if t.signed then InSignedRange(n, t.width.ByteCount()) else 0 <= n < Pow256(t.width.ByteCount())
    case Blob(b) => t.BlobField? && 0 < t.size && |b| == t.size
    case Span(nanos) => t.DurationField? && Durations.InRange(nanos)
    case Bytes(_) => t.BytesField?
    case Text(_) => t.StrField?
    case List(items) => t.VecField? && SlotsTyped(t, items)
    case Record(vals) => t.StructField? && |vals| == |t.fields| && SlotsTyped(t, vals)
  }

  /** Each of `vals` is a value of the type of its slot in `parent`. */
  predicate SlotsTyped(parent: FieldType, vals: seq<Value>)
    decreases vals
  {
    FitsSlots(parent, |vals|) &&
    forall k :: 0 <= k < |vals| ==> Typed(SlotType(parent, k), vals[k])
  }

  // ---------------------------------------------------------------- write

  /** The number of bytes `write` appends after the header for `v`. */
  function BodyLen(t: FieldType, v: Value): nat
    decreases v
  {
    match (t, v)
    case (BytesField, Bytes(b)) => |b|
    case (StrField, Text(s)) => |Utf8.Encode(s)|
    case (VecField(e), List(items)) => Times(|items|, Size(e)) + SlotsBody(t, items, 0)
    case (StructField(fs), Record(vals)) =>
      if |vals| <= |fs| then HeaderSize(fs) + SlotsBody(t, vals, 0) else 0
    case _ => 0
  }

  /** The bytes appended for slots `k` .. of a container. */
  function SlotsBody(parent: FieldType, vals: seq<Value>, k: nat): nat
    requires FitsSlots(parent, |vals|)
    decreases vals, |vals| - k
  {
    if |vals| <= k then 0 else BodyLen(SlotType(parent, k), vals[k]) + SlotsBody(parent, vals, k + 1)
  }

  /** `buf` with the bytes from `at` on replaced by `x`. */
  function Splice(buf: seq<Byte>, at: nat, x: seq<Byte>): (r: seq<Byte>)
    requires at + |x| <= |buf|
    ensures |r| == |buf|
  {
    buf[..at] + x + buf[at + |x|..]
  }

  /** The slot of an integer: its little-endian, two's-complement bytes. */
  function IntBytes(w: IntWidth, signed: bool, n: int): (r: seq<Byte>)
    requires Typed(IntField(w, signed), Int(n))
    ensures |r| == w.ByteCount()
  {
    if signed then SignedBytes(n, w.ByteCount()) else LeBytes(n, w.ByteCount())
  }

  /** The count a segment header stores: bytes of a slice or string,
      elements of a vector, bytes of a nested message. */
  function Count(t: FieldType, v: Value): nat
    requires IsSegment(t) && Typed(t, v)
    decreases v, 1
  {
    match v
    case Bytes(b) => |b|
    case Text(s) => |Utf8.Encode(s)|
    case List(items) => |items|
    case Record(vals) => |Serialize(t.fields, vals)|
  }

  /** The slot of a fixed-width value: little-endian two's-complement
      bytes for an integer, the bytes themselves for a fixed-size array,
      seconds and nanoseconds for a duration. */
  function FixedBytes(t: FieldType, v: Value): (r: seq<Byte>)
    requires !IsSegment(t) && Typed(t, v)
    ensures |r| == Size(t)
  {
    match t
    case IntField(w, signed) => IntBytes(w, signed, v.n)
    case BlobField(_) => v.blob
    case DurationField => Durations.Encode(v.nanos)
  }

  /** `Field::write`: the buffer after writing `v` into the slot starting at
      `from`. A segment's header gets the current length of the buffer as
      its pointer and the count of `v`, both truncated to `u32` as `as u32`
      does; its body goes to the end. */
  function WriteField(buf: seq<Byte>, t: FieldType, v: Value, from: nat): (out: seq<Byte>)
    requires Typed(t, v) && from + Size(t) <= |buf|
    ensures |out| == |buf| + BodyLen(t, v)
    decreases v, 2
  {
    if !IsSegment(t) then Splice(buf, from, FixedBytes(t, v))
    else
      var header := LeBytes(|buf|, 4) + LeBytes(Count(t, v), 4);
      AppendBody(Splice(buf, from, header), t, v)
  }

  /** `extend_buffer`: appends the body of a segment value. A vector first
      reserves its element slots, then writes each element into its slot. */
  function AppendBody(buf: seq<Byte>, t: FieldType, v: Value): (out: seq<Byte>)
    requires IsSegment(t) && Typed(t, v)
    ensures |out| == |buf| + BodyLen(t, v)
    decreases v, 1
  {
    match v
    case Bytes(b) => buf + b
    case Text(s) => buf + Utf8.Encode(s)
    case Record(vals) => buf + Serialize(t.fields, vals)
    case List(items) =>
      VecSlotsSize(t.elem, |items|, 0);
      WriteSlots(buf + Zeros(Times(|items|, Size(t.elem))), t, items, 0, |buf|)
  }

  /** The raw bytes of a structured message: a zeroed header, then each
      field written in declaration order. */
  function Serialize(fs: seq<FieldType>, vals: seq<Value>): (raw: seq<Byte>)
    requires Typed(StructField(fs), Record(vals))
    ensures |raw| == BodyLen(StructField(fs), Record(vals))
    decreases vals, 0
  {
    WriteSlots(Zeros(HeaderSize(fs)), StructField(fs), vals, 0, 0)
  }

  /** Writes `vals[k..]` into consecutive slots of a container, the first at
      `off`. */
  function WriteSlots(buf: seq<Byte>, parent: FieldType, vals: seq<Value>, k: nat, off: nat): (out: seq<Byte>)
    requires SlotsTyped(parent, vals) && k <= |vals|
    requires off + SlotsSize(parent, |vals|, k) <= |buf|
    ensures |out| == |buf| + SlotsBody(parent, vals, k)
    decreases vals, -1, |vals| - k
  {
    if k == |vals| then buf
    else
      var t := SlotType(parent, k);
      WriteSlots(WriteField(buf, t, vals[k], off), parent, vals, k + 1, off + Size(t))
  }

  // ---------------------------------------------------------------- check

  /** The `u32` stored little-endian at `at` (the value `LeValue` gives
      those four bytes, spelled out so that it unfolds in one step). */
  function ReadOffset(buf: seq<Byte>, at: nat): Offset
    requires at + 4 <= |buf|
  {
    buf[at] as nat + 0x100 * (buf[at + 1] as nat) + 0x1_0000 * (buf[at + 2] as nat) + 0x100_0000 * (buf[at + 3] as nat)
  }

  /** `Field::check`: validates the field whose slot is `[from, to)`, given
      the end `mark` of the bodies checked so far, and returns the new end.
      The checked difference `to - from` comes first, as in the source's
      debug assertion; a slot outside the buffer is reported rather than
      read. */
  function CheckField(buf: seq<Byte>, t: FieldType, from: Offset, to: Offset, mark: Offset): (r: Result<Offset, Error>)
    requires from <= to ==> to - from == Size(t)
    ensures r.Ok? ==> to <= |buf| && mark <= r.value && (r.value == mark || r.value <= |buf|)
    decreases t, 4, 0
  {
    var _ :- Sub(to, from);
    if |buf| < to then Err(UnexpectedlyShortPayload)
    else if IsSegment(t) then CheckSegment(buf, t, from, mark)
    else CheckFixed(buf[from..to], t, mark)
  }

  /** The check of a fixed-width slot: only a duration has invalid bit
      patterns. */
  function CheckFixed(slot: seq<Byte>, t: FieldType, mark: Offset): (r: Result<Offset, Error>)
    requires !IsSegment(t) && |slot| == Size(t)
    ensures r.Ok? ==> r.value == mark
  {
    if t.DurationField? then
      var _ :- Durations.CheckSlot(slot);
      Ok(mark)
    else Ok(mark)
  }

  /** The check of a segment header at `from`: the segment must start
      exactly at `mark`, and its end must fit in `u32` and in the buffer. */
  function CheckSegment(buf: seq<Byte>, t: FieldType, from: nat, mark: Offset): (r: Result<Offset, Error>)
    requires IsSegment(t) && from + 8 <= |buf|
    ensures r.Ok? ==> mark <= r.value <= |buf|
    decreases t, 3, 0
  {
    var pos := ReadOffset(buf, from);
    var count := ReadOffset(buf, from + 4);
    var size :- Mul(count, ItemSize(t));
    var end :- Add(pos, size);
    if pos < mark then Err(OverlappingSegment(mark, pos))
    else if pos > mark then Err(SpaceBetweenSegments(mark, pos))
    else if |buf| < end then Err(IncorrectSegmentReference(from, pos))
    else CheckBody(buf, t, pos, count, end)
  }

  /** `check_data`: validates a segment body `[pos, end)` holding `count`
      items. */
  function CheckBody(buf: seq<Byte>, t: FieldType, pos: Offset, count: Offset, end: Offset): (r: Result<Offset, Error>)
    requires IsSegment(t) && pos <= end <= |buf| && end == pos + Times(count, ItemSize(t))
    ensures r.Ok? ==> end <= r.value <= |buf|
    decreases t, 2, 0
  {
    match t
    case BytesField => Ok(end)
    case StrField => if Utf8.Valid(buf[pos..end]) then Ok(end) else Err(Utf8)
    case VecField(_) => CheckSlots(buf, t, count, 0, pos, end)
    case StructField(fs) =>
      var _ :- CheckStruct(buf[pos..end], fs);
      Ok(end)
  }

  /** The check of a structured message's raw bytes: at least a whole
      header, then each field in declaration order, the bodies following
      the header without gaps and filling the message to its end. */
  function CheckStruct(body: seq<Byte>, fs: seq<FieldType>): (r: Result<Offset, Error>)
    ensures r.Ok? ==> r.value == |body| && HeaderSize(fs) <= |body|
    decreases StructField(fs), 1, 0
  {
    var header := HeaderSize(fs);
    if U32_MAX < header then Err(OffsetOverflow)
    else if |body| < header then Err(UnexpectedlyShortPayload)
    else
      var last :- CheckSlots(body, StructField(fs), |fs|, 0, 0, header);
      if last != |body| then Err(SpaceBetweenSegments(last, |body|)) else Ok(last)
  }

  /** Checks slots `k` .. `count - 1` of a container, the first at `off`,
      threading the end of the bodies through them. */
  function CheckSlots(buf: seq<Byte>, parent: FieldType, count: nat, k: nat, off: Offset, mark: Offset): (r: Result<Offset, Error>)
    requires FitsSlots(parent, count) && k <= count
    ensures r.Ok? ==> mark <= r.value && (r.value == mark || r.value <= |buf|)
    decreases parent, 0, count - k
  {
    if k == count then Ok(mark)
    else
      var t := SlotType(parent, k);
      var to :- Add(off, Size(t));
      var m :- CheckField(buf, t, off, to, mark);
      CheckSlots(buf, parent, count, k + 1, to, m)
  }

  // ----------------------------------------------------------------- read

  /** A placeholder value of each type, for slots `read` is never asked
      about once `check` has passed. */
  function Default(t: FieldType): (v: Value)
    ensures Shaped(t, v)
  {
    match t
    case IntField(_, _) => Int(0)
    case BlobField(_) => Blob([])
    case DurationField => Span(0)
    case BytesField => Bytes([])
    case StrField => Text([])
    case VecField(_) => List([])
    case StructField(_) => Record([])
  }

  /** `v` has the form `read` gives a field of type `t`: the variant of the
      type, and an integer within the range of the field's width. */
  predicate Shaped(t: FieldType, v: Value) {
    match (t, v)
    case (IntField(w, signed), Int(n)) =>
      if signed then InSignedRange(n, w.ByteCount()) else 0 <= n < Pow256(w.ByteCount())
    case (BlobField(_), Blob(_)) => true
    case (DurationField, Span(_)) => true
    case (BytesField, Bytes(_)) => true
    case (StrField, Text(_)) => true
    case (VecField(_), List(_)) => true
    case (StructField(_), Record(_)) => true
    case _ => false
  }

  /** What `Field::read` reconstructs from the slot at `from`, following the
      segment pointer for a segment field: whatever the bytes, a value of
      the field's form. */
  function DecodeField(buf: seq<Byte>, t: FieldType, from: nat): (v: Value)
    ensures Shaped(t, v)
    decreases t, 3, 0
  {
    if |buf| < from + Size(t) then Default(t)
    else if IsSegment(t) then DecodeBody(buf, t, ReadOffset(buf, from), ReadOffset(buf, from + 4))
    else DecodeFixed(buf[from..from + Size(t)], t)
  }

  /** The value held in a fixed-width slot. */
  function DecodeFixed(slot: seq<Byte>, t: FieldType): (v: Value)
    requires !IsSegment(t) && |slot| == Size(t)
    ensures Shaped(t, v)
  {
    match t
    case IntField(w, signed) =>
      var u := LeValue(slot);
      Int(if signed then Signed(u, w.ByteCount()) else u)
    case BlobField(_) => Blob(slot)
    case DurationField => Span(Durations.Value(slot))
  }

  function DecodeBody(buf: seq<Byte>, t: FieldType, pos: nat, count: nat): (v: Value)
    requires IsSegment(t)
    ensures Shaped(t, v)
    decreases t, 2, 0
  {
    var end := pos + Times(count, ItemSize(t));
    if |buf| < end then Default(t)
    else match t
      case BytesField => Bytes(buf[pos..end])
      case StrField => Text(Utf8.Decode(buf[pos..end]))
      case VecField(_) => List(DecodeSlots(buf, t, count, 0, pos))
      case StructField(fs) => Record(DecodeStruct(buf[pos..end], fs))
  }

  /** The field values of a structured message's raw bytes. */
  function DecodeStruct(body: seq<Byte>, fs: seq<FieldType>): seq<Value>
    decreases StructField(fs), 1, 0
  {
    DecodeSlots(body, StructField(fs), |fs|, 0, 0)
  }

  function DecodeSlots(buf: seq<Byte>, parent: FieldType, count: nat, k: nat, off: nat): seq<Value>
    requires FitsSlots(parent, count)
    decreases parent, 0, count - k
  {
    if count <= k then []
    else
      var t := SlotType(parent, k);
      [DecodeField(buf, t, off)] + DecodeSlots(buf, parent, count, k + 1, off + Size(t))
  }
}
