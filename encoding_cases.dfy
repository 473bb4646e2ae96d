/** The concrete cases the encoding layer is held to: hand-made buffers
    that `check` must reject with a given error, values whose
    write-check-read round trip must succeed, and the accessors of
    concrete consensus messages. Each follows from the general results of
    `Codec`, `Durations` and `Messages`. */
module EncodingCases {
  import opened Wrappers
  import opened LittleEndian
  import opened Offsets
  import opened Fields
  import opened Messages
  import Codec
  import Durations
  import Utf8

  type I64 = x: int | -0x8000_0000_0000_0000 <= x < 0x8000_0000_0000_0000
  type I32 = x: int | -0x8000_0000 <= x < 0x8000_0000

  const U8: FieldType := IntField(W8, false)

  /** What `assert_write_check_read(input, headerSize)` asserts of a value:
      written into a zeroed buffer of `headerSize` bytes, it passes the
      check, which returns the end of the buffer, and reads back as itself.
      `Buffers.WriteCheckRead` runs exactly these steps. */
  predicate WriteCheckReadHolds(t: FieldType, input: Value, headerSize: Offset) {
    Typed(t, input) && Size(t) == headerSize &&
    var out := WriteField(Zeros(headerSize), t, input, 0);
    CheckField(out, t, 0, headerSize, headerSize) == Ok(|out|) && DecodeField(out, t, 0) == input
  }

  // ------------------------------------------------- rejected buffers

  /** `Child { child: &Hash }` and `Parent { child: Child }`. */
  const ChildSchema: seq<FieldType> := [HashField]
  const ParentSchema: seq<FieldType> := [StructField(ChildSchema)]

  /** A `Parent` segment that starts right after its 8-byte slot but is
      0 bytes long: there is no room for the 8-byte header of a `Parent`,
      so the check reports a short payload instead of reading past it. */
  lemma ZeroSizeSegment()
    ensures CheckField([8, 0, 0, 0, 0, 0, 0, 0, 0], StructField(ParentSchema), 0, 8, 8) == Err(UnexpectedlyShortPayload)
  {
    var buf: seq<Byte> := [8, 0, 0, 0, 0, 0, 0, 0, 0];
    assert ReadOffset(buf, 0) == 8 && ReadOffset(buf, 4) == 0;
    assert HeaderSize(ParentSchema) == 8;
    assert Mul(0, 1) == Ok(0) && Add(8, 0) == Ok(8);
    assert buf[8..8] == [];
    assert CheckStruct([], ParentSchema) == Err(UnexpectedlyShortPayload);
    assert CheckSegment(buf, StructField(ParentSchema), 0, 8) == Err(UnexpectedlyShortPayload);
  }

  /** A slot starting at `u32::MAX` and ending at 8: the size of the slot
      cannot be computed, and the check reports the overflow instead of
      wrapping around. */
  lemma ReadOverflow()
    ensures CheckField([], VecField(U8), U32_MAX, 8, U32_MAX) == Err(OffsetOverflow)
  {
  }

  /** Choices the model makes where the tests leave the behaviour open:
      a nested message with trailing bytes inside its segment, an empty
      segment whose pointer is not the high-water mark, and a slot past
      the end of the buffer. */
  lemma OpenCases()
    ensures CheckStruct(Zeros(9), [IntField(W64, false)]) == Err(SpaceBetweenSegments(8, 9))
    ensures CheckField(Zeros(8), BytesField, 0, 8, 8) == Err(OverlappingSegment(8, 0))
    ensures CheckField([], IntField(W64, false), 0, 8, 8) == Err(UnexpectedlyShortPayload)
  {
    var buf := Zeros(8);
    assert ReadOffset(buf, 0) == 0 && ReadOffset(buf, 4) == 0;
    assert CheckSegment(buf, BytesField, 0, 8) == Err(OverlappingSegment(8, 0));
    assert HeaderSize([IntField(W64, false)]) == 8;
    assert CheckSlots(Zeros(9), StructField([IntField(W64, false)]), 1, 0, 0, 8) == Ok(8);
  }

  /** The slot `expect_duration_check_error` builds: the seconds as a
      little-endian `i64`, then the nanoseconds as a little-endian `i32`. */
  function DurationSlot(secs: I64, nanos: I32): (slot: seq<Byte>)
    ensures |slot| == Durations.SLOT_SIZE
  {
    SignedBounds();
    SignedBytes(secs, 8) + SignedBytes(nanos, 4)
  }

  /** The check of a duration slot holding any `i64` seconds and `i32`
      nanoseconds: it passes exactly for a canonical pair within the range
      of `Duration`; a non-canonical pair is reported as incorrect, a
      canonical one out of range as an overflow. */
  lemma DurationSlotCheck(secs: I64, nanos: I32)
    ensures CheckField(DurationSlot(secs, nanos), DurationField, 0, 12, 12).Ok? <==>
              Durations.Canonical(secs, nanos) && Durations.InRange(secs * Durations.NANOS_PER_SEC + nanos)
    ensures !Durations.Canonical(secs, nanos) ==>
              CheckField(DurationSlot(secs, nanos), DurationField, 0, 12, 12) == Err(IncorrectDuration(secs, nanos))
    ensures Durations.Canonical(secs, nanos) && !Durations.InRange(secs * Durations.NANOS_PER_SEC + nanos) ==>
              CheckField(DurationSlot(secs, nanos), DurationField, 0, 12, 12) == Err(DurationOverflow)
  {
    SignedBounds();
    var slot := DurationSlot(secs, nanos);
    assert slot[0..12] == slot;
    assert slot[..8] == SignedBytes(secs, 8) && slot[8..] == SignedBytes(nanos, 4);
    SignedValueOfBytes(secs, 8);
    SignedValueOfBytes(nanos, 4);
  }

  const I64_MAX: I64 := 0x7FFF_FFFF_FFFF_FFFF
  const I64_MIN: I64 := -0x8000_0000_0000_0000
  const I32_MAX: I32 := 0x7FFF_FFFF
  const I32_MIN: I32 := -0x8000_0000

  /** The seconds of `Duration::max_value()`. */
  const MAX_SECS: I64 := 9_223_372_036_854_775

  /** The seconds of `Duration::min_value()`. */
  const MIN_SECS: I64 := -9_223_372_036_854_775

  /** The slots of `Duration::max_value()` and `Duration::min_value()`
      pass the check, and one nanosecond beyond either end overflows. */
  lemma DurationExtremes()
    ensures CheckField(DurationSlot(MAX_SECS, 807_000_000), DurationField, 0, 12, 12).Ok?
    ensures CheckField(DurationSlot(MAX_SECS, 807_000_001), DurationField, 0, 12, 12) == Err(DurationOverflow)
    ensures CheckField(DurationSlot(MIN_SECS, -808_000_000), DurationField, 0, 12, 12).Ok?
    ensures CheckField(DurationSlot(MIN_SECS, -808_000_001), DurationField, 0, 12, 12) == Err(DurationOverflow)
  {
    DurationSlotCheck(MAX_SECS, 807_000_000);
    DurationSlotCheck(MAX_SECS, 807_000_001);
    DurationSlotCheck(MIN_SECS, -808_000_000);
    DurationSlotCheck(MIN_SECS, -808_000_001);
  }

  /** The pairs `check` must reject: extreme values, parts of opposite
      signs, a whole second of nanoseconds, and the largest duration plus
      one nanosecond. */
  lemma DurationRejections()
    ensures CheckField(DurationSlot(I64_MAX, I32_MAX), DurationField, 0, 12, 12) == Err(IncorrectDuration(I64_MAX, I32_MAX))
    ensures CheckField(DurationSlot(I64_MIN, I32_MIN), DurationField, 0, 12, 12) == Err(IncorrectDuration(I64_MIN, I32_MIN))
    ensures CheckField(DurationSlot(1, -1), DurationField, 0, 12, 12) == Err(IncorrectDuration(1, -1))
    ensures CheckField(DurationSlot(-1, 1), DurationField, 0, 12, 12) == Err(IncorrectDuration(-1, 1))
    ensures CheckField(DurationSlot(0, 1_000_000_000), DurationField, 0, 12, 12) == Err(IncorrectDuration(0, 1_000_000_000))
    ensures CheckField(DurationSlot(0, -1_000_000_000), DurationField, 0, 12, 12) == Err(IncorrectDuration(0, -1_000_000_000))
    ensures CheckField(DurationSlot(MAX_SECS, 807_000_001), DurationField, 0, 12, 12) == Err(DurationOverflow)
  {
    DurationSlotCheck(I64_MAX, I32_MAX);
    DurationSlotCheck(I64_MIN, I32_MIN);
    DurationSlotCheck(1, -1);
    DurationSlotCheck(-1, 1);
    DurationSlotCheck(0, 1_000_000_000);
    DurationSlotCheck(0, -1_000_000_000);
    DurationSlotCheck(MAX_SECS, 807_000_001);
  }

  // ----------------------------------------------------- round trips

  /** Zero, the largest and the smallest duration, and durations whose
      parts have every admissible combination of signs, in nanoseconds. */
  const DurationSamples: seq<int> := [
    0, Durations.MAX_NANOS, Durations.MIN_NANOS,
    10_000_000_000, 10, 10_000_000_010, -10, -10_000_000_000, -10_000_000_010]

  /** Any duration in range round-trips in its 12-byte slot. */
  lemma DurationRoundTrip(d: int)
    requires Durations.InRange(d)
    ensures WriteCheckReadHolds(DurationField, Span(d), 12)
  {
    Codec.WriteFieldCorrect(Zeros(12), DurationField, Span(d), 0);
  }

  lemma DurationSegment()
    ensures forall d :: d in DurationSamples ==> WriteCheckReadHolds(DurationField, Span(d), 12)
  {
    forall d | d in DurationSamples
      ensures WriteCheckReadHolds(DurationField, Span(d), 12)
    {
      DurationRoundTrip(d);
    }
  }

  /** A 16-byte value such as a `Uuid` or a `Decimal`, as an opaque
      fixed-size field. */
  lemma SixteenBytesSegment(b: seq<Byte>)
    requires |b| == 16
    ensures WriteCheckReadHolds(BlobField(16), Blob(b), 16)
  {
    Codec.WriteFieldCorrect(Zeros(16), BlobField(16), Blob(b), 0);
  }

  /** A vector of integers. */
  function IntVector(ns: seq<int>): (v: Value)
    ensures v.List? && |v.items| == |ns|
  {
    List(seq(|ns|, i requires 0 <= i < |ns| => Int(ns[i])))
  }

  /** Slots of fixed-width types have no bodies. */
  lemma {:induction false} FixedItemsBody(t: FieldType, items: seq<Value>, k: nat)
    requires FitsSlots(t, |items|) && k <= |items|
    requires forall j :: k <= j < |items| ==> !IsSegment(SlotType(t, j))
    ensures SlotsBody(t, items, k) == 0
    decreases |items| - k
  {
    if k < |items| {
      FixedItemsBody(t, items, k + 1);
    }
  }

  /** A vector of small integers, of any width and signedness, round-trips
      in a segment. */
  lemma {:induction false} IntVectorRoundTrip(w: IntWidth, signed: bool, ns: seq<int>)
    requires |ns| <= 100 && forall i :: 0 <= i < |ns| ==> 0 <= ns[i] < 128
    ensures WriteCheckReadHolds(VecField(IntField(w, signed)), IntVector(ns), 8)
  {
    var t := VecField(IntField(w, signed));
    var v := IntVector(ns);
    SignedBounds();
    Pow256Values();
    forall k | 0 <= k < |ns|
      ensures Typed(IntField(w, signed), v.items[k])
    {
    }
    FixedItemsBody(t, v.items, 0);
    TimesIsProduct(|ns|, w.ByteCount());
    Codec.WriteFieldCorrect(Zeros(8), t, v, 0);
  }

  const Bytes5: seq<int> := [1, 2, 3, 5, 10]
  const Ints7: seq<int> := [1, 3, 10, 15, 23, 4, 45]

  /** `Vec<u8>` of 1, 2, 3, 5, 10, and vectors of every integer type of
      1, 3, 10, 15, 23, 4, 45. */
  lemma VecSegments()
    ensures WriteCheckReadHolds(VecField(U8), IntVector(Bytes5), 8)
    ensures forall w: IntWidth, signed: bool :: WriteCheckReadHolds(VecField(IntField(w, signed)), IntVector(Ints7), 8)
  {
    IntVectorRoundTrip(W8, false, Bytes5);
    forall w: IntWidth, signed: bool
      ensures WriteCheckReadHolds(VecField(IntField(w, signed)), IntVector(Ints7), 8)
    {
      IntVectorRoundTrip(w, signed, Ints7);
    }
  }

  /** Any string round-trips in a segment. */
  lemma StrRoundTrip(s: string)
    requires |s| <= 0x1000_0000
    ensures WriteCheckReadHolds(StrField, Text(s), 8)
  {
    Codec.WriteFieldCorrect(Zeros(8), StrField, Text(s), 0);
  }

  /** A string with Cyrillic letters, two bytes each in UTF-8. */
  const Mixed: string := "test юникодной строчки efw_adqq ss/adfq"

  lemma StrSegment()
    ensures WriteCheckReadHolds(StrField, Text(Mixed), 8)
  {
    StrRoundTrip(Mixed);
  }

  /** A 6-byte slice written into an 8-byte slot of a buffer of `255`s:
      the buffer grows by exactly the 6 bytes, and the check and the read
      give them back. */
  lemma ByteArray()
    ensures var out := WriteField(seq(8, _ => 255), BytesField, Bytes([2, 5, 2, 3, 56, 3]), 0);
            |out| == 8 + 6 &&
            CheckField(out, BytesField, 0, 8, 8) == Ok(|out|) &&
            DecodeField(out, BytesField, 0) == Bytes([2, 5, 2, 3, 56, 3])
  {
    Codec.WriteFieldCorrect(seq(8, _ => 255), BytesField, Bytes([2, 5, 2, 3, 56, 3]), 0);
  }

  /** 64 bytes of `255`, and three slices of lengths 3, 2 and 6. */
  const Filled64: seq<Byte> := seq(64, _ => 255)
  const Arrays: Value := List([Bytes([1, 2, 3]), Bytes([1, 3]), Bytes([2, 5, 2, 3, 56, 3])])

  /** The three slices as a vector in the slot `[48, 56)` of `Filled64`:
      the buffer grows by one 8-byte slot per slice and the bytes of the
      slices, and the vector reads back in order. */
  lemma SegmentsOfArrays()
    ensures Typed(VecField(BytesField), Arrays)
    ensures var out := WriteField(Filled64, VecField(BytesField), Arrays, 48);
            |out| == 64 + 3 + 2 + 6 + 3 * 8 &&
            CheckField(out, VecField(BytesField), 48, 56, 64) == Ok(|out|) &&
            DecodeField(out, VecField(BytesField), 48) == Arrays
  {
    var t := VecField(BytesField);
    assert SlotsBody(t, Arrays.items, 2) == 6;
    assert SlotsBody(t, Arrays.items, 0) == 11;
    assert Times(3, 8) == 24;
    Codec.WriteFieldCorrect(Filled64, t, Arrays, 48);
  }

  /** `vec![255u8; 1]`, and three copies of it as a `Vec<Vec<u8>>`. */
  const OneByte: Value := IntVector([255])
  const RawBuffers: Value := List([OneByte, OneByte, OneByte])

  lemma RawBuffersSegment()
    ensures WriteCheckReadHolds(VecField(VecField(U8)), RawBuffers, 8)
  {
    var t := VecField(VecField(U8));
    Pow256Values();
    assert Typed(VecField(U8), OneByte);
    FixedItemsBody(VecField(U8), OneByte.items, 0);
    assert BodyLen(VecField(U8), OneByte) == 1;
    assert SlotsBody(t, RawBuffers.items, 2) == 1;
    assert SlotsBody(t, RawBuffers.items, 0) == 3;
    Codec.WriteFieldCorrect(Zeros(8), t, RawBuffers, 0);
  }

  /** An empty `Vec<Vec<u8>>`. */
  lemma EmptySegments()
    ensures WriteCheckReadHolds(VecField(VecField(U8)), List([]), 8)
  {
    Codec.WriteFieldCorrect(Zeros(8), VecField(VecField(U8)), List([]), 0);
  }

  /** A vector of three `Status` messages. */
  lemma StatusSegments(h1: Hash, h2: Hash, h3: Hash)
    ensures var v := List([Record(StatusValues(Status(2, h1))), Record(StatusValues(Status(4, h2))),
                           Record(StatusValues(Status(5, h3)))]);
            WriteCheckReadHolds(VecField(StructField(StatusSchema)), v, 8)
  {
    var t := VecField(StructField(StatusSchema));
    var v := List([Record(StatusValues(Status(2, h1))), Record(StatusValues(Status(4, h2))),
                   Record(StatusValues(Status(5, h3)))]);
    StatusShape(Status(2, h1));
    StatusShape(Status(4, h2));
    StatusShape(Status(5, h3));
    assert SlotsBody(t, v.items, 2) == 40;
    assert SlotsBody(t, v.items, 0) == 120;
    assert Times(3, 8) == 24;
    assert SlotsTyped(t, v.items);
    Codec.WriteFieldCorrect(Zeros(8), t, v, 0);
  }

  /** A structured message of at most three integer fields, each zero:
      its header is its whole body, and it passes the check. */
  lemma {:induction false} ZeroStruct(fs: seq<FieldType>, zeros: seq<Value>)
    requires |fs| <= 3 && forall j :: 0 <= j < |fs| ==> fs[j].IntField?
    requires |zeros| == |fs| && forall j :: 0 <= j < |zeros| ==> zeros[j] == Int(0)
    ensures Typed(StructField(fs), Record(zeros)) &&
            CheckStruct(Serialize(fs, zeros), fs) == Ok(HeaderSize(fs))
  {
    var t := StructField(fs);
    Pow256Values();
    SignedBounds();
    assert Typed(t, Record(zeros));
    FixedItemsBody(t, zeros, 0);
    assert HeaderSize(fs) <= 24 by {
      StructSlotsBound(fs, 0);
    }
    Codec.SerializeCorrect(fs, zeros);
  }

  lemma {:induction false} StructSlotsBound(fs: seq<FieldType>, k: nat)
    requires k <= |fs| && forall j :: 0 <= j < |fs| ==> fs[j].IntField?
    ensures SlotsSize(StructField(fs), |fs|, k) <= 8 * (|fs| - k)
    decreases |fs| - k
  {
    if k < |fs| {
      StructSlotsBound(fs, k + 1);
    }
  }

  /** Structured messages of zero to three fixed-width fields: the header
      of the empty one is empty, the others are 8 bytes, and each message
      built from zeros passes the check. */
  lemma EmptyStruct()
    ensures CheckStruct(Serialize([], []), []) == Ok(0)
  {
    ZeroStruct([], []);
  }

  lemma OneFieldStruct()
    ensures Typed(StructField([U64]), Record([Int(0)]))
    ensures CheckStruct(Serialize([U64], [Int(0)]), [U64]) == Ok(8)
  {
    ZeroStruct([U64], [Int(0)]);
    assert HeaderSize([U64]) == 8;
  }

  lemma TwoFieldStruct()
    ensures Typed(StructField([U32, U32]), Record([Int(0), Int(0)]))
    ensures CheckStruct(Serialize([U32, U32], [Int(0), Int(0)]), [U32, U32]) == Ok(8)
  {
    ZeroStruct([U32, U32], [Int(0), Int(0)]);
    assert HeaderSize([U32, U32]) == 8;
  }

  lemma ThreeFieldStruct()
    ensures Typed(StructField([U16, U16, U32]), Record([Int(0), Int(0), Int(0)]))
    ensures CheckStruct(Serialize([U16, U16, U32], [Int(0), Int(0), Int(0)]), [U16, U16, U32]) == Ok(8)
  {
    ZeroStruct([U16, U16, U32], [Int(0), Int(0), Int(0)]);
    assert HeaderSize([U16, U16, U32]) == 8;
  }

  // ------------------------------------------------------- messages

  /** A `Propose` with a repeated transaction hash: every accessor returns
      what it was built from, the repetition and the order included. */
  lemma ProposeAccessors(prevHash: Hash, h1: Hash, h2: Hash)
    ensures var raw := NewPropose(Propose(65_123, 123_123_123, 321_321_312, prevHash, [h1, h2, h2]));
            ProposeValidator(raw) == 65_123 && ProposeHeight(raw) == 123_123_123 &&
            ProposeRound(raw) == 321_321_312 && ProposePrevHash(raw) == prevHash &&
            |ProposeTransactions(raw)| == 3 && ProposeTransactions(raw)[0] == h1 &&
            ProposeTransactions(raw)[1] == h2 && ProposeTransactions(raw)[2] == h2
  {
    assert Times(3, HASH_SIZE) == 96;
    ProposeFidelity(Propose(65_123, 123_123_123, 321_321_312, prevHash, [h1, h2, h2]));
  }

  /** A response carrying a block of height 200 and no precommits or
      transactions. */
  lemma EmptyBlock(to: PublicKey, h1: Hash, h2: Hash, h3: Hash)
    ensures var content := Block(0, 200, 1, h1, h2, h3);
            var raw := NewBlockResponse(BlockResponse(to, content, [], []));
            BlockResponseTo(raw) == to && BlockResponseBlock(raw) == content &&
            BlockResponsePrecommits(raw) == [] && BlockResponseTransactions(raw) == []
  {
    BlockResponseFidelity(BlockResponse(to, Block(0, 200, 1, h1, h2, h3), [], []));
  }
}
