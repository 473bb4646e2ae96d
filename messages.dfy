/** The consensus messages as structured messages: each has a fixed schema,
    `new` serializes its fields in declaration order, and each accessor
    reads one field from the slot at its fixed offset in the raw bytes. The
    accessors return exactly what the message was built from. A signed
    envelope carries the author and a signature over the raw bytes; the
    signature scheme is a parameter. */
module Messages {
  import opened Wrappers
  import opened LittleEndian
  import opened Offsets
  import opened Fields
  import Codec
  import Durations
  import Utf8

  const HASH_SIZE: nat := 32
  const PUBLIC_KEY_SIZE: nat := 32

  type Hash = s: seq<Byte> | |s| == HASH_SIZE witness Zeros(HASH_SIZE)
  type PublicKey = s: seq<Byte> | |s| == PUBLIC_KEY_SIZE witness Zeros(PUBLIC_KEY_SIZE)
  type Uint16 = x: nat | x < 0x1_0000
  type Uint32 = x: nat | x < 0x1_0000_0000
  type Uint64 = x: nat | x < 0x1_0000_0000_0000_0000
  type ValidatorId = Uint16
  type Height = Uint64
  type Round = Uint32
  /** A timestamp, as the nanoseconds since the Unix epoch, stored like a
      duration. */
  type Time = x: int | Durations.InRange(x)

  const U16: FieldType := IntField(W16, false)
  const U32: FieldType := IntField(W32, false)
  const U64: FieldType := IntField(W64, false)
  const HashField: FieldType := BlobField(HASH_SIZE)
  const KeyField: FieldType := BlobField(PUBLIC_KEY_SIZE)

  // ------------------------------------------------------------ schemas

  const ConnectSchema: seq<FieldType> := [StrField, DurationField, StrField]
  const ProposeSchema: seq<FieldType> := [U16, U64, U32, HashField, VecField(HashField)]
  const PrevoteSchema: seq<FieldType> := [U16, U64, U32, HashField, U32]
  const PrecommitSchema: seq<FieldType> := [U16, U64, U32, HashField, HashField, DurationField]
  const StatusSchema: seq<FieldType> := [U64, HashField]
  const BlockRequestSchema: seq<FieldType> := [KeyField, U64]
  const BlockSchema: seq<FieldType> := [U16, U64, U32, HashField, HashField, HashField]
  const BlockResponseSchema: seq<FieldType> :=
    [KeyField, StructField(BlockSchema), VecField(StructField(PrecommitSchema)), VecField(HashField)]

  // ------------------------------------------------------ field access

  /** The offset of the slot of field `k`: the widths of the slots before
      it. */
  function SlotOffset(fs: seq<FieldType>, k: nat): nat
    requires k <= |fs|
  {
    SlotsSize(StructField(fs), k, 0)
  }

  /** The slot of field `k + 1` follows the slot of field `k`. */
  lemma SlotOffsetNext(fs: seq<FieldType>, k: nat)
    requires k < |fs|
    ensures SlotOffset(fs, k + 1) == SlotOffset(fs, k) + Size(fs[k])
  {
    SlotsSizeGrow(fs, k, 0);
  }

  lemma {:induction false} SlotsSizeGrow(fs: seq<FieldType>, k: nat, i: nat)
    requires i <= k < |fs|
    ensures SlotsSize(StructField(fs), k + 1, i) == SlotsSize(StructField(fs), k, i) + Size(fs[k])
    decreases k - i
  {
    if i < k {
      SlotsSizeGrow(fs, k, i + 1);
    }
  }

  /** Decoding slots `k` .. reads each slot at the offset the slots before
      it give. */
  lemma {:induction false} DecodeSlotsAt(buf: seq<Byte>, parent: FieldType, count: nat, k: nat, off: nat, j: nat)
    requires FitsSlots(parent, count) && k <= j < count
    ensures |DecodeSlots(buf, parent, count, k, off)| == count - k
    ensures DecodeSlots(buf, parent, count, k, off)[j - k] == DecodeField(buf, SlotType(parent, j), off + SlotsSize(parent, j, k))
    decreases count - k
  {
    if j > k {
      var t := SlotType(parent, k);
      var rest := DecodeSlots(buf, parent, count, k + 1, off + Size(t));
      assert DecodeSlots(buf, parent, count, k, off) == [DecodeField(buf, t, off)] + rest;
      assert SlotsSize(parent, j, k) == Size(t) + SlotsSize(parent, j, k + 1);
      DecodeSlotsAt(buf, parent, count, k + 1, off + Size(t), j);
      assert ([DecodeField(buf, t, off)] + rest)[j - k] == rest[j - (k + 1)];
    } else {
      DecodeSlotsLength(buf, parent, count, k, off);
      assert SlotsSize(parent, j, k) == 0;
    }
  }

  lemma {:induction false} DecodeSlotsLength(buf: seq<Byte>, parent: FieldType, count: nat, k: nat, off: nat)
    requires FitsSlots(parent, count) && k <= count
    ensures |DecodeSlots(buf, parent, count, k, off)| == count - k
    decreases count - k
  {
    if k < count {
      DecodeSlotsLength(buf, parent, count, k + 1, off + Size(SlotType(parent, k)));
    }
  }

  /** Canonical bytes: two messages of one schema with the same raw bytes
      have the same fields. */
  lemma SerializeInjective(fs: seq<FieldType>, a: seq<Value>, b: seq<Value>)
    requires Encodable(fs, a) && Encodable(fs, b)
    requires Serialize(fs, a) == Serialize(fs, b)
    ensures a == b
  {
    Codec.SerializeCorrect(fs, a);
    Codec.SerializeCorrect(fs, b);
  }

  /** A message's fields fit its header and bodies in `u32` offsets. */
  predicate Encodable(fs: seq<FieldType>, vals: seq<Value>) {
    Typed(StructField(fs), Record(vals)) && BodyLen(StructField(fs), Record(vals)) <= U32_MAX
  }

  /** Accessor fidelity of any structured message: the slot of field `k`
      of the serialized fields reads back as field `k`, and the bytes pass
      the check. */
  lemma FieldOfSerialized(fs: seq<FieldType>, vals: seq<Value>, k: nat)
    requires Encodable(fs, vals) && k < |fs|
    ensures CheckStruct(Serialize(fs, vals), fs) == Ok(|Serialize(fs, vals)|)
    ensures DecodeField(Serialize(fs, vals), fs[k], SlotOffset(fs, k)) == vals[k]
  {
    Codec.SerializeCorrect(fs, vals);
    StructSlot(Serialize(fs, vals), fs, k);
  }

  // ------------------------------------------------------- conversions

  /** The value an integer slot reads back as, in the range of its type;
      `check` has already ruled anything else out. */
  function AsU16(v: Value): Uint16 { if v.Int? && 0 <= v.n < 0x1_0000 then v.n else 0 }
  function AsU32(v: Value): Uint32 { if v.Int? && 0 <= v.n < 0x1_0000_0000 then v.n else 0 }
  function AsU64(v: Value): Uint64 { if v.Int? && 0 <= v.n < 0x1_0000_0000_0000_0000 then v.n else 0 }
  function AsTime(v: Value): Time { if v.Span? && Durations.InRange(v.nanos) then v.nanos else 0 }
  function AsHash(v: Value): Hash { if v.Blob? && |v.blob| == HASH_SIZE then v.blob else Zeros(HASH_SIZE) }
  function AsKey(v: Value): PublicKey { if v.Blob? && |v.blob| == PUBLIC_KEY_SIZE then v.blob else Zeros(PUBLIC_KEY_SIZE) }
  function AsText(v: Value): string { if v.Text? then v.text else [] }

  /** A `&[Hash]` field: a vector of 32-byte slots. */
  function HashList(hs: seq<Hash>): (v: Value)
    ensures Typed(VecField(HashField), v) && v.List? && |v.items| == |hs|
  {
    var v := List(seq(|hs|, i requires 0 <= i < |hs| => Blob(hs[i])));
    assert forall k :: 0 <= k < |hs| ==> Typed(HashField, v.items[k]);
    v
  }

  function AsHashes(v: Value): seq<Hash> {
    if v.List? then seq(|v.items|, i requires 0 <= i < |v.items| => AsHash(v.items[i])) else []
  }

  lemma HashListRoundTrip(hs: seq<Hash>)
    ensures AsHashes(HashList(hs)) == hs
  {
    var v := HashList(hs);
    assert forall i :: 0 <= i < |hs| ==> AsHash(v.items[i]) == hs[i];
  }

  /** The bodies of a vector of hashes are its slots: nothing follows them. */
  lemma {:induction false} HashListBody(hs: seq<Hash>, k: nat)
    requires k <= |hs|
    ensures SlotsBody(VecField(HashField), HashList(hs).items, k) == 0
    decreases |hs| - k
  {
    if k < |hs| {
      HashListBody(hs, k + 1);
    }
  }

  lemma HashListSize(hs: seq<Hash>)
    ensures BodyLen(VecField(HashField), HashList(hs)) == Times(|hs|, HASH_SIZE)
  {
    HashListBody(hs, 0);
  }

  // ------------------------------------------------- reading one field

  /** A `u16` field: the two bytes of its slot, little-endian. */
  function U16At(raw: seq<Byte>, off: nat): (x: Uint16)
    ensures off + 2 <= |raw| ==> x == LeValue(raw[off..off + 2])
  {
    Pow256Values();
    AsU16(DecodeField(raw, U16, off))
  }

  /** A `u32` field: the four bytes of its slot, little-endian. */
  function U32At(raw: seq<Byte>, off: nat): (x: Uint32)
    ensures off + 4 <= |raw| ==> x == LeValue(raw[off..off + 4])
  {
    Pow256Values();
    AsU32(DecodeField(raw, U32, off))
  }

  /** A `u64` field: the eight bytes of its slot, little-endian. */
  function U64At(raw: seq<Byte>, off: nat): (x: Uint64)
    ensures off + 8 <= |raw| ==> x == LeValue(raw[off..off + 8])
  {
    Pow256Values();
    AsU64(DecodeField(raw, U64, off))
  }

  /** A `&Hash` field: the 32 bytes of its slot. */
  function HashAt(raw: seq<Byte>, off: nat): (h: Hash)
    ensures off + HASH_SIZE <= |raw| ==> h == raw[off..off + HASH_SIZE]
  {
    AsHash(DecodeField(raw, HashField, off))
  }

  /** A `&PublicKey` field: the 32 bytes of its slot. */
  function KeyAt(raw: seq<Byte>, off: nat): (k: PublicKey)
    ensures off + PUBLIC_KEY_SIZE <= |raw| ==> k == raw[off..off + PUBLIC_KEY_SIZE]
  {
    AsKey(DecodeField(raw, KeyField, off))
  }

  /** A time field: the duration its 12-byte slot holds, when the slot
      passes the duration check. */
  function TimeAt(raw: seq<Byte>, off: nat): (t: Time)
    ensures off + Durations.SLOT_SIZE <= |raw| && Durations.CheckSlot(raw[off..off + Durations.SLOT_SIZE]).Ok? ==>
              t == Durations.CheckSlot(raw[off..off + Durations.SLOT_SIZE]).value
  {
    AsTime(DecodeField(raw, DurationField, off))
  }

  /** A field that decodes to a value reads back as that value. */
  lemma U16Back(raw: seq<Byte>, off: nat, x: Uint16)
    requires DecodeField(raw, U16, off) == Int(x)
    ensures U16At(raw, off) == x
  {
  }

  lemma U32Back(raw: seq<Byte>, off: nat, x: Uint32)
    requires DecodeField(raw, U32, off) == Int(x)
    ensures U32At(raw, off) == x
  {
  }

  lemma U64Back(raw: seq<Byte>, off: nat, x: Uint64)
    requires DecodeField(raw, U64, off) == Int(x)
    ensures U64At(raw, off) == x
  {
  }

  lemma HashBack(raw: seq<Byte>, off: nat, h: Hash)
    requires DecodeField(raw, HashField, off) == Blob(h)
    ensures HashAt(raw, off) == h
  {
  }

  lemma TimeBack(raw: seq<Byte>, off: nat, t: Time)
    requires DecodeField(raw, DurationField, off) == Span(t)
    ensures TimeAt(raw, off) == t
  {
  }

  /** Whether the slot at `off` lies in `raw` and the segment it points
      at, of `count` items of `size` bytes, does too. */
  predicate SegmentIn(raw: seq<Byte>, off: nat, size: nat) {
    off + 8 <= |raw| && ReadOffset(raw, off) + ReadOffset(raw, off + 4) * size <= |raw|
  }

  /** The pointer of the segment slot at `off`. */
  function SegmentStart(raw: seq<Byte>, off: nat): nat
    requires off + 8 <= |raw|
  {
    ReadOffset(raw, off)
  }

  /** The count of the segment slot at `off`. */
  function SegmentCount(raw: seq<Byte>, off: nat): nat
    requires off + 8 <= |raw|
  {
    ReadOffset(raw, off + 4)
  }

  /** The bytes of a segment of single bytes. */
  function SegmentBytes(raw: seq<Byte>, off: nat): seq<Byte>
    requires SegmentIn(raw, off, 1)
  {
    raw[SegmentStart(raw, off)..SegmentStart(raw, off) + SegmentCount(raw, off)]
  }

  /** A `&str` field: the text the bytes of its segment decode to. */
  function TextAt(raw: seq<Byte>, off: nat): (s: string)
    ensures SegmentIn(raw, off, 1) ==> s == Utf8.Decode(SegmentBytes(raw, off))
  {
    if SegmentIn(raw, off, 1) then
      TextLayout(raw, off);
      AsText(DecodeField(raw, StrField, off))
    else
      AsText(DecodeField(raw, StrField, off))
  }

  lemma TextLayout(raw: seq<Byte>, off: nat)
    requires SegmentIn(raw, off, 1)
    ensures AsText(DecodeField(raw, StrField, off)) == Utf8.Decode(SegmentBytes(raw, off))
  {
    var pos: nat, count: nat := ReadOffset(raw, off), ReadOffset(raw, off + 4);
    assert Size(StrField) == 8 && IsSegment(StrField);
    assert DecodeField(raw, StrField, off) == DecodeBody(raw, StrField, pos, count);
    TextBody(raw, pos, count);
    assert SegmentBytes(raw, off) == raw[pos..pos + count];
  }

  lemma TextBody(raw: seq<Byte>, pos: nat, count: nat)
    requires pos + count * 1 <= |raw|
    ensures pos + count <= |raw|
    ensures DecodeBody(raw, StrField, pos, count) == Text(Utf8.Decode(raw[pos..pos + count]))
  {
    TimesOne(count);
  }

  /** `hs` are the hashes of the segment slot at `off`: as many as its
      count, hash `i` being the `i`-th 32 bytes (`HASH_SIZE`) of the
      segment. */
  predicate HashesOf(raw: seq<Byte>, off: nat, hs: seq<Hash>)
    requires SegmentIn(raw, off, HASH_SIZE)
  {
    |hs| == SegmentCount(raw, off) &&
    forall i :: 0 <= i < |hs| ==>
      SegmentStart(raw, off) + 32 * i + 32 <= |raw| &&
      hs[i] == raw[SegmentStart(raw, off) + 32 * i..SegmentStart(raw, off) + 32 * i + 32]
  }

  /** A `&[Hash]` field: the hashes of its segment. */
  function HashesAt(raw: seq<Byte>, off: nat): (hs: seq<Hash>)
    ensures SegmentIn(raw, off, HASH_SIZE) ==> HashesOf(raw, off, hs)
  {
    if SegmentIn(raw, off, HASH_SIZE) then
      HashesLayout(raw, off);
      AsHashes(DecodeField(raw, VecField(HashField), off))
    else
      AsHashes(DecodeField(raw, VecField(HashField), off))
  }

  lemma HashesLayout(raw: seq<Byte>, off: nat)
    requires SegmentIn(raw, off, HASH_SIZE)
    ensures HashesOf(raw, off, AsHashes(DecodeField(raw, VecField(HashField), off)))
  {
    var pos, count := ReadOffset(raw, off), ReadOffset(raw, off + 4);
    TimesIsProduct(count, HASH_SIZE);
    var items := DecodeSlots(raw, VecField(HashField), count, 0, pos);
    assert DecodeField(raw, VecField(HashField), off) == List(items);
    DecodeSlotsLength(raw, VecField(HashField), count, 0, pos);
    forall i | 0 <= i < count
      ensures pos + 32 * i + 32 <= |raw| && AsHash(items[i]) == raw[pos + 32 * i..pos + 32 * i + 32]
    {
      HashItem(raw, pos, count, i);
    }
  }

  /** Hash `i` of a vector is read from the `i`-th 32-byte slot. */
  lemma HashItem(raw: seq<Byte>, pos: nat, count: nat, i: nat)
    requires i < count && pos + count * 32 <= |raw|
    ensures pos + 32 * i + 32 <= |raw|
    ensures |DecodeSlots(raw, VecField(HashField), count, 0, pos)| == count
    ensures AsHash(DecodeSlots(raw, VecField(HashField), count, 0, pos)[i]) == raw[pos + 32 * i..pos + 32 * i + 32]
  {
    DecodeSlotsAt(raw, VecField(HashField), count, 0, pos, i);
    VecSlotsSize(HashField, i, 0);
    TimesIsProduct(i, HASH_SIZE);
    var at := pos + 32 * i;
    assert DecodeSlots(raw, VecField(HashField), count, 0, pos)[i] == DecodeField(raw, HashField, at);
    assert DecodeField(raw, HashField, at) == DecodeFixed(raw[at..at + 32], HashField);
  }

  // ----------------------------------------------------------- Connect

  datatype Connect = Connect(address: string, time: Time, userAgent: string)

  function ConnectValues(c: Connect): seq<Value> {
    [Text(c.address), Span(c.time), Text(c.userAgent)]
  }

  /** The addresses and user agent fit a message of `u32` length. */
  predicate ConnectFits(c: Connect) {
    28 + |Utf8.Encode(c.address)| + |Utf8.Encode(c.userAgent)| <= U32_MAX
  }

  /** `Connect::new` */
  function NewConnect(c: Connect): (raw: seq<Byte>)
    ensures |raw| == 28 + |Utf8.Encode(c.address)| + |Utf8.Encode(c.userAgent)|
  {
    ConnectShape(c);
    Serialize(ConnectSchema, ConnectValues(c))
  }

  lemma ConnectShape(c: Connect)
    ensures Typed(StructField(ConnectSchema), Record(ConnectValues(c)))
    ensures SlotOffset(ConnectSchema, 1) == 8 && SlotOffset(ConnectSchema, 2) == 20
    ensures BodyLen(StructField(ConnectSchema), Record(ConnectValues(c)))
            == 28 + |Utf8.Encode(c.address)| + |Utf8.Encode(c.userAgent)|
  {
    var vals := ConnectValues(c);
    assert SlotsBody(StructField(ConnectSchema), vals, 2) == |Utf8.Encode(c.userAgent)|;
    assert SlotsBody(StructField(ConnectSchema), vals, 1) == |Utf8.Encode(c.userAgent)|;
    assert SlotsBody(StructField(ConnectSchema), vals, 0) == |Utf8.Encode(c.address)| + |Utf8.Encode(c.userAgent)|;
    SlotOffsetNext(ConnectSchema, 0);
    SlotOffsetNext(ConnectSchema, 1);
    SlotOffsetNext(ConnectSchema, 2);
  }

  /** `Connect::pub_addr` */
  function ConnectAddress(raw: seq<Byte>): (s: string)
    ensures SegmentIn(raw, 0, 1) ==> s == Utf8.Decode(SegmentBytes(raw, 0))
  {
    TextAt(raw, 0)
  }

  /** `Connect::time` */
  function ConnectTime(raw: seq<Byte>): (t: Time)
    ensures 20 <= |raw| && Durations.CheckSlot(raw[8..20]).Ok? ==>
              t == Durations.CheckSlot(raw[8..20]).value
  {
    TimeAt(raw, 8)
  }

  /** `Connect::user_agent` */
  function ConnectUserAgent(raw: seq<Byte>): (s: string)
    ensures SegmentIn(raw, 20, 1) ==> s == Utf8.Decode(SegmentBytes(raw, 20))
  {
    TextAt(raw, 20)
  }

  /** The accessors of a constructed `Connect` return its fields. */
  lemma ConnectFidelity(c: Connect)
    requires ConnectFits(c)
    ensures CheckStruct(NewConnect(c), ConnectSchema).Ok?
    ensures ConnectAddress(NewConnect(c)) == c.address
    ensures ConnectTime(NewConnect(c)) == c.time
    ensures ConnectUserAgent(NewConnect(c)) == c.userAgent
  {
    ConnectShape(c);
    FieldOfSerialized(ConnectSchema, ConnectValues(c), 0);
    FieldOfSerialized(ConnectSchema, ConnectValues(c), 1);
    FieldOfSerialized(ConnectSchema, ConnectValues(c), 2);
  }

  // ----------------------------------------------------------- Propose

  datatype Propose = Propose(validator: ValidatorId, height: Height, round: Round, prevHash: Hash, transactions: seq<Hash>)

  function ProposeValues(p: Propose): seq<Value> {
    [Int(p.validator), Int(p.height), Int(p.round), Blob(p.prevHash), HashList(p.transactions)]
  }

  /** The hashes fit a message of `u32` length. */
  predicate ProposeFits(p: Propose) {
    54 + Times(|p.transactions|, HASH_SIZE) <= U32_MAX
  }

  lemma ProposeShape(p: Propose)
    ensures Typed(StructField(ProposeSchema), Record(ProposeValues(p)))
    ensures SlotOffset(ProposeSchema, 1) == 2 && SlotOffset(ProposeSchema, 2) == 10
    ensures SlotOffset(ProposeSchema, 3) == 14 && SlotOffset(ProposeSchema, 4) == 46
    ensures BodyLen(StructField(ProposeSchema), Record(ProposeValues(p))) == 54 + Times(|p.transactions|, HASH_SIZE)
  {
    var vals := ProposeValues(p);
    HashListSize(p.transactions);
    assert SlotsBody(StructField(ProposeSchema), vals, 4) == Times(|p.transactions|, HASH_SIZE);
    assert SlotsBody(StructField(ProposeSchema), vals, 3) == Times(|p.transactions|, HASH_SIZE);
    assert SlotsBody(StructField(ProposeSchema), vals, 2) == Times(|p.transactions|, HASH_SIZE);
    assert SlotsBody(StructField(ProposeSchema), vals, 1) == Times(|p.transactions|, HASH_SIZE);
    assert SlotsBody(StructField(ProposeSchema), vals, 0) == Times(|p.transactions|, HASH_SIZE);
    SlotOffsetNext(ProposeSchema, 0);
    SlotOffsetNext(ProposeSchema, 1);
    SlotOffsetNext(ProposeSchema, 2);
    SlotOffsetNext(ProposeSchema, 3);
    SlotOffsetNext(ProposeSchema, 4);
  }

  /** `Propose::new` */
  function NewPropose(p: Propose): (raw: seq<Byte>)
    ensures |raw| == 54 + Times(|p.transactions|, HASH_SIZE)
  {
    ProposeShape(p);
    Serialize(ProposeSchema, ProposeValues(p))
  }

  /** `Propose::validator` */
  function ProposeValidator(raw: seq<Byte>): (x: ValidatorId)
    ensures 2 <= |raw| ==> x == LeValue(raw[0..2])
  {
    U16At(raw, 0)
  }

  /** `Propose::height` */
  function ProposeHeight(raw: seq<Byte>): (x: Height)
    ensures 10 <= |raw| ==> x == LeValue(raw[2..10])
  {
    U64At(raw, 2)
  }

  /** `Propose::round` */
  function ProposeRound(raw: seq<Byte>): (x: Round)
    ensures 14 <= |raw| ==> x == LeValue(raw[10..14])
  {
    U32At(raw, 10)
  }

  /** `Propose::prev_hash` */
  function ProposePrevHash(raw: seq<Byte>): (h: Hash)
    ensures 46 <= |raw| ==> h == raw[14..46]
  {
    HashAt(raw, 14)
  }

  /** `Propose::transactions` */
  function ProposeTransactions(raw: seq<Byte>): (hs: seq<Hash>)
    ensures SegmentIn(raw, 46, HASH_SIZE) ==> HashesOf(raw, 46, hs)
  {
    HashesAt(raw, 46)
  }

  /** The accessors of a constructed `Propose` return its fields, the
      transaction hashes in order and with repetitions. */
  lemma ProposeFidelity(p: Propose)
    requires ProposeFits(p)
    ensures CheckStruct(NewPropose(p), ProposeSchema).Ok?
    ensures ProposeValidator(NewPropose(p)) == p.validator
    ensures ProposeHeight(NewPropose(p)) == p.height
    ensures ProposeRound(NewPropose(p)) == p.round
    ensures ProposePrevHash(NewPropose(p)) == p.prevHash
    ensures ProposeTransactions(NewPropose(p)) == p.transactions
  {
    ProposeShape(p);
    var vals := ProposeValues(p);
    var raw := NewPropose(p);
    FieldOfSerialized(ProposeSchema, vals, 0);
    U16Back(raw, 0, p.validator);
    FieldOfSerialized(ProposeSchema, vals, 1);
    U64Back(raw, 2, p.height);
    FieldOfSerialized(ProposeSchema, vals, 2);
    U32Back(raw, 10, p.round);
    FieldOfSerialized(ProposeSchema, vals, 3);
    HashBack(raw, 14, p.prevHash);
    FieldOfSerialized(ProposeSchema, vals, 4);
    HashListRoundTrip(p.transactions);
  }

  // ----------------------------------------------------------- Prevote

  datatype Prevote = Prevote(validator: ValidatorId, height: Height, round: Round, proposeHash: Hash, lockedRound: Round)

  function PrevoteValues(p: Prevote): seq<Value> {
    [Int(p.validator), Int(p.height), Int(p.round), Blob(p.proposeHash), Int(p.lockedRound)]
  }

  lemma PrevoteShape(p: Prevote)
    ensures Typed(StructField(PrevoteSchema), Record(PrevoteValues(p)))
    ensures SlotOffset(PrevoteSchema, 1) == 2 && SlotOffset(PrevoteSchema, 2) == 10
    ensures SlotOffset(PrevoteSchema, 3) == 14 && SlotOffset(PrevoteSchema, 4) == 46
    ensures BodyLen(StructField(PrevoteSchema), Record(PrevoteValues(p))) == 50
  {
    var vals := PrevoteValues(p);
    assert SlotsBody(StructField(PrevoteSchema), vals, 4) == 0;
    assert SlotsBody(StructField(PrevoteSchema), vals, 3) == 0;
    assert SlotsBody(StructField(PrevoteSchema), vals, 2) == 0;
    assert SlotsBody(StructField(PrevoteSchema), vals, 1) == 0;
    assert SlotsBody(StructField(PrevoteSchema), vals, 0) == 0;
    SlotOffsetNext(PrevoteSchema, 0);
    SlotOffsetNext(PrevoteSchema, 1);
    SlotOffsetNext(PrevoteSchema, 2);
    SlotOffsetNext(PrevoteSchema, 3);
    SlotOffsetNext(PrevoteSchema, 4);
  }

  /** `Prevote::new` */
  function NewPrevote(p: Prevote): (raw: seq<Byte>)
    ensures |raw| == 50
  {
    PrevoteShape(p);
    Serialize(PrevoteSchema, PrevoteValues(p))
  }

  /** `Prevote::validator` */
  function PrevoteValidator(raw: seq<Byte>): (x: ValidatorId)
    ensures 2 <= |raw| ==> x == LeValue(raw[0..2])
  {
    U16At(raw, 0)
  }

  /** `Prevote::height` */
  function PrevoteHeight(raw: seq<Byte>): (x: Height)
    ensures 10 <= |raw| ==> x == LeValue(raw[2..10])
  {
    U64At(raw, 2)
  }

  /** `Prevote::round` */
  function PrevoteRound(raw: seq<Byte>): (x: Round)
    ensures 14 <= |raw| ==> x == LeValue(raw[10..14])
  {
    U32At(raw, 10)
  }

  /** `Prevote::propose_hash` */
  function PrevoteProposeHash(raw: seq<Byte>): (h: Hash)
    ensures 46 <= |raw| ==> h == raw[14..46]
  {
    HashAt(raw, 14)
  }

  /** `Prevote::locked_round` */
  function PrevoteLockedRound(raw: seq<Byte>): (x: Round)
    ensures 50 <= |raw| ==> x == LeValue(raw[46..50])
  {
    U32At(raw, 46)
  }

  lemma PrevoteFidelity(p: Prevote)
    ensures CheckStruct(NewPrevote(p), PrevoteSchema).Ok?
    ensures PrevoteValidator(NewPrevote(p)) == p.validator
    ensures PrevoteHeight(NewPrevote(p)) == p.height
    ensures PrevoteRound(NewPrevote(p)) == p.round
    ensures PrevoteProposeHash(NewPrevote(p)) == p.proposeHash
    ensures PrevoteLockedRound(NewPrevote(p)) == p.lockedRound
  {
    PrevoteShape(p);
    var vals := PrevoteValues(p);
    var raw := NewPrevote(p);
    FieldOfSerialized(PrevoteSchema, vals, 0);
    U16Back(raw, 0, p.validator);
    FieldOfSerialized(PrevoteSchema, vals, 1);
    U64Back(raw, 2, p.height);
    FieldOfSerialized(PrevoteSchema, vals, 2);
    U32Back(raw, 10, p.round);
    FieldOfSerialized(PrevoteSchema, vals, 3);
    HashBack(raw, 14, p.proposeHash);
    FieldOfSerialized(PrevoteSchema, vals, 4);
    U32Back(raw, 46, p.lockedRound);
  }

  // --------------------------------------------------------- Precommit

  datatype Precommit = Precommit(validator: ValidatorId, height: Height, round: Round,
                                 proposeHash: Hash, blockHash: Hash, time: Time)

  function PrecommitValues(p: Precommit): seq<Value> {
    [Int(p.validator), Int(p.height), Int(p.round), Blob(p.proposeHash), Blob(p.blockHash), Span(p.time)]
  }

  lemma PrecommitShape(p: Precommit)
    ensures Typed(StructField(PrecommitSchema), Record(PrecommitValues(p)))
    ensures SlotOffset(PrecommitSchema, 1) == 2 && SlotOffset(PrecommitSchema, 2) == 10
    ensures SlotOffset(PrecommitSchema, 3) == 14 && SlotOffset(PrecommitSchema, 4) == 46
    ensures SlotOffset(PrecommitSchema, 5) == 78
    ensures BodyLen(StructField(PrecommitSchema), Record(PrecommitValues(p))) == 90
  {
    var vals := PrecommitValues(p);
    assert SlotsBody(StructField(PrecommitSchema), vals, 5) == 0;
    assert SlotsBody(StructField(PrecommitSchema), vals, 4) == 0;
    assert SlotsBody(StructField(PrecommitSchema), vals, 3) == 0;
    assert SlotsBody(StructField(PrecommitSchema), vals, 2) == 0;
    assert SlotsBody(StructField(PrecommitSchema), vals, 1) == 0;
    assert SlotsBody(StructField(PrecommitSchema), vals, 0) == 0;
    SlotOffsetNext(PrecommitSchema, 0);
    SlotOffsetNext(PrecommitSchema, 1);
    SlotOffsetNext(PrecommitSchema, 2);
    SlotOffsetNext(PrecommitSchema, 3);
    SlotOffsetNext(PrecommitSchema, 4);
    SlotOffsetNext(PrecommitSchema, 5);
  }

  /** `Precommit::new` */
  function NewPrecommit(p: Precommit): (raw: seq<Byte>)
    ensures |raw| == 90
  {
    PrecommitShape(p);
    Serialize(PrecommitSchema, PrecommitValues(p))
  }

  /** `Precommit::validator` */
  function PrecommitValidator(raw: seq<Byte>): (x: ValidatorId)
    ensures 2 <= |raw| ==> x == LeValue(raw[0..2])
  {
    U16At(raw, 0)
  }

  /** `Precommit::height` */
  function PrecommitHeight(raw: seq<Byte>): (x: Height)
    ensures 10 <= |raw| ==> x == LeValue(raw[2..10])
  {
    U64At(raw, 2)
  }

  /** `Precommit::round` */
  function PrecommitRound(raw: seq<Byte>): (x: Round)
    ensures 14 <= |raw| ==> x == LeValue(raw[10..14])
  {
    U32At(raw, 10)
  }

  /** `Precommit::propose_hash` */
  function PrecommitProposeHash(raw: seq<Byte>): (h: Hash)
    ensures 46 <= |raw| ==> h == raw[14..46]
  {
    HashAt(raw, 14)
  }

  /** `Precommit::block_hash` */
  function PrecommitBlockHash(raw: seq<Byte>): (h: Hash)
    ensures 78 <= |raw| ==> h == raw[46..78]
  {
    HashAt(raw, 46)
  }

  /** `Precommit::time` */
  function PrecommitTime(raw: seq<Byte>): (t: Time)
    ensures 90 <= |raw| && Durations.CheckSlot(raw[78..90]).Ok? ==>
              t == Durations.CheckSlot(raw[78..90]).value
  {
    TimeAt(raw, 78)
  }

  lemma PrecommitFidelity(p: Precommit)
    ensures CheckStruct(NewPrecommit(p), PrecommitSchema).Ok?
    ensures PrecommitValidator(NewPrecommit(p)) == p.validator
    ensures PrecommitHeight(NewPrecommit(p)) == p.height
    ensures PrecommitRound(NewPrecommit(p)) == p.round
    ensures PrecommitProposeHash(NewPrecommit(p)) == p.proposeHash
    ensures PrecommitBlockHash(NewPrecommit(p)) == p.blockHash
    ensures PrecommitTime(NewPrecommit(p)) == p.time
  {
    PrecommitShape(p);
    var vals := PrecommitValues(p);
    var raw := NewPrecommit(p);
    FieldOfSerialized(PrecommitSchema, vals, 0);
    U16Back(raw, 0, p.validator);
    FieldOfSerialized(PrecommitSchema, vals, 1);
    U64Back(raw, 2, p.height);
    FieldOfSerialized(PrecommitSchema, vals, 2);
    U32Back(raw, 10, p.round);
    FieldOfSerialized(PrecommitSchema, vals, 3);
    HashBack(raw, 14, p.proposeHash);
    FieldOfSerialized(PrecommitSchema, vals, 4);
    HashBack(raw, 46, p.blockHash);
    FieldOfSerialized(PrecommitSchema, vals, 5);
    TimeBack(raw, 78, p.time);
  }

  // ------------------------------------------------------------ Status

  datatype Status = Status(height: Height, lastHash: Hash)

  function StatusValues(s: Status): seq<Value> {
    [Int(s.height), Blob(s.lastHash)]
  }

  lemma StatusShape(s: Status)
    ensures Typed(StructField(StatusSchema), Record(StatusValues(s)))
    ensures SlotOffset(StatusSchema, 1) == 8
    ensures BodyLen(StructField(StatusSchema), Record(StatusValues(s))) == 40
  {
    var vals := StatusValues(s);
    assert SlotsBody(StructField(StatusSchema), vals, 1) == 0;
    assert SlotsBody(StructField(StatusSchema), vals, 0) == 0;
    SlotOffsetNext(StatusSchema, 0);
    SlotOffsetNext(StatusSchema, 1);
  }

  /** `Status::new` */
  function NewStatus(s: Status): (raw: seq<Byte>)
    ensures |raw| == 40
  {
    StatusShape(s);
    Serialize(StatusSchema, StatusValues(s))
  }

  /** `Status::height` */
  function StatusHeight(raw: seq<Byte>): (x: Height)
    ensures 8 <= |raw| ==> x == LeValue(raw[0..8])
  {
    U64At(raw, 0)
  }

  /** `Status::last_hash` */
  function StatusLastHash(raw: seq<Byte>): (h: Hash)
    ensures 40 <= |raw| ==> h == raw[8..40]
  {
    HashAt(raw, 8)
  }

  lemma StatusFidelity(s: Status)
    ensures CheckStruct(NewStatus(s), StatusSchema).Ok?
    ensures StatusHeight(NewStatus(s)) == s.height
    ensures StatusLastHash(NewStatus(s)) == s.lastHash
  {
    StatusShape(s);
    FieldOfSerialized(StatusSchema, StatusValues(s), 0);
    FieldOfSerialized(StatusSchema, StatusValues(s), 1);
  }

  // ------------------------------------------------------ BlockRequest

  datatype BlockRequest = BlockRequest(to: PublicKey, height: Height)

  function BlockRequestValues(r: BlockRequest): seq<Value> {
    [Blob(r.to), Int(r.height)]
  }

  lemma BlockRequestShape(r: BlockRequest)
    ensures Typed(StructField(BlockRequestSchema), Record(BlockRequestValues(r)))
    ensures SlotOffset(BlockRequestSchema, 1) == 32
    ensures BodyLen(StructField(BlockRequestSchema), Record(BlockRequestValues(r))) == 40
  {
    var vals := BlockRequestValues(r);
    assert SlotsBody(StructField(BlockRequestSchema), vals, 1) == 0;
    assert SlotsBody(StructField(BlockRequestSchema), vals, 0) == 0;
    SlotOffsetNext(BlockRequestSchema, 0);
    SlotOffsetNext(BlockRequestSchema, 1);
  }

  /** `BlockRequest::new` */
  function NewBlockRequest(r: BlockRequest): (raw: seq<Byte>)
    ensures |raw| == 40
  {
    BlockRequestShape(r);
    Serialize(BlockRequestSchema, BlockRequestValues(r))
  }

  /** `BlockRequest::to` */
  function BlockRequestTo(raw: seq<Byte>): (k: PublicKey)
    ensures 32 <= |raw| ==> k == raw[0..32]
  {
    KeyAt(raw, 0)
  }

  /** `BlockRequest::height` */
  function BlockRequestHeight(raw: seq<Byte>): (x: Height)
    ensures 40 <= |raw| ==> x == LeValue(raw[32..40])
  {
    U64At(raw, 32)
  }

  lemma BlockRequestFidelity(r: BlockRequest)
    ensures CheckStruct(NewBlockRequest(r), BlockRequestSchema).Ok?
    ensures BlockRequestTo(NewBlockRequest(r)) == r.to
    ensures BlockRequestHeight(NewBlockRequest(r)) == r.height
  {
    BlockRequestShape(r);
    FieldOfSerialized(BlockRequestSchema, BlockRequestValues(r), 0);
    FieldOfSerialized(BlockRequestSchema, BlockRequestValues(r), 1);
  }

  // ------------------------------------------------------------- Block

  datatype Block = Block(proposerId: ValidatorId, height: Height, txCount: Uint32,
                         prevHash: Hash, txHash: Hash, stateHash: Hash)

  function BlockValues(b: Block): seq<Value> {
    [Int(b.proposerId), Int(b.height), Int(b.txCount), Blob(b.prevHash), Blob(b.txHash), Blob(b.stateHash)]
  }

  /** The block a nested-message field reads back as. */
  function AsBlock(v: Value): Block {
    if v.Record? && |v.values| == 6 then
      Block(AsU16(v.values[0]), AsU64(v.values[1]), AsU32(v.values[2]),
            AsHash(v.values[3]), AsHash(v.values[4]), AsHash(v.values[5]))
    else Block(0, 0, 0, Zeros(HASH_SIZE), Zeros(HASH_SIZE), Zeros(HASH_SIZE))
  }

  lemma BlockShape(b: Block)
    ensures Typed(StructField(BlockSchema), Record(BlockValues(b)))
    ensures BodyLen(StructField(BlockSchema), Record(BlockValues(b))) == 110
    ensures AsBlock(Record(BlockValues(b))) == b
  {
    var vals := BlockValues(b);
    assert SlotsBody(StructField(BlockSchema), vals, 5) == 0;
    assert SlotsBody(StructField(BlockSchema), vals, 4) == 0;
    assert SlotsBody(StructField(BlockSchema), vals, 3) == 0;
    assert SlotsBody(StructField(BlockSchema), vals, 2) == 0;
    assert SlotsBody(StructField(BlockSchema), vals, 1) == 0;
    assert SlotsBody(StructField(BlockSchema), vals, 0) == 0;
    SlotOffsetNext(BlockSchema, 0);
    SlotOffsetNext(BlockSchema, 1);
    SlotOffsetNext(BlockSchema, 2);
    SlotOffsetNext(BlockSchema, 3);
    SlotOffsetNext(BlockSchema, 4);
    SlotOffsetNext(BlockSchema, 5);
  }

  /** The offsets of the slots of a block's header. */
  lemma BlockOffsets()
    ensures SlotOffset(BlockSchema, 0) == 0 && SlotOffset(BlockSchema, 1) == 2
    ensures SlotOffset(BlockSchema, 2) == 10 && SlotOffset(BlockSchema, 3) == 14
    ensures SlotOffset(BlockSchema, 4) == 46 && SlotOffset(BlockSchema, 5) == 78
  {
    SlotOffsetNext(BlockSchema, 0);
    SlotOffsetNext(BlockSchema, 1);
    SlotOffsetNext(BlockSchema, 2);
    SlotOffsetNext(BlockSchema, 3);
    SlotOffsetNext(BlockSchema, 4);
  }

  /** A block read from its own bytes: each field from its slot in the
      block's 110-byte header, offsets counted from the block's start. */
  function BlockOf(body: seq<Byte>): (b: Block)
    ensures 110 <= |body| ==>
              b.proposerId == LeValue(body[0..2]) && b.height == LeValue(body[2..10]) &&
              b.txCount == LeValue(body[10..14]) && b.prevHash == body[14..46] &&
              b.txHash == body[46..78] && b.stateHash == body[78..110]
  {
    if 110 <= |body| then
      BlockLayout(body);
      AsBlock(Record(DecodeStruct(body, BlockSchema)))
    else
      AsBlock(Record(DecodeStruct(body, BlockSchema)))
  }

  /** Field `j` of a nested message is read from its slot in the
      message's own header. */
  lemma StructSlot(body: seq<Byte>, fs: seq<FieldType>, j: nat)
    requires j < |fs|
    ensures |DecodeStruct(body, fs)| == |fs|
    ensures DecodeStruct(body, fs)[j] == DecodeField(body, fs[j], SlotOffset(fs, j))
  {
    DecodeSlotsAt(body, StructField(fs), |fs|, 0, 0, j);
  }

  lemma BlockLayout(body: seq<Byte>)
    requires 110 <= |body|
    ensures var b := AsBlock(Record(DecodeStruct(body, BlockSchema)));
            b.proposerId == LeValue(body[0..2]) && b.height == LeValue(body[2..10]) &&
            b.txCount == LeValue(body[10..14]) && b.prevHash == body[14..46] &&
            b.txHash == body[46..78] && b.stateHash == body[78..110]
  {
    var vals := DecodeStruct(body, BlockSchema);
    BlockOffsets();
    StructSlot(body, BlockSchema, 0);
    StructSlot(body, BlockSchema, 1);
    StructSlot(body, BlockSchema, 2);
    StructSlot(body, BlockSchema, 3);
    StructSlot(body, BlockSchema, 4);
    StructSlot(body, BlockSchema, 5);
    assert AsU16(vals[0]) == U16At(body, 0);
    assert AsU64(vals[1]) == U64At(body, 2);
    assert AsU32(vals[2]) == U32At(body, 10);
    assert AsHash(vals[3]) == HashAt(body, 14);
    assert AsHash(vals[4]) == HashAt(body, 46);
    assert AsHash(vals[5]) == HashAt(body, 78);
  }

  /** A nested `Block` field: the block its segment's bytes hold, read
      from those bytes alone. */
  function BlockAt(raw: seq<Byte>, off: nat): (b: Block)
    ensures SegmentIn(raw, off, 1) ==> b == BlockOf(SegmentBytes(raw, off))
  {
    if SegmentIn(raw, off, 1) then
      var pos: nat, count: nat := ReadOffset(raw, off), ReadOffset(raw, off + 4);
      assert Size(StructField(BlockSchema)) == 8 && IsSegment(StructField(BlockSchema));
      assert DecodeField(raw, StructField(BlockSchema), off) == DecodeBody(raw, StructField(BlockSchema), pos, count);
      StructBody(raw, BlockSchema, pos, count);
      AsBlock(DecodeField(raw, StructField(BlockSchema), off))
    else
      AsBlock(DecodeField(raw, StructField(BlockSchema), off))
  }

  /** A nested message is decoded from the bytes of its segment. */
  lemma StructBody(raw: seq<Byte>, fs: seq<FieldType>, pos: nat, count: nat)
    requires pos + count * 1 <= |raw|
    ensures pos + count <= |raw|
    ensures DecodeBody(raw, StructField(fs), pos, count) == Record(DecodeStruct(raw[pos..pos + count], fs))
  {
    TimesOne(count);
  }

  /** The precommit a nested-message field reads back as. */
  function AsPrecommit(v: Value): Precommit {
    if v.Record? && |v.values| == 6 then
      Precommit(AsU16(v.values[0]), AsU64(v.values[1]), AsU32(v.values[2]),
                AsHash(v.values[3]), AsHash(v.values[4]), AsTime(v.values[5]))
    else Precommit(0, 0, 0, Zeros(HASH_SIZE), Zeros(HASH_SIZE), 0)
  }

  /** A `Vec<Precommit>` field. */
  function PrecommitList(ps: seq<Precommit>): (v: Value)
    ensures Typed(VecField(StructField(PrecommitSchema)), v) && v.List? && |v.items| == |ps|
  {
    var v := List(seq(|ps|, i requires 0 <= i < |ps| => Record(PrecommitValues(ps[i]))));
    forall k | 0 <= k < |ps|
      ensures Typed(StructField(PrecommitSchema), v.items[k])
    {
      PrecommitShape(ps[k]);
    }
    v
  }

  function AsPrecommits(v: Value): seq<Precommit> {
    if v.List? then seq(|v.items|, i requires 0 <= i < |v.items| => AsPrecommit(v.items[i])) else []
  }

  lemma PrecommitListRoundTrip(ps: seq<Precommit>)
    ensures AsPrecommits(PrecommitList(ps)) == ps
  {
    var v := PrecommitList(ps);
    assert forall i :: 0 <= i < |ps| ==> AsPrecommit(v.items[i]) == ps[i];
  }

  /** Each precommit of a vector appends its 90 bytes. */
  lemma {:induction false} PrecommitListBody(ps: seq<Precommit>, k: nat)
    requires k <= |ps|
    ensures SlotsBody(VecField(StructField(PrecommitSchema)), PrecommitList(ps).items, k) == Times(|ps| - k, 90)
    decreases |ps| - k
  {
    if k < |ps| {
      PrecommitShape(ps[k]);
      PrecommitListBody(ps, k + 1);
    }
  }

  /** A `Vec<Precommit>` field: as many precommits as its count says. */
  function PrecommitsAt(raw: seq<Byte>, off: nat): (ps: seq<Precommit>)
    ensures SegmentIn(raw, off, 8) ==> |ps| == SegmentCount(raw, off)
  {
    var t := VecField(StructField(PrecommitSchema));
    if SegmentIn(raw, off, 8) then
      var pos: nat, count: nat := ReadOffset(raw, off), ReadOffset(raw, off + 4);
      TimesIsProduct(count, 8);
      assert Size(t) == 8 && IsSegment(t) && ItemSize(t) == 8;
      assert DecodeField(raw, t, off) == DecodeBody(raw, t, pos, count);
      DecodeSlotsLength(raw, t, count, 0, pos);
      AsPrecommits(DecodeField(raw, t, off))
    else
      AsPrecommits(DecodeField(raw, t, off))
  }

  // ----------------------------------------------------- BlockResponse

  datatype BlockResponse = BlockResponse(to: PublicKey, block: Block, precommits: seq<Precommit>, transactions: seq<Hash>)

  function BlockResponseValues(r: BlockResponse): seq<Value> {
    [Blob(r.to), Record(BlockValues(r.block)), PrecommitList(r.precommits), HashList(r.transactions)]
  }

  /** The length of the raw bytes of a block response: its 56-byte header,
      the block, a slot and a body per precommit, a slot per hash. */
  function BlockResponseLength(r: BlockResponse): nat {
    166 + Times(|r.precommits|, 8) + Times(|r.precommits|, 90) + Times(|r.transactions|, HASH_SIZE)
  }

  lemma BlockResponseShape(r: BlockResponse)
    ensures Typed(StructField(BlockResponseSchema), Record(BlockResponseValues(r)))
    ensures SlotOffset(BlockResponseSchema, 1) == 32 && SlotOffset(BlockResponseSchema, 2) == 40
    ensures SlotOffset(BlockResponseSchema, 3) == 48
    ensures BodyLen(StructField(BlockResponseSchema), Record(BlockResponseValues(r))) == BlockResponseLength(r)
  {
    BlockResponseTyped(r);
    BlockResponseOffsets();
    BlockResponseBody(r);
  }

  lemma BlockResponseTyped(r: BlockResponse)
    ensures Typed(StructField(BlockResponseSchema), Record(BlockResponseValues(r)))
  {
    BlockShape(r.block);
  }

  lemma BlockResponseOffsets()
    ensures SlotOffset(BlockResponseSchema, 1) == 32 && SlotOffset(BlockResponseSchema, 2) == 40
    ensures SlotOffset(BlockResponseSchema, 3) == 48
  {
    SlotOffsetNext(BlockResponseSchema, 0);
    SlotOffsetNext(BlockResponseSchema, 1);
    SlotOffsetNext(BlockResponseSchema, 2);
  }

  lemma BlockResponseBody(r: BlockResponse)
    requires Typed(StructField(BlockResponseSchema), Record(BlockResponseValues(r)))
    ensures BodyLen(StructField(BlockResponseSchema), Record(BlockResponseValues(r))) == BlockResponseLength(r)
  {
    var vals := BlockResponseValues(r);
    var t := StructField(BlockResponseSchema);
    BlockShape(r.block);
    PrecommitListBody(r.precommits, 0);
    HashListSize(r.transactions);
    var ps := Times(|r.precommits|, 8) + Times(|r.precommits|, 90);
    var hs := Times(|r.transactions|, HASH_SIZE);
    assert SlotsBody(t, vals, 3) == hs;
    assert SlotsBody(t, vals, 2) == ps + hs;
    assert SlotsBody(t, vals, 1) == 110 + ps + hs;
    assert SlotsBody(t, vals, 0) == 110 + ps + hs;
    assert HeaderSize(BlockResponseSchema) == 56;
  }

  /** `BlockResponse::new` */
  function NewBlockResponse(r: BlockResponse): (raw: seq<Byte>)
    ensures |raw| == BlockResponseLength(r)
  {
    BlockResponseShape(r);
    Serialize(BlockResponseSchema, BlockResponseValues(r))
  }

  /** `BlockResponse::to` */
  function BlockResponseTo(raw: seq<Byte>): (k: PublicKey)
    ensures 32 <= |raw| ==> k == raw[0..32]
  {
    KeyAt(raw, 0)
  }

  /** `BlockResponse::block` */
  function BlockResponseBlock(raw: seq<Byte>): (b: Block)
    ensures SegmentIn(raw, 32, 1) ==> b == BlockOf(SegmentBytes(raw, 32))
  {
    BlockAt(raw, 32)
  }

  /** `BlockResponse::precommits` */
  function BlockResponsePrecommits(raw: seq<Byte>): (ps: seq<Precommit>)
    ensures SegmentIn(raw, 40, 8) ==> |ps| == SegmentCount(raw, 40)
  {
    PrecommitsAt(raw, 40)
  }

  /** `BlockResponse::transactions` */
  function BlockResponseTransactions(raw: seq<Byte>): (hs: seq<Hash>)
    ensures SegmentIn(raw, 48, HASH_SIZE) ==> HashesOf(raw, 48, hs)
  {
    HashesAt(raw, 48)
  }

  lemma BlockResponseFidelity(r: BlockResponse)
    requires BlockResponseLength(r) <= U32_MAX
    ensures CheckStruct(NewBlockResponse(r), BlockResponseSchema).Ok?
    ensures BlockResponseTo(NewBlockResponse(r)) == r.to
    ensures BlockResponseBlock(NewBlockResponse(r)) == r.block
    ensures BlockResponsePrecommits(NewBlockResponse(r)) == r.precommits
    ensures BlockResponseTransactions(NewBlockResponse(r)) == r.transactions
  {
    BlockResponseShape(r);
    BlockShape(r.block);
    var vals := BlockResponseValues(r);
    FieldOfSerialized(BlockResponseSchema, vals, 0);
    FieldOfSerialized(BlockResponseSchema, vals, 1);
    FieldOfSerialized(BlockResponseSchema, vals, 2);
    FieldOfSerialized(BlockResponseSchema, vals, 3);
    PrecommitListRoundTrip(r.precommits);
    HashListRoundTrip(r.transactions);
  }

  // --------------------------------------------------------- envelope

  /** A signed message: its author, its raw bytes and a signature over
      exactly those bytes. */
  datatype Signed = Signed(author: PublicKey, body: seq<Byte>, signature: seq<Byte>)

  /** `Message::concrete(payload, public_key, secret_key)`; `sign` is the
      signature scheme. */
  function Concrete(body: seq<Byte>, author: PublicKey, secretKey: seq<Byte>,
                    sign: (seq<Byte>, seq<Byte>) -> seq<Byte>): (m: Signed)
    ensures m.author == author && m.body == body
    ensures m.signature == sign(body, secretKey)
  {
    Signed(author, body, sign(body, secretKey))
  }

  /** A signed message may be trusted when its bytes pass the check of its
      schema and its signature verifies against its author; its bytes are
      then exactly one message of the schema, nothing after it. */
  predicate Accepted(m: Signed, schema: seq<FieldType>, verify: (seq<Byte>, seq<Byte>, PublicKey) -> bool): (ok: bool)
    ensures ok ==> CheckStruct(m.body, schema) == Ok(|m.body|) && HeaderSize(schema) <= |m.body|
    ensures ok ==> verify(m.body, m.signature, m.author)
  {
    CheckStruct(m.body, schema).Ok? && verify(m.body, m.signature, m.author)
  }

  /** A signed `Connect` names its signer as author and its accessors
      return its fields; it is accepted exactly when the signature scheme
      verifies the signature it was given. */
  lemma ConnectSigned(c: Connect, author: PublicKey, secretKey: seq<Byte>,
                      sign: (seq<Byte>, seq<Byte>) -> seq<Byte>, verify: (seq<Byte>, seq<Byte>, PublicKey) -> bool)
    requires ConnectFits(c)
    ensures Concrete(NewConnect(c), author, secretKey, sign).author == author
    ensures ConnectAddress(Concrete(NewConnect(c), author, secretKey, sign).body) == c.address
    ensures ConnectTime(Concrete(NewConnect(c), author, secretKey, sign).body) == c.time
    ensures ConnectUserAgent(Concrete(NewConnect(c), author, secretKey, sign).body) == c.userAgent
    ensures Accepted(Concrete(NewConnect(c), author, secretKey, sign), ConnectSchema, verify)
            <==> verify(NewConnect(c), sign(NewConnect(c), secretKey), author)
  {
    ConnectFidelity(c);
  }
}
