# Exonum binary encoding and blockchain explorer, in Dafny

This project models two parts of Exonum.

**The binary field codec** (`exonum/src/encoding`) lays out consensus messages as a
fixed-size header of slots followed by segment bodies:

- Fixed-width values sit in their slot as little-endian bytes: integers, 32-byte
  hashes and keys, 16-byte `Uuid`/`Decimal` blobs, and 12-byte durations.
- Segment values are byte slices, strings, vectors and nested messages. Their
  slot holds a `u32` pointer and a `u32` count, and `write` appends their body
  to the end of the buffer.
- `check` validates an untrusted buffer. It threads a high-water mark through
  the fields, and it routes every offset through checked `u32` arithmetic.
- `read` reconstructs a value from a checked buffer.

The behaviour modelled is consistent with every case `exonum/src/encoding/tests.rs`
fixes. The `Field` implementations themselves are not part of this model; they
are reconstructed from those tests. Where the tests leave a choice open, the
model makes one, and "Left out" lists it.

**The explorer**: the default methods of the `BlockchainExplorer` trait
(`utils/src/blockchain_explorer.rs`), over an uninterpreted storage service.

Modules:

- `Wrappers`: `Option` and `Result`.
- `LittleEndian`: little-endian and two's-complement byte forms of integers.
- `Offsets`: `CheckedOffset` arithmetic and the encoding errors.
- `Durations`: chrono's `Duration` slot. It enforces a canonical
  `(secs, nanos)` form and the `Duration` range of chrono 0.4, from
  `i64::MIN` to `i64::MAX` milliseconds.
- `Utf8`: the byte form of `&str` and its validity check.
- `Fields`: the schema (`FieldType`), the values (`Value`) and the three
  operations, as pure functions:
  - `WriteField` for `write`;
  - `CheckField` for `check`;
  - `DecodeField` for `read`.
- `Codec`: the round-trip theorems.
- `Buffers`: `write` as it runs, a `Buffer` class whose byte vector the
  methods change in place. It is proved equal to `WriteField`.
- `Messages`: the consensus messages, with their schemas, constructors and
  accessors:
  - `Connect`, `Propose`, `Prevote`, `Precommit`;
  - `Status`, `BlockRequest`, `Block`, `BlockResponse`.
- `EncodingCases`: the concrete buffers and values the tests use.
- `Explorer`: `get_block_info`, `get_txs` (a loop method) and
  `get_txs_for_block`.

The tests fix these details of `check`:

- `tests.rs:79-87` (`OffsetOverflow`): the slot starts at `u32::MAX` and ends
  at 8, so the overflow is the slot width `to - from`. `CheckField` therefore
  subtracts first, with `Sub`.
- `tests.rs:57-77` (zero-size segment): the nested message's pointer is 8,
  exactly the end of the 8-byte header, so it neither overlaps nor leaves a
  gap. The error comes from the nested `Parent` body being 0 bytes long,
  shorter than the 8-byte header it must hold.
- `check` tells three segment errors of Exonum's `encoding::Error` apart:
  - `OverlappingSegment` when a segment starts before the high-water mark;
  - `SpaceBetweenSegments` when it starts after the mark;
  - `IncorrectSegmentReference` when it runs past the buffer.

## Model

| member | source | states |
|---|---|---|
| Offsets.Add | exonum/src/encoding/tests.rs:79-87 | a checked offset sum succeeds exactly when it fits in `u32`, and fails with `OffsetOverflow` otherwise |
| Offsets.Sub | exonum/src/encoding/tests.rs:79-87 | a checked difference succeeds exactly when it is non-negative, and fails with `OffsetOverflow` otherwise |
| Offsets.Mul | exonum/src/encoding/tests.rs:79-87 | a checked product (count times item size) succeeds exactly when it fits in `u32`, and fails with `OffsetOverflow` otherwise |
| LittleEndian.LeValueOfBytes | exonum/src/encoding/tests.rs:220-227 | the little-endian bytes of an unsigned value read back as that value |
| LittleEndian.SignedValueOfBytes | exonum/src/encoding/tests.rs:220-227 | the two's-complement little-endian bytes of an `i64`/`i32` read back as that value |
| Durations.Split | exonum/src/encoding/tests.rs:235-256 | a duration splits into a canonical `(secs, nanos)` pair that adds back up to it |
| Durations.SplitUnique | exonum/src/encoding/tests.rs:189-208 | a canonical pair is the only representation of its total, so the canonical form is unique |
| Durations.SplitFits | exonum/src/encoding/tests.rs:220-227 | the parts of any duration in range fit the `i64` and `i32` of the slot |
| Durations.Validate | exonum/src/encoding/tests.rs:173-218 | a pair passes exactly when it is canonical and in range; the error is `DurationOverflow` exactly when the pair is canonical |
| Durations.Encode | exonum/src/encoding/tests.rs:236-257 | the 12-byte slot holds the whole seconds and the remaining nanoseconds of the duration, both truncated toward zero |
| Durations.CheckSlot | exonum/src/encoding/tests.rs:220-233 | a slot that passes yields a duration in range, the one `read` returns for it |
| Durations.Value | exonum/src/encoding/tests.rs:236-257 | the total `read` gives for a canonical slot splits back into the slot's seconds and nanoseconds |
| Durations.EncodeChecks | exonum/src/encoding/tests.rs:235-256 | the slot written for any duration in range passes the check and reads back as that duration |
| Durations.CheckedSlotIsEncoding | exonum/src/encoding/tests.rs:173-233 | a slot passes the check exactly when it is the slot written for the duration it holds |
| Utf8.EncodeValid | exonum/src/encoding/tests.rs:101-112 | the bytes of any string are valid UTF-8 and decode back to it |
| Utf8.ValidIsEncoding | exonum/src/encoding/tests.rs:101-112 | every valid byte string is the encoding of the string it decodes to |
| Fields.WriteField | exonum/src/encoding/tests.rs:258-271 | `write` grows the buffer by exactly the body length of the value |
| Fields.CheckField | exonum/src/encoding/tests.rs:294-316 | a successful check advances the high-water mark and stays within the buffer |
| Fields.CheckStruct | exonum/src/encoding/tests.rs:57-77 | a message passes only if it holds its whole header, and its check returns its full length |
| Fields.CheckSegment | exonum/src/encoding/tests.rs:259-271 | a segment slot that passes moves the high-water mark forward, to a position within the buffer |
| Fields.CheckBody | exonum/src/encoding/tests.rs:274-292 | the check of a segment's body ends at or after the segment's own end, and within the buffer |
| Fields.CheckSlots | exonum/src/encoding/tests.rs:274-292 | checking consecutive slots never moves the mark backwards, and ends within the buffer unless nothing was appended |
| Fields.AppendBody | exonum/src/encoding/tests.rs:259-271 | appending a segment's body grows the buffer by exactly the body length |
| Fields.Serialize | exonum/src/encoding/tests.rs:465-499 | the raw bytes of a structured message are exactly its body length long |
| Fields.DecodeField | exonum/src/encoding/tests.rs:294-316 | whatever the bytes, `read` returns a value of the field's variant, and an integer within the range of its width and signedness |
| Codec.WriteFieldCorrect | exonum/src/encoding/tests.rs:294-316 | for any typed value: write leaves the bytes outside the slot and the appended body unchanged, check accepts the result and returns its new end, and read returns the value |
| Codec.SerializeCorrect | exonum/src/encoding/tests.rs:464-498 | the raw bytes of any structured message pass the message check, and decode back to its field values |
| Buffers.Buffer.constructor | exonum/src/encoding/tests.rs:298 | `vec![fill; n]`: `n` bytes, each `fill` |
| Buffers.Buffer.Put | exonum/src/encoding/tests.rs:299 | overwriting a slot in place leaves the buffer equal to the splice of the bytes into it |
| Buffers.Buffer.Write | exonum/src/encoding/tests.rs:299 | the in-place write leaves the buffer exactly as `WriteField` describes |
| Buffers.Buffer.Extend | exonum/src/encoding/tests.rs:288-291 | appending a segment body (nested headers first, then the bodies) leaves the buffer as `AppendBody` describes |
| Buffers.Buffer.WriteEach | exonum/src/encoding/tests.rs:288-291 | writing the elements into consecutive slots leaves the buffer as `WriteSlots` describes |
| Buffers.Buffer.Clear | exonum/src/encoding/tests.rs:304 | the buffer becomes empty |
| Buffers.Buffer.Resize | exonum/src/encoding/tests.rs:306 | the buffer is truncated or extended with the fill byte to the new length |
| Buffers.WriteCheckRead | exonum/src/encoding/tests.rs:294-316 | both checks accept the written buffer and return its end, and the value read back equals the input |
| EncodingCases.ZeroSizeSegment | exonum/src/encoding/tests.rs:57-77 | a nested message with pointer 8 and length 0 in a 9-byte buffer is rejected with `UnexpectedlyShortPayload` |
| EncodingCases.ReadOverflow | exonum/src/encoding/tests.rs:79-87 | a slot from `u32::MAX` to 8 over an empty buffer is rejected with `OffsetOverflow` |
| EncodingCases.OpenCases | exonum/src/encoding/tests.rs:57-87 | trailing bytes inside a nested message's segment, an empty segment pointing before the mark, and a slot past the buffer are each rejected, with the error the model chooses |
| EncodingCases.DurationSlotCheck | exonum/src/encoding/tests.rs:220-233 | for every `i64`/`i32` pair laid out in a 12-byte slot, the check passes exactly for a canonical pair in range; otherwise it reports an incorrect duration or an overflow |
| EncodingCases.DurationExtremes | exonum/src/encoding/tests.rs:236-247 | the slots of `Duration::max_value()` and `Duration::min_value()` pass the check, and one nanosecond beyond either is an overflow |
| EncodingCases.DurationRejections | exonum/src/encoding/tests.rs:173-218 | max/max, min/min, opposite signs, a whole second of nanoseconds and the largest duration plus one nanosecond are all rejected, each with its error |
| EncodingCases.DurationSegment | exonum/src/encoding/tests.rs:235-256 | zero, the largest and smallest durations and the six sign-consistent pairs all round-trip |
| EncodingCases.SixteenBytesSegment | exonum/src/encoding/tests.rs:156-171 | any 16-byte `Uuid`/`Decimal` value round-trips in a 16-byte slot |
| EncodingCases.IntVectorRoundTrip | exonum/src/encoding/tests.rs:114-154 | a vector of small integers of any width and signedness round-trips |
| EncodingCases.VecSegments | exonum/src/encoding/tests.rs:114-154 | the `u8` vector and the vectors of every integer type of the tests round-trip |
| EncodingCases.StrSegment | exonum/src/encoding/tests.rs:101-112 | the mixed Latin/Cyrillic string round-trips |
| EncodingCases.ByteArray | exonum/src/encoding/tests.rs:258-271 | a 6-byte slice grows an 8-byte buffer to 14 bytes, passes the check and reads back |
| EncodingCases.SegmentsOfArrays | exonum/src/encoding/tests.rs:273-292 | three slices written at `[48, 56)` of 64 bytes grow the buffer by `3 * 8 + 11` bytes, pass the check and read back in order |
| EncodingCases.RawBuffersSegment | exonum/src/encoding/tests.rs:318-324 | three one-byte vectors round-trip |
| EncodingCases.EmptySegments | exonum/src/encoding/tests.rs:326-330 | the empty vector of vectors round-trips |
| EncodingCases.StatusSegments | exonum/src/encoding/tests.rs:332-340 | a vector of three `Status` messages round-trips |
| EncodingCases.ZeroStruct | exonum/src/encoding/tests.rs:464-498 | a message of up to three zero integer fields is well typed and passes the check with its header as its whole length |
| EncodingCases.EmptyStruct | exonum/src/encoding/tests.rs:466-470 | the message without fields is empty and passes the check |
| EncodingCases.OneFieldStruct | exonum/src/encoding/tests.rs:472-478 | the one-`u64` message has an 8-byte header and passes the check |
| EncodingCases.TwoFieldStruct | exonum/src/encoding/tests.rs:480-487 | the two-`u32` message has an 8-byte header and passes the check |
| EncodingCases.ThreeFieldStruct | exonum/src/encoding/tests.rs:489-497 | the `u16, u16, u32` message has an 8-byte header and passes the check |
| EncodingCases.ProposeAccessors | exonum/src/encoding/tests.rs:365-381 | the test's `Propose` gives back its validator, height, round, previous hash and its three transactions in order, the repeated hash included |
| EncodingCases.EmptyBlock | exonum/src/encoding/tests.rs:430-451 | a response with a block and no precommits or transactions gives back the key, the block and two empty lists |
| Messages.SerializeInjective | exonum/src/encoding/tests.rs:29-31 | two messages of one schema with the same raw bytes have the same fields |
| Messages.FieldOfSerialized | exonum/src/encoding/tests.rs:365-462 | the raw bytes of any message pass the check, and the slot of field `k` reads back as the `k`-th value |
| Messages.HashListRoundTrip | exonum/src/encoding/tests.rs:365-381 | a `&[Hash]` field reads back as the same hashes, in order |
| Messages.ConnectFidelity | exonum/src/encoding/tests.rs:342-363 | a `Connect` passes the check, and its address, time and user agent read back as given |
| Messages.ConnectSigned | exonum/src/encoding/tests.rs:342-353 | the signed `Connect` has the signer as author, its accessors return the fields, and it is accepted exactly when the signature verifies |
| Messages.ProposeFidelity | exonum/src/encoding/tests.rs:365-381 | a `Propose` passes the check, and every accessor returns its field, transaction order included |
| Messages.PrevoteFidelity | exonum/src/encoding/tests.rs:383-396 | a `Prevote` passes the check, and every accessor returns its field, the locked round included |
| Messages.PrecommitFidelity | exonum/src/encoding/tests.rs:398-412 | a `Precommit` passes the check, and every accessor returns its field, the time included |
| Messages.StatusFidelity | exonum/src/encoding/tests.rs:419-428 | a `Status` passes the check, and its height and last hash read back |
| Messages.BlockRequestFidelity | exonum/src/encoding/tests.rs:453-462 | a `BlockRequest` passes the check, and its key and height read back |
| Messages.BlockShape | exonum/src/encoding/tests.rs:434-441 | a `Block`'s field values are typed by the 110-byte `Block` schema, and `AsBlock` inverts `BlockValues` |
| Messages.PrecommitListRoundTrip | exonum/src/encoding/tests.rs:444-450 | a `Vec<Precommit>` field reads back as the same precommits, in order |
| Messages.BlockResponseFidelity | exonum/src/encoding/tests.rs:430-451 | a `BlockResponse` passes the check, and its key, block, precommits and transactions read back |
| Messages.NewConnect | exonum/src/encoding/tests.rs:342-353 | the raw bytes are the 28-byte header followed by the UTF-8 bytes of the address and of the user agent |
| Messages.ConnectAddress | exonum/src/encoding/tests.rs:351 | given a slot at 0 whose segment lies in the buffer, the address is the UTF-8 decoding of that segment |
| Messages.ConnectTime | exonum/src/encoding/tests.rs:352 | given a 12-byte slot at 8 that passes the duration check, the time is the duration it holds |
| Messages.ConnectUserAgent | exonum/src/encoding/tests.rs:347 | given a slot at 20 whose segment lies in the buffer, the user agent is the UTF-8 decoding of that segment |
| Messages.NewPropose | exonum/src/encoding/tests.rs:371 | the raw bytes are the 54-byte header and 32 bytes per transaction hash |
| Messages.ProposeValidator | exonum/src/encoding/tests.rs:373 | the validator is the little-endian `u16` at bytes 0..2 |
| Messages.ProposeHeight | exonum/src/encoding/tests.rs:374 | the height is the little-endian `u64` at bytes 2..10 |
| Messages.ProposeRound | exonum/src/encoding/tests.rs:375 | the round is the little-endian `u32` at bytes 10..14 |
| Messages.ProposePrevHash | exonum/src/encoding/tests.rs:376 | the previous hash is bytes 14..46 |
| Messages.ProposeTransactions | exonum/src/encoding/tests.rs:377-380 | given a slot at 46 whose segment lies in the buffer, there are as many hashes as its count, hash `i` being the `i`-th 32 bytes of the segment |
| Messages.NewPrevote | exonum/src/encoding/tests.rs:389 | the raw bytes are exactly the 50-byte header |
| Messages.PrevoteValidator | exonum/src/encoding/tests.rs:391 | the validator is the little-endian `u16` at bytes 0..2 |
| Messages.PrevoteHeight | exonum/src/encoding/tests.rs:392 | the height is the little-endian `u64` at bytes 2..10 |
| Messages.PrevoteRound | exonum/src/encoding/tests.rs:393 | the round is the little-endian `u32` at bytes 10..14 |
| Messages.PrevoteProposeHash | exonum/src/encoding/tests.rs:394 | the propose hash is bytes 14..46 |
| Messages.PrevoteLockedRound | exonum/src/encoding/tests.rs:395 | the locked round is the little-endian `u32` at bytes 46..50 |
| Messages.NewPrecommit | exonum/src/encoding/tests.rs:405 | the raw bytes are exactly the 90-byte header |
| Messages.PrecommitValidator | exonum/src/encoding/tests.rs:407 | the validator is the little-endian `u16` at bytes 0..2 |
| Messages.PrecommitHeight | exonum/src/encoding/tests.rs:408 | the height is the little-endian `u64` at bytes 2..10 |
| Messages.PrecommitRound | exonum/src/encoding/tests.rs:409 | the round is the little-endian `u32` at bytes 10..14 |
| Messages.PrecommitProposeHash | exonum/src/encoding/tests.rs:410 | the propose hash is bytes 14..46 |
| Messages.PrecommitBlockHash | exonum/src/encoding/tests.rs:411 | the block hash is bytes 46..78 |
| Messages.PrecommitTime | exonum/src/encoding/tests.rs:412 | given a 12-byte slot at 78 that passes the duration check, the time is the duration it holds |
| Messages.NewStatus | exonum/src/encoding/tests.rs:424 | the raw bytes are exactly the 40-byte header |
| Messages.StatusHeight | exonum/src/encoding/tests.rs:426 | the height is the little-endian `u64` at bytes 0..8 |
| Messages.StatusLastHash | exonum/src/encoding/tests.rs:427 | the last hash is bytes 8..40 |
| Messages.NewBlockRequest | exonum/src/encoding/tests.rs:458 | the raw bytes are exactly the 40-byte header |
| Messages.BlockRequestTo | exonum/src/encoding/tests.rs:461 | the recipient key is bytes 0..32 |
| Messages.BlockRequestHeight | exonum/src/encoding/tests.rs:460 | the height is the little-endian `u64` at bytes 32..40 |
| Messages.BlockOf | exonum/src/encoding/tests.rs:434-441 | a block read from its own bytes has each field at its offset in the 110-byte block header |
| Messages.NewBlockResponse | exonum/src/encoding/tests.rs:445 | the raw bytes are the 56-byte header, the 110-byte block, a slot and a 90-byte body per precommit, and 32 bytes per transaction hash |
| Messages.BlockResponseTo | exonum/src/encoding/tests.rs:447 | the recipient key is bytes 0..32 |
| Messages.BlockResponseBlock | exonum/src/encoding/tests.rs:448 | given a slot at 32 whose segment lies in the buffer, the block is read from that segment's bytes alone |
| Messages.BlockResponsePrecommits | exonum/src/encoding/tests.rs:449 | given a slot at 40 whose segment lies in the buffer, there are as many precommits as its count |
| Messages.BlockResponseTransactions | exonum/src/encoding/tests.rs:450 | given a slot at 48 whose segment lies in the buffer, there are as many hashes as its count, hash `i` being the `i`-th 32 bytes of the segment |
| Messages.Concrete | exonum/src/encoding/tests.rs:348 | the envelope names the signer as author, carries the payload bytes unchanged, and signs exactly those bytes |
| Messages.Accepted | exonum/src/encoding/tests.rs:348-350 | an accepted message is exactly one message of its schema with no bytes after it, and its signature verifies against its author |
| Explorer.GetBlockInfo | utils/src/blockchain_explorer.rs:16-19 | an error of `blocks_range` is returned unchanged; otherwise the result is `None` exactly when the range is empty, and else its first block |
| Explorer.Range | utils/src/blockchain_explorer.rs:13 | the blocks of a chain from `from` up to `to` are exactly those heights, in ascending order |
| Explorer.BlockInfoOfChain | utils/src/blockchain_explorer.rs:16-19 | over a store serving a chain, `get_block_info(h)` is the block at `h`, or `None` past the tip |
| Explorer.Txs | utils/src/blockchain_explorer.rs:20-28 | a result holds at most one info per hash, each the info some hash's lookup found; an error is the error of some lookup |
| Explorer.GetTxs | utils/src/blockchain_explorer.rs:20-28 | the loop returns the specified batch result: the infos found, in order, or the first lookup error |
| Explorer.TxsOkIffAllLookedUp | utils/src/blockchain_explorer.rs:23 | `get_txs` succeeds exactly when every lookup succeeds |
| Explorer.TxsFirstError | utils/src/blockchain_explorer.rs:23 | the error returned is that of a failing lookup, and every earlier lookup succeeded |
| Explorer.TxsStopsAtError | utils/src/blockchain_explorer.rs:23 | no hash after a failing one affects the result |
| Explorer.TxsAppend | utils/src/blockchain_explorer.rs:20-28 | the batch over `a + b` is the batch over `a` followed by the batch over `b` |
| Explorer.FoundCount | utils/src/blockchain_explorer.rs:23-25 | at most one found transaction per hash |
| Explorer.TxsLength | utils/src/blockchain_explorer.rs:20-28 | the result has one info per hash found, so at most one per hash, and equality exactly when every hash was found |
| Explorer.TxsContents | utils/src/blockchain_explorer.rs:20-28 | an info is in the result exactly when some hash's lookup yielded it |
| Explorer.TxsForBlock | utils/src/blockchain_explorer.rs:29-32 | a success means the block's hashes were listed, and every info returned belongs to one of them, at most one per hash |
| Explorer.GetTxsForBlock | utils/src/blockchain_explorer.rs:29-32 | the method returns the composition of the hash lookup and the batch lookup |
| Explorer.TxsForBlockSpec | utils/src/blockchain_explorer.rs:29-32 | an error of the hash lookup is returned before any transaction lookup; otherwise the result is `get_txs` of the block's hashes |

## Left out

- `cryptocurrency/src/main.rs` is not part of this model. It is HTTP routing, CLI parsing, database setup and threads.
- Cryptography: `gen_keypair`, `hash` and signing. Hashes and keys are arbitrary 32-byte values, and signing and verification are function parameters of `Messages.Concrete` and `Messages.Accepted`. So the model cannot show that tampering is detected.
- `Utc::now()`: clock readings are parameters. A `DateTime<Utc>` field is modelled as a duration since the Unix epoch, with the `Duration` slot's 12-byte layout and range.
- `BitVec` (`tests.rs:89-98`): its bit packing belongs to a foreign library and is not modelled.
- `Uuid` and `Decimal` internals: they are opaque 16-byte blobs (`BlobField(16)`). Parsing them from strings is not modelled.
- serde/JSON (`tests.rs:413-416`, `500-543`): an external mapping, not modelled.
- The `encoding_struct!` and `message!` macros: the schemas are written out by hand. A message's network header, its message-type tag and its signature are not part of the raw bytes modelled. `Precommit`s nested in a `BlockResponse` are modelled as their bodies only.
- The `unsafe` `read`: `DecodeField` is a total function. Its result is only meaningful on a buffer that passed `check`, and all the theorems use it that way.
- Fields.CheckStruct: a nested message followed by trailing bytes inside its segment is rejected with `SpaceBetweenSegments`; nine zero bytes over a one-`u64` schema give `SpaceBetweenSegments(8, 9)` (`EncodingCases.OpenCases`). The tests do not fix this case.
- Fields.CheckSegment: an empty segment must still start at the high-water mark; a `&[u8]` slot with pointer 0 and count 0 at mark 8 gives `OverlappingSegment(8, 0)` (`EncodingCases.OpenCases`). Exonum may accept an empty segment without looking at its pointer; the tests do not fix this case.
- Fields.CheckSegment: the faults are tested in the order overflow, overlap, gap, reference past the buffer, so a segment with several faults reports the first. The tests fix only single faults.
- Fields.CheckField: a slot that runs past the end of the buffer gives `UnexpectedlyShortPayload` (`EncodingCases.OpenCases`), where the source would panic on the slice.
- Fields.CheckField: requires the slot `[from, to)` to be exactly the field's width when `from <= to`. The source checks this only with a `debug_assert`, so a wrongly sized slot is outside the model.
- Messages.BlockResponsePrecommits: states only the number of precommits read; their contents are stated for written messages by `Messages.BlockResponseFidelity`.
- Fields.CheckField: the converse of the round trip is not proved. That converse would say every buffer `check` accepts is the canonical encoding of some value. It is proved for duration slots (`Durations.CheckedSlotIsEncoding`) and for UTF-8 (`Utf8.ValidIsEncoding`) only.
- Codec.WriteFieldCorrect: requires the written buffer to fit in `u32` offsets. The wrap-around of `as u32` pointer casts beyond 4 GiB is not modelled.
- EncodingCases.IntVectorRoundTrip: covers vectors of at most 100 elements, each below 128, which includes every vector of the tests.
- Explorer.GetBlockInfo: requires `h < u64::MAX`, because `h + 1` would overflow.
- The storage service behind `blocks_range`, `get_tx_info` and `get_tx_hashes_from_block` stays uninterpreted: these are function-valued fields of `Explorer.Store`.
