/** chrono's `Duration` as an encoding field: a 12-byte slot holding the
    whole seconds as a little-endian `i64` followed by the remaining
    nanoseconds as a little-endian `i32`. Several byte forms would denote
    the same span of time, so `check` accepts only the canonical one. */
module Durations {
  import opened Wrappers
  import opened LittleEndian
  import opened Offsets

  const NANOS_PER_SEC: int := 1_000_000_000

  /** `Duration::max_value()` is `i64::MAX` milliseconds and
      `Duration::min_value()` is `i64::MIN` milliseconds, as in chrono 0.4;
      durations are modelled as a whole number of nanoseconds in that
      range. The range is therefore one millisecond wider below zero. */
  const MAX_NANOS: int := 0x7FFF_FFFF_FFFF_FFFF * 1_000_000
  const MIN_NANOS: int := -0x8000_0000_0000_0000 * 1_000_000

  const SLOT_SIZE: nat := 12

  predicate InRange(total: int) {
    MIN_NANOS <= total <= MAX_NANOS
  }

  /** One canonical form per duration: the nanoseconds make less than one
      second and do not have the opposite sign of the seconds. */
  predicate Canonical(secs: int, nanos: int) {
    -NANOS_PER_SEC < nanos < NANOS_PER_SEC && !(secs > 0 && nanos < 0) && !(secs < 0 && nanos > 0)
  }

  /** The seconds as `num_seconds` gives them (rounded toward zero) and the
      nanoseconds left over: the pair `write` stores. */
  function Split(total: int): (parts: (int, int))
    ensures Canonical(parts.0, parts.1)
    ensures parts.0 * NANOS_PER_SEC + parts.1 == total
  {
    if total >= 0 then (total / NANOS_PER_SEC, total % NANOS_PER_SEC)
    else (-((-total) / NANOS_PER_SEC), -((-total) % NANOS_PER_SEC))
  }

  /** The canonical form is unique: a canonical pair is exactly what `write`
      stores for the duration it denotes. */
  lemma SplitUnique(secs: int, nanos: int)
    requires Canonical(secs, nanos)
    ensures Split(secs * NANOS_PER_SEC + nanos) == (secs, nanos)
  {
    var total := secs * NANOS_PER_SEC + nanos;
    if secs > 0 {
      assert total >= 0 && (total - nanos) / NANOS_PER_SEC == secs;
    } else if secs < 0 {
      assert -total == (-secs) * NANOS_PER_SEC + (-nanos);
    }
  }

  /** The parts of a duration in range fit the `i64` and `i32` of the slot. */
  lemma SplitFits(total: int)
    requires InRange(total)
    ensures InSignedRange(Split(total).0, 8) && InSignedRange(Split(total).1, 4)
  {
    SignedBounds();
  }

  /** The duration check on the two parts read from a slot: the total on
      success, the reason for the rejection otherwise. */
  function Validate(secs: int, nanos: int): (r: Result<int, Error>)
    ensures r.Ok? <==> Canonical(secs, nanos) && InRange(secs * NANOS_PER_SEC + nanos)
    ensures r.Ok? ==> r.value == secs * NANOS_PER_SEC + nanos && Split(r.value) == (secs, nanos)
    ensures r.Err? ==> (r.error == DurationOverflow <==> Canonical(secs, nanos))
  {
    if nanos >= NANOS_PER_SEC || nanos <= -NANOS_PER_SEC then Err(IncorrectDuration(secs, nanos))
    else if (secs > 0 && nanos < 0) || (secs < 0 && nanos > 0) then Err(IncorrectDuration(secs, nanos))
    else if !InRange(secs * NANOS_PER_SEC + nanos) then Err(DurationOverflow)
    else
      SplitUnique(secs, nanos);
      Ok(secs * NANOS_PER_SEC + nanos)
  }

  /** The slot `write` fills for a duration: the whole seconds and the
      remaining nanoseconds, both truncated toward zero. */
  function Encode(total: int): (slot: seq<Byte>)
    requires InRange(total)
    ensures |slot| == SLOT_SIZE
    ensures Parse(slot) == Split(total)
  {
    SplitFits(total);
    var (secs, nanos) := Split(total);
    var slot := SignedBytes(secs, 8) + SignedBytes(nanos, 4);
    assert slot[..8] == SignedBytes(secs, 8) && slot[8..] == SignedBytes(nanos, 4);
    SignedValueOfBytes(secs, 8);
    SignedValueOfBytes(nanos, 4);
    slot
  }

  /** The seconds and nanoseconds stored in a slot. */
  function Parse(slot: seq<Byte>): (int, int)
    requires |slot| == SLOT_SIZE
  {
    (SignedValue(slot[..8]), SignedValue(slot[8..]))
  }

  /** The duration check of a slot: on success, a duration in range, the
      one `read` gives for the slot. */
  function CheckSlot(slot: seq<Byte>): (r: Result<int, Error>)
    requires |slot| == SLOT_SIZE
    ensures r.Ok? ==> InRange(r.value) && r.value == Value(slot)
  {
    var (secs, nanos) := Parse(slot);
    Validate(secs, nanos)
  }

  /** What `read` returns for a slot: seconds and nanoseconds added up. The
      parts of a canonical slot are recovered from that sum. */
  function Value(slot: seq<Byte>): (total: int)
    requires |slot| == SLOT_SIZE
    ensures Canonical(Parse(slot).0, Parse(slot).1) ==> Split(total) == Parse(slot)
  {
    var (secs, nanos) := Parse(slot);
    if Canonical(secs, nanos) then
      SplitUnique(secs, nanos);
      secs * NANOS_PER_SEC + nanos
    else
      secs * NANOS_PER_SEC + nanos
  }

  /** Round trip: the slot written for a duration passes the check and is
      read back as that duration. */
  lemma {:induction false} EncodeChecks(total: int)
    requires InRange(total)
    ensures CheckSlot(Encode(total)) == Ok(total)
    ensures Value(Encode(total)) == total
  {
    var (secs, nanos) := Split(total);
    assert Parse(Encode(total)) == (secs, nanos);
  }

  /** Canonical bytes: a slot passes the check exactly when it is the slot
      `write` produces for the duration `read` gives back. */
  lemma {:induction false} CheckedSlotIsEncoding(slot: seq<Byte>)
    requires |slot| == SLOT_SIZE
    ensures CheckSlot(slot).Ok? <==> InRange(Value(slot)) && Encode(Value(slot)) == slot
  {
    var (secs, nanos) := Parse(slot);
    if CheckSlot(slot).Ok? {
      var total := Value(slot);
      assert Split(total) == (secs, nanos);
      LeBytesOfValue(slot[..8]);
      LeBytesOfValue(slot[8..]);
      assert Encode(total) == slot[..8] + slot[8..];
    }
    if InRange(Value(slot)) && Encode(Value(slot)) == slot {
      EncodeChecks(Value(slot));
    }
  }
}
