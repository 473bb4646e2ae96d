/** Checked offset arithmetic (`CheckedOffset`) and the errors `check`
    reports. An offset is a `u32` position or length within a buffer; every
    sum, difference and product of offsets is checked and yields
    `OffsetOverflow` instead of wrapping around. */
module Offsets {
  import opened Wrappers

  const U32_MAX: nat := 0xFFFF_FFFF

  /** The values a `CheckedOffset` can hold. */
  type Offset = x: nat | x <= U32_MAX

  /** What `check` reports about a buffer it rejects. */
  datatype Error =
    | OffsetOverflow
      /** A body, or a nested message, is shorter than its own header. */
    | UnexpectedlyShortPayload
      /** A segment starts before the end of the previous one. */
    | OverlappingSegment(lastEnd: nat, start: nat)
      /** A segment leaves unused bytes after the previous one. */
    | SpaceBetweenSegments(lastEnd: nat, start: nat)
      /** A segment runs past the end of the buffer. */
    | IncorrectSegmentReference(position: nat, value: nat)
    | Utf8
      /** A duration whose parts have different signs, or whose
          nanoseconds make a whole second or more. */
    | IncorrectDuration(secs: int, nanos: int)
    | DurationOverflow

  function Add(a: Offset, b: nat): (r: Result<Offset, Error>)
    ensures r.Ok? <==> a + b <= U32_MAX
    ensures r.Ok? ==> r.value == a + b
    ensures r.Err? ==> r.error == OffsetOverflow
  {
    if a + b <= U32_MAX then Ok(a + b) else Err(OffsetOverflow)
  }

  function Sub(a: Offset, b: Offset): (r: Result<Offset, Error>)
    ensures r.Ok? <==> b <= a
    ensures r.Ok? ==> r.value + b == a
    ensures r.Err? ==> r.error == OffsetOverflow
  {
    if b <= a then Ok(a - b) else Err(OffsetOverflow)
  }

  /** `count` items of `size` bytes each. The product is spelled out as a
      repeated sum, so that reasoning about segment sizes stays linear;
      `TimesIsProduct` shows it is the product. */
  function Times(count: nat, size: nat): nat {
    if count == 0 then 0 else size + Times(count - 1, size)
  }

  lemma {:induction false} TimesIsProduct(count: nat, size: nat)
    ensures Times(count, size) == count * size
  {
    if count > 0 {
      TimesIsProduct(count - 1, size);
    }
  }

  /** Units of one byte: the size of a byte slice or string is its count. */
  lemma {:induction false} TimesOne(count: nat)
    ensures Times(count, 1) == count
  {
    if count > 0 {
      TimesOne(count - 1);
    }
  }

  /** Items of at least one byte take at least one byte each. */
  lemma {:induction false} TimesBound(count: nat, size: nat)
    requires size >= 1
    ensures count <= Times(count, size)
  {
    if count > 0 {
      TimesBound(count - 1, size);
    }
  }

  function Mul(a: Offset, b: nat): (r: Result<Offset, Error>)
    ensures r.Ok? <==> Times(a, b) <= U32_MAX
    ensures r.Ok? ==> r.value == Times(a, b)
    ensures r.Err? ==> r.error == OffsetOverflow
  {
    if Times(a, b) <= U32_MAX then Ok(Times(a, b)) else Err(OffsetOverflow)
  }
}
