/** Machine integers and clock arithmetic shared by the other modules (src/util.rs). */
module Util {
  datatype Option<+T> = None | Some(value: T)

  const TWO_TO_63: int := 0x8000_0000_0000_0000
  const TWO_TO_64: int := 0x1_0000_0000_0000_0000

  type u64 = x: int | 0 <= x < TWO_TO_64
  type i64 = x: int | -TWO_TO_63 <= x < TWO_TO_63

  type byte = x: int | 0 <= x < 256

  const HOUR_IN_SECONDS: u64 := 3600

  /** Reinterprets the eight bytes of an unsigned word as a signed one. */
  function ToI64(val: u64): (r: i64)
    ensures (val - r) % TWO_TO_64 == 0
  {
    if val < TWO_TO_63 then val else val - TWO_TO_64
  }

  function ToU64(val: i64): (r: u64)
    ensures (r - val) % TWO_TO_64 == 0
  {
    if val < 0 then val + TWO_TO_64 else val
  }

  /** Both conversions are bijections and undo each other. */
  lemma {:induction false} ConversionsAreInverse(a: u64, b: i64)
    ensures ToU64(ToI64(a)) == a
    ensures ToI64(ToU64(b)) == b
    ensures ToI64(a) == b <==> a == ToU64(b)
  {
  }

  /** Two's complement truncation of a mathematical integer to 64 bits. */
  function WrapI64(x: int): (r: i64)
    ensures (x - r) % TWO_TO_64 == 0
  {
    (x + TWO_TO_63) % TWO_TO_64 - TWO_TO_63
  }

  /** `now - HOUR_IN_SECONDS as i64`, which wraps when it leaves the range of i64. */
  function OneHourAgo(now: i64): i64 {
    WrapI64(now - HOUR_IN_SECONDS)
  }

  /** The clock readings for which the subtraction in `OneHourAgo` wraps. */
  predicate Overflows(reading: u64) {
    TWO_TO_63 <= reading < TWO_TO_63 + HOUR_IN_SECONDS
  }

  /** The subtraction is exact for precisely the readings outside the overflow window. */
  lemma {:induction false} OneHourAgoExact(reading: u64)
    ensures OneHourAgo(ToI64(reading)) == ToI64(reading) - 3600 <==> !Overflows(reading)
    ensures Overflows(reading) ==> OneHourAgo(ToI64(reading)) == ToI64(reading) - 3600 + TWO_TO_64
  {
  }
}
