/** Fixed-width unsigned integers of the firmware, as ranges of the mathematical integers. */
module Bytes {

  /** `std::uint8_t`. */
  type Byte = b: int | 0 <= b < 256

  /** 2^32 and 2^31: the range and the half range of a 32-bit tick. */
  const WORD := 0x1_0000_0000
  const HALF_WORD := 0x8000_0000

  /** `std::uint32_t`. */
  type Word = w: int | 0 <= w < WORD

  function Zeros(n: nat): (s: seq<Byte>)
    ensures |s| == n && forall i | 0 <= i < n :: s[i] == 0
  {
    seq(n, _ => 0)
  }

  datatype Option<+T> = None | Some(value: T) {
    function GetOr(default: T): T {
      match this case None => default case Some(v) => v
    }
  }
}
