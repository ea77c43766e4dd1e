/** Fixed-width integers of the modelled program. Values are mathematical
    integers inside the machine range; every place where the program casts or
    lets an unchecked operation wrap says so through one of the functions here. */
module MachineInts {
  const TWO_8 := 0x100
  const TWO_16 := 0x1_0000
  const TWO_32 := 0x1_0000_0000
  const TWO_63 := 0x8000_0000_0000_0000
  const TWO_64 := 0x1_0000_0000_0000_0000

  type U8 = x: int | 0 <= x < TWO_8
  type U16 = x: int | 0 <= x < TWO_16
  type U32 = x: int | 0 <= x < TWO_32
  type U64 = x: int | 0 <= x < TWO_64
  type I64 = x: int | -TWO_63 <= x < TWO_63

  /** `[u8; 16]` and `[u8; 32]` */
  type Bytes16 = s: seq<U8> | |s| == 16 witness seq(16, _ => 0)
  type Bytes32 = s: seq<U8> | |s| == 32 witness seq(32, _ => 0)

  /** `x as u64`, and also a wrapping u64 addition when x is the exact sum.
      One wrap in either direction is all the modelled code can need. */
  function WrapU64(x: int): U64
    requires -TWO_64 <= x < 2 * TWO_64
  {
    if x < 0 then x + TWO_64 else if x < TWO_64 then x else x - TWO_64
  }

  /** `x as i64`, and also a wrapping i64 subtraction when x is the exact difference. */
  function WrapI64(x: int): I64
    requires -TWO_64 <= x < TWO_64
  {
    if x < -TWO_63 then x + TWO_64 else if x < TWO_63 then x else x - TWO_64
  }

  function Abs(x: int): nat { if x < 0 then -x else x }
}
