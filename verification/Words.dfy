// Machine words as integers.
//
// The Go core keeps registers as uint32; the JavaScript oracle keeps them as int32 and moves
// between the two readings with `| 0` and `>>> 0`. Both are written out here, so that every
// wrap-around in the two programs is an explicit reduction modulo 2^32.
module Words {
  type Byte = x: int | 0 <= x < 0x100
  type Half = x: int | 0 <= x < 0x1_0000
  type Word = x: int | 0 <= x < 0x1_0000_0000
  type Int32 = x: int | -0x8000_0000 <= x < 0x8000_0000
  type Reg = x: int | 0 <= x < 32

  datatype Option<+T> = None | Some(value: T)
  datatype Result<+T, +E> = Ok(value: T) | Err(error: E)

  /** Go's conversion to uint32, and JavaScript's `>>> 0`. */
  function U32(x: int): Word {
    x % 0x1_0000_0000
  }

  /** Go's `signed32`, and JavaScript's `| 0`. */
  function S32(x: int): Int32 {
    var u := x % 0x1_0000_0000;
    if u < 0x8000_0000 then u else u - 0x1_0000_0000
  }

  // Go's uint32 arithmetic.
  function AddW(a: int, b: int): Word {
    U32(a + b)
  }

  function SubW(a: int, b: int): Word {
    U32(a - b)
  }

  function MulW(a: int, b: int): Word {
    U32(a * b)
  }

  /** binary.BigEndian.AppendUint16 */
  function U16(v: Half): (r: seq<Byte>)
    ensures |r| == 2
  {
    [v / 0x100, v % 0x100]
  }

  function FromU16(hi: Byte, lo: Byte): Half {
    hi * 0x100 + lo
  }

  lemma U16Read(v: Half)
    ensures FromU16(U16(v)[0], U16(v)[1]) == v
  {
  }

  function Pow2(n: nat): (r: nat)
    ensures r > 0
  {
    if n == 0 then 1 else 2 * Pow2(n - 1)
  }

  type Bits = seq<bool>

  function Zeros(n: nat): (r: Bits)
    ensures |r| == n
  {
    seq(n, i => false)
  }

  /** The low `width` bits of x, the highest first. */
  function BitsBelow(x: int, width: nat): (r: Bits)
    requires 0 <= x
    ensures |r| == width
  {
    if width == 0 then [] else BitsBelow(x / 2, width - 1) + [x % 2 == 1]
  }

  // The bitwise operators, bit by bit from the low end.
  function AndBits(a: nat, b: nat): nat
    decreases a
  {
    if a == 0 || b == 0 then 0
    else 2 * AndBits(a / 2, b / 2) + if a % 2 == 1 && b % 2 == 1 then 1 else 0
  }

  function XorBits(a: nat, b: nat): nat
    decreases a
  {
    if a == 0 then b
    else 2 * XorBits(a / 2, b / 2) + if a % 2 != b % 2 then 1 else 0
  }

  /** Neither operator sets a bit above its operands' top bits. */
  lemma {:induction false} BitsFit(a: nat, b: nat, n: nat)
    requires a < Pow2(n) && b < Pow2(n)
    ensures AndBits(a, b) < Pow2(n) && XorBits(a, b) < Pow2(n)
  {
    if a == 0 {
    } else {
      BitsFit(a / 2, b / 2, n - 1);
    }
  }

  lemma WordFits(a: Word, b: Word)
    ensures AndBits(a, b) < 0x1_0000_0000 && XorBits(a, b) < 0x1_0000_0000
  {
    assert Pow2(8) == 0x100 && Pow2(16) == 0x1_0000 && Pow2(24) == 0x100_0000 && Pow2(32) == 0x1_0000_0000;
    BitsFit(a, b, 32);
  }

  function AndW(a: Word, b: Word): Word {
    WordFits(a, b); AndBits(a, b)
  }

  function XorW(a: Word, b: Word): Word {
    WordFits(a, b); XorBits(a, b)
  }

  /** a | b is the bits of a or b, by De Morgan's law on 32 bits. */
  function OrW(a: Word, b: Word): Word {
    0xFFFF_FFFF - AndW(0xFFFF_FFFF - a, 0xFFFF_FFFF - b)
  }

  /** Division rounding toward zero, as Go's `/` on signed integers does. */
  function TruncDiv(a: int, b: int): int
    requires b != 0
  {
    if (a < 0) == (b < 0) then Abs(a) / Abs(b) else -(Abs(a) / Abs(b))
  }

  /** The remainder that goes with TruncDiv: it takes the dividend's sign. */
  function TruncMod(a: int, b: int): int
    requires b != 0
  {
    if a < 0 then -(Abs(a) % Abs(b)) else Abs(a) % Abs(b)
  }

  function Abs(a: int): nat {
    if a < 0 then -a else a
  }

  function Least(a: int, b: int): int {
    if a < b then a else b
  }

  function Flag(b: bool): nat {
    if b then 1 else 0
  }
}
