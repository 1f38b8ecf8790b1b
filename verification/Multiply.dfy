// reference/mips16.js: multiplication and division done in doubles. mul64 splits its operands
// into 16-bit limbs so that no intermediate leaves the exact integers of a double.
module Multiply {
  import opened Words

  // The limb computation's intermediates, named as in mul64.
  function Mid(ua: Word, ub: Word): int {
    ua % 0x1_0000 * (ub / 0x1_0000) + ua / 0x1_0000 * (ub % 0x1_0000)
  }

  function Sum(ua: Word, ub: Word): int {
    ua % 0x1_0000 * (ub % 0x1_0000) + Mid(ua, ub) % 0x1_0000 * 0x1_0000
  }

  function HighSum(ua: Word, ub: Word): int {
    ua / 0x1_0000 * (ub / 0x1_0000) + Mid(ua, ub) / 0x1_0000 + Sum(ua, ub) / 0x1_0000_0000
  }

  /** mul64's operand: its magnitude when signed, its unsigned reading otherwise. */
  function Magnitude(a: Int32, signed: bool): Word {
    if signed then Abs(a) else U32(a)
  }

  /** The limbs' high and low words, negated as one 64-bit pattern when the signs differ. */
  function Join(hi: Word, lo: Word, neg: bool): (Int32, Int32) {
    if !neg then (S32(hi), S32(lo))
    else if lo == 0 then (S32((0x1_0000_0000 - hi) % 0x1_0000_0000), S32(0))
    else (S32(0xFFFF_FFFF - hi), S32(0x1_0000_0000 - lo))
  }

  function Mul64(a: Int32, b: Int32, signed: bool): (Int32, Int32) {
    var ua, ub := Magnitude(a, signed), Magnitude(b, signed);
    Join(HighSum(ua, ub) % 0x1_0000_0000, Sum(ua, ub) % 0x1_0000_0000, signed && (a < 0) != (b < 0))
  }

  /** The product the instruction defines. */
  function Product(a: Int32, b: Int32, signed: bool): int {
    if signed then a * b else U32(a) * U32(b)
  }

  /** The two words of a product's 64-bit two's complement pattern, as Go shifts them out. */
  function High(p: int): Word {
    p / 0x1_0000_0000 % 0x1_0000_0000
  }

  function Low(p: int): Word {
    p % 0x1_0000_0000
  }

  lemma MulBound(x: nat, y: nat, n: nat)
    requires x <= n && y <= n
    ensures 0 <= x * y <= n * n
  {
    assert x * y <= n * y <= n * n;
  }

  /** Every intermediate is an exact integer of a double: all stay below 2^33. */
  lemma LimbsExact(ua: Word, ub: Word)
    ensures 0 <= Mid(ua, ub) < 0x2_0000_0000
    ensures 0 <= Sum(ua, ub) < 0x2_0000_0000
    ensures 0 <= HighSum(ua, ub) < 0x2_0000_0000
  {
    MulBound(ua % 0x1_0000, ub % 0x1_0000, 0xFFFF);
    MulBound(ua % 0x1_0000, ub / 0x1_0000, 0xFFFF);
    MulBound(ua / 0x1_0000, ub % 0x1_0000, 0xFFFF);
    MulBound(ua / 0x1_0000, ub / 0x1_0000, 0xFFFF);
  }

  /** The limbs reassemble to the product of the magnitudes. */
  lemma LimbProduct(ua: Word, ub: Word)
    ensures ua * ub == HighSum(ua, ub) * 0x1_0000_0000 + Sum(ua, ub) % 0x1_0000_0000
    ensures 0 <= HighSum(ua, ub) < 0x1_0000_0000
  {
    LimbsExact(ua, ub);
    var al, ah, bl, bh := ua % 0x1_0000, ua / 0x1_0000, ub % 0x1_0000, ub / 0x1_0000;
    calc {
      ua * ub;
      (ah * 0x1_0000 + al) * (bh * 0x1_0000 + bl);
      ah * 0x1_0000 * (bh * 0x1_0000) + ah * 0x1_0000 * bl + al * (bh * 0x1_0000) + al * bl;
      ah * bh * 0x1_0000_0000 + (ah * bl + al * bh) * 0x1_0000 + al * bl;
    }
    MulBound(ua, ub, 0xFFFF_FFFF);
  }

  lemma Quotient(p: int, q: int, r: Word)
    requires p == q * 0x1_0000_0000 + r
    ensures p / 0x1_0000_0000 == q && U32(p) == r
  {
  }

  lemma JoinExact(hi: int, lo: int, neg: bool, p: int)
    requires 0 <= hi < 0x1_0000_0000 && 0 <= lo < 0x1_0000_0000
    requires p == if neg then -(hi * 0x1_0000_0000 + lo) else hi * 0x1_0000_0000 + lo
    ensures U32(Join(hi, lo, neg).0) == High(p) && U32(Join(hi, lo, neg).1) == Low(p)
  {
    var q, r := if !neg then hi else if lo == 0 then -hi else -hi - 1, if !neg || lo == 0 then lo else 0x1_0000_0000 - lo;
    Quotient(p, q, r);
    assert U32(r) == r;
    if neg && lo == 0 { Quotient(0x1_0000_0000 - hi, if hi == 0 then 1 else 0, if hi == 0 then 0 else 0x1_0000_0000 - hi); }
  }

  lemma SignedProduct(a: Int32, b: Int32, signed: bool)
    ensures var p := Magnitude(a, signed) * Magnitude(b, signed);
            Product(a, b, signed) == if signed && (a < 0) != (b < 0) then -p else p
  {
    AbsProduct(a, b);
  }

  lemma JoinLimbs(h: int, s: int, neg: bool, p: int)
    requires 0 <= h < 0x1_0000_0000
    requires p == if neg then -(h * 0x1_0000_0000 + s % 0x1_0000_0000) else h * 0x1_0000_0000 + s % 0x1_0000_0000
    ensures var j := Join(h % 0x1_0000_0000, s % 0x1_0000_0000, neg);
            U32(j.0) == High(p) && U32(j.1) == Low(p)
  {
    hide Join, High, Low, U32;
    JoinExact(h, s % 0x1_0000_0000, neg, p);
  }

  /** mul64 is the exact 64-bit product split into its two words, as Go's native product is. */
  lemma Mul64Exact(a: Int32, b: Int32, signed: bool)
    ensures U32(Mul64(a, b, signed).0) == High(Product(a, b, signed))
    ensures U32(Mul64(a, b, signed).1) == Low(Product(a, b, signed))
  {
    var ua, ub := Magnitude(a, signed), Magnitude(b, signed);
    SignedProduct(a, b, signed);
    LimbProduct(ua, ub);
    JoinLimbs(HighSum(ua, ub), Sum(ua, ub), signed && (a < 0) != (b < 0), Product(a, b, signed));
  }

  lemma AbsProduct(a: int, b: int)
    ensures a * b == if (a < 0) != (b < 0) then -(Abs(a) * Abs(b)) else Abs(a) * Abs(b)
  {
  }

  /** Math.ceil or Math.floor, whichever rounds toward zero. */
  function Trunc(x: real): int {
    if x < 0.0 then -(-x).Floor else x.Floor
  }

  lemma RealQuotient(a: nat, b: nat)
    requires b > 0
    ensures (a as real / b as real).Floor == a / b
  {
    var q, r := a / b, a % b;
    assert a == q * b + r;
    var y := b as real;
    assert a as real == q as real * y + r as real;
    assert a as real / y == q as real + r as real / y;
    assert 0.0 <= r as real / y < 1.0;
  }

  /** Truncating the real quotient is Go's integer division. */
  lemma TruncQuotient(a: int, b: int)
    requires b != 0
    ensures Trunc(a as real / b as real) == TruncDiv(a, b)
  {
    RealQuotient(Abs(a), Abs(b));
    QuotientSign(a, b);
    var p := Abs(a) as real / Abs(b) as real;
    assert p >= 0.0;
  }

  // ---- The rounding of the quotient ------------------------------------------------------------------------

  function Magnitude53(x: real): real {
    (if x < 0.0 then -x else x) / 9007199254740992.0
  }

  /** What division of doubles may answer for the real quotient x: something within a relative 2^-53 of it,
      and x itself when x is an integer, since every integer of that size is a double. */
  ghost predicate Rounds(q: real, x: real) {
    && -Magnitude53(x) <= q - x <= Magnitude53(x)
    && (x == x.Floor as real ==> q == x)
  }

  lemma NearFloor(a: nat, b: nat, q: real)
    requires 0 < b <= 0xFFFF_FFFF && a <= 0xFFFF_FFFF && Rounds(q, a as real / b as real)
    ensures q >= 0.0 && q.Floor == a / b
  {
    var n, r, y := a / b, a % b, b as real;
    var x := a as real / y;
    RealQuotient(a, b);
    assert a as real == n as real * y + r as real by { assert a == n * b + r; }
    assert x == n as real + r as real / y;
    Slack(r, b, a, x);
  }

  // r / b is at least 1 / b away from both integers around it, and the error is less than that.
  lemma Slack(r: nat, b: nat, a: nat, x: real)
    requires r < b <= 0xFFFF_FFFF && a <= 0xFFFF_FFFF && x == a as real / b as real
    ensures r > 0 ==> Magnitude53(x) < r as real / b as real < 1.0 - Magnitude53(x)
  {
    var y, m, f := b as real, Magnitude53(x), r as real / b as real;
    TimesBack(a as real, y, x);
    TimesBack(r as real, y, f);
    assert x >= 0.0;
    ErrorIsSmall(a, x, m, y);
    hide Magnitude53;
    assert (1.0 - f) * y == y - r as real;
    if r > 0 {
      OverDivisor(m, f, y);
      OverDivisor(m, 1.0 - f, y);
    }
  }

  lemma ErrorIsSmall(a: nat, x: real, m: real, y: real)
    requires a <= 0xFFFF_FFFF && x * y == a as real && m == x / 9007199254740992.0
    ensures m * y < 1.0
  {
    assert x == m * 9007199254740992.0;
    var e := m * y;
    assert e * 9007199254740992.0 == x * y == a as real <= 4294967295.0;
  }

  lemma TimesBack(u: real, v: real, w: real)
    requires v > 0.0 && u >= 0.0 && w == u / v
    ensures w * v == u && w >= 0.0
  {
  }

  lemma OverDivisor(m: real, z: real, y: real)
    requires y > 0.0 && m * y < 1.0 && z * y >= 1.0
    ensures m < z
  {
    assert (m - z) * y == m * y - z * y;
    assert m >= z ==> (m - z) * y >= 0.0;
  }

  /** Whatever JavaScript's rounded division answers for 32-bit operands, truncating it is Go's integer
      division. */
  lemma TruncRounded(a: int, b: int, q: real)
    requires b != 0 && -0x8000_0000 <= a <= 0xFFFF_FFFF && -0x8000_0000 <= b <= 0xFFFF_FFFF
    requires Rounds(q, a as real / b as real)
    ensures Trunc(q) == TruncDiv(a, b)
  {
    hide Rounds;
    QuotientSign(a, b);
    if (a < 0) == (b < 0) {
      NearFloor(Abs(a), Abs(b), q);
    } else {
      NegatedRounds(q, a as real / b as real);
      NearFloor(Abs(a), Abs(b), -q);
    }
  }

  lemma QuotientSign(a: int, b: int)
    requires b != 0
    ensures var x, p := a as real / b as real, Abs(a) as real / Abs(b) as real;
            x == if (a < 0) == (b < 0) then p else -p
  {
    Negate(Abs(a) as real, Abs(b) as real);
  }

  lemma Negate(u: real, v: real)
    requires v != 0.0
    ensures -u / v == -(u / v) && u / -v == -(u / v) && -u / -v == u / v
  {
  }

  lemma NegatedRounds(q: real, x: real)
    requires Rounds(q, x)
    ensures Rounds(-q, -x)
  {
    if -x == (-x).Floor as real { assert x == (-((-x).Floor)) as real && x.Floor == -((-x).Floor); }
  }
}
