// Two ways to sign-extend a bit field, and their agreement at every width.
module SignExtension {
  import opened Words
  import D = OracleDecode

  /** Go's sx16: push the field to the top of the word, then shift it back arithmetically.
      `scale` is two to the shift. */
  function Sx16(v: Word, scale: nat): Word
    requires scale > 0
  {
    U32(S32(U32(v * scale)) / scale)
  }

  /** The two's complement reading of v's low bits, m being two to the field's width. */
  function FieldValue(v: Word, m: nat): int
    requires m > 0
  {
    if 2 * (v % m) < m then v % m else v % m - m
  }

  lemma ModUnique(x: int, m: nat, q: int, r: int)
    requires m > 0 && x == q * m + r && 0 <= r < m
    ensures x % m == r && x / m == q
  {
    var d := x / m - q;
    MulMonotone(d, m);
    assert d * m == r - x % m;
  }

  lemma MulMonotone(d: int, m: nat)
    ensures d >= 1 ==> d * m >= m
    ensures d <= -1 ==> d * m <= 0 - m
  {
  }

  lemma ShiftUp(v: Word, k: nat, m: nat)
    requires k > 0 && m > 0 && k * m == 0x1_0000_0000
    ensures U32(v * k) == v % m * k
  {
    var q, w := v / m, v % m;
    calc {
      v * k;
      (q * m + w) * k;
      q * (k * m) + w * k;
    }
    assert w * k <= (m - 1) * k == k * m - k;
    ModUnique(v * k, 0x1_0000_0000, q, w * k);
  }

  lemma GoSide(v: Word, k: nat, m: nat)
    requires k > 0 && m > 0 && k * m == 0x1_0000_0000
    ensures S32(U32(v * k)) / k == FieldValue(v, m)
  {
    ShiftUp(v, k, m);
    var w := v % m;
    var u := w * k;
    Halve(w, k, m);
    if 2 * w < m {
      ModUnique(u, k, w, 0);
    } else {
      assert u - 0x1_0000_0000 == (w - m) * k by { Distribute(w, m, k); }
      ModUnique(u - 0x1_0000_0000, k, w - m, 0);
    }
  }

  lemma Distribute(a: int, b: int, k: int)
    ensures (a - b) * k == a * k - k * b
  {
  }

  lemma Halve(w: nat, k: nat, m: nat)
    requires k > 0 && k * m == 0x1_0000_0000
    ensures 2 * w < m <==> w * k < 0x8000_0000
  {
    if 2 * w < m {
      assert (2 * w) * k < m * k;
    } else {
      assert (2 * w) * k >= m * k;
    }
  }

  lemma OracleSide(v: Word, sign: nat)
    requires sign > 0
    ensures D.Sx(v, sign) == FieldValue(v, 2 * sign)
  {
    SplitBit(v, sign);
    Reread(v / sign % 2, v % sign, sign, v % (2 * sign), 2 * sign);
  }

  lemma Reread(b: int, r: int, s: int, w: int, m: int)
    requires m == 2 * s && 0 <= r < s && 0 <= b < 2 && w == b * s + r
    ensures r - b * s == if 2 * w < m then w else w - m
  {
    if b == 1 { assert b * s == s; }
  }

  lemma Pairs(h: nat, b: nat, s: nat, r: nat)
    requires b < 2 && r < s
    ensures (2 * h + b) * s + r == h * (2 * s) + (b * s + r)
    ensures b * s + r < 2 * s
  {
  }

  /** The sign bit and the bits under it, from the field they make up. */
  lemma SplitBit(v: nat, s: nat)
    requires s > 0
    ensures v % (2 * s) == v / s % 2 * s + v % s
  {
    var q, r := v / s, v % s;
    var h, b := q / 2, q % 2;
    Pairs(h, b, s, r);
    assert v == q * s + r && q == 2 * h + b;
    ModUnique(v, 2 * s, h, b * s + r);
  }

  /** Shifting up and back is the oracle's mask-and-subtract, at every field width. */
  lemma SignExtensionsAgree(v: Word, sign: nat, scale: nat)
    requires sign > 0 && scale > 0 && scale * (2 * sign) == 0x1_0000_0000
    ensures Sx16(v, scale) == U32(D.Sx(v, sign))
  {
    GoSide(v, scale, 2 * sign);
    OracleSide(v, sign);
  }
}
