// The bits of a machine word, by division, and the bitwise operators bit by bit.
module WordBits {
  import opened Words

  lemma Grows(d: int, b: int)
    requires b > 0
    ensures d >= 1 ==> d * b >= b
    ensures d <= -1 ==> d * b <= -b
  {
  }

  lemma NoMultiple(d: int, b: int, e: int)
    requires b > 0 && d * b == e && -b < e < b
    ensures d == 0
  {
    Grows(d, b);
  }

  lemma Over(w: int, b: int, q: int, r: int)
    requires b > 0 && w == q * b + r && 0 <= r < b
    ensures w / b == q && w % b == r
  {
    var q', r' := w / b, w % b;
    assert w == q' * b + r' && 0 <= r' < b;
    Distributes(q, q', b);
    NoMultiple(q - q', b, r' - r);
  }

  lemma Distributes(x: int, y: int, b: int)
    ensures (x - y) * b == x * b - y * b
  {
  }

  /** Bit k of a word. */
  predicate Bit(v: Word, k: nat) {
    v / Pow2(k) % 2 == 1
  }

  /** Every bit of v is `op` of the bits of a and b. */
  ghost predicate Bitwise(v: Word, a: Word, b: Word, op: (bool, bool) -> bool) {
    forall k: nat :: k < 32 ==> Bit(v, k) == op(Bit(a, k), Bit(b, k))
  }

  lemma HalfBit(v: Word, k: nat)
    requires k > 0
    ensures Bit(v, k) == Bit(v / 2, k - 1)
  {
    Halved(v, Pow2(k - 1));
  }

  lemma Halved(v: nat, p: nat)
    requires p > 0
    ensures v / (2 * p) == v / 2 / p
  {
    var q, r := v / 2 / p, v / 2 % p;
    assert v / 2 == q * p + r;
    assert v == q * (2 * p) + (2 * r + v % 2) by { assert q * (2 * p) == 2 * (q * p); }
    Over(v, 2 * p, q, 2 * r + v % 2);
  }

  lemma ZeroBit(k: nat)
    ensures !Bit(0, k)
  {
    Over(0, Pow2(k), 0, 0);
  }

  lemma LowBit(v: Word)
    ensures Bit(v, 0) == (v % 2 == 1)
  {
    assert Pow2(0) == 1;
  }

  lemma UnfoldBits(a: Word, b: Word)
    requires a > 0 && b > 0
    ensures AndBits(a, b) / 2 == AndBits(a / 2, b / 2) && XorBits(a, b) / 2 == XorBits(a / 2, b / 2)
    ensures AndBits(a, b) % 2 == 1 <==> a % 2 == 1 && b % 2 == 1
    ensures XorBits(a, b) % 2 == 1 <==> a % 2 != b % 2
  {
  }

  lemma {:induction false} AndXorBits(a: Word, b: Word, k: nat)
    ensures AndBits(a, b) < 0x1_0000_0000 && XorBits(a, b) < 0x1_0000_0000
    ensures Bit(AndBits(a, b), k) == (Bit(a, k) && Bit(b, k))
    ensures Bit(XorBits(a, b), k) == (Bit(a, k) != Bit(b, k))
    decreases k
  {
    hide Bit;
    WordFits(a, b);
    if a == 0 || b == 0 {
      ZeroBit(k);
      XorZero(a);
    } else if k == 0 {
      UnfoldBits(a, b);
      LowBit(a);
      LowBit(b);
      LowBit(AndBits(a, b));
      LowBit(XorBits(a, b));
    } else {
      UnfoldBits(a, b);
      AndXorBits(a / 2, b / 2, k - 1);
      HalfBit(a, k);
      HalfBit(b, k);
      HalfBit(AndBits(a, b), k);
      HalfBit(XorBits(a, b), k);
    }
  }

  lemma {:induction false} XorZero(a: nat)
    ensures XorBits(a, 0) == a
  {
    if a > 0 { XorZero(a / 2); }
  }

  /** The complement within n bits flips each of them. */
  lemma {:induction false} NotBits(n: nat, a: Word, k: nat)
    requires a < Pow2(n) <= 0x1_0000_0000 && k < n
    ensures Pow2(n) - 1 - a < 0x1_0000_0000
    ensures Bit(Pow2(n) - 1 - a, k) == !Bit(a, k)
    decreases k
  {
    var c: Word := Pow2(n) - 1 - a;
    if k == 0 {
      assert Pow2(0) == 1;
      assert Pow2(n) == 2 * Pow2(n - 1);
    } else {
      HalfBit(a, k);
      HalfBit(c, k);
      assert c / 2 == Pow2(n - 1) - 1 - a / 2;
      NotBits(n - 1, a / 2, k - 1);
    }
  }

  lemma Pow32()
    ensures Pow2(32) == 0x1_0000_0000
  {
    assert Pow2(8) == 0x100 && Pow2(16) == 0x1_0000 && Pow2(24) == 0x100_0000;
  }

  lemma AndIs(a: Word, b: Word)
    ensures Bitwise(AndW(a, b), a, b, (x, y) => x && y)
  {
    forall k: nat | k < 32 ensures Bit(AndW(a, b), k) == (Bit(a, k) && Bit(b, k)) {
      AndXorBits(a, b, k);
    }
  }

  lemma XorIs(a: Word, b: Word)
    ensures Bitwise(XorW(a, b), a, b, (x, y) => x != y)
  {
    forall k: nat | k < 32 ensures Bit(XorW(a, b), k) == (Bit(a, k) != Bit(b, k)) {
      AndXorBits(a, b, k);
    }
  }

  lemma NotIs(a: Word, k: nat)
    requires k < 32
    ensures Bit(0xFFFF_FFFF - a, k) == !Bit(a, k)
  {
    Pow32();
    NotBits(32, a, k);
  }

  lemma OrIs(a: Word, b: Word)
    ensures Bitwise(OrW(a, b), a, b, (x, y) => x || y)
    ensures Bitwise(0xFFFF_FFFF - OrW(a, b), a, b, (x, y) => !(x || y))
  {
    hide Bit;
    var c, d := 0xFFFF_FFFF - a, 0xFFFF_FFFF - b;
    AndIs(c, d);
    forall k: nat | k < 32
      ensures Bit(OrW(a, b), k) == (Bit(a, k) || Bit(b, k))
      ensures Bit(0xFFFF_FFFF - OrW(a, b), k) == !(Bit(a, k) || Bit(b, k))
    {
      NotIs(a, k);
      NotIs(b, k);
      NotIs(AndW(c, d), k);
      NotIs(OrW(a, b), k);
    }
  }

  /** Taking 2^b out of a word that has its bit b clears that bit and no other. */
  lemma {:induction false} TakenOut(v: Word, b: nat, k: nat)
    ensures Bit(v, b) ==> v >= Pow2(b) && Bit(v - Pow2(b), k) == (Bit(v, k) && k != b)
    decreases b
  {
    hide Bit;
    if Bit(v, b) {
      BitHolds(v, b);
      var u: Word := v - Pow2(b);
      if b > 0 {
        HalfBit(v, b);
        TakenOut(v / 2, b - 1, if k == 0 then 0 else k - 1);
      }
      HalvesOf(v, b);
      if k == 0 {
        LowBit(v);
        LowBit(u);
      } else {
        HalfBit(v, k);
        HalfBit(u, k);
      }
    }
  }

  // What is left of a word's halves when 2^b is taken out of it.
  lemma HalvesOf(v: Word, b: nat)
    requires v >= Pow2(b) && Bit(v, b)
    ensures var u := v - Pow2(b);
            if b == 0 then u / 2 == v / 2 && u % 2 == 0 && v % 2 == 1 else u / 2 == v / 2 - Pow2(b - 1) && u % 2 == v % 2
  {
    if b == 0 { LowBit(v); }
  }

  lemma BitHolds(v: Word, b: nat)
    requires Bit(v, b)
    ensures v >= Pow2(b)
  {
    if v < Pow2(b) { Over(v, Pow2(b), 0, v); }
  }

  lemma Pow31()
    ensures Pow2(31) == 0x8000_0000
  {
    assert Pow2(8) == 0x100 && Pow2(16) == 0x1_0000 && Pow2(24) == 0x100_0000;
  }

  lemma {:induction false} SameBits(v: Word, w: Word, n: nat)
    requires v < Pow2(n) && w < Pow2(n) && forall k: nat :: k < n ==> Bit(v, k) == Bit(w, k)
    ensures v == w
  {
    if n > 0 {
      LowBit(v);
      LowBit(w);
      forall k: nat | k < n - 1 ensures Bit(v / 2, k) == Bit(w / 2, k) {
        HalfBit(v, k + 1);
        HalfBit(w, k + 1);
      }
      hide Bit;
      SameBits(v / 2, w / 2, n - 1);
    }
  }

  // ---- Bits moved up ------------------------------------------------------------------------

  function Doubled(b: nat, j: nat): nat {
    if j == 0 then b else 2 * Doubled(b, j - 1)
  }

  lemma {:induction false} DoubledGrows(b: nat, j: nat, n: nat)
    requires j <= n
    ensures Doubled(b, j) <= Doubled(b, n)
    decreases n
  {
    if j < n { DoubledGrows(b, j, n - 1); }
  }

  lemma EightTimes(b: nat, j: nat)
    ensures Doubled(b, j + 8) == 0x100 * Doubled(b, j)
  {
    assert Doubled(b, j + 2) == 4 * Doubled(b, j);
    assert Doubled(b, j + 4) == 4 * Doubled(b, j + 2);
    assert Doubled(b, j + 6) == 4 * Doubled(b, j + 4);
    assert Doubled(b, j + 8) == 4 * Doubled(b, j + 6);
  }

  lemma Raised24(b: nat)
    ensures Doubled(b, 8) == b * 0x100 && Doubled(b, 24) == b * 0x100_0000
  {
    EightTimes(b, 0);
    EightTimes(b, 8);
    EightTimes(b, 16);
    assert Doubled(b, 0) == b;
    hide Doubled;
  }

  lemma {:induction false} DoubledHas(b: Byte, j: nat, k: nat)
    requires j <= 24
    ensures Doubled(b, j) < 0x1_0000_0000
    ensures Bit(Doubled(b, j), k) <==> k >= j && Bit(b, k - j)
  {
    hide Bit;
    DoubledGrows(b, j, 24);
    Raised24(b);
    if j > 0 {
      var x := Doubled(b, j - 1);
      DoubledHas(b, j - 1, if k == 0 then 0 else k - 1);
      if k == 0 { LowBit(2 * x); } else { HalfBit(2 * x, k); }
    }
  }

  lemma HighBits(b: Byte, k: nat)
    requires k >= 8
    ensures !Bit(b, k)
  {
    Larger(8, k);
    Over(b, Pow2(k), 0, b);
  }

  lemma {:induction false} Larger(m: nat, n: nat)
    requires m <= n
    ensures Pow2(m) <= Pow2(n)
    decreases n
  {
    if m < n { Larger(m, n - 1); }
  }

  // ---- The bits of a constant -----------------------------------------------------------------

  // The set bits among a number's n low ones, counted from k up.
  function SetBits(v: nat, k: nat, n: nat): set<nat>
    decreases n
  {
    if n == 0 then {} else SetBits(v / 2, k + 1, n - 1) + if v % 2 == 1 then {k} else {}
  }

  lemma {:induction false} SetBitsHas(v: Word, k: nat, n: nat, e: nat)
    ensures e in SetBits(v, k, n) <==> k <= e < k + n && Bit(v, e - k)
    decreases n
  {
    if n > 0 {
      SetBitsHas(v / 2, k + 1, n - 1, e);
      if e == k { LowBit(v); }
      if e > k { HalfBit(v, e - k); }
      hide Bit;
    }
  }

  // Four bits of it at a time.
  function Term(v: nat, k: nat): set<nat> {
    if v % 2 == 1 then {k} else {}
  }

  function Nibble(v: nat, k: nat): set<nat> {
    Term(v, k) + Term(v / 2, k + 1) + Term(v / 2 / 2, k + 2) + Term(v / 2 / 2 / 2, k + 3)
  }

  lemma NextNibble(v: nat, k: nat, n: nat)
    requires n >= 4
    ensures SetBits(v, k, n) == SetBits(v / 2 / 2 / 2 / 2, k + 4, n - 4) + Nibble(v, k)
  {
    NextSetBit(v, k, n);
    NextSetBit(v / 2, k + 1, n - 1);
    NextSetBit(v / 2 / 2, k + 2, n - 2);
    NextSetBit(v / 2 / 2 / 2, k + 3, n - 3);
    hide SetBits, Term;
  }

  lemma NextSetBit(v: nat, k: nat, n: nat)
    requires n > 0
    ensures SetBits(v, k, n) == SetBits(v / 2, k + 1, n - 1) + Term(v, k)
  {
  }

  lemma NoSetBits(v: nat, k: nat)
    ensures SetBits(v, k, 0) == {}
  {
  }
}
