// What relates the two readings of a register: Go's uint32 and the oracle's int32. Every lemma
// says that a Go operation on the unsigned words is the oracle's operation on the signed ones.
module Agreement {
  import opened Words
  import opened Frames
  import opened SignExtension

  type Gpr = s: seq<Word> | |s| == 32 witness seq(32, i => 0)

  /** The register file as the oracle reads it. */
  function Signed(g: Gpr): (r: Regs)
    ensures forall i :: 0 <= i < 32 ==> r[i] == S32(g[i])
  {
    seq(32, i requires 0 <= i < 32 => S32(g[i]))
  }

  lemma SignedSet(g: Gpr, d: Reg, v: Word)
    ensures Signed(g[d := v]) == Signed(g)[d := S32(v)]
  {
  }

  lemma RdIs(g: Gpr, n: Reg)
    requires g[0] == 0
    ensures Rd(Signed(g), n) == S32(g[n])
  {
  }

  /** The two conversions undo each other and absorb each other. */
  lemma Conversions(x: int)
    ensures S32(U32(x)) == S32(x) && U32(S32(x)) == U32(x)
    ensures S32(S32(x)) == S32(x) && U32(U32(x)) == U32(x)
  {
  }

  /** Adding a whole number of 2^32s changes neither reading. */
  lemma Wraps(x: int, k: int)
    ensures S32(x + k * 0x1_0000_0000) == S32(x) && U32(x + k * 0x1_0000_0000) == U32(x)
  {
  }

  lemma SignedIs(g: Word)
    ensures S32(g) == g || S32(g) == g - 0x1_0000_0000
    ensures U32(S32(g)) == g
  {
  }

  lemma AddAgree(g: Word, i: int)
    ensures S32(U32(g + U32(i))) == S32(S32(g) + i)
    ensures U32(g + U32(i)) == U32(S32(g) + i) == U32(g + i)
  {
    var k := i / 0x1_0000_0000;
    assert g + i == g + U32(i) + k * 0x1_0000_0000;
    Wraps(g + U32(i), k);
    SignedIs(g);
    Wraps(S32(g) + i, 1);
    Conversions(g + U32(i));
  }

  /** Integers a whole number of 2^32s apart are one word. */
  lemma Congruent(x: int, y: int, k: int)
    requires x == y + k * 0x1_0000_0000
    ensures S32(U32(x)) == S32(y)
  {
    Wraps(y, k);
    Conversions(x);
  }

  lemma RegAddAgree(a: Word, b: Word)
    ensures S32(U32(a + b)) == S32(S32(a) + S32(b))
  {
    SignedIs(a);
    SignedIs(b);
    var k := (if S32(a) == a then 0 else 1) + if S32(b) == b then 0 else 1;
    Congruent(a + b, S32(a) + S32(b), k);
  }

  lemma RegSubAgree(a: Word, b: Word)
    ensures S32(U32(a - b)) == S32(S32(a) - S32(b))
  {
    SignedIs(a);
    SignedIs(b);
    var k := (if S32(a) == a then 0 else 1) - if S32(b) == b then 0 else 1;
    Congruent(a - b, S32(a) - S32(b), k);
  }

  lemma NotAgree(b: Word)
    ensures S32(0xFFFF_FFFF - b) == S32(-1 - S32(b))
  {
    SignedIs(b);
    var k := 1 - if S32(b) == b then 0 else 1;
    Congruent(0xFFFF_FFFF - b, -1 - S32(b), k);
  }

  lemma NegAgree(b: Word)
    ensures S32(U32(-(b as int))) == S32(0 - S32(b))
  {
    SignedIs(b);
    Congruent(-(b as int), 0 - S32(b), if S32(b) == b then 0 else -1);
  }

  /** Scaling commutes with wrapping. */
  lemma ScaleAgree(x: int, n: nat)
    ensures U32(U32(x) * n) == U32(x * n)
  {
    var k := x / 0x1_0000_0000;
    assert x * n == U32(x) * n + k * n * 0x1_0000_0000 by {
      assert x == U32(x) + k * 0x1_0000_0000;
    }
    Wraps(U32(x) * n, k * n);
  }

  lemma ShiftLeftAgree(g: Word, p: nat)
    ensures S32(U32(g * p)) == S32(S32(g) * p)
  {
    SignedIs(g);
    Conversions(g * p);
    if S32(g) != g {
      assert g * p == S32(g) * p + p * 0x1_0000_0000;
      Wraps(S32(g) * p, p);
    }
  }

  lemma ShiftRightBound(x: nat, p: nat)
    requires p > 0
    ensures 0 <= x / p <= x
  {
    var q, r := x / p, x % p;
    assert x == q * p + r;
    MulMonotone(q, p);
    assert q >= 0;
    MulMonotone(p, q);
  }

  /** A logical or arithmetic right shift of a word stays a word. */
  lemma ShiftRightAgree(g: Word, p: nat)
    requires p > 0
    ensures 0 <= g / p < 0x1_0000_0000
    ensures S32(U32(S32(g) / p)) == S32(S32(g) / p)
  {
    ShiftRightBound(g, p);
    Conversions(S32(g) / p);
  }
}
