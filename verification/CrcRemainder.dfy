// internal/dvb/crc.go: what the section CRC is. A polynomial over the field of two elements is the set of
// the exponents it has; the checksum is the remainder of the message, its first 32 bits inverted, divided
// by the generator of MPEG-2 systems.
module CrcRemainder {
  import opened Words
  import opened WordBits
  import opened Crc

  type Polynomial = set<nat>

  // ---- Polynomials --------------------------------------------------------------------------

  /** Coefficients add modulo two. */
  function Sum(p: Polynomial, q: Polynomial): Polynomial {
    (p - q) + (q - p)
  }

  /** x^n times p. */
  function Shifted(p: Polynomial, n: nat): Polynomial {
    set e | e in p :: e + n
  }

  /** The terms of q below x^n, times g. */
  function Times(q: Polynomial, g: Polynomial, n: nat): Polynomial {
    if n == 0 then {}
    else Sum(Times(q, g, n - 1), if n - 1 in q then Shifted(g, n - 1) else {})
  }

  ghost predicate Below(p: Polynomial, n: nat) {
    forall e :: e in p ==> e < n
  }

  /** r is what is left of p divided by g, whose degree is d. */
  ghost predicate IsRemainder(r: Polynomial, p: Polynomial, g: Polynomial, d: nat) {
    Below(r, d) && exists q: Polynomial, n: nat :: Divides(q, n, r, p, g)
  }

  predicate Divides(q: Polynomial, n: nat, r: Polynomial, p: Polynomial, g: Polynomial) {
    p == Sum(Times(q, g, n), r)
  }

  lemma ShiftedHas(p: Polynomial, n: nat, e: nat)
    ensures e in Shifted(p, n) <==> e >= n && e - n in p
  {
    if e >= n && e - n in p { assert (e - n) + n in Shifted(p, n); }
  }

  lemma ShiftedSum(p: Polynomial, q: Polynomial, n: nat)
    ensures Shifted(Sum(p, q), n) == Sum(Shifted(p, n), Shifted(q, n))
  {
    forall e: nat ensures e in Shifted(Sum(p, q), n) <==> e in Sum(Shifted(p, n), Shifted(q, n)) {
      ShiftedHas(Sum(p, q), n, e);
      ShiftedHas(p, n, e);
      ShiftedHas(q, n, e);
    }
  }

  lemma ShiftedTwice(p: Polynomial, m: nat, n: nat)
    ensures Shifted(Shifted(p, m), n) == Shifted(p, m + n)
  {
    forall e: nat ensures e in Shifted(Shifted(p, m), n) <==> e in Shifted(p, m + n) {
      ShiftedHas(Shifted(p, m), n, e);
      if e >= n { ShiftedHas(p, m, e - n); }
      ShiftedHas(p, m + n, e);
    }
  }

  lemma {:induction false} TimesAdds(q: Polynomial, q': Polynomial, g: Polynomial, n: nat)
    ensures Times(Sum(q, q'), g, n) == Sum(Times(q, g, n), Times(q', g, n))
  {
    if n > 0 { TimesAdds(q, q', g, n - 1); }
  }

  lemma {:induction false} TimesMore(q: Polynomial, g: Polynomial, n: nat, m: nat)
    requires n <= m && Below(q, n)
    ensures Times(q, g, m) == Times(q, g, n)
    decreases m
  {
    if n < m { TimesMore(q, g, n, m - 1); }
  }

  lemma {:induction false} TimesBelow(q: Polynomial, g: Polynomial, n: nat, d: nat)
    requires Below(g, d + 1) && d > 0
    ensures Below(Times(q, g, n), n + d)
  {
    if n > 0 { TimesBelow(q, g, n - 1, d); }
  }

  lemma TopTerm(q: Polynomial, g: Polynomial, n: nat, d: nat)
    requires Below(g, d + 1) && d in g && d > 0 && n > 0
    ensures n - 1 in q ==> n - 1 + d in Times(q, g, n)
  {
    TimesBelow(q, g, n - 1, d);
    ShiftedHas(g, n - 1, n - 1 + d);
  }

  /** A multiple of a polynomial of degree d that has no term from x^d on is zero. */
  lemma {:induction false} ShortMultiple(q: Polynomial, g: Polynomial, n: nat, d: nat)
    requires Below(g, d + 1) && d in g && d > 0 && Below(Times(q, g, n), d)
    ensures Times(q, g, n) == {}
  {
    if n > 0 {
      TopTerm(q, g, n, d);
      ShortMultiple(q, g, n - 1, d);
    }
  }

  ghost function Join(q: Polynomial, n: nat): Polynomial {
    set e | e in q && e < n
  }

  lemma {:induction false} TimesJoin(q: Polynomial, g: Polynomial, n: nat, m: nat)
    requires m <= n
    ensures Times(Join(q, n), g, m) == Times(q, g, m)
  {
    if m > 0 { TimesJoin(q, g, n, m - 1); }
  }

  /** A polynomial has one remainder. */
  lemma OneRemainder(r: Polynomial, r': Polynomial, p: Polynomial, g: Polynomial, d: nat)
    requires Below(g, d + 1) && d in g && d > 0
    requires IsRemainder(r, p, g, d) && IsRemainder(r', p, g, d)
    ensures r == r'
  {
    var q: Polynomial, n: nat :| Divides(q, n, r, p, g);
    var q': Polynomial, n': nat :| Divides(q', n', r', p, g);
    var m := if n < n' then n' else n;
    var a, b := Join(q, n), Join(q', n');
    TimesJoin(q, g, n, n);
    TimesJoin(q', g, n', n');
    TimesMore(a, g, n, m);
    TimesMore(b, g, n', m);
    TimesAdds(a, b, g, m);
    var t, t' := Times(q, g, n), Times(q', g, n');
    assert Sum(t, t') == Sum(r, r') by { Cancel(t, r, t', r', p); }
    ShortMultiple(Sum(a, b), g, m, d);
    assert Sum(r, r') == {};
    Equal(r, r');
  }

  lemma Cancel(t: Polynomial, r: Polynomial, t': Polynomial, r': Polynomial, p: Polynomial)
    requires p == Sum(t, r) && p == Sum(t', r')
    ensures Sum(t, t') == Sum(r, r')
  {
    forall e: nat ensures e in Sum(t, t') <==> e in Sum(r, r') {
      assert e in p <==> (e in t) != (e in r);
      assert e in p <==> (e in t') != (e in r');
    }
  }

  lemma Equal(r: Polynomial, r': Polynomial)
    requires Sum(r, r') == {}
    ensures r == r'
  {
    forall e: nat ensures e in r <==> e in r' { assert e !in Sum(r, r'); }
  }

  // ---- The message --------------------------------------------------------------------------

  /** x^32 + x^26 + ... + 1. */
  const GENERATOR: Polynomial := {32, 26, 23, 22, 16, 12, 11, 10, 8, 7, 5, 4, 2, 1, 0}

  /** The terms a word's bits stand for. */
  function Terms(w: Word): Polynomial {
    set k: nat | k < 32 && Bit(w, k)
  }

  /** The message's bits, the first the highest term. */
  function Message(data: seq<Byte>): Polynomial {
    if data == [] then {}
    else Sum(Shifted(Message(data[..|data| - 1]), 8), Terms(data[|data| - 1]))
  }

  /** 32 zero bits after the message, and its first 32 bits, running into those zeros if it is short,
      inverted. */
  function Dividend(data: seq<Byte>): Polynomial {
    Sum(Shifted(Message(data), 32), Shifted(Terms(0xFFFF_FFFF), 8 * |data|))
  }

  // ---- The register -------------------------------------------------------------------------

  lemma XorTerms(a: Word, b: Word)
    ensures Terms(XorW(a, b)) == Sum(Terms(a), Terms(b))
  {
    XorIs(a, b);
    hide Bit, XorW;
  }

  lemma TopAndLow(c: Word)
    ensures Bit(c, 31) <==> c >= 0x8000_0000
    ensures MulW(c, 2) == if c >= 0x8000_0000 then 2 * (c - 0x8000_0000) else 2 * c
  {
    Pow31();
    Over(c, 0x8000_0000, if c >= 0x8000_0000 then 1 else 0, if c >= 0x8000_0000 then c - 0x8000_0000 else c);
  }

  lemma DoubledBit(c: Word, k: nat)
    requires k < 32
    ensures Bit(MulW(c, 2), k) <==> k > 0 && Bit(c, k - 1)
  {
    TopAndLow(c);
    var d := MulW(c, 2);
    if k == 0 {
      LowBit(d);
    } else {
      HalfBit(d, k);
      if c >= 0x8000_0000 {
        Pow31();
        TakenOut(c, 31, k - 1);
        assert d / 2 == c - Pow2(31);
      } else {
        assert d / 2 == c;
      }
    }
  }

  /** Doubling a word moves its terms up, but for the top one, which falls off. */
  lemma DoubledTerms(c: Word)
    ensures Shifted(Terms(c), 1) == Sum(Terms(MulW(c, 2)), if c >= 0x8000_0000 then {32} else {})
  {
    hide Bit, MulW;
    TopAndLow(c);
    forall e: nat
      ensures e in Shifted(Terms(c), 1) <==> e in Sum(Terms(MulW(c, 2)), if c >= 0x8000_0000 then {32} else {})
    {
      ShiftedHas(Terms(c), 1, e);
      if e < 32 { DoubledBit(c, e); }
    }
  }

  lemma TermsAreSetBits(v: Word)
    ensures SetBits(v, 0, 32) == Terms(v)
  {
    hide Bit, SetBits;
    forall e: nat ensures e in SetBits(v, 0, 32) <==> e in Terms(v) { SetBitsHas(v, 0, 32, e); }
  }

  lemma GeneratorByte0()
    ensures SetBits(0x4C11DB7, 0, 32) == SetBits(0x4C11D, 8, 24) + {7, 5, 4, 2, 1, 0}
  {
    hide SetBits;
    NextNibble(0x4C11DB7, 0, 32);
    NextNibble(0x4C11DB, 4, 28);
  }

  lemma GeneratorByte1()
    ensures SetBits(0x4C11D, 8, 24) == SetBits(0x4C1, 16, 16) + {12, 11, 10, 8}
  {
    hide SetBits;
    NextNibble(0x4C11D, 8, 24);
    NextNibble(0x4C11, 12, 20);
  }

  lemma GeneratorByte2()
    ensures SetBits(0x4C1, 16, 16) == SetBits(0x4, 24, 8) + {23, 22, 16}
  {
    hide SetBits;
    NextNibble(0x4C1, 16, 16);
    NextNibble(0x4C, 20, 12);
  }

  lemma GeneratorByte3()
    ensures SetBits(0x4, 24, 8) == SetBits(0x0, 32, 0) + {26}
  {
    hide SetBits;
    NextNibble(0x4, 24, 8);
    NextNibble(0x0, 28, 4);
  }

  lemma GeneratorByte()
    ensures SetBits(0x4C11DB7, 0, 32) == {26, 23, 22, 16, 12, 11, 10, 8, 7, 5, 4, 2, 1, 0}
  {
    hide SetBits;
    GeneratorByte0();
    GeneratorByte1();
    GeneratorByte2();
    GeneratorByte3();
    NoSetBits(0, 32);
  }

  lemma GeneratorTerms()
    ensures Terms(0x04C1_1DB7) == GENERATOR - {32}
  {
    hide Terms, SetBits;
    TermsAreSetBits(0x04C1_1DB7);
    GeneratorByte();
  }

  /** The all-ones word has every term below x^32. */
  lemma AllOnes(e: nat)
    ensures e in Terms(0xFFFF_FFFF) <==> e < 32
  {
    if e < 32 {
      NotIs(0, e);
      ZeroBit(e);
    }
    hide Bit;
  }

  // ---- Each step is a step of the division ------------------------------------------------------

  lemma StepDivides(c: Word)
    ensures Shifted(Terms(c), 1) == Sum(Terms(Step(c)), if c >= 0x8000_0000 then GENERATOR else {})
  {
    hide Terms, Bit, MulW, XorW;
    DoubledTerms(c);
    GeneratorTerms();
    if c >= 0x8000_0000 { XorTerms(MulW(c, 2), 0x04C1_1DB7); }
  }

  ghost predicate Leaves(p: Polynomial, c: Word) {
    IsRemainder(Terms(c), p, GENERATOR, 32)
  }

  lemma {:induction false} TimesShifted(q: Polynomial, g: Polynomial, n: nat, low: bool)
    ensures var up := Shifted(q, 1) + if low then {0} else {};
            Times(up, g, n + 1) == Sum(Shifted(Times(q, g, n), 1), if low then g else {})
  {
    var up := Shifted(q, 1) + if low then {0} else {};
    if n == 0 {
      ShiftedHas(q, 1, 0);
      assert Times(up, g, 1) == Sum(Times(up, g, 0), if 0 in up then Shifted(g, 0) else {});
      forall e: nat ensures e in Shifted(g, 0) <==> e in g { ShiftedHas(g, 0, e); }
      assert Shifted(g, 0) == g && Shifted({}, 1) == {};
    } else {
      TimesShifted(q, g, n - 1, low);
      ShiftedHas(q, 1, n);
      var last := if n - 1 in q then Shifted(g, n - 1) else {};
      ShiftedTwice(g, n - 1, 1);
      ShiftedSum(Times(q, g, n - 1), last, 1);
      assert Shifted({}, 1) == {};
    }
  }

  lemma SumMoves(a: Polynomial, b: Polynomial, c: Polynomial)
    ensures Sum(a, Sum(b, c)) == Sum(Sum(a, c), b)
  {
  }

  lemma Stepped(p: Polynomial, c: Word)
    requires Leaves(p, c)
    ensures Leaves(Shifted(p, 1), Step(c))
  {
    hide Bit, Step, Times, Sum, Shifted, Terms;
    var q: Polynomial, n: nat :| Divides(q, n, Terms(c), p, GENERATOR);
    var top := c >= 0x8000_0000;
    var up := Shifted(q, 1) + if top then {0} else {};
    TimesShifted(q, GENERATOR, n, top);
    StepDivides(c);
    ShiftedSum(Times(q, GENERATOR, n), Terms(c), 1);
    SumMoves(Shifted(Times(q, GENERATOR, n), 1), Terms(Step(c)), if top then GENERATOR else {});
    assert Divides(up, n + 1, Terms(Step(c)), Shifted(p, 1), GENERATOR);
    TermsBelow(Step(c));
  }

  lemma TermsBelow(c: Word)
    ensures Below(Terms(c), 32)
  {
  }

  lemma {:induction false} StepsLeave(p: Polynomial, c: Word, n: nat)
    requires Leaves(p, c)
    ensures Leaves(Shifted(p, n), Steps(c, n))
  {
    hide Step, Leaves;
    if n == 0 {
      forall e: nat ensures e in Shifted(p, 0) <==> e in p { ShiftedHas(p, 0, e); }
      assert Shifted(p, 0) == p;
    } else {
      StepsLeave(p, c, n - 1);
      Stepped(Shifted(p, n - 1), Steps(c, n - 1));
      ShiftedTwice(p, n - 1, 1);
    }
  }

  lemma Mixed(p: Polynomial, c: Word, b: Word)
    requires Leaves(p, c)
    ensures Leaves(Sum(p, Terms(b)), XorW(c, b))
  {
    hide Bit, XorW, Times;
    var q: Polynomial, n: nat :| Divides(q, n, Terms(c), p, GENERATOR);
    XorTerms(c, b);
    assert Divides(q, n, Terms(XorW(c, b)), Sum(p, Terms(b)), GENERATOR);
  }

  lemma RaisedTerms(b: Byte)
    ensures Terms(Raised(b)) == Shifted(Terms(b), 24)
  {
    Raised24(b);
    hide Bit, Doubled, Raised;
    forall e: nat ensures e in Terms(Raised(b)) <==> e in Shifted(Terms(b), 24) {
      ShiftedHas(Terms(b), 24, e);
      DoubledHas(b, 24, e);
      if e >= 32 { HighBits(b, e - 24); }
    }
  }

  // ---- The checksum is the remainder ------------------------------------------------------------

  lemma NextDividend(data: seq<Byte>, b: Byte)
    ensures Dividend(data + [b]) == Shifted(Sum(Dividend(data), Terms(Raised(b))), 8)
  {
    var m, ones, n := Message(data), Terms(0xFFFF_FFFF), 8 * |data|;
    assert (data + [b])[..|data|] == data;
    assert Message(data + [b]) == Sum(Shifted(m, 8), Terms(b));
    assert Dividend(data + [b]) == Sum(Shifted(Message(data + [b]), 32), Shifted(ones, n + 8));
    hide Message, Terms, Dividend;
    assert Dividend(data) == Sum(Shifted(m, 32), Shifted(ones, n)) by { DividendIs(data); }
    RaisedTerms(b);
    ShiftedSum(Shifted(m, 8), Terms(b), 32);
    ShiftedTwice(m, 8, 32);
    ShiftedTwice(m, 32, 8);
    ShiftedTwice(ones, n, 8);
    ShiftedTwice(Terms(b), 24, 8);
    ShiftedSum(Dividend(data), Shifted(Terms(b), 24), 8);
    ShiftedSum(Shifted(m, 32), Shifted(ones, n), 8);
    hide Shifted;
  }

  lemma DividendIs(data: seq<Byte>)
    ensures Dividend(data) == Sum(Shifted(Message(data), 32), Shifted(Terms(0xFFFF_FFFF), 8 * |data|))
  {
  }

  lemma {:induction false} ChecksumLeaves(data: seq<Byte>)
    ensures Leaves(Dividend(data), Checksum(data))
    decreases |data|
  {
    hide Leaves, Feed, Dividend, Terms, Steps, XorW;
    if data == [] {
      NothingLeaves();
    } else {
      var n := |data| - 1;
      var early, b := data[..n], data[n];
      assert data == early + [b];
      ChecksumLeaves(early);
      NextDividend(early, b);
      Mixed(Dividend(early), Checksum(early), Raised(b));
      StepsLeave(Sum(Dividend(early), Terms(Raised(b))), XorW(Checksum(early), Raised(b)), 8);
      FedIs(early, b);
    }
  }

  lemma FedIs(data: seq<Byte>, b: Byte)
    ensures Checksum(data + [b]) == Steps(XorW(Checksum(data), Raised(b)), 8)
  {
    assert (data + [b])[..|data|] == data;
    hide Steps, XorW, Raised;
  }

  lemma NothingLeaves()
    ensures Leaves(Dividend([]), Checksum([]))
  {
    var ones := Terms(0xFFFF_FFFF);
    hide Terms;
    assert Shifted({}, 32) == {};
    forall e: nat ensures e in Shifted(ones, 0) <==> e in ones { ShiftedHas(ones, 0, e); }
    assert Shifted(ones, 0) == ones;
    assert Divides({}, 0, ones, Dividend([]), GENERATOR);
    forall e: nat ensures e in ones ==> e < 32 { AllOnes(e); }
  }

  lemma TermsTell(v: Word, w: Word)
    requires Terms(v) == Terms(w)
    ensures v == w
  {
    hide Bit;
    Pow32();
    forall k: nat | k < 32 ensures Bit(v, k) == Bit(w, k) {
      assert k in Terms(v) <==> Bit(v, k);
      assert k in Terms(w) <==> Bit(w, k);
    }
    SameBits(v, w, 32);
  }

  /** The checksum of a message, and no other word, holds the remainder of the message divided by the
      generator. */
  lemma ChecksumIsRemainder(data: seq<Byte>, c: Word)
    ensures c == Checksum(data) <==> IsRemainder(Terms(c), Dividend(data), GENERATOR, 32)
  {
    hide Terms, Dividend, Checksum, IsRemainder;
    ChecksumLeaves(data);
    assert Leaves(Dividend(data), Checksum(data)) == IsRemainder(Terms(Checksum(data)), Dividend(data), GENERATOR, 32);
    if IsRemainder(Terms(c), Dividend(data), GENERATOR, 32) {
      OneRemainder(Terms(c), Terms(Checksum(data)), Dividend(data), GENERATOR, 32);
      TermsTell(c, Checksum(data));
    }
  }

  // ---- Two check values -------------------------------------------------------------------------

  // Exclusive or by hexadecimal digits, each digit as its four bits.
  datatype Hex = Hex(b3: bool, b2: bool, b1: bool, b0: bool)

  function Val(h: Hex): nat {
    8 * Flag(h.b3) + 4 * Flag(h.b2) + 2 * Flag(h.b1) + Flag(h.b0)
  }

  function XorHex(h: Hex, g: Hex): Hex {
    Hex(h.b3 != g.b3, h.b2 != g.b2, h.b1 != g.b1, h.b0 != g.b0)
  }

  const H0 := Hex(false, false, false, false)
  const H1 := Hex(false, false, false, true)
  const H2 := Hex(false, false, true, false)
  const H3 := Hex(false, false, true, true)
  const H4 := Hex(false, true, false, false)
  const H5 := Hex(false, true, false, true)
  const H6 := Hex(false, true, true, false)
  const H7 := Hex(false, true, true, true)
  const H8 := Hex(true, false, false, false)
  const H9 := Hex(true, false, false, true)
  const HA := Hex(true, false, true, false)
  const HB := Hex(true, false, true, true)
  const HC := Hex(true, true, false, false)
  const HD := Hex(true, true, false, true)
  const HE := Hex(true, true, true, false)
  const HF := Hex(true, true, true, true)

  lemma {:induction false} XorNext(a: nat, b: nat, r: nat, a': nat, b': nat, x: bool, y: bool, z: bool)
    requires XorBits(a, b) == r && a' == 2 * a + Flag(x) && b' == 2 * b + Flag(y) && z == (x != y)
    ensures XorBits(a', b') == 2 * r + Flag(z)
  {
    assert a' / 2 == a && b' / 2 == b;
  }

  // A digit more, a bit at a time.
  lemma BitByBit(a: nat, h: Hex) returns (a1: nat, a2: nat, a3: nat, a4: nat)
    ensures a1 == 2 * a + Flag(h.b3) && a2 == 2 * a1 + Flag(h.b2) && a3 == 2 * a2 + Flag(h.b1) && a4 == 2 * a3 + Flag(h.b0)
    ensures a4 == 16 * a + Val(h)
  {
    a1 := 2 * a + Flag(h.b3);
    a2 := 2 * a1 + Flag(h.b2);
    a3 := 2 * a2 + Flag(h.b1);
    a4 := 2 * a3 + Flag(h.b0);
  }

  // One more digit of a word and of the generator.
  lemma {:induction false} NextDigit(a: nat, b: nat, r: nat, h: Hex, g: Hex) returns (a': nat, b': nat, r': nat)
    requires XorBits(a, b) == r
    ensures a' == 16 * a + Val(h) && b' == 16 * b + Val(g) && r' == 16 * r + Val(XorHex(h, g))
    ensures XorBits(a', b') == r'
  {
    hide XorBits, Flag, Val;
    var x := XorHex(h, g);
    var a1, a2, a3, a4 := BitByBit(a, h);
    var b1, b2, b3, b4 := BitByBit(b, g);
    var r1, r2, r3, r4 := BitByBit(r, x);
    XorNext(a, b, r, a1, b1, h.b3, g.b3, x.b3);
    XorNext(a1, b1, r1, a2, b2, h.b2, g.b2, x.b2);
    XorNext(a2, b2, r2, a3, b3, h.b1, g.b1, x.b1);
    XorNext(a3, b3, r3, a4, b4, h.b0, g.b0, x.b0);
    a', b', r' := a4, b4, r4;
  }

  // Adding the generator's 32 low terms to a word, digit by digit.
  lemma {:induction false} HighDigits(h: Hex, f: Hex, e: Hex, d: Hex) returns (w: nat, r: nat)
    ensures w == 0x1000 * Val(h) + 0x100 * Val(f) + 0x10 * Val(e) + Val(d)
    ensures r == 0x1000 * Val(h) + 0x100 * Val(XorHex(f, H4)) + 0x10 * Val(XorHex(e, HC)) + Val(XorHex(d, H1))
    ensures XorBits(w, 0x04C1) == r
  {
    hide XorBits, XorHex;
    assert Val(H4) == 4 && Val(HC) == 0xC && Val(H1) == 1;
    hide Val;
    var g: nat := 0;
    w, r := Val(h), Val(h);
    XorZero(w);
    w, g, r := NextDigit(w, g, r, f, H4);
    w, g, r := NextDigit(w, g, r, e, HC);
    w, g, r := NextDigit(w, g, r, d, H1);
  }

  lemma {:induction false} LowDigits(v: nat, q: nat, c: Hex, b: Hex, a: Hex, z: Hex) returns (w: nat, r: nat)
    requires XorBits(v, 0x04C1) == q
    ensures w == 0x1_0000 * v + 0x1000 * Val(c) + 0x100 * Val(b) + 0x10 * Val(a) + Val(z)
    ensures r == 0x1_0000 * q + 0x1000 * Val(XorHex(c, H1)) + 0x100 * Val(XorHex(b, HD)) + 0x10 * Val(XorHex(a, HB)) + Val(XorHex(z, H7))
    ensures XorBits(w, 0x04C1_1DB7) == r
  {
    hide XorBits, XorHex;
    assert Val(H1) == 1 && Val(HD) == 0xD && Val(HB) == 0xB && Val(H7) == 7;
    hide Val;
    var g: nat := 0x04C1;
    w, r := v, q;
    w, g, r := NextDigit(w, g, r, c, H1);
    w, g, r := NextDigit(w, g, r, b, HD);
    w, g, r := NextDigit(w, g, r, a, HB);
    w, g, r := NextDigit(w, g, r, z, H7);
  }

  lemma Reduced(c: Word, d: Word)
    requires c >= 0x8000_0000 && 2 * c == 0x1_0000_0000 + d
    ensures Step(c) == XorBits(d, 0x04C1_1DB7)
  {
    hide XorBits;
  }

  lemma Unreduced(c: Word)
    requires c < 0x8000_0000
    ensures Step(c) == 2 * c
  {
    hide XorW;
  }

  lemma Step1()
    ensures Step(0xFFFF_FFFF) == 0xFB3E_E249
  {
    hide XorBits, Step;
    var v, q := HighDigits(HF, HF, HF, HF);
    var w, r := LowDigits(v, q, HF, HF, HF, HE);
    Reduced(0xFFFF_FFFF, 0xFFFF_FFFE);
  }

  lemma Step2()
    ensures Step(0xFB3E_E249) == 0xF2BC_D925
  {
    hide XorBits, Step;
    var v, q := HighDigits(HF, H6, H7, HD);
    var w, r := LowDigits(v, q, HC, H4, H9, H2);
    Reduced(0xFB3E_E249, 0xF67D_C492);
  }

  lemma Step3()
    ensures Step(0xF2BC_D925) == 0xE1B8_AFFD
  {
    hide XorBits, Step;
    var v, q := HighDigits(HE, H5, H7, H9);
    var w, r := LowDigits(v, q, HB, H2, H4, HA);
    Reduced(0xF2BC_D925, 0xE579_B24A);
  }

  lemma Step4()
    ensures Step(0xE1B8_AFFD) == 0xC7B0_424D
  {
    hide XorBits, Step;
    var v, q := HighDigits(HC, H3, H7, H1);
    var w, r := LowDigits(v, q, H5, HF, HF, HA);
    Reduced(0xE1B8_AFFD, 0xC371_5FFA);
  }

  lemma Step5()
    ensures Step(0xC7B0_424D) == 0x8BA1_992D
  {
    hide XorBits, Step;
    var v, q := HighDigits(H8, HF, H6, H0);
    var w, r := LowDigits(v, q, H8, H4, H9, HA);
    Reduced(0xC7B0_424D, 0x8F60_849A);
  }

  lemma Step6()
    ensures Step(0x8BA1_992D) == 0x1382_2FED
  {
    hide XorBits, Step;
    var v, q := HighDigits(H1, H7, H4, H3);
    var w, r := LowDigits(v, q, H3, H2, H5, HA);
    Reduced(0x8BA1_992D, 0x1743_325A);
  }

  /** Two values of the check: of nothing, and of one zero byte. */
  lemma CheckValues()
    ensures Checksum([]) == 0xFFFF_FFFF
    ensures Checksum([0]) == 0x4E08_BFB4
  {
    hide Step, Steps, Checksum, XorBits;
    FedIs([], 0);
    assert [] + [0] == [0];
    NothingFed();
    XorZero(0xFFFF_FFFF);
    Step1();
    Step2();
    Step3();
    Step4();
    Step5();
    Step6();
    Unreduced(0x1382_2FED);
    Unreduced(0x2704_5FDA);
    EightSteps(0xFFFF_FFFF);
  }

  lemma NothingFed()
    ensures Checksum([]) == 0xFFFF_FFFF && Raised(0) == 0
  {
  }

  lemma EightSteps(c: Word)
    ensures Steps(c, 8) == Step(Step(Step(Step(Step(Step(Step(Step(c))))))))
  {
    hide Step;
    assert Steps(c, 1) == Step(Steps(c, 0)) == Step(c);
    assert Steps(c, 2) == Step(Step(c));
    assert Steps(c, 4) == Step(Step(Steps(c, 2)));
    assert Steps(c, 6) == Step(Step(Steps(c, 4)));
  }
}
