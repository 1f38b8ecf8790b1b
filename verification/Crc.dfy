// internal/dvb/crc.go: the MPEG-2 section CRC. The register is a 32-bit word; its bits, highest
// first, are what the proofs work on.
module Crc {
  import opened Words

  const POLYNOMIAL: Word := 0x04C1_1DB7

  // ---- The computation ----------------------------------------------------------------------------

  function Step(crc: Word): Word {
    if crc >= 0x8000_0000 then XorW(MulW(crc, 2), POLYNOMIAL) else MulW(crc, 2)
  }

  function Steps(crc: Word, n: nat): Word {
    if n == 0 then crc else Step(Steps(crc, n - 1))
  }

  /** uint32(b) << 24 */
  function Raised(b: Byte): Word {
    b * 0x100_0000
  }

  function Feed(crc: Word, b: Byte): Word {
    Steps(XorW(crc, Raised(b)), 8)
  }

  function FeedAll(crc: Word, data: seq<Byte>): Word {
    if data == [] then crc else Feed(FeedAll(crc, data[..|data| - 1]), data[|data| - 1])
  }

  function Checksum(data: seq<Byte>): Word {
    FeedAll(0xFFFF_FFFF, data)
  }

  /** The four bytes of a word, big-endian. */
  function BigEndian(w: Word): (r: seq<Byte>)
    ensures |r| == 4
  {
    [w / 0x100_0000, w / 0x1_0000 % 0x100, w / 0x100 % 0x100, w % 0x100]
  }

  function WithCrc(section: seq<Byte>): seq<Byte> {
    section + BigEndian(Checksum(section))
  }

  method MPEGCRC32(data: seq<Byte>) returns (crc: Word)
    ensures crc == Checksum(data)
  {
    hide Feed;
    crc := 0xFFFF_FFFF;
    for i := 0 to |data|
      invariant crc == FeedAll(0xFFFF_FFFF, data[..i])
    {
      crc := FeedByte(crc, data[i]);
      assert data[..i + 1][..i] == data[..i];
    }
    assert data[..|data|] == data;
  }

  // One byte: into the register's top, then eight shifts.
  method FeedByte(was: Word, b: Byte) returns (crc: Word)
    ensures crc == Feed(was, b)
  {
    hide XorW, MulW, Raised;
    crc := XorW(was, Raised(b));
    for bit := 0 to 8
      invariant crc == Steps(XorW(was, Raised(b)), bit)
    {
      if crc >= 0x8000_0000 {
        crc := XorW(MulW(crc, 2), POLYNOMIAL);
      } else {
        crc := MulW(crc, 2);
      }
    }
  }

  // ---- On bits --------------------------------------------------------------------------------------

  type Register = b: Bits | |b| == 32 witness seq(32, i => false)

  function Xor(a: Bits, b: Bits): (r: Bits)
    requires |a| == |b|
    ensures |r| == |a|
  {
    seq(|a|, i requires 0 <= i < |a| => a[i] != b[i])
  }

  const POLY: Register := BitsBelow(POLYNOMIAL, 32)

  function Shift(r: Register): Register {
    r[1..] + [false]
  }

  function StepB(r: Register): Register {
    if r[0] then Xor(Shift(r), POLY) else Shift(r)
  }

  function StepsB(r: Register, n: nat): Register {
    if n == 0 then r else StepB(StepsB(r, n - 1))
  }

  /** Exclusive or is exclusive or bit by bit. */
  lemma {:induction false} XorIsBitwise(a: nat, b: nat, n: nat)
    ensures BitsBelow(XorBits(a, b), n) == Xor(BitsBelow(a, n), BitsBelow(b, n))
  {
    if n == 0 {
    } else {
      XorBitsHalves(a, b);
      XorIsBitwise(a / 2, b / 2, n - 1);
    }
  }

  lemma XorBitsHalves(a: nat, b: nat)
    ensures XorBits(a, b) / 2 == XorBits(a / 2, b / 2)
    ensures XorBits(a, b) % 2 == 1 <==> a % 2 != b % 2
  {
  }

  /** A number made of a high and a low part has the bits of one and then of the other. */
  lemma {:induction false} BitsJoin(h: nat, l: nat, hi: nat, lo: nat)
    requires l < Pow2(lo)
    ensures BitsBelow(h * Pow2(lo) + l, hi + lo) == BitsBelow(h, hi) + BitsBelow(l, lo)
    decreases lo
  {
    if lo == 0 {
    } else {
      var m := Pow2(lo - 1);
      var x := h * Pow2(lo) + l;
      assert x == 2 * (h * m) + l;
      assert x / 2 == h * m + l / 2 && x % 2 == l % 2;
      BitsJoin(h, l / 2, hi, lo - 1);
      assert BitsBelow(h, hi) + (BitsBelow(l / 2, lo - 1) + [l % 2 == 1]) == BitsBelow(h, hi) + BitsBelow(l / 2, lo - 1) + [l % 2 == 1];
    }
  }

  lemma {:induction false} BitsInjective(x: nat, y: nat, n: nat)
    requires x < Pow2(n) && y < Pow2(n) && BitsBelow(x, n) == BitsBelow(y, n)
    ensures x == y
  {
    if n == 0 {
    } else {
      var a, b := BitsBelow(x / 2, n - 1), BitsBelow(y / 2, n - 1);
      assert BitsBelow(x, n)[..n - 1] == a && BitsBelow(y, n)[..n - 1] == b;
      assert BitsBelow(x, n)[n - 1] == (x % 2 == 1) && BitsBelow(y, n)[n - 1] == (y % 2 == 1);
      BitsInjective(x / 2, y / 2, n - 1);
    }
  }

  lemma {:induction false} ZeroBits(n: nat)
    ensures BitsBelow(0, n) == Zeros(n)
  {
    if n == 0 {
    } else {
      ZeroBits(n - 1);
    }
  }

  lemma Powers()
    ensures Pow2(8) == 0x100 && Pow2(16) == 0x1_0000 && Pow2(24) == 0x100_0000 && Pow2(31) == 0x8000_0000
    ensures Pow2(32) == 0x1_0000_0000
  {
    assert Pow2(8) == 0x100;
    assert Pow2(16) == 0x1_0000;
    assert Pow2(24) == 0x100_0000;
  }

  function Reg32(w: Word): Register {
    BitsBelow(w, 32)
  }

  lemma RaisedBits(b: Byte)
    ensures Reg32(Raised(b)) == BitsBelow(b, 8) + Zeros(24)
  {
    Powers();
    BitsJoin(b, 0, 8, 24);
    ZeroBits(24);
    hide BitsBelow, Pow2;
  }

  lemma BytesRejoin(w: Word)
    ensures var b := BigEndian(w);
            w == ((b[0] as int * 0x100 + b[1]) * 0x100 + b[2]) * 0x100 + b[3]
  {
    var q, r, s := w / 0x100, w / 0x100 / 0x100, w / 0x100 / 0x100 / 0x100;
    assert w / 0x1_0000 == r && w / 0x100_0000 == s;
  }

  lemma WordBits(w: Word)
    ensures var b := BigEndian(w);
            Reg32(w) == BitsBelow(b[0], 8) + BitsBelow(b[1], 8) + BitsBelow(b[2], 8) + BitsBelow(b[3], 8)
  {
    hide BitsBelow, Pow2, BigEndian;
    Powers();
    var b := BigEndian(w);
    var b0: nat, b1: nat, b2: nat, b3: nat := b[0], b[1], b[2], b[3];
    BytesRejoin(w);
    BitsJoin(b0, b1, 8, 8);
    BitsJoin(b0 * 0x100 + b1, b2, 16, 8);
    BitsJoin((b0 * 0x100 + b1) * 0x100 + b2, b3, 24, 8);
  }

  /** One step of the word is one step of its bits. */
  lemma StepIsBits(c: Word)
    ensures Reg32(Step(c)) == StepB(Reg32(c))
  {
    TopAndRest(c);
    XorIsBitwise(MulW(c, 2), POLYNOMIAL, 32);
    hide BitsBelow, XorBits, Pow2, MulW;
  }

  lemma TopAndRest(c: Word)
    ensures Reg32(c)[0] == (c >= 0x8000_0000) && Reg32(MulW(c, 2)) == Shift(Reg32(c))
  {
    hide BitsBelow, Pow2, MulW;
    Powers();
    var top, low := c / 0x8000_0000, c % 0x8000_0000;
    TopBit(c);
    BitsJoin(top, low, 1, 31);
    BitsJoin(low, 0, 31, 1);
  }

  lemma TopBit(c: Word)
    ensures var top, low := c / 0x8000_0000, c % 0x8000_0000;
            && c == top * 0x8000_0000 + low && (top == 0 || top == 1) && (top == 1 <==> c >= 0x8000_0000)
            && MulW(c, 2) == low * 2 && BitsBelow(top, 1) == [c >= 0x8000_0000] && BitsBelow(0, 1) == [false] && Pow2(1) == 2
  {
    var top := c / 0x8000_0000;
    assert BitsBelow(top, 1) == [top % 2 == 1];
  }

  lemma {:induction false} StepsAreBits(c: Word, n: nat)
    ensures Reg32(Steps(c, n)) == StepsB(Reg32(c), n)
  {
    if n == 0 {
    } else {
      StepsAreBits(c, n - 1);
      StepIsBits(Steps(c, n - 1));
      hide Step, StepB, Reg32;
    }
  }

  lemma FeedIsBits(c: Word, b: Byte)
    ensures Reg32(Feed(c, b)) == StepsB(Xor(Reg32(c), BitsBelow(b, 8) + Zeros(24)), 8)
  {
    RaisedBits(b);
    XorIsBitwise(c, Raised(b), 32);
    StepsAreBits(XorW(c, Raised(b)), 8);
    hide BitsBelow, XorBits, StepsB, Steps, Raised;
  }

  // ---- The register as a linear shift ----------------------------------------------------------------

  lemma PolyIsOdd()
    ensures POLY[31]
  {
    assert POLYNOMIAL % 2 == 1;
    assert BitsBelow(POLYNOMIAL, 32) == BitsBelow(POLYNOMIAL / 2, 31) + [true];
  }

  lemma StepLinear(a: Register, b: Register)
    ensures StepB(Xor(a, b)) == Xor(StepB(a), StepB(b))
  {
    hide BitsBelow;
  }

  lemma {:induction false} StepsLinear(a: Register, b: Register, n: nat)
    ensures StepsB(Xor(a, b), n) == Xor(StepsB(a, n), StepsB(b, n))
  {
    if n == 0 {
    } else {
      StepsLinear(a, b, n - 1);
      StepLinear(StepsB(a, n - 1), StepsB(b, n - 1));
      hide StepB;
    }
  }

  /** The step is a bijection: the low bit of the result tells which way it went. */
  lemma StepInjective(a: Register, b: Register)
    requires StepB(a) == StepB(b)
    ensures a == b
  {
    PolyIsOdd();
    hide BitsBelow;
    var r := StepB(a);
    assert r[31] == a[0] && r[31] == b[0];
    forall i | 0 < i < 32 ensures a[i] == b[i] {
      assert r[i - 1] == (if a[0] then a[i] != POLY[i - 1] else a[i]);
      assert r[i - 1] == (if b[0] then b[i] != POLY[i - 1] else b[i]);
    }
  }

  lemma {:induction false} StepsInjective(a: Register, b: Register, n: nat)
    requires StepsB(a, n) == StepsB(b, n)
    ensures a == b
  {
    if n == 0 {
    } else {
      StepInjective(StepsB(a, n - 1), StepsB(b, n - 1));
      StepsInjective(a, b, n - 1);
    }
  }

  lemma {:induction false} StepsAdd(r: Register, m: nat, n: nat)
    ensures StepsB(StepsB(r, m), n) == StepsB(r, m + n)
    decreases n
  {
    hide StepB;
    if n == 0 {
    } else {
      StepsAdd(r, m, n - 1);
    }
  }

  /** Leading zeros shift out and nothing else happens. */
  lemma {:induction false} ZerosShift(x: Bits, n: nat)
    requires n + |x| == 32
    ensures StepsB(Zeros(n) + x, n) == x + Zeros(n)
  {
    var r: Register := Zeros(n) + x;
    ZerosShiftBy(r, n, n);
    assert r[n..] + Zeros(n) == x + Zeros(n);
  }

  lemma {:induction false} ZerosShiftBy(r: Register, n: nat, k: nat)
    requires k <= n <= 32 && forall i :: 0 <= i < n ==> !r[i]
    ensures StepsB(r, k) == r[k..] + Zeros(k)
    decreases k
  {
    if k == 0 {
    } else {
      ZerosShiftBy(r, n, k - 1);
      var before := StepsB(r, k - 1);
      assert before[0] == r[k - 1];
      assert Shift(before) == r[k..] + Zeros(k);
    }
  }

  function BytesBits(data: seq<Byte>): (r: Bits)
    ensures |r| == 8 * |data|
  {
    if data == [] then [] else BytesBits(data[..|data| - 1]) + BitsBelow(data[|data| - 1], 8)
  }

  /** Feeding up to four bytes is mixing them into the top of the register and stepping: the
      register is a remainder, and the bytes are its next digits. */
  lemma {:induction false} FeedIsSteps(c: Word, data: seq<Byte>)
    requires |data| <= 4
    ensures Reg32(FeedAll(c, data)) == StepsB(Xor(Reg32(c), BytesBits(data) + Zeros(32 - 8 * |data|)), 8 * |data|)
    decreases |data|
  {
    var start := Reg32(c);
    if data == [] {
      assert Xor(start, [] + Zeros(32)) == start;
    } else {
      var n := |data| - 1;
      var early, b := data[..n], BitsBelow(data[n], 8);
      FeedIsSteps(c, early);
      FeedIsBits(FeedAll(c, early), data[n]);
      var mixed := Xor(start, BytesBits(early) + Zeros(32 - 8 * n));
      var late: Register := Zeros(8 * n) + (b + Zeros(24 - 8 * n));
      ZerosShift(b + Zeros(24 - 8 * n), 8 * n);
      assert b + Zeros(24 - 8 * n) + Zeros(8 * n) == b + Zeros(24);
      StepsLinear(mixed, late, 8 * n);
      StepsAdd(Xor(mixed, late), 8 * n, 8);
      MixedTogether(start, BytesBits(early), b, n);
      hide StepsB, Xor, BitsBelow, Zeros, FeedAll, Reg32;
    }
  }

  lemma MixedTogether(start: Register, early: Bits, b: Bits, n: nat)
    requires n <= 3 && |early| == 8 * n && |b| == 8
    ensures Xor(Xor(start, early + Zeros(32 - 8 * n)), Zeros(8 * n) + (b + Zeros(24 - 8 * n))) ==
            Xor(start, early + b + Zeros(24 - 8 * n))
  {
  }

  // ---- What the receiver relies on ---------------------------------------------------------------------

  lemma {:induction false} FeedJoins(c: Word, a: seq<Byte>, b: seq<Byte>)
    ensures FeedAll(c, a + b) == FeedAll(FeedAll(c, a), b)
    decreases |b|
  {
    if b == [] {
      assert a + b == a;
    } else {
      var n := |b| - 1;
      assert (a + b)[..|a + b| - 1] == a + b[..n];
      FeedJoins(c, a, b[..n]);
    }
  }

  /** Different registers stay different whatever the same bytes do to them. */
  lemma {:induction false} FeedInjective(c: Word, d: Word, data: seq<Byte>)
    requires FeedAll(c, data) == FeedAll(d, data)
    ensures c == d
    decreases |data|
  {
    if data == [] {
    } else {
      var n := |data| - 1;
      var x, y := FeedAll(c, data[..n]), FeedAll(d, data[..n]);
      FeedIsBits(x, data[n]);
      FeedIsBits(y, data[n]);
      var z: Register := BitsBelow(data[n], 8) + Zeros(24);
      StepsInjective(Xor(Reg32(x), z), Xor(Reg32(y), z), 8);
      assert forall i :: 0 <= i < 32 ==> Xor(Reg32(x), z)[i] == (Reg32(x)[i] != z[i]) && Xor(Reg32(y), z)[i] == (Reg32(y)[i] != z[i]);
      assert Reg32(x) == Reg32(y);
      Powers();
      BitsInjective(x, y, 32);
      FeedInjective(c, d, data[..n]);
    }
  }

  lemma {:induction false} BytesBitsInjective(a: seq<Byte>, b: seq<Byte>)
    requires |a| == |b| && BytesBits(a) == BytesBits(b)
    ensures a == b
    decreases |a|
  {
    if a == [] {
    } else {
      var n := |a| - 1;
      assert BytesBits(a)[..8 * n] == BytesBits(a[..n]) && BytesBits(b)[..8 * n] == BytesBits(b[..n]);
      assert BytesBits(a)[8 * n..] == BitsBelow(a[n], 8) && BytesBits(b)[8 * n..] == BitsBelow(b[n], 8);
      Powers();
      BitsInjective(a[n], b[n], 8);
      BytesBitsInjective(a[..n], b[..n]);
      assert a == a[..n] + [a[n]] && b == b[..n] + [b[n]];
    }
  }

  /** Up to four bytes leave one register in different states unless they are the same bytes. */
  lemma FewBytesTell(c: Word, a: seq<Byte>, b: seq<Byte>)
    requires |a| == |b| <= 4 && FeedAll(c, a) == FeedAll(c, b)
    ensures a == b
  {
    FeedIsSteps(c, a);
    FeedIsSteps(c, b);
    var n := 8 * |a|;
    var x, y := BytesBits(a) + Zeros(32 - n), BytesBits(b) + Zeros(32 - n);
    hide BytesBits, BitsBelow, FeedAll;
    StepsInjective(Xor(Reg32(c), x), Xor(Reg32(c), y), n);
    var r := Reg32(c);
    hide Reg32;
    forall i | 0 <= i < 32 ensures x[i] == y[i] {
      assert Xor(r, x)[i] == (r[i] != x[i]) && Xor(r, y)[i] == (r[i] != y[i]);
    }
    assert x[..n] == BytesBits(a) && y[..n] == BytesBits(b);
    BytesBitsInjective(a, b);
  }

  /** A burst within four consecutive bytes always shows: messages that differ only there have
      different checksums. */
  lemma BurstDetected(before: seq<Byte>, a: seq<Byte>, b: seq<Byte>, after: seq<Byte>)
    requires |a| == |b| <= 4 && a != b
    ensures Checksum(before + a + after) != Checksum(before + b + after)
  {
    FeedJoins(0xFFFF_FFFF, before + a, after);
    FeedJoins(0xFFFF_FFFF, before + b, after);
    FeedJoins(0xFFFF_FFFF, before, a);
    FeedJoins(0xFFFF_FFFF, before, b);
    var c := FeedAll(0xFFFF_FFFF, before);
    if Checksum(before + a + after) == Checksum(before + b + after) {
      FeedInjective(FeedAll(c, a), FeedAll(c, b), after);
      FewBytesTell(c, a, b);
    }
  }

  lemma {:induction false} ZerosStay(n: nat)
    ensures StepsB(Zeros(32), n) == Zeros(32)
  {
    if n == 0 {
    } else {
      ZerosStay(n - 1);
      assert Shift(Zeros(32)) == Zeros(32);
    }
  }

  lemma FourBytesBits(d: seq<Byte>)
    requires |d| == 4
    ensures BytesBits(d) == BitsBelow(d[0], 8) + BitsBelow(d[1], 8) + BitsBelow(d[2], 8) + BitsBelow(d[3], 8)
  {
    hide BitsBelow;
    assert d[..3][..2] == d[..2] && d[..2][..1] == d[..1] && d[..1][..0] == [];
    assert BytesBits(d[..1]) == BytesBits([]) + BitsBelow(d[0], 8);
    assert BytesBits(d[..2]) == BytesBits(d[..1]) + BitsBelow(d[1], 8);
    assert BytesBits(d[..3]) == BytesBits(d[..2]) + BitsBelow(d[2], 8);
  }

  lemma XorItself(r: Register)
    ensures Xor(r, r) == Zeros(32)
  {
  }

  /** A register fed its own four bytes is empty. */
  lemma OwnBytesClear(c: Word)
    ensures FeedAll(c, BigEndian(c)) == 0
  {
    var d := BigEndian(c);
    FeedIsSteps(c, d);
    WordBits(c);
    FourBytesBits(d);
    hide BitsBelow, Pow2, FeedAll, BytesBits, StepsB;
    assert BytesBits(d) + Zeros(0) == Reg32(c);
    XorItself(Reg32(c));
    ZerosStay(32);
    ZeroBits(32);
    Powers();
    BitsInjective(FeedAll(c, d), 0, 32);
  }

  /** A message checks out as zero exactly when its last four bytes are the checksum of the rest. */
  lemma ResidueZero(message: seq<Byte>)
    requires |message| >= 4
    ensures Checksum(message) == 0 <==> message == WithCrc(message[..|message| - 4])
  {
    var body, tail := message[..|message| - 4], message[|message| - 4..];
    assert message == body + tail;
    var c := Checksum(body);
    FeedJoins(0xFFFF_FFFF, body, tail);
    OwnBytesClear(c);
    if Checksum(message) == 0 { FewBytesTell(c, tail, BigEndian(c)); }
  }

  /** What withCRC appends makes the whole section check out. */
  lemma WithCrcChecks(section: seq<Byte>)
    ensures Checksum(WithCrc(section)) == 0
  {
    var m := WithCrc(section);
    assert m[..|m| - 4] == section;
    ResidueZero(m);
  }
}
