// internal/cpu/mips32.go: what the unaligned loads and stores are for. LWL at an address and LWR
// three bytes on move one word between a register and any address, aligned or not.
module Unaligned {
  import opened Words
  import opened Memory
  import opened Frames
  import M = Mips32

  /** The aligned word's byte k is the memory byte at address a + k. */
  lemma ByteOfRead(m: Mem, a: Word, k: nat)
    requires a % 4 == 0 && k < 4
    ensures M.ByteOf(Read32(m, a), k) == Read8(m, a + k)
  {
    hide Read8, Read32, M.ByteOf, M.OfBytes;
    ReadIsBytes(m, a);
    assert a + 3 < 0x1_0000_0000 && U32(a + 1) == a + 1 && U32(a + 2) == a + 2 && U32(a + 3) == a + 3;
    Split(Read8(m, a), Read8(m, a + 1), Read8(m, a + 2), Read8(m, a + 3));
  }

  // Dividing by whole bytes.
  lemma Div8(v: int, q: int, r: Byte)
    requires v == q * 0x100 + r
    ensures v / 0x100 == q && v % 0x100 == r
  {
  }

  lemma Div16(v: int, q: int, r: Half)
    requires v == q * 0x1_0000 + r
    ensures v / 0x1_0000 == q
  {
  }

  lemma Div24(v: int, q: int, r: int)
    requires v == q * 0x100_0000 + r && 0 <= r < 0x100_0000
    ensures v / 0x100_0000 == q
  {
  }

  lemma Split(a: Byte, b: Byte, c: Byte, d: Byte)
    ensures var v := M.OfBytes(a, b, c, d);
            M.ByteOf(v, 0) == a && M.ByteOf(v, 1) == b && M.ByteOf(v, 2) == c && M.ByteOf(v, 3) == d
  {
    var v: int := M.OfBytes(a, b, c, d);
    var ab, abc, cd, bcd := a as int * 0x100 + b, a as int * 0x1_0000 + b as int * 0x100 + c, c as int * 0x100 + d,
      b as int * 0x1_0000 + c as int * 0x100 + d;
    Div24(v, a, bcd);
    Div16(v, ab, cd);
    Div8(ab, a, b);
    Div8(v, abc, d);
    Div8(abc, ab, c);
  }

  /** A word read at any address, wrapping at the top of memory, is its four bytes. */
  lemma ReadIsBytes(m: Mem, a: Word)
    ensures Read32(m, a) == M.OfBytes(Read8(m, a), Read8(m, U32(a + 1)), Read8(m, U32(a + 2)), Read8(m, U32(a + 3)))
  {
    assert U32(U32(a + 2) + 1) == U32(a + 3);
  }

  /** `&^ 3`. */
  function Aligned(a: Word): (r: Word)
    ensures r % 4 == 0 && r <= a < r + 4
  {
    a / 4 * 4
  }

  /** Where the bytes of a word at any address lie: from n on in its first aligned word, and
      before n in the next. */
  lemma Straddle(ea: Word, k: nat)
    requires k < 4
    ensures var n, second := ea - Aligned(ea), Aligned(U32(ea + 3));
            U32(ea + k) as int == if n + k < 4 then Aligned(ea) + n + k else second + n + k - 4
    ensures var n, e3 := ea - Aligned(ea), U32(ea + 3);
            e3 - Aligned(e3) == (if n == 0 then 3 else n - 1) && (n == 0 ==> Aligned(e3) == Aligned(ea))
  {
    var first, n, e3 := Aligned(ea), ea - Aligned(ea), U32(ea + 3);
    assert first <= 0xFFFF_FFFC;
    assert e3 == ea + 3 || e3 == ea + 3 - 0x1_0000_0000;
    if n == 0 {
      assert e3 == first + 3;
    } else if first < 0xFFFF_FFFC {
      assert e3 == first + 4 + (n - 1);
    } else {
      assert e3 == n - 1;
    }
  }

  /** The bytes from n on of one word followed by the bytes before n of another. */
  function Joined(n: nat, w1: Word, w2: Word, k: nat): Byte
    requires n < 4 && k < 4
  {
    if n + k < 4 then M.ByteOf(w1, n + k) else M.ByteOf(w2, n + k - 4)
  }

  lemma LoadJoins(n: nat, w1: Word, w2: Word, was: Word)
    requires n < 4 && (n == 0 ==> w1 == w2)
    ensures M.LoadPart(38, if n == 0 then 3 else n - 1, w2, M.LoadPart(34, n, w1, was)) ==
            M.OfBytes(Joined(n, w1, w2, 0), Joined(n, w1, w2, 1), Joined(n, w1, w2, 2), Joined(n, w1, w2, 3))
  {
    Split(M.LeftByte(n, w1, was, 0), M.LeftByte(n, w1, was, 1), M.LeftByte(n, w1, was, 2), M.LeftByte(n, w1, was, 3));
    hide M.ByteOf, M.OfBytes;
  }

  lemma JoinedBytes(m: Mem, ea: Word, k: nat)
    requires k < 4
    ensures var n: nat := ea - Aligned(ea);
            Joined(n, Read32(m, Aligned(ea)), Read32(m, Aligned(U32(ea + 3))), k) == Read8(m, U32(ea + k))
  {
    var n := ea - Aligned(ea);
    Straddle(ea, k);
    if n + k < 4 {
      ByteOfRead(m, Aligned(ea), n + k);
    } else {
      ByteOfRead(m, Aligned(U32(ea + 3)), n + k - 4);
    }
    hide Read32, Read8, M.ByteOf, Aligned, U32;
  }

  lemma FromZero(a: Word)
    ensures U32(a + 0) == a
  {
  }

  /** On the values: the two loads of a pair assemble the word at any address, whatever the
      register held. */
  lemma LoadsAssemble(m: Mem, ea: Word, was: Word)
    ensures var e3 := U32(ea + 3);
            M.LoadPart(38, e3 - Aligned(e3), Read32(m, Aligned(e3)), M.LoadPart(34, ea - Aligned(ea), Read32(m, Aligned(ea)), was))
            == Read32(m, ea)
  {
    hide *;
    var n: nat, e3 := ea - Aligned(ea), U32(ea + 3);
    Straddle(ea, 0);
    LoadJoins(n, Read32(m, Aligned(ea)), Read32(m, Aligned(e3)), was);
    ReadIsBytes(m, ea);
    JoinedBytes(m, ea, 0);
    JoinedBytes(m, ea, 1);
    JoinedBytes(m, ea, 2);
    JoinedBytes(m, ea, 3);
    FromZero(ea);
  }

  predicate Pair(st: M.State, left: Word, right: Word) {
    && M.Rs(left) == M.Rs(right) && M.Rt(left) == M.Rt(right) != 0 && M.SImm(right) == M.SImm(left) + 3
  }

  function Ea(st: M.State, w: Word): Word {
    U32(Rd(st.reg, M.Rs(w)) + M.SImm(w))
  }

  lemma AlignedIs(a: Word)
    ensures a - a % 4 == Aligned(a) && a % 4 == a - Aligned(a)
  {
  }

  lemma LeftLoad(st: M.State, w: Word)
    requires M.Op(w) == 34 && M.Rt(w) != 0
    ensures var ea := Ea(st, w);
            M.UnalignedOp(st, w) ==
              M.Done(st.(reg := st.reg[M.Rt(w) := S32(M.LoadPart(34, ea - Aligned(ea), Read32(st.mem, Aligned(ea)), U32(st.reg[M.Rt(w)])))]), M.Next)
  {
    AlignedIs(Ea(st, w));
    hide Read32, M.LoadPart, M.Op, M.Rs, M.SImm, S32, U32, Aligned;
  }

  lemma RightLoad(st: M.State, w: Word)
    requires M.Op(w) == 38 && M.Rt(w) != 0
    ensures var ea := Ea(st, w);
            M.UnalignedOp(st, w) ==
              M.Done(st.(reg := st.reg[M.Rt(w) := S32(M.LoadPart(38, ea - Aligned(ea), Read32(st.mem, Aligned(ea)), U32(st.reg[M.Rt(w)])))]), M.Next)
  {
    AlignedIs(Ea(st, w));
    hide Read32, M.LoadPart, M.Op, M.Rs, M.SImm, S32, U32, Aligned;
  }

  lemma NextEa(st: M.State, t: M.State, left: Word, right: Word)
    requires Pair(st, left, right) && Rd(t.reg, M.Rs(left)) == Rd(st.reg, M.Rs(left))
    ensures Ea(t, right) == U32(Ea(st, left) + 3)
  {
    Shifted(Rd(st.reg, M.Rs(left)) + M.SImm(left));
    hide M.SImm, M.Rs, M.Rt;
  }

  lemma BackAgain(v: Word)
    ensures U32(S32(v)) == v
  {
  }

  /** LWL rt, off(base); LWR rt, off+3(base) loads the word at off(base), at any alignment. */
  lemma LoadPair(st: M.State, left: Word, right: Word)
    requires M.Op(left) == 34 && M.Op(right) == 38 && Pair(st, left, right) && M.Rs(left) != M.Rt(left)
    ensures var a := M.UnalignedOp(st, left);
            && a.Done?
            && M.UnalignedOp(a.s, right) ==
               M.Done(st.(reg := st.reg[M.Rt(left) := S32(Read32(st.mem, Ea(st, left)))]), M.Next)
  {
    hide Read32, M.LoadPart, M.Op, M.Rs, M.Rt, M.SImm, S32, U32, Aligned, M.UnalignedOp, Ea;
    var ea, rt := Ea(st, left), M.Rt(left);
    var v := M.LoadPart(34, ea - Aligned(ea), Read32(st.mem, Aligned(ea)), U32(st.reg[rt]));
    var a := st.(reg := st.reg[rt := S32(v)]);
    LeftLoad(st, left);
    RightLoad(a, right);
    NextEa(st, a, left, right);
    BackAgain(v);
    LoadsAssemble(st.mem, ea, U32(st.reg[rt]));
    assert a.reg[rt := S32(Read32(st.mem, ea))] == st.reg[rt := S32(Read32(st.mem, ea))];
  }

  lemma Shifted(x: int)
    ensures U32(x + 3) == U32(U32(x) + 3)
  {
  }

  lemma GapApart(a: Word, b: Word)
    requires Gap(a, b) < 4
    ensures b == U32(a + Gap(a, b)) && U32(a + 0) == a
  {
  }

  lemma FourApart(a: Word)
    ensures U32(U32(a + 2) + 1) == U32(a + 3)
    ensures var b, c, d := U32(a + 1), U32(a + 2), U32(a + 3); a != b && a != c && a != d && b != c && b != d && c != d
  {
  }

  /** A word's halves split into its bytes. */
  lemma Halves(v: Word)
    ensures v / 0x1_0000 / 0x100 == M.ByteOf(v, 0) && v / 0x1_0000 % 0x100 == M.ByteOf(v, 1)
    ensures v % 0x1_0000 / 0x100 == M.ByteOf(v, 2) && v % 0x1_0000 % 0x100 == M.ByteOf(v, 3)
  {
    var q: int, r: int := v / 0x1_0000, v % 0x1_0000;
    var c: int, d: int := r / 0x100, r % 0x100;
    Div24(v, q / 0x100, q % 0x100 * 0x1_0000 + r);
    Div8(v, q * 0x100 + c, d);
    Div8(q * 0x100 + c, q, c);
  }

  lemma FourBytes(m: Mem, a: Word, v: Word)
    ensures var w := Write32(m, a, v);
            && Read8(w, a) == M.ByteOf(v, 0) && Read8(w, U32(a + 1)) == M.ByteOf(v, 1)
            && Read8(w, U32(a + 2)) == M.ByteOf(v, 2) && Read8(w, U32(a + 3)) == M.ByteOf(v, 3)
  {
    FourApart(a);
    Halves(v);
    hide U32, M.ByteOf;
  }

  /** A word write, byte by byte, at any address. */
  lemma WriteBytes(m: Mem, a: Word, v: Word, b: Word)
    ensures Read8(Write32(m, a, v), b) == if Gap(a, b) < 4 then M.ByteOf(v, Gap(a, b)) else Read8(m, b)
  {
    hide Read8, Write32, M.ByteOf;
    if Gap(a, b) >= 4 {
      ByteElsewhere(m, a, v, b);
    } else {
      GapApart(a, b);
      FourBytes(m, a, v);
    }
  }

  lemma PartStore(st: M.State, w: Word)
    requires M.Op(w) == 42 || M.Op(w) == 46
    ensures var ea := Ea(st, w);
            var part := M.StorePart(M.Op(w), ea - Aligned(ea), Read32(st.mem, Aligned(ea)), U32(Rd(st.reg, M.Rt(w))));
            M.UnalignedOp(st, w) == M.Done(st.(mem := Write32(st.mem, Aligned(ea), part), link := None), M.Next)
  {
    AlignedIs(Ea(st, w));
    hide Read32, Write32, M.StorePart, M.Op, M.Rs, M.SImm, S32, U32, Aligned;
  }

  /** SWL rt, off(base); SWR rt, off+3(base) leaves every byte of memory as one word store at
      off(base) would. */
  lemma StorePair(st: M.State, left: Word, right: Word, b: Word)
    requires M.Op(left) == 42 && M.Op(right) == 46 && Pair(st, left, right)
    ensures var a := M.UnalignedOp(st, left);
            && a.Done?
            && var r := M.UnalignedOp(a.s, right);
               && r.Done? && r.s == st.(mem := r.s.mem, link := None)
               && Read8(r.s.mem, b) == Read8(Write32(st.mem, Ea(st, left), U32(Rd(st.reg, M.Rt(left)))), b)
  {
    hide Read32, Write32, Read8, M.StorePart, M.Op, M.Rs, M.Rt, M.SImm, S32, U32, Aligned, M.UnalignedOp, Ea;
    var ea, v := Ea(st, left), U32(Rd(st.reg, M.Rt(left)));
    PartStore(st, left);
    var a := M.UnalignedOp(st, left).s;
    PartStore(a, right);
    NextEa(st, a, left, right);
    StoresSpread(st.mem, ea, v, b);
  }

  lemma AlignedGap(a: Word, b: Word)
    requires a % 4 == 0 && Gap(a, b) < 4
    ensures b == a + Gap(a, b)
  {
    assert a <= 0xFFFF_FFFC;
  }

  // The byte at b after the left store, and after both.
  lemma StoreBytes(m: Mem, a: Word, op: int, n: nat, v: Word, b: Word)
    requires a % 4 == 0 && n < 4
    ensures var w := Write32(m, a, M.StorePart(op, n, Read32(m, a), v));
            Read8(w, b) == if Gap(a, b) >= 4 then Read8(m, b)
                           else if op == 42 then (if Gap(a, b) >= n then M.ByteOf(v, Gap(a, b) - n) else Read8(m, b))
                           else if Gap(a, b) <= n then M.ByteOf(v, 3 - n + Gap(a, b)) else Read8(m, b)
  {
    hide Read32, Write32, Read8, M.ByteOf, M.OfBytes, Gap, U32;
    var word := Read32(m, a);
    var k := Gap(a, b);
    WriteBytes(m, a, M.StorePart(op, n, word, v), b);
    Split(M.StoreByte(op, n, word, v, 0), M.StoreByte(op, n, word, v, 1), M.StoreByte(op, n, word, v, 2),
          M.StoreByte(op, n, word, v, 3));
    if k < 4 {
      AlignedGap(a, b);
      ByteOfRead(m, a, k);
    }
  }

  lemma StoresSpread(m: Mem, ea: Word, v: Word, b: Word)
    ensures var e3 := U32(ea + 3);
            var m1 := Write32(m, Aligned(ea), M.StorePart(42, ea - Aligned(ea), Read32(m, Aligned(ea)), v));
            var m2 := Write32(m1, Aligned(e3), M.StorePart(46, e3 - Aligned(e3), Read32(m1, Aligned(e3)), v));
            Read8(m2, b) == Read8(Write32(m, ea, v), b)
  {
    var e3 := U32(ea + 3);
    var m1 := Write32(m, Aligned(ea), M.StorePart(42, ea - Aligned(ea), Read32(m, Aligned(ea)), v));
    StoreBytes(m, Aligned(ea), 42, ea - Aligned(ea), v, b);
    StoreBytes(m1, Aligned(e3), 46, e3 - Aligned(e3), v, b);
    WriteBytes(m, ea, v, b);
    Gaps(ea, b);
    hide Read32, Write32, Read8, M.ByteOf, M.StorePart, Gap, Aligned, U32;
  }

  /** Where b lies in the two aligned words, in terms of how far it lies above ea. */
  lemma Gaps(ea: Word, b: Word)
    ensures var n, e3 := ea - Aligned(ea), U32(ea + 3);
            var g, first, second := Gap(ea, b), Gap(Aligned(ea), b), Gap(Aligned(e3), b);
            && e3 - Aligned(e3) == (if n == 0 then 3 else n - 1)
            && if n == 0 then first == second == g
               else if g < 4 - n then first == g + n && second >= 4
               else if g < 4 then second == g + n - 4
               else (first < n || first >= 4) && second >= n
  {
    hide Gap;
    var n, e3 := ea - Aligned(ea), U32(ea + 3);
    Straddle(ea, 0);
    if n > 0 {
      Straddle(ea, 3);
      assert Aligned(e3) == U32(Aligned(ea) + 4);
      hide Aligned, U32;
      GapFrom(Aligned(ea), n, b);
      GapFrom(Aligned(ea), 4, b);
    }
  }

  /** Gaps measured from a and from d above a differ by d, round the address space. */
  lemma GapFrom(a: Word, d: nat, b: Word)
    requires d <= 4
    ensures var g, h := Gap(a, b), Gap(U32(a + d), b);
            h == if g >= d then g - d else g - d + 0x1_0000_0000
  {
  }
}
