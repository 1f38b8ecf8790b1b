// internal/cpu/mips32.go: what the loads, the stores, the coprocessor moves and the rest do, byte by
// byte on assembled words; and which words are instructions at all.
module Mips32Access {
  import opened Words
  import opened WordBits
  import opened Memory
  import opened Frames
  import opened Mips32Meaning
  import D = OracleDecode
  import E = OracleExec
  import opened Multiply
  import M = Mips32
  import U = Unaligned

  /** The effective address of an access. */
  function Ea(st: M.State, base: Reg, imm: Half): Word {
    U32(Rd(st.reg, base) + Offset(imm))
  }

  lemma ByAccess(st: M.State, op: int, base: Reg, rt: Reg, imm: Half, pc: Word)
    requires |st.cop0| == 32 && 0 <= op < 64 && M.IsMem(op)
    ensures var w, ea := IWord(op, base, rt, imm), Ea(st, base, imm);
            M.Execute(st, w, pc) ==
              if op == 40 || op == 41 || op == 43 then
                M.Done(st.(mem := E.Store(M.StoreKind(op), st.mem, ea, Rd(st.reg, rt)), link := None), M.Next)
              else if op == 48 then
                M.Done(st.(reg := Wr(st.reg, rt, E.Load(D.Lw, st.mem, ea)), link := Some(ea)), M.Next)
              else if op == 56 then
                (if st.link == Some(ea) then
                   M.Done(st.(reg := Wr(st.reg, rt, 1), mem := E.Store(D.Sw, st.mem, ea, Rd(st.reg, rt)), link := None), M.Next)
                 else M.Done(st.(reg := Wr(st.reg, rt, 0), link := None), M.Next))
              else M.Done(st.(reg := Wr(st.reg, rt, E.Load(M.LoadKind(op), st.mem, ea))), M.Next)
  {
    hide IWord, Offset, U32, S32, M.Op, M.Rs, M.Rt, M.Imm, M.SImm, E.Load, E.Store, M.LoadKind, M.StoreKind, M.Execute;
    IFields(op, base, rt, imm);
    Reached(st, IWord(op, base, rt, imm), pc);
  }

  lemma Reached(st: M.State, w: Word, pc: Word)
    requires |st.cop0| == 32 && M.IsMem(M.Op(w))
    ensures M.Execute(st, w, pc) == M.MemOp(st, w)
  {
    hide M.Op, M.MemOp;
  }

  // ---- Loads --------------------------------------------------------------------------------

  /** The big-endian halfword and word at an address, going round at the top of memory. */
  function HalfAt(m: Mem, a: Word): Half {
    Read8(m, a) * 0x100 + Read8(m, U32(a + 1))
  }

  function WordAt(m: Mem, a: Word): Word {
    Read8(m, a) * 0x100_0000 + Read8(m, U32(a + 1)) * 0x1_0000 + Read8(m, U32(a + 2)) * 0x100 + Read8(m, U32(a + 3))
  }

  lemma FillByte(v: Byte)
    ensures S32(S32(v * 0x100_0000) / 0x100_0000) == if v < 0x80 then v else v - 0x100
  {
    assert S32(v * 0x100_0000) == (if v < 0x80 then v else v - 0x100) * 0x100_0000;
  }

  lemma FillHalf(v: Half)
    ensures S32(S32(v * 0x1_0000) / 0x1_0000) == if v < 0x8000 then v else v - 0x1_0000
  {
    assert S32(v * 0x1_0000) == (if v < 0x8000 then v else v - 0x1_0000) * 0x1_0000;
  }

  lemma Same(v: Int32)
    ensures S32(v) == v
  {
  }

  lemma LoadsAre(m: Mem, ea: Word)
    ensures E.Load(D.Lb, m, ea) == if Read8(m, ea) < 0x80 then Read8(m, ea) else Read8(m, ea) - 0x100
    ensures E.Load(D.Lbu, m, ea) == Read8(m, ea)
    ensures E.Load(D.Lh, m, ea) == if HalfAt(m, ea) < 0x8000 then HalfAt(m, ea) else HalfAt(m, ea) - 0x1_0000
    ensures E.Load(D.Lhu, m, ea) == HalfAt(m, ea)
    ensures E.Load(D.Lw, m, ea) == S32(WordAt(m, ea))
  {
    FillByte(Read8(m, ea));
    FillHalf(HalfAt(m, ea));
    U.ReadIsBytes(m, ea);
    hide Read8, U32, S32;
  }

  /** LB, LBU, LH, LHU and LW: the bytes at the address, most significant first, filled with the sign or
      with zeros. */
  lemma Loads(st: M.State, base: Reg, rt: Reg, imm: Half, pc: Word)
    requires |st.cop0| == 32
    ensures var b, h := Read8(st.mem, Ea(st, base, imm)), HalfAt(st.mem, Ea(st, base, imm));
            && Gives(st, IWord(32, base, rt, imm), pc, rt, if b < 0x80 then b else b - 0x100)
            && Gives(st, IWord(36, base, rt, imm), pc, rt, b)
            && Gives(st, IWord(33, base, rt, imm), pc, rt, if h < 0x8000 then h else h - 0x1_0000)
            && Gives(st, IWord(37, base, rt, imm), pc, rt, h)
            && Gives(st, IWord(35, base, rt, imm), pc, rt, WordAt(st.mem, Ea(st, base, imm)))
  {
    hide IWord, Ea, E.Load, HalfAt, WordAt, Read8, S32, M.Execute;
    var ea := Ea(st, base, imm);
    LoadsAre(st.mem, ea);
    Same(E.Load(D.Lb, st.mem, ea));
    Same(E.Load(D.Lbu, st.mem, ea));
    Same(E.Load(D.Lh, st.mem, ea));
    Same(E.Load(D.Lhu, st.mem, ea));
    ByAccess(st, 32, base, rt, imm, pc);
    ByAccess(st, 36, base, rt, imm, pc);
    ByAccess(st, 33, base, rt, imm, pc);
    ByAccess(st, 37, base, rt, imm, pc);
    ByAccess(st, 35, base, rt, imm, pc);
  }

  // ---- Stores -------------------------------------------------------------------------------

  /** m' is m with the low n bytes of v at a, most significant first, and no other byte changed. */
  ghost predicate Spilled(m: Mem, m': Mem, a: Word, n: nat, v: Word) {
    forall b: Word :: Read8(m', b) ==
      if U32(b - a) < n then v / Pow2(8 * (n - 1 - U32(b - a))) % 0x100 else Read8(m, b)
  }

  lemma Powers()
    ensures Pow2(0) == 1 && Pow2(8) == 0x100 && Pow2(16) == 0x1_0000 && Pow2(24) == 0x100_0000
  {
  }

  lemma OneByte(v: Word)
    ensures v / 0x100_0000 % 0x100 == v / 0x100_0000 && v / 1 % 0x100 == v % 0x100
  {
  }

  lemma SwSpills(m: Mem, a: Word, v: Word)
    ensures Spilled(m, Write32(m, a, v), a, 4, v)
  {
    hide Write32, Read8, Pow2, U32;
    Powers();
    OneByte(v);
    forall b: Word
      ensures Read8(Write32(m, a, v), b) ==
              if U32(b - a) < 4 then v / Pow2(8 * (3 - U32(b - a))) % 0x100 else Read8(m, b)
    {
      U.WriteBytes(m, a, v, b);
    }
  }

  lemma Apart(a: Word, b: Word)
    ensures U32(b - a) == 0 <==> b == a
    ensures U32(b - a) == 1 <==> b == U32(a + 1)
    ensures U32(a + 1) != a
  {
  }

  lemma ByteSpills(m: Mem, a: Word, v: Word)
    ensures Spilled(m, Write8(m, a, v % 0x100), a, 1, v)
  {
    hide Pow2, U32;
    Powers();
    OneByte(v);
    forall b: Word
      ensures Read8(Write8(m, a, v % 0x100), b) ==
              if U32(b - a) < 1 then v / Pow2(8 * (0 - U32(b - a))) % 0x100 else Read8(m, b)
    {
      Apart(a, b);
    }
  }

  lemma LowHalf(v: Word)
    ensures v % 0x1_0000 / 0x100 == v / 0x100 % 0x100 && v % 0x1_0000 % 0x100 == v % 0x100
  {
    U.Halves(v);
  }

  lemma HalfSpills(m: Mem, a: Word, v: Word)
    ensures Spilled(m, Write16(m, a, v % 0x1_0000), a, 2, v)
  {
    Powers();
    OneByte(v);
    LowHalf(v);
    hide Pow2, U32;
    forall b: Word
      ensures Read8(Write16(m, a, v % 0x1_0000), b) ==
              if U32(b - a) < 2 then v / Pow2(8 * (1 - U32(b - a))) % 0x100 else Read8(m, b)
    {
      Apart(a, b);
    }
  }

  /** The instruction stores the low n bytes of v at a, ends a reservation and does nothing else. */
  ghost predicate Stores(st: M.State, w: Word, pc: Word, a: Word, n: nat, v: Word)
    requires |st.cop0| == 32
  {
    var r := M.Execute(st, w, pc);
    r.Done? && r == M.Done(st.(mem := r.s.mem, link := None), M.Next) && Spilled(st.mem, r.s.mem, a, n, v)
  }

  /** SB, SH and SW. */
  lemma StoresBytes(st: M.State, base: Reg, rt: Reg, imm: Half, pc: Word)
    requires |st.cop0| == 32
    ensures var a, v := Ea(st, base, imm), U32(Rd(st.reg, rt));
            && Stores(st, IWord(40, base, rt, imm), pc, a, 1, v)
            && Stores(st, IWord(41, base, rt, imm), pc, a, 2, v)
            && Stores(st, IWord(43, base, rt, imm), pc, a, 4, v)
  {
    hide IWord, Ea, Spilled, Write8, Write16, Write32, S32, U32, M.Execute;
    var a, v := Ea(st, base, imm), U32(Rd(st.reg, rt));
    SameWord(Rd(st.reg, rt));
    ByteSpills(st.mem, a, v);
    HalfSpills(st.mem, a, v);
    SwSpills(st.mem, a, v);
    ByAccess(st, 40, base, rt, imm, pc);
    ByAccess(st, 41, base, rt, imm, pc);
    ByAccess(st, 43, base, rt, imm, pc);
  }

  lemma SameWord(x: Int32)
    ensures x % 0x100 == U32(x) % 0x100 && x % 0x1_0000 == U32(x) % 0x1_0000
  {
    var up: int := if x < 0 then 0x1_0000_0000 else 0;
    Over(x + up, 0x1_0000_0000, 0, x + up);
    Over(x, 0x1_0000_0000, if x < 0 then -1 else 0, x + up);
    Over(x + up, 0x100, x / 0x100 + up / 0x100, x % 0x100);
    Over(x + up, 0x1_0000, x / 0x1_0000 + up / 0x1_0000, x % 0x1_0000);
  }

  /** LL loads a word and remembers its address; SC stores only at the address remembered, answers whether
      it did, and forgets it either way. */
  lemma Reservations(st: M.State, base: Reg, rt: Reg, imm: Half, pc: Word)
    requires |st.cop0| == 32
    ensures var a := Ea(st, base, imm);
            M.Execute(st, IWord(48, base, rt, imm), pc) ==
              M.Done(st.(reg := Put(st.reg, rt, WordAt(st.mem, a)), link := Some(a)), M.Next)
    ensures var a, r := Ea(st, base, imm), M.Execute(st, IWord(56, base, rt, imm), pc);
            && r.Done?
            && r == M.Done(st.(reg := Put(st.reg, rt, if st.link == Some(a) then 1 else 0), mem := r.s.mem, link := None), M.Next)
            && if st.link == Some(a) then Spilled(st.mem, r.s.mem, a, 4, U32(Rd(st.reg, rt))) else r.s.mem == st.mem
  {
    hide IWord, Ea, Spilled, Write32, Read8, WordAt, U32, M.Execute;
    var a := Ea(st, base, imm);
    LoadsAre(st.mem, a);
    SwSpills(st.mem, a, U32(Rd(st.reg, rt)));
    ByAccess(st, 48, base, rt, imm, pc);
    ByAccess(st, 56, base, rt, imm, pc);
  }

  // ---- Parts of words -----------------------------------------------------------------------

  /** Byte k of a word, counted from the most significant. */
  function FromTop(v: Word, k: nat): int
    requires k < 4
  {
    v / Pow2(8 * (3 - k)) % 0x100
  }

  lemma FromTopIs(v: Word, k: nat)
    requires k < 4
    ensures FromTop(v, k) == M.ByteOf(v, k)
  {
    Powers();
    OneByte(v);
    hide Pow2;
  }

  /** LWL takes into the register's high end the bytes from the address to the end of its aligned word;
      LWR takes into the low end those from the start of the aligned word to the address. The register
      keeps its other bytes. */
  ghost predicate LoadsPart(st: M.State, w: Word, pc: Word, a: Word, rt: Reg, left: bool)
    requires |st.cop0| == 32
  {
    exists v: Word :: Gives(st, w, pc, rt, v) && Merged(st.mem, a, U32(Rd(st.reg, rt)), v, left)
  }

  ghost predicate Merged(m: Mem, a: Word, was: Word, v: Word, left: bool) {
    forall k: nat | k < 4 :: MergedByte(m, a, was, v, left, k)
  }

  predicate MergedByte(m: Mem, a: Word, was: Word, v: Word, left: bool, k: nat)
    requires k < 4
  {
    FromTop(v, k) == (if left && k < 4 - a % 4 then Read8(m, U32(a + k))
                      else if !left && k >= 3 - a % 4 then Read8(m, U32(a - 3 + k))
                      else FromTop(was, k))
  }

  lemma LoadOfPart(st: M.State, w: Word)
    requires M.Op(w) == 34 || M.Op(w) == 38
    ensures var a := U.Ea(st, w);
            M.UnalignedOp(st, w) ==
              M.Done(st.(reg := Wr(st.reg, M.Rt(w), S32(M.LoadPart(M.Op(w), a - U.Aligned(a), Read32(st.mem, U.Aligned(a)), U32(Rd(st.reg, M.Rt(w))))))),
                     M.Next)
  {
    U.AlignedIs(U.Ea(st, w));
    hide Read32, M.LoadPart, M.Op, M.Rs, M.SImm, S32, U32, U.Aligned;
  }

  lemma UnalignedLoad(st: M.State, op: int, base: Reg, rt: Reg, imm: Half, pc: Word)
    requires |st.cop0| == 32 && (op == 34 || op == 38)
    ensures var a := Ea(st, base, imm);
            Gives(st, IWord(op, base, rt, imm), pc, rt,
                  M.LoadPart(op, a - U.Aligned(a), Read32(st.mem, U.Aligned(a)), U32(Rd(st.reg, rt))))
  {
    hide IWord, Offset, U32, S32, M.Op, M.Rs, M.Rt, M.Imm, M.SImm, M.LoadPart, Read32, U.Aligned, M.UnalignedOp;
    IFields(op, base, rt, imm);
    LoadOfPart(st, IWord(op, base, rt, imm));
  }

  lemma InWord(a: Word)
    ensures a % 4 == a - U.Aligned(a)
  {
  }

  lemma Inside(first: Word, n: nat)
    requires first % 4 == 0 && n < 4
    ensures U32(first + n) == first + n
  {
    assert first <= 0xFFFF_FFFC;
  }

  lemma LeftBytes(m: Mem, first: Word, n: nat, was: Word, k: nat)
    requires first % 4 == 0 && n < 4 && k < 4
    ensures FromTop(M.LoadPart(34, n, Read32(m, first), was), k) ==
            if k < 4 - n then Read8(m, U32(first + n + k)) else FromTop(was, k)
  {
    hide Read32, Read8, M.ByteOf, M.OfBytes, FromTop;
    var word := Read32(m, first);
    FromTopIs(M.LoadPart(34, n, word, was), k);
    FromTopIs(was, k);
    U.Split(M.LeftByte(n, word, was, 0), M.LeftByte(n, word, was, 1), M.LeftByte(n, word, was, 2), M.LeftByte(n, word, was, 3));
    if k < 4 - n {
      Inside(first, n + k);
      U.ByteOfRead(m, first, n + k);
    }
  }

  lemma RightBytes(m: Mem, first: Word, n: nat, was: Word, k: nat)
    requires first % 4 == 0 && n < 4 && k < 4
    ensures FromTop(M.LoadPart(38, n, Read32(m, first), was), k) ==
            if k >= 3 - n then Read8(m, U32(first + (k - (3 - n)))) else FromTop(was, k)
  {
    hide Read32, Read8, M.ByteOf, M.OfBytes, FromTop;
    var word := Read32(m, first);
    FromTopIs(M.LoadPart(38, n, word, was), k);
    FromTopIs(was, k);
    U.Split(M.RightByte(n, word, was, 0), M.RightByte(n, word, was, 1), M.RightByte(n, word, was, 2), M.RightByte(n, word, was, 3));
    if k >= 3 - n {
      Inside(first, k - (3 - n));
      U.ByteOfRead(m, first, k - (3 - n));
    }
  }

  lemma PartsMerge(m: Mem, a: Word, was: Word)
    ensures Merged(m, a, was, M.LoadPart(34, a - U.Aligned(a), Read32(m, U.Aligned(a)), was), true)
    ensures Merged(m, a, was, M.LoadPart(38, a - U.Aligned(a), Read32(m, U.Aligned(a)), was), false)
  {
    hide Read32, Read8, FromTop, M.LoadPart, U32, U.Aligned;
    var first := U.Aligned(a);
    InWord(a);
    var l, r := M.LoadPart(34, a - first, Read32(m, first), was), M.LoadPart(38, a - first, Read32(m, first), was);
    forall k: nat | k < 4 ensures MergedByte(m, a, was, l, true, k) && MergedByte(m, a, was, r, false, k) {
      LeftBytes(m, first, a - first, was, k);
      RightBytes(m, first, a - first, was, k);
      assert first + (a - first) + k == a + k && first + (k - (3 - (a - first))) == a - 3 + k;
    }
  }

  lemma PartLoads(st: M.State, base: Reg, rt: Reg, imm: Half, pc: Word)
    requires |st.cop0| == 32
    ensures LoadsPart(st, IWord(34, base, rt, imm), pc, Ea(st, base, imm), rt, true)
    ensures LoadsPart(st, IWord(38, base, rt, imm), pc, Ea(st, base, imm), rt, false)
  {
    hide IWord, Ea, U32, Gives, Merged, M.LoadPart, Read32, U.Aligned;
    UnalignedLoad(st, 34, base, rt, imm, pc);
    UnalignedLoad(st, 38, base, rt, imm, pc);
    PartsMerge(st.mem, Ea(st, base, imm), U32(Rd(st.reg, rt)));
  }

  /** SWL stores the register's high end from the address to the end of its aligned word; SWR its low end
      from the start of the aligned word to the address. No other byte changes. */
  ghost predicate StoresPart(st: M.State, w: Word, pc: Word, a: Word, v: Word, left: bool)
    requires |st.cop0| == 32
  {
    var r := M.Execute(st, w, pc);
    && r.Done? && r == M.Done(st.(mem := r.s.mem, link := None), M.Next)
    && forall b: Word :: PartByte(st.mem, r.s.mem, a, v, left, b)
  }

  predicate PartByte(m: Mem, m': Mem, a: Word, v: Word, left: bool, b: Word) {
    var up, down := U32(b - a), U32(a - b);
    Read8(m', b) == if left && up < 4 - a % 4 then FromTop(v, up)
                    else if !left && down <= a % 4 then FromTop(v, 3 - down)
                    else Read8(m, b)
  }

  lemma StoreOfPart(st: M.State, w: Word)
    requires M.Op(w) == 42 || M.Op(w) == 46
    ensures var a := U.Ea(st, w);
            M.UnalignedOp(st, w) ==
              M.Done(st.(mem := Write32(st.mem, U.Aligned(a), M.StorePart(M.Op(w), a - U.Aligned(a), Read32(st.mem, U.Aligned(a)), U32(Rd(st.reg, M.Rt(w))))),
                         link := None), M.Next)
  {
    U.PartStore(st, w);
  }

  // How far b lies from a, from its distance above the aligned word a is in.
  lemma Distances(a: Word, b: Word)
    ensures var n, k := a - U.Aligned(a), Gap(U.Aligned(a), b);
            && a % 4 == n
            && (if k < n || k >= 4 then U32(b - a) >= 4 - n else U32(b - a) == k - n)
            && (if k <= n then U32(a - b) == n - k else U32(a - b) > n)
  {
    hide U.Aligned;
    InWord(a);
    Around(U.Aligned(a), a - U.Aligned(a), b);
  }

  lemma Around(first: int, n: nat, b: Word)
    requires 0 <= first && first + n < 0x1_0000_0000 && n < 4
    ensures var k := U32(b - first);
            && (if k < n || k >= 4 then U32(b - (first + n)) >= 4 - n else U32(b - (first + n)) == k - n)
            && (if k <= n then U32(first + n - b) == n - k else U32(first + n - b) > n)
  {
    Ring(b - first);
    Ring(b - (first + n));
    Ring(first + n - b);
    hide U32;
  }

  lemma Ring(x: int)
    requires -0x1_0000_0000 < x < 0x1_0000_0000
    ensures U32(x) == if x < 0 then x + 0x1_0000_0000 else x
  {
  }

  lemma PartsSpread(m: Mem, a: Word, v: Word, b: Word)
    ensures var first := U.Aligned(a);
            && PartByte(m, Write32(m, first, M.StorePart(42, a - first, Read32(m, first), v)), a, v, true, b)
            && PartByte(m, Write32(m, first, M.StorePart(46, a - first, Read32(m, first), v)), a, v, false, b)
  {
    hide Read8, Read32, Write32, M.ByteOf, M.StorePart, FromTop, U32, Gap, U.Aligned;
    var first := U.Aligned(a);
    var n, k := a - first, Gap(first, b);
    Distances(a, b);
    U.StoreBytes(m, first, 42, n, v, b);
    U.StoreBytes(m, first, 46, n, v, b);
    if n <= k < 4 { FromTopIs(v, k - n); }
    if k <= n { FromTopIs(v, 3 - n + k); }
  }

  lemma PartStores(st: M.State, base: Reg, rt: Reg, imm: Half, pc: Word)
    requires |st.cop0| == 32
    ensures var a, v := Ea(st, base, imm), U32(Rd(st.reg, rt));
            && StoresPart(st, IWord(42, base, rt, imm), pc, a, v, true)
            && StoresPart(st, IWord(46, base, rt, imm), pc, a, v, false)
  {
    UnalignedStore(st, 42, base, rt, imm, pc);
    UnalignedStore(st, 46, base, rt, imm, pc);
    hide IWord, Ea, U32, PartByte, M.Execute, M.StorePart, Read32, Write32, U.Aligned;
    var a, v, first := Ea(st, base, imm), U32(Rd(st.reg, rt)), U.Aligned(Ea(st, base, imm));
    var l := Write32(st.mem, first, M.StorePart(42, a - first, Read32(st.mem, first), v));
    var r := Write32(st.mem, first, M.StorePart(46, a - first, Read32(st.mem, first), v));
    forall b: Word ensures PartByte(st.mem, l, a, v, true, b) && PartByte(st.mem, r, a, v, false, b) {
      PartsSpread(st.mem, a, v, b);
    }
  }

  lemma UnalignedStore(st: M.State, op: int, base: Reg, rt: Reg, imm: Half, pc: Word)
    requires |st.cop0| == 32 && (op == 42 || op == 46)
    ensures var a := Ea(st, base, imm);
            M.Execute(st, IWord(op, base, rt, imm), pc) ==
              M.Done(st.(mem := Write32(st.mem, U.Aligned(a), M.StorePart(op, a - U.Aligned(a), Read32(st.mem, U.Aligned(a)), U32(Rd(st.reg, rt)))),
                         link := None), M.Next)
  {
    hide IWord, Offset, U32, S32, M.Op, M.Rs, M.Rt, M.Imm, M.SImm, M.StorePart, Read32, Write32, U.Aligned, M.UnalignedOp;
    IFields(op, base, rt, imm);
    StoreOfPart(st, IWord(op, base, rt, imm));
  }

  // ---- The coprocessor, and what does nothing -------------------------------------------------

  /** MFC0 and MTC0. Writing Compare, register 11, withdraws the timer's request. */
  lemma CoprocessorMoves(st: M.State, rt: Reg, rd: Reg, low: int, pc: Word)
    requires |st.cop0| == 32 && 0 <= low < 0x800
    ensures Gives(st, CWord(0, rt, rd, low), pc, rt, st.cop0[rd])
    ensures M.Execute(st, CWord(4, rt, rd, low), pc) ==
              M.Done(st.(cop0 := st.cop0[rd := U32(Rd(st.reg, rt))], timer := st.timer && rd != 11), M.Next)
  {
    hide CWord, M.Op, M.Rs, M.Rt, M.Rd5, U32, S32;
    CFields(0, rt, rd, low);
    CFields(4, rt, rd, low);
  }

  lemma Masked(s: Word, b: nat)
    ensures forall k: nat | k < 32 :: Bit(M.ClearMask(s, Pow2(b)), k) == (Bit(s, k) && k != b)
  {
    hide Bit, Pow2, M.ClearMask;
    if Bit(s, b) { BitHolds(s, b); }
    MaskIs(s, b);
    forall k: nat | k < 32 ensures Bit(M.ClearMask(s, Pow2(b)), k) == (Bit(s, k) && k != b) {
      TakenOut(s, b, k);
    }
  }

  lemma MaskIs(s: Word, b: nat)
    requires Bit(s, b) ==> s >= Pow2(b)
    ensures M.ClearMask(s, Pow2(b)) == if Bit(s, b) then s - Pow2(b) else s
  {
    hide Pow2;
  }

  lemma Fields()
    ensures M.Op(0x4200_0018) == 16 && M.Rs(0x4200_0018) == 16
  {
  }

  /** ERET returns to ErrorEPC and clears ERL if that is set, and otherwise to EPC and clears EXL; bit 0
      of the address picks the instruction set. No other bit of Status changes. */
  lemma Returns(st: M.State, pc: Word)
    requires |st.cop0| == 32
    ensures var erl := Bit(st.cop0[12], 2);
            var to, r := st.cop0[if erl then 30 else 14], M.Execute(st, 0x4200_0018, pc);
            && r.Done? && |r.s.cop0| == 32
            && r == M.Done(st.(cop0 := st.cop0[12 := r.s.cop0[12]]), M.Now(Even(to), to % 2 == 1))
            && forall k: nat | k < 32 :: Bit(r.s.cop0[12], k) == (Bit(st.cop0[12], k) && k != if erl then 2 else 1)
  {
    assert Pow2(1) == 2 && Pow2(2) == 4;
    var s := st.cop0[12];
    var b: nat := if Bit(s, 2) then 2 else 1;
    Masked(s, b);
    Fields();
    hide M.ClearMask, M.Op, M.Fn, M.Rs, M.Rt, M.Rd5, U32, S32;
  }

  /** SYNC and CACHE do nothing. */
  lemma NothingToDo(st: M.State, rs: Reg, rt: Reg, rd: Reg, sa: Reg, imm: Half, pc: Word)
    requires |st.cop0| == 32
    ensures M.Execute(st, RWord(rs, rt, rd, sa, 15), pc) == M.Done(st, M.Next)
    ensures M.Execute(st, IWord(47, rs, rt, imm), pc) == M.Done(st, M.Next)
  {
    RFields(rs, rt, rd, sa, 15);
    IFields(47, rs, rt, imm);
    hide RWord, IWord, M.Op, M.Fn, M.Rs, M.Rt;
  }

  /** The words that are instructions of this processor. */
  predicate IsInstruction(w: Word) {
    var op, rs, rt, fn := w / 0x400_0000, w / 0x20_0000 % 32, w / 0x1_0000 % 32, w % 0x40;
    if op == 0 then fn in {0, 2, 3, 4, 6, 7, 8, 9, 15, 16, 17, 18, 19, 24, 25, 26, 27, 32, 33, 34, 35, 36, 37, 38, 39, 42, 43}
    else if op == 1 then rt in {0, 1, 2, 3, 16, 17, 18, 19}
    else if op == 16 then rs == 0 || rs == 4 || w == 0x4200_0018
    else op in {2, 3, 4, 5, 6, 7, 8, 9, 10, 11, 12, 13, 14, 15, 20, 21, 22, 23, 29, 32, 33, 34, 35, 36, 37, 38, 40, 41, 42, 43, 46, 47, 48, 56}
  }

  /** Every other word is refused, whatever the state. */
  lemma RefusedIff(st: M.State, w: Word, pc: Word)
    requires |st.cop0| == 32
    ensures M.Execute(st, w, pc).Unsupported? <==> !IsInstruction(w)
  {
    var op, rs, rt, fn := M.Op(w), M.Rs(w), M.Rt(w), M.Fn(w);
    hide M.MemOp, M.UnalignedOp, M.JumpRegister, M.JumpOp, M.BranchOp, M.Immediate, M.Alu, Mul64, E.Divide, S32, U32, Wr, Rd;
    EachDone(st, w, pc);
  }

  lemma EachDone(st: M.State, w: Word, pc: Word)
    ensures M.IsMem(M.Op(w)) ==> M.MemOp(st, w).Done?
    ensures M.IsUnaligned(M.Op(w)) ==> M.UnalignedOp(st, w).Done?
    ensures M.JumpRegister(st, w, pc).Done? && M.JumpOp(st, w, pc).Done?
    ensures M.IsBranch(M.Op(w), M.Rt(w)) ==> M.BranchOp(st, w, pc).Done?
  {
    hide M.Op, M.Rt, M.Rs, M.Fn, M.SImm, E.Load, E.Store, M.LoadPart, M.StorePart, Read32, Write32, U32, S32, M.Taken;
  }
}
