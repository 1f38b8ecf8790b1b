// internal/cpu: the Go core. `Execute16` is proved against the oracle's decoder and executor,
// arm by arm; `Step` adds delay slots, instruction-set switches, Count/Compare and interrupts.
module Core {
  import opened Words
  import opened Memory
  import opened Frames
  import opened Agreement
  import opened SignExtension
  import opened Multiply
  import D = OracleDecode
  import E = OracleExec
  import M = Mips32
  import opened Stepping
  import T = Stepping

  const M16_REGISTER: seq<Reg> := [16, 17, 2, 3, 4, 5, 6, 7]

  function M16(f: int): (r: Reg)
    requires 0 <= f < 8
    ensures r == D.Xl(f)
  {
    M16_REGISTER[f]
  }

  function Ext(ext: nat, extended: bool): Option<nat> {
    if extended then Some(ext) else None
  }

  function Length(extended: bool): int {
    if extended then 4 else 2
  }

  function BoolWord(v: bool): Word {
    if v then 1 else 0
  }

  ghost predicate EffectIs(effect: Branch, flow: E.Flow) {
    match flow
    case Straight => effect == NO_BRANCH
    case BranchTo(to, isa) => effect == Branch(to, 0, isa, false, true)
    case JumpTo(to, isa) => effect == Branch(to, 0, isa, true, false)
  }

  /** The shift the oracle decodes, and Go's own tests for the reserved ones: one mask where
      the oracle makes two tests of the EXTEND bits. */
  lemma ShiftDecodes(h: Half, ext: nat, extended: bool)
    ensures var i, fn := D.DecodeShift(Ext(ext, extended), h, Length(extended)), h % 4;
            var sa := if extended then ext / 0x40 % 0x20 else if h / 4 % 8 == 0 then 8 else h / 4 % 8;
            if fn == 1 || (extended && (h / 4 % 8 != 0 || ext % 0x40 != 0)) then i.Unknown?
            else sa % 32 == sa && i == D.Insn(Length(extended),
                   D.ShiftOp(if fn == 0 then D.Sll else if fn == 2 then D.Srl else D.Sra,
                             M16(h / 0x100 % 8), M16(h / 0x20 % 8), sa))
  {
    assert ext % 0x40 == 0 <==> ext % 0x20 == 0 && ext / 0x20 % 2 == 0;
  }

  lemma NextPlus(pc: Word, length: int, n: int)
    ensures AddW(AddW(pc, length), U32(n)) == U32(pc + length + n)
  {
  }

  lemma BranchTarget(pc: Word, simm: Word, n: int)
    requires simm == U32(n)
    ensures AddW(AddW(pc, 4), MulW(simm, 4)) == U32(pc + 4 + 4 * n)
  {
    ScaleAgree(n, 4);
    NextPlus(pc, 4, 4 * n);
  }

  lemma ZeroAgree(g: Word)
    ensures g == 0 <==> S32(g) == 0
  {
  }

  lemma JalrcDecodes(h: Half)
    ensures var i, rx, ry := D.DecodeJalrc(h), h / 0x100 % 8, h / 0x20 % 8;
            var ra := ry == 1 || ry == 5;
            if ry == 3 || ry == 7 || (ra && rx != 0) then i.Unknown?
            else i == D.Insn(2, D.JumpOp(if ry <= 1 then D.Jr else if ry == 2 then D.Jalr else if ry == 6 then D.Jalrc else D.Jrc,
                                         if ra then 31 else M16(rx)))
  {
  }

  lemma CmpiDecodes(h: Half, ext: nat, extended: bool)
    requires !extended || h / 0x20 % 8 == 0
    ensures D.DecodeCond(0x0E, Ext(ext, extended), h, Length(extended)) ==
            D.Insn(Length(extended), D.Cmpi(M16(h / 0x100 % 8), if extended then D.ExtImm16(ext, h) else h % 0x100))
  {
  }

  lemma CnvtDecodes(h: Half)
    ensures var i, d, ry := D.DecodeCnvt(h), M16(h / 0x100 % 8), h / 0x20 % 8;
            if ry == 0 then i == D.Insn(2, D.CnvtOp(D.Zeb, d))
            else if ry == 1 then i == D.Insn(2, D.CnvtOp(D.Zeh, d))
            else if ry == 4 then i == D.Insn(2, D.CnvtOp(D.Seb, d))
            else if ry == 5 then i == D.Insn(2, D.CnvtOp(D.Seh, d))
            else i.Unknown?
  {
  }

  lemma JalDecodes(h: Half, extended: bool, ext: nat, second: Half, pc: Word)
    ensures var i := D.DecodeJal(Ext(ext, extended), h, second, pc);
            var idx := h % 0x20 * 0x20_0000 + h / 0x20 % 0x20 * 0x1_0000 + second;
            if extended then i.Unknown?
            else i == D.Insn(4, D.Jal(h / 0x400 % 2 == 1, AddW(pc, 4) / 0x1000_0000 * 0x1000_0000 + idx * 4))
  {
  }

  lemma LoadDecodes(op: nat, h: Half, ext: nat, extended: bool)
    requires op in {0x10, 0x11, 0x13, 0x14, 0x15}
    ensures var scale := if op == 0x13 then 4 else if op == 0x11 || op == 0x15 then 2 else 1;
            D.DecodeMem(op, Ext(ext, extended), h, Length(extended)) == D.Insn(Length(extended),
              D.LoadOp(if op == 0x10 then D.Lb else if op == 0x11 then D.Lh else if op == 0x13 then D.Lw
                       else if op == 0x14 then D.Lbu else D.Lhu,
                       M16(h / 0x20 % 8), M16(h / 0x100 % 8), D.MemOff(Ext(ext, extended), h, scale)))
  {
  }

  lemma StoreDecodes(op: nat, h: Half, ext: nat, extended: bool)
    requires op in {0x18, 0x19, 0x1B}
    ensures var scale := if op == 0x1B then 4 else if op == 0x19 then 2 else 1;
            D.DecodeMem(op, Ext(ext, extended), h, Length(extended)) == D.Insn(Length(extended),
              D.StoreOp(if op == 0x18 then D.Sb else if op == 0x19 then D.Sh else D.Sw,
                        M16(h / 0x20 % 8), M16(h / 0x100 % 8), D.MemOff(Ext(ext, extended), h, scale)))
  {
  }

  lemma Sx16Agrees(v: Word, scale: nat)
    requires scale > 0
    ensures S32(Sx16(v, scale)) == S32(S32(v * scale) / scale)
  {
    Conversions(v * scale);
    Conversions(S32(v * scale) / scale);
  }

  lemma LbAgrees(m: Mem, ea: Word)
    ensures S32(Sx16(Read8(m, ea), 0x100_0000)) == E.Load(D.Lb, m, ea)
  {
    Sx16Agrees(Read8(m, ea), 0x100_0000);
  }

  lemma LhAgrees(m: Mem, ea: Word)
    ensures S32(Sx16(Read16(m, ea), 0x1_0000)) == E.Load(D.Lh, m, ea)
  {
    Sx16Agrees(Read16(m, ea), 0x1_0000);
  }

  lemma LowBytes(v: Word)
    ensures S32(v) % 0x100 == v % 0x100 && S32(v) % 0x1_0000 == v % 0x1_0000 && U32(S32(v)) == v
  {
    SignedIs(v);
  }

  lemma CnvtAgrees(v: Word, scale: nat)
    requires scale > 0
    ensures S32(Sx16(v, scale)) == S32(S32(S32(v) * scale) / scale)
  {
    Sx16Agrees(v, scale);
    ShiftLeftAgree(v, scale);
    Conversions(v * scale);
  }

  /** The functions of RR that are reserved, 64-bit or traps. */
  lemma RrReserved(h: Half)
    requires h % 0x20 in {1, 5, 8, 9, 19, 20, 21, 22, 23, 28, 29, 30, 31}
    ensures var i := D.DecodeRr(None, h); i.Unknown? || i.x.Trap?
  {
  }

  lemma CnvtIs(k: D.CnvtKind, v: Word)
    ensures E.Cnvt(k, S32(v)) == S32(match k
                                     case Zeb => v % 0x100
                                     case Zeh => v % 0x1_0000
                                     case Seb => Sx16(v, 0x100_0000)
                                     case Seh => Sx16(v, 0x1_0000))
  {
    match k
    case Zeb => LowBytes(v);
    case Zeh => LowBytes(v);
    case Seb => CnvtAgrees(v, 0x100_0000);
    case Seh => CnvtAgrees(v, 0x1_0000);
  }

  function Times(a: int, b: int): int {
    a * b
  }

  lemma Back(x: Int32, w: Word)
    requires U32(x) == w
    ensures x == S32(w)
  {
  }

  lemma Mul64Agrees(a: Int32, b: Int32, signed: bool)
    ensures var p := if signed then Times(a, b) else Times(U32(a), U32(b));
            Mul64(a, b, signed) == (S32(High(p)), S32(Low(p)))
  {
    Mul64Exact(a, b, signed);
    Back(Mul64(a, b, signed).0, High(Product(a, b, signed)));
    Back(Mul64(a, b, signed).1, Low(Product(a, b, signed)));
  }

  lemma DivideAgrees(x: Word, y: Word)
    requires y != 0 && S32(y) != 0
    ensures E.Divide(true, S32(x), S32(y)) ==
            (S32(U32(TruncMod(S32(x), S32(y)))), S32(U32(TruncDiv(S32(x), S32(y)))))
    ensures E.Divide(false, S32(x), S32(y)) == (S32(x % y), S32(x / y))
  {
    TruncQuotient(S32(x), S32(y));
    Conversions(TruncDiv(S32(x), S32(y)));
    Conversions(TruncMod(S32(x), S32(y)));
    SignedIs(x);
    SignedIs(y);
    RealQuotient(x, y);
  }

  // Shifts by whole bytes, and the low bytes of a word.
  function Lsh(v: Word, n: nat): Word {
    if n == 0 then v else if n == 1 then MulW(v, 0x100) else if n == 2 then MulW(v, 0x1_0000)
    else MulW(v, 0x100_0000)
  }

  function Rsh(v: Word, n: nat): Word {
    if n == 0 then v else if n == 1 then v / 0x100 else if n == 2 then v / 0x1_0000 else v / 0x100_0000
  }

  function Low8(v: Word, n: nat): Word {
    if n == 0 then 0 else if n == 1 then v % 0x100 else if n == 2 then v % 0x1_0000
    else if n == 3 then v % 0x100_0000 else v
  }

  // The merges of LWL, LWR, SWL and SWR. The bits the two sides of each `|` keep do not overlap.
  function LoadLeft(n: nat, word: Word, was: Word): int {
    Lsh(word, n) + Low8(was, n)
  }

  function LoadRight(n: nat, word: Word, was: Word): int
    requires n < 4
  {
    was - Low8(was, n + 1) + Low8(Rsh(word, 3 - n), n + 1)
  }

  function StoreLeft(n: nat, word: Word, was: Word): int
    requires n < 4
  {
    word - Low8(word, 4 - n) + Rsh(was, n)
  }

  function StoreRight(n: nat, word: Word, was: Word): int
    requires n < 4
  {
    Low8(word, 3 - n) + Lsh(was, 3 - n)
  }

  // What the shifts and masks do to a word's four bytes.
  lemma LshBytes(v: Word, a: Byte, b: Byte, c: Byte, d: Byte)
    requires v == M.OfBytes(a, b, c, d)
    ensures Lsh(v, 0) == v && Lsh(v, 1) == M.OfBytes(b, c, d, 0) && Lsh(v, 2) == M.OfBytes(c, d, 0, 0)
    ensures Lsh(v, 3) == M.OfBytes(d, 0, 0, 0)
  {
    WordOf(v as int * 0x100, M.OfBytes(b, c, d, 0), a);
    WordOf(v as int * 0x1_0000, M.OfBytes(c, d, 0, 0), a as int * 0x100 + b);
    WordOf(v as int * 0x100_0000, M.OfBytes(d, 0, 0, 0), a as int * 0x1_0000 + b as int * 0x100 + c);
  }

  lemma WordOf(x: int, r: Word, k: int)
    requires x == r + k * 0x1_0000_0000
    ensures U32(x) == r
  {
  }

  lemma RshBytes(v: Word, a: Byte, b: Byte, c: Byte, d: Byte)
    requires v == M.OfBytes(a, b, c, d)
    ensures Rsh(v, 0) == v && Rsh(v, 1) == M.OfBytes(0, a, b, c) && Rsh(v, 2) == M.OfBytes(0, 0, a, b)
    ensures Rsh(v, 3) == M.OfBytes(0, 0, 0, a)
  {
  }

  lemma Low8Bytes(v: Word, a: Byte, b: Byte, c: Byte, d: Byte)
    requires v == M.OfBytes(a, b, c, d)
    ensures Low8(v, 0) == 0 && Low8(v, 1) == M.OfBytes(0, 0, 0, d) && Low8(v, 2) == M.OfBytes(0, 0, c, d)
    ensures Low8(v, 3) == M.OfBytes(0, b, c, d) && Low8(v, 4) == v
  {
    assert v % 0x100 == d by { LowOf(v, a as int * 0x1_0000 + b as int * 0x100 + c, d); }
    assert v % 0x1_0000 == c as int * 0x100 + d by { LowOf2(v, a as int * 0x100 + b, c as int * 0x100 + d); }
    assert v % 0x100_0000 == b as int * 0x1_0000 + c as int * 0x100 + d by {
      LowOf3(v, a, b as int * 0x1_0000 + c as int * 0x100 + d);
    }
  }

  lemma LowOf(v: int, k: int, r: int)
    requires v == k * 0x100 + r && 0 <= r < 0x100
    ensures v % 0x100 == r
  {
  }

  lemma LowOf2(v: int, k: int, r: int)
    requires v == k * 0x1_0000 + r && 0 <= r < 0x1_0000
    ensures v % 0x1_0000 == r
  {
  }

  lemma LowOf3(v: int, k: int, r: int)
    requires v == k * 0x100_0000 + r && 0 <= r < 0x100_0000
    ensures v % 0x100_0000 == r
  {
  }

  lemma Bytes(v: Word)
    ensures v == M.OfBytes(M.ByteOf(v, 0), M.ByteOf(v, 1), M.ByteOf(v, 2), M.ByteOf(v, 3))
  {
    var high, low := v / 0x1_0000, v % 0x1_0000;
    assert v / 0x100_0000 == high / 0x100 && high < 0x1_0000;
    assert v / 0x100 % 0x100 == low / 0x100 && v % 0x100 == low % 0x100 by { MiddleByte(high, low); }
  }

  lemma MiddleByte(high: int, low: int)
    requires 0 <= low < 0x1_0000 && 0 <= high
    ensures (high * 0x1_0000 + low) / 0x100 == high * 0x100 + low / 0x100
    ensures (high * 0x100 + low / 0x100) % 0x100 == low / 0x100 && (high * 0x1_0000 + low) % 0x100 == low % 0x100
  {
  }

  lemma LoadMerges(n: nat, word: Word, was: Word)
    requires n < 4
    ensures LoadLeft(n, word, was) == M.LoadPart(34, n, word, was)
    ensures LoadRight(n, word, was) == M.LoadPart(38, n, word, was)
  {
    Bytes(word);
    Bytes(was);
    hide Lsh, Rsh, Low8, M.ByteOf;
    var a, b, c, d := M.ByteOf(word, 0), M.ByteOf(word, 1), M.ByteOf(word, 2), M.ByteOf(word, 3);
    LshBytes(word, a, b, c, d);
    RshBytes(word, a, b, c, d);
    Low8Bytes(was, M.ByteOf(was, 0), M.ByteOf(was, 1), M.ByteOf(was, 2), M.ByteOf(was, 3));
    if n == 0 {
      Low8Bytes(Rsh(word, 3), 0, 0, 0, a);
    } else if n == 1 {
      Low8Bytes(Rsh(word, 2), 0, 0, a, b);
    } else if n == 2 {
      Low8Bytes(Rsh(word, 1), 0, a, b, c);
    } else {
      Low8Bytes(word, a, b, c, d);
    }
  }

  lemma StoreMerges(n: nat, word: Word, v: Word)
    requires n < 4
    ensures StoreLeft(n, word, v) == M.StorePart(42, n, word, v)
    ensures StoreRight(n, word, v) == M.StorePart(46, n, word, v)
  {
    Bytes(word);
    Bytes(v);
    hide Lsh, Rsh, Low8, M.ByteOf;
    LshBytes(v, M.ByteOf(v, 0), M.ByteOf(v, 1), M.ByteOf(v, 2), M.ByteOf(v, 3));
    RshBytes(v, M.ByteOf(v, 0), M.ByteOf(v, 1), M.ByteOf(v, 2), M.ByteOf(v, 3));
    Low8Bytes(word, M.ByteOf(word, 0), M.ByteOf(word, 1), M.ByteOf(word, 2), M.ByteOf(word, 3));
  }

  lemma LoadUnalignedIs(st: M.State, w: Word, ea: Word)
    requires (M.Op(w) == 34 || M.Op(w) == 38) && ea == U32(Rd(st.reg, M.Rs(w)) + M.SImm(w))
    ensures var v := S32(M.LoadPart(M.Op(w), ea % 4, Read32(st.mem, ea - ea % 4), U32(Rd(st.reg, M.Rt(w)))));
            M.UnalignedOp(st, w) == M.Done(st.(reg := Wr(st.reg, M.Rt(w), v)), M.Next)
  {
    hide U32, S32, Wr, Rd, M.LoadPart, M.StorePart, Read32, Write32, M.Rs, M.SImm;
  }

  lemma StoreUnalignedIs(st: M.State, w: Word, ea: Word)
    requires (M.Op(w) == 42 || M.Op(w) == 46) && ea == U32(Rd(st.reg, M.Rs(w)) + M.SImm(w))
    ensures var v := M.StorePart(M.Op(w), ea % 4, Read32(st.mem, ea - ea % 4), U32(Rd(st.reg, M.Rt(w))));
            M.UnalignedOp(st, w) == M.Done(st.(mem := Write32(st.mem, ea - ea % 4, v), link := None), M.Next)
  {
    hide U32, S32, Wr, Rd, M.LoadPart, M.StorePart, Read32, Write32, M.Rs, M.SImm;
  }

  ghost predicate ControlIs(effect: Branch, control: M.Control) {
    match control
    case Next => effect == NO_BRANCH
    case Annul => effect == SKIP_SLOT
    case Delay(to, isa) => effect == Branch(to, 0, isa, true, false)
    case Now(to, isa) => effect == Branch(to, 0, isa, false, true)
  }

  class Core {
    var gpr: Gpr
    var pc: Word
    var hi: Word
    var lo: Word
    var isa: bool
    var cop0: seq<Word>
    var delayed: Branch
    var reserved: Word
    var hasReservation: bool
    var timerPending: bool
    var pendingLines: Byte
    var mem: Mem

    ghost predicate Valid()
      reads this
    {
      gpr[0] == 0 && |cop0| == 32
    }

    ghost function View(): E.Cpu
      reads this
    {
      E.Cpu(pc, isa, Signed(gpr), S32(hi), S32(lo),
            if delayed.armed then E.Slot(delayed.target, delayed.isa, delayed.from) else E.NoSlot)
    }

    function PcBase(): Word
      reads this
    {
      if delayed.armed then delayed.from else pc
    }

    method Set(i: Reg, v: Word)
      requires Valid()
      modifies `gpr
      ensures Valid()
      ensures gpr == if i == 0 then old(gpr) else old(gpr)[i := v]
      ensures Signed(gpr) == Wr(old(Signed(gpr)), i, S32(v))
    {
      if i != 0 {
        SignedSet(gpr, i, v);
        gpr := gpr[i := v];
      }
    }

    method SetT(v: Word)
      requires Valid()
      modifies `gpr
      ensures Valid()
      ensures gpr == old(gpr)[24 := v]
      ensures Signed(gpr) == old(Signed(gpr))[24 := S32(v)]
    {
      SignedSet(gpr, 24, v);
      gpr := gpr[24 := v];
    }

    // Register plus immediate: `imm` is the word of the oracle's signed operand n.
    method SetSum(d: Reg, s: Reg, imm: Word, ghost n: int)
      requires Valid() && imm == U32(n)
      modifies `gpr
      ensures Valid()
      ensures Signed(gpr) == Wr(old(Signed(gpr)), d, S32(Rd(old(Signed(gpr)), s) + n))
    {
      AddAgree(gpr[s], n);
      Set(d, AddW(gpr[s], imm));
    }

    // The PC-relative form.
    method SetPcSum(d: Reg, base: Word, imm: Word, ghost n: int)
      requires Valid() && imm == U32(n)
      modifies `gpr
      ensures Valid()
      ensures Signed(gpr) == Wr(old(Signed(gpr)), d, S32(U32(base + n)))
    {
      AddAgree(base, n);
      Set(d, AddW(base, imm));
    }

    // A comparison with an immediate writes T.
    method SetLess(s: Reg, imm: Word, ghost n: int, signed: bool)
      requires Valid() && imm == U32(n)
      modifies `gpr
      ensures Valid()
      ensures Signed(gpr) == old(Signed(gpr))[24 :=
                if (if signed then Rd(old(Signed(gpr)), s) < S32(n) else U32(Rd(old(Signed(gpr)), s)) < U32(S32(n))) then 1 else 0]
    {
      Conversions(n);
      SignedIs(gpr[s]);
      SetT(BoolWord(if signed then S32(gpr[s]) < S32(imm) else gpr[s] < imm));
    }

    method SetXor(s: Reg, imm: Word)
      requires Valid()
      modifies `gpr
      ensures Valid()
      ensures Signed(gpr) == old(Signed(gpr))[24 := S32(XorW(U32(Rd(old(Signed(gpr)), s)), U32(imm)))]
    {
      SignedIs(gpr[s]);
      SetT(XorW(gpr[s], imm));
    }

    // The three shifts, in the encoding's numbering.
    method SetShifted(fn: int, d: Reg, s: Reg, sa: nat)
      requires Valid() && (fn == 0 || fn == 2 || fn == 3)
      modifies `gpr
      ensures Valid()
      ensures var v := Rd(old(Signed(gpr)), s);
              Signed(gpr) == Wr(old(Signed(gpr)), d,
                S32(if fn == 0 then v * Pow2(sa) else if fn == 2 then U32(v) / Pow2(sa) else v / Pow2(sa)))
    {
      var v := gpr[s];
      SignedIs(v);
      if fn == 0 {
        ShiftLeftAgree(v, Pow2(sa));
        Set(d, MulW(v, Pow2(sa)));
      } else if fn == 2 {
        ShiftRightAgree(v, Pow2(sa));
        Set(d, v / Pow2(sa));
      } else {
        ShiftRightAgree(v, Pow2(sa));
        Set(d, U32(S32(v) / Pow2(sa)));
      }
    }

    method SetCnvt(k: D.CnvtKind, d: Reg)
      requires Valid()
      modifies `gpr
      ensures Valid()
      ensures Signed(gpr) == Wr(old(Signed(gpr)), d, E.Cnvt(k, Rd(old(Signed(gpr)), d)))
    {
      hide S32, Sx16, E.Cnvt;
      var v := gpr[d];
      ZeroAgree(gpr[0]);
      assert Rd(Signed(gpr), d) == S32(v);
      CnvtIs(k, v);
      match k
      case Zeb => Set(d, v % 0x100);
      case Zeh => Set(d, v % 0x1_0000);
      case Seb => Set(d, Sx16(v, 0x100_0000));
      case Seh => Set(d, Sx16(v, 0x1_0000));
    }

    // The bus read of each width, extended as the instruction asks.
    method LoadAt(k: D.LoadKind, y: Reg, addr: Word)
      requires Valid()
      modifies `gpr
      ensures Valid()
      ensures Signed(gpr) == Wr(old(Signed(gpr)), y, E.Load(k, mem, addr))
    {
      match k
      case Lb => LbAgrees(mem, addr); Set(y, Sx16(Read8(mem, addr), 0x100_0000));
      case Lh => LhAgrees(mem, addr); Set(y, Sx16(Read16(mem, addr), 0x1_0000));
      case Lw => Set(y, Read32(mem, addr));
      case Lbu => Set(y, Read8(mem, addr));
      case Lhu => Set(y, Read16(mem, addr));
    }

    method LoadReg(k: D.LoadKind, y: Reg, b: Reg, off: Word, ghost n: int)
      requires Valid() && off == U32(n)
      modifies `gpr
      ensures Valid()
      ensures Signed(gpr) == Wr(old(Signed(gpr)), y, E.Load(k, mem, U32(Rd(old(Signed(gpr)), b) + n)))
    {
      AddAgree(gpr[b], n);
      LoadAt(k, y, AddW(gpr[b], off));
    }

    method LoadPc(y: Reg, base: Word, off: Word, ghost n: int)
      requires Valid() && off == U32(n)
      modifies `gpr
      ensures Valid()
      ensures Signed(gpr) == Wr(old(Signed(gpr)), y, E.Load(D.Lw, mem, U32(base + n)))
    {
      AddAgree(base, n);
      LoadAt(D.Lw, y, AddW(base, off));
    }

    // bus.Write takes the low bytes of the register.
    method StoreReg(k: D.StoreKind, y: Reg, b: Reg, off: Word, ghost n: int)
      requires Valid() && off == U32(n)
      modifies `mem
      ensures mem == E.Store(k, old(mem), U32(Rd(Signed(gpr), b) + n), Rd(Signed(gpr), y))
    {
      AddAgree(gpr[b], n);
      LowBytes(gpr[y]);
      var addr, v := AddW(gpr[b], off), gpr[y];
      match k
      case Sb => mem := Write8(mem, addr, v % 0x100);
      case Sh => mem := Write16(mem, addr, v % 0x1_0000);
      case Sw => mem := Write32(mem, addr, v);
    }

    // ---- The MIPS16 switch, one method per arm -------------------------------------------

    method Imm8(h: Half, ext: nat, extended: bool, scale: nat) returns (imm: Word)
      requires scale <= 8
      ensures imm == U32(D.Imm8(Ext(ext, extended), h, scale))
    {
      if extended {
        SignExtensionsAgree(D.ExtImm16(ext, h), 0x8000, 0x1_0000);
        imm := Sx16(D.ExtImm16(ext, h), 0x1_0000);
      } else {
        imm := h % 0x100 * scale;
      }
    }

    // The byte immediate, sign-extended before it is scaled.
    method ImmS8(h: Half, ext: nat, extended: bool, scale: nat) returns (imm: Word)
      requires scale == 1 || scale == 8
      ensures imm == U32(D.ImmS8(Ext(ext, extended), h, scale))
    {
      if extended {
        SignExtensionsAgree(D.ExtImm16(ext, h), 0x8000, 0x1_0000);
        imm := Sx16(D.ExtImm16(ext, h), 0x1_0000);
      } else {
        SignExtensionsAgree(h % 0x100, 0x80, 0x100_0000);
        ScaleAgree(D.Sx(h % 0x100, 0x80), scale);
        imm := MulW(Sx16(h % 0x100, 0x100_0000), scale);
      }
    }

    method BranchOff(h: Half, ext: nat, extended: bool) returns (off: Word)
      ensures off == U32(D.BranchOff(Ext(ext, extended), h))
    {
      if extended {
        SignExtensionsAgree(D.ExtImm16(ext, h), 0x8000, 0x1_0000);
        ScaleAgree(D.Sx(D.ExtImm16(ext, h), 0x8000), 2);
        off := MulW(Sx16(D.ExtImm16(ext, h), 0x1_0000), 2);
      } else {
        SignExtensionsAgree(h % 0x100, 0x80, 0x100_0000);
        ScaleAgree(D.Sx(h % 0x100, 0x80), 2);
        off := MulW(Sx16(h % 0x100, 0x100_0000), 2);
      }
    }

    method BOff(h: Half, ext: nat, extended: bool) returns (off: Word)
      ensures off == U32(D.BOff(Ext(ext, extended), h))
    {
      if extended {
        SignExtensionsAgree(D.ExtImm16(ext, h), 0x8000, 0x1_0000);
        ScaleAgree(D.Sx(D.ExtImm16(ext, h), 0x8000), 2);
        off := MulW(Sx16(D.ExtImm16(ext, h), 0x1_0000), 2);
      } else {
        SignExtensionsAgree(h % 0x800, 0x400, 0x20_0000);
        ScaleAgree(D.Sx(h % 0x800, 0x400), 2);
        off := MulW(Sx16(h % 0x800, 0x20_0000), 2);
      }
    }

    method MemOff(h: Half, ext: nat, extended: bool, scale: nat) returns (off: Word)
      requires scale <= 4
      ensures off == U32(D.MemOff(Ext(ext, extended), h, scale))
    {
      if extended {
        SignExtensionsAgree(D.ExtImm16(ext, h), 0x8000, 0x1_0000);
        off := Sx16(D.ExtImm16(ext, h), 0x1_0000);
      } else {
        off := h % 0x20 * scale;
      }
    }

    method Imm15(h: Half, ext: nat, extended: bool) returns (imm: Word)
      ensures imm == U32(D.Imm15(Ext(ext, extended), h))
    {
      if extended {
        SignExtensionsAgree(D.ExtImm15(ext, h), 0x4000, 0x2_0000);
        imm := Sx16(D.ExtImm15(ext, h), 0x2_0000);
      } else {
        SignExtensionsAgree(h % 0x10, 8, 0x1000_0000);
        imm := Sx16(h % 0x10, 0x1000_0000);
      }
    }

    predicate ConstField(h: Half, extended: bool) {
      !extended || h / 0x20 % 8 == 0
    }

    ghost predicate ImmDone(ok: bool, i: D.Decoded, was: Gpr)
      reads this
    {
      if ok then i.Insn? && i.x.ImmOp? && Signed(gpr) == E.Imm(i.x.immk, i.x, Signed(was))
      else i.Unknown? && gpr == was
    }

    // The forms whose value depends on no register.
    ghost predicate ConstDone(ok: bool, i: D.Decoded, was: Gpr, base: Word)
      reads this
    {
      if ok then
        && i.Insn? && (i.x.AddiuPc? || i.x.Li?)
        && Signed(gpr) == Wr(Signed(was), i.x.d, S32(if i.x.Li? then i.x.imm else U32(D.Align4(base) + i.x.imm)))
      else i.Unknown? && gpr == was
    }

    ghost predicate RegDone(ok: bool, i: D.Decoded, was: Gpr)
      reads this
    {
      if ok then i.Insn? && i.x.RegOp? && Signed(gpr) == Wr(Signed(was), i.x.d, E.Arith(i.x.regk, i.x, Signed(was)))
      else i.Unknown? && gpr == was
    }

    ghost predicate LogicDone(i: D.Decoded, was: Gpr)
      reads this
    {
      && i.Insn? && i.x.LogicOp?
      && Signed(gpr) == Wr(Signed(was), i.x.d, E.Logic(i.x.logic, Rd(Signed(was), i.x.d), Rd(Signed(was), i.x.s)))
    }

    ghost predicate CondDone(i: D.Decoded, was: Gpr)
      reads this
    {
      && i.Insn? && i.x.CondOp?
      && Signed(gpr) == Signed(was)[24 := E.Cond(i.x.cond, Rd(Signed(was), i.x.d), Rd(Signed(was), i.x.s))]
    }

    ghost predicate LessDone(ok: bool, i: D.Decoded, was: Gpr)
      reads this
    {
      if ok then
        i.Insn? && i.x.LessOp? && Signed(gpr) == Signed(was)[24 := E.Less(i.x.less, Rd(Signed(was), i.x.s), i.x.imm)]
      else i.Unknown? && gpr == was
    }

    ghost predicate CmpiDone(ok: bool, i: D.Decoded, was: Gpr)
      reads this
    {
      if ok then
        && i.Insn? && i.x.Cmpi?
        && Signed(gpr) == Signed(was)[24 := S32(XorW(U32(Rd(Signed(was), i.x.s)), U32(i.x.imm)))]
      else i.Unknown? && gpr == was
    }

    ghost predicate ShiftDone(ok: bool, i: D.Decoded, was: Gpr)
      reads this
    {
      if ok then
        i.Insn? && i.x.ShiftOp? && Signed(gpr) == Wr(Signed(was), i.x.d, E.Shift(i.x.shift, Rd(Signed(was), i.x.s), i.x.sa))
      else i.Unknown? && gpr == was
    }

    ghost predicate ShiftVDone(i: D.Decoded, was: Gpr)
      reads this
    {
      && i.Insn? && i.x.ShiftVOp?
      && Signed(gpr) == Wr(Signed(was), i.x.d, E.ShiftV(i.x.shiftv, Rd(Signed(was), i.x.d), Rd(Signed(was), i.x.sh)))
    }

    method ArmAddiuSp(op: nat, h: Half, ext: nat, extended: bool) returns (ok: bool)
      requires Valid() && op == 0x00
      modifies `gpr
      ensures Valid()
      ensures ImmDone(ok, D.DecodeImm(op, Ext(ext, extended), h, Length(extended), PcBase()), old(gpr))
    {
      if !ConstField(h, extended) { return false; }
      var imm := Imm8(h, ext, extended, 4);
      SetSum(M16(h / 0x100 % 8), 29, imm, D.Imm8(Ext(ext, extended), h, 4));
      ok := true;
    }

    method ArmAddiuPc(op: nat, h: Half, ext: nat, extended: bool) returns (ok: bool)
      requires Valid() && op == 0x01
      modifies `gpr
      ensures Valid()
      ensures ConstDone(ok, D.DecodeImm(op, Ext(ext, extended), h, Length(extended), PcBase()), old(gpr), PcBase())
    {
      if !ConstField(h, extended) { return false; }
      var imm := Imm8(h, ext, extended, 4);
      SetPcSum(M16(h / 0x100 % 8), D.Align4(PcBase()), imm, D.Imm8(Ext(ext, extended), h, 4));
      ok := true;
    }

    method ArmAddiu8(op: nat, h: Half, ext: nat, extended: bool) returns (ok: bool)
      requires Valid() && op == 0x09
      modifies `gpr
      ensures Valid()
      ensures ImmDone(ok, D.DecodeImm(op, Ext(ext, extended), h, Length(extended), old(PcBase())), old(gpr))
    {
      if !ConstField(h, extended) { return false; }
      var x := M16(h / 0x100 % 8);
      var imm := ImmS8(h, ext, extended, 1);
      SetSum(x, x, imm, D.ImmS8(Ext(ext, extended), h, 1));
      ghost var i := D.DecodeImm(op, Ext(ext, extended), h, Length(extended), PcBase());
      assert Signed(gpr) == Wr(old(Signed(gpr)), i.x.d, S32(Rd(old(Signed(gpr)), i.x.d) + i.x.imm));
      ok := true;
    }

    method ArmLi(op: nat, h: Half, ext: nat, extended: bool) returns (ok: bool)
      requires Valid() && op == 0x0D
      modifies `gpr
      ensures Valid()
      ensures ConstDone(ok, D.DecodeImm(op, Ext(ext, extended), h, Length(extended), old(PcBase())), old(gpr), old(PcBase()))
    {
      if !ConstField(h, extended) { return false; }
      Set(M16(h / 0x100 % 8), if extended then D.ExtImm16(ext, h) else h % 0x100);
      ok := true;
    }

    method ArmRri(h: Half, ext: nat, extended: bool) returns (ok: bool)
      requires Valid()
      modifies `gpr
      ensures Valid()
      ensures ImmDone(ok, D.DecodeRri(Ext(ext, extended), h, Length(extended)), old(gpr))
    {
      hide S32, U32, Wr, D.Imm15, Signed;
      if h / 0x10 % 2 != 0 { return false; }
      var imm := Imm15(h, ext, extended);
      SetSum(M16(h / 0x20 % 8), M16(h / 0x100 % 8), imm, D.Imm15(Ext(ext, extended), h));
      ghost var i := D.DecodeRri(Ext(ext, extended), h, Length(extended));
      assert Signed(gpr) == Wr(old(Signed(gpr)), i.x.d, S32(Rd(old(Signed(gpr)), i.x.s) + i.x.imm));
      ok := true;
    }

    method ArmSlti(op: nat, h: Half, ext: nat, extended: bool) returns (ok: bool)
      requires Valid() && (op == 0x0A || op == 0x0B)
      modifies `gpr
      ensures Valid()
      ensures LessDone(ok, D.DecodeCond(op, Ext(ext, extended), h, Length(extended)), old(gpr))
    {
      if !ConstField(h, extended) { return false; }
      var imm := Imm8(h, ext, extended, 1);
      SetLess(M16(h / 0x100 % 8), imm, D.Imm8(Ext(ext, extended), h, 1), op == 0x0A);
      ok := true;
    }

    method ArmCmpi(op: nat, h: Half, ext: nat, extended: bool) returns (ok: bool)
      requires Valid() && op == 0x0E
      modifies `gpr
      ensures Valid()
      ensures CmpiDone(ok, D.DecodeCond(op, Ext(ext, extended), h, Length(extended)), old(gpr))
    {
      if !ConstField(h, extended) { return false; }
      CmpiDecodes(h, ext, extended);
      var imm: Word := if extended then D.ExtImm16(ext, h) else h % 0x100;
      SetXor(M16(h / 0x100 % 8), imm);
      ok := true;
    }

    method ArmShift(h: Half, ext: nat, extended: bool) returns (ok: bool)
      requires Valid()
      modifies `gpr
      ensures Valid()
      ensures ShiftDone(ok, D.DecodeShift(Ext(ext, extended), h, Length(extended)), old(gpr))
    {
      var fn := h % 4;
      ShiftDecodes(h, ext, extended);
      if fn == 1 { return false; }
      var sa := if h / 4 % 8 == 0 then 8 else h / 4 % 8;
      if extended {
        if h / 4 % 8 != 0 || ext % 0x40 != 0 { return false; }
        sa := ext / 0x40 % 0x20;
      }
      SetShifted(fn, M16(h / 0x100 % 8), M16(h / 0x20 % 8), sa);
      ok := true;
    }

    method ArmAdjSp(h: Half, ext: nat, extended: bool) returns (ok: bool)
      requires Valid() && h / 0x100 % 8 == 3
      modifies `gpr
      ensures Valid()
      ensures ImmDone(ok, D.DecodeI8(Ext(ext, extended), h, Length(extended)), old(gpr))
    {
      if !ConstField(h, extended) { return false; }
      var imm := ImmS8(h, ext, extended, 8);
      SetSum(29, 29, imm, D.ImmS8(Ext(ext, extended), h, 8));
      ghost var i := D.DecodeI8(Ext(ext, extended), h, Length(extended));
      assert Signed(gpr) == Wr(old(Signed(gpr)), 29, S32(Rd(old(Signed(gpr)), 29) + i.x.imm));
      ok := true;
    }

    method ArmMove(h: Half, ext: nat, extended: bool) returns (ok: bool)
      requires Valid() && (h / 0x100 % 8 == 5 || h / 0x100 % 8 == 7)
      modifies `gpr
      ensures Valid()
      ensures RegDone(ok, D.DecodeI8(Ext(ext, extended), h, Length(extended)), old(gpr))
    {
      if extended { return false; }
      if h / 0x100 % 8 == 5 {
        var fld := h / 8 % 0x20;
        Set(fld % 4 * 8 + fld / 4 % 8, gpr[M16(h % 8)]);
      } else {
        Set(M16(h / 0x20 % 8), gpr[h % 0x20]);
      }
      ok := true;
    }

    method ArmRrr(h: Half, ext: nat, extended: bool) returns (ok: bool)
      requires Valid()
      modifies `gpr
      ensures Valid()
      ensures RegDone(ok, D.DecodeRrr(Ext(ext, extended), h), old(gpr))
    {
      if extended || (h % 4 != 1 && h % 4 != 3) { return false; }
      var x, y, z := gpr[M16(h / 0x100 % 8)], gpr[M16(h / 0x20 % 8)], M16(h / 4 % 8);
      if h % 4 == 1 {
        RegAddAgree(x, y);
        Set(z, AddW(x, y));
      } else {
        RegSubAgree(x, y);
        Set(z, SubW(x, y));
      }
      ok := true;
    }

    method ArmRrLogic(h: Half)
      requires Valid() && 12 <= h % 0x20 <= 14
      modifies `gpr
      ensures Valid()
      ensures LogicDone(D.DecodeRr(None, h), old(gpr))
    {
      var fn, d := h % 0x20, M16(h / 0x100 % 8);
      var x, y := gpr[d], gpr[M16(h / 0x20 % 8)];
      SignedIs(x);
      SignedIs(y);
      if fn == 12 {
        Set(d, AndW(x, y));
      } else if fn == 13 {
        Set(d, OrW(x, y));
      } else {
        Set(d, XorW(x, y));
      }
    }

    method ArmRrNegNot(h: Half)
      requires Valid() && (h % 0x20 == 11 || h % 0x20 == 15)
      modifies `gpr
      ensures Valid()
      ensures LogicDone(D.DecodeRr(None, h), old(gpr))
    {
      var d, y := M16(h / 0x100 % 8), gpr[M16(h / 0x20 % 8)];
      if h % 0x20 == 11 {
        NegAgree(y);
        Set(d, SubW(0, y));
      } else {
        NotAgree(y);
        Set(d, 0xFFFF_FFFF - y);
      }
    }

    method ArmRrCond(h: Half)
      requires Valid() && (h % 0x20 == 2 || h % 0x20 == 3 || h % 0x20 == 10)
      modifies `gpr
      ensures Valid()
      ensures CondDone(D.DecodeRr(None, h), old(gpr))
    {
      var x, y := gpr[M16(h / 0x100 % 8)], gpr[M16(h / 0x20 % 8)];
      SignedIs(x);
      SignedIs(y);
      if h % 0x20 == 2 {
        SetT(BoolWord(S32(x) < S32(y)));
      } else if h % 0x20 == 3 {
        SetT(BoolWord(x < y));
      } else {
        SetT(XorW(x, y));
      }
    }

    method ArmRrShift(h: Half)
      requires Valid() && (h % 0x20 == 4 || h % 0x20 == 6 || h % 0x20 == 7)
      modifies `gpr
      ensures Valid()
      ensures ShiftVDone(D.DecodeRr(None, h), old(gpr))
    {
      var d, sh := M16(h / 0x20 % 8), M16(h / 0x100 % 8);
      SignedIs(gpr[sh]);
      SetShifted(h % 0x20 - 4, d, d, gpr[sh] % 32);
    }

    // B, BEQZ/BNEZ and BTEQZ/BTNEZ take effect at once: a MIPS16 branch has no delay slot.
    ghost predicate BranchDone(ok: bool, effect: Branch, i: D.Decoded)
      reads this
    {
      if ok then
        && i.Insn? && i.x.BranchOp?
        && EffectIs(effect, if E.Taken(i.x.branch, i.x, Signed(gpr)) then E.BranchTo(U32(pc + i.length + i.x.off), true)
                            else E.Straight)
      else i.Unknown?
    }

    method BranchIf(taken: bool, length: int, off: Word, ghost n: int) returns (effect: Branch)
      requires off == U32(n)
      ensures EffectIs(effect, if taken then E.BranchTo(U32(pc + length + n), true) else E.Straight)
    {
      effect := NO_BRANCH;
      if taken {
        NextPlus(pc, length, n);
        effect := Branch(AddW(AddW(pc, length), off), 0, true, false, true);
      }
    }

    method ArmB(h: Half, ext: nat, extended: bool) returns (ok: bool, effect: Branch)
      ensures BranchDone(ok, effect, D.DecodeB(Ext(ext, extended), h, Length(extended)))
    {
      if extended && h / 0x20 % 0x40 != 0 { return false, NO_BRANCH; }
      var off := BOff(h, ext, extended);
      effect := BranchIf(true, Length(extended), off, D.BOff(Ext(ext, extended), h));
      ok := true;
    }

    method ArmBz(op: nat, h: Half, ext: nat, extended: bool) returns (ok: bool, effect: Branch)
      requires Valid() && (op == 0x04 || op == 0x05)
      ensures BranchDone(ok, effect, D.DecodeBz(op, Ext(ext, extended), h, Length(extended)))
    {
      if !ConstField(h, extended) { return false, NO_BRANCH; }
      var off := BranchOff(h, ext, extended);
      ZeroAgree(gpr[M16(h / 0x100 % 8)]);
      effect := BranchIf((gpr[M16(h / 0x100 % 8)] == 0) == (op == 0x04), Length(extended), off,
                         D.BranchOff(Ext(ext, extended), h));
      ok := true;
    }

    method ArmBt(h: Half, ext: nat, extended: bool) returns (ok: bool, effect: Branch)
      requires Valid() && h / 0x100 % 8 <= 1
      ensures BranchDone(ok, effect, D.DecodeI8(Ext(ext, extended), h, Length(extended)))
    {
      if !ConstField(h, extended) { return false, NO_BRANCH; }
      var off := BranchOff(h, ext, extended);
      ZeroAgree(gpr[24]);
      effect := BranchIf((gpr[24] == 0) == (h / 0x100 % 8 == 0), Length(extended), off,
                         D.BranchOff(Ext(ext, extended), h));
      ok := true;
    }

    ghost predicate JumpDone(ok: bool, effect: Branch, i: D.Decoded, was: Gpr)
      reads this
    {
      if ok then
        && i.Insn? && i.x.JumpOp?
        && var p := E.Jump(i.x.jump, i.x, Signed(was), pc);
           Signed(gpr) == p.0 && EffectIs(effect, p.1)
      else i.Unknown? && gpr == was
    }

    // The linking forms: the return address remembers that it is MIPS16 code.
    method SetLink(n: int)
      requires Valid()
      modifies `gpr
      ensures Valid()
      ensures Signed(gpr) == old(Signed(gpr))[31 := E.Link(pc + n)]
    {
      Set(31, OrW(AddW(pc, n), 1));
    }

    method ArmJal(h: Half, ext: nat, extended: bool) returns (ok: bool, effect: Branch)
      requires Valid()
      modifies `gpr
      ensures Valid()
      ensures var i := D.DecodeJal(Ext(ext, extended), h, Read16(mem, U32(pc + 2)), pc);
              if ok then i.Insn? && i.x.Jal? && Signed(gpr) == old(Signed(gpr))[31 := E.Link(pc + 6)] &&
                EffectIs(effect, E.JumpTo(i.x.tgt, !i.x.toggle))
              else i.Unknown? && gpr == old(gpr)
    {
      JalDecodes(h, extended, ext, Read16(mem, AddW(pc, 2)), pc);
      if extended { return false, NO_BRANCH; }
      var second := Read16(mem, AddW(pc, 2));
      var idx := h % 0x20 * 0x20_0000 + h / 0x20 % 0x20 * 0x1_0000 + second;
      var target := AddW(pc, 4) / 0x1000_0000 * 0x1000_0000 + idx * 4;
      SetLink(6);
      effect := Branch(target, 0, h / 0x400 % 2 == 0, true, false);
      ok := true;
    }

    // JR, JALR and the compact JRC, JALRC.
    method ArmJr(h: Half) returns (ok: bool, effect: Branch)
      requires Valid()
      modifies `gpr
      ensures Valid()
      ensures JumpDone(ok, effect, D.DecodeJalrc(h), old(gpr))
    {
      var rx, ry := h / 0x100 % 8, h / 0x20 % 8;
      JalrcDecodes(h);
      if ry == 3 || ry == 7 { return false, NO_BRANCH; }
      if (ry == 1 || ry == 5) && rx != 0 { return false, NO_BRANCH; }
      var v := gpr[if ry == 1 || ry == 5 then 31 else M16(rx)];
      SignedIs(v);
      if ry == 2 || ry == 6 {
        SetLink(if ry == 6 then 2 else 4);
      }
      effect := Branch(v - v % 2, 0, v % 2 == 1, ry <= 2, ry >= 4);
      ok := true;
    }

    ghost predicate LoadDone(ok: bool, i: D.Decoded, was: Gpr)
      reads this
    {
      if ok then
        && i.Insn? && i.x.LoadOp?
        && Signed(gpr) == Wr(Signed(was), i.x.r, E.Load(i.x.load, mem, U32(Rd(Signed(was), i.x.b) + i.x.off)))
      else i.Unknown? && gpr == was
    }

    method ArmLoad(op: nat, h: Half, ext: nat, extended: bool) returns (ok: bool)
      requires Valid() && op !in {0x18, 0x19, 0x1B}
      modifies `gpr
      ensures Valid()
      ensures LoadDone(ok, D.DecodeMem(op, Ext(ext, extended), h, Length(extended)), old(gpr))
    {
      if op !in {0x10, 0x11, 0x13, 0x14, 0x15} { return false; }
      var scale := if op == 0x13 then 4 else if op == 0x11 || op == 0x15 then 2 else 1;
      LoadDecodes(op, h, ext, extended);
      var off := MemOff(h, ext, extended, scale);
      LoadReg(if op == 0x10 then D.Lb else if op == 0x11 then D.Lh else if op == 0x13 then D.Lw
              else if op == 0x14 then D.Lbu else D.Lhu,
              M16(h / 0x20 % 8), M16(h / 0x100 % 8), off, D.MemOff(Ext(ext, extended), h, scale));
      ok := true;
    }

    method ArmStore(op: nat, h: Half, ext: nat, extended: bool)
      requires Valid() && op in {0x18, 0x19, 0x1B}
      modifies `mem
      ensures var i := D.DecodeMem(op, Ext(ext, extended), h, Length(extended));
              && i.Insn? && i.x.StoreOp?
              && mem == E.Store(i.x.store, old(mem), U32(Rd(Signed(gpr), i.x.b) + i.x.off), Rd(Signed(gpr), i.x.r))
    {
      var scale := if op == 0x1B then 4 else if op == 0x19 then 2 else 1;
      StoreDecodes(op, h, ext, extended);
      var off := MemOff(h, ext, extended, scale);
      StoreReg(if op == 0x18 then D.Sb else if op == 0x19 then D.Sh else D.Sw,
               M16(h / 0x20 % 8), M16(h / 0x100 % 8), off, D.MemOff(Ext(ext, extended), h, scale));
    }

    method ArmLwSp(op: nat, h: Half, ext: nat, extended: bool) returns (ok: bool)
      requires Valid() && op == 0x12
      modifies `gpr
      ensures Valid()
      ensures var i := D.DecodeWord(op, Ext(ext, extended), h, Length(extended), PcBase());
              if ok then i.Insn? && i.x.LwSp? &&
                Signed(gpr) == Wr(old(Signed(gpr)), i.x.r, E.Load(D.Lw, mem, U32(Rd(old(Signed(gpr)), 29) + i.x.off)))
              else i.Unknown? && gpr == old(gpr)
    {
      if !ConstField(h, extended) { return false; }
      var off := Imm8(h, ext, extended, 4);
      LoadReg(D.Lw, M16(h / 0x100 % 8), 29, off, D.Imm8(Ext(ext, extended), h, 4));
      ok := true;
    }

    method ArmLwPc(op: nat, h: Half, ext: nat, extended: bool) returns (ok: bool)
      requires Valid() && op == 0x16
      modifies `gpr
      ensures Valid()
      ensures var i := D.DecodeWord(op, Ext(ext, extended), h, Length(extended), PcBase());
              if ok then i.Insn? && i.x.LwPc? &&
                Signed(gpr) == Wr(old(Signed(gpr)), i.x.d, E.Load(D.Lw, mem, U32(D.Align4(PcBase()) + i.x.off)))
              else i.Unknown? && gpr == old(gpr)
    {
      if !ConstField(h, extended) { return false; }
      var off := Imm8(h, ext, extended, 4);
      LoadPc(M16(h / 0x100 % 8), D.Align4(PcBase()), off, D.Imm8(Ext(ext, extended), h, 4));
      ok := true;
    }

    method ArmSwSp(op: nat, h: Half, ext: nat, extended: bool) returns (ok: bool)
      requires Valid() && op == 0x1A
      modifies `mem
      ensures var i := D.DecodeWord(op, Ext(ext, extended), h, Length(extended), PcBase());
              if ok then i.Insn? && i.x.SwSp? &&
                mem == E.Store(D.Sw, old(mem), U32(Rd(Signed(gpr), 29) + i.x.off), Rd(Signed(gpr), i.x.r))
              else i.Unknown? && mem == old(mem)
    {
      if !ConstField(h, extended) { return false; }
      var off := Imm8(h, ext, extended, 4);
      StoreReg(D.Sw, M16(h / 0x100 % 8), 29, off, D.Imm8(Ext(ext, extended), h, 4));
      ok := true;
    }

    method ArmSwRaSp(h: Half, ext: nat, extended: bool) returns (ok: bool)
      requires Valid() && h / 0x100 % 8 == 2
      modifies `mem
      ensures var i := D.DecodeI8(Ext(ext, extended), h, Length(extended));
              if ok then i.Insn? && i.x.SwRaSp? &&
                mem == E.Store(D.Sw, old(mem), U32(Rd(Signed(gpr), 29) + i.x.off), Rd(Signed(gpr), 31))
              else i.Unknown? && mem == old(mem)
    {
      if !ConstField(h, extended) { return false; }
      var off := Imm8(h, ext, extended, 4);
      StoreReg(D.Sw, 31, 29, off, D.Imm8(Ext(ext, extended), h, 4));
      ok := true;
    }

    // MFHI, MFLO
    method ArmMfhl(h: Half) returns (ok: bool)
      requires Valid() && (h % 0x20 == 16 || h % 0x20 == 18)
      modifies `gpr
      ensures Valid()
      ensures var i := D.DecodeRr(None, h);
              if ok then i.Insn? && (i.x.Mfhi? || i.x.Mflo?) &&
                Signed(gpr) == Wr(old(Signed(gpr)), i.x.d, S32(if i.x.Mfhi? then hi else lo))
              else i.Unknown? && gpr == old(gpr)
    {
      if h / 0x20 % 8 != 0 { return false; }
      Set(M16(h / 0x100 % 8), if h % 0x20 == 16 then hi else lo);
      ok := true;
    }

    method ArmCnvt(h: Half) returns (ok: bool)
      requires Valid()
      modifies `gpr
      ensures Valid()
      ensures var i := D.DecodeCnvt(h);
              if ok then i.Insn? && i.x.CnvtOp? &&
                Signed(gpr) == Wr(old(Signed(gpr)), i.x.d, E.Cnvt(i.x.cnvt, Rd(old(Signed(gpr)), i.x.d)))
              else i.Unknown? && gpr == old(gpr)
    {
      CnvtDecodes(h);
      var x, ry := M16(h / 0x100 % 8), h / 0x20 % 8;
      if ry == 2 || ry == 3 || ry >= 6 { return false; }
      SetCnvt(if ry == 0 then D.Zeb else if ry == 1 then D.Zeh else if ry == 4 then D.Seb else D.Seh, x);
      ok := true;
    }

    // Go's native 64-bit product, split into its two words.
    method MultiplyWords(x: Word, y: Word, signed: bool)
      modifies `hi, `lo
      ensures (S32(hi), S32(lo)) == Mul64(S32(x), S32(y), signed)
    {
      var p: int := if signed then Times(S32(x), S32(y)) else Times(x, y);
      SignedIs(x);
      SignedIs(y);
      Mul64Agrees(S32(x), S32(y), signed);
      hi, lo := High(p), Low(p);
    }

    // A zero divisor leaves HI and LO alone.
    method DivideWords(x: Word, y: Word, signed: bool)
      modifies `hi, `lo
      ensures if y == 0 then hi == old(hi) && lo == old(lo)
              else (S32(hi), S32(lo)) == E.Divide(signed, S32(x), S32(y))
    {
      ZeroAgree(y);
      if y != 0 {
        DivideAgrees(x, y);
        if signed {
          lo, hi := U32(TruncDiv(S32(x), S32(y))), U32(TruncMod(S32(x), S32(y)));
        } else {
          ShiftRightBound(x, y);
          lo, hi := x / y, x % y;
        }
      }
    }

    method ArmMult(h: Half)
      requires Valid() && (h % 0x20 == 24 || h % 0x20 == 25)
      modifies `hi, `lo
      ensures var i := D.DecodeRr(None, h);
              i.Insn? && i.x.Mult? &&
              (S32(hi), S32(lo)) == Mul64(Rd(Signed(gpr), i.x.d), Rd(Signed(gpr), i.x.s), i.x.signed)
    {
      hide Mul64;
      MultiplyWords(gpr[M16(h / 0x100 % 8)], gpr[M16(h / 0x20 % 8)], h % 0x20 == 24);
    }

    method ArmDiv(h: Half)
      requires Valid() && (h % 0x20 == 26 || h % 0x20 == 27)
      modifies `hi, `lo
      ensures var i := D.DecodeRr(None, h);
              && i.Insn? && i.x.Div?
              && if Rd(Signed(gpr), i.x.t) == 0 then hi == old(hi) && lo == old(lo)
                 else (S32(hi), S32(lo)) == E.Divide(i.x.signed, Rd(Signed(gpr), i.x.s), Rd(Signed(gpr), i.x.t))
    {
      hide E.Divide;
      ZeroAgree(gpr[M16(h / 0x20 % 8)]);
      DivideWords(gpr[M16(h / 0x100 % 8)], gpr[M16(h / 0x20 % 8)], h % 0x20 == 26);
    }

    /** What execute16 owes the oracle, whose decoding of the instruction is i: the same refusal,
        or the same registers, HI, LO, memory and transfer of control. */
    ghost predicate Follows(c: E.Cpu, m: Mem, i: D.Decoded, ok: bool, effect: Branch)
      reads this
    {
      if i.Unknown? || FrameOp(i) || i.x.Trap? || i.x.BareExtend? then
        !ok && Signed(gpr) == c.reg && S32(hi) == c.hi && S32(lo) == c.lo && mem == m
      else if ZeroDivide(c, i) then
        ok && effect == NO_BRANCH && Signed(gpr) == c.reg && S32(hi) == c.hi && S32(lo) == c.lo && mem == m
      else
        var e := E.Operate(c, m, i, c.pc);
        && ok && e.Effect? && EffectIs(effect, e.flow)
        && Signed(gpr) == e.reg && S32(hi) == e.hi && S32(lo) == e.lo && mem == e.mem
    }

    method ExecuteI8(h: Half, ext: nat, extended: bool) returns (ok: bool, effect: Branch)
      requires Valid()
      modifies `gpr, `mem
      ensures Valid()
      ensures Follows(old(View()), old(mem), D.DecodeI8(Ext(ext, extended), h, Length(extended)), ok, effect)
    {
      hide S32, U32, Wr, Rd, E.Taken, E.Imm, E.Arith, E.Store, D.Imm8, D.ImmS8, D.BranchOff, Signed;
      effect := NO_BRANCH;
      var fn := h / 0x100 % 8;
      if fn <= 1 {
        ok, effect := ArmBt(h, ext, extended);
      } else if fn == 2 {
        ok := ArmSwRaSp(h, ext, extended);
      } else if fn == 3 {
        ok := ArmAdjSp(h, ext, extended);
      } else if fn == 5 || fn == 7 {
        ok := ArmMove(h, ext, extended);
      } else {
        ok := false;
      }
    }

    method ExecuteRrHigh(h: Half) returns (ok: bool)
      requires Valid() && h % 0x20 >= 16
      modifies `gpr, `hi, `lo
      ensures Valid()
      ensures Follows(old(View()), mem, D.DecodeRr(None, h), ok, NO_BRANCH)
    {
      hide S32, U32, D.DecodeJalrc, D.DecodeCnvt;
      var fn := h % 0x20;
      if fn == 16 || fn == 18 {
        ok := ArmMfhl(h);
      } else if fn == 17 {
        ok := ArmCnvt(h);
      } else if fn == 24 || fn == 25 {
        ArmMult(h);
        ok := true;
      } else if fn == 26 || fn == 27 {
        ArmDiv(h);
        ok := true;
      } else {
        RrReserved(h);
        ok := false;
      }
    }

    // The comparisons, shifts and logic of RR: no transfer of control and nothing reserved.
    method ExecuteRrPlain(h: Half)
      requires Valid() && h % 0x20 in {2, 3, 10, 4, 6, 7, 11, 15, 12, 13, 14}
      modifies `gpr
      ensures Valid()
      ensures Follows(old(View()), mem, D.DecodeRr(None, h), true, NO_BRANCH)
    {
      hide S32, U32, D.DecodeJalrc, D.DecodeCnvt;
      var fn := h % 0x20;
      if fn == 2 || fn == 3 || fn == 10 {
        ArmRrCond(h);
      } else if fn == 4 || fn == 6 || fn == 7 {
        ArmRrShift(h);
      } else if fn == 11 || fn == 15 {
        ArmRrNegNot(h);
      } else {
        ArmRrLogic(h);
      }
    }

    method ExecuteRrLow(h: Half) returns (ok: bool, effect: Branch)
      requires Valid() && h % 0x20 < 16
      modifies `gpr
      ensures Valid()
      ensures Follows(old(View()), mem, D.DecodeRr(None, h), ok, effect)
    {
      hide S32, U32, D.DecodeJalrc, D.DecodeCnvt, E.Operate;
      var fn := h % 0x20;
      ok, effect := true, NO_BRANCH;
      if fn == 0 {
        ok, effect := ExecuteRrJump(h);
      } else if 2 <= fn <= 4 || 6 <= fn <= 7 || 10 <= fn <= 15 {
        ExecuteRrPlain(h);
      } else {
        RrReserved(h);
        ok := false;
      }
    }

    method ExecuteRrJump(h: Half) returns (ok: bool, effect: Branch)
      requires Valid() && h % 0x20 == 0
      modifies `gpr
      ensures Valid()
      ensures Follows(old(View()), mem, D.DecodeRr(None, h), ok, effect)
    {
      hide S32, U32, D.DecodeCnvt;
      ok, effect := ArmJr(h);
    }

    method ExecuteJal(h: Half, ext: nat, extended: bool) returns (ok: bool, effect: Branch)
      requires Valid()
      modifies `gpr
      ensures Valid()
      ensures Follows(old(View()), mem, D.DecodeJal(Ext(ext, extended), h, Read16(mem, U32(pc + 2)), pc), ok, effect)
    {
      hide D.DecodeJal, Read16, U32, S32;
      ok, effect := ArmJal(h, ext, extended);
    }

    method ExecuteBranch(op: nat, h: Half, ext: nat, extended: bool) returns (ok: bool, effect: Branch)
      requires Valid() && (op == 0x02 || op == 0x04 || op == 0x05)
      ensures Follows(View(), mem, if op == 0x02 then D.DecodeB(Ext(ext, extended), h, Length(extended))
                                   else D.DecodeBz(op, Ext(ext, extended), h, Length(extended)), ok, effect)
    {
      if op == 2 {
        ok, effect := ArmB(h, ext, extended);
      } else {
        ok, effect := ArmBz(op, h, ext, extended);
      }
    }

    method ExecuteImm(op: nat, h: Half, ext: nat, extended: bool) returns (ok: bool)
      requires Valid() && (op == 0x00 || op == 0x01 || op == 0x09 || op == 0x0D)
      modifies `gpr
      ensures Valid()
      ensures Follows(old(View()), mem, D.DecodeImm(op, Ext(ext, extended), h, Length(extended), PcBase()), ok, NO_BRANCH)
    {
      hide D.DecodeImm, S32, U32;
      if op == 0x00 {
        ok := ArmAddiuSp(op, h, ext, extended);
      } else if op == 0x01 {
        ok := ArmAddiuPc(op, h, ext, extended);
      } else if op == 0x09 {
        ok := ArmAddiu8(op, h, ext, extended);
      } else {
        ok := ArmLi(op, h, ext, extended);
      }
    }

    method ExecuteCond(op: nat, h: Half, ext: nat, extended: bool) returns (ok: bool)
      requires Valid() && (op == 0x0A || op == 0x0B || op == 0x0E)
      modifies `gpr
      ensures Valid()
      ensures Follows(old(View()), mem, D.DecodeCond(op, Ext(ext, extended), h, Length(extended)), ok, NO_BRANCH)
    {
      if op == 0x0E {
        ok := ArmCmpi(op, h, ext, extended);
      } else {
        ok := ArmSlti(op, h, ext, extended);
      }
    }

    // The remaining register forms: RRR and RR have no extended form.
    method ExecuteReg(h: Half, ext: nat, extended: bool) returns (ok: bool, effect: Branch)
      requires Valid()
      modifies `gpr, `hi, `lo
      ensures Valid()
      ensures Follows(old(View()), mem, if h / 0x800 == 0x1C then D.DecodeRrr(Ext(ext, extended), h)
                                        else D.DecodeRr(Ext(ext, extended), h), ok, effect)
    {
      effect := NO_BRANCH;
      if h / 0x800 == 0x1C {
        ok := ArmRrr(h, ext, extended);
      } else if extended {
        ok := false;
      } else if h % 0x20 < 16 {
        ok, effect := ExecuteRrLow(h);
      } else {
        ok := ExecuteRrHigh(h);
      }
    }

    method ExecuteSpWord(op: nat, h: Half, ext: nat, extended: bool) returns (ok: bool)
      requires Valid() && (op == 0x12 || op == 0x1A)
      modifies `gpr, `mem
      ensures Valid()
      ensures Follows(old(View()), old(mem), D.DecodeWord(op, Ext(ext, extended), h, Length(extended), PcBase()), ok, NO_BRANCH)
    {
      hide S32, U32, Wr, Rd, D.Imm8, E.Load, E.Store, Signed;
      if op == 0x12 {
        ok := ArmLwSp(op, h, ext, extended);
      } else {
        ok := ArmSwSp(op, h, ext, extended);
      }
    }

    method ExecutePcWord(op: nat, h: Half, ext: nat, extended: bool) returns (ok: bool)
      requires Valid() && op == 0x16
      modifies `gpr
      ensures Valid()
      ensures Follows(old(View()), mem, D.DecodeWord(op, Ext(ext, extended), h, Length(extended), PcBase()), ok, NO_BRANCH)
    {
      hide D.DecodeWord, S32, U32;
      ok := ArmLwPc(op, h, ext, extended);
    }

    method ExecuteMem(op: nat, h: Half, ext: nat, extended: bool) returns (ok: bool)
      requires Valid()
      modifies `gpr, `mem
      ensures Valid()
      ensures Follows(old(View()), old(mem), D.DecodeMem(op, Ext(ext, extended), h, Length(extended)), ok, NO_BRANCH)
    {
      hide D.DecodeMem, S32, U32;
      if op == 0x18 || op == 0x19 || op == 0x1B {
        ArmStore(op, h, ext, extended);
        ok := true;
      } else {
        ok := ArmLoad(op, h, ext, extended);
      }
    }

    /** What the oracle decodes where the core is about to execute. */
    ghost function Decoded(h: Half, ext: nat, extended: bool): D.Decoded
      reads this
    {
      D.Decode(h, Ext(ext, extended), Read16(mem, U32(pc + if extended then 4 else 2)), pc, PcBase())
    }

    method DispatchTransfer(op: nat, h: Half, ext: nat, extended: bool) returns (ok: bool, effect: Branch)
      requires Valid() && 2 <= op == h / 0x800 <= 5
      modifies `gpr
      ensures Valid()
      ensures Follows(old(View()), mem, old(Decoded(h, ext, extended)), ok, effect)
    {
      hide Follows, D.DecodeB, D.DecodeBz;
      if op == 0x03 {
        ok, effect := ExecuteJal(h, ext, extended);
      } else {
        ok, effect := ExecuteBranch(op, h, ext, extended);
      }
    }

    method ExecuteShiftRri(op: nat, h: Half, ext: nat, extended: bool) returns (ok: bool)
      requires Valid() && 0x06 <= op == h / 0x800 <= 0x08
      modifies `gpr
      ensures Valid()
      ensures Follows(old(View()), mem, old(Decoded(h, ext, extended)), ok, NO_BRANCH)
    {
      hide S32, U32, Wr, Rd, E.Imm, E.Shift, D.Imm15;
      if op == 0x06 {
        ok := ArmShift(h, ext, extended);
      } else if op == 0x07 {
        ok := false;
      } else {
        ok := ArmRri(h, ext, extended);
      }
    }

    // The other opcodes below I8.
    method DispatchLow(op: nat, h: Half, ext: nat, extended: bool) returns (ok: bool)
      requires Valid() && op == h / 0x800 < 0x0C && !(2 <= op <= 5)
      modifies `gpr, `mem
      ensures Valid()
      ensures Follows(old(View()), old(mem), old(Decoded(h, ext, extended)), ok, NO_BRANCH)
    {
      hide Follows, View, D.DecodeShift, D.DecodeRri, D.DecodeCond, D.DecodeImm, D.DecodeI8, D.DecodeWord, D.DecodeRrr, D.DecodeRr, D.DecodeMem, D.DecodeB, D.DecodeBz, D.DecodeJal;
      if 0x06 <= op <= 0x08 {
        ok := ExecuteShiftRri(op, h, ext, extended);
      } else if op == 0x0A || op == 0x0B {
        ok := ExecuteCond(op, h, ext, extended);
      } else {
        ok := ExecuteImm(op, h, ext, extended);
      }
    }

    method DispatchHigh(op: nat, h: Half, ext: nat, extended: bool) returns (ok: bool, effect: Branch)
      requires Valid() && op == h / 0x800 >= 0x0C
      modifies `gpr, `hi, `lo, `mem
      ensures Valid()
      ensures Follows(old(View()), old(mem), old(Decoded(h, ext, extended)), ok, effect)
    {
      hide E.Operate, ZeroDivide, D.DecodeShift, D.DecodeRri, D.DecodeCond, D.DecodeImm, D.DecodeI8, D.DecodeWord, D.DecodeRrr, D.DecodeRr, D.DecodeMem, D.DecodeB, D.DecodeBz, D.DecodeJal;
      effect := NO_BRANCH;
      if op == 0x0C {
        ok, effect := ExecuteI8(h, ext, extended);
      } else if op == 0x0D {
        ok := ExecuteImm(op, h, ext, extended);
      } else if op == 0x0E {
        ok := ExecuteCond(op, h, ext, extended);
      } else if op == 0x12 || op == 0x1A {
        ok := ExecuteSpWord(op, h, ext, extended);
      } else if op == 0x16 {
        ok := ExecutePcWord(op, h, ext, extended);
      } else if op == 0x1C || op == 0x1D {
        ok, effect := ExecuteReg(h, ext, extended);
      } else if op == 0x1E {
        ok := false;
      } else {
        ok := ExecuteMem(op, h, ext, extended);
      }
    }

    method Dispatch(h: Half, ext: nat, extended: bool) returns (ok: bool, effect: Branch)
      requires Valid()
      modifies `gpr, `hi, `lo, `mem
      ensures Valid()
      ensures Follows(old(View()), old(mem), old(Decoded(h, ext, extended)), ok, effect)
    {
      hide Follows, View, D.DecodeShift, D.DecodeRri, D.DecodeCond, D.DecodeImm, D.DecodeI8, D.DecodeWord, D.DecodeRrr, D.DecodeRr, D.DecodeMem, D.DecodeB, D.DecodeBz, D.DecodeJal;
      effect := NO_BRANCH;
      if 2 <= h / 0x800 <= 5 {
        ok, effect := DispatchTransfer(h / 0x800, h, ext, extended);
      } else if h / 0x800 < 0x0C {
        ok := DispatchLow(h / 0x800, h, ext, extended);
      } else {
        ok, effect := DispatchHigh(h / 0x800, h, ext, extended);
      }
    }

    method Execute16() returns (ok: bool, effect: Branch, length: int)
      requires Valid()
      modifies `gpr, `hi, `lo, `mem
      ensures Valid()
      ensures var i := D.FetchDecode(old(mem), pc, PcBase());
              Follows(old(View()), old(mem), i, ok, effect) && (ok ==> length == i.length)
    {
      var h := Read16(mem, pc);
      var ext, extended := 0, h / 0x800 == 0x1E;
      if extended {
        ext, h := h % 0x800, Read16(mem, AddW(pc, 2));
      }
      length := if h / 0x800 == 3 then 4 else Length(extended);
      ghost var i := Decoded(h, ext, extended);
      assert i == D.FetchDecode(mem, pc, PcBase());
      D.DecodedLength(h, Ext(ext, extended), Read16(mem, U32(pc + if extended then 4 else 2)), pc, PcBase());
      ok, effect := Dispatch(h, ext, extended);
    }

    // ---- The MIPS32 switch -----------------------------------------------------------------

    ghost function View32(): M.State
      reads this
    {
      M.State(Signed(gpr), S32(hi), S32(lo), cop0, mem, if hasReservation then Some(reserved) else None, timerPending)
    }

    ghost predicate Does(r: M.Result, was: M.State, ok: bool, effect: Branch)
      reads this
    {
      match r
      case Unsupported => !ok && View32() == was
      case Done(s, control) => ok && View32() == s && ControlIs(effect, control)
    }

    method SetArith(subtract: bool, d: Reg, s: Reg, t: Reg)
      requires Valid()
      modifies `gpr
      ensures Valid()
      ensures var a, b := Rd(old(Signed(gpr)), s), Rd(old(Signed(gpr)), t);
              Signed(gpr) == Wr(old(Signed(gpr)), d, S32(if subtract then a - b else a + b))
    {
      RegAddAgree(gpr[s], gpr[t]);
      RegSubAgree(gpr[s], gpr[t]);
      if subtract {
        Set(d, SubW(gpr[s], gpr[t]));
      } else {
        Set(d, AddW(gpr[s], gpr[t]));
      }
    }

    // AND, OR, XOR of a register with a word: another register, or an immediate.
    method SetLogic(k: D.LogicKind, d: Reg, s: Reg, v: Word)
      requires Valid() && (k.And? || k.Or? || k.Xor?)
      modifies `gpr
      ensures Valid()
      ensures Signed(gpr) == Wr(old(Signed(gpr)), d, E.Logic(k, Rd(old(Signed(gpr)), s), S32(v)))
    {
      SignedIs(gpr[s]);
      SignedIs(v);
      hide AndW, OrW, XorW, S32, U32;
      match k
      case And => Set(d, AndW(gpr[s], v));
      case Or => Set(d, OrW(gpr[s], v));
      case Xor => Set(d, XorW(gpr[s], v));
    }

    method SetNor(d: Reg, s: Reg, t: Reg)
      requires Valid()
      modifies `gpr
      ensures Valid()
      ensures var a, b := Rd(old(Signed(gpr)), s), Rd(old(Signed(gpr)), t);
              Signed(gpr) == Wr(old(Signed(gpr)), d, E.Logic(D.Not, 0, E.Logic(D.Or, a, b)))
    {
      SignedIs(gpr[s]);
      SignedIs(gpr[t]);
      NotAgree(OrW(gpr[s], gpr[t]));
      hide OrW, S32, U32;
      Set(d, 0xFFFF_FFFF - OrW(gpr[s], gpr[t]));
    }

    method SetCompare(d: Reg, s: Reg, v: Word, signed: bool)
      requires Valid()
      modifies `gpr
      ensures Valid()
      ensures Signed(gpr) == Wr(old(Signed(gpr)), d, E.Cond(if signed then D.Slt else D.Sltu, Rd(old(Signed(gpr)), s), S32(v)))
    {
      SignedIs(gpr[s]);
      SignedIs(v);
      Set(d, BoolWord(if signed then S32(gpr[s]) < S32(v) else gpr[s] < v));
    }

    method SetLessReg(d: Reg, s: Reg, imm: Word, ghost n: int, signed: bool)
      requires Valid() && imm == U32(n)
      modifies `gpr
      ensures Valid()
      ensures Signed(gpr) == Wr(old(Signed(gpr)), d, E.Less(if signed then D.Slti else D.Sltiu, Rd(old(Signed(gpr)), s), n))
    {
      Conversions(n);
      SignedIs(gpr[s]);
      Set(d, BoolWord(if signed then S32(gpr[s]) < S32(imm) else gpr[s] < imm));
    }

    method Alu32(w: Word)
      requires Valid() && M.IsAlu(M.Fn(w))
      modifies `gpr
      ensures Valid()
      ensures var r := old(Signed(gpr));
              Signed(gpr) == Wr(r, M.Rd5(w), M.Alu(M.Fn(w), M.Sa(w), Rd(r, M.Rs(w)), Rd(r, M.Rt(w)), S32(hi), S32(lo)))
    {
      hide S32, U32, Pow2, Wr, M.Rs, M.Rt, M.Rd5;
      var fn, rs, rt, rd, sa := M.Fn(w), M.Rs(w), M.Rt(w), M.Rd5(w), M.Sa(w);
      RdIs(gpr, rs);
      RdIs(gpr, rt);
      if fn == 0 || fn == 2 || fn == 3 {
        SetShifted(fn, rd, rt, sa);
      } else if fn == 4 || fn == 6 || fn == 7 {
        SignedIs(gpr[rs]);
        SetShifted(fn - 4, rd, rt, gpr[rs] % 32);
      } else if fn == 16 {
        Set(rd, hi);
      } else if fn == 18 {
        Set(rd, lo);
      } else if fn <= 35 {
        SetArith(fn >= 34, rd, rs, rt);
      } else if fn == 36 {
        SetLogic(D.And, rd, rs, gpr[rt]);
      } else if fn == 37 {
        SetLogic(D.Or, rd, rs, gpr[rt]);
      } else if fn == 38 {
        SetLogic(D.Xor, rd, rs, gpr[rt]);
      } else if fn == 39 {
        SetNor(rd, rs, rt);
      } else {
        SetCompare(rd, rs, gpr[rt], fn == 42);
      }
    }

    method Special32(w: Word) returns (ok: bool)
      requires Valid() && M.Fn(w) != 8 && M.Fn(w) != 9
      modifies `gpr, `hi, `lo
      ensures Valid()
      ensures Does(M.Special(old(View32()), w), old(View32()), ok, NO_BRANCH)
    {
      hide S32, U32, M.Alu, Mul64, E.Divide, M.Rs, M.Rt, High, Low, Times, TruncDiv, TruncMod;
      var fn, x, y := M.Fn(w), gpr[M.Rs(w)], gpr[M.Rt(w)];
      RdIs(gpr, M.Rs(w));
      RdIs(gpr, M.Rt(w));
      ok := true;
      if M.IsAlu(fn) {
        Alu32(w);
      } else if fn == 15 {
        // SYNC has nothing to wait for here, so no part of the state moves.
      } else if fn == 17 {
        hi := x;
      } else if fn == 19 {
        lo := x;
      } else if fn == 24 || fn == 25 {
        MultiplyWords(x, y, fn == 24);
      } else if fn == 26 || fn == 27 {
        ZeroAgree(y);
        DivideWords(x, y, fn == 26);
      } else {
        ok := false;
      }
    }

    method JumpRegister32(w: Word) returns (effect: Branch)
      requires Valid() && (M.Fn(w) == 8 || M.Fn(w) == 9)
      modifies `gpr
      ensures Valid()
      ensures Does(M.JumpRegister(old(View32()), w, pc), old(View32()), true, effect)
    {
      hide S32, U32, M.Rs, M.Rd5, Wr;
      if M.Fn(w) == 9 {
        Conversions(pc + 8);
        Set(M.Rd5(w), AddW(pc, 8));
      }
      var v := gpr[M.Rs(w)];
      RdIs(gpr, M.Rs(w));
      SignedIs(v);
      effect := Branch(v - v % 2, 0, v % 2 == 1, true, false);
    }

    method Immediate32(w: Word)
      requires Valid() && 8 <= M.Op(w) <= 15
      modifies `gpr
      ensures Valid()
      ensures Does(M.Done(old(View32()).(reg := Wr(old(Signed(gpr)), M.Rt(w),
                     M.Immediate(M.Op(w), Rd(old(Signed(gpr)), M.Rs(w)), M.Imm(w), M.SImm(w)))), M.Next),
                   old(View32()), true, NO_BRANCH)
    {
      var op, rs, rt, imm := M.Op(w), M.Rs(w), M.Rt(w), M.Imm(w);
      var simm := SignExtend16(imm);
      assert S32(imm) == imm;
      hide S32, U32, M.Rs, M.Rt, M.Imm, M.SImm, M.Op, Wr;
      if op == 8 || op == 9 {
        SetSum(rt, rs, simm, M.SImm(w));
      } else if op == 10 || op == 11 {
        SetLessReg(rt, rs, simm, M.SImm(w), op == 10);
      } else if op == 12 {
        SetLogic(D.And, rt, rs, imm);
      } else if op == 13 {
        SetLogic(D.Or, rt, rs, imm);
      } else if op == 14 {
        SetLogic(D.Xor, rt, rs, imm);
      } else {
        Conversions(imm as int * 0x1_0000);
        Set(rt, MulW(imm, 0x1_0000));
      }
    }

    method BranchTest(w: Word) returns (ok: bool, likely: bool)
      requires Valid() && M.IsBranch(M.Op(w), M.Rt(w))
      ensures ok == M.Taken(M.Op(w), M.Rt(w), Rd(Signed(gpr), M.Rs(w)), Rd(Signed(gpr), M.Rt(w)))
      ensures likely == M.Likely(M.Op(w), M.Rt(w))
    {
      var op, rt := M.Op(w), M.Rt(w);
      var x, y := gpr[M.Rs(w)], gpr[rt];
      RdIs(gpr, M.Rs(w));
      RdIs(gpr, rt);
      SignedIs(x);
      SignedIs(y);
      hide S32, U32, M.Rs, M.Rt, M.Op;
      if op == 1 {
        ok := if rt % 2 == 0 then S32(x) < 0 else S32(x) >= 0;
        likely := rt == 2 || rt == 3 || rt == 18 || rt == 19;
      } else {
        ok := if op == 4 || op == 20 then x == y else if op == 5 || op == 21 then x != y
              else if op == 6 || op == 22 then S32(x) <= 0 else S32(x) > 0;
        likely := op >= 20;
      }
    }

    // Every conditional branch: REGIMM, the four compares and their likely forms.
    method Branch32(w: Word) returns (effect: Branch)
      requires Valid() && M.IsBranch(M.Op(w), M.Rt(w))
      modifies `gpr
      ensures Valid()
      ensures Does(M.BranchOp(old(View32()), w, pc), old(View32()), true, effect)
    {
      hide S32, U32, Wr, Rd, Signed, M.Rs, M.Rt, M.SImm, M.Op, M.Taken, M.Likely, M.IsBranch, ControlIs;
      var ok, likely := BranchTest(w);
      LinkIf(w);
      effect := BranchEffect(w, ok, likely);
    }

    // next+4, for the linking forms of REGIMM.
    method LinkIf(w: Word)
      requires Valid()
      modifies `gpr
      ensures Valid()
      ensures View32() == old(View32()).(reg :=
                if M.Op(w) == 1 && M.Rt(w) >= 16 then Wr(old(Signed(gpr)), 31, S32(pc + 8)) else old(Signed(gpr)))
    {
      Conversions(pc + 8);
      assert AddW(pc, 8) == U32(pc + 8);
      hide S32, U32, AddW, M.Rt, M.Op, Wr;
      if M.Op(w) == 1 && M.Rt(w) >= 16 {
        Set(31, AddW(pc, 8));
      }
    }

    method BranchEffect(w: Word, ok: bool, likely: bool) returns (effect: Branch)
      ensures ControlIs(effect, if ok then M.Delay(U32(pc + 4 + 4 * M.SImm(w)), false) else if likely then M.Annul else M.Next)
    {
      var simm := SignExtend16(M.Imm(w));
      BranchTarget(pc, simm, M.SImm(w));
      hide S32, U32, AddW, MulW, M.SImm;
      effect := if !ok && likely then SKIP_SLOT
                else if ok then Branch(AddW(AddW(pc, 4), MulW(simm, 4)), 0, false, true, false) else NO_BRANCH;
    }

    // J, JAL, JALX
    method Jump32(w: Word) returns (effect: Branch)
      requires Valid() && (M.Op(w) == 2 || M.Op(w) == 3 || M.Op(w) == 29)
      modifies `gpr
      ensures Valid()
      ensures Does(M.JumpOp(old(View32()), w, pc), old(View32()), true, effect)
    {
      hide S32, Wr, M.Op;
      if M.Op(w) != 2 {
        Conversions(pc + 8);
        Set(31, AddW(pc, 8));
      }
      effect := Branch(AddW(pc, 4) / 0x1000_0000 * 0x1000_0000 + w % 0x400_0000 * 4, 0, M.Op(w) == 29, true, false);
    }

    // MFC0, MTC0 and ERET
    method Coprocessor32(w: Word) returns (ok: bool, effect: Branch)
      requires Valid()
      modifies `gpr, `cop0, `timerPending
      ensures Valid()
      ensures Does(M.Cop0(old(View32()), w), old(View32()), ok, effect)
    {
      hide S32, U32, Wr, M.Rs, M.Rt, M.Rd5;
      ok, effect := true, NO_BRANCH;
      var rs, rt, rd := M.Rs(w), M.Rt(w), M.Rd5(w);
      RdIs(gpr, rt);
      SignedIs(gpr[rt]);
      if rs == 0 {
        Set(rt, cop0[rd]);
      } else if rs == 4 {
        cop0 := cop0[rd := gpr[rt]];
        if rd == 11 { timerPending := false; }
      } else if w == M.ERET {
        var status, ret := cop0[12], cop0[14];
        if status / 4 % 2 == 1 {
          ret := cop0[30];
          cop0 := cop0[12 := M.ClearMask(status, 4)];
        } else {
          cop0 := cop0[12 := M.ClearMask(status, 2)];
        }
        effect := Branch(ret - ret % 2, 0, ret % 2 == 1, false, true);
      } else {
        ok := false;
      }
    }

    // SB, SH, SW: a store ends any reservation.
    method Store32(w: Word)
      requires Valid() && (M.Op(w) == 40 || M.Op(w) == 41 || M.Op(w) == 43)
      modifies `mem, `hasReservation
      ensures Does(M.MemOp(old(View32()), w), old(View32()), true, NO_BRANCH)
    {
      var simm := SignExtend16(M.Imm(w));
      assert simm == U32(M.SImm(w));
      hide U32, S32, Wr, M.Rs, M.Rt, M.SImm, M.Op, M.Imm, E.Load, E.Store, AddW, M.StoreKind;
      StoreReg(M.StoreKind(M.Op(w)), M.Rt(w), M.Rs(w), simm, M.SImm(w));
      hasReservation := false;
    }

    // LL remembers the address it loaded from.
    method LoadLinked32(w: Word)
      requires Valid() && M.Op(w) == 48
      modifies `gpr, `reserved, `hasReservation
      ensures Valid()
      ensures Does(M.MemOp(old(View32()), w), old(View32()), true, NO_BRANCH)
    {
      var rs, rt := M.Rs(w), M.Rt(w);
      var simm := SignExtend16(M.Imm(w));
      assert simm == U32(M.SImm(w));
      hide U32, S32, Wr, M.Rs, M.Rt, M.SImm, M.Op, M.Imm, E.Load, AddW;
      reserved, hasReservation := Address(rs, simm, M.SImm(w)), true;
      LoadReg(D.Lw, rt, rs, simm, M.SImm(w));
    }

    method StoreConditional32(w: Word)
      requires Valid() && M.Op(w) == 56
      modifies `gpr, `mem, `hasReservation
      ensures Valid()
      ensures Does(M.MemOp(old(View32()), w), old(View32()), true, NO_BRANCH)
    {
      var simm := SignExtend16(M.Imm(w));
      assert simm == U32(M.SImm(w));
      hide U32, S32, Wr, M.Rs, M.Rt, M.SImm, M.Op, M.Imm, E.Store, AddW;
      StoreConditional(M.Rt(w), M.Rs(w), simm, M.SImm(w));
    }

    // The aligned loads and stores, LL and SC.
    method Memory32(w: Word)
      requires Valid() && M.IsMem(M.Op(w))
      modifies `gpr, `mem, `reserved, `hasReservation
      ensures Valid()
      ensures Does(M.MemOp(old(View32()), w), old(View32()), true, NO_BRANCH)
    {
      var op := M.Op(w);
      var simm := SignExtend16(M.Imm(w));
      assert simm == U32(M.SImm(w));
      hide U32, S32, Wr, M.Rs, M.Rt, M.SImm, M.Op, M.Imm, E.Load, E.Store, AddW, M.LoadKind;
      if op == 40 || op == 41 || op == 43 {
        Store32(w);
      } else if op == 48 {
        LoadLinked32(w);
      } else if op == 56 {
        StoreConditional32(w);
      } else {
        LoadReg(M.LoadKind(op), M.Rt(w), M.Rs(w), simm, M.SImm(w));
      }
    }

    function Address(rs: Reg, off: Word, ghost n: int): (ea: Word)
      requires Valid() && off == U32(n)
      reads this
      ensures ea == U32(Rd(Signed(gpr), rs) + n)
    {
      RdIs(gpr, rs);
      AddAgree(gpr[rs], n);
      AddW(gpr[rs], off)
    }

    method StoreConditional(rt: Reg, rs: Reg, off: Word, ghost n: int)
      requires Valid() && off == U32(n)
      modifies `gpr, `mem, `hasReservation
      ensures Valid() && !hasReservation
      ensures var c, ea := old(View32()), U32(Rd(old(Signed(gpr)), rs) + n);
              if c.link == Some(ea) then
                mem == E.Store(D.Sw, c.mem, ea, Rd(c.reg, rt)) && Signed(gpr) == Wr(c.reg, rt, 1)
              else mem == c.mem && Signed(gpr) == Wr(c.reg, rt, 0)
    {
      hide S32, Wr, E.Store;
      RdIs(gpr, rs);
      AddAgree(gpr[rs], n);
      if hasReservation && reserved == AddW(gpr[rs], off) {
        StoreReg(D.Sw, rt, rs, off, n);
        SetOne(rt, true);
      } else {
        SetOne(rt, false);
      }
      hasReservation := false;
    }

    method SetOne(rt: Reg, v: bool)
      requires Valid()
      modifies `gpr
      ensures Valid()
      ensures Signed(gpr) == Wr(old(Signed(gpr)), rt, if v then 1 else 0)
    {
      Set(rt, BoolWord(v));
    }

    // int32(int16(v))
    method SignExtend16(v: Half) returns (r: Word)
      ensures r == U32(if v < 0x8000 then v else v - 0x1_0000)
    {
      r := if v < 0x8000 then v else v + 0xFFFF_0000;
    }

    // LWL and LWR: shifts and masks over the aligned word.
    method MergeLoad(op: int, rt: Reg, ea: Word)
      requires Valid() && (op == 34 || op == 38)
      modifies `gpr
      ensures Valid()
      ensures var v := U32(Rd(old(Signed(gpr)), rt));
              Signed(gpr) == Wr(old(Signed(gpr)), rt, S32(M.LoadPart(op, ea % 4, Read32(mem, ea - ea % 4), v)))
    {
      var n: nat := ea % 4;
      var word, was := Read32(mem, ea - n), gpr[rt];
      RdIs(gpr, rt);
      SignedIs(was);
      LoadMerges(n, word, was);
      hide U32, S32, Wr, M.LoadPart, Read32, LoadLeft, LoadRight;
      Set(rt, if op == 34 then LoadLeft(n, word, was) else LoadRight(n, word, was));
    }

    // SWL and SWR.
    method MergeStore(op: int, rt: Reg, ea: Word)
      requires Valid() && (op == 42 || op == 46)
      modifies `mem, `hasReservation
      ensures var v := U32(Rd(Signed(gpr), rt));
              mem == Write32(old(mem), ea - ea % 4, M.StorePart(op, ea % 4, Read32(old(mem), ea - ea % 4), v))
      ensures !hasReservation
    {
      var n: nat := ea % 4;
      var word, v := Read32(mem, ea - n), gpr[rt];
      RdIs(gpr, rt);
      SignedIs(v);
      StoreMerges(n, word, v);
      hide U32, S32, M.StorePart, Read32, Write32, StoreLeft, StoreRight;
      mem := Write32(mem, ea - n, if op == 42 then StoreLeft(n, word, v) else StoreRight(n, word, v));
      hasReservation := false;
    }

    method AddressOf(w: Word) returns (ea: Word)
      requires Valid()
      ensures ea == U32(Rd(Signed(gpr), M.Rs(w)) + M.SImm(w))
    {
      var simm := SignExtend16(M.Imm(w));
      ea := Address(M.Rs(w), simm, M.SImm(w));
    }

    method LoadUnaligned(w: Word)
      requires Valid() && (M.Op(w) == 34 || M.Op(w) == 38)
      modifies `gpr
      ensures Valid()
      ensures Does(M.UnalignedOp(old(View32()), w), old(View32()), true, NO_BRANCH)
    {
      var ea := AddressOf(w);
      LoadUnalignedIs(View32(), w, ea);
      hide *;
      MergeLoad(M.Op(w), M.Rt(w), ea);
    }

    method StoreUnaligned(w: Word)
      requires Valid() && (M.Op(w) == 42 || M.Op(w) == 46)
      modifies `mem, `hasReservation
      ensures Does(M.UnalignedOp(old(View32()), w), old(View32()), true, NO_BRANCH)
    {
      var ea := AddressOf(w);
      StoreUnalignedIs(View32(), w, ea);
      hide *;
      MergeStore(M.Op(w), M.Rt(w), ea);
    }

    method Unaligned32(w: Word)
      requires Valid() && M.IsUnaligned(M.Op(w))
      modifies `gpr, `mem, `hasReservation
      ensures Valid()
      ensures Does(M.UnalignedOp(old(View32()), w), old(View32()), true, NO_BRANCH)
    {
      hide M.UnalignedOp;
      if M.Op(w) == 34 || M.Op(w) == 38 {
        LoadUnaligned(w);
      } else {
        StoreUnaligned(w);
      }
    }

    // Everything execute32 does with one instruction word.
    method Execute32(w: Word) returns (ok: bool, effect: Branch)
      requires Valid()
      modifies `gpr, `hi, `lo, `cop0, `timerPending, `mem, `reserved, `hasReservation
      ensures Valid()
      ensures Does(M.Execute(old(View32()), w, pc), old(View32()), ok, effect)
    {
      hide S32, U32, Wr, M.Rs, M.Rt, M.Op, M.Fn, M.Special, M.JumpRegister, M.BranchOp, M.JumpOp, M.Cop0, M.MemOp,
        M.UnalignedOp, M.Immediate, M.IsBranch, M.IsMem, M.IsUnaligned, M.SImm, M.Imm;
      var op := M.Op(w);
      ok, effect := true, NO_BRANCH;
      if op == 0 {
        if M.Fn(w) == 8 || M.Fn(w) == 9 {
          effect := JumpRegister32(w);
        } else {
          ok := Special32(w);
        }
      } else if M.IsBranch(op, M.Rt(w)) {
        effect := Branch32(w);
      } else if op == 2 || op == 3 || op == 29 {
        effect := Jump32(w);
      } else if 8 <= op <= 15 {
        Immediate32(w);
      } else if op == 16 {
        ok, effect := Coprocessor32(w);
      } else if M.IsMem(op) {
        Memory32(w);
      } else if M.IsUnaligned(op) {
        Unaligned32(w);
      } else if op != 47 {
        ok := false;
      }
    }

    // ---- Step ---------------------------------------------------------------------------------

    /** The whole state, as the step function has it. */
    ghost function State(): Snap
      reads this
    {
      Snap(Signed(gpr), S32(hi), S32(lo), cop0, mem, if hasReservation then Some(reserved) else None, timerPending,
           pendingLines, pc, isa, delayed)
    }

    constructor (memory: Mem, start: Word)
      ensures Valid() && mem == memory
      ensures start % 2 == 0 ==> Fresh(State())
      ensures pc == start && !timerPending && pendingLines == 0 && !hasReservation
      ensures State() == Snap(seq(32, i => 0), 0, 0, seq(32, i => 0), memory, None, false, 0, start, false, NO_BRANCH)
    {
      gpr, pc, hi, lo, isa, cop0 := seq(32, i => 0), start, 0, 0, false, seq(32, i => 0);
      delayed, reserved, hasReservation, timerPending, pendingLines, mem := NO_BRANCH, 0, false, false, 0, memory;
      new;
      assert Signed(gpr) == seq(32, i => 0);
    }

    // Interrupt raises one external line.
    method Interrupt(ip: nat)
      requires Valid() && ip <= 7
      modifies `pendingLines
      ensures Valid() && State() == After(old(State()), RaiseLine(ip))
    {
      hide S32, Signed;
      if pendingLines / Bit(ip) % 2 == 0 { pendingLines := pendingLines + Bit(ip); }
    }

    // SetDebugPC moves control and abandons any pending delay slot.
    method SetDebugPc(address: Word, mode: bool) returns (ok: bool)
      requires Valid()
      modifies `pc, `isa, `delayed
      ensures Valid() && State() == After(old(State()), DebugPc(address, mode))
      ensures ok <==> if mode then address % 2 == 0 else address % 4 == 0
    {
      ok := if mode then address % 2 == 0 else address % 4 == 0;
      if ok {
        pc, isa := address, mode;
        delayed := NO_BRANCH;
      }
    }

    method TickCount()
      requires Valid()
      modifies `cop0, `timerPending
      ensures Valid() && State() == Tick(old(State()))
    {
      cop0 := cop0[9 := AddW(cop0[9], 1)];
      if cop0[11] != 0 && cop0[9] == cop0[11] { timerPending := true; }
    }

    method Requested() returns (ip: Word)
      ensures ip == Requests(State())
    {
      hide S32, OrW, Signed;
      ip := pendingLines * 0x100;
      if timerPending { ip := OrW(ip, 0x8000); }
    }

    // Cause and EPC; the return address remembers the instruction set.
    method RecordCause(ip: Word)
      requires Valid()
      modifies `cop0
      ensures Valid()
      ensures cop0 == old(cop0)[13 := OrW(AndW(old(cop0)[13], 0xFFFF_0083), ip)][14 := if isa then OrW(pc, 1) else pc]
    {
      hide AndW, OrW, Signed;
      cop0 := cop0[13 := OrW(AndW(cop0[13], 0xFFFF_0083), ip)];
      cop0 := cop0[14 := pc];
      if isa { cop0 := cop0[14 := OrW(cop0[14], 1)]; }
    }

    method TakeInterrupt(ip: Word)
      requires Valid() && ip == Requests(State())
      modifies `cop0, `pc, `isa, `pendingLines, `hasReservation
      ensures Valid() && State() == Deliver(old(State()))
    {
      hide S32, AndW, OrW, Signed, Requests, M.SetMask;
      var status := cop0[12];
      RecordCause(ip);
      cop0 := cop0[12 := M.SetMask(status, 2)];
      pc := if status / 0x40_0000 % 2 == 1 then 0xBFC0_0380 else 0x8000_0180;
      isa := false;
      pendingLines := 0;
      hasReservation := false;
    }

    method ServiceInterrupt() returns (taken: bool)
      requires Valid()
      modifies `cop0, `pc, `isa, `pendingLines, `hasReservation
      ensures Valid() && taken == Deliverable(old(State()))
      ensures State() == if taken then Deliver(old(State())) else old(State())
    {
      hide S32, AndW, OrW, Signed, Requests, Deliver;
      var ip := Requested();
      if ip == 0 { return false; }
      var status := cop0[12];
      if status % 2 == 0 || status / 2 % 4 != 0 || AndW(AndW(status, ip), 0xFF00) == 0 { return false; }
      TakeInterrupt(ip);
      taken := true;
    }

    // The boundary callback pumps the devices, which may raise lines.
    method PumpDevices(lines: seq<nat>)
      requires Valid() && forall k :: 0 <= k < |lines| ==> lines[k] <= 7
      modifies `pendingLines
      ensures Valid() && State() == old(State()).(lines := RaiseAll(old(pendingLines), lines))
    {
      for k := 0 to |lines|
        invariant Valid() && State() == old(State()).(lines := RaiseAll(old(pendingLines), lines[..k]))
      {
        assert lines[..k + 1][..k] == lines[..k];
        Interrupt(lines[k]);
      }
      assert lines[..|lines|] == lines;
    }

    // Ticks, and takes an interrupt when no slot is pending.
    method EnterStep(hook: Hook) returns (halted: bool)
      requires Valid() && hook.Raises()
      modifies `cop0, `timerPending, `pc, `isa, `pendingLines, `hasReservation
      ensures Valid() && State() == Boundary(old(State()), hook)
      ensures halted == (Interrupted(old(State())) && hook.Pump? && hook.fails)
    {
      hide Deliverable, Deliver, Tick, RaiseAll, S32, Signed;
      halted := false;
      if !delayed.armed || isa { TickCount(); }
      assert State() == Ticked(old(State()));
      if !delayed.armed {
        var taken := ServiceInterrupt();
        if taken {
          TickCount();
          if hook.Pump? {
            PumpDevices(hook.lines);
            halted := hook.fails;
          }
        }
      }
    }

    ghost predicate Attempted(a: Attempt, was: Snap, ok: bool, effect: Branch, length: int)
      reads this
    {
      match a
      case Refuse(_) => !ok && State() == was
      case Attempt(s, control, n) => ok && State() == s && ControlIs(effect, control) && length == n
    }

    method RunMips16() returns (ok: bool, effect: Branch, length: int)
      requires Valid()
      modifies `gpr, `hi, `lo, `mem
      ensures Valid() && Attempted(Attempt16(old(State())), old(State()), ok, effect, length)
    {
      hide S32, Signed, E.Operate, D.FetchDecode, ZeroDivide, FrameOp;
      ok, effect, length := Execute16();
    }

    method RunMips32() returns (ok: bool, effect: Branch)
      requires Valid()
      modifies `gpr, `hi, `lo, `cop0, `timerPending, `mem, `reserved, `hasReservation
      ensures Valid() && Attempted(Attempt32(old(State())), old(State()), ok, effect, 4)
    {
      hide S32, Signed, M.Execute, Read32;
      ok, effect := Execute32(Read32(mem, pc));
    }

    // The switch at the end of Step.
    method Advance(effect: Branch, length: int, ghost control: M.Control) returns (ok: bool)
      requires Valid() && ControlIs(effect, control)
      modifies `pc, `isa, `delayed, `gpr
      ensures Valid()
      ensures var r := Retire(old(State()), control, length); ok == r.Retired? && State() == r.s
    {
      hide S32, Signed;
      NextPlus(pc, length, 4);
      ok := true;
      if delayed.armed {
        if effect.armed || effect.immediate { return false; }
        pc, isa := delayed.target, delayed.isa;
        delayed := NO_BRANCH;
      } else if effect.armed {
        delayed := effect.(from := pc);
        pc := AddW(pc, length);
      } else if effect.immediate {
        pc, isa := effect.target, effect.isa;
      } else {
        pc := AddW(pc, length);
        if effect.target == 0xFFFF_FFFF { pc := AddW(pc, 4); }
      }
      assert gpr[0 := 0] == gpr;
      gpr := gpr[0 := 0];
    }

    /** StepWithInterruptBoundary computes the step function: on success and at every error. */
    method StepWithInterruptBoundary(hook: Hook) returns (ok: bool)
      requires Valid() && hook.Raises()
      modifies this
      ensures Valid()
      ensures var r := T.Step(old(State()), hook); ok == r.Retired? && State() == r.s
    {
      hide S32, Signed, Boundary, Interrupted, Attempt16, Attempt32, Retire;
      var halted := EnterStep(hook);
      if halted { return false; }
      var effect, length := NO_BRANCH, 4;
      ghost var a := T.Execute(State());
      if isa {
        if pc % 2 != 0 { return false; }
        ok, effect, length := RunMips16();
      } else {
        if pc % 4 != 0 { return false; }
        ok, effect := RunMips32();
      }
      if ok {
        ok := Advance(effect, length, a.control);
      }
    }

    static method Acceptable(regs: Gpr, c0: seq<Word>, at: Word, mode: bool, slot: Branch) returns (ok: bool)
      ensures ok ==> regs[0] == 0 && |c0| == 32
      ensures forall h, l, m, link, timer, lines ::
                ok == RestoreAccepts(Snap(Signed(regs), h, l, c0, m, link, timer, lines, at, mode, slot))
    {
      ZeroAgree(regs[0]);
      hide S32;
      ok := && |c0| == 32 && regs[0] == 0 && at % 2 == 0 && (mode || at % 4 == 0)
            && !(slot.armed && (slot.immediate || slot.target % 2 != 0 || (!slot.isa && slot.target % 4 != 0)))
            && !(slot.armed && (slot.from % 2 != 0 || (!mode && slot.from % 4 != 0)))
            && !(!slot.armed && (slot.immediate || slot.target != 0 || slot.from != 0));
    }

    // Core.Restore, after the blob has been decoded: nothing changes unless the state is acceptable.
    method Restore(regs: Gpr, c0: seq<Word>, at: Word, h: Word, l: Word, mode: bool, slot: Branch, link: Word, linked: bool,
                   timer: bool, lines: Byte) returns (ok: bool)
      requires Valid()
      modifies this
      ensures Valid() && mem == old(mem)
      ensures var s := Snap(Signed(regs), S32(h), S32(l), c0, mem, if linked then Some(link) else None, timer, lines, at,
                            mode, slot);
              ok == RestoreAccepts(s) && State() == if ok then s else old(State())
    {
      ok := Acceptable(regs, c0, at, mode, slot);
      if !ok { return; }
      hide S32, Signed, RestoreAccepts;
      gpr, pc, hi, lo, isa := regs, at, h, l, mode;
      cop0 := c0;
      delayed := slot;
      reserved, hasReservation, timerPending, pendingLines := link, linked, timer, lines;
    }
  }
}
