// internal/cpu/mips32.go: what the 32-bit instructions mean, written on assembled words. Nothing here
// is said through the functions that compute the answers: a branch is taken exactly on its condition,
// a result has its value or its bits, a store changes its bytes.
module Mips32Meaning {
  import opened Words
  import opened WordBits
  import opened Memory
  import opened Frames
  import opened Multiply
  import D = OracleDecode
  import E = OracleExec
  import M = Mips32
  import U = Unaligned

  // ---- Assembled words ----------------------------------------------------------------------

  /** A register instruction: opcode 0, and its function in the low six bits. */
  function RWord(rs: Reg, rt: Reg, rd: Reg, sa: Reg, fn: int): Word
    requires 0 <= fn < 64
  {
    rs * 0x20_0000 + rt * 0x1_0000 + rd * 0x800 + sa * 0x40 + fn
  }

  /** An immediate instruction. */
  function IWord(op: int, rs: Reg, rt: Reg, imm: Half): Word
    requires 0 <= op < 64
  {
    op * 0x400_0000 + rs * 0x20_0000 + rt * 0x1_0000 + imm
  }

  /** A jump inside its region. */
  function JWord(op: int, index: int): Word
    requires 0 <= op < 64 && 0 <= index < 0x400_0000
  {
    op * 0x400_0000 + index
  }

  /** A coprocessor move: the register number above eleven bits nobody reads. */
  function CWord(rs: Reg, rt: Reg, rd: Reg, low: int): Word
    requires 0 <= low < 0x800
  {
    16 * 0x400_0000 + rs * 0x20_0000 + rt * 0x1_0000 + rd * 0x800 + low
  }

  /** The signed reading of a 16-bit immediate. */
  function Offset(imm: Half): int {
    if imm < 0x8000 then imm else imm - 0x1_0000
  }

  lemma IFields(op: int, rs: Reg, rt: Reg, imm: Half)
    requires 0 <= op < 64
    ensures var w := IWord(op, rs, rt, imm);
            && M.Op(w) == op && M.Rs(w) == rs && M.Rt(w) == rt && M.Imm(w) == imm && M.SImm(w) == Offset(imm)
  {
    var w: int := IWord(op, rs, rt, imm);
    Over(w, 0x400_0000, op, rs * 0x20_0000 + rt * 0x1_0000 + imm);
    Over(w, 0x20_0000, op * 32 + rs, rt * 0x1_0000 + imm);
    Over(w, 0x1_0000, op * 1024 + rs * 32 + rt, imm);
    Over(op * 32 + rs, 32, op, rs);
    Over(op * 1024 + rs * 32 + rt, 32, op * 32 + rs, rt);
  }

  lemma RFields(rs: Reg, rt: Reg, rd: Reg, sa: Reg, fn: int)
    requires 0 <= fn < 64
    ensures var w := RWord(rs, rt, rd, sa, fn);
            && M.Op(w) == 0 && M.Rs(w) == rs && M.Rt(w) == rt && M.Rd5(w) == rd && M.Sa(w) == sa && M.Fn(w) == fn
  {
    var low: int := rd * 0x800 + sa * 0x40 + fn;
    IFields(0, rs, rt, low);
    var w: int := RWord(rs, rt, rd, sa, fn);
    var high := rs * 32 + rt;
    Over(w, 0x800, high * 32 + rd, sa * 0x40 + fn);
    Over(high * 32 + rd, 32, high, rd);
    Over(w, 0x40, (high * 32 + rd) * 32 + sa, fn);
    Over((high * 32 + rd) * 32 + sa, 32, high * 32 + rd, sa);
  }

  lemma CFields(rs: Reg, rt: Reg, rd: Reg, low: int)
    requires 0 <= low < 0x800
    ensures var w := CWord(rs, rt, rd, low);
            M.Op(w) == 16 && M.Rs(w) == rs && M.Rt(w) == rt && M.Rd5(w) == rd
  {
    var imm: int := rd * 0x800 + low;
    IFields(16, rs, rt, imm);
    var w: int := CWord(rs, rt, rd, low);
    Over(w, 0x800, (16 * 32 + rs) * 1024 + rt * 32 + rd, low);
    Over((16 * 32 + rs) * 1024 + rt * 32 + rd, 32, (16 * 32 + rs) * 32 + rt, rd);
  }

  // ---- Branches -----------------------------------------------------------------------------

  /** A branch: `when` it is taken, control goes to the offset from the slot after the slot has run;
      otherwise on, or past the slot if the branch is a likely one. */
  ghost predicate Branches(st: M.State, w: Word, pc: Word, imm: Half, when: bool, likely: bool, link: bool)
    requires |st.cop0| == 32
  {
    M.Execute(st, w, pc) ==
      M.Done(if link then st.(reg := st.reg[31 := S32(pc + 8)]) else st,
             if when then M.Delay(U32(pc + 4 + 4 * Offset(imm)), false) else if likely then M.Annul else M.Next)
  }

  /** BEQ, BNE, BLEZ and BGTZ, and their likely forms. */
  lemma CompareBranches(st: M.State, rs: Reg, rt: Reg, imm: Half, pc: Word)
    requires |st.cop0| == 32
    ensures var s, t := Rd(st.reg, rs), Rd(st.reg, rt);
            && Branches(st, IWord(4, rs, rt, imm), pc, imm, s == t, false, false)
            && Branches(st, IWord(5, rs, rt, imm), pc, imm, s != t, false, false)
            && Branches(st, IWord(6, rs, rt, imm), pc, imm, s <= 0, false, false)
            && Branches(st, IWord(7, rs, rt, imm), pc, imm, s > 0, false, false)
            && Branches(st, IWord(20, rs, rt, imm), pc, imm, s == t, true, false)
            && Branches(st, IWord(21, rs, rt, imm), pc, imm, s != t, true, false)
            && Branches(st, IWord(22, rs, rt, imm), pc, imm, s <= 0, true, false)
            && Branches(st, IWord(23, rs, rt, imm), pc, imm, s > 0, true, false)
  {
    hide M.Op, M.Rs, M.Rt, M.Imm, M.SImm, U32, S32, IWord, Offset;
    IFields(4, rs, rt, imm);
    IFields(5, rs, rt, imm);
    IFields(6, rs, rt, imm);
    IFields(7, rs, rt, imm);
    IFields(20, rs, rt, imm);
    IFields(21, rs, rt, imm);
    IFields(22, rs, rt, imm);
    IFields(23, rs, rt, imm);
  }

  /** BLTZ and BGEZ, likely, linking and both. The register is read before the link is written. */
  lemma SignBranches(st: M.State, rs: Reg, imm: Half, pc: Word)
    requires |st.cop0| == 32
    ensures var s := Rd(st.reg, rs);
            && Branches(st, IWord(1, rs, 0, imm), pc, imm, s < 0, false, false)
            && Branches(st, IWord(1, rs, 1, imm), pc, imm, s >= 0, false, false)
            && Branches(st, IWord(1, rs, 2, imm), pc, imm, s < 0, true, false)
            && Branches(st, IWord(1, rs, 3, imm), pc, imm, s >= 0, true, false)
            && Branches(st, IWord(1, rs, 16, imm), pc, imm, s < 0, false, true)
            && Branches(st, IWord(1, rs, 17, imm), pc, imm, s >= 0, false, true)
            && Branches(st, IWord(1, rs, 18, imm), pc, imm, s < 0, true, true)
            && Branches(st, IWord(1, rs, 19, imm), pc, imm, s >= 0, true, true)
  {
    hide M.Op, M.Rs, M.Rt, M.Imm, M.SImm, U32, S32, IWord, Offset;
    IFields(1, rs, 0, imm);
    IFields(1, rs, 1, imm);
    IFields(1, rs, 2, imm);
    IFields(1, rs, 3, imm);
    IFields(1, rs, 16, imm);
    IFields(1, rs, 17, imm);
    IFields(1, rs, 18, imm);
    IFields(1, rs, 19, imm);
  }

  /** Whether an instruction sends control elsewhere after its slot. */
  predicate Goes(st: M.State, w: Word, pc: Word)
    requires |st.cop0| == 32
  {
    M.Execute(st, w, pc).Done? && M.Execute(st, w, pc).control.Delay?
  }

  /** Of two opposite branches on the same registers exactly one is taken, and whichever it is they go
      to the same place. */
  ghost predicate Opposite(st: M.State, a: Word, b: Word, pc: Word, imm: Half)
    requires |st.cop0| == 32
  {
    && Goes(st, a, pc) != Goes(st, b, pc)
    && M.Execute(st, if Goes(st, a, pc) then a else b, pc).control == M.Delay(U32(pc + 4 + 4 * Offset(imm)), false)
  }

  lemma OppositeBranches(st: M.State, rs: Reg, rt: Reg, imm: Half, pc: Word)
    requires |st.cop0| == 32
    ensures Opposite(st, IWord(4, rs, rt, imm), IWord(5, rs, rt, imm), pc, imm)
    ensures Opposite(st, IWord(6, rs, rt, imm), IWord(7, rs, rt, imm), pc, imm)
    ensures Opposite(st, IWord(20, rs, rt, imm), IWord(21, rs, rt, imm), pc, imm)
    ensures Opposite(st, IWord(22, rs, rt, imm), IWord(23, rs, rt, imm), pc, imm)
    ensures Opposite(st, IWord(1, rs, 0, imm), IWord(1, rs, 1, imm), pc, imm)
    ensures Opposite(st, IWord(1, rs, 2, imm), IWord(1, rs, 3, imm), pc, imm)
    ensures Opposite(st, IWord(1, rs, 16, imm), IWord(1, rs, 17, imm), pc, imm)
    ensures Opposite(st, IWord(1, rs, 18, imm), IWord(1, rs, 19, imm), pc, imm)
  {
    hide M.Execute, IWord, U32, S32, Offset;
    CompareBranches(st, rs, rt, imm, pc);
    SignBranches(st, rs, imm, pc);
  }

  // ---- Jumps --------------------------------------------------------------------------------

  /** The register file after v is written to r; register 0 takes no value. */
  function Put(reg: Regs, r: Reg, v: int): Regs {
    if r == 0 then reg else reg[r := S32(v)]
  }

  /** The slot's 256 MB region and the index within it. */
  lemma Jumps(st: M.State, index: int, pc: Word)
    requires |st.cop0| == 32 && 0 <= index < 0x400_0000
    ensures var region, linked := U32(pc + 4) / 0x1000_0000, st.(reg := st.reg[31 := S32(pc + 8)]);
            && M.Execute(st, JWord(2, index), pc) == M.Done(st, M.Delay(region * 0x1000_0000 + index * 4, false))
            && M.Execute(st, JWord(3, index), pc) == M.Done(linked, M.Delay(region * 0x1000_0000 + index * 4, false))
            && M.Execute(st, JWord(29, index), pc) == M.Done(linked, M.Delay(region * 0x1000_0000 + index * 4, true))
  {
    Over(JWord(2, index), 0x400_0000, 2, index);
    Over(JWord(3, index), 0x400_0000, 3, index);
    Over(JWord(29, index), 0x400_0000, 29, index);
    hide U32, S32, JWord;
  }

  function Even(v: Word): Word {
    v - v % 2
  }

  /** JR: bit 0 of the register picks the instruction set and is not part of the address. */
  lemma JumpsToRegister(st: M.State, rs: Reg, rt: Reg, rd: Reg, sa: Reg, pc: Word)
    requires |st.cop0| == 32
    ensures var v := U32(Rd(st.reg, rs));
            M.Execute(st, RWord(rs, rt, rd, sa, 8), pc) == M.Done(st, M.Delay(Even(v), v % 2 == 1))
  {
    hide U32, S32, RWord, M.Op, M.Fn, M.Rs, M.Rt, M.Rd5;
    RFields(rs, rt, rd, sa, 8);
  }

  /** JALR reads its register after the link has been written. */
  lemma JumpsAndLinks(st: M.State, rs: Reg, rt: Reg, rd: Reg, sa: Reg, pc: Word)
    requires |st.cop0| == 32
    ensures var v := if rs == 0 then 0 else if rs == rd then U32(pc + 8) else U32(st.reg[rs]);
            M.Execute(st, RWord(rs, rt, rd, sa, 9), pc) ==
              M.Done(st.(reg := Put(st.reg, rd, pc + 8)), M.Delay(Even(v), v % 2 == 1))
  {
    hide U32, S32, RWord, M.Op, M.Fn, M.Rs, M.Rt, M.Rd5;
    RFields(rs, rt, rd, sa, 9);
    Reread(pc + 8);
  }

  lemma Reread(x: int)
    ensures U32(S32(x)) == U32(x) && U32(0) == 0
  {
  }

  // ---- Register results ---------------------------------------------------------------------

  /** The instruction writes v to r, and does nothing else. */
  ghost predicate Gives(st: M.State, w: Word, pc: Word, r: Reg, v: int)
    requires |st.cop0| == 32
  {
    M.Execute(st, w, pc) == M.Done(st.(reg := Put(st.reg, r, v)), M.Next)
  }

  /** The instruction writes r the word whose bits are `op` of the bits of a and b, and does nothing else. */
  ghost predicate GivesBits(st: M.State, w: Word, pc: Word, r: Reg, a: Word, b: Word, op: (bool, bool) -> bool)
    requires |st.cop0| == 32
  {
    exists v: Word :: Gives(st, w, pc, r, v) && Bitwise(v, a, b, op)
  }

  // What reaching Gives takes: the answer of the register, or of the immediate, instruction.
  lemma ByAlu(st: M.State, rs: Reg, rt: Reg, rd: Reg, sa: Reg, fn: int, pc: Word, v: int)
    requires |st.cop0| == 32 && 0 <= fn < 64 && M.IsAlu(fn)
    requires M.Alu(fn, sa, Rd(st.reg, rs), Rd(st.reg, rt), st.hi, st.lo) == S32(v)
    ensures Gives(st, RWord(rs, rt, rd, sa, fn), pc, rd, v)
  {
    RFields(rs, rt, rd, sa, fn);
    hide RWord, M.Op, M.Fn, M.Sa, M.Rs, M.Rt, M.Rd5, M.Alu, S32;
  }

  lemma ByImmediate(st: M.State, op: int, rs: Reg, rt: Reg, imm: Half, pc: Word, v: int)
    requires |st.cop0| == 32 && 8 <= op <= 15
    requires M.Immediate(op, Rd(st.reg, rs), imm, Offset(imm)) == S32(v)
    ensures Gives(st, IWord(op, rs, rt, imm), pc, rt, v)
  {
    IFields(op, rs, rt, imm);
    hide IWord, M.Op, M.Rs, M.Rt, M.Imm, M.SImm, M.Immediate, S32, Offset;
  }

  lemma Small(x: int)
    ensures -0x8000_0000 <= x < 0x8000_0000 ==> S32(x) == x
    ensures 0 <= x < 0x1_0000_0000 ==> U32(x) == x
    ensures S32(-1 - S32(x)) == S32(0xFFFF_FFFF - x)
  {
  }

  /** Additions and subtractions, trapping or not, and the comparisons. */
  lemma Arithmetic(st: M.State, rs: Reg, rt: Reg, rd: Reg, sa: Reg, pc: Word)
    requires |st.cop0| == 32
    ensures var s, t := Rd(st.reg, rs), Rd(st.reg, rt);
            && Gives(st, RWord(rs, rt, rd, sa, 32), pc, rd, s + t)
            && Gives(st, RWord(rs, rt, rd, sa, 33), pc, rd, s + t)
            && Gives(st, RWord(rs, rt, rd, sa, 34), pc, rd, s - t)
            && Gives(st, RWord(rs, rt, rd, sa, 35), pc, rd, s - t)
            && Gives(st, RWord(rs, rt, rd, sa, 42), pc, rd, if s < t then 1 else 0)
            && Gives(st, RWord(rs, rt, rd, sa, 43), pc, rd, if U32(s) < U32(t) then 1 else 0)
  {
    hide Gives, RWord, U32;
    var s: int, t: int := Rd(st.reg, rs), Rd(st.reg, rt);
    ByAlu(st, rs, rt, rd, sa, 32, pc, s + t);
    ByAlu(st, rs, rt, rd, sa, 33, pc, s + t);
    ByAlu(st, rs, rt, rd, sa, 34, pc, s - t);
    ByAlu(st, rs, rt, rd, sa, 35, pc, s - t);
    ByAlu(st, rs, rt, rd, sa, 42, pc, if s < t then 1 else 0);
    ByAlu(st, rs, rt, rd, sa, 43, pc, if U32(s) < U32(t) then 1 else 0);
  }

  /** The shifts, by the instruction's amount and by the low five bits of a register: left, right with
      zeros, right with the sign. */
  lemma Shifts(st: M.State, rs: Reg, rt: Reg, rd: Reg, sa: Reg, pc: Word)
    requires |st.cop0| == 32
    ensures var t, low := Rd(st.reg, rt), U32(Rd(st.reg, rs)) % 32;
            && Gives(st, RWord(rs, rt, rd, sa, 0), pc, rd, t * Pow2(sa))
            && Gives(st, RWord(rs, rt, rd, sa, 2), pc, rd, U32(t) / Pow2(sa))
            && Gives(st, RWord(rs, rt, rd, sa, 3), pc, rd, t / Pow2(sa))
            && Gives(st, RWord(rs, rt, rd, sa, 4), pc, rd, t * Pow2(low))
            && Gives(st, RWord(rs, rt, rd, sa, 6), pc, rd, U32(t) / Pow2(low))
            && Gives(st, RWord(rs, rt, rd, sa, 7), pc, rd, t / Pow2(low))
  {
    hide Gives, RWord, U32, S32, Pow2;
    var t, low := Rd(st.reg, rt), U32(Rd(st.reg, rs)) % 32;
    assert sa % 32 == sa;
    ByAlu(st, rs, rt, rd, sa, 0, pc, t * Pow2(sa));
    ByAlu(st, rs, rt, rd, sa, 2, pc, U32(t) / Pow2(sa));
    ByAlu(st, rs, rt, rd, sa, 3, pc, t / Pow2(sa));
    ByAlu(st, rs, rt, rd, sa, 4, pc, t * Pow2(low));
    ByAlu(st, rs, rt, rd, sa, 6, pc, U32(t) / Pow2(low));
    ByAlu(st, rs, rt, rd, sa, 7, pc, t / Pow2(low));
  }

  /** AND, OR, XOR and NOR, bit by bit. */
  lemma BitOperations(st: M.State, rs: Reg, rt: Reg, rd: Reg, sa: Reg, pc: Word)
    requires |st.cop0| == 32
    ensures var a, b := U32(Rd(st.reg, rs)), U32(Rd(st.reg, rt));
            && GivesBits(st, RWord(rs, rt, rd, sa, 36), pc, rd, a, b, (x, y) => x && y)
            && GivesBits(st, RWord(rs, rt, rd, sa, 37), pc, rd, a, b, (x, y) => x || y)
            && GivesBits(st, RWord(rs, rt, rd, sa, 38), pc, rd, a, b, (x, y) => x != y)
            && GivesBits(st, RWord(rs, rt, rd, sa, 39), pc, rd, a, b, (x, y) => !(x || y))
  {
    hide Gives, Bitwise, RWord, U32, S32, AndW, OrW, XorW, Rd;
    var a, b := U32(Rd(st.reg, rs)), U32(Rd(st.reg, rt));
    AndIs(a, b);
    OrIs(a, b);
    XorIs(a, b);
    Small(OrW(a, b));
    ByAlu(st, rs, rt, rd, sa, 36, pc, AndW(a, b));
    ByAlu(st, rs, rt, rd, sa, 37, pc, OrW(a, b));
    ByAlu(st, rs, rt, rd, sa, 38, pc, XorW(a, b));
    ByAlu(st, rs, rt, rd, sa, 39, pc, 0xFFFF_FFFF - OrW(a, b));
  }

  lemma SumsAre(s: Int32, imm: Half)
    ensures M.Immediate(8, s, imm, Offset(imm)) == M.Immediate(9, s, imm, Offset(imm)) == S32(s + Offset(imm))
    ensures M.Immediate(10, s, imm, Offset(imm)) == S32(if s < Offset(imm) then 1 else 0)
    ensures M.Immediate(11, s, imm, Offset(imm)) == S32(if U32(s) < U32(Offset(imm)) then 1 else 0)
    ensures M.Immediate(15, s, imm, Offset(imm)) == S32(imm * 0x1_0000)
  {
    Small(Offset(imm));
    assert S32(Offset(imm)) == Offset(imm);
    Small(0);
    Small(1);
    hide U32, S32, Offset;
  }

  /** ADDI, ADDIU, SLTI, SLTIU and LUI: a signed immediate, and one for the high half. */
  lemma ImmediateSums(st: M.State, rs: Reg, rt: Reg, imm: Half, pc: Word)
    requires |st.cop0| == 32
    ensures var s := Rd(st.reg, rs);
            && Gives(st, IWord(8, rs, rt, imm), pc, rt, s + Offset(imm))
            && Gives(st, IWord(9, rs, rt, imm), pc, rt, s + Offset(imm))
            && Gives(st, IWord(10, rs, rt, imm), pc, rt, if s < Offset(imm) then 1 else 0)
            && Gives(st, IWord(11, rs, rt, imm), pc, rt, if U32(s) < U32(Offset(imm)) then 1 else 0)
            && Gives(st, IWord(15, rs, rt, imm), pc, rt, imm * 0x1_0000)
  {
    hide Gives, IWord, U32, S32, Rd, Offset, M.Immediate;
    var s: int := Rd(st.reg, rs);
    SumsAre(s, imm);
    ByImmediate(st, 8, rs, rt, imm, pc, s + Offset(imm));
    ByImmediate(st, 9, rs, rt, imm, pc, s + Offset(imm));
    ByImmediate(st, 10, rs, rt, imm, pc, if s < Offset(imm) then 1 else 0);
    ByImmediate(st, 11, rs, rt, imm, pc, if U32(s) < U32(Offset(imm)) then 1 else 0);
    ByImmediate(st, 15, rs, rt, imm, pc, imm * 0x1_0000);
  }

  /** ANDI, ORI and XORI: an unsigned immediate. */
  lemma ImmediateBits(st: M.State, rs: Reg, rt: Reg, imm: Half, pc: Word)
    requires |st.cop0| == 32
    ensures var s := U32(Rd(st.reg, rs));
            && GivesBits(st, IWord(12, rs, rt, imm), pc, rt, s, imm, (x, y) => x && y)
            && GivesBits(st, IWord(13, rs, rt, imm), pc, rt, s, imm, (x, y) => x || y)
            && GivesBits(st, IWord(14, rs, rt, imm), pc, rt, s, imm, (x, y) => x != y)
  {
    var s := U32(Rd(st.reg, rs));
    Small(imm);
    hide Gives, Bitwise, IWord, U32, S32, AndW, OrW, XorW, Rd, Offset;
    AndIs(s, imm);
    OrIs(s, imm);
    XorIs(s, imm);
    ByImmediate(st, 12, rs, rt, imm, pc, AndW(s, imm));
    ByImmediate(st, 13, rs, rt, imm, pc, OrW(s, imm));
    ByImmediate(st, 14, rs, rt, imm, pc, XorW(s, imm));
  }

  // ---- HI and LO ----------------------------------------------------------------------------

  /** The instruction leaves HI and LO so, and does nothing else. */
  ghost predicate GivesPair(st: M.State, w: Word, pc: Word, hi: Int32, lo: Int32)
    requires |st.cop0| == 32
  {
    M.Execute(st, w, pc) == M.Done(st.(hi := hi, lo := lo), M.Next)
  }

  /** Moves to and from HI and LO. */
  lemma PairMoves(st: M.State, rs: Reg, rt: Reg, rd: Reg, sa: Reg, pc: Word)
    requires |st.cop0| == 32
    ensures Gives(st, RWord(rs, rt, rd, sa, 16), pc, rd, st.hi)
    ensures GivesPair(st, RWord(rs, rt, rd, sa, 17), pc, Rd(st.reg, rs), st.lo)
    ensures Gives(st, RWord(rs, rt, rd, sa, 18), pc, rd, st.lo)
    ensures GivesPair(st, RWord(rs, rt, rd, sa, 19), pc, st.hi, Rd(st.reg, rs))
  {
    Small(st.hi);
    Small(st.lo);
    RFields(rs, rt, rd, sa, 17);
    RFields(rs, rt, rd, sa, 19);
    hide S32, RWord, M.Op, M.Fn, M.Sa, M.Rs, M.Rt, M.Rd5;
    ByAlu(st, rs, rt, rd, sa, 16, pc, st.hi);
    ByAlu(st, rs, rt, rd, sa, 18, pc, st.lo);
  }

  /** HI and LO hold the 64-bit pattern of p. */
  ghost predicate GivesProduct(st: M.State, w: Word, pc: Word, p: int)
    requires |st.cop0| == 32
  {
    exists hi: Int32, lo: Int32 ::
      GivesPair(st, w, pc, hi, lo) && U32(hi) * 0x1_0000_0000 + U32(lo) == p % 0x1_0000_0000_0000_0000
  }

  lemma Pattern(p: int)
    ensures High(p) * 0x1_0000_0000 + Low(p) == p % 0x1_0000_0000_0000_0000
  {
    var q, lo := p / 0x1_0000_0000, p % 0x1_0000_0000;
    var top, hi := q / 0x1_0000_0000, q % 0x1_0000_0000;
    Over(p, 0x1_0000_0000_0000_0000, top, hi * 0x1_0000_0000 + lo);
  }

  /** MULT and MULTU: the whole product of the signed, or of the unsigned, readings. */
  lemma Products(st: M.State, rs: Reg, rt: Reg, rd: Reg, sa: Reg, pc: Word)
    requires |st.cop0| == 32
    ensures var s, t := Rd(st.reg, rs), Rd(st.reg, rt);
            && GivesProduct(st, RWord(rs, rt, rd, sa, 24), pc, s * t)
            && GivesProduct(st, RWord(rs, rt, rd, sa, 25), pc, U32(s) * U32(t))
  {
    hide GivesProduct, U32, RWord;
    ByProduct(st, rs, rt, rd, sa, 24, pc);
    ByProduct(st, rs, rt, rd, sa, 25, pc);
  }

  lemma ByProduct(st: M.State, rs: Reg, rt: Reg, rd: Reg, sa: Reg, fn: int, pc: Word)
    requires |st.cop0| == 32 && (fn == 24 || fn == 25)
    ensures GivesProduct(st, RWord(rs, rt, rd, sa, fn), pc, Product(Rd(st.reg, rs), Rd(st.reg, rt), fn == 24))
  {
    hide RWord, M.Op, M.Fn, M.Sa, M.Rs, M.Rt, M.Rd5, Mul64, U32, High, Low, Product;
    RFields(rs, rt, rd, sa, fn);
    var s, t := Rd(st.reg, rs), Rd(st.reg, rt);
    var p := Mul64(s, t, fn == 24);
    Mul64Exact(s, t, fn == 24);
    Pattern(Product(s, t, fn == 24));
    assert GivesPair(st, RWord(rs, rt, rd, sa, fn), pc, p.0, p.1);
  }

  /** q and r are the quotient rounded toward zero and its remainder: the remainder is smaller than the
      divisor and has the dividend's sign. */
  ghost predicate Divides(a: int, b: int, q: int, r: int) {
    && a == q * b + r
    && Abs(r) < Abs(b)
    && (r == 0 || (r < 0 <==> a < 0))
  }

  /** HI and LO hold the remainder and the quotient of a by b. */
  ghost predicate GivesQuotient(st: M.State, w: Word, pc: Word, a: int, b: int)
    requires |st.cop0| == 32
  {
    exists q: int, r: int :: Divides(a, b, q, r) && GivesPair(st, w, pc, S32(r), S32(q))
  }

  lemma Negated(q: int, b: int)
    ensures (-q) * b == -(q * b) && q * (-b) == -(q * b)
  {
  }

  lemma WithRemainder(a: nat, b: nat)
    requires b > 0
    ensures a == a / b * b + a % b && 0 <= a % b < b
  {
  }

  lemma TruncDivides(a: int, b: int)
    requires b != 0
    ensures Divides(a, b, TruncDiv(a, b), TruncMod(a, b))
  {
    WithRemainder(Abs(a), Abs(b));
    var q := Abs(a) / Abs(b);
    Negated(q, b);
    var p, s := q * Abs(b), TruncDiv(a, b) * b;
    assert s == if a < 0 then -p else p;
  }

  /** DIV and DIVU divide the signed, or the unsigned, readings; a zero divisor leaves HI and LO alone. */
  lemma Quotients(st: M.State, rs: Reg, rt: Reg, rd: Reg, sa: Reg, pc: Word)
    requires |st.cop0| == 32
    ensures var s, t := Rd(st.reg, rs), Rd(st.reg, rt);
            && (t != 0 ==> GivesQuotient(st, RWord(rs, rt, rd, sa, 26), pc, s, t))
            && (t != 0 ==> GivesQuotient(st, RWord(rs, rt, rd, sa, 27), pc, U32(s), U32(t)))
            && (t == 0 ==> GivesPair(st, RWord(rs, rt, rd, sa, 26), pc, st.hi, st.lo))
            && (t == 0 ==> GivesPair(st, RWord(rs, rt, rd, sa, 27), pc, st.hi, st.lo))
  {
    RFields(rs, rt, rd, sa, 26);
    RFields(rs, rt, rd, sa, 27);
    hide RWord, M.Op, M.Fn, M.Sa, M.Rs, M.Rt, M.Rd5, S32, U32, Divides, E.Divide;
    var s, t := Rd(st.reg, rs), Rd(st.reg, rt);
    if t != 0 { DivideIs(s, t); }
  }

  lemma DivideIs(s: Int32, t: Int32)
    requires t != 0
    ensures exists q: int, r: int :: Divides(s, t, q, r) && E.Divide(true, s, t) == (S32(r), S32(q))
    ensures exists q: int, r: int :: Divides(U32(s), U32(t), q, r) && E.Divide(false, s, t) == (S32(r), S32(q))
  {
    assert U32(t) != 0;
    hide Divides, U32, S32, Trunc;
    TruncQuotient(s, t);
    RealQuotient(U32(s), U32(t));
    TruncDivides(s, t);
    TruncDivides(U32(s), U32(t));
    assert TruncDiv(U32(s), U32(t)) == U32(s) / U32(t) && TruncMod(U32(s), U32(t)) == U32(s) % U32(t);
  }
}
