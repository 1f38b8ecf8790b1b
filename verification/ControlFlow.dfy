// reference/mips16.js and internal/cpu/core.go: where control goes. The jumps of MIPS16 on assembled
// halfwords; and, for both instruction sets, what a step makes of an instruction's answer: on, past the
// slot, at once, or through the slot.
module ControlFlow {
  import opened Words
  import opened WordBits
  import opened Memory
  import opened Frames
  import opened Mips32Meaning
  import opened Mips32Access
  import opened Mips16Meaning
  import D = OracleDecode
  import E = OracleExec
  import M = Mips32
  import S = Stepping

  // ---- B ------------------------------------------------------------------------------------

  lemma DecodedB(u: nat, next: Half, addr: Word, base: Word)
    requires u < 0x800
    ensures D.Decode(0x1000 + u, None, next, addr, base) == D.Insn(2, D.BranchOp(D.B, 0, 2 * if u < 0x400 then u else u - 0x800))
  {
    Over(0x1000 + u, 0x800, 2, u);
    hide D.Xl, U32, D.Align4, D.DecodeMem, D.Svrs, D.DecodeI8,
      D.DecodeBz, D.DecodeJal, D.DecodeRr, D.DecodeRri, D.DecodeShift, D.DecodeRrr, D.DecodeImm, D.DecodeCond, D.DecodeWord;
  }

  lemma DecodedWideB(v: Half, next: Half, addr: Word, base: Word)
    ensures D.Decode(Half8(0x02, 0, Wide(v)), Extension(Wide(v)), next, addr, base) == D.Insn(4, D.BranchOp(D.B, 0, 2 * Offset(v)))
  {
    Fields8(0x02, 0, Wide(v));
    SignsAgree(v);
    Over(Half8(0x02, 0, Wide(v)), 0x20, 0x80, v % 0x20);
    hide D.Xl, U32, D.Align4, D.DecodeMem, D.Svrs, D.DecodeI8, D.Sx, D.ExtImm16, Offset, Half8,
      D.DecodeBz, D.DecodeJal, D.DecodeRr, D.DecodeRri, D.DecodeShift, D.DecodeRrr, D.DecodeImm, D.DecodeCond, D.DecodeWord;
  }

  /** B goes to its offset, eleven signed bits or sixteen, in halfwords from the next instruction. */
  lemma AlwaysBranches(c: E.Cpu, m: Mem, u: nat, v: Half, next: Half)
    requires u < 0x800
    ensures Branches16(c, m, 0x1000 + u, None, next, 2, true, 2 * if u < 0x400 then u else u - 0x800)
    ensures Branches16(c, m, Half8(0x02, 0, Wide(v)), Extension(Wide(v)), next, 4, true, 2 * Offset(v))
  {
    hide D.Decode, E.Operate, Half8, Offset, Extension, U32;
    DecodedB(u, next, c.pc, E.PcBase(c));
    DecodedWideB(v, next, c.pc, E.PcBase(c));
    OperatesBranches(c, m, 2, 0, 2 * if u < 0x400 then u else u - 0x800, c.pc);
    OperatesBranches(c, m, 4, 0, 2 * Offset(v), c.pc);
  }

  // ---- Jumps --------------------------------------------------------------------------------

  /** The first halfword of JAL or JALX: the index's bits 16 to 20 above its bits 21 to 25. */
  function JalHalf(toggle: bool, index: nat): Half
    requires index < 0x400_0000
  {
    0x1800 + 0x400 * Flag(toggle) + index / 0x1_0000 % 0x20 * 0x20 + index / 0x20_0000
  }

  lemma JalReads(toggle: bool, index: nat)
    requires index < 0x400_0000
    ensures var h: nat := JalHalf(toggle, index);
            && h / 0x800 == 3 && (h / 0x400 % 2 == 1 <==> toggle)
            && h % 0x20 * 0x20_0000 + h / 0x20 % 0x20 * 0x1_0000 + index % 0x1_0000 == index
  {
    var mid, top, t := index / 0x1_0000 % 0x20, index / 0x20_0000, Flag(toggle);
    var h: int := JalHalf(toggle, index);
    Over(index, 0x20_0000, top, index % 0x20_0000);
    Over(index / 0x1_0000, 0x20, top, mid);
    assert index == (top * 0x20 + mid) * 0x1_0000 + index % 0x1_0000;
    Over(h, 0x800, 3, 0x400 * t + mid * 0x20 + top);
    Over(h, 0x400, 6 + t, mid * 0x20 + top);
    Over(h, 0x20, 0xC0 + 0x20 * t + mid, top);
    Over(0xC0 + 0x20 * t + mid, 0x20, 6 + t, mid);
  }

  lemma DecodedJal(toggle: bool, index: nat, addr: Word, base: Word)
    requires index < 0x400_0000
    ensures D.Decode(JalHalf(toggle, index), None, index % 0x1_0000, addr, base) ==
            D.Insn(4, D.Jal(toggle, U32(addr + 4) / 0x1000_0000 * 0x1000_0000 + index * 4))
  {
    hide JalHalf, U32;
    JalReads(toggle, index);
    var h := JalHalf(toggle, index);
    assert D.Decode(h, None, index % 0x1_0000, addr, base) == D.DecodeJal(None, h, index % 0x1_0000, addr) by { hide D.DecodeJal; }
    hide D.Decode;
  }

  lemma OperatesJal(c: E.Cpu, m: Mem, n: int, toggle: bool, to: Word, pc: Word)
    requires pc % 2 == 0
    ensures E.Operate(c, m, D.Insn(n, D.Jal(toggle, to)), pc) ==
            E.Effect(Put(c.reg, 31, pc + 7), c.hi, c.lo, m, E.JumpTo(to, !toggle))
  {
    hide S32, E.Link;
    Linked(pc + 6);
  }

  /** JAL and JALX jump, after the slot, to the index in the slot's 256 MB region; ra gets the address past
      the slot with bit 0 set. JALX leaves MIPS16. */
  lemma CallsInRegion(c: E.Cpu, m: Mem, toggle: bool, index: nat)
    requires index < 0x400_0000 && c.pc % 2 == 0
    ensures var to := U32(c.pc + 4) / 0x1000_0000 * 0x1000_0000 + index * 4;
            Does(c, m, JalHalf(toggle, index), None, index % 0x1_0000, 4,
                 E.Effect(Put(c.reg, 31, c.pc + 7), c.hi, c.lo, m, E.JumpTo(to, !toggle)))
  {
    hide D.Decode, E.Operate, JalHalf, Put, U32;
    DecodedJal(toggle, index, c.pc, E.PcBase(c));
    OperatesJal(c, m, 4, toggle, U32(c.pc + 4) / 0x1000_0000 * 0x1000_0000 + index * 4, c.pc);
  }

  /** A halfword with EXTEND's opcode lends its eleven bits to the one after it; any other stands alone. */
  lemma Prefixes(m: Mem, pc: Word, base: Word, e: nat)
    requires e < 0x800
    ensures HalfAt(m, pc) as int == 0xF000 + e ==>
              D.FetchDecode(m, pc, base) == D.Decode(HalfAt(m, U32(pc + 2)), Some(e), HalfAt(m, U32(pc + 4)), pc, base)
    ensures HalfAt(m, pc) / 0x800 != 30 ==>
              D.FetchDecode(m, pc, base) == D.Decode(HalfAt(m, pc), None, HalfAt(m, U32(pc + 2)), pc, base)
  {
    hide D.Decode, Read8;
    Over(0xF000 + e, 0x800, 30, e);
  }

  lemma Linked(a: int)
    requires a % 2 == 0
    ensures E.Link(a) == S32(a + 1)
  {
    hide OrW, U32, S32;
    StaysEven(a);
    S.OrOne(U32(a));
    OnePast(a);
  }

  lemma StaysEven(a: int)
    requires a % 2 == 0
    ensures U32(a) % 2 == 0
  {
  }

  lemma OnePast(a: int)
    ensures S32(U32(a) + 1) == S32(a + 1)
  {
  }

  lemma JumpIs(k: D.JumpKind, s: Reg, reg: Regs, pc: Word)
    requires pc % 2 == 0
    ensures var v := U32(Rd(reg, s));
            E.Jump(k, D.JumpOp(k, s), reg, pc) ==
              match k
              case Jr => (reg, E.JumpTo(Even(v), v % 2 == 1))
              case Jalr => (Put(reg, 31, pc + 5), E.JumpTo(Even(v), v % 2 == 1))
              case Jrc => (reg, E.BranchTo(Even(v), v % 2 == 1))
              case Jalrc => (Put(reg, 31, pc + 3), E.BranchTo(Even(v), v % 2 == 1))
  {
    hide S32, U32, Rd, E.Link;
    Linked(pc + 4);
    Linked(pc + 2);
  }

  lemma OperatesJump(c: E.Cpu, m: Mem, n: int, k: D.JumpKind, s: Reg, pc: Word)
    ensures var p := E.Jump(k, D.JumpOp(k, s), c.reg, pc);
            E.Operate(c, m, D.Insn(n, D.JumpOp(k, s)), pc) == E.Effect(p.0, c.hi, c.lo, m, p.1)
  {
    hide E.Jump;
  }

  lemma OperatesJumps(c: E.Cpu, m: Mem, n: int, s: Reg, pc: Word)
    requires pc % 2 == 0
    ensures var v := U32(Rd(c.reg, s));
            && E.Operate(c, m, D.Insn(n, D.JumpOp(D.Jr, s)), pc) ==
               E.Effect(c.reg, c.hi, c.lo, m, E.JumpTo(Even(v), v % 2 == 1))
            && E.Operate(c, m, D.Insn(n, D.JumpOp(D.Jalr, s)), pc) ==
               E.Effect(Put(c.reg, 31, pc + 5), c.hi, c.lo, m, E.JumpTo(Even(v), v % 2 == 1))
            && E.Operate(c, m, D.Insn(n, D.JumpOp(D.Jrc, s)), pc) ==
               E.Effect(c.reg, c.hi, c.lo, m, E.BranchTo(Even(v), v % 2 == 1))
            && E.Operate(c, m, D.Insn(n, D.JumpOp(D.Jalrc, s)), pc) ==
               E.Effect(Put(c.reg, 31, pc + 3), c.hi, c.lo, m, E.BranchTo(Even(v), v % 2 == 1))
  {
    hide E.Operate, E.Jump, Put, U32, Rd, Even;
    JumpIs(D.Jr, s, c.reg, pc);
    JumpIs(D.Jalr, s, c.reg, pc);
    JumpIs(D.Jrc, s, c.reg, pc);
    JumpIs(D.Jalrc, s, c.reg, pc);
    OperatesJump(c, m, n, D.Jr, s, pc);
    OperatesJump(c, m, n, D.Jalr, s, pc);
    OperatesJump(c, m, n, D.Jrc, s, pc);
    OperatesJump(c, m, n, D.Jalrc, s, pc);
  }

  /** JR, JALR, JRC and JALRC: bit 0 of the register picks the instruction set. The first two run their slot;
      a link is the address of what follows, with bit 0 set. */
  lemma RegisterJumps(c: E.Cpu, m: Mem, x: nat, next: Half)
    requires x < 8 && c.pc % 2 == 0
    ensures var v, ra := U32(c.reg[NAMED[x]]), U32(c.reg[31]);
            && Does(c, m, Rr(x, 0, 0), None, next, 2, E.Effect(c.reg, c.hi, c.lo, m, E.JumpTo(Even(v), v % 2 == 1)))
            && Does(c, m, Rr(0, 1, 0), None, next, 2, E.Effect(c.reg, c.hi, c.lo, m, E.JumpTo(Even(ra), ra % 2 == 1)))
            && Does(c, m, Rr(x, 2, 0), None, next, 2, E.Effect(Put(c.reg, 31, c.pc + 5), c.hi, c.lo, m, E.JumpTo(Even(v), v % 2 == 1)))
            && Does(c, m, Rr(x, 4, 0), None, next, 2, E.Effect(c.reg, c.hi, c.lo, m, E.BranchTo(Even(v), v % 2 == 1)))
            && Does(c, m, Rr(0, 5, 0), None, next, 2, E.Effect(c.reg, c.hi, c.lo, m, E.BranchTo(Even(ra), ra % 2 == 1)))
            && Does(c, m, Rr(x, 6, 0), None, next, 2, E.Effect(Put(c.reg, 31, c.pc + 3), c.hi, c.lo, m, E.BranchTo(Even(v), v % 2 == 1)))
  {
    hide D.Decode, E.Operate, Rr, Put, U32, Even;
    var base := E.PcBase(c);
    NamedIs(x);
    DecodedRr(x, 0, 0, next, c.pc, base);
    DecodedRr(0, 1, 0, next, c.pc, base);
    DecodedRr(x, 2, 0, next, c.pc, base);
    DecodedRr(x, 4, 0, next, c.pc, base);
    DecodedRr(0, 5, 0, next, c.pc, base);
    DecodedRr(x, 6, 0, next, c.pc, base);
    OperatesJumps(c, m, 2, NAMED[x], c.pc);
    OperatesJumps(c, m, 2, 31, c.pc);
  }

  // ---- A step of the core -----------------------------------------------------------------------

  /** A MIPS32 step outside a slot: control goes four bytes on, eight past an annulled slot, at once to the
      target of ERET, or four bytes on with the target remembered. */
  lemma StepsOn(s: S.Snap)
    requires s.Shaped() && !s.isa && s.pc % 4 == 0 && !s.delayed.armed
    ensures var r := M.Execute(s.Core32(), Read32(s.mem, s.pc), s.pc);
            r.Done? ==>
              var t := S.Perform(s);
              && t.Retired?
              && t.s.Core32() == r.s
              && t.s.lines == s.lines
              && match r.control
                 case Next => t.s.pc == U32(s.pc + 4) && !t.s.isa && t.s.delayed == s.delayed
                 case Annul => t.s.pc == U32(s.pc + 8) && !t.s.isa && t.s.delayed == s.delayed
                 case Now(to, isa) => t.s.pc == to && t.s.isa == isa && t.s.delayed == s.delayed
                 case Delay(to, isa) => t.s.pc == U32(s.pc + 4) && !t.s.isa && t.s.delayed == S.Branch(to, s.pc, isa, true, false)
  {
    hide M.Execute, Read32, U32;
  }

  /** In a slot: the step lands where the jump was going, whatever the instruction answered, unless it is a
      transfer of control itself, which is an error after its effects. */
  lemma SlotLands(s: S.Snap)
    requires s.Shaped() && !s.isa && s.pc % 4 == 0 && s.delayed.armed
    ensures var r := M.Execute(s.Core32(), Read32(s.mem, s.pc), s.pc);
            r.Done? ==>
              var t := S.Perform(s);
              if r.control.Delay? || r.control.Now? then t.Halted? && t.why == S.BranchInSlot && t.s == s.With(r.s)
              else t.Retired? && t.s == s.With(r.s).(pc := s.delayed.target, isa := s.delayed.isa, delayed := S.NO_BRANCH)
  {
    hide M.Execute, Read32;
  }

  /** A word that is no MIPS32 instruction, or a PC that is not its instruction set's, stops the step with
      nothing changed. */
  lemma Stops(s: S.Snap)
    requires s.Shaped()
    ensures (!s.isa && s.pc % 4 != 0) || (s.isa && s.pc % 2 != 0) ==> S.Perform(s) == S.Halted(S.Misaligned, s)
    ensures !s.isa && s.pc % 4 == 0 && M.Execute(s.Core32(), Read32(s.mem, s.pc), s.pc).Unsupported? ==>
              S.Perform(s) == S.Halted(S.Undecoded, s)
  {
    hide M.Execute, Read32, S.Attempt16;
  }

  /** BEQ from end to end: the slot runs either way; then control is at the target if the registers were
      equal, and past the slot if they were not. */
  lemma BranchAndSlot(s: S.Snap, rs: Reg, rt: Reg, imm: Half)
    requires s.Shaped() && !s.isa && s.pc % 4 == 0 && !s.delayed.armed
    requires Read32(s.mem, s.pc) == IWord(4, rs, rt, imm)
    ensures var taken, t := Rd(s.reg, rs) == Rd(s.reg, rt), S.Perform(s);
            && t.Retired? && t.s.Core32() == s.Core32() && t.s.pc == U32(s.pc + 4)
            && var r := M.Execute(t.s.Core32(), Read32(s.mem, t.s.pc), t.s.pc);
               r.Done? && r.control.Next? ==>
                 var u := S.Perform(t.s);
                 u.Retired? && u.s.Core32() == r.s && !u.s.delayed.armed
                 && u.s.pc == if taken then U32(s.pc + 4 + 4 * Offset(imm)) else U32(s.pc + 8)
  {
    hide M.Execute, Read32, IWord, Offset;
    CompareBranches(s.Core32(), rs, rt, imm, s.pc);
    StepsOn(s);
    var t := S.Perform(s).s;
    FourOn(s.pc);
    hide S.Perform, U32;
    if t.delayed.armed { SlotLands(t); } else { StepsOn(t); }
  }

  lemma FourOn(pc: Word)
    requires pc % 4 == 0
    ensures U32(pc + 4) % 4 == 0 && U32(U32(pc + 4) + 4) == U32(pc + 8)
  {
  }
}
