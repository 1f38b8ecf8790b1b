// reference/mips16.js: what the MIPS16 instructions mean, written on assembled halfwords, bare and
// extended. As for MIPS32, nothing here is said through the functions that compute the answers.
module Mips16Meaning {
  import opened Words
  import opened WordBits
  import opened Memory
  import opened Frames
  import opened Multiply
  import opened Mips32Meaning
  import opened Mips32Access
  import D = OracleDecode
  import E = OracleExec

  // ---- Assembled halfwords ------------------------------------------------------------------

  /** The registers three bits can name: s0, s1, v0, v1 and a0 to a3. */
  const NAMED: seq<Reg> := [16, 17, 2, 3, 4, 5, 6, 7]

  /** An immediate field: as wide as the instruction has room for, or the sixteen bits of an extended one. */
  datatype Field = Bare(u: nat) | Wide(v: Half)

  function Extension(f: Field): Option<nat> {
    match f
    case Bare(_) => None
    case Wide(v) => Some(v / 0x20 % 0x40 * 0x20 + v / 0x800)
  }

  function LowPart(f: Field): nat {
    match f
    case Bare(u) => u
    case Wide(v) => v % 0x20
  }

  function Length(f: Field): int {
    if f.Bare? then 2 else 4
  }

  /** opcode, register, eight bits. */
  function Half8(op: nat, x: nat, f: Field): Half
    requires op < 32 && x < 8 && (f.Bare? ==> f.u < 0x100)
  {
    op * 0x800 + x * 0x100 + LowPart(f)
  }

  /** opcode, two registers, five bits. */
  function Half5(op: nat, x: nat, y: nat, f: Field): Half
    requires op < 32 && x < 8 && y < 8 && (f.Bare? ==> f.u < 0x20)
  {
    op * 0x800 + x * 0x100 + y * 0x20 + LowPart(f)
  }

  function Signed8(u: nat): int {
    if u < 0x80 then u else u - 0x100
  }

  /** The bare field scaled and zero-extended, or scaled and sign-extended; an extended one is signed and
      not scaled. */
  function Unsigned(f: Field, scale: nat): int {
    if f.Bare? then f.u * scale else Offset(f.v)
  }

  function Signed(f: Field, scale: nat): int {
    if f.Bare? then Signed8(f.u) * scale else Offset(f.v)
  }

  function Plain(f: Field): nat {
    if f.Bare? then f.u else f.v
  }

  lemma WideFields(v: Half)
    ensures var e := v / 0x20 % 0x40 * 0x20 + v / 0x800;
            && e % 0x20 * 0x800 + e / 0x20 % 0x40 * 0x20 + v % 0x20 == v
            && v / 0x800 < 0x20
  {
    var mid: int := v / 0x20 % 0x40;
    var top: int := v / 0x800;
    Over(v / 0x20, 0x40, top, mid);
    Over(v, 0x20, top * 0x40 + mid, v % 0x20);
    Over(mid * 0x20 + top, 0x20, mid, top);
  }

  lemma Fields8(op: nat, x: nat, f: Field)
    requires op < 32 && x < 8 && (f.Bare? ==> f.u < 0x100)
    ensures var h: nat, e := Half8(op, x, f), Extension(f);
            && h / 0x800 == op && h / 0x100 % 8 == x
            && (f.Bare? ==> h % 0x100 == f.u)
            && (f.Wide? ==> !D.ZField(e, h) && D.ExtImm16(e.value, h) == f.v)
  {
    var l: int := LowPart(f);
    var h: int := Half8(op, x, f);
    Over(h, 0x800, op, x * 0x100 + l);
    Over(h, 0x100, op * 8 + x, l);
    Over(op * 8 + x, 8, op, x);
    if f.Wide? {
      WideFields(f.v);
      Over(h, 0x20, (op * 8 + x) * 8, l);
      Over((op * 8 + x) * 8, 8, op * 8 + x, 0);
    }
  }

  lemma Fields5(op: nat, x: nat, y: nat, f: Field)
    requires op < 32 && x < 8 && y < 8 && (f.Bare? ==> f.u < 0x20)
    ensures var h: nat, e := Half5(op, x, y, f), Extension(f);
            && h / 0x800 == op && h / 0x100 % 8 == x && h / 0x20 % 8 == y
            && (f.Bare? ==> h % 0x20 == f.u)
            && (f.Wide? ==> D.ExtImm16(e.value, h) == f.v)
  {
    var l: int := LowPart(f);
    var h: int := Half5(op, x, y, f);
    Over(h, 0x800, op, x * 0x100 + y * 0x20 + l);
    Over(h, 0x100, op * 8 + x, y * 0x20 + l);
    Over(h, 0x20, (op * 8 + x) * 8 + y, l);
    Over(op * 8 + x, 8, op, x);
    Over((op * 8 + x) * 8 + y, 8, op * 8 + x, y);
    if f.Wide? { WideFields(f.v); }
  }

  /** A field below twice its sign bit is itself without that bit, and as much below zero with it. */
  lemma Sign(v: nat, sign: nat)
    requires sign > 0 && v < 2 * sign
    ensures D.Sx(v, sign) == if v < sign then v else v - 2 * sign
  {
    var top := if v < sign then 0 else 1;
    Over(v, sign, top, v - top * sign);
  }

  lemma SignsAgree(v: nat)
    ensures v < 0x1_0000 ==> D.Sx(v, 0x8000) == Offset(v)
    ensures v < 0x100 ==> D.Sx(v, 0x80) == Signed8(v)
  {
    if v < 0x1_0000 { Sign(v, 0x8000); }
    if v < 0x100 { Sign(v, 0x80); }
    hide D.Sx;
  }

  lemma FieldValues(op: nat, x: nat, f: Field, scale: nat)
    requires op < 32 && x < 8 && (f.Bare? ==> f.u < 0x100)
    ensures var h, e := Half8(op, x, f), Extension(f);
            && D.Imm8(e, h, scale) == Unsigned(f, scale) && D.ImmS8(e, h, scale) == Signed(f, scale)
            && D.ImmU8(e, h) == Plain(f) && D.BranchOff(e, h) == 2 * Signed(f, 1)
  {
    Fields8(op, x, f);
    if f.Bare? { SignsAgree(f.u); } else { SignsAgree(f.v); }
    hide D.Sx, D.ExtImm16, Half8, Offset;
  }

  lemma NamedIs(x: nat)
    requires x < 8
    ensures D.Xl(x) == NAMED[x] != 0
  {
  }

  // ---- Effects ------------------------------------------------------------------------------

  /** The halfword decodes, and operating it has this effect. */
  ghost predicate Does(c: E.Cpu, m: Mem, h: Half, ext: Option<nat>, next: Half, length: int, e: E.Effect) {
    var i := D.Decode(h, ext, next, c.pc, E.PcBase(c));
    i.Insn? && i.length == length && E.Operate(c, m, i, c.pc) == e
  }

  /** It writes v to r, and does nothing else. */
  ghost predicate Gives16(c: E.Cpu, m: Mem, h: Half, ext: Option<nat>, next: Half, length: int, r: Reg, v: int) {
    Does(c, m, h, ext, next, length, E.Effect(Put(c.reg, r, v), c.hi, c.lo, m, E.Straight))
  }

  lemma Decoded8(op: nat, x: nat, f: Field, next: Half, addr: Word, base: Word)
    requires op < 32 && x < 8 && (f.Bare? ==> f.u < 0x100)
    ensures var h, e, n, d := Half8(op, x, f), Extension(f), Length(f), NAMED[x];
            var i := D.Decode(h, e, next, addr, base);
            && (op == 0x00 ==> i == D.Insn(n, D.ImmOp(D.AddiuSp, d, 0, Unsigned(f, 4))))
            && (op == 0x01 ==> i.Insn? && i.length == n && i.x.AddiuPc? && i.x.d == d && i.x.imm == Unsigned(f, 4))
            && (op == 0x04 ==> i == D.Insn(n, D.BranchOp(D.Beqz, d, 2 * Signed(f, 1))))
            && (op == 0x05 ==> i == D.Insn(n, D.BranchOp(D.Bnez, d, 2 * Signed(f, 1))))
            && (op == 0x09 ==> i == D.Insn(n, D.ImmOp(D.Addiu8, d, 0, Signed(f, 1))))
            && (op == 0x0A ==> i == D.Insn(n, D.LessOp(D.Slti, d, Unsigned(f, 1))))
            && (op == 0x0B ==> i == D.Insn(n, D.LessOp(D.Sltiu, d, Unsigned(f, 1))))
            && (op == 0x0D ==> i == D.Insn(n, D.Li(d, Plain(f))))
            && (op == 0x0E ==> i == D.Insn(n, D.Cmpi(d, Plain(f))))
            && (op == 0x12 ==> i == D.Insn(n, D.LwSp(d, Unsigned(f, 4))))
            && (op == 0x16 ==> i.Insn? && i.length == n && i.x.LwPc? && i.x.d == d && i.x.off == Unsigned(f, 4))
            && (op == 0x1A ==> i == D.Insn(n, D.SwSp(d, Unsigned(f, 4))))
  {
    hide D.Imm8, D.ImmS8, D.ImmU8, D.BranchOff, D.Xl, Half8, Unsigned, Signed, Plain, U32, D.Align4,
      D.DecodeB, D.DecodeJal, D.DecodeShift, D.DecodeRri, D.DecodeI8, D.DecodeRrr, D.DecodeRr, D.DecodeMem;
    Fields8(op, x, f);
    FieldValues(op, x, f, 1);
    FieldValues(op, x, f, 4);
    NamedIs(x);
  }

  // What operating each payload comes to, in the oracle's own terms.
  lemma OperatesSums(c: E.Cpu, m: Mem, n: int, d: Reg, s: Reg, imm: int, val: Word, pc: Word)
    ensures E.Operate(c, m, D.Insn(n, D.ImmOp(D.AddiuSp, d, s, imm)), pc) ==
            E.Effect(Put(c.reg, d, Rd(c.reg, 29) + imm), c.hi, c.lo, m, E.Straight)
    ensures E.Operate(c, m, D.Insn(n, D.ImmOp(D.Addiu8, d, s, imm)), pc) ==
            E.Effect(Put(c.reg, d, Rd(c.reg, d) + imm), c.hi, c.lo, m, E.Straight)
    ensures E.Operate(c, m, D.Insn(n, D.ImmOp(D.AddiuRri, d, s, imm)), pc) ==
            E.Effect(Put(c.reg, d, Rd(c.reg, s) + imm), c.hi, c.lo, m, E.Straight)
    ensures E.Operate(c, m, D.Insn(n, D.ImmOp(D.AdjSp, d, s, imm)), pc) ==
            E.Effect(Put(c.reg, 29, Rd(c.reg, 29) + imm), c.hi, c.lo, m, E.Straight)
    ensures E.Operate(c, m, D.Insn(n, D.Li(d, imm)), pc) == E.Effect(Put(c.reg, d, imm), c.hi, c.lo, m, E.Straight)
    ensures var base := if c.delayed.Slot? then c.delayed.from else pc;
            E.Operate(c, m, D.Insn(n, D.AddiuPc(d, imm, val)), pc) ==
            E.Effect(Put(c.reg, d, base - base % 4 + imm), c.hi, c.lo, m, E.Straight)
  {
    hide S32, U32, Rd;
    var base := if c.delayed.Slot? then c.delayed.from else pc;
    Wrapped(base - base % 4 + imm);
  }

  lemma Wrapped(x: int)
    ensures S32(U32(x)) == S32(x)
  {
  }

  /** ADDIU sp, ADDIU pc, ADDIU and LI. A PC-relative sum is from the word the PC is in, or, in a delay slot,
      the word of the jump. */
  lemma Sums(c: E.Cpu, m: Mem, x: nat, f: Field, next: Half)
    requires x < 8 && (f.Bare? ==> f.u < 0x100)
    ensures var r, e, n, base := NAMED[x], Extension(f), Length(f), if c.delayed.Slot? then c.delayed.from else c.pc;
            && Gives16(c, m, Half8(0x00, x, f), e, next, n, r, c.reg[29] + Unsigned(f, 4))
            && Gives16(c, m, Half8(0x01, x, f), e, next, n, r, base - base % 4 + Unsigned(f, 4))
            && Gives16(c, m, Half8(0x09, x, f), e, next, n, r, c.reg[r] + Signed(f, 1))
            && Gives16(c, m, Half8(0x0D, x, f), e, next, n, r, Plain(f))
  {
    hide D.Decode, E.Operate, Half8, Unsigned, Signed, Plain, Put, Extension, Length;
    var base, r, n := E.PcBase(c), NAMED[x], Length(f);
    NamedIs(x);
    Decoded8(0x00, x, f, next, c.pc, base);
    Decoded8(0x01, x, f, next, c.pc, base);
    Decoded8(0x09, x, f, next, c.pc, base);
    Decoded8(0x0D, x, f, next, c.pc, base);
    OperatesSums(c, m, n, r, 0, Unsigned(f, 4), D.Decode(Half8(0x01, x, f), Extension(f), next, c.pc, base).x.val, c.pc);
    OperatesSums(c, m, n, r, 0, Signed(f, 1), 0, c.pc);
    OperatesSums(c, m, n, r, 0, Plain(f), 0, c.pc);
  }

  // ---- Comparisons and branches ---------------------------------------------------------------

  lemma OperatesTests(c: E.Cpu, m: Mem, n: int, s: Reg, imm: int, pc: Word)
    ensures -0x8000 <= imm < 0x1_0000 ==>
              && E.Operate(c, m, D.Insn(n, D.LessOp(D.Slti, s, imm)), pc) ==
                 E.Effect(Put(c.reg, 24, if Rd(c.reg, s) < imm then 1 else 0), c.hi, c.lo, m, E.Straight)
              && E.Operate(c, m, D.Insn(n, D.LessOp(D.Sltiu, s, imm)), pc) ==
                 E.Effect(Put(c.reg, 24, if U32(Rd(c.reg, s)) < U32(imm) then 1 else 0), c.hi, c.lo, m, E.Straight)
    ensures E.Operate(c, m, D.Insn(n, D.Cmpi(s, imm)), pc) ==
            E.Effect(Put(c.reg, 24, XorW(U32(Rd(c.reg, s)), U32(imm))), c.hi, c.lo, m, E.Straight)
  {
    Small(imm);
    Small(0);
    Small(1);
    hide S32, U32, Rd, XorW;
  }

  ghost predicate GivesBits16(c: E.Cpu, m: Mem, h: Half, ext: Option<nat>, next: Half, length: int, r: Reg, a: Word, b: Word,
                              op: (bool, bool) -> bool)
  {
    exists v: Word :: Gives16(c, m, h, ext, next, length, r, v) && Bitwise(v, a, b, op)
  }

  lemma FieldBounds(f: Field)
    requires f.Bare? ==> f.u < 0x100
    ensures -0x8000 <= Unsigned(f, 1) < 0x1_0000 && 0 <= Plain(f) < 0x1_0000
  {
  }

  /** SLTI, SLTIU and CMPI leave their answer in register 24: two comparisons, and the bits that differ. */
  lemma Tests(c: E.Cpu, m: Mem, x: nat, f: Field, next: Half)
    requires x < 8 && (f.Bare? ==> f.u < 0x100)
    ensures var v, imm, e, n := c.reg[NAMED[x]], Unsigned(f, 1), Extension(f), Length(f);
            && Gives16(c, m, Half8(0x0A, x, f), e, next, n, 24, if v < imm then 1 else 0)
            && Gives16(c, m, Half8(0x0B, x, f), e, next, n, 24, if U32(v) < U32(imm) then 1 else 0)
            && GivesBits16(c, m, Half8(0x0E, x, f), e, next, n, 24, U32(v), U32(Plain(f)), (a, b) => a != b)
  {
    hide D.Decode, E.Operate, Half8, Unsigned, Plain, Put, Extension, Length, U32, XorW, Bitwise;
    var base, r, n := E.PcBase(c), NAMED[x], Length(f);
    NamedIs(x);
    FieldBounds(f);
    Decoded8(0x0A, x, f, next, c.pc, base);
    Decoded8(0x0B, x, f, next, c.pc, base);
    Decoded8(0x0E, x, f, next, c.pc, base);
    OperatesTests(c, m, n, r, Unsigned(f, 1), c.pc);
    OperatesTests(c, m, n, r, Plain(f), c.pc);
    XorIs(U32(c.reg[r]), U32(Plain(f)));
    assert Gives16(c, m, Half8(0x0E, x, f), Extension(f), next, n, 24, XorW(U32(c.reg[r]), U32(Plain(f))));
  }

  /** Taken, control goes to the offset from the next instruction, at once; otherwise on. */
  ghost predicate Branches16(c: E.Cpu, m: Mem, h: Half, ext: Option<nat>, next: Half, length: int, when: bool, offset: int) {
    Does(c, m, h, ext, next, length,
         E.Effect(c.reg, c.hi, c.lo, m, if when then E.BranchTo(U32(c.pc + length + offset), true) else E.Straight))
  }

  lemma OperatesBranches(c: E.Cpu, m: Mem, n: int, s: Reg, off: int, pc: Word)
    ensures var to, v := E.BranchTo(U32(pc + n + off), true), Rd(c.reg, s);
            && E.Operate(c, m, D.Insn(n, D.BranchOp(D.B, s, off)), pc) == E.Effect(c.reg, c.hi, c.lo, m, to)
            && E.Operate(c, m, D.Insn(n, D.BranchOp(D.Beqz, s, off)), pc) == E.Effect(c.reg, c.hi, c.lo, m, if v == 0 then to else E.Straight)
            && E.Operate(c, m, D.Insn(n, D.BranchOp(D.Bnez, s, off)), pc) == E.Effect(c.reg, c.hi, c.lo, m, if v != 0 then to else E.Straight)
            && E.Operate(c, m, D.Insn(n, D.BranchOp(D.Bteqz, s, off)), pc) ==
               E.Effect(c.reg, c.hi, c.lo, m, if c.reg[24] == 0 then to else E.Straight)
            && E.Operate(c, m, D.Insn(n, D.BranchOp(D.Btnez, s, off)), pc) ==
               E.Effect(c.reg, c.hi, c.lo, m, if c.reg[24] != 0 then to else E.Straight)
  {
    hide U32, Rd;
  }

  lemma DecodedI8(funct: nat, f: Field, next: Half, addr: Word, base: Word)
    requires funct < 4 && (f.Bare? ==> f.u < 0x100)
    ensures var i, n := D.Decode(Half8(0x0C, funct, f), Extension(f), next, addr, base), Length(f);
            && (funct == 0 ==> i == D.Insn(n, D.BranchOp(D.Bteqz, 0, 2 * Signed(f, 1))))
            && (funct == 1 ==> i == D.Insn(n, D.BranchOp(D.Btnez, 0, 2 * Signed(f, 1))))
            && (funct == 2 ==> i == D.Insn(n, D.SwRaSp(Unsigned(f, 4))))
            && (funct == 3 ==> i == D.Insn(n, D.ImmOp(D.AdjSp, 0, 0, Signed(f, 8))))
  {
    hide D.Imm8, D.ImmS8, D.BranchOff, D.Xl, Half8, Unsigned, Signed, U32, D.Align4, D.Svrs,
      D.DecodeB, D.DecodeBz, D.DecodeJal, D.DecodeShift, D.DecodeRri, D.DecodeRrr, D.DecodeRr, D.DecodeMem, D.DecodeImm, D.DecodeCond, D.DecodeWord;
    Fields8(0x0C, funct, f);
    FieldValues(0x0C, funct, f, 4);
    FieldValues(0x0C, funct, f, 8);
  }

  /** BEQZ and BNEZ. */
  lemma Conditionals(c: E.Cpu, m: Mem, x: nat, f: Field, next: Half)
    requires x < 8 && (f.Bare? ==> f.u < 0x100)
    ensures var v, off, e, n := c.reg[NAMED[x]], 2 * Signed(f, 1), Extension(f), Length(f);
            && Branches16(c, m, Half8(0x04, x, f), e, next, n, v == 0, off)
            && Branches16(c, m, Half8(0x05, x, f), e, next, n, v != 0, off)
  {
    hide D.Decode, E.Operate, Half8, Signed, Extension, Length, U32;
    NamedIs(x);
    Decoded8(0x04, x, f, next, c.pc, E.PcBase(c));
    Decoded8(0x05, x, f, next, c.pc, E.PcBase(c));
    OperatesBranches(c, m, Length(f), NAMED[x], 2 * Signed(f, 1), c.pc);
  }

  /** BTEQZ and BTNEZ, on register 24. */
  lemma TestBranches(c: E.Cpu, m: Mem, f: Field, next: Half)
    requires f.Bare? ==> f.u < 0x100
    ensures var off, e, n := 2 * Signed(f, 1), Extension(f), Length(f);
            && Branches16(c, m, Half8(0x0C, 0, f), e, next, n, c.reg[24] == 0, off)
            && Branches16(c, m, Half8(0x0C, 1, f), e, next, n, c.reg[24] != 0, off)
  {
    hide D.Decode, E.Operate, Half8, Signed, Extension, Length, U32;
    DecodedI8(0, f, next, c.pc, E.PcBase(c));
    DecodedI8(1, f, next, c.pc, E.PcBase(c));
    OperatesBranches(c, m, Length(f), 0, 2 * Signed(f, 1), c.pc);
  }

  /** ADJSP. */
  lemma Adjusts(c: E.Cpu, m: Mem, f: Field, next: Half)
    requires f.Bare? ==> f.u < 0x100
    ensures Gives16(c, m, Half8(0x0C, 3, f), Extension(f), next, Length(f), 29, c.reg[29] + Signed(f, 8))
  {
    hide D.Decode, E.Operate, Half8, Signed, Put, Extension, Length;
    DecodedI8(3, f, next, c.pc, E.PcBase(c));
    OperatesSums(c, m, Length(f), 0, 0, Signed(f, 8), 0, c.pc);
  }

  // ---- Words beside the stack pointer and the PC ------------------------------------------------

  lemma OperatesWords(c: E.Cpu, m: Mem, n: int, r: Reg, off: int, ea: Word, pc: Word)
    ensures var sp, base := U32(Rd(c.reg, 29) + off), if c.delayed.Slot? then c.delayed.from else pc;
            && E.Operate(c, m, D.Insn(n, D.LwSp(r, off)), pc) == E.Effect(Put(c.reg, r, WordAt(m, sp)), c.hi, c.lo, m, E.Straight)
            && E.Operate(c, m, D.Insn(n, D.LwPc(r, off, ea)), pc) ==
               E.Effect(Put(c.reg, r, WordAt(m, U32(base - base % 4 + off))), c.hi, c.lo, m, E.Straight)
  {
    hide S32, U32, Rd, WordAt, E.Load;
    var base := if c.delayed.Slot? then c.delayed.from else pc;
    LoadsAre(m, U32(Rd(c.reg, 29) + off));
    LoadsAre(m, U32(base - base % 4 + off));
  }

  lemma OperatesStores(c: E.Cpu, m: Mem, n: int, r: Reg, off: int, pc: Word)
    ensures var sp := U32(Rd(c.reg, 29) + off);
            && E.Operate(c, m, D.Insn(n, D.SwSp(r, off)), pc) ==
               E.Effect(c.reg, c.hi, c.lo, Write32(m, sp, U32(Rd(c.reg, r))), E.Straight)
            && E.Operate(c, m, D.Insn(n, D.SwRaSp(off)), pc) ==
               E.Effect(c.reg, c.hi, c.lo, Write32(m, sp, U32(Rd(c.reg, 31))), E.Straight)
  {
    hide S32, U32, Rd, Write32;
  }

  /** It stores the low n bytes of v at a, and does nothing else. */
  ghost predicate Stores16(c: E.Cpu, m: Mem, h: Half, ext: Option<nat>, next: Half, length: int, a: Word, n: nat, v: Word) {
    exists m': Mem :: Does(c, m, h, ext, next, length, E.Effect(c.reg, c.hi, c.lo, m', E.Straight)) && Spilled(m, m', a, n, v)
  }

  /** LW and SW beside the stack pointer, SW of ra there, and LW beside the PC. */
  lemma StackWords(c: E.Cpu, m: Mem, x: nat, f: Field, next: Half)
    requires x < 8 && (f.Bare? ==> f.u < 0x100)
    ensures var r, e, n, base := NAMED[x], Extension(f), Length(f), if c.delayed.Slot? then c.delayed.from else c.pc;
            var a := U32(c.reg[29] + Unsigned(f, 4));
            && Gives16(c, m, Half8(0x12, x, f), e, next, n, r, WordAt(m, a))
            && Gives16(c, m, Half8(0x16, x, f), e, next, n, r, WordAt(m, U32(base - base % 4 + Unsigned(f, 4))))
            && Stores16(c, m, Half8(0x1A, x, f), e, next, n, a, 4, U32(c.reg[r]))
            && Stores16(c, m, Half8(0x0C, 2, f), e, next, n, a, 4, U32(c.reg[31]))
  {
    hide D.Decode, E.Operate, Half8, Unsigned, Put, Extension, Length, U32, WordAt, Write32, Spilled;
    var base, r, n, off := E.PcBase(c), NAMED[x], Length(f), Unsigned(f, 4);
    var a := U32(c.reg[29] + off);
    NamedIs(x);
    Decoded8(0x12, x, f, next, c.pc, base);
    Decoded8(0x16, x, f, next, c.pc, base);
    Decoded8(0x1A, x, f, next, c.pc, base);
    DecodedI8(2, f, next, c.pc, base);
    OperatesWords(c, m, n, r, off, D.Decode(Half8(0x16, x, f), Extension(f), next, c.pc, base).x.ea, c.pc);
    OperatesStores(c, m, n, r, off, c.pc);
    SwSpills(m, a, U32(c.reg[r]));
    SwSpills(m, a, U32(c.reg[31]));
    assert Does(c, m, Half8(0x1A, x, f), Extension(f), next, n, E.Effect(c.reg, c.hi, c.lo, Write32(m, a, U32(c.reg[r])), E.Straight));
    assert Does(c, m, Half8(0x0C, 2, f), Extension(f), next, n, E.Effect(c.reg, c.hi, c.lo, Write32(m, a, U32(c.reg[31])), E.Straight));
  }

  // ---- Loads and stores -------------------------------------------------------------------------

  lemma DecodedMem(op: nat, x: nat, y: nat, f: Field, next: Half, addr: Word, base: Word)
    requires op < 32 && x < 8 && y < 8 && (f.Bare? ==> f.u < 0x20)
    ensures var i, n, r, b := D.Decode(Half5(op, x, y, f), Extension(f), next, addr, base), Length(f), NAMED[y], NAMED[x];
            && (op == 0x10 ==> i == D.Insn(n, D.LoadOp(D.Lb, r, b, Unsigned(f, 1))))
            && (op == 0x11 ==> i == D.Insn(n, D.LoadOp(D.Lh, r, b, Unsigned(f, 2))))
            && (op == 0x13 ==> i == D.Insn(n, D.LoadOp(D.Lw, r, b, Unsigned(f, 4))))
            && (op == 0x14 ==> i == D.Insn(n, D.LoadOp(D.Lbu, r, b, Unsigned(f, 1))))
            && (op == 0x15 ==> i == D.Insn(n, D.LoadOp(D.Lhu, r, b, Unsigned(f, 2))))
            && (op == 0x18 ==> i == D.Insn(n, D.StoreOp(D.Sb, r, b, Unsigned(f, 1))))
            && (op == 0x19 ==> i == D.Insn(n, D.StoreOp(D.Sh, r, b, Unsigned(f, 2))))
            && (op == 0x1B ==> i == D.Insn(n, D.StoreOp(D.Sw, r, b, Unsigned(f, 4))))
  {
    Fields5(op, x, y, f);
    if f.Wide? { SignsAgree(f.v); }
    NamedIs(x);
    NamedIs(y);
    hide D.Sx, D.ExtImm16, D.Xl, Half5, U32, D.Align4, Offset,
      D.DecodeB, D.DecodeBz, D.DecodeJal, D.DecodeShift, D.DecodeRri, D.DecodeRrr, D.DecodeRr, D.DecodeI8, D.DecodeImm, D.DecodeCond, D.DecodeWord;
  }

  lemma OperatesMem(c: E.Cpu, m: Mem, n: int, r: Reg, b: Reg, off: int, pc: Word)
    ensures var a, v := U32(Rd(c.reg, b) + off), U32(Rd(c.reg, r));
            && (forall k :: E.Operate(c, m, D.Insn(n, D.LoadOp(k, r, b, off)), pc) ==
                            E.Effect(Put(c.reg, r, E.Load(k, m, a)), c.hi, c.lo, m, E.Straight))
            && E.Operate(c, m, D.Insn(n, D.StoreOp(D.Sb, r, b, off)), pc) ==
               E.Effect(c.reg, c.hi, c.lo, Write8(m, a, v % 0x100), E.Straight)
            && E.Operate(c, m, D.Insn(n, D.StoreOp(D.Sh, r, b, off)), pc) ==
               E.Effect(c.reg, c.hi, c.lo, Write16(m, a, v % 0x1_0000), E.Straight)
            && E.Operate(c, m, D.Insn(n, D.StoreOp(D.Sw, r, b, off)), pc) == E.Effect(c.reg, c.hi, c.lo, Write32(m, a, v), E.Straight)
  {
    var a := U32(Rd(c.reg, b) + off);
    SameWord(Rd(c.reg, r));
    forall k ensures S32(E.Load(k, m, a)) == E.Load(k, m, a) { Same(E.Load(k, m, a)); }
    hide S32, U32, Rd, E.Load, Write8, Write16, Write32;
  }

  /** LB, LBU, LH, LHU and LW. */
  lemma Loads16(c: E.Cpu, m: Mem, x: nat, y: nat, f: Field, next: Half)
    requires x < 8 && y < 8 && (f.Bare? ==> f.u < 0x20)
    ensures var r, b, e, n := NAMED[y], c.reg[NAMED[x]], Extension(f), Length(f);
            var b8, b16, b32 := U32(b + Unsigned(f, 1)), U32(b + Unsigned(f, 2)), U32(b + Unsigned(f, 4));
            var v, w := Read8(m, b8), HalfAt(m, b16);
            && Gives16(c, m, Half5(0x10, x, y, f), e, next, n, r, if v < 0x80 then v else v - 0x100)
            && Gives16(c, m, Half5(0x14, x, y, f), e, next, n, r, v)
            && Gives16(c, m, Half5(0x11, x, y, f), e, next, n, r, if w < 0x8000 then w else w - 0x1_0000)
            && Gives16(c, m, Half5(0x15, x, y, f), e, next, n, r, w)
            && Gives16(c, m, Half5(0x13, x, y, f), e, next, n, r, WordAt(m, b32))
  {
    hide D.Decode, E.Operate, Half5, Unsigned, Extension, Length, U32, WordAt, HalfAt, Read8, E.Load;
    var base, r, b, n := E.PcBase(c), NAMED[y], NAMED[x], Length(f);
    NamedIs(x);
    NamedIs(y);
    LoadsAre(m, U32(c.reg[b] + Unsigned(f, 1)));
    LoadsAre(m, U32(c.reg[b] + Unsigned(f, 2)));
    LoadsAre(m, U32(c.reg[b] + Unsigned(f, 4)));
    Wrapped(WordAt(m, U32(c.reg[b] + Unsigned(f, 4))));
    Same(S32(WordAt(m, U32(c.reg[b] + Unsigned(f, 4)))));
    OperatesMem(c, m, n, r, b, Unsigned(f, 1), c.pc);
    OperatesMem(c, m, n, r, b, Unsigned(f, 2), c.pc);
    OperatesMem(c, m, n, r, b, Unsigned(f, 4), c.pc);
    DecodedMem(0x10, x, y, f, next, c.pc, base);
    DecodedMem(0x14, x, y, f, next, c.pc, base);
    DecodedMem(0x11, x, y, f, next, c.pc, base);
    DecodedMem(0x15, x, y, f, next, c.pc, base);
    DecodedMem(0x13, x, y, f, next, c.pc, base);
    hide S32;
  }

  /** SB, SH and SW. */
  lemma Stores16Bytes(c: E.Cpu, m: Mem, x: nat, y: nat, f: Field, next: Half)
    requires x < 8 && y < 8 && (f.Bare? ==> f.u < 0x20)
    ensures var v, b, e, n := U32(c.reg[NAMED[y]]), c.reg[NAMED[x]], Extension(f), Length(f);
            && Stores16(c, m, Half5(0x18, x, y, f), e, next, n, U32(b + Unsigned(f, 1)), 1, v)
            && Stores16(c, m, Half5(0x19, x, y, f), e, next, n, U32(b + Unsigned(f, 2)), 2, v)
            && Stores16(c, m, Half5(0x1B, x, y, f), e, next, n, U32(b + Unsigned(f, 4)), 4, v)
  {
    hide D.Decode, E.Operate, Half5, Unsigned, Extension, Length, U32, Write8, Write16, Write32, Spilled, E.Load;
    var base, r, b, n, e := E.PcBase(c), NAMED[y], NAMED[x], Length(f), Extension(f);
    var v, a1, a2, a4 := U32(c.reg[r]), U32(c.reg[b] + Unsigned(f, 1)), U32(c.reg[b] + Unsigned(f, 2)), U32(c.reg[b] + Unsigned(f, 4));
    NamedIs(x);
    NamedIs(y);
    OperatesMem(c, m, n, r, b, Unsigned(f, 1), c.pc);
    OperatesMem(c, m, n, r, b, Unsigned(f, 2), c.pc);
    OperatesMem(c, m, n, r, b, Unsigned(f, 4), c.pc);
    DecodedMem(0x18, x, y, f, next, c.pc, base);
    DecodedMem(0x19, x, y, f, next, c.pc, base);
    DecodedMem(0x1B, x, y, f, next, c.pc, base);
    ByteSpills(m, a1, v);
    HalfSpills(m, a2, v);
    SwSpills(m, a4, v);
    assert Does(c, m, Half5(0x18, x, y, f), e, next, n, E.Effect(c.reg, c.hi, c.lo, Write8(m, a1, v % 0x100), E.Straight));
    assert Does(c, m, Half5(0x19, x, y, f), e, next, n, E.Effect(c.reg, c.hi, c.lo, Write16(m, a2, v % 0x1_0000), E.Straight));
    assert Does(c, m, Half5(0x1B, x, y, f), e, next, n, E.Effect(c.reg, c.hi, c.lo, Write32(m, a4, v), E.Straight));
  }

  // ---- Between registers ------------------------------------------------------------------------

  /** opcode 0x1D: two registers and a function. */
  function Rr(x: nat, y: nat, funct: nat): Half
    requires x < 8 && y < 8 && funct < 32
  {
    Half5(0x1D, x, y, Bare(funct))
  }

  lemma DecodedRr(x: nat, y: nat, funct: nat, next: Half, addr: Word, base: Word)
    requires x < 8 && y < 8 && funct < 32
    ensures var i, a, b := D.Decode(Rr(x, y, funct), None, next, addr, base), NAMED[x], NAMED[y];
            && (funct == 0x02 ==> i == D.Insn(2, D.CondOp(D.Slt, a, b)))
            && (funct == 0x03 ==> i == D.Insn(2, D.CondOp(D.Sltu, a, b)))
            && (funct == 0x04 ==> i == D.Insn(2, D.ShiftVOp(D.Sllv, b, a)))
            && (funct == 0x06 ==> i == D.Insn(2, D.ShiftVOp(D.Srlv, b, a)))
            && (funct == 0x07 ==> i == D.Insn(2, D.ShiftVOp(D.Srav, b, a)))
            && (funct == 0x0A ==> i == D.Insn(2, D.CondOp(D.Cmp, a, b)))
            && (funct == 0x0B ==> i == D.Insn(2, D.LogicOp(D.Neg, a, b)))
            && (funct == 0x0C ==> i == D.Insn(2, D.LogicOp(D.And, a, b)))
            && (funct == 0x0D ==> i == D.Insn(2, D.LogicOp(D.Or, a, b)))
            && (funct == 0x0E ==> i == D.Insn(2, D.LogicOp(D.Xor, a, b)))
            && (funct == 0x0F ==> i == D.Insn(2, D.LogicOp(D.Not, a, b)))
            && (funct == 0x10 && y == 0 ==> i == D.Insn(2, D.Mfhi(a)))
            && (funct == 0x12 && y == 0 ==> i == D.Insn(2, D.Mflo(a)))
            && (funct == 0x11 && y == 0 ==> i == D.Insn(2, D.CnvtOp(D.Zeb, a)))
            && (funct == 0x11 && y == 1 ==> i == D.Insn(2, D.CnvtOp(D.Zeh, a)))
            && (funct == 0x11 && y == 4 ==> i == D.Insn(2, D.CnvtOp(D.Seb, a)))
            && (funct == 0x11 && y == 5 ==> i == D.Insn(2, D.CnvtOp(D.Seh, a)))
            && (funct == 0x18 ==> i == D.Insn(2, D.Mult(true, a, b)))
            && (funct == 0x19 ==> i == D.Insn(2, D.Mult(false, a, b)))
            && (funct == 0x1A ==> i == D.Insn(2, D.Div(true, a, b)))
            && (funct == 0x1B ==> i == D.Insn(2, D.Div(false, a, b)))
            && (funct == 0x00 && y == 0 ==> i == D.Insn(2, D.JumpOp(D.Jr, a)))
            && (funct == 0x00 && y == 1 && x == 0 ==> i == D.Insn(2, D.JumpOp(D.Jr, 31)))
            && (funct == 0x00 && y == 2 ==> i == D.Insn(2, D.JumpOp(D.Jalr, a)))
            && (funct == 0x00 && y == 4 ==> i == D.Insn(2, D.JumpOp(D.Jrc, a)))
            && (funct == 0x00 && y == 5 && x == 0 ==> i == D.Insn(2, D.JumpOp(D.Jrc, 31)))
            && (funct == 0x00 && y == 6 ==> i == D.Insn(2, D.JumpOp(D.Jalrc, a)))
  {
    Fields5(0x1D, x, y, Bare(funct));
    NamedIs(x);
    NamedIs(y);
    hide D.Xl, Half5, U32, D.Align4, D.DecodeMem,
      D.DecodeB, D.DecodeBz, D.DecodeJal, D.DecodeShift, D.DecodeRri, D.DecodeRrr, D.DecodeI8, D.DecodeImm, D.DecodeCond, D.DecodeWord;
  }

  lemma OperatesShifts(c: E.Cpu, m: Mem, n: int, d: Reg, s: Reg, sa: nat, pc: Word)
    ensures var v, shift := Rd(c.reg, s), sa % 32;
            && E.Operate(c, m, D.Insn(n, D.ShiftOp(D.Sll, d, s, sa)), pc) == E.Effect(Put(c.reg, d, v * Pow2(shift)), c.hi, c.lo, m, E.Straight)
            && E.Operate(c, m, D.Insn(n, D.ShiftOp(D.Srl, d, s, sa)), pc) == E.Effect(Put(c.reg, d, U32(v) / Pow2(shift)), c.hi, c.lo, m, E.Straight)
            && E.Operate(c, m, D.Insn(n, D.ShiftOp(D.Sra, d, s, sa)), pc) == E.Effect(Put(c.reg, d, v / Pow2(shift)), c.hi, c.lo, m, E.Straight)
    ensures var v, shift := Rd(c.reg, d), U32(Rd(c.reg, s)) % 32;
            && E.Operate(c, m, D.Insn(n, D.ShiftVOp(D.Sllv, d, s)), pc) == E.Effect(Put(c.reg, d, v * Pow2(shift)), c.hi, c.lo, m, E.Straight)
            && E.Operate(c, m, D.Insn(n, D.ShiftVOp(D.Srlv, d, s)), pc) == E.Effect(Put(c.reg, d, U32(v) / Pow2(shift)), c.hi, c.lo, m, E.Straight)
            && E.Operate(c, m, D.Insn(n, D.ShiftVOp(D.Srav, d, s)), pc) == E.Effect(Put(c.reg, d, v / Pow2(shift)), c.hi, c.lo, m, E.Straight)
  {
    hide S32, U32, Rd, Pow2;
    SameShifts(Rd(c.reg, s), sa);
    SameShiftsV(Rd(c.reg, d), Rd(c.reg, s));
  }

  lemma SameShifts(v: Int32, sa: nat)
    ensures S32(E.Shift(D.Sll, v, sa)) == S32(v * Pow2(sa % 32)) == E.Shift(D.Sll, v, sa)
    ensures S32(E.Shift(D.Srl, v, sa)) == S32(U32(v) / Pow2(sa % 32)) == E.Shift(D.Srl, v, sa)
    ensures S32(E.Shift(D.Sra, v, sa)) == S32(v / Pow2(sa % 32)) == E.Shift(D.Sra, v, sa)
  {
    Same(S32(v * Pow2(sa % 32)));
    Same(S32(U32(v) / Pow2(sa % 32)));
    Same(S32(v / Pow2(sa % 32)));
    hide S32, U32, Pow2;
  }

  lemma SameShiftsV(v: Int32, s: Int32)
    ensures var sh := U32(s) % 32;
            && S32(E.ShiftV(D.Sllv, v, s)) == S32(v * Pow2(sh)) == E.ShiftV(D.Sllv, v, s)
            && S32(E.ShiftV(D.Srlv, v, s)) == S32(U32(v) / Pow2(sh)) == E.ShiftV(D.Srlv, v, s)
            && S32(E.ShiftV(D.Srav, v, s)) == S32(v / Pow2(sh)) == E.ShiftV(D.Srav, v, s)
  {
    var sh := U32(s) % 32;
    Same(S32(v * Pow2(sh)));
    Same(S32(U32(v) / Pow2(sh)));
    Same(S32(v / Pow2(sh)));
    hide S32, U32, Pow2;
  }

  lemma DecodedShift(x: nat, y: nat, sa: nat, kind: nat, next: Half, addr: Word, base: Word)
    requires x < 8 && y < 8 && kind < 4 && kind != 1
    ensures var k := if kind == 0 then D.Sll else if kind == 2 then D.Srl else D.Sra;
            && (sa < 8 ==> D.Decode(Half5(0x06, x, y, Bare(4 * sa + kind)), None, next, addr, base) ==
                           D.Insn(2, D.ShiftOp(k, NAMED[x], NAMED[y], if sa == 0 then 8 else sa)))
            && (sa < 32 ==> D.Decode(Half5(0x06, x, y, Bare(kind)), Some(sa * 0x40), next, addr, base) ==
                            D.Insn(4, D.ShiftOp(k, NAMED[x], NAMED[y], sa)))
  {
    NamedIs(x);
    NamedIs(y);
    if sa < 8 {
      Fields5(0x06, x, y, Bare(4 * sa + kind));
      ShiftField(Half5(0x06, x, y, Bare(4 * sa + kind)), sa, kind);
    }
    Fields5(0x06, x, y, Bare(kind));
    ShiftField(Half5(0x06, x, y, Bare(kind)), 0, kind);
    if sa < 32 { ShiftExtension(sa); }
    hide D.Xl, Half5, U32, D.Align4, D.DecodeMem,
      D.DecodeB, D.DecodeBz, D.DecodeJal, D.DecodeRr, D.DecodeRri, D.DecodeRrr, D.DecodeI8, D.DecodeImm, D.DecodeCond, D.DecodeWord;
  }

  lemma ShiftField(h: nat, sa: nat, kind: nat)
    requires h % 0x20 == 4 * sa + kind && sa < 8 && kind < 4
    ensures h / 4 % 8 == sa && h % 4 == kind
  {
    var q := h / 0x20;
    assert h == 4 * (8 * q + sa) + kind;
    Over(h, 4, 8 * q + sa, kind);
  }

  lemma ShiftExtension(sa: nat)
    requires sa < 32
    ensures var e := sa * 0x40; e % 0x20 == 0 && e / 0x20 % 2 == 0 && e / 0x40 % 0x20 == sa
  {
  }

  /** The shifts, by the amount in the instruction, eight standing for zero there but not in an extended
      one, and by the low five bits of a register. */
  lemma Shifts16(c: E.Cpu, m: Mem, x: nat, y: nat, sa: nat, next: Half)
    requires x < 8 && y < 8
    ensures var r, v, n := NAMED[x], c.reg[NAMED[y]], Pow2(if sa == 0 then 8 else sa);
            sa < 8 ==>
              && Gives16(c, m, Half5(0x06, x, y, Bare(4 * sa)), None, next, 2, r, v * n)
              && Gives16(c, m, Half5(0x06, x, y, Bare(4 * sa + 2)), None, next, 2, r, U32(v) / n)
              && Gives16(c, m, Half5(0x06, x, y, Bare(4 * sa + 3)), None, next, 2, r, v / n)
    ensures var r, v, n := NAMED[x], c.reg[NAMED[y]], Pow2(sa);
            sa < 32 ==>
              && Gives16(c, m, Half5(0x06, x, y, Bare(0)), Some(sa * 0x40), next, 4, r, v * n)
              && Gives16(c, m, Half5(0x06, x, y, Bare(2)), Some(sa * 0x40), next, 4, r, U32(v) / n)
              && Gives16(c, m, Half5(0x06, x, y, Bare(3)), Some(sa * 0x40), next, 4, r, v / n)
  {
    hide D.Decode, E.Operate, Half5, Put, U32, Pow2;
    var base := E.PcBase(c);
    NamedIs(x);
    NamedIs(y);
    DecodedShift(x, y, sa, 0, next, c.pc, base);
    DecodedShift(x, y, sa, 2, next, c.pc, base);
    DecodedShift(x, y, sa, 3, next, c.pc, base);
    if sa < 32 { assert sa % 32 == sa; }
    OperatesShifts(c, m, 2, NAMED[x], NAMED[y], if sa == 0 then 8 else sa, c.pc);
    OperatesShifts(c, m, 4, NAMED[x], NAMED[y], sa, c.pc);
  }

  lemma VariableShifts(c: E.Cpu, m: Mem, x: nat, y: nat, next: Half)
    requires x < 8 && y < 8
    ensures var r, v, n := NAMED[y], c.reg[NAMED[y]], Pow2(U32(c.reg[NAMED[x]]) % 32);
            && Gives16(c, m, Rr(x, y, 0x04), None, next, 2, r, v * n)
            && Gives16(c, m, Rr(x, y, 0x06), None, next, 2, r, U32(v) / n)
            && Gives16(c, m, Rr(x, y, 0x07), None, next, 2, r, v / n)
  {
    hide D.Decode, E.Operate, Half5, Put, U32, Pow2;
    NamedIs(x);
    NamedIs(y);
    DecodedRr(x, y, 0x04, next, c.pc, E.PcBase(c));
    DecodedRr(x, y, 0x06, next, c.pc, E.PcBase(c));
    DecodedRr(x, y, 0x07, next, c.pc, E.PcBase(c));
    OperatesShifts(c, m, 2, NAMED[y], NAMED[x], 0, c.pc);
  }

  lemma OperatesLogic(c: E.Cpu, m: Mem, n: int, d: Reg, s: Reg, pc: Word)
    ensures var a, b, v: int := U32(Rd(c.reg, d)), U32(Rd(c.reg, s)), Rd(c.reg, s);
            && E.Operate(c, m, D.Insn(n, D.LogicOp(D.And, d, s)), pc) == E.Effect(Put(c.reg, d, AndW(a, b)), c.hi, c.lo, m, E.Straight)
            && E.Operate(c, m, D.Insn(n, D.LogicOp(D.Or, d, s)), pc) == E.Effect(Put(c.reg, d, OrW(a, b)), c.hi, c.lo, m, E.Straight)
            && E.Operate(c, m, D.Insn(n, D.LogicOp(D.Xor, d, s)), pc) == E.Effect(Put(c.reg, d, XorW(a, b)), c.hi, c.lo, m, E.Straight)
            && E.Operate(c, m, D.Insn(n, D.LogicOp(D.Not, d, s)), pc) ==
               E.Effect(Put(c.reg, d, 0xFFFF_FFFF - b), c.hi, c.lo, m, E.Straight)
            && E.Operate(c, m, D.Insn(n, D.LogicOp(D.Neg, d, s)), pc) == E.Effect(Put(c.reg, d, 0 - v), c.hi, c.lo, m, E.Straight)
            && E.Operate(c, m, D.Insn(n, D.CondOp(D.Cmp, d, s)), pc) == E.Effect(Put(c.reg, 24, XorW(a, b)), c.hi, c.lo, m, E.Straight)
  {
    Flipped(Rd(c.reg, s));
    hide S32, U32, Rd, AndW, OrW, XorW;
  }

  lemma Flipped(v: Int32)
    ensures S32(-1 - v) == S32(0xFFFF_FFFF - U32(v))
  {
  }

  /** AND, OR and XOR, and CMP's difference of bits in register 24. */
  lemma Bits16(c: E.Cpu, m: Mem, x: nat, y: nat, next: Half)
    requires x < 8 && y < 8
    ensures var r, a, b := NAMED[x], U32(c.reg[NAMED[x]]), U32(c.reg[NAMED[y]]);
            && GivesBits16(c, m, Rr(x, y, 0x0C), None, next, 2, r, a, b, (p, q) => p && q)
            && GivesBits16(c, m, Rr(x, y, 0x0D), None, next, 2, r, a, b, (p, q) => p || q)
            && GivesBits16(c, m, Rr(x, y, 0x0E), None, next, 2, r, a, b, (p, q) => p != q)
            && GivesBits16(c, m, Rr(x, y, 0x0A), None, next, 2, 24, a, b, (p, q) => p != q)
  {
    hide D.Decode, E.Operate, Rr, Put, U32, AndW, OrW, XorW, Bitwise;
    var base, r, a, b := E.PcBase(c), NAMED[x], U32(c.reg[NAMED[x]]), U32(c.reg[NAMED[y]]);
    NamedIs(x);
    NamedIs(y);
    DecodedRr(x, y, 0x0A, next, c.pc, base);
    DecodedRr(x, y, 0x0C, next, c.pc, base);
    DecodedRr(x, y, 0x0D, next, c.pc, base);
    DecodedRr(x, y, 0x0E, next, c.pc, base);
    OperatesLogic(c, m, 2, NAMED[x], NAMED[y], c.pc);
    AndIs(a, b);
    OrIs(a, b);
    XorIs(a, b);
    assert Gives16(c, m, Rr(x, y, 0x0C), None, next, 2, r, AndW(a, b));
    assert Gives16(c, m, Rr(x, y, 0x0D), None, next, 2, r, OrW(a, b));
    assert Gives16(c, m, Rr(x, y, 0x0E), None, next, 2, r, XorW(a, b));
    assert Gives16(c, m, Rr(x, y, 0x0A), None, next, 2, 24, XorW(a, b));
  }

  /** NOT and NEG. */
  lemma Complements(c: E.Cpu, m: Mem, x: nat, y: nat, next: Half)
    requires x < 8 && y < 8
    ensures var r, v: int := NAMED[x], c.reg[NAMED[y]];
            && Gives16(c, m, Rr(x, y, 0x0F), None, next, 2, r, 0xFFFF_FFFF - U32(v))
            && Gives16(c, m, Rr(x, y, 0x0B), None, next, 2, r, 0 - v)
  {
    hide D.Decode, E.Operate, Rr, Put, U32;
    NamedIs(x);
    NamedIs(y);
    DecodedRr(x, y, 0x0B, next, c.pc, E.PcBase(c));
    DecodedRr(x, y, 0x0F, next, c.pc, E.PcBase(c));
    OperatesLogic(c, m, 2, NAMED[x], NAMED[y], c.pc);
  }

  lemma OperatesRegisters(c: E.Cpu, m: Mem, n: int, d: Reg, s: Reg, t: Reg, pc: Word)
    ensures var a: int, b: int := Rd(c.reg, s), Rd(c.reg, t);
            && E.Operate(c, m, D.Insn(n, D.RegOp(D.Move, d, s, t)), pc) == E.Effect(Put(c.reg, d, a), c.hi, c.lo, m, E.Straight)
            && E.Operate(c, m, D.Insn(n, D.RegOp(D.Addu, d, s, t)), pc) == E.Effect(Put(c.reg, d, a + b), c.hi, c.lo, m, E.Straight)
            && E.Operate(c, m, D.Insn(n, D.RegOp(D.Subu, d, s, t)), pc) == E.Effect(Put(c.reg, d, a - b), c.hi, c.lo, m, E.Straight)
            && E.Operate(c, m, D.Insn(n, D.CondOp(D.Slt, s, t)), pc) ==
               E.Effect(Put(c.reg, 24, if a < b then 1 else 0), c.hi, c.lo, m, E.Straight)
            && E.Operate(c, m, D.Insn(n, D.CondOp(D.Sltu, s, t)), pc) ==
               E.Effect(Put(c.reg, 24, if U32(a) < U32(b) then 1 else 0), c.hi, c.lo, m, E.Straight)
  {
    Same(Rd(c.reg, s));
    Same(0);
    Same(1);
    hide S32, U32, Rd;
  }

  lemma DecodedRrr(x: nat, y: nat, z: nat, next: Half, addr: Word, base: Word)
    requires x < 8 && y < 8 && z < 8
    ensures D.Decode(Half5(0x1C, x, y, Bare(4 * z + 1)), None, next, addr, base) == D.Insn(2, D.RegOp(D.Addu, NAMED[z], NAMED[x], NAMED[y]))
    ensures D.Decode(Half5(0x1C, x, y, Bare(4 * z + 3)), None, next, addr, base) == D.Insn(2, D.RegOp(D.Subu, NAMED[z], NAMED[x], NAMED[y]))
  {
    NamedIs(x);
    NamedIs(y);
    NamedIs(z);
    Fields5(0x1C, x, y, Bare(4 * z + 1));
    Fields5(0x1C, x, y, Bare(4 * z + 3));
    ShiftField(Half5(0x1C, x, y, Bare(4 * z + 1)), z, 1);
    ShiftField(Half5(0x1C, x, y, Bare(4 * z + 3)), z, 3);
    hide D.Xl, Half5, U32, D.Align4, D.DecodeMem,
      D.DecodeB, D.DecodeBz, D.DecodeJal, D.DecodeRr, D.DecodeRri, D.DecodeShift, D.DecodeI8, D.DecodeImm, D.DecodeCond, D.DecodeWord;
  }

  /** ADDU and SUBU of three registers, and the comparisons of two. */
  lemma Arithmetic16(c: E.Cpu, m: Mem, x: nat, y: nat, z: nat, next: Half)
    requires x < 8 && y < 8 && z < 8
    ensures var a: int, b: int := c.reg[NAMED[x]], c.reg[NAMED[y]];
            && Gives16(c, m, Half5(0x1C, x, y, Bare(4 * z + 1)), None, next, 2, NAMED[z], a + b)
            && Gives16(c, m, Half5(0x1C, x, y, Bare(4 * z + 3)), None, next, 2, NAMED[z], a - b)
            && Gives16(c, m, Rr(x, y, 0x02), None, next, 2, 24, if a < b then 1 else 0)
            && Gives16(c, m, Rr(x, y, 0x03), None, next, 2, 24, if U32(a) < U32(b) then 1 else 0)
  {
    hide D.Decode, E.Operate, Half5, Put, U32;
    NamedIs(x);
    NamedIs(y);
    DecodedRrr(x, y, z, next, c.pc, E.PcBase(c));
    DecodedRr(x, y, 0x02, next, c.pc, E.PcBase(c));
    DecodedRr(x, y, 0x03, next, c.pc, E.PcBase(c));
    OperatesRegisters(c, m, 2, NAMED[z], NAMED[x], NAMED[y], c.pc);
  }

  // MOV32R takes its register number in two pieces, low bits first.
  lemma DecodedMoveTo(r: Reg, y: nat, next: Half, addr: Word, base: Word)
    requires y < 8
    ensures D.Decode(Half8(0x0C, 5, Bare(0x20 * (r % 8) + 8 * (r / 8) + y)), None, next, addr, base) ==
            if r == 0 && y == 0 then D.Insn(2, D.RegOp(D.Move, 0, 0, 0)) else D.Insn(2, D.RegOp(D.Move, r, NAMED[y], 0))
  {
    hide D.Xl, Half8, U32, D.Align4, D.DecodeMem, D.Svrs,
      D.DecodeB, D.DecodeBz, D.DecodeJal, D.DecodeRr, D.DecodeRri, D.DecodeShift, D.DecodeRrr, D.DecodeImm, D.DecodeCond, D.DecodeWord;
    NamedIs(y);
    var low, high := r % 8, r / 8;
    Fields8(0x0C, 5, Bare(0x20 * low + 8 * high + y));
    MoveFields(Half8(0x0C, 5, Bare(0x20 * low + 8 * high + y)), low, high, y);
  }

  lemma DecodedMoveFrom(r: Reg, y: nat, next: Half, addr: Word, base: Word)
    requires y < 8
    ensures D.Decode(Half8(0x0C, 7, Bare(0x20 * y + r)), None, next, addr, base) == D.Insn(2, D.RegOp(D.Move, NAMED[y], r, 0))
  {
    hide D.Xl, Half8, U32, D.Align4, D.DecodeMem, D.Svrs,
      D.DecodeB, D.DecodeBz, D.DecodeJal, D.DecodeRr, D.DecodeRri, D.DecodeShift, D.DecodeRrr, D.DecodeImm, D.DecodeCond, D.DecodeWord;
    NamedIs(y);
    Fields8(0x0C, 7, Bare(0x20 * y + r));
    NamedFields(Half8(0x0C, 7, Bare(0x20 * y + r)), y, r);
  }

  lemma MoveFields(h: nat, low: nat, high: nat, y: nat)
    requires low < 8 && high < 4 && y < 8 && h % 0x100 == 0x20 * low + 8 * high + y
    ensures h / 8 % 0x20 % 4 * 8 + h / 8 % 0x20 / 4 == 8 * high + low && h % 8 == y
  {
    var q := h / 0x100;
    Over(h, 8, 0x20 * q + 4 * low + high, y);
    Over(0x20 * q + 4 * low + high, 0x20, q, 4 * low + high);
    Over(4 * low + high, 4, low, high);
  }

  lemma NamedFields(h: nat, y: nat, r: Reg)
    requires y < 8 && h % 0x100 == 0x20 * y + r
    ensures h / 0x20 % 8 == y && h % 0x20 == r
  {
    var q := h / 0x100;
    Over(h, 0x20, 8 * q + y, r);
    Over(8 * q + y, 8, q, y);
  }

  /** The moves between a named register and any other, and from HI and LO. */
  lemma Moves(c: E.Cpu, m: Mem, r: Reg, y: nat, next: Half)
    requires y < 8
    ensures Gives16(c, m, Half8(0x0C, 5, Bare(0x20 * (r % 8) + 8 * (r / 8) + y)), None, next, 2, r, c.reg[NAMED[y]])
    ensures Gives16(c, m, Half8(0x0C, 7, Bare(0x20 * y + r)), None, next, 2, NAMED[y], Rd(c.reg, r))
    ensures Gives16(c, m, Rr(y, 0, 0x10), None, next, 2, NAMED[y], c.hi)
    ensures Gives16(c, m, Rr(y, 0, 0x12), None, next, 2, NAMED[y], c.lo)
  {
    hide D.Decode, E.Operate, Half8, Half5;
    NamedIs(y);
    DecodedMoveTo(r, y, next, c.pc, E.PcBase(c));
    DecodedMoveFrom(r, y, next, c.pc, E.PcBase(c));
    DecodedRr(y, 0, 0x10, next, c.pc, E.PcBase(c));
    DecodedRr(y, 0, 0x12, next, c.pc, E.PcBase(c));
    OperatesRegisters(c, m, 2, r, NAMED[y], 0, c.pc);
    OperatesRegisters(c, m, 2, 0, 0, 0, c.pc);
    OperatesRegisters(c, m, 2, NAMED[y], r, 0, c.pc);
    OperatesPair(c, m, 2, NAMED[y], c.pc);
  }

  lemma OperatesPair(c: E.Cpu, m: Mem, n: int, d: Reg, pc: Word)
    ensures E.Operate(c, m, D.Insn(n, D.Mfhi(d)), pc) == E.Effect(Put(c.reg, d, c.hi), c.hi, c.lo, m, E.Straight)
    ensures E.Operate(c, m, D.Insn(n, D.Mflo(d)), pc) == E.Effect(Put(c.reg, d, c.lo), c.hi, c.lo, m, E.Straight)
  {
    Same(c.hi);
    Same(c.lo);
    hide S32;
  }

  // ---- Conversions, products and quotients ----------------------------------------------------

  lemma OperatesCnvt(c: E.Cpu, m: Mem, n: int, d: Reg, pc: Word)
    ensures var b, h := U32(Rd(c.reg, d)) % 0x100, U32(Rd(c.reg, d)) % 0x1_0000;
            && E.Operate(c, m, D.Insn(n, D.CnvtOp(D.Zeb, d)), pc) == E.Effect(Put(c.reg, d, b), c.hi, c.lo, m, E.Straight)
            && E.Operate(c, m, D.Insn(n, D.CnvtOp(D.Zeh, d)), pc) == E.Effect(Put(c.reg, d, h), c.hi, c.lo, m, E.Straight)
            && E.Operate(c, m, D.Insn(n, D.CnvtOp(D.Seb, d)), pc) ==
               E.Effect(Put(c.reg, d, if b < 0x80 then b else b - 0x100), c.hi, c.lo, m, E.Straight)
            && E.Operate(c, m, D.Insn(n, D.CnvtOp(D.Seh, d)), pc) ==
               E.Effect(Put(c.reg, d, if h < 0x8000 then h else h - 0x1_0000), c.hi, c.lo, m, E.Straight)
  {
    CnvtIs(Rd(c.reg, d));
    hide S32, U32, Rd, E.Cnvt;
  }

  lemma CnvtIs(v: Int32)
    ensures var b, h := U32(v) % 0x100, U32(v) % 0x1_0000;
            && E.Cnvt(D.Zeb, v) == b == S32(b) && E.Cnvt(D.Zeh, v) == h == S32(h)
            && E.Cnvt(D.Seb, v) == (if b < 0x80 then b else b - 0x100) == S32(if b < 0x80 then b else b - 0x100)
            && E.Cnvt(D.Seh, v) == (if h < 0x8000 then h else h - 0x1_0000) == S32(if h < 0x8000 then h else h - 0x1_0000)
  {
    SameWord(v);
    var b, h := U32(v) % 0x100, U32(v) % 0x1_0000;
    Same(b);
    Same(h);
    Same(if b < 0x80 then b else b - 0x100);
    Same(if h < 0x8000 then h else h - 0x1_0000);
    LowPartUp(v, 0x100_0000, 0x100);
    LowPartUp(v, 0x1_0000, 0x1_0000);
    FillByte(b);
    FillHalf(h);
    hide S32, U32;
  }

  lemma LowPartUp(v: int, scale: int, low: int)
    requires (scale == 0x100_0000 && low == 0x100) || (scale == 0x1_0000 && low == 0x1_0000)
    ensures S32(v * scale) == S32(v % low * scale)
  {
    var q, r := v / low, v % low;
    assert v * scale == 0x1_0000_0000 * q + r * scale;
    Wound(r * scale, q);
  }

  lemma Wound(x: int, q: int)
    ensures S32(0x1_0000_0000 * q + x) == S32(x)
  {
  }

  /** ZEB, ZEH, SEB and SEH. */
  lemma Conversions(c: E.Cpu, m: Mem, x: nat, next: Half)
    requires x < 8
    ensures var r, b, h := NAMED[x], U32(c.reg[NAMED[x]]) % 0x100, U32(c.reg[NAMED[x]]) % 0x1_0000;
            && Gives16(c, m, Rr(x, 0, 0x11), None, next, 2, r, b)
            && Gives16(c, m, Rr(x, 1, 0x11), None, next, 2, r, h)
            && Gives16(c, m, Rr(x, 4, 0x11), None, next, 2, r, if b < 0x80 then b else b - 0x100)
            && Gives16(c, m, Rr(x, 5, 0x11), None, next, 2, r, if h < 0x8000 then h else h - 0x1_0000)
  {
    hide D.Decode, E.Operate, Rr, Put, U32;
    NamedIs(x);
    DecodedRr(x, 0, 0x11, next, c.pc, E.PcBase(c));
    DecodedRr(x, 1, 0x11, next, c.pc, E.PcBase(c));
    DecodedRr(x, 4, 0x11, next, c.pc, E.PcBase(c));
    DecodedRr(x, 5, 0x11, next, c.pc, E.PcBase(c));
    OperatesCnvt(c, m, 2, NAMED[x], c.pc);
  }

  /** It leaves HI and LO so, and does nothing else. */
  ghost predicate GivesPair16(c: E.Cpu, m: Mem, h: Half, next: Half, hi: Int32, lo: Int32) {
    Does(c, m, h, None, next, 2, E.Effect(c.reg, hi, lo, m, E.Straight))
  }

  ghost predicate GivesProduct16(c: E.Cpu, m: Mem, h: Half, next: Half, p: int) {
    exists hi: Int32, lo: Int32 ::
      GivesPair16(c, m, h, next, hi, lo) && U32(hi) * 0x1_0000_0000 + U32(lo) == p % 0x1_0000_0000_0000_0000
  }

  ghost predicate GivesQuotient16(c: E.Cpu, m: Mem, h: Half, next: Half, a: int, b: int) {
    exists q: int, r: int :: Divides(a, b, q, r) && GivesPair16(c, m, h, next, S32(r), S32(q))
  }

  lemma OperatesProducts(c: E.Cpu, m: Mem, n: int, signed: bool, s: Reg, t: Reg, pc: Word)
    ensures var p := Mul64(Rd(c.reg, s), Rd(c.reg, t), signed);
            E.Operate(c, m, D.Insn(n, D.Mult(signed, s, t)), pc) == E.Effect(c.reg, p.0, p.1, m, E.Straight)
    ensures var p := E.Divide(signed, Rd(c.reg, s), Rd(c.reg, t));
            E.Operate(c, m, D.Insn(n, D.Div(signed, s, t)), pc) == E.Effect(c.reg, p.0, p.1, m, E.Straight)
  {
    hide Mul64, E.Divide, Rd;
  }

  /** MULT and MULTU leave the whole product of the signed, or of the unsigned, readings. */
  lemma Products16(c: E.Cpu, m: Mem, x: nat, y: nat, next: Half)
    requires x < 8 && y < 8
    ensures var s: int, t: int := c.reg[NAMED[x]], c.reg[NAMED[y]];
            && GivesProduct16(c, m, Rr(x, y, 0x18), next, s * t)
            && GivesProduct16(c, m, Rr(x, y, 0x19), next, U32(s) * U32(t))
  {
    hide GivesProduct16, U32, Rr;
    ByProduct16(c, m, x, y, 0x18, next);
    ByProduct16(c, m, x, y, 0x19, next);
  }

  lemma ByProduct16(c: E.Cpu, m: Mem, x: nat, y: nat, funct: nat, next: Half)
    requires x < 8 && y < 8 && (funct == 0x18 || funct == 0x19)
    ensures GivesProduct16(c, m, Rr(x, y, funct), next, Product(c.reg[NAMED[x]], c.reg[NAMED[y]], funct == 0x18))
  {
    hide D.Decode, E.Operate, Rr, Mul64, U32, High, Low, Product;
    var signed := funct == 0x18;
    var s, t := c.reg[NAMED[x]], c.reg[NAMED[y]];
    NamedIs(x);
    NamedIs(y);
    DecodedRr(x, y, funct, next, c.pc, E.PcBase(c));
    OperatesProducts(c, m, 2, signed, NAMED[x], NAMED[y], c.pc);
    var p := Mul64(s, t, signed);
    Mul64Exact(s, t, signed);
    Pattern(Product(s, t, signed));
    assert GivesPair16(c, m, Rr(x, y, funct), next, p.0, p.1);
  }

  /** DIV and DIVU leave the remainder and the quotient; dividing by zero leaves the dividend in HI and zero
      in LO. */
  lemma Quotients16(c: E.Cpu, m: Mem, x: nat, y: nat, next: Half)
    requires x < 8 && y < 8
    ensures var s, t := c.reg[NAMED[x]], c.reg[NAMED[y]];
            && (t != 0 ==> GivesQuotient16(c, m, Rr(x, y, 0x1A), next, s, t))
            && (t != 0 ==> GivesQuotient16(c, m, Rr(x, y, 0x1B), next, U32(s), U32(t)))
            && (t == 0 ==> GivesPair16(c, m, Rr(x, y, 0x1A), next, s, 0) && GivesPair16(c, m, Rr(x, y, 0x1B), next, s, 0))
  {
    hide D.Decode, E.Operate, Rr, U32, S32, Divides;
    var s, t := c.reg[NAMED[x]], c.reg[NAMED[y]];
    NamedIs(x);
    NamedIs(y);
    DecodedRr(x, y, 0x1A, next, c.pc, E.PcBase(c));
    DecodedRr(x, y, 0x1B, next, c.pc, E.PcBase(c));
    OperatesProducts(c, m, 2, true, NAMED[x], NAMED[y], c.pc);
    OperatesProducts(c, m, 2, false, NAMED[x], NAMED[y], c.pc);
    if t != 0 { DivideIs(s, t); }
  }

  // ---- ADDIU between two registers --------------------------------------------------------------

  /** Its signed immediate is four bits, or fifteen in an extended one. */
  lemma AddsFour(c: E.Cpu, m: Mem, x: nat, y: nat, u: nat, next: Half)
    requires x < 8 && y < 8 && u < 16
    ensures Gives16(c, m, Half5(0x08, x, y, Bare(u)), None, next, 2, NAMED[y], c.reg[NAMED[x]] + if u < 8 then u else u - 16)
  {
    hide D.Decode, E.Operate, Half5, Put, D.Xl;
    var h, v := Half5(0x08, x, y, Bare(u)), if u < 8 then u else u - 16;
    NamedIs(x);
    NamedIs(y);
    Fields5(0x08, x, y, Bare(u));
    FourBits(h, u);
    DecodedRri(h, None, next, c.pc, E.PcBase(c));
    OperatesSums(c, m, 2, NAMED[y], NAMED[x], v, 0, c.pc);
  }

  lemma FourBits(h: nat, u: nat)
    requires h % 0x20 == u && u < 16
    ensures h / 0x10 % 2 == 0 && h % 0x10 == u && D.Sx(u, 0x8) == if u < 8 then u else u - 16
  {
    var q := h / 0x20;
    Over(h, 0x10, 2 * q, u);
    Sign(u, 8);
    hide D.Sx;
  }

  lemma DecodedRri(h: Half, ext: Option<nat>, next: Half, addr: Word, base: Word)
    requires h / 0x800 == 0x08
    ensures D.Decode(h, ext, next, addr, base) == D.DecodeRri(ext, h, if ext.None? then 2 else 4)
  {
    hide D.DecodeRri;
  }

  lemma AddsFifteen(c: E.Cpu, m: Mem, x: nat, y: nat, v: nat, next: Half)
    requires x < 8 && y < 8 && v < 0x8000
    ensures Gives16(c, m, Half5(0x08, x, y, Bare(v % 0x10)), Some(v / 0x10 % 0x80 * 0x10 + v / 0x800), next, 4, NAMED[y],
                    c.reg[NAMED[x]] + if v < 0x4000 then v else v - 0x8000)
  {
    hide D.Decode, E.Operate, Half5, Put, D.Xl, D.ExtImm15, D.Sx;
    var u, e, imm := v % 0x10, v / 0x10 % 0x80 * 0x10 + v / 0x800, if v < 0x4000 then v else v - 0x8000;
    var h := Half5(0x08, x, y, Bare(u));
    NamedIs(x);
    NamedIs(y);
    Fields5(0x08, x, y, Bare(u));
    FourBits(h, u);
    FifteenBits(v, h);
    DecodedRri(h, Some(e), next, c.pc, E.PcBase(c));
    OperatesSums(c, m, 4, NAMED[y], NAMED[x], imm, 0, c.pc);
  }

  lemma FifteenBits(v: nat, h: nat)
    requires v < 0x8000 && h % 0x10 == v % 0x10
    ensures D.ExtImm15(v / 0x10 % 0x80 * 0x10 + v / 0x800, h) == v
    ensures D.Sx(v, 0x4000) == if v < 0x4000 then v else v - 0x8000
  {
    hide D.Sx;
    Sign(v, 0x4000);
    var mid, top, low := v / 0x10 % 0x80, v / 0x800, v % 0x10;
    Over(v, 0x10, v / 0x10, low);
    Over(v / 0x10, 0x80, v / 0x10 / 0x80, mid);
    Over(v, 0x800, v / 0x10 / 0x80, mid * 0x10 + low);
    Over(mid * 0x10 + top, 0x10, mid, top);
  }
}
