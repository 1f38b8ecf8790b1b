// reference/mips16.js: the executor. `Operate` is exec()'s switch, `Retire` its tail, `Step` is
// step() without a decode cache. Values rather than an object: the JavaScript registers are the
// int32s `reg`, and register 0 reads as zero whatever the array holds.
module OracleExec {
  import opened Words
  import opened Memory
  import opened OracleDecode
  import opened Frames
  import opened Multiply

  datatype Pending = NoSlot | Slot(target: Word, isa16: bool, from: Word)

  datatype Cpu = Cpu(pc: Word, isa16: bool, reg: Regs, hi: Int32, lo: Int32, delayed: Pending)

  datatype Flow = Straight | BranchTo(target: Word, isa16: bool) | JumpTo(target: Word, isa16: bool)

  /** What an instruction does before control moves on. */
  datatype Effect = Refused | Effect(reg: Regs, hi: Int32, lo: Int32, mem: Mem, flow: Flow)

  /** step()'s answer: a refusal that leaves everything alone, or the machine after it. */
  datatype Outcome =
    | Halt
    | Ran(cpu: Cpu, mem: Mem, insn: Decoded, wasDelaySlot: bool, unpredictable: bool)

  /** The register an immediate form adds to. */
  function Addend(k: ImmKind, x: Payload): Reg
    requires x.ImmOp?
  {
    if k.AddiuSp? || k.AdjSp? then 29 else if k.Addiu8? then x.d else x.s
  }

  function Imm(k: ImmKind, x: Payload, reg: Regs): Regs
    requires x.ImmOp?
  {
    Wr(reg, if k.AdjSp? then 29 else x.d, S32(Rd(reg, Addend(k, x)) + x.imm))
  }

  function Arith(k: RegKind, x: Payload, reg: Regs): Int32
    requires x.RegOp?
  {
    var s := Rd(reg, x.s);
    match k
    case Move => s
    case Addu => S32(s + Rd(reg, x.t))
    case Subu => S32(s - Rd(reg, x.t))
  }

  function Logic(k: LogicKind, d: Int32, s: Int32): Int32 {
    match k
    case And => S32(AndW(U32(d), U32(s)))
    case Or => S32(OrW(U32(d), U32(s)))
    case Xor => S32(XorW(U32(d), U32(s)))
    case Not => S32(-1 - s)
    case Neg => S32(0 - s)
  }

  /** The new value of T, register 24. */
  function Cond(k: CondKind, a: Int32, b: Int32): Int32 {
    match k
    case Cmp => S32(XorW(U32(a), U32(b)))
    case Slt => if a < b then 1 else 0
    case Sltu => if U32(a) < U32(b) then 1 else 0
  }

  function Less(k: LessKind, a: Int32, imm: int): Int32 {
    match k
    case Slti => if a < S32(imm) then 1 else 0
    case Sltiu => if U32(a) < U32(S32(imm)) then 1 else 0
  }

  function Shift(k: ShiftKind, v: Int32, sa: nat): Int32 {
    match k
    case Sll => S32(v * Pow2(sa % 32))
    case Srl => S32(U32(v) / Pow2(sa % 32))
    case Sra => S32(v / Pow2(sa % 32))
  }

  function ShiftV(k: ShiftVKind, v: Int32, sh: Int32): Int32 {
    match k
    case Sllv => S32(v * Pow2(U32(sh) % 32))
    case Srlv => S32(U32(v) / Pow2(U32(sh) % 32))
    case Srav => S32(v / Pow2(U32(sh) % 32))
  }

  /** HI and LO after a division: the remainder and the quotient, or the oracle's answer to a
      zero divisor. */
  function Divide(signed: bool, p: Int32, q: Int32): (Int32, Int32) {
    if q == 0 then (p, 0)
    else if signed then (S32(TruncMod(p, q)), S32(Trunc(p as real / q as real)))
    else (S32(U32(p) % U32(q)), S32((U32(p) as real / U32(q) as real).Floor))
  }

  function Cnvt(k: CnvtKind, v: Int32): Int32 {
    match k
    case Zeb => v % 0x100
    case Zeh => v % 0x1_0000
    case Seb => S32(S32(v * 0x100_0000) / 0x100_0000)
    case Seh => S32(S32(v * 0x1_0000) / 0x1_0000)
  }

  function Load(k: LoadKind, m: Mem, ea: Word): Int32 {
    match k
    case Lb => S32(S32(Read8(m, ea) * 0x100_0000) / 0x100_0000)
    case Lbu => Read8(m, ea)
    case Lh => S32(S32(Read16(m, ea) * 0x1_0000) / 0x1_0000)
    case Lhu => Read16(m, ea)
    case Lw => S32(Read32(m, ea))
  }

  function Store(k: StoreKind, m: Mem, ea: Word, v: Int32): Mem {
    match k
    case Sb => Write8(m, ea, v % 0x100)
    case Sh => Write16(m, ea, v % 0x1_0000)
    case Sw => Write32(m, ea, U32(v))
  }

  /** Whether a branch is taken; MIPS16 branches have no delay slot. */
  predicate Taken(k: BranchKind, x: Payload, reg: Regs)
    requires x.BranchOp?
  {
    match k
    case B => true
    case Beqz => Rd(reg, x.s) == 0
    case Bnez => Rd(reg, x.s) != 0
    case Bteqz => reg[24] == 0
    case Btnez => reg[24] != 0
  }

  /** The link address with its ISA bit. */
  function Link(a: int): Int32 {
    S32(OrW(U32(a), 1))
  }

  /** A register jump: bit 0 of the target picks the instruction set and is then cleared. */
  function Jump(k: JumpKind, x: Payload, reg: Regs, pc: Word): (Regs, Flow)
    requires x.JumpOp?
  {
    var v := U32(Rd(reg, x.s));
    var to, isa16 := v - v % 2, v % 2 == 1;
    match k
    case Jr => (reg, JumpTo(to, isa16))
    case Jalr => (reg[31 := Link(pc + 4)], JumpTo(to, isa16))
    case Jrc => (reg, BranchTo(to, isa16))
    case Jalrc => (reg[31 := Link(pc + 2)], BranchTo(to, isa16))
  }

  function Operate(c: Cpu, m: Mem, i: Decoded, pc: Word): Effect
    requires i.Insn?
  {
    var x := i.x;
    var base := if c.delayed.Slot? then c.delayed.from else pc;
    match x
    case ImmOp(k, _, _, _) => Effect(Imm(k, x, c.reg), c.hi, c.lo, m, Straight)
    case AddiuPc(d, imm, _) => Effect(Wr(c.reg, d, S32(U32(Align4(base) + imm))), c.hi, c.lo, m, Straight)
    case Li(d, imm) => Effect(Wr(c.reg, d, S32(imm)), c.hi, c.lo, m, Straight)
    case RegOp(k, d, _, _) => Effect(Wr(c.reg, d, Arith(k, x, c.reg)), c.hi, c.lo, m, Straight)
    case LogicOp(k, d, s) => Effect(Wr(c.reg, d, Logic(k, Rd(c.reg, d), Rd(c.reg, s))), c.hi, c.lo, m, Straight)
    case CondOp(k, d, s) => Effect(c.reg[24 := Cond(k, Rd(c.reg, d), Rd(c.reg, s))], c.hi, c.lo, m, Straight)
    case LessOp(k, s, imm) => Effect(c.reg[24 := Less(k, Rd(c.reg, s), imm)], c.hi, c.lo, m, Straight)
    case Cmpi(s, imm) => Effect(c.reg[24 := S32(XorW(U32(Rd(c.reg, s)), U32(imm)))], c.hi, c.lo, m, Straight)
    case ShiftOp(k, d, s, sa) => Effect(Wr(c.reg, d, Shift(k, Rd(c.reg, s), sa)), c.hi, c.lo, m, Straight)
    case ShiftVOp(k, d, sh) => Effect(Wr(c.reg, d, ShiftV(k, Rd(c.reg, d), Rd(c.reg, sh))), c.hi, c.lo, m, Straight)
    case Mult(signed, d, s) =>
      var p := Mul64(Rd(c.reg, d), Rd(c.reg, s), signed);
      Effect(c.reg, p.0, p.1, m, Straight)
    case Div(signed, s, t) =>
      var p := Divide(signed, Rd(c.reg, s), Rd(c.reg, t));
      Effect(c.reg, p.0, p.1, m, Straight)
    case Mfhi(d) => Effect(Wr(c.reg, d, c.hi), c.hi, c.lo, m, Straight)
    case Mflo(d) => Effect(Wr(c.reg, d, c.lo), c.hi, c.lo, m, Straight)
    case CnvtOp(k, d) => Effect(Wr(c.reg, d, Cnvt(k, Rd(c.reg, d))), c.hi, c.lo, m, Straight)
    case LoadOp(k, r, b, off) =>
      Effect(Wr(c.reg, r, Load(k, m, U32(Rd(c.reg, b) + off))), c.hi, c.lo, m, Straight)
    case LwSp(r, off) =>
      Effect(Wr(c.reg, r, Load(Lw, m, U32(Rd(c.reg, 29) + off))), c.hi, c.lo, m, Straight)
    case LwPc(d, off, _) =>
      Effect(Wr(c.reg, d, Load(Lw, m, U32(Align4(base) + off))), c.hi, c.lo, m, Straight)
    case StoreOp(k, r, b, off) =>
      Effect(c.reg, c.hi, c.lo, Store(k, m, U32(Rd(c.reg, b) + off), Rd(c.reg, r)), Straight)
    case SwSp(r, off) =>
      Effect(c.reg, c.hi, c.lo, Store(Sw, m, U32(Rd(c.reg, 29) + off), Rd(c.reg, r)), Straight)
    case SwRaSp(off) =>
      Effect(c.reg, c.hi, c.lo, Store(Sw, m, U32(Rd(c.reg, 29) + off), Rd(c.reg, 31)), Straight)
    case BranchOp(k, _, off) =>
      Effect(c.reg, c.hi, c.lo, m, if Taken(k, x, c.reg) then BranchTo(U32(pc + i.length + off), true) else Straight)
    case Jal(toggle, tgt) => Effect(c.reg[31 := Link(pc + 6)], c.hi, c.lo, m, JumpTo(tgt, !toggle))
    case JumpOp(k, _) => var p := Jump(k, x, c.reg, pc); Effect(p.0, c.hi, c.lo, m, p.1)
    case SaveOp(f) => var p := Save(f, c.reg, m); Effect(p.0, c.hi, c.lo, p.1, Straight)
    case RestoreOp(f) => Effect(Restore(f, c.reg, m), c.hi, c.lo, m, Straight)
    case Trap(_) => Refused
    case BareExtend => Refused
  }

  /** exec()'s tail: a pending jump takes effect after its slot, whatever the slot did. */
  function Retire(c: Cpu, i: Decoded, pc: Word, e: Effect): Outcome
    requires i.Insn?
  {
    if e.Refused? then Halt
    else
      var slot := c.delayed.Slot?;
      var next := U32(pc + i.length);
      var c' := Cpu(next, true, e.reg, e.hi, e.lo, NoSlot);
      var cpu :=
        if slot then c'.(pc := c.delayed.target, isa16 := c.delayed.isa16)
        else match e.flow
          case Straight => c'
          case BranchTo(to, isa) => c'.(pc := to, isa16 := isa)
          case JumpTo(to, isa) => c'.(delayed := Slot(to, isa, pc));
      Ran(cpu, e.mem, i, slot, slot && !e.flow.Straight?)
  }

  function Exec(c: Cpu, m: Mem, i: Decoded): Outcome
    requires i.Insn?
  {
    Retire(c, i, c.pc, Operate(c, m, i, c.pc))
  }

  function PcBase(c: Cpu): Word {
    if c.delayed.Slot? then c.delayed.from else c.pc
  }

  /** step() with no decode cache. */
  function Step(c: Cpu, m: Mem): Outcome {
    if !c.isa16 then Halt
    else
      var i := FetchDecode(m, c.pc, PcBase(c));
      if i.Unknown? then Halt else Exec(c, m, i)
  }
}
