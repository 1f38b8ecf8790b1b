// reference/mips16.js: the decoder. A halfword, its optional EXTEND prefix and the halfword
// after it become an execution payload. Text, operand names and the 64-bit encodings are not
// modelled: for isa=32 the latter are all UNKNOWN.
module OracleDecode {
  import opened Words
  import opened Memory

  datatype ImmKind = AddiuSp | AddiuRri | Addiu8 | AdjSp
  datatype RegKind = Move | Addu | Subu
  datatype LogicKind = And | Or | Xor | Not | Neg
  datatype CondKind = Cmp | Slt | Sltu
  datatype LessKind = Slti | Sltiu
  datatype ShiftKind = Sll | Srl | Sra
  datatype ShiftVKind = Sllv | Srlv | Srav
  datatype CnvtKind = Zeb | Zeh | Seb | Seh
  datatype LoadKind = Lb | Lbu | Lh | Lhu | Lw
  datatype StoreKind = Sb | Sh | Sw
  datatype BranchKind = B | Beqz | Bnez | Bteqz | Btnez
  datatype JumpKind = Jr | Jalr | Jrc | Jalrc

  datatype Frame = Frame(framesize: nat, ra: bool, s0: bool, s1: bool, xsregs: nat, aregs: nat)

  /** The normalised payload `x`; absent fields are zero, as xnorm fills them. `val` is the
      PC-relative address decode resolves against pcBase. */
  datatype Payload =
    | ImmOp(immk: ImmKind, d: Reg, s: Reg, imm: int)
    | AddiuPc(d: Reg, imm: int, val: Word)
    | Li(d: Reg, imm: int)
    | RegOp(regk: RegKind, d: Reg, s: Reg, t: Reg)
    | LogicOp(logic: LogicKind, d: Reg, s: Reg)
    | CondOp(cond: CondKind, d: Reg, s: Reg)
    | LessOp(less: LessKind, s: Reg, imm: int)
    | Cmpi(s: Reg, imm: int)
    | ShiftOp(shift: ShiftKind, d: Reg, s: Reg, sa: nat)
    | ShiftVOp(shiftv: ShiftVKind, d: Reg, sh: Reg)
    | Mult(signed: bool, d: Reg, s: Reg)
    | Div(signed: bool, s: Reg, t: Reg)
    | Mfhi(d: Reg)
    | Mflo(d: Reg)
    | CnvtOp(cnvt: CnvtKind, d: Reg)
    | LoadOp(load: LoadKind, r: Reg, b: Reg, off: int)
    | LwSp(r: Reg, off: int)
    | LwPc(d: Reg, off: int, ea: Word)
    | StoreOp(store: StoreKind, r: Reg, b: Reg, off: int)
    | SwSp(r: Reg, off: int)
    | SwRaSp(off: int)
    | BranchOp(branch: BranchKind, s: Reg, off: int)
    | JumpOp(jump: JumpKind, s: Reg)
    | Jal(toggle: bool, tgt: Word)
    | SaveOp(frame: Frame)
    | RestoreOp(frame: Frame)
    | Trap(code: nat)
    | BareExtend

  datatype Decoded = Unknown | Insn(length: int, x: Payload)

  function Xl(f3: int): Reg
    requires 0 <= f3 < 8
  {
    if f3 < 2 then 16 + f3 else f3
  }

  /** sx: the field below and including the sign bit, read as two's complement. */
  function Sx(value: nat, sign: nat): int
    requires sign > 0
  {
    value % sign - value / sign % 2 * sign
  }

  function ExtImm16(ext: nat, insn: nat): (r: nat)
    ensures r < 0x1_0000
  {
    ext % 0x20 * 0x800 + ext / 0x20 % 0x40 * 0x20 + insn % 0x20
  }

  function ExtImm15(ext: nat, insn: nat): (r: nat)
    ensures r < 0x8000
  {
    ext % 0x10 * 0x800 + ext / 0x10 % 0x80 * 0x10 + insn % 0x10
  }

  /** `& ~3`. */
  function Align4(a: Word): Word {
    a - a % 4
  }

  /** The immediate of the forms whose bare version is the low byte shifted left. */
  function Imm8(ext: Option<nat>, insn: nat, scale: nat): int {
    if ext.None? then insn % 0x100 * scale else Sx(ExtImm16(ext.value, insn), 0x8000)
  }

  /** The immediate of the forms whose bare version is the signed low byte. */
  function ImmS8(ext: Option<nat>, insn: nat, scale: int): int {
    if ext.None? then Sx(insn % 0x100, 0x80) * scale else Sx(ExtImm16(ext.value, insn), 0x8000)
  }

  /** The zero-extended immediate of LI and CMPI. */
  function ImmU8(ext: Option<nat>, insn: nat): nat {
    if ext.None? then insn % 0x100 else ExtImm16(ext.value, insn)
  }

  function Imm15(ext: Option<nat>, insn: nat): int {
    if ext.None? then Sx(insn % 0x10, 0x8) else Sx(ExtImm15(ext.value, insn), 0x4000)
  }

  function BranchOff(ext: Option<nat>, insn: nat): int {
    2 * (if ext.None? then Sx(insn % 0x100, 0x80) else Sx(ExtImm16(ext.value, insn), 0x8000))
  }

  /** zfield: the extended forms pin these bits of the second halfword to zero. */
  predicate ZField(ext: Option<nat>, insn: nat) {
    ext.Some? && insn / 0x20 % 8 != 0
  }

  function Svrs(ext: Option<nat>, insn: nat): Decoded {
    var save := insn / 0x80 % 2 == 1;
    var ra, s0, s1 := insn / 0x40 % 2 == 1, insn / 0x20 % 2 == 1, insn / 0x10 % 2 == 1;
    var fsLo := insn % 0x10;
    if ext.None? then
      var f := Frame(if fsLo != 0 then fsLo * 8 else 128, ra, s0, s1, 0, 0);
      Insn(2, if save then SaveOp(f) else RestoreOp(f))
    else
      var aregs := ext.value % 0x10;
      if aregs == 0xF then Unknown
      else
        var f := Frame((ext.value / 0x10 % 0x10 * 0x10 + fsLo) * 8, ra, s0, s1, ext.value / 0x100 % 8, aregs);
        Insn(4, if save then SaveOp(f) else RestoreOp(f))
  }

  function DecodeShift(ext: Option<nat>, insn: nat, n: int): Decoded {
    var f := insn % 4;
    var d, s := Xl(insn / 0x100 % 8), Xl(insn / 0x20 % 8);
    if ext.Some? && (insn / 4 % 8 != 0 || ext.value % 0x20 != 0 || (ext.value / 0x20 % 2 == 1 && f != 1)) then
      Unknown
    else
      var bare := if insn / 4 % 8 == 0 then 8 else insn / 4 % 8;
      var sa := if ext.None? then bare else ext.value / 0x40 % 0x20;
      if f == 0 then Insn(n, ShiftOp(Sll, d, s, sa))
      else if f == 2 then Insn(n, ShiftOp(Srl, d, s, sa))
      else if f == 3 then Insn(n, ShiftOp(Sra, d, s, sa))
      else Unknown
  }

  function DecodeI8(ext: Option<nat>, insn: nat, n: int): Decoded {
    var funct := insn / 0x100 % 8;
    if funct == 0 then
      if ZField(ext, insn) then Unknown else Insn(n, BranchOp(Bteqz, 0, BranchOff(ext, insn)))
    else if funct == 1 then
      if ZField(ext, insn) then Unknown else Insn(n, BranchOp(Btnez, 0, BranchOff(ext, insn)))
    else if funct == 2 then
      if ZField(ext, insn) then Unknown else Insn(n, SwRaSp(Imm8(ext, insn, 4)))
    else if funct == 3 then
      if ZField(ext, insn) then Unknown else Insn(n, ImmOp(AdjSp, 0, 0, ImmS8(ext, insn, 8)))
    else if funct == 4 then
      Svrs(ext, insn)
    else if funct == 6 || ext.Some? then
      Unknown
    else if funct == 5 then
      var fld := insn / 8 % 0x20;
      var r32 := fld % 4 * 8 + fld / 4 % 8;
      if r32 == 0 && insn % 8 == 0 then Insn(2, RegOp(Move, 0, 0, 0))
      else Insn(2, RegOp(Move, r32, Xl(insn % 8), 0))
    else
      Insn(2, RegOp(Move, Xl(insn / 0x20 % 8), insn % 0x20, 0))
  }

  function MemOff(ext: Option<nat>, insn: nat, scale: nat): int {
    if ext.None? then insn % 0x20 * scale else Sx(ExtImm16(ext.value, insn), 0x8000)
  }

  /** MEM_OPS: the loads and stores with a five-bit scaled offset. */
  function DecodeMem(op: nat, ext: Option<nat>, insn: nat, n: int): Decoded {
    var b, r := Xl(insn / 0x100 % 8), Xl(insn / 0x20 % 8);
    if op == 0x10 then Insn(n, LoadOp(Lb, r, b, MemOff(ext, insn, 1)))
    else if op == 0x11 then Insn(n, LoadOp(Lh, r, b, MemOff(ext, insn, 2)))
    else if op == 0x13 then Insn(n, LoadOp(Lw, r, b, MemOff(ext, insn, 4)))
    else if op == 0x14 then Insn(n, LoadOp(Lbu, r, b, MemOff(ext, insn, 1)))
    else if op == 0x15 then Insn(n, LoadOp(Lhu, r, b, MemOff(ext, insn, 2)))
    else if op == 0x18 then Insn(n, StoreOp(Sb, r, b, MemOff(ext, insn, 1)))
    else if op == 0x19 then Insn(n, StoreOp(Sh, r, b, MemOff(ext, insn, 2)))
    else if op == 0x1B then Insn(n, StoreOp(Sw, r, b, MemOff(ext, insn, 4)))
    else Unknown
  }

  /** LWSP, SWSP and LWPC. */
  function DecodeWord(op: nat, ext: Option<nat>, insn: nat, n: int, pcBase: Word): Decoded {
    var x, off := Xl(insn / 0x100 % 8), Imm8(ext, insn, 4);
    if ZField(ext, insn) then Unknown
    else if op == 0x12 then Insn(n, LwSp(x, off))
    else if op == 0x1A then Insn(n, SwSp(x, off))
    else Insn(n, LwPc(x, off, U32(Align4(pcBase) + off)))
  }

  /** ADDIUSP, ADDIUPC, ADDIU8 and LI. */
  function DecodeImm(op: nat, ext: Option<nat>, insn: nat, n: int, pcBase: Word): Decoded {
    var d := Xl(insn / 0x100 % 8);
    if ZField(ext, insn) then Unknown
    else if op == 0x00 then Insn(n, ImmOp(AddiuSp, d, 0, Imm8(ext, insn, 4)))
    else if op == 0x01 then
      var imm := Imm8(ext, insn, 4);
      Insn(n, AddiuPc(d, imm, U32(Align4(pcBase) + imm)))
    else if op == 0x09 then Insn(n, ImmOp(Addiu8, d, 0, ImmS8(ext, insn, 1)))
    else Insn(n, Li(d, ImmU8(ext, insn)))
  }

  function DecodeRri(ext: Option<nat>, insn: nat, n: int): Decoded {
    if insn / 0x10 % 2 == 1 then Unknown
    else
      Insn(n, ImmOp(AddiuRri, Xl(insn / 0x20 % 8), Xl(insn / 0x100 % 8), Imm15(ext, insn)))
  }

  /** SLTI, SLTIU and CMPI. */
  function DecodeCond(op: nat, ext: Option<nat>, insn: nat, n: int): Decoded {
    var s := Xl(insn / 0x100 % 8);
    if ZField(ext, insn) then Unknown
    else if op == 0x0A then Insn(n, LessOp(Slti, s, Imm8(ext, insn, 1)))
    else if op == 0x0B then Insn(n, LessOp(Sltiu, s, Imm8(ext, insn, 1)))
    else Insn(n, Cmpi(s, ImmU8(ext, insn)))
  }

  function BOff(ext: Option<nat>, insn: nat): int {
    2 * (if ext.None? then Sx(insn % 0x800, 0x400) else Sx(ExtImm16(ext.value, insn), 0x8000))
  }

  function DecodeB(ext: Option<nat>, insn: nat, n: int): Decoded {
    if ext.Some? && insn / 0x20 % 0x40 != 0 then Unknown else Insn(n, BranchOp(B, 0, BOff(ext, insn)))
  }

  function DecodeBz(op: nat, ext: Option<nat>, insn: nat, n: int): Decoded {
    if ZField(ext, insn) then Unknown
    else Insn(n, BranchOp(if op == 0x04 then Beqz else Bnez, Xl(insn / 0x100 % 8), BranchOff(ext, insn)))
  }

  function DecodeRrr(ext: Option<nat>, insn: nat): Decoded {
    var d, s, t := Xl(insn / 4 % 8), Xl(insn / 0x100 % 8), Xl(insn / 0x20 % 8);
    if ext.Some? then Unknown
    else if insn % 4 == 1 then Insn(2, RegOp(Addu, d, s, t))
    else if insn % 4 == 3 then Insn(2, RegOp(Subu, d, s, t))
    else Unknown
  }

  /** J(AL)R(C), selected by ry. */
  function DecodeJalrc(insn: nat): Decoded {
    var rx, ry := insn / 0x100 % 8, insn / 0x20 % 8;
    if ry == 0 then Insn(2, JumpOp(Jr, Xl(rx)))
    else if ry == 1 then if rx != 0 then Unknown else Insn(2, JumpOp(Jr, 31))
    else if ry == 2 then Insn(2, JumpOp(Jalr, Xl(rx)))
    else if ry == 4 then Insn(2, JumpOp(Jrc, Xl(rx)))
    else if ry == 5 then if rx != 0 then Unknown else Insn(2, JumpOp(Jrc, 31))
    else if ry == 6 then Insn(2, JumpOp(Jalrc, Xl(rx)))
    else Unknown
  }

  function DecodeCnvt(insn: nat): Decoded {
    var d, ry := Xl(insn / 0x100 % 8), insn / 0x20 % 8;
    if ry == 0 then Insn(2, CnvtOp(Zeb, d))
    else if ry == 1 then Insn(2, CnvtOp(Zeh, d))
    else if ry == 4 then Insn(2, CnvtOp(Seb, d))
    else if ry == 5 then Insn(2, CnvtOp(Seh, d))
    else Unknown
  }

  /** RR_FUNCT. Reserved and 64-bit functions are UNKNOWN on a 32-bit core. */
  function DecodeRr(ext: Option<nat>, insn: nat): Decoded {
    var x, y, ry, funct := Xl(insn / 0x100 % 8), Xl(insn / 0x20 % 8), insn / 0x20 % 8, insn % 0x20;
    if ext.Some? then Unknown
    else if funct == 0x00 then DecodeJalrc(insn)
    else if funct == 0x01 || funct == 0x05 then Insn(2, Trap(insn / 0x20 % 0x40))
    else if funct == 0x02 then Insn(2, CondOp(Slt, x, y))
    else if funct == 0x03 then Insn(2, CondOp(Sltu, x, y))
    else if funct == 0x04 then Insn(2, ShiftVOp(Sllv, y, x))
    else if funct == 0x06 then Insn(2, ShiftVOp(Srlv, y, x))
    else if funct == 0x07 then Insn(2, ShiftVOp(Srav, y, x))
    else if funct == 0x0A then Insn(2, CondOp(Cmp, x, y))
    else if funct == 0x0B then Insn(2, LogicOp(Neg, x, y))
    else if funct == 0x0C then Insn(2, LogicOp(And, x, y))
    else if funct == 0x0D then Insn(2, LogicOp(Or, x, y))
    else if funct == 0x0E then Insn(2, LogicOp(Xor, x, y))
    else if funct == 0x0F then Insn(2, LogicOp(Not, x, y))
    else if funct == 0x10 then if ry != 0 then Unknown else Insn(2, Mfhi(x))
    else if funct == 0x11 then DecodeCnvt(insn)
    else if funct == 0x12 then if ry != 0 then Unknown else Insn(2, Mflo(x))
    else if funct == 0x18 then Insn(2, Mult(true, x, y))
    else if funct == 0x19 then Insn(2, Mult(false, x, y))
    else if funct == 0x1A then Insn(2, Div(true, x, y))
    else if funct == 0x1B then Insn(2, Div(false, x, y))
    else Unknown
  }

  function DecodeJal(ext: Option<nat>, insn: nat, nextHw: Half, addr: Word): Decoded {
    if ext.Some? then Unknown
    else
      var idx := insn % 0x20 * 0x20_0000 + insn / 0x20 % 0x20 * 0x1_0000 + nextHw;
      var tgt := U32(addr + 4) / 0x1000_0000 * 0x1000_0000 + idx * 4;
      Insn(4, Jal(insn / 0x400 % 2 == 1, tgt))
  }

  /** decode: `ext` holds the EXTEND halfword's low eleven bits. */
  function Decode(insn: Half, ext: Option<nat>, nextHw: Half, addr: Word, pcBase: Word): Decoded {
    var op, n := insn / 0x800, if ext.None? then 2 else 4;
    if op == 0x00 || op == 0x01 || op == 0x09 || op == 0x0D then DecodeImm(op, ext, insn, n, pcBase)
    else if op == 0x02 then DecodeB(ext, insn, n)
    else if op == 0x03 then DecodeJal(ext, insn, nextHw, addr)
    else if op == 0x04 || op == 0x05 then DecodeBz(op, ext, insn, n)
    else if op == 0x06 then DecodeShift(ext, insn, n)
    else if op == 0x08 then DecodeRri(ext, insn, n)
    else if op == 0x0A || op == 0x0B || op == 0x0E then DecodeCond(op, ext, insn, n)
    else if op == 0x0C then DecodeI8(ext, insn, n)
    else if op == 0x12 || op == 0x16 || op == 0x1A then DecodeWord(op, ext, insn, n, pcBase)
    else if op == 0x1C then DecodeRrr(ext, insn)
    else if op == 0x1D then DecodeRr(ext, insn)
    else if op == 0x1E then if ext.Some? then Unknown else Insn(2, BareExtend)
    else DecodeMem(op, ext, insn, n)
  }

  /** JAL and JALX are two halfwords; every other instruction is one, plus its prefix. */
  lemma DecodedLength(insn: Half, ext: Option<nat>, nextHw: Half, addr: Word, pcBase: Word)
    ensures var i := Decode(insn, ext, nextHw, addr, pcBase);
            i.Insn? ==> i.length == if insn / 0x800 == 3 || ext.Some? then 4 else 2
  {
  }

  /** What step() fetches and decodes at pc, taking EXTEND and its instruction together. */
  function FetchDecode(m: Mem, pc: Word, pcBase: Word): Decoded {
    var hw := Read16(m, pc);
    if hw / 0x800 == 0x1E then
      Decode(Read16(m, U32(pc + 2)), Some(hw % 0x800), Read16(m, U32(pc + 4)), pc, pcBase)
    else
      Decode(hw, None, Read16(m, U32(pc + 2)), pc, pcBase)
  }

  /** Whatever decodes is two or four bytes long, and only two halfwords decide it. */
  lemma WindowDecides(m: Mem, m': Mem, pc: Word, pcBase: Word)
    requires Read16(m, pc) == Read16(m', pc) && Read16(m, U32(pc + 2)) == Read16(m', U32(pc + 2))
    ensures FetchDecode(m, pc, pcBase) == FetchDecode(m', pc, pcBase)
  {
  }
}
