// The 32-bit instruction set in signed arithmetic: what each instruction computes, stated with
// the oracle's own operations wherever a MIPS16 instruction does the same thing. The Go core's
// unsigned code is proved against it.
module Mips32 {
  import opened Words
  import opened Memory
  import opened Frames
  import opened Multiply
  import D = OracleDecode
  import E = OracleExec

  /** What an instruction can read and write, apart from the pending branch. `link` is the
      address of a live LL reservation. */
  datatype State = State(reg: Regs, hi: Int32, lo: Int32, cop0: seq<Word>, mem: Mem, link: Option<Word>, timer: bool)

  /** Where control goes: on, past an annulled slot, after the slot, or at once. */
  datatype Control = Next | Annul | Delay(target: Word, isa: bool) | Now(target: Word, isa: bool)

  datatype Result = Unsupported | Done(s: State, control: Control)

  // The instruction fields.
  function Op(w: Word): int { w / 0x400_0000 }
  function Rs(w: Word): Reg { w / 0x20_0000 % 32 }
  function Rt(w: Word): Reg { w / 0x1_0000 % 32 }
  function Rd5(w: Word): Reg { w / 0x800 % 32 }
  function Sa(w: Word): nat { w / 0x40 % 32 }
  function Fn(w: Word): nat { w % 0x40 }
  function Imm(w: Word): Half { w % 0x1_0000 }

  function SImm(w: Word): int {
    if Imm(w) < 0x8000 then Imm(w) else Imm(w) - 0x1_0000
  }

  /** The register-to-register operations, by SPECIAL function code. */
  predicate IsAlu(fn: nat) {
    fn in {0, 2, 3, 4, 6, 7, 16, 18} || 32 <= fn <= 39 || fn == 42 || fn == 43
  }

  function Alu(fn: nat, sa: nat, s: Int32, t: Int32, hi: Int32, lo: Int32): Int32
    requires IsAlu(fn)
  {
    if fn == 0 then E.Shift(D.Sll, t, sa)
    else if fn == 2 then E.Shift(D.Srl, t, sa)
    else if fn == 3 then E.Shift(D.Sra, t, sa)
    else if fn == 4 then E.ShiftV(D.Sllv, t, s)
    else if fn == 6 then E.ShiftV(D.Srlv, t, s)
    else if fn == 7 then E.ShiftV(D.Srav, t, s)
    else if fn == 16 then hi
    else if fn == 18 then lo
    else if fn == 32 || fn == 33 then S32(s + t)
    else if fn == 34 || fn == 35 then S32(s - t)
    else if fn == 36 then E.Logic(D.And, s, t)
    else if fn == 37 then E.Logic(D.Or, s, t)
    else if fn == 38 then E.Logic(D.Xor, s, t)
    else if fn == 39 then E.Logic(D.Not, 0, E.Logic(D.Or, s, t))
    else E.Cond(if fn == 42 then D.Slt else D.Sltu, s, t)
  }

  function Special(st: State, w: Word): Result {
    var fn, s, t := Fn(w), Rd(st.reg, Rs(w)), Rd(st.reg, Rt(w));
    if IsAlu(fn) then Done(st.(reg := Wr(st.reg, Rd5(w), Alu(fn, Sa(w), s, t, st.hi, st.lo))), Next)
    else if fn == 15 then Done(st, Next)
    else if fn == 17 then Done(st.(hi := s), Next)
    else if fn == 19 then Done(st.(lo := s), Next)
    else if fn == 24 || fn == 25 then var p := Mul64(s, t, fn == 24); Done(st.(hi := p.0, lo := p.1), Next)
    else if fn == 26 || fn == 27 then
      if t == 0 then Done(st, Next)
      else var p := E.Divide(fn == 26, s, t); Done(st.(hi := p.0, lo := p.1), Next)
    else Unsupported
  }

  /** JR and JALR: the target is read before or after the link is written, as the code has it. */
  function JumpRegister(st: State, w: Word, pc: Word): Result {
    var reg := if Fn(w) == 9 then Wr(st.reg, Rd5(w), S32(pc + 8)) else st.reg;
    var v := U32(Rd(reg, Rs(w)));
    Done(st.(reg := reg), Delay(v - v % 2, v % 2 == 1))
  }

  function Immediate(op: int, s: Int32, imm: Half, simm: int): Int32
    requires 8 <= op <= 15
  {
    if op == 8 || op == 9 then S32(s + simm)
    else if op == 10 then E.Less(D.Slti, s, simm)
    else if op == 11 then E.Less(D.Sltiu, s, simm)
    else if op == 12 then E.Logic(D.And, s, imm)
    else if op == 13 then E.Logic(D.Or, s, imm)
    else if op == 14 then E.Logic(D.Xor, s, imm)
    else S32(imm * 0x1_0000)
  }

  predicate IsBranch(op: int, rt: Reg) {
    4 <= op <= 7 || 20 <= op <= 23 || (op == 1 && rt in {0, 1, 2, 3, 16, 17, 18, 19})
  }

  predicate Taken(op: int, rt: Reg, s: Int32, t: Int32)
    requires IsBranch(op, rt)
  {
    if op == 1 then (if rt % 2 == 0 then s < 0 else s >= 0)
    else if op == 4 || op == 20 then s == t
    else if op == 5 || op == 21 then s != t
    else if op == 6 || op == 22 then s <= 0
    else s > 0
  }

  /** A likely branch that is not taken annuls its slot. */
  predicate Likely(op: int, rt: Reg) {
    op >= 20 || (op == 1 && rt / 2 % 2 == 1)
  }

  function BranchOp(st: State, w: Word, pc: Word): Result
    requires IsBranch(Op(w), Rt(w))
  {
    var op, rt := Op(w), Rt(w);
    var taken := Taken(op, rt, Rd(st.reg, Rs(w)), Rd(st.reg, rt));
    var reg := if op == 1 && rt >= 16 then Wr(st.reg, 31, S32(pc + 8)) else st.reg;
    Done(st.(reg := reg),
         if taken then Delay(U32(pc + 4 + 4 * SImm(w)), false) else if Likely(op, rt) then Annul else Next)
  }

  /** J, JAL and JALX jump within the slot's 256 MB region. */
  function JumpOp(st: State, w: Word, pc: Word): Result {
    var target := U32(pc + 4) / 0x1000_0000 * 0x1000_0000 + w % 0x400_0000 * 4;
    Done(if Op(w) == 2 then st else st.(reg := Wr(st.reg, 31, S32(pc + 8))), Delay(target, Op(w) == 29))
  }

  // `&^=` and `|=` with a mask of one bit. In Status, EXL is the mask 2 and ERL the mask 4.
  function ClearMask(w: Word, b: nat): Word
    requires b > 0
  {
    if w / b % 2 == 1 then U32(w - b) else w
  }

  function SetMask(w: Word, b: nat): Word
    requires b > 0
  {
    if w / b % 2 == 1 then w else U32(w + b)
  }

  const ERET := 0x4200_0018

  function Cop0(st: State, w: Word): Result
    requires |st.cop0| == 32
  {
    var rs, rd := Rs(w), Rd5(w);
    if rs == 0 then Done(st.(reg := Wr(st.reg, Rt(w), S32(st.cop0[rd]))), Next)
    else if rs == 4 then
      Done(st.(cop0 := st.cop0[rd := U32(Rd(st.reg, Rt(w)))], timer := st.timer && rd != 11), Next)
    else if w == ERET then
      var erl := st.cop0[12] / 4 % 2 == 1;
      var ret := st.cop0[if erl then 30 else 14];
      Done(st.(cop0 := st.cop0[12 := ClearMask(st.cop0[12], if erl then 4 else 2)]), Now(ret - ret % 2, ret % 2 == 1))
    else Unsupported
  }

  predicate IsMem(op: int) {
    op in {32, 33, 35, 36, 37, 40, 41, 43, 48, 56}
  }

  function LoadKind(op: int): D.LoadKind {
    if op == 32 then D.Lb else if op == 33 then D.Lh else if op == 36 then D.Lbu else if op == 37 then D.Lhu else D.Lw
  }

  function StoreKind(op: int): D.StoreKind {
    if op == 40 then D.Sb else if op == 41 then D.Sh else D.Sw
  }

  /** Loads, stores, LL and SC. A store ends a reservation; SC succeeds only on its address. */
  function MemOp(st: State, w: Word): Result
    requires IsMem(Op(w))
  {
    var op, rt, ea := Op(w), Rt(w), U32(Rd(st.reg, Rs(w)) + SImm(w));
    if op == 40 || op == 41 || op == 43 then
      Done(st.(mem := E.Store(StoreKind(op), st.mem, ea, Rd(st.reg, rt)), link := None), Next)
    else if op == 48 then
      Done(st.(reg := Wr(st.reg, rt, E.Load(D.Lw, st.mem, ea)), link := Some(ea)), Next)
    else if op == 56 then
      if st.link == Some(ea) then
        Done(st.(reg := Wr(st.reg, rt, 1), mem := E.Store(D.Sw, st.mem, ea, Rd(st.reg, rt)), link := None), Next)
      else Done(st.(reg := Wr(st.reg, rt, 0), link := None), Next)
    else Done(st.(reg := Wr(st.reg, rt, E.Load(LoadKind(op), st.mem, ea))), Next)
  }

  // ---- LWL, LWR, SWL, SWR, byte by byte -----------------------------------------------------

  /** Byte k of a word, the most significant first. */
  function ByteOf(v: Word, k: nat): Byte
    requires k < 4
  {
    if k == 0 then v / 0x100_0000 else if k == 1 then v / 0x1_0000 % 0x100 else if k == 2 then v / 0x100 % 0x100 else v % 0x100
  }

  function OfBytes(a: Byte, b: Byte, c: Byte, d: Byte): Word {
    a * 0x100_0000 + b * 0x1_0000 + c * 0x100 + d
  }

  /** LWL fills the register's high end with the bytes from n to the end of the aligned word. */
  function LeftByte(n: nat, word: Word, was: Word, k: nat): Byte
    requires n < 4 && k < 4
  {
    if k < 4 - n then ByteOf(word, n + k) else ByteOf(was, k)
  }

  /** LWR fills the low end with the bytes from the start of the aligned word to n. */
  function RightByte(n: nat, word: Word, was: Word, k: nat): Byte
    requires n < 4 && k < 4
  {
    if k >= 3 - n then ByteOf(word, k - (3 - n)) else ByteOf(was, k)
  }

  function LoadPart(op: int, n: nat, word: Word, was: Word): Word
    requires n < 4
  {
    if op == 34 then
      OfBytes(LeftByte(n, word, was, 0), LeftByte(n, word, was, 1), LeftByte(n, word, was, 2), LeftByte(n, word, was, 3))
    else
      OfBytes(RightByte(n, word, was, 0), RightByte(n, word, was, 1), RightByte(n, word, was, 2), RightByte(n, word, was, 3))
  }

  /** What SWL and SWR leave in the aligned word: memory byte k. */
  function StoreByte(op: int, n: nat, word: Word, v: Word, k: nat): Byte
    requires n < 4 && k < 4
  {
    if op == 42 then (if k >= n then ByteOf(v, k - n) else ByteOf(word, k))
    else if k <= n then ByteOf(v, 3 - n + k) else ByteOf(word, k)
  }

  function StorePart(op: int, n: nat, word: Word, v: Word): Word
    requires n < 4
  {
    OfBytes(StoreByte(op, n, word, v, 0), StoreByte(op, n, word, v, 1), StoreByte(op, n, word, v, 2), StoreByte(op, n, word, v, 3))
  }

  predicate IsUnaligned(op: int) {
    op in {34, 38, 42, 46}
  }

  function UnalignedOp(st: State, w: Word): Result
    requires IsUnaligned(Op(w))
  {
    var op, rt, ea := Op(w), Rt(w), U32(Rd(st.reg, Rs(w)) + SImm(w));
    var n, word, v := ea % 4, Read32(st.mem, ea - ea % 4), U32(Rd(st.reg, rt));
    if op == 34 || op == 38 then Done(st.(reg := Wr(st.reg, rt, S32(LoadPart(op, n, word, v)))), Next)
    else Done(st.(mem := Write32(st.mem, ea - n, StorePart(op, n, word, v)), link := None), Next)
  }

  /** One MIPS32 instruction. */
  function Execute(st: State, w: Word, pc: Word): Result
    requires |st.cop0| == 32
  {
    var op := Op(w);
    if op == 0 then if Fn(w) == 8 || Fn(w) == 9 then JumpRegister(st, w, pc) else Special(st, w)
    else if IsBranch(op, Rt(w)) then BranchOp(st, w, pc)
    else if op == 2 || op == 3 || op == 29 then JumpOp(st, w, pc)
    else if 8 <= op <= 15 then
      Done(st.(reg := Wr(st.reg, Rt(w), Immediate(op, Rd(st.reg, Rs(w)), Imm(w), SImm(w)))), Next)
    else if op == 16 then Cop0(st, w)
    else if IsMem(op) then MemOp(st, w)
    else if IsUnaligned(op) then UnalignedOp(st, w)
    else if op == 47 then Done(st, Next)
    else Unsupported
  }
}
