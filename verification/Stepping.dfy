// internal/cpu/core.go and internal/cpu/snapshot.go: what one Step does to the whole processor,
// as a function from state to state, and what every run of it keeps. The class in Core.dfy is
// proved to compute this function.
module Stepping {
  import opened Words
  import opened Memory
  import opened Frames
  import opened Multiply
  import D = OracleDecode
  import E = OracleExec
  import M = Mips32

  datatype Branch = Branch(target: Word, from: Word, isa: bool, armed: bool, immediate: bool)

  const NO_BRANCH := Branch(0, 0, false, false, false)

  /** A likely branch that was not taken skips its slot. */
  const SKIP_SLOT := Branch(0xFFFF_FFFF, 0, false, false, false)

  /** Everything the core owns, and the memory behind its bus. `link` is the address of a live
      LL reservation, `lines` the external interrupt requests. */
  datatype Snap = Snap(reg: Regs, hi: Int32, lo: Int32, cop0: seq<Word>, mem: Mem, link: Option<Word>,
                       timer: bool, lines: Byte, pc: Word, isa: bool, delayed: Branch)
  {
    predicate Shaped() {
      |cop0| == 32
    }

    /** The part the MIPS32 instructions work on. */
    function Core32(): M.State {
      M.State(reg, hi, lo, cop0, mem, link, timer)
    }

    function With(st: M.State): Snap {
      this.(reg := st.reg, hi := st.hi, lo := st.lo, cop0 := st.cop0, mem := st.mem, link := st.link, timer := st.timer)
    }

    /** The part the oracle has. */
    function Oracle(): E.Cpu {
      E.Cpu(pc, isa, reg, hi, lo, if delayed.armed then E.Slot(delayed.target, delayed.isa, delayed.from) else E.NoSlot)
    }
  }

  datatype Why = HookFailed | Misaligned | Undecoded | BranchInSlot
  datatype Stepped = Retired(s: Snap) | Halted(why: Why, s: Snap)

  /** What the boundary callback does: the lines it raises, in order, and whether it fails. */
  datatype Hook = NoHook | Pump(lines: seq<nat>, fails: bool)
  {
    predicate Raises() {
      Pump? ==> forall k :: 0 <= k < |lines| ==> lines[k] <= 7
    }
  }

  // ---- Count, Compare and interrupts --------------------------------------------------------

  function Tick(s: Snap): Snap
    requires s.Shaped()
  {
    var count := AddW(s.cop0[9], 1);
    s.(cop0 := s.cop0[9 := count], timer := s.timer || (s.cop0[11] != 0 && count == s.cop0[11]))
  }

  /** The Cause IP bits being requested. */
  function Requests(s: Snap): Word {
    if s.timer then OrW(s.lines * 0x100, 0x8000) else s.lines * 0x100
  }

  /** Requested, enabled by IE, not masked by EXL or ERL, and enabled by IM. */
  predicate Deliverable(s: Snap)
    requires s.Shaped()
  {
    var ip, status := Requests(s), s.cop0[12];
    && ip != 0
    && status % 2 == 1
    && status / 2 % 4 == 0
    && AndW(AndW(status, ip), 0xFF00) != 0
  }

  /** Taking the exception: Cause, EPC with the ISA in bit 0, EXL, and the vector BEV selects. */
  function Deliver(s: Snap): Snap
    requires s.Shaped()
  {
    var status := s.cop0[12];
    var cause := OrW(AndW(s.cop0[13], 0xFFFF_0083), Requests(s));
    s.(cop0 := s.cop0[13 := cause][14 := if s.isa then OrW(s.pc, 1) else s.pc][12 := M.SetMask(status, 2)],
       pc := if status / 0x40_0000 % 2 == 1 then 0xBFC0_0380 else 0x8000_0180,
       isa := false, lines := 0, link := None)
  }

  function Bit(ip: nat): nat
    requires ip <= 7
  {
    if ip == 0 then 1 else if ip == 1 then 2 else if ip == 2 then 4 else if ip == 3 then 8
    else if ip == 4 then 16 else if ip == 5 then 32 else if ip == 6 then 64 else 128
  }

  function Raise(lines: Byte, ip: nat): Byte
    requires ip <= 7
  {
    if lines / Bit(ip) % 2 == 1 then lines else lines + Bit(ip)
  }

  function RaiseAll(lines: Byte, ips: seq<nat>): Byte
    requires forall k :: 0 <= k < |ips| ==> ips[k] <= 7
  {
    if ips == [] then lines else Raise(RaiseAll(lines, ips[..|ips| - 1]), ips[|ips| - 1])
  }

  /** Count ticks before every instruction except a MIPS32 delay slot. */
  function Ticked(s: Snap): Snap
    requires s.Shaped()
  {
    if !s.delayed.armed || s.isa then Tick(s) else s
  }

  /** Whether this step takes an interrupt first. */
  predicate Interrupted(s: Snap)
    requires s.Shaped()
  {
    !s.delayed.armed && Deliverable(Ticked(s))
  }

  /** The state the instruction starts in. */
  function Boundary(s: Snap, hook: Hook): Snap
    requires s.Shaped() && hook.Raises()
  {
    if Interrupted(s) then
      var v := Tick(Deliver(Ticked(s)));
      if hook.Pump? then v.(lines := RaiseAll(v.lines, hook.lines)) else v
    else Ticked(s)
  }

  // ---- One instruction ------------------------------------------------------------------------

  /** SAVE and RESTORE, which the Go core reserves and the oracle executes. */
  predicate FrameOp(i: D.Decoded) {
    i.Insn? && (i.x.SaveOp? || i.x.RestoreOp?)
  }

  /** A division whose divisor register holds zero: the Go core leaves HI and LO alone. */
  predicate ZeroDivide(c: E.Cpu, i: D.Decoded) {
    i.Insn? && i.x.Div? && Rd(c.reg, i.x.t) == 0
  }

  function Control(flow: E.Flow): M.Control {
    match flow
    case Straight => M.Next
    case BranchTo(to, isa) => M.Now(to, isa)
    case JumpTo(to, isa) => M.Delay(to, isa)
  }

  datatype Attempt = Refuse(why: Why) | Attempt(s: Snap, control: M.Control, length: int)

  function Attempt16(s: Snap): Attempt {
    var c := s.Oracle();
    var i := D.FetchDecode(s.mem, s.pc, E.PcBase(c));
    if i.Unknown? || FrameOp(i) || i.x.Trap? || i.x.BareExtend? then Refuse(Undecoded)
    else if ZeroDivide(c, i) then Attempt(s, M.Next, i.length)
    else
      var e := E.Operate(c, s.mem, i, s.pc);
      Attempt(s.(reg := e.reg, hi := e.hi, lo := e.lo, mem := e.mem), Control(e.flow), i.length)
  }

  function Attempt32(s: Snap): Attempt
    requires s.Shaped()
  {
    var r := M.Execute(s.Core32(), Read32(s.mem, s.pc), s.pc);
    if r.Unsupported? then Refuse(Undecoded) else Attempt(s.With(r.s), r.control, 4)
  }

  function Execute(s: Snap): Attempt
    requires s.Shaped()
  {
    if s.isa then if s.pc % 2 != 0 then Refuse(Misaligned) else Attempt16(s)
    else if s.pc % 4 != 0 then Refuse(Misaligned) else Attempt32(s)
  }

  /** Where control goes. A transfer in a delay slot is an error, raised after its effects. */
  function Retire(s: Snap, control: M.Control, length: int): Stepped {
    if s.delayed.armed then
      if control.Delay? || control.Now? then Halted(BranchInSlot, s)
      else Retired(s.(pc := s.delayed.target, isa := s.delayed.isa, delayed := NO_BRANCH))
    else
      match control
      case Next => Retired(s.(pc := U32(s.pc + length)))
      case Annul => Retired(s.(pc := U32(s.pc + length + 4)))
      case Delay(to, isa) =>
        Retired(s.(pc := U32(s.pc + length), delayed := Branch(to, s.pc, isa, true, false)))
      case Now(to, isa) => Retired(s.(pc := to, isa := isa))
  }

  function Perform(s: Snap): Stepped
    requires s.Shaped()
  {
    var a := Execute(s);
    if a.Refuse? then Halted(a.why, s) else Retire(a.s, a.control, a.length)
  }

  /** StepWithInterruptBoundary. */
  function Step(s: Snap, hook: Hook): Stepped
    requires s.Shaped() && hook.Raises()
  {
    var b := Boundary(s, hook);
    if Interrupted(s) && hook.Pump? && hook.fails then Halted(HookFailed, b) else Perform(b)
  }

  // ---- What every run keeps ---------------------------------------------------------------------

  /** Register 0 is zero, PC is even, and the delay record is empty unless a jump is pending. */
  predicate Sound(s: Snap) {
    && s.Shaped()
    && s.reg[0] == 0
    && s.pc % 2 == 0
    && if s.delayed.armed then
         && !s.delayed.immediate
         && s.delayed.target % 2 == 0
         && s.delayed.from % 2 == 0
         && (!s.isa ==> s.delayed.from % 4 == 0 && s.pc % 4 == 0)
       else s.delayed == NO_BRANCH
  }

  /** Core.Restore's test of the decoded blob. */
  predicate RestoreAccepts(s: Snap) {
    && |s.cop0| == 32
    && s.reg[0] == 0
    && s.pc % 2 == 0 && (s.isa || s.pc % 4 == 0)
    && (s.delayed.armed ==> !s.delayed.immediate && s.delayed.target % 2 == 0 && (s.delayed.isa || s.delayed.target % 4 == 0))
    && (s.delayed.armed ==> s.delayed.from % 2 == 0 && (s.isa || s.delayed.from % 4 == 0))
    && (!s.delayed.armed ==> !s.delayed.immediate && s.delayed.target == 0 && s.delayed.from == 0)
  }

  lemma BoundaryKeeps(s: Snap, hook: Hook)
    requires Sound(s) && hook.Raises()
    ensures Sound(Boundary(s, hook))
  {
    hide OrW, AndW, M.SetMask, Requests, RaiseAll, U32;
  }

  lemma EvenOffset(ext: Option<nat>, h: Half)
    ensures D.BranchOff(ext, h) % 2 == 0 && D.BOff(ext, h) % 2 == 0
  {
    hide D.Sx, D.ExtImm16;
  }

  predicate Even(i: D.Decoded) {
    i.Insn? ==> (i.length == 2 || i.length == 4) && (i.x.BranchOp? ==> i.x.off % 2 == 0) && (i.x.Jal? ==> i.x.tgt % 4 == 0)
  }

  lemma EvenJal(ext: Option<nat>, h: Half, next: Half, addr: Word)
    ensures Even(D.DecodeJal(ext, h, next, addr))
  {
    hide U32;
  }

  lemma EvenRr(ext: Option<nat>, h: Half)
    ensures Even(D.DecodeRr(ext, h)) && Even(D.DecodeRrr(ext, h))
  {
    hide D.Xl;
  }

  lemma EvenI8(ext: Option<nat>, h: Half)
    ensures Even(D.DecodeI8(ext, h, if ext.None? then 2 else 4))
  {
    EvenOffset(ext, h);
    hide D.BranchOff, D.Imm8, D.ImmS8, D.Xl;
  }

  lemma EvenMem(op: nat, ext: Option<nat>, h: Half, n: int, base: Word)
    requires n == 2 || n == 4
    ensures Even(D.DecodeMem(op, ext, h, n)) && Even(D.DecodeWord(op, ext, h, n, base))
  {
    hide D.MemOff, D.Imm8, D.Xl, D.Align4, U32;
  }

  lemma EvenLow(op: nat, ext: Option<nat>, h: Half, n: int, base: Word)
    requires n == 2 || n == 4
    ensures Even(D.DecodeImm(op, ext, h, n, base)) && Even(D.DecodeB(ext, h, n)) && Even(D.DecodeBz(op, ext, h, n))
    ensures Even(D.DecodeShift(ext, h, n)) && Even(D.DecodeRri(ext, h, n)) && Even(D.DecodeCond(op, ext, h, n))
  {
    EvenOffset(ext, h);
    hide D.BranchOff, D.BOff, D.Imm8, D.ImmS8, D.Imm15, D.ExtImm16, D.Align4, D.Xl, U32;
  }

  /** Branches and jumps encode even distances, and every instruction is a whole number of
      halfwords. */
  lemma EvenDecode(h: Half, ext: Option<nat>, next: Half, addr: Word, base: Word)
    ensures Even(D.Decode(h, ext, next, addr, base))
  {
    var op, n := h / 0x800, if ext.None? then 2 else 4;
    EvenJal(ext, h, next, addr);
    EvenRr(ext, h);
    EvenI8(ext, h);
    EvenMem(op, ext, h, n, base);
    EvenLow(op, ext, h, n, base);
    hide D.DecodeJal, D.DecodeRr, D.DecodeRrr, D.DecodeI8, D.DecodeMem, D.DecodeWord, D.DecodeImm, D.DecodeB, D.DecodeBz,
      D.DecodeShift, D.DecodeRri, D.DecodeCond;
  }

  lemma JumpKeeps(k: D.JumpKind, x: D.Payload, reg: Regs, pc: Word)
    requires x.JumpOp? && reg[0] == 0
    ensures var p := E.Jump(k, x, reg, pc); p.0[0] == 0 && (!p.1.Straight? ==> p.1.target % 2 == 0)
  {
    hide E.Link, U32;
  }

  predicate Executes(i: D.Decoded) {
    i.Insn? && !FrameOp(i) && !i.x.Trap? && !i.x.BareExtend?
  }

  /** Only the branches and jumps transfer control. */
  lemma OthersGoStraight(c: E.Cpu, m: Mem, i: D.Decoded, pc: Word)
    requires Executes(i) && !i.x.BranchOp? && !i.x.Jal? && !i.x.JumpOp?
    ensures E.Operate(c, m, i, pc).Effect? && E.Operate(c, m, i, pc).flow.Straight?
  {
    hide S32, U32, Wr, Rd, AndW, OrW, XorW, Pow2, E.Imm, E.Arith, E.Logic, E.Cond, E.Less, E.Shift, E.ShiftV, E.Divide,
      E.Cnvt, E.Load, E.Store, E.Addend, E.Jump, E.Link, Mul64, Save, Restore, D.Align4;
  }

  lemma BranchEven(c: E.Cpu, m: Mem, i: D.Decoded, pc: Word)
    requires i.Insn? && Even(i) && i.x.BranchOp? && pc % 2 == 0
    ensures var e := E.Operate(c, m, i, pc); e.Effect? && (!e.flow.Straight? ==> e.flow.target % 2 == 0)
  {
    assert U32(pc + i.length + i.x.off) % 2 == 0;
    hide E.Taken, U32, S32, Wr, Rd, AndW, OrW, XorW, Pow2, E.Imm, E.Arith, E.Logic, E.Cond, E.Less, E.Shift, E.ShiftV, E.Divide,
      E.Cnvt, E.Load, E.Store, E.Addend, E.Jump, E.Link, Mul64, Save, Restore, D.Align4;
  }

  lemma JumpEven(c: E.Cpu, m: Mem, i: D.Decoded, pc: Word)
    requires i.Insn? && Even(i) && (i.x.Jal? || i.x.JumpOp?) && c.reg[0] == 0
    ensures var e := E.Operate(c, m, i, pc); e.Effect? && (!e.flow.Straight? ==> e.flow.target % 2 == 0)
  {
    if i.x.JumpOp? {
      JumpKeeps(i.x.jump, i.x, c.reg, pc);
    } else {
      assert i.x.tgt % 2 == 0;
    }
    hide E.Taken, U32, S32, Wr, Rd, AndW, OrW, XorW, Pow2, E.Imm, E.Arith, E.Logic, E.Cond, E.Less, E.Shift, E.ShiftV, E.Divide,
      E.Cnvt, E.Load, E.Store, E.Addend, E.Jump, E.Link, Mul64, Save, Restore, D.Align4;
  }

  /** Where a MIPS16 instruction sends control is even. */
  lemma Operate16Even(s: Snap, i: D.Decoded)
    requires Sound(s) && Even(i) && Executes(i)
    ensures var e := E.Operate(s.Oracle(), s.mem, i, s.pc);
            e.Effect? && (!e.flow.Straight? ==> e.flow.target % 2 == 0)
  {
    hide E.Operate;
    if i.x.BranchOp? {
      BranchEven(s.Oracle(), s.mem, i, s.pc);
    } else if i.x.Jal? || i.x.JumpOp? {
      JumpEven(s.Oracle(), s.mem, i, s.pc);
    } else {
      OthersGoStraight(s.Oracle(), s.mem, i, s.pc);
    }
  }

  /** Register 0 is written by no MIPS16 instruction. */
  lemma Operate16Zero(s: Snap, i: D.Decoded)
    requires Sound(s) && Executes(i)
    ensures E.Operate(s.Oracle(), s.mem, i, s.pc).Effect? && E.Operate(s.Oracle(), s.mem, i, s.pc).reg[0] == 0
  {
    if i.x.JumpOp? { JumpKeeps(i.x.jump, i.x, s.reg, s.pc); }
    hide S32, U32, AndW, OrW, XorW, Pow2, E.Arith, E.Logic, E.Cond, E.Less, E.Shift, E.ShiftV, E.Divide, E.Cnvt, E.Load,
      E.Store, D.Align4, E.Addend, E.Taken, E.Jump, Mul64, E.Link;
  }

  lemma Rem4(x: int, q: int, r: int)
    requires x == q * 4 + r && 0 <= r < 4
    ensures x % 4 == r && x % 2 == r % 2
  {
  }

  /** Wrapping at 2^32 keeps the remainder modulo four. */
  lemma EvenWrap(x: int)
    ensures U32(x) % 4 == x % 4 && U32(x) % 2 == x % 2
  {
    var k, q, r := x / 0x1_0000_0000, x / 4, x % 4;
    assert x == q * 4 + r;
    assert U32(x) == x - k * 0x1_0000_0000;
    Rem4(x, q, r);
    Rem4(U32(x), q - k * 0x4000_0000, r);
  }

  lemma EvenNext(pc: Word, n: int)
    requires n % 2 == 0
    ensures pc % 2 == 0 ==> U32(pc + n) % 2 == 0
    ensures pc % 4 == 0 && n % 4 == 0 ==> U32(pc + n) % 4 == 0
  {
    EvenWrap(pc + n);
    SumRem(pc, n);
    hide U32;
  }

  /** The remainders modulo four of a sum, as one case distinction. */
  lemma SumRem(x: int, y: int)
    ensures (x + y) % 4 == if x % 4 + y % 4 < 4 then x % 4 + y % 4 else x % 4 + y % 4 - 4
    ensures (x + y) % 2 == 0 <==> x % 2 == y % 2
  {
    var p, a, q, b := x / 4, x % 4, y / 4, y % 4;
    Rem4(x, p, a);
    Rem4(y, q, b);
    if a + b < 4 {
      Rem4(x + y, p + q, a + b);
    } else {
      Rem4(x + y, p + q + 1, a + b - 4);
    }
  }

  lemma SpecialKeeps(st: M.State, w: Word)
    requires |st.cop0| == 32 && st.reg[0] == 0
    ensures var r := M.Special(st, w); r.Done? ==> |r.s.cop0| == 32 && r.s.reg[0] == 0 && r.control.Next?
  {
    hide M.Alu, M.IsAlu, E.Divide, M.Rs, M.Rt, M.Rd5, S32, U32;
  }

  predicate EvenControl(c: M.Control) {
    c.Delay? || c.Now? ==> c.target % 2 == 0
  }

  predicate Keeps(st: M.State, r: M.Result) {
    r.Done? ==> |r.s.cop0| == 32 && r.s.reg[0] == 0 && EvenControl(r.control)
  }

  lemma JumpRegisterKeeps(st: M.State, w: Word, pc: Word)
    requires |st.cop0| == 32 && st.reg[0] == 0
    ensures Keeps(st, M.JumpRegister(st, w, pc))
  {
    hide M.Rs, M.Rd5, M.Fn, U32, S32;
  }

  lemma JumpOpKeeps(st: M.State, w: Word, pc: Word)
    requires |st.cop0| == 32 && st.reg[0] == 0
    ensures Keeps(st, M.JumpOp(st, w, pc))
  {
    var region, index := U32(pc + 4) / 0x1000_0000, w % 0x400_0000;
    assert (region * 0x1000_0000 + index * 4) % 2 == 0;
    hide M.Op, U32, S32;
  }

  lemma BranchOpKeeps(st: M.State, w: Word, pc: Word)
    requires |st.cop0| == 32 && st.reg[0] == 0 && pc % 4 == 0 && M.IsBranch(M.Op(w), M.Rt(w))
    ensures Keeps(st, M.BranchOp(st, w, pc))
  {
    var n := M.SImm(w);
    Rem4(pc + 4 + 4 * n, pc / 4 + 1 + n, 0);
    EvenWrap(pc + 4 + 4 * n);
    hide M.Taken, M.Likely, M.SImm, M.Rs, M.Rt, M.Op, U32, S32;
  }

  lemma TransferKeeps(st: M.State, w: Word, pc: Word)
    requires |st.cop0| == 32 && st.reg[0] == 0 && pc % 4 == 0
    ensures Keeps(st, M.JumpRegister(st, w, pc)) && Keeps(st, M.JumpOp(st, w, pc))
    ensures M.IsBranch(M.Op(w), M.Rt(w)) ==> Keeps(st, M.BranchOp(st, w, pc))
  {
    JumpRegisterKeeps(st, w, pc);
    JumpOpKeeps(st, w, pc);
    if M.IsBranch(M.Op(w), M.Rt(w)) { BranchOpKeeps(st, w, pc); }
    hide M.JumpRegister, M.JumpOp, M.BranchOp, Keeps;
  }

  lemma DataKeeps(st: M.State, w: Word)
    requires |st.cop0| == 32 && st.reg[0] == 0
    ensures var r := M.Cop0(st, w); r.Done? ==> |r.s.cop0| == 32 && r.s.reg[0] == 0 && EvenControl(r.control)
    ensures M.IsMem(M.Op(w)) ==> var r := M.MemOp(st, w); |r.s.cop0| == 32 && r.s.reg[0] == 0 && r.control.Next?
    ensures M.IsUnaligned(M.Op(w)) ==> var r := M.UnalignedOp(st, w); |r.s.cop0| == 32 && r.s.reg[0] == 0 && r.control.Next?
  {
    hide M.SImm, M.Rs, M.Rt, M.Rd5, M.Op, M.Fn, U32, S32, E.Load, E.Store, M.ClearMask, M.LoadPart, M.StorePart, Read32,
      Write32, M.LoadKind, M.StoreKind;
  }

  lemma Execute32Keeps(st: M.State, w: Word, pc: Word)
    requires |st.cop0| == 32 && st.reg[0] == 0 && pc % 4 == 0
    ensures var r := M.Execute(st, w, pc); r.Done? ==> |r.s.cop0| == 32 && r.s.reg[0] == 0 && EvenControl(r.control)
  {
    SpecialKeeps(st, w);
    TransferKeeps(st, w, pc);
    DataKeeps(st, w);
    hide M.Special, M.JumpRegister, M.JumpOp, M.BranchOp, M.Cop0, M.MemOp, M.UnalignedOp, M.Immediate, M.IsBranch, M.IsMem,
      M.IsUnaligned, M.SImm, M.Rs, M.Rt, M.Op, M.Fn, M.Imm, U32, S32;
  }

  lemma ExecuteKeeps(s: Snap)
    requires Sound(s)
    ensures var a := Execute(s);
            a.Attempt? ==>
              && Sound(a.s) && EvenControl(a.control)
              && a.s.pc == s.pc && a.s.isa == s.isa && a.s.delayed == s.delayed
              && (a.length == 2 || a.length == 4)
              && (!s.isa ==> a.length == 4 && s.pc % 4 == 0)
  {
    hide D.FetchDecode, E.Operate, ZeroDivide, U32, Even, M.Execute, Read32;
    if s.isa {
      var i := D.FetchDecode(s.mem, s.pc, E.PcBase(s.Oracle()));
      EvenFetch(s.mem, s.pc, E.PcBase(s.Oracle()));
      if i.Insn? { EvenLength(i); }
      if Executes(i) {
        Operate16Even(s, i);
        Operate16Zero(s, i);
      }
    } else if s.pc % 4 == 0 {
      Execute32Keeps(s.Core32(), Read32(s.mem, s.pc), s.pc);
    }
  }

  lemma EvenLength(i: D.Decoded)
    requires Even(i) && i.Insn?
    ensures i.length == 2 || i.length == 4
  {
  }

  lemma EvenFetch(m: Mem, pc: Word, base: Word)
    ensures Even(D.FetchDecode(m, pc, base))
  {
    hide D.Decode, Read16, U32, Even;
    var hw, next := Read16(m, pc), Read16(m, U32(pc + 2));
    EvenDecode(hw, None, next, pc, base);
    EvenDecode(next, Some(hw % 0x800), Read16(m, U32(pc + 4)), pc, base);
  }

  lemma RetireKeeps(s: Snap, control: M.Control, length: int)
    requires Sound(s) && EvenControl(control) && (length == 2 || length == 4)
    requires !s.isa ==> length == 4 && s.pc % 4 == 0
    ensures Sound(Retire(s, control, length).s)
  {
    EvenNext(s.pc, length);
    EvenNext(s.pc, length + 4);
    hide U32;
  }

  lemma PerformKeeps(s: Snap)
    requires Sound(s)
    ensures Sound(Perform(s).s)
  {
    ExecuteKeeps(s);
    var a := Execute(s);
    if a.Attempt? { RetireKeeps(a.s, a.control, a.length); }
    hide Execute, Retire;
  }

  /** A step keeps the invariant whether it retires or halts, even half way through. */
  lemma StepKeeps(s: Snap, hook: Hook)
    requires Sound(s) && hook.Raises()
    ensures Sound(Step(s, hook).s)
  {
    BoundaryKeeps(s, hook);
    PerformKeeps(Boundary(s, hook));
    hide Perform, Boundary, Interrupted;
  }

  /** The word alignment of MIPS32 addresses, which running does not keep. */
  predicate WordAligned(s: Snap) {
    && (!s.isa ==> s.pc % 4 == 0)
    && (s.delayed.armed && !s.delayed.isa ==> s.delayed.target % 4 == 0)
  }

  /** Exactly which reachable states survive a snapshot and restore. */
  lemma RestoreAcceptsReachable(s: Snap)
    requires Sound(s)
    ensures RestoreAccepts(s) <==> WordAligned(s)
  {
  }

  /** JR to register 8, which holds 2. */
  const JUMP_TO_TWO := Snap(seq(32, i => if i == 8 then 2 else 0), 0, 0, seq(32, i => 0), map[0 := 1, 3 := 8], None, false, 0,
                            0, false, NO_BRANCH)

  lemma Performs32(s: Snap, st: M.State, control: M.Control)
    requires s.Shaped() && !s.isa && s.pc % 4 == 0
    requires M.Execute(s.Core32(), Read32(s.mem, s.pc), s.pc) == M.Done(st, control)
    ensures Perform(s) == Retire(s.With(st), control, 4)
  {
    hide M.Execute, Read32;
  }

  lemma Quiet(s: Snap)
    requires s.Shaped() && s.lines == 0 && !s.timer && s.cop0[11] == 0 && !s.delayed.armed
    ensures Step(s, NoHook) == Perform(Tick(s))
  {
    hide Perform, AndW, OrW;
  }

  lemma JrInMemory()
    ensures Read32(JUMP_TO_TWO.mem, 0) == 0x0100_0008
  {
    var m: Mem := map[0 := 1, 3 := 8];
    assert Read16(m, 0) == 0x100 && Read16(m, 2) == 8;
  }

  lemma JrDecodes(st: M.State)
    requires |st.cop0| == 32 && st.reg[8] == 2
    ensures M.Execute(st, 0x0100_0008, 0) == M.Done(st, M.Delay(2, false))
  {
    assert M.Op(0x0100_0008) == 0 && M.Fn(0x0100_0008) == 8 && M.Rs(0x0100_0008) == 8;
    hide M.Op, M.Fn, M.Rs, M.Special, M.BranchOp, M.JumpOp, M.Cop0, M.MemOp, M.UnalignedOp;
  }

  /** A MIPS32 register jump to 2 modulo 4 retires into a sound state that Restore refuses. */
  lemma RefusedAfterJump()
    ensures Sound(JUMP_TO_TWO) && RestoreAccepts(JUMP_TO_TWO)
    ensures var r := Step(JUMP_TO_TWO, NoHook); r.Retired? && Sound(r.s) && !RestoreAccepts(r.s)
  {
    hide M.Execute, Boundary, Read32, Step, Perform;
    var s, b := JUMP_TO_TWO, Tick(JUMP_TO_TWO);
    Quiet(s);
    JrDecodes(b.Core32());
    JrInMemory();
    Performs32(b, b.Core32(), M.Delay(2, false));
  }

  // ---- Interrupts ---------------------------------------------------------------------------------

  /** AND with n ones keeps the low n bits. */
  lemma {:induction false} AndOnes(a: nat, n: nat)
    requires a < Pow2(n)
    ensures AndBits(a, Pow2(n) - 1) == a
  {
    if a == 0 {
    } else {
      AndOnes(a / 2, n - 1);
      assert (Pow2(n) - 1) / 2 == Pow2(n - 1) - 1 && (Pow2(n) - 1) % 2 == 1;
    }
  }

  lemma ClearLowest(a: Word)
    requires a % 2 == 1
    ensures AndBits(a, 0xFFFF_FFFE) == a - 1
  {
    assert Pow2(31) == 0x8000_0000 by {
      assert Pow2(8) == 0x100 && Pow2(16) == 0x1_0000 && Pow2(24) == 0x100_0000;
    }
    AndOnes(a / 2, 31);
    hide Pow2;
    assert AndBits(a, 0xFFFF_FFFE) == 2 * AndBits(a / 2, 0x7FFF_FFFF);
  }

  lemma OrOne(v: Word)
    requires v % 2 == 0
    ensures OrW(v, 1) == v + 1
  {
    assert (0xFFFF_FFFF - v) % 2 == 1;
    ClearLowest(0xFFFF_FFFF - v);
    hide AndBits;
  }

  /** With a slot pending no interrupt is taken: at most Count moves. */
  lemma SlotIsNotInterrupted(s: Snap, hook: Hook)
    requires Sound(s) && hook.Raises() && s.delayed.armed
    ensures !Interrupted(s)
    ensures var b := Boundary(s, hook);
            b == s.(cop0 := b.cop0, timer := b.timer) && b.cop0 == s.cop0[9 := b.cop0[9]]
  {
  }

  /** Until software clears EXL, nothing else is delivered. */
  lemma DeliveryMasks(s: Snap, h: Snap)
    requires s.Shaped() && Deliverable(s) && h.Shaped() && h.cop0[12] == Deliver(s).cop0[12]
    ensures !Deliverable(h)
  {
    hide OrW, AndW, Requests;
  }

  /** A handler's state about to execute ERET, with Status and EPC as the delivery left them. */
  predicate Returning(s: Snap, h: Snap)
    requires s.Shaped()
  {
    && Sound(h) && !h.isa && h.pc % 4 == 0 && !h.delayed.armed && Read32(h.mem, h.pc) == M.ERET
    && h.cop0[12] == Deliver(s).cop0[12] && h.cop0[14] == Deliver(s).cop0[14]
  }

  predicate Resumed(s: Snap, h: Snap, r: Stepped)
    requires s.Shaped()
  {
    && r.Retired? && r.s.Shaped()
    && r.s.pc == s.pc && r.s.isa == s.isa && r.s.cop0[12] == s.cop0[12]
    && r.s.reg == h.reg && r.s.mem == h.mem && r.s.delayed == NO_BRANCH
  }

  lemma EretIsCop0(st: M.State, pc: Word)
    requires |st.cop0| == 32
    ensures M.Execute(st, M.ERET, pc) == M.Cop0(st, M.ERET)
  {
    hide M.Special, M.Cop0;
  }

  /** EXL, set by the delivery and cleared by ERET. */
  lemma ExlSetThenCleared(status: Word)
    requires status / 2 % 4 == 0
    ensures var d := M.SetMask(status, 2); d / 4 % 2 == 0 && M.ClearMask(d, 2) == status
  {
    hide M.SetMask, M.ClearMask;
    var q, r := status / 8, status % 8;
    Octet(status, q, r);
    assert r < 2;
    Octet(8 * q + r + 2, q, r + 2);
    MaskTwo(status, q, r);
  }

  lemma Octet(x: int, q: int, r: int)
    requires x == 8 * q + r && 0 <= r < 8
    ensures x / 2 == 4 * q + r / 2 && x / 4 == 2 * q + r / 4
    ensures x / 2 % 4 == r / 2 && x / 4 % 2 == r / 4
  {
  }

  lemma MaskTwo(status: Word, q: int, r: int)
    requires status == 8 * q + r && 0 <= r < 2
    ensures M.SetMask(status, 2) == 8 * q + r + 2 && M.ClearMask(8 * q + r + 2, 2) == status
  {
  }

  lemma EretGoesTo(st: M.State, status: Word, pc: Word, isa: bool)
    requires |st.cop0| == 32 && pc % 2 == 0 && status / 2 % 4 == 0
    requires st.cop0[12] == M.SetMask(status, 2) && st.cop0[14] as int == if isa then pc + 1 else pc
    ensures M.Cop0(st, M.ERET) == M.Done(st.(cop0 := st.cop0[12 := status]), M.Now(pc, isa))
  {
    ExlSetThenCleared(status);
    assert M.Rs(M.ERET) == 16;
    hide M.SetMask, M.ClearMask, M.Rs;
  }

  lemma DeliveredState(s: Snap)
    requires Sound(s)
    ensures Deliver(s).cop0[12] == M.SetMask(s.cop0[12], 2)
    ensures Deliver(s).cop0[14] as int == if s.isa then s.pc + 1 else s.pc
  {
    OrOne(s.pc);
    hide AndW, OrW, Requests, M.SetMask;
  }

  lemma EretReturns(s: Snap, h: Snap)
    requires Sound(s) && Deliverable(s) && Returning(s, h)
    ensures Resumed(s, h, Perform(h))
  {
    DeliveredState(s);
    assert s.cop0[12] / 2 % 4 == 0;
    EretIsCop0(h.Core32(), h.pc);
    hide Deliver, Deliverable, M.SetMask, Requests, M.Execute, M.Cop0, Read32;
    EretGoesTo(h.Core32(), s.cop0[12], s.pc, s.isa);
    Performs32(h, h.Core32().(cop0 := h.cop0[12 := s.cop0[12]]), M.Now(s.pc, s.isa));
    hide Perform;
  }

  /** Taking an interrupt and then executing ERET with Status and EPC preserved puts PC, the
      instruction set and Status back, whatever else the handler did. */
  lemma InterruptReturns(s: Snap, h: Snap, hook: Hook)
    requires Sound(s) && Deliverable(s) && Returning(s, h) && hook.Raises()
    ensures !Interrupted(h) && Resumed(s, h, Step(h, hook))
  {
    DeliveryMasks(s, Tick(h));
    EretReturns(s, Tick(h));
    hide Deliverable, Deliver, Read32, Perform;
  }

  /** A delivered interrupt breaks an LL/SC pair: the store does not happen. */
  lemma InterruptBreaksLink(s: Snap, w: Word)
    requires s.Shaped() && M.Op(w) == 56
    ensures var st := Deliver(s).Core32();
            M.MemOp(st, w) == M.Done(st.(reg := Wr(st.reg, M.Rt(w), 0)), M.Next)
  {
    hide OrW, AndW, Requests, M.SetMask;
  }

  // ---- The oracle ------------------------------------------------------------------------------

  /** r is the core's answer and o the oracle's from the same state s, where i decodes. */
  predicate Matches(s: Snap, i: D.Decoded, r: Stepped, o: E.Outcome) {
    if FrameOp(i) then r.Halted? && r.s.Oracle() == s.Oracle() && r.s.mem == s.mem
    else if ZeroDivide(s.Oracle(), i) then
      && r.Retired? && o.Ran? && !o.unpredictable && r.s.mem == o.mem
      && r.s.Oracle() == o.cpu.(hi := s.hi, lo := s.lo)
    else if o.Halt? then r.Halted? && r.s.Oracle() == s.Oracle() && r.s.mem == s.mem
    else if o.unpredictable then r.Halted? && r.why == BranchInSlot
    else r.Retired? && r.s.Oracle() == o.cpu && r.s.mem == o.mem
  }

  lemma RetireMatches(s: Snap, t: Snap, i: D.Decoded, e: E.Effect)
    requires Sound(s) && s.isa && i.Insn? && e.Effect?
    requires t == s.(reg := e.reg, hi := e.hi, lo := e.lo, mem := e.mem)
    ensures var r, o := Retire(t, Control(e.flow), i.length), E.Retire(s.Oracle(), i, s.pc, e);
            if o.unpredictable then r == Halted(BranchInSlot, t)
            else r.Retired? && r.s.Oracle() == o.cpu && r.s.mem == o.mem
  {
    hide U32;
  }

  lemma DivideTouchesHiLo(c: E.Cpu, m: Mem, i: D.Decoded, pc: Word)
    requires i.Insn? && i.x.Div?
    ensures var e := E.Operate(c, m, i, pc); e.Effect? && e == E.Effect(c.reg, e.hi, e.lo, m, E.Straight)
  {
    hide E.Divide;
  }

  lemma PerformMatches(s: Snap)
    requires Sound(s) && s.isa
    ensures Matches(s, D.FetchDecode(s.mem, s.pc, E.PcBase(s.Oracle())), Perform(s), E.Step(s.Oracle(), s.mem))
  {
    hide D.FetchDecode, E.Operate;
    var c := s.Oracle();
    var i := D.FetchDecode(s.mem, s.pc, E.PcBase(c));
    if Executes(i) {
      Operate16Zero(s, i);
      var e := E.Operate(c, s.mem, i, s.pc);
      if ZeroDivide(c, i) {
        DivideTouchesHiLo(c, s.mem, i, s.pc);
        RetireMatches(s, s, i, e.(hi := s.hi, lo := s.lo));
      } else {
        RetireMatches(s, s.(reg := e.reg, hi := e.hi, lo := e.lo, mem := e.mem), i, e);
        hide Retire, E.Retire;
      }
    } else if i.Insn? && !FrameOp(i) {
      RefusedByBoth(c, s.mem, i, s.pc);
    }
  }

  lemma RefusedByBoth(c: E.Cpu, m: Mem, i: D.Decoded, pc: Word)
    requires i.Insn? && (i.x.Trap? || i.x.BareExtend?)
    ensures E.Operate(c, m, i, pc).Refused?
  {
  }

  /** With no interrupt taken, a MIPS16 step is the oracle's, apart from the three places where
      the core's own rules differ; and where both refuse, nothing has moved. */
  lemma MatchesOracle(s: Snap, hook: Hook)
    requires Sound(s) && s.isa && !Interrupted(s) && hook.Raises()
    ensures Matches(s, D.FetchDecode(s.mem, s.pc, E.PcBase(s.Oracle())), Step(s, hook), E.Step(s.Oracle(), s.mem))
  {
    var b := Boundary(s, hook);
    assert b.Oracle() == s.Oracle() && b.mem == s.mem && b.pc == s.pc;
    BoundaryKeeps(s, hook);
    PerformMatches(b);
    hide D.FetchDecode, Interrupted, Boundary, Perform, E.Step;
  }

  /** What the core and the oracle are not meant to share: SAVE and RESTORE, a zero divisor, and
      a transfer of control in a delay slot. */
  predicate Excluded(s: Snap) {
    var c := s.Oracle();
    var i := D.FetchDecode(s.mem, s.pc, E.PcBase(c));
    || FrameOp(i) || ZeroDivide(c, i)
    || (s.delayed.armed && Executes(i) && E.Operate(c, s.mem, i, s.pc).Effect? && !E.Operate(c, s.mem, i, s.pc).flow.Straight?)
  }

  function Next(s: Snap): (r: Stepped)
    requires Sound(s)
    ensures Sound(r.s)
  {
    StepKeeps(s, NoHook); Step(s, NoHook)
  }

  /** n steps, stopping at the first halt. */
  function CoreRun(s: Snap, n: nat): (r: Stepped)
    requires Sound(s)
    ensures Sound(r.s)
    decreases n
  {
    if n == 0 then Retired(s)
    else
      var r := Next(s);
      if r.Halted? then r else CoreRun(r.s, n - 1)
  }

  datatype OracleEnd = OracleEnd(ok: bool, cpu: E.Cpu, mem: Mem)

  function OracleRun(c: E.Cpu, m: Mem, n: nat): OracleEnd
    decreases n
  {
    if n == 0 then OracleEnd(true, c, m)
    else
      var o := E.Step(c, m);
      if o.Halt? then OracleEnd(false, c, m) else OracleRun(o.cpu, o.mem, n - 1)
  }

  /** Each of the n steps starts in MIPS16 with no interrupt to take and nothing excluded. */
  predicate Shared(s: Snap, n: nat)
    requires Sound(s)
    decreases n
  {
    n > 0 ==> s.isa && !Interrupted(s) && !Excluded(s) && (Next(s).Retired? ==> Shared(Next(s).s, n - 1))
  }

  lemma NoTransferInSlot(s: Snap)
    requires Sound(s) && s.isa && !Excluded(s) && E.Step(s.Oracle(), s.mem).Ran?
    ensures !E.Step(s.Oracle(), s.mem).unpredictable
  {
    hide D.FetchDecode, E.Operate;
    var c := s.Oracle();
    var i := D.FetchDecode(s.mem, s.pc, E.PcBase(c));
    if !Executes(i) && !FrameOp(i) { RefusedByBoth(c, s.mem, i, s.pc); }
  }

  /** The two processors stay in lockstep for any number of steps on shared ground. */
  lemma {:induction false} Lockstep(s: Snap, n: nat)
    requires Sound(s) && Shared(s, n)
    ensures var r, o := CoreRun(s, n), OracleRun(s.Oracle(), s.mem, n);
            r.Retired? == o.ok && r.s.Oracle() == o.cpu && r.s.mem == o.mem
    decreases n
  {
    hide Next, E.Step, Sound, Interrupted, Excluded;
    if n == 0 {
    } else {
      OneShared(s);
      if Next(s).Retired? { Lockstep(Next(s).s, n - 1); }
    }
  }

  /** One step on shared ground. */
  lemma {:induction false} OneShared(s: Snap)
    requires Sound(s) && s.isa && !Interrupted(s) && !Excluded(s)
    ensures var r, o := Next(s), E.Step(s.Oracle(), s.mem);
            && r.Retired? == o.Ran?
            && r.s.Oracle() == (if o.Ran? then o.cpu else s.Oracle())
            && r.s.mem == if o.Ran? then o.mem else s.mem
  {
    hide Step, E.Step, Sound, Interrupted;
    MatchesOracle(s, NoHook);
    if E.Step(s.Oracle(), s.mem).Ran? { NoTransferInSlot(s); }
  }

  // ---- Every run --------------------------------------------------------------------------------

  /** What drives the core: instructions, interrupt lines, and a debugger moving PC. */
  datatype Event = StepOnce(hook: Hook) | RaiseLine(ip: nat) | DebugPc(pc: Word, isa: bool)
  {
    predicate Allowed() {
      match this
      case StepOnce(hook) => hook.Raises()
      case RaiseLine(ip) => ip <= 7
      case DebugPc(_, _) => true
    }
  }

  function After(s: Snap, e: Event): Snap
    requires s.Shaped() && e.Allowed()
  {
    match e
    case StepOnce(hook) => Step(s, hook).s
    case RaiseLine(ip) => s.(lines := Raise(s.lines, ip))
    case DebugPc(pc, isa) => if (isa && pc % 2 != 0) || (!isa && pc % 4 != 0) then s else s.(pc := pc, isa := isa, delayed := NO_BRANCH)
  }

  lemma AfterKeeps(s: Snap, e: Event)
    requires Sound(s) && e.Allowed()
    ensures Sound(After(s, e))
  {
    if e.StepOnce? { StepKeeps(s, e.hook); }
    hide Step;
    if e.DebugPc? { Rem4(e.pc, e.pc / 4, e.pc % 4); }
  }

  ghost predicate AllAllowed(events: seq<Event>) {
    forall k :: 0 <= k < |events| ==> events[k].Allowed()
  }

  ghost function AfterAll(s: Snap, events: seq<Event>): (r: Snap)
    requires Sound(s) && AllAllowed(events)
    ensures Sound(r)
    decreases |events|
  {
    if events == [] then s
    else
      AfterKeeps(s, events[0]);
      AfterAll(After(s, events[0]), events[1..])
  }

  /** The core as New leaves it: everything zero at an even address. */
  predicate Fresh(s: Snap) {
    s.Shaped() && s.reg[0] == 0 && s.pc % 2 == 0 && !s.isa && s.delayed == NO_BRANCH
  }

  /** Whatever drives a fresh core, it stays sound, and Restore takes back a snapshot of it
      exactly when its MIPS32 addresses are word-aligned. */
  lemma EveryRun(s: Snap, events: seq<Event>)
    requires Fresh(s) && AllAllowed(events)
    ensures var r := AfterAll(s, events); Sound(r) && (RestoreAccepts(r) <==> WordAligned(r))
  {
    RestoreAcceptsReachable(AfterAll(s, events));
    hide AfterAll, RestoreAccepts, WordAligned;
  }
}
