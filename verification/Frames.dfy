// reference/mips16.js: the register file, and SAVE / RESTORE.
module Frames {
  import opened Words
  import opened Memory
  import opened OracleDecode

  type Regs = s: seq<Int32> | |s| == 32 witness seq(32, i => 0)

  function Rd(reg: Regs, n: Reg): Int32 {
    if n == 0 then 0 else reg[n]
  }

  function Wr(reg: Regs, n: Reg, v: Int32): Regs {
    if n == 0 then reg else reg[n := v]
  }

  /** AREGS: how many argument registers are saved above the frame. */
  function Args(aregs: nat): nat {
    if aregs == 0xE then 4
    else if aregs == 0xC || aregs == 0xD then 3
    else if aregs == 0x8 || aregs == 0x9 || aregs == 0xA then 2
    else if 4 <= aregs <= 7 then 1
    else 0
  }

  /** AREGS: how many argument registers are static, counted down from a3. */
  function Statics(aregs: nat): nat {
    if aregs == 0xB then 4
    else if aregs == 0xE || aregs > 0xE then 0
    else aregs % 4
  }

  // The orders execSave and execRestore walk.
  const XS: seq<Reg> := [30, 23, 22, 21, 20, 19, 18]
  const ST: seq<Reg> := [7, 6, 5, 4]

  function Only(when: bool, r: Reg): seq<Reg> {
    if when then [r] else []
  }

  /** The registers among the first n of XS that xsregs selects. */
  function Chosen(xsregs: nat, n: nat): seq<Reg>
    requires n <= 7
  {
    if n == 0 then [] else Chosen(xsregs, n - 1) + Only(xsregs > 7 - n, XS[n - 1])
  }

  /** The registers SAVE pushes downward from the old stack pointer, in order. */
  function Saved(f: Frame): seq<Reg> {
    SavedHead(f) + ST[..Statics(f.aregs)]
  }

  function SavedHead(f: Frame): seq<Reg> {
    Only(f.ra, 31) + Chosen(f.xsregs, 7) + Only(f.s1, 17) + Only(f.s0, 16)
  }

  /** The address k words below top, counted down one word at a time. */
  function Below(top: Word, k: nat): Word {
    if k == 0 then top else U32(Below(top, k - 1) - 4)
  }

  /** Store each register in turn, one word further down. */
  function Push(reg: Regs, m: Mem, order: seq<Reg>, top: Word): Mem
    decreases |order|
  {
    if order == [] then m
    else
      var n := |order| - 1;
      Write32(Push(reg, m, order[..n], top), Below(top, |order|), U32(Rd(reg, order[n])))
  }

  /** Load each register in turn, one word further down. */
  function Pop(reg: Regs, m: Mem, order: seq<Reg>, top: Word): Regs
    decreases |order|
  {
    if order == [] then reg
    else
      var n := |order| - 1;
      Wr(Pop(reg, m, order[..n], top), order[n], S32(Read32(m, Below(top, |order|))))
  }

  /** The argument registers go above the old stack pointer. */
  function StoreArgs(reg: Regs, m: Mem, n: nat, sp: Word): Mem {
    if n == 0 || n > 4 then m
    else Write32(StoreArgs(reg, m, n - 1, sp), U32(sp + 4 * (n - 1)), U32(Rd(reg, 3 + n)))
  }

  function Save(f: Frame, reg: Regs, m: Mem): (Regs, Mem) {
    var sp := U32(Rd(reg, 29));
    (reg[29 := S32(sp - f.framesize)], Push(reg, StoreArgs(reg, m, Args(f.aregs), sp), Saved(f), sp))
  }

  function Restore(f: Frame, reg: Regs, m: Mem): Regs {
    var top := U32(Rd(reg, 29) + f.framesize);
    Pop(reg, m, Saved(f), top)[29 := S32(top)]
  }

  // ---- The loops of execSave and execRestore ------------------------------------------------

  // One more register on the pushed list: the slot under the last one, at the address counted down to it.
  method StoreNext(when: bool, reg: Regs, m: Mem, temp: Word, r: Reg, ghost base: Mem, ghost done: seq<Reg>, ghost sp: Word)
    returns (m': Mem, temp': Word)
    requires m == Push(reg, base, done, sp) && temp == Below(sp, |done|)
    ensures var all := done + Only(when, r);
            m' == Push(reg, base, all, sp) && temp' == Below(sp, |all|)
  {
    m', temp' := m, temp;
    if when {
      temp' := SubW(temp, 4);
      m' := Write32(m, temp', U32(Rd(reg, r)));
      assert (done + [r])[..|done|] == done;
    } else {
      assert done + [] == done;
    }
  }

  method StoreExtras(reg: Regs, m: Mem, temp: Word, xsregs: nat, ghost base: Mem, ghost done: seq<Reg>, ghost sp: Word)
    returns (m': Mem, temp': Word)
    requires m == Push(reg, base, done, sp) && temp == Below(sp, |done|)
    ensures var all := done + Chosen(xsregs, 7);
            m' == Push(reg, base, all, sp) && temp' == Below(sp, |all|)
  {
    hide Push, Below, Write32;
    ghost var all := done;
    m', temp' := m, temp;
    for i := 0 to 7
      invariant all == done + Chosen(xsregs, i)
      invariant m' == Push(reg, base, all, sp) && temp' == Below(sp, |all|)
    {
      m', temp' := StoreNext(xsregs > 6 - i, reg, m', temp', XS[i], base, all, sp);
      all := all + Only(xsregs > 6 - i, XS[i]);
    }
  }

  method StoreStatics(reg: Regs, m: Mem, temp: Word, n: nat, ghost base: Mem, ghost done: seq<Reg>, ghost sp: Word)
    returns (m': Mem)
    requires n <= 4 && m == Push(reg, base, done, sp) && temp == Below(sp, |done|)
    ensures m' == Push(reg, base, done + ST[..n], sp)
  {
    hide Push, Below, Write32;
    ghost var all := done;
    m' := m;
    var at := temp;
    for i := 0 to n
      invariant all == done + ST[..i]
      invariant m' == Push(reg, base, all, sp) && at == Below(sp, |all|)
    {
      m', at := StoreNext(true, reg, m', at, ST[i], base, all, sp);
      all := all + Only(true, ST[i]);
    }
  }

  method ExecStoreArgs(f: Frame, reg: Regs, m: Mem, temp: Word) returns (m': Mem)
    ensures m' == StoreArgs(reg, m, Args(f.aregs), temp)
  {
    assert U32(temp + 4 * 0) == temp;
    hide Write32, U32;
    var args := Args(f.aregs);
    m' := m;
    if args > 0 { m' := Write32(m', temp, U32(Rd(reg, 4))); }
    assert args >= 1 ==> m' == StoreArgs(reg, m, 1, temp);
    if args > 1 { m' := Write32(m', AddW(temp, 4), U32(Rd(reg, 5))); }
    assert args >= 2 ==> m' == StoreArgs(reg, m, 2, temp);
    if args > 2 { m' := Write32(m', AddW(temp, 8), U32(Rd(reg, 6))); }
    assert args >= 3 ==> m' == StoreArgs(reg, m, 3, temp);
    if args > 3 { m' := Write32(m', AddW(temp, 12), U32(Rd(reg, 7))); }
  }

  // The saves between the argument registers and the statics: ra, the extras, s1 and s0.
  method StoreSaved(f: Frame, reg: Regs, m: Mem, temp: Word) returns (m': Mem, temp': Word)
    ensures m' == Push(reg, m, SavedHead(f), temp) && temp' == Below(temp, |SavedHead(f)|)
  {
    assert Push(reg, m, [], temp) == m && Below(temp, 0) == temp;
    hide Push, Pop, Below, Chosen;
    ghost var done: seq<Reg> := Only(f.ra, 31);
    assert [] + done == done;
    m', temp' := StoreNext(f.ra, reg, m, temp, 31, m, [], temp);
    m', temp' := StoreExtras(reg, m', temp', f.xsregs, m, done, temp);
    done := done + Chosen(f.xsregs, 7);
    m', temp' := StoreNext(f.s1, reg, m', temp', 17, m, done, temp);
    done := done + Only(f.s1, 17);
    m', temp' := StoreNext(f.s0, reg, m', temp', 16, m, done, temp);
  }

  method ExecSave(f: Frame, reg: Regs, m: Mem) returns (reg': Regs, m': Mem)
    requires f.aregs < 0xF
    ensures (reg', m') == Save(f, reg, m)
  {
    hide Write32, U32, S32, Push, Below, SavedHead;
    var temp := U32(Rd(reg, 29));
    var temp2 := temp;
    m' := ExecStoreArgs(f, reg, m, temp);
    ghost var base := m';
    m', temp := StoreSaved(f, reg, m', temp);
    m' := StoreStatics(reg, m', temp, Statics(f.aregs), base, SavedHead(f), temp2);
    assert m' == Save(f, reg, m).1;
    assert Save(f, reg, m).0 == reg[29 := S32(temp2 as int - f.framesize)];
    reg' := reg[29 := S32(temp2 as int - f.framesize)];
  }

  // One more register off the pushed list, from the slot Push counted down to for it.
  method LoadNext(when: bool, reg: Regs, m: Mem, temp: Word, r: Reg, ghost was: Regs, ghost done: seq<Reg>, ghost top: Word)
    returns (reg': Regs, temp': Word)
    requires reg == Pop(was, m, done, top) && temp == Below(top, |done|)
    ensures var all := done + Only(when, r);
            reg' == Pop(was, m, all, top) && temp' == Below(top, |all|)
  {
    reg', temp' := reg, temp;
    if when {
      temp' := SubW(temp, 4);
      reg' := Wr(reg, r, S32(Read32(m, temp')));
      assert (done + [r])[..|done|] == done;
    } else {
      assert done + [] == done;
    }
  }

  method LoadExtras(reg: Regs, m: Mem, temp: Word, xsregs: nat, ghost was: Regs, ghost done: seq<Reg>, ghost top: Word)
    returns (reg': Regs, temp': Word)
    requires reg == Pop(was, m, done, top) && temp == Below(top, |done|)
    ensures var all := done + Chosen(xsregs, 7);
            reg' == Pop(was, m, all, top) && temp' == Below(top, |all|)
  {
    hide Pop, Below, Read32;
    ghost var all := done;
    reg', temp' := reg, temp;
    for i := 0 to 7
      invariant all == done + Chosen(xsregs, i)
      invariant reg' == Pop(was, m, all, top) && temp' == Below(top, |all|)
    {
      reg', temp' := LoadNext(xsregs > 6 - i, reg', m, temp', XS[i], was, all, top);
      all := all + Only(xsregs > 6 - i, XS[i]);
    }
  }

  method LoadStatics(reg: Regs, m: Mem, temp: Word, n: nat, ghost was: Regs, ghost done: seq<Reg>, ghost top: Word)
    returns (reg': Regs)
    requires n <= 4 && reg == Pop(was, m, done, top) && temp == Below(top, |done|)
    ensures reg' == Pop(was, m, done + ST[..n], top)
  {
    hide Pop, Below, Read32;
    ghost var all := done;
    reg' := reg;
    var at := temp;
    for i := 0 to n
      invariant all == done + ST[..i]
      invariant reg' == Pop(was, m, all, top) && at == Below(top, |all|)
    {
      reg', at := LoadNext(true, reg', m, at, ST[i], was, all, top);
      all := all + Only(true, ST[i]);
    }
  }

  method LoadSaved(f: Frame, reg: Regs, m: Mem, temp: Word) returns (reg': Regs, temp': Word)
    ensures reg' == Pop(reg, m, SavedHead(f), temp) && temp' == Below(temp, |SavedHead(f)|)
  {
    assert Pop(reg, m, [], temp) == reg && Below(temp, 0) == temp;
    hide Push, Pop, Below, Chosen;
    ghost var done: seq<Reg> := Only(f.ra, 31);
    assert [] + done == done;
    reg', temp' := LoadNext(f.ra, reg, m, temp, 31, reg, [], temp);
    reg', temp' := LoadExtras(reg', m, temp', f.xsregs, reg, done, temp);
    done := done + Chosen(f.xsregs, 7);
    reg', temp' := LoadNext(f.s1, reg', m, temp', 17, reg, done, temp);
    done := done + Only(f.s1, 17);
    reg', temp' := LoadNext(f.s0, reg', m, temp', 16, reg, done, temp);
  }

  method ExecRestore(f: Frame, reg: Regs, m: Mem) returns (reg': Regs)
    requires f.aregs < 0xF
    ensures reg' == Restore(f, reg, m)
  {
    hide Pop, Below, SavedHead, S32;
    var temp := AddW(Rd(reg, 29), f.framesize);
    var temp2 := temp;
    reg', temp := LoadSaved(f, reg, m, temp);
    reg' := LoadStatics(reg', m, temp, Statics(f.aregs), reg, SavedHead(f), temp2);
    reg' := reg'[29 := S32(temp2)];
  }

  // ---- What SAVE stores, RESTORE brings back --------------------------------------------------

  lemma BelowIs(top: Word, k: nat)
    ensures Below(top, k) == U32(top - 4 * k)
  {
    if k > 0 {
      BelowIs(top, k - 1);
      SubTwice(top - 4 * (k - 1));
      hide U32;
    }
  }

  lemma SubTwice(x: int)
    ensures U32(U32(x) - 4) == U32(x - 4)
  {
  }

  lemma GapBelow(top: Word, n: nat, k: nat)
    requires k < n <= 0x100
    ensures Gap(U32(top - 4 * n), U32(top - 4 * k)) == 4 * (n - k)
  {
  }

  lemma SlotGap(top: Word, n: nat, k: nat)
    requires k < n <= 0x100
    ensures 4 <= Gap(Below(top, n), Below(top, k)) <= 0x400
  {
    BelowIs(top, n);
    BelowIs(top, k);
    GapBelow(top, n, k);
  }

  /** Every pushed register can be read back from its slot. */
  lemma {:induction false} PushReads(reg: Regs, m: Mem, order: seq<Reg>, top: Word, k: nat)
    requires k < |order| <= 0x100
    ensures Read32(Push(reg, m, order, top), Below(top, k + 1)) == U32(Rd(reg, order[k]))
    decreases |order|
  {
    hide Read32, Write32, U32, S32, Below;
    var n := |order| - 1;
    var before, v := Push(reg, m, order[..n], top), U32(Rd(reg, order[n]));
    if k == n {
      ReadAfterWrite32(before, Below(top, n + 1), v);
    } else {
      PushReads(reg, m, order[..n], top, k);
      SlotGap(top, n + 1, k + 1);
      ReadElsewhere32(before, Below(top, n + 1), v, Below(top, k + 1));
    }
  }

  /** A run of registers SAVE can use: descending, between two bounds, without sp. */
  ghost predicate Run(order: seq<Reg>, low: int, high: int) {
    && (forall i, j :: 0 <= i < j < |order| ==> order[i] > order[j])
    && (forall i :: 0 <= i < |order| ==> low < order[i] <= high && order[i] != 29)
  }

  /** Popping gives each listed register its slot's word and touches no other register. */
  lemma {:induction false} PopGives(reg: Regs, m: Mem, order: seq<Reg>, top: Word)
    requires Run(order, 0, 31)
    ensures forall k :: 0 <= k < |order| ==> Pop(reg, m, order, top)[order[k]] == S32(Read32(m, Below(top, k + 1)))
    ensures forall r: Reg :: r !in order ==> Pop(reg, m, order, top)[r] == reg[r]
    decreases |order|
  {
    hide Read32, S32, Below;
    if order == [] {
    } else {
      var n := |order| - 1;
      PopGives(reg, m, order[..n], top);
      assert forall k :: 0 <= k < n ==> order[..n][k] == order[k];
      assert order == order[..n] + [order[n]];
    }
  }

  lemma Joined(a: seq<Reg>, b: seq<Reg>, low: int, mid: int, high: int)
    requires Run(a, mid, high) && Run(b, low, mid) && low <= mid <= high
    ensures Run(a + b, low, high)
  {
  }

  lemma {:induction false} ChosenRuns(xsregs: nat, n: nat)
    requires n <= 7
    ensures Run(Chosen(xsregs, n), if n == 0 then 30 else XS[n - 1] - 1, 30) && |Chosen(xsregs, n)| <= n
  {
    if n == 0 {
    } else {
      assert forall i :: 0 <= i < 7 ==> XS[i] == if i == 0 then 30 else 24 - i;
      ChosenRuns(xsregs, n - 1);
      Joined(Chosen(xsregs, n - 1), Only(xsregs > 7 - n, XS[n - 1]), XS[n - 1] - 1,
             if n == 1 then 30 else XS[n - 2] - 1, 30);
    }
  }

  lemma HeadRuns(f: Frame)
    ensures Run(Only(f.ra, 31) + Chosen(f.xsregs, 7), 17, 31)
  {
    ChosenRuns(f.xsregs, 7);
    Joined(Only(f.ra, 31), Chosen(f.xsregs, 7), 17, 30, 31);
  }

  lemma TailRuns(f: Frame, a: seq<Reg>, low: int)
    requires Run(a, low, 31)
    ensures low == 17 ==> Run(a + Only(f.s1, 17), 16, 31)
    ensures low == 16 ==> Run(a + Only(f.s0, 16), 15, 31)
    ensures low == 15 ==> Run(a + ST[..Statics(f.aregs)], 3, 31)
  {
    if low == 17 {
      Joined(a, Only(f.s1, 17), 16, 17, 31);
    } else if low == 16 {
      Joined(a, Only(f.s0, 16), 15, 16, 31);
    } else if low == 15 {
      assert forall i :: 0 <= i < 4 ==> ST[i] == 7 - i;
      Joined(a, ST[..Statics(f.aregs)], 3, 15, 31);
    }
  }

  lemma SavedIsFit(f: Frame)
    ensures Run(Saved(f), 3, 31) && |Saved(f)| <= 14
  {
    HeadRuns(f);
    ChosenRuns(f.xsregs, 7);
    var a := Only(f.ra, 31) + Chosen(f.xsregs, 7);
    TailRuns(f, a, 17);
    TailRuns(f, a + Only(f.s1, 17), 16);
    TailRuns(f, a + Only(f.s1, 17) + Only(f.s0, 16), 15);
  }

  lemma SpComesBack(sp: Int32, n: nat)
    ensures U32(S32(U32(sp) - n) + n) == U32(sp)
    ensures S32(U32(sp)) == sp
  {
    WrappedSum(U32(sp) - n, n);
  }

  lemma WrappedSum(x: int, n: int)
    ensures U32(S32(x) + n) == U32(x + n)
  {
    var q, r := x / 0x1_0000_0000, x % 0x1_0000_0000;
    assert S32(x) == x - 0x1_0000_0000 * q || S32(x) == x - 0x1_0000_0000 * (q + 1);
  }

  /** The saved words of a frame are as SAVE left them. */
  ghost predicate FrameKept(f: Frame, sp: Word, m: Mem, m': Mem) {
    forall k :: 1 <= k <= |Saved(f)| ==> Read32(m', Below(sp, k)) == Read32(m, Below(sp, k))
  }

  /** Popping what was pushed from the same top. */
  lemma PopsBack(order: seq<Reg>, reg: Regs, m: Mem, sp: Word, reg': Regs, m': Mem)
    requires Run(order, 0, 31) && |order| <= 0x100
    requires forall k :: 1 <= k <= |order| ==> Read32(m', Below(sp, k)) == Read32(Push(reg, m, order, sp), Below(sp, k))
    ensures forall r: Reg :: Pop(reg', m', order, sp)[r] == if r in order then reg[r] else reg'[r]
  {
    PopGives(reg', m', order, sp);
    forall r: Reg | r in order
      ensures Pop(reg', m', order, sp)[r] == reg[r]
    {
      var k :| 0 <= k < |order| && order[k] == r;
      PushReads(reg, m, order, sp, k);
      SpComesBack(reg[r], 0);
    }
  }

  /** r holds the old value of the stack pointer and of every register the frame saves, and the
      new value of every other one. */
  ghost predicate Recovered(f: Frame, old': Regs, new': Regs, r: Regs) {
    forall n: Reg :: r[n] == if n == 29 || n in Saved(f) then old'[n] else new'[n]
  }

  /** SAVE; then anything that brings the stack pointer back to where SAVE left it and leaves
      the saved words alone; then RESTORE: the stack pointer and every saved register have
      their old values, whatever happened to them, and no other register moves. */
  lemma RestoreUndoesSave(f: Frame, reg: Regs, m: Mem, reg': Regs, m': Mem)
    requires reg'[29] == Save(f, reg, m).0[29]
    requires FrameKept(f, U32(reg[29]), Save(f, reg, m).1, m')
    ensures Recovered(f, reg, reg', Restore(f, reg', m'))
  {
    hide Read32, Write32, Saved, U32, S32, Push, Pop, StoreArgs, Below, Args;
    var sp, order := U32(reg[29]), Saved(f);
    SavedIsFit(f);
    SpComesBack(reg[29], f.framesize);
    PopsBack(order, reg, StoreArgs(reg, m, Args(f.aregs), sp), sp, reg', m');
    assert U32(Rd(reg', 29) + f.framesize) == sp;
  }
}
