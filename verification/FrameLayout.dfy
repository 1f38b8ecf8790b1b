// reference/mips16.js: where SAVE puts each register, and where RESTORE finds it, word by word.
module FrameLayout {
  import opened Words
  import opened Memory
  import opened OracleDecode
  import opened Frames

  // The two columns of the table AREGS: argument registers stored, static registers saved.
  const ARGUMENTS: seq<nat> := [0, 0, 0, 0, 1, 1, 1, 1, 2, 2, 2, 0, 3, 3, 4]
  const STATICS: seq<nat> := [0, 1, 2, 3, 0, 1, 2, 3, 0, 1, 2, 4, 0, 1, 0]

  // Every register a frame may hold, from the top of the frame down.
  const ORDER: seq<Reg> := [31, 30, 23, 22, 21, 20, 19, 18, 17, 16, 7, 6, 5, 4]

  /** Whether a frame holds register r: s8 at the largest xsregs only, s7 to s2 from six to one on, and the
      statics counted down from a3. */
  predicate Holds(f: Frame, r: Reg)
    requires f.aregs < 15
  {
    if r == 31 then f.ra
    else if r == 30 then f.xsregs >= 7
    else if 18 <= r <= 23 then f.xsregs >= r - 17
    else if r == 17 then f.s1
    else if r == 16 then f.s0
    else 4 <= r <= 7 && r >= 8 - STATICS[f.aregs]
  }

  /** How many of the first i registers of the order a frame holds. */
  function Count(f: Frame, i: nat): nat
    requires f.aregs < 15 && i <= 14
  {
    if i == 0 then 0 else Count(f, i - 1) + if Holds(f, ORDER[i - 1]) then 1 else 0
  }

  /** The address of the word a frame keeps register ORDER[i] in: under those of the registers before it. */
  function WordOf(f: Frame, i: nat, top: Word): Word
    requires f.aregs < 15 && i < 14
  {
    U32(top - 4 * (Count(f, i) + 1))
  }

  // ---- The pushed list is the part of the order a frame holds ---------------------------------

  function Held(f: Frame, i: nat): seq<Reg>
    requires f.aregs < 15 && i <= 14
  {
    if i == 0 then [] else Held(f, i - 1) + if Holds(f, ORDER[i - 1]) then [ORDER[i - 1]] else []
  }

  lemma NextHeld(f: Frame, i: nat)
    requires f.aregs < 15 && i < 14
    ensures Held(f, i + 1) == Held(f, i) + Only(Holds(f, ORDER[i]), ORDER[i])
  {
    hide Holds;
  }

  lemma FirstHeld(f: Frame)
    requires f.aregs < 15
    ensures Held(f, 1) == Only(f.ra, 31) + Chosen(f.xsregs, 0)
  {
    NextHeld(f, 0);
    assert Held(f, 0) == [];
  }

  lemma NextChosen(f: Frame, n: nat)
    requires f.aregs < 15 && 1 <= n <= 7
    ensures Chosen(f.xsregs, n) == Chosen(f.xsregs, n - 1) + Only(Holds(f, ORDER[n]), ORDER[n])
  {
    assert ORDER[n] == XS[n - 1] == if n == 1 then 30 else 25 - n;
  }

  lemma {:induction false} ExtrasHeld(f: Frame, n: nat)
    requires f.aregs < 15 && n <= 7
    ensures Only(f.ra, 31) + Chosen(f.xsregs, n) == Held(f, n + 1)
  {
    hide Held, Chosen, Only, Holds;
    if n == 0 {
      FirstHeld(f);
    } else {
      ExtrasHeld(f, n - 1);
      NextHeld(f, n);
      NextChosen(f, n);
    }
  }

  lemma StaticsAre(aregs: nat)
    requires aregs < 15
    ensures Frames.Statics(aregs) == STATICS[aregs] && Args(aregs) == ARGUMENTS[aregs]
  {
  }

  lemma {:induction false} StaticsHeld(f: Frame, j: nat)
    requires f.aregs < 15 && j <= 4
    ensures Held(f, 10 + j) == Held(f, 10) + ST[..Least(j, STATICS[f.aregs])]
  {
    if j > 0 {
      hide Held;
      StaticsHeld(f, j - 1);
      NextHeld(f, 9 + j);
      assert ORDER[9 + j] == ST[j - 1] == 8 - j;
      assert ST[..j] == ST[..j - 1] + [ST[j - 1]];
    }
  }

  lemma SavedIsHeld(f: Frame)
    requires f.aregs < 15
    ensures Saved(f) == Held(f, 14)
  {
    ExtrasHeld(f, 7);
    StaticsAre(f.aregs);
    StaticsHeld(f, 4);
    NextHeld(f, 8);
    NextHeld(f, 9);
    hide Held, Chosen;
  }

  lemma {:induction false} HeldAt(f: Frame, i: nat, n: nat)
    requires f.aregs < 15 && i <= n <= 14
    ensures |Held(f, n)| == Count(f, n) && Count(f, i) <= Count(f, n) <= n
    ensures i < n && Holds(f, ORDER[i]) ==> Count(f, i) < Count(f, n) && Held(f, n)[Count(f, i)] == ORDER[i]
  {
    if n > 0 {
      HeldAt(f, if i == n then i - 1 else i, n - 1);
    }
  }

  // ---- SAVE ---------------------------------------------------------------------------------

  lemma GapDown(top: Word, d: nat, b: Word)
    requires Gap(top, b) + d < 0x1_0000_0000
    ensures Gap(U32(top - d), b) == Gap(top, b) + d
  {
  }

  /** The pushes reach no byte further below the top than their words do. */
  lemma {:induction false} PushLeaves(reg: Regs, m: Mem, order: seq<Reg>, top: Word, b: Word)
    requires |order| <= 14 && Gap(top, b) < 0x1_0000_0000 - 4 * |order|
    ensures Read8(Push(reg, m, order, top), b) == Read8(m, b)
    decreases |order|
  {
    if order != [] {
      hide Read8, Write32, U32, S32, Below, Gap;
      var n := |order| - 1;
      PushLeaves(reg, m, order[..n], top, b);
      BelowIs(top, n + 1);
      GapDown(top, 4 * (n + 1), b);
      ByteElsewhere(Push(reg, m, order[..n], top), Below(top, n + 1), U32(Rd(reg, order[n])), b);
    }
  }

  lemma ArgumentGap(sp: Word, j: nat, n: nat)
    requires j < n < 4
    ensures Gap(U32(sp + 4 * n), U32(sp + 4 * j)) == 0x1_0000_0000 - 4 * (n - j)
  {
  }

  lemma GapUnder(sp: Word, n: nat, b: Word)
    requires n < 4 && Gap(sp, b) >= 4 * (n + 1)
    ensures Gap(U32(sp + 4 * n), b) >= 4
  {
    FourUp(sp, n);
    GapFrom(sp, U32(sp + 4 * n), b);
  }

  lemma GapFrom(a: Word, c: Word, b: Word)
    requires Gap(a, c) <= Gap(a, b)
    ensures Gap(c, b) == Gap(a, b) - Gap(a, c)
  {
  }

  lemma LastArgument(reg: Regs, m: Mem, n: nat, sp: Word)
    requires n < 4
    ensures StoreArgs(reg, m, n + 1, sp) == Write32(StoreArgs(reg, m, n, sp), U32(sp + 4 * n), U32(Rd(reg, 4 + n)))
  {
    hide Write32, U32, Rd;
  }

  /** The arguments' words hold the argument registers. */
  lemma {:induction false} ArgumentsStored(reg: Regs, m: Mem, n: nat, sp: Word, j: nat)
    requires j < n <= 4
    ensures Read32(StoreArgs(reg, m, n, sp), U32(sp + 4 * j)) == U32(Rd(reg, 4 + j))
  {
    hide Read32, Write32, U32, Rd, Gap, StoreArgs;
    var a, before, v := U32(sp + 4 * (n - 1)), StoreArgs(reg, m, n - 1, sp), U32(Rd(reg, 3 + n));
    LastArgument(reg, m, n - 1, sp);
    if j == n - 1 {
      ReadAfterWrite32(before, a, v);
    } else {
      ArgumentsStored(reg, m, n - 1, sp, j);
      ArgumentGap(sp, j, n - 1);
      ReadElsewhere32(before, a, v, U32(sp + 4 * j));
    }
  }

  /** Storing them changes no byte further up. */
  lemma {:induction false} ArgumentsLeave(reg: Regs, m: Mem, n: nat, sp: Word, b: Word)
    requires n <= 4 && Gap(sp, b) >= 4 * n
    ensures Read8(StoreArgs(reg, m, n, sp), b) == Read8(m, b)
  {
    if n > 0 {
      hide Read8, Write32, U32, Rd, Gap;
      LastArgument(reg, m, n - 1, sp);
      ArgumentsLeave(reg, m, n - 1, sp, b);
      GapUnder(sp, n - 1, b);
      ByteElsewhere(StoreArgs(reg, m, n - 1, sp), U32(sp + 4 * (n - 1)), U32(Rd(reg, 3 + n)), b);
    }
  }

  lemma FourUp(sp: Word, j: nat)
    requires j < 4
    ensures Gap(sp, U32(sp + 4 * j)) == 4 * j
  {
  }

  lemma Stepped(a: Word)
    ensures U32(a + 0) == a && U32(U32(a + 2) + 1) == U32(a + 3)
  {
  }

  lemma PushLeavesByte(reg: Regs, m: Mem, order: seq<Reg>, sp: Word, j: nat, k: nat)
    requires |order| <= 14 && j < 4 && k < 4
    ensures var a := U32(U32(sp + 4 * j) + k); Read8(Push(reg, m, order, sp), a) == Read8(m, a)
  {
    hide Read8, Push, U32, Gap;
    FourUp(sp, j);
    GapStep(sp, U32(sp + 4 * j), k);
    PushLeaves(reg, m, order, sp, U32(U32(sp + 4 * j) + k));
  }

  lemma PushLeavesWord(reg: Regs, m: Mem, order: seq<Reg>, sp: Word, j: nat)
    requires |order| <= 14 && j < 4
    ensures Read32(Push(reg, m, order, sp), U32(sp + 4 * j)) == Read32(m, U32(sp + 4 * j))
  {
    hide Read8, Read32, Push, U32, Gap;
    var a := U32(sp + 4 * j);
    PushLeavesByte(reg, m, order, sp, j, 0);
    PushLeavesByte(reg, m, order, sp, j, 1);
    PushLeavesByte(reg, m, order, sp, j, 2);
    PushLeavesByte(reg, m, order, sp, j, 3);
    Stepped(a);
    SameBytes(m, Push(reg, m, order, sp), a);
  }

  /** The memory after SAVE: the argument registers from the old stack pointer up, the registers the frame
      holds from there down in the order above, and every other byte as it was. */
  ghost predicate LaidOut(f: Frame, reg: Regs, m: Mem, m': Mem)
    requires f.aregs < 15
  {
    var sp := U32(reg[29]);
    && (forall j: nat | j < ARGUMENTS[f.aregs] :: Read32(m', U32(sp + 4 * j)) == U32(reg[4 + j]))
    && (forall i: nat | i < 14 && Holds(f, ORDER[i]) :: Read32(m', WordOf(f, i, sp)) == U32(reg[ORDER[i]]))
    && (forall b: Word | 4 * ARGUMENTS[f.aregs] <= U32(b - sp) < 0x1_0000_0000 - 4 * Count(f, 14) ::
          Read8(m', b) == Read8(m, b))
  }

  /** Only the stack pointer moves, down by the size of the frame. */
  lemma SaveLaysOut(f: Frame, reg: Regs, m: Mem)
    requires f.aregs < 15
    ensures LaidOut(f, reg, m, Save(f, reg, m).1)
    ensures Save(f, reg, m).0 == reg[29 := S32(U32(reg[29]) - f.framesize)]
  {
    hide Read8, Read32, Write32, S32, U32, Push, StoreArgs, Saved, Held, Count, Args, Below, Gap, Holds;
    var sp, order := U32(reg[29]), Saved(f);
    var n := ARGUMENTS[f.aregs];
    var base := StoreArgs(reg, m, n, sp);
    var m' := Push(reg, base, order, sp);
    StaticsAre(f.aregs);
    SavedIsHeld(f);
    assert m' == Save(f, reg, m).1;
    forall j: nat | j < n ensures Read32(m', U32(sp + 4 * j)) == U32(reg[4 + j]) {
      HeldAt(f, 14, 14);
      ArgumentsStored(reg, m, n, sp, j);
      PushLeavesWord(reg, base, order, sp, j);
    }
    forall i: nat | i < 14 && Holds(f, ORDER[i]) ensures Read32(m', WordOf(f, i, sp)) == U32(reg[ORDER[i]]) {
      HeldAt(f, i, 14);
      PushReads(reg, base, order, sp, Count(f, i));
      BelowIs(sp, Count(f, i) + 1);
    }
    forall b: Word | 4 * n <= U32(b - sp) < 0x1_0000_0000 - 4 * Count(f, 14) ensures Read8(m', b) == Read8(m, b) {
      HeldAt(f, 14, 14);
      GapIs(sp, b);
      ArgumentsLeave(reg, m, n, sp, b);
      PushLeaves(reg, base, order, sp, b);
    }
  }

  lemma GapIs(a: Word, b: Word)
    ensures Gap(a, b) == U32(b - a)
  {
  }

  // ---- RESTORE ------------------------------------------------------------------------------

  lemma {:induction false} OrderHeld(f: Frame, n: nat, r: Reg)
    requires f.aregs < 15 && n <= 14
    ensures r in Held(f, n) ==> exists i: nat :: i < n && ORDER[i] == r && Holds(f, r)
  {
    if n > 0 { OrderHeld(f, n - 1, r); }
  }

  /** RESTORE gives each register the frame holds the word kept for it, moves the stack pointer up by the
      size of the frame, and touches no other register. */
  lemma RestoreReadsBack(f: Frame, reg: Regs, m: Mem)
    requires f.aregs < 15
    ensures var top, reg' := U32(reg[29] + f.framesize), Restore(f, reg, m);
            && reg'[29] == S32(top)
            && (forall i: nat | i < 14 && Holds(f, ORDER[i]) :: reg'[ORDER[i]] == S32(Read32(m, WordOf(f, i, top))))
            && (forall r: Reg | r != 29 && (r !in ORDER || !Holds(f, r)) :: reg'[r] == reg[r])
  {
    hide Read32, S32, U32, Pop, Saved, Held, Count, Below, Holds;
    var top, order := U32(reg[29] + f.framesize), Saved(f);
    var reg' := Restore(f, reg, m);
    SavedIsFit(f);
    SavedIsHeld(f);
    PopGives(reg, m, order, top);
    forall i: nat | i < 14 && Holds(f, ORDER[i]) ensures reg'[ORDER[i]] == S32(Read32(m, WordOf(f, i, top))) {
      HeldAt(f, i, 14);
      BelowIs(top, Count(f, i) + 1);
    }
    forall r: Reg | r != 29 && (r !in ORDER || !Holds(f, r)) ensures reg'[r] == reg[r] {
      OrderHeld(f, 14, r);
    }
  }

  // ---- The halfwords ------------------------------------------------------------------------

  /** SAVE or RESTORE, assembled: which it is, ra, s0, s1, and four bits of frame size. */
  function FrameHalf(save: bool, ra: bool, s0: bool, s1: bool, size: nat): Half
    requires size < 16
  {
    0x6400 + 0x80 * Flag(save) + 0x40 * Flag(ra) + 0x20 * Flag(s0) + 0x10 * Flag(s1) + size
  }

  /** What the eleven bits of an EXTEND before it hold: xsregs, the size's four high bits, and aregs. */
  function FrameExtend(xsregs: nat, high: nat, aregs: nat): nat {
    xsregs * 0x100 + high * 0x10 + aregs
  }

  lemma SvrsReads(save: bool, ra: bool, s0: bool, s1: bool, size: nat)
    requires size < 16
    ensures var h: nat := FrameHalf(save, ra, s0, s1, size);
            && h / 0x800 == 0x0C && h / 0x100 % 8 == 4
            && h / 0x80 % 2 == Flag(save) && h / 0x40 % 2 == Flag(ra) && h / 0x20 % 2 == Flag(s0)
            && h / 0x10 % 2 == Flag(s1) && h % 0x10 == size
  {
    var a, b, c, d := Flag(save), Flag(ra), Flag(s0), Flag(s1);
    var h: nat := FrameHalf(save, ra, s0, s1, size);
    assert h == 0x10 * (0x640 + 8 * a + 4 * b + 2 * c + d) + size;
    assert h / 0x10 == 0x640 + 8 * a + 4 * b + 2 * c + d;
    assert h / 0x20 == 0x320 + 4 * a + 2 * b + c && h / 0x40 == 0x190 + 2 * a + b && h / 0x80 == 0xC8 + a;
  }

  /** A bare frame of size 0 is 128 bytes; an extended one has eight bits of size, and aregs 15 is
      reserved. */
  lemma FramesDecode(save: bool, ra: bool, s0: bool, s1: bool, size: nat, xsregs: nat, high: nat, aregs: nat,
                     next: Half, addr: Word, base: Word)
    requires size < 16 && xsregs < 8 && high < 16 && aregs < 16
    ensures var f := Frame(if size == 0 then 128 else 8 * size, ra, s0, s1, 0, 0);
            Decode(FrameHalf(save, ra, s0, s1, size), None, next, addr, base) ==
              Insn(2, if save then SaveOp(f) else RestoreOp(f))
    ensures var f := Frame(8 * (16 * high + size), ra, s0, s1, xsregs, aregs);
            Decode(FrameHalf(save, ra, s0, s1, size), Some(FrameExtend(xsregs, high, aregs)), next, addr, base) ==
              if aregs == 15 then Unknown else Insn(4, if save then SaveOp(f) else RestoreOp(f))
  {
    hide FrameHalf, FrameExtend, Decode;
    SvrsReads(save, ra, s0, s1, size);
    var e := FrameExtend(xsregs, high, aregs);
    ExtendReads(xsregs, high, aregs);
    var h := FrameHalf(save, ra, s0, s1, size);
    ToFrame(h, None, next, addr, base);
    ToFrame(h, Some(e), next, addr, base);
  }

  lemma ExtendReads(xsregs: nat, high: nat, aregs: nat)
    requires xsregs < 8 && high < 16 && aregs < 16
    ensures var e := FrameExtend(xsregs, high, aregs);
            e % 0x10 == aregs && e / 0x10 % 0x10 == high && e / 0x100 % 8 == xsregs
  {
    var e := FrameExtend(xsregs, high, aregs);
    assert e / 0x10 == xsregs * 0x10 + high && e / 0x100 == xsregs;
  }

  lemma ToFrame(h: Half, ext: Option<nat>, next: Half, addr: Word, base: Word)
    requires h / 0x800 == 0x0C && h / 0x100 % 8 == 4
    ensures Decode(h, ext, next, addr, base) == Svrs(ext, h)
  {
    hide Svrs;
  }
}
