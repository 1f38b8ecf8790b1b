// internal/memory/flash.go: a flash chip and its AMD command sequence. Programming can only clear bits
// and erasing sets them; both need an unlock, and one stray write loses it.
module Flash {
  import opened Words
  import opened Ram

  // ---- The command sequence --------------------------------------------------------------------------------

  type Step = x: int | 0 <= x < 4

  /** Identification mode, how far an unlock has got, whether the next write programs, and whether an
      erase has been set up. */
  datatype Control = Control(mode: bool, unlock: Step, program: bool, erase: bool)

  const IDLE := Control(false, 0, false, false)

  // setCommand and commandState: the one byte the four are kept in.
  function Pack(c: Control): (r: Byte)
    ensures r < 32
  {
    Flag(c.mode) + 2 * c.unlock + 8 * Flag(c.program) + 16 * Flag(c.erase)
  }

  function Unpack(b: Byte): Control {
    Control(b % 2 == 1, b / 2 % 4, b / 8 % 2 == 1, b / 16 % 2 == 1)
  }

  lemma PackedUnpacks(c: Control)
    ensures Unpack(Pack(c)) == c
  {
    var m, p, e := Flag(c.mode), Flag(c.program), Flag(c.erase);
    assert Pack(c) / 2 == c.unlock + 4 * p + 8 * e && Pack(c) / 8 == p + 2 * e && Pack(c) / 16 == e;
  }

  /** Restore's test of a command byte. */
  predicate Acceptable(b: Byte) {
    b < 32 && b / 2 % 4 <= 2
  }

  function Word12(w: Access): int {
    w.off / 2 % 0x1000
  }

  function Command(w: Access): Byte {
    w.value % 0x100
  }

  predicate Is(w: Access, command: Byte, at: int) {
    Command(w) == command && Word12(w) == at
  }

  datatype Effect = Nothing | Program | EraseSector | EraseChip
  {
    predicate Erases() {
      EraseSector? || EraseChip?
    }
  }

  datatype Turn = Turn(control: Control, effect: Effect, refused: bool)

  /** What one write does to the sequence, and what it asks of the array. */
  function Advance(c: Control, w: Access): Turn {
    if c.program then Turn(c.(program := false, unlock := 0), Program, false)
    else if c.unlock == 2 && c.erase && Command(w) == 0x30 then Turn(c.(erase := false, unlock := 0), EraseSector, false)
    else if Command(w) == 0xF0 && !c.erase then Turn(c.(mode := false, unlock := 0), Nothing, false)
    else if c.unlock == 0 && Is(w, 0xAA, 0x555) then Turn(c.(unlock := 1), Nothing, false)
    else if c.unlock == 1 && Is(w, 0x55, 0x2AA) then Turn(c.(unlock := 2), Nothing, false)
    else if c.unlock == 2 && Word12(w) == 0x555 then
      var c := c.(unlock := 0);
      if Command(w) == 0x90 then Turn(c.(mode := true), Nothing, false)
      else if Command(w) == 0xA0 then Turn(c.(program := true), Nothing, false)
      else if Command(w) == 0x80 then Turn(c.(erase := true), Nothing, false)
      else if Command(w) == 0x10 then Turn(c.(erase := false), if c.erase then EraseChip else Nothing, false)
      else Turn(c, Nothing, true)
    else Turn(c.(unlock := 0), Nothing, true)
  }

  function After(writes: seq<Access>): Control {
    if |writes| == 0 then IDLE else Advance(After(writes[..|writes| - 1]), writes[|writes| - 1]).control
  }

  /** What the k-th of some writes did, from a reset. */
  function Did(writes: seq<Access>, k: nat): Effect
    requires k < |writes|
  {
    Advance(After(writes[..k]), writes[k]).effect
  }

  /** The two writes before the k-th are the unlock, one right after the other. */
  predicate Unlocked(writes: seq<Access>, k: nat)
    requires k <= |writes|
  {
    k >= 2 && Is(writes[k - 2], 0xAA, 0x555) && Is(writes[k - 1], 0x55, 0x2AA)
  }

  /** An unlocked erase set-up that nothing has used yet. */
  ghost predicate SetUp(writes: seq<Access>, n: nat)
    requires n <= |writes|
  {
    exists j: nat :: SetUpAt(writes, j, n)
  }

  ghost predicate SetUpAt(writes: seq<Access>, j: nat, n: nat)
    requires n <= |writes|
  {
    j < n && Unlocked(writes, j) && Is(writes[j], 0x80, 0x555) && forall k :: j < k < n ==> !Did(writes, k).Erases()
  }

  /** What the sequence's state says about the writes that led to it. */
  ghost predicate Explained(writes: seq<Access>, n: nat, c: Control)
    requires n <= |writes|
  {
    && c.unlock <= 2
    && (c.unlock == 1 ==> n >= 1 && Is(writes[n - 1], 0xAA, 0x555))
    && (c.unlock == 2 ==> Unlocked(writes, n))
    && (c.program ==> c.unlock == 0 && n >= 1 && Unlocked(writes, n - 1) && Is(writes[n - 1], 0xA0, 0x555))
    && (c.erase ==> SetUp(writes, n))
  }

  lemma {:induction false} StateExplained(writes: seq<Access>, n: nat)
    requires n <= |writes|
    ensures Explained(writes, n, After(writes[..n]))
  {
    if n == 0 {
    } else {
      StateExplained(writes, n - 1);
      var before, w := After(writes[..n - 1]), writes[n - 1];
      AfterNext(writes, n);
      SetUpStays(writes, n, before);
      TurnExplained(before, w);
      hide After, SetUp, Is, Advance;
    }
  }

  lemma AfterNext(writes: seq<Access>, n: nat)
    requires 0 < n <= |writes|
    ensures After(writes[..n]) == Advance(After(writes[..n - 1]), writes[n - 1]).control
  {
    hide Advance;
    assert writes[..n][..n - 1] == writes[..n - 1];
  }

  /** Each state of the sequence is entered by one kind of write only. */
  lemma TurnExplained(c: Control, w: Access)
    ensures var next := Advance(c, w).control;
            && next.unlock <= 2
            && (next.unlock == 1 ==> Is(w, 0xAA, 0x555))
            && (next.unlock == 2 ==> c.unlock == 1 && Is(w, 0x55, 0x2AA))
            && (next.program ==> next.unlock == 0 && c.unlock == 2 && Is(w, 0xA0, 0x555))
  {
    hide Word12, Command;
  }

  lemma {:induction false} SetUpStays(writes: seq<Access>, n: nat, before: Control)
    requires 0 < n <= |writes| && Explained(writes, n - 1, before) && before == After(writes[..n - 1])
    ensures Advance(before, writes[n - 1]).control.erase ==> SetUp(writes, n)
  {
    var turn := Advance(before, writes[n - 1]);
    if turn.control.erase {
      if before.erase {
        var j: nat :| SetUpAt(writes, j, n - 1);
        assert !Did(writes, n - 1).Erases();
        assert SetUpAt(writes, j, n);
      } else {
        assert SetUpAt(writes, n - 1, n);
      }
    }
  }

  // ---- The array ---------------------------------------------------------------------------------------------

  lemma ByteFits(a: Byte, b: Byte)
    ensures AndBits(a, b) < 0x100
  {
    assert Pow2(8) == 0x100;
    BitsFit(a, b, 8);
  }

  function And(a: Byte, b: Byte): Byte {
    ByteFits(a, b); AndBits(a, b)
  }

  /** Every bit of a is a bit of b. */
  predicate Within(a: nat, b: nat) {
    AndBits(a, b) == a
  }

  lemma {:induction false} AndIsWithin(a: nat, b: nat)
    ensures Within(AndBits(a, b), a)
  {
    if a != 0 && b != 0 {
      AndIsWithin(a / 2, b / 2);
      var r := AndBits(a, b);
      assert r / 2 == AndBits(a / 2, b / 2);
    }
  }

  lemma {:induction false} WithinItself(a: nat)
    ensures Within(a, a)
  {
    if a == 0 {
    } else {
      WithinItself(a / 2);
    }
  }

  lemma {:induction false} WithinChains(a: nat, b: nat, c: nat)
    requires Within(a, b) && Within(b, c)
    ensures Within(a, c)
  {
    if a != 0 && b != 0 && c != 0 { WithinChains(a / 2, b / 2, c / 2); }
  }

  /** The first k bytes of an access programmed, each ANDed with what is there. */
  function Programmed(bytes: seq<Byte>, w: Access, k: nat): (r: seq<Byte>)
    requires k <= w.size.Count()
    ensures |r| == |bytes|
  {
    if k == 0 then bytes
    else
      var r, a := Programmed(bytes, w, k - 1), At(w.off, k - 1);
      if a < |bytes| then r[a := And(r[a], Lane(w.value, w.size.Count(), k - 1))] else r
  }

  /** flashSector: a boot block of four uneven sectors, then 64 KiB each. The last one's end wraps. */
  function SectorStart(off: Word): Word {
    if off < 0x4000 then 0
    else if off < 0x6000 then 0x4000
    else if off < 0x8000 then 0x6000
    else if off < 0x1_0000 then 0x8000
    else off - off % 0x1_0000
  }

  function SectorEnd(off: Word): Word {
    if off < 0x4000 then 0x4000
    else if off < 0x6000 then 0x6000
    else if off < 0x8000 then 0x8000
    else if off < 0x1_0000 then 0x1_0000
    else AddW(off - off % 0x1_0000, 0x1_0000)
  }

  function Erased(bytes: seq<Byte>, from: nat, to: nat): (r: seq<Byte>)
    ensures |r| == |bytes|
  {
    seq(|bytes|, a requires 0 <= a < |bytes| => if from <= a < to then 0xFF else bytes[a])
  }

  function Apply(bytes: seq<Byte>, effect: Effect, w: Access): (r: seq<Byte>)
    ensures |r| == |bytes|
  {
    match effect
    case Nothing => bytes
    case Program => Programmed(bytes, w, w.size.Count())
    case EraseSector => Erased(bytes, SectorStart(w.off), SectorEnd(w.off))
    case EraseChip => Erased(bytes, 0, |bytes|)
  }

  /** The array, the count of refused writes and the sequence. */
  datatype Chip = Chip(bytes: seq<Byte>, refused: nat, control: Control)

  function Written(f: Chip, w: Access): Chip {
    var turn := Advance(f.control, w);
    Chip(Apply(f.bytes, turn.effect, w), f.refused + if turn.refused then 1 else 0, turn.control)
  }

  /** A chip reset and then written to. */
  function Run(image: seq<Byte>, writes: seq<Access>): (r: Chip)
    ensures |r.bytes| == |image|
  {
    if |writes| == 0 then Chip(image, 0, IDLE) else Written(Run(image, writes[..|writes| - 1]), writes[|writes| - 1])
  }

  lemma {:induction false} RunControl(image: seq<Byte>, writes: seq<Access>)
    ensures Run(image, writes).control == After(writes)
  {
    if |writes| == 0 {
    } else {
      RunControl(image, writes[..|writes| - 1]);
    }
  }

  lemma {:induction false} ProgrammedAt(bytes: seq<Byte>, w: Access, k: nat)
    requires k <= w.size.Count()
    ensures var n, r := w.size.Count(), Programmed(bytes, w, k);
            && (forall i :: 0 <= i < k && At(w.off, i) < |bytes| ==>
                  r[At(w.off, i)] == And(bytes[At(w.off, i)], Lane(w.value, n, i)))
            && (forall a :: 0 <= a < |bytes| && (forall i :: 0 <= i < k ==> At(w.off, i) != a) ==> r[a] == bytes[a])
  {
    if k == 0 {
    } else {
      ProgrammedAt(bytes, w, k - 1);
      forall i | 0 <= i < k - 1 ensures At(w.off, i) != At(w.off, k - 1) { OffsetsApart(w.off, i, k - 1); }
      hide At, Lane, And;
    }
  }

  /** A write programmed byte a. */
  ghost predicate ProgramsByte(w: Access, a: nat, was: Byte, now: Byte) {
    exists i :: 0 <= i < w.size.Count() && At(w.off, i) == a && now == And(was, Lane(w.value, w.size.Count(), i))
  }

  /** The only ways a byte changes: it is programmed by the write right after an unlock and A0, or erased
      by a 30 inside its sector, or by a 10 at 555, right after an unlock with an erase set up. */
  lemma {:induction false} OnlyThreeWays(image: seq<Byte>, writes: seq<Access>, a: nat)
    requires 0 < |writes| && a < |image|
    ensures var n := |writes|;
            var was, now, w := Run(image, writes[..n - 1]).bytes[a], Run(image, writes).bytes[a], writes[n - 1];
            now != was ==>
              || (n >= 2 && Unlocked(writes, n - 2) && Is(writes[n - 2], 0xA0, 0x555) && ProgramsByte(w, a, was, now))
              || (Unlocked(writes, n - 1) && SetUp(writes, n - 1) && Command(w) == 0x30
                  && SectorStart(w.off) <= a < SectorEnd(w.off) && now == 0xFF)
              || (Unlocked(writes, n - 1) && SetUp(writes, n - 1) && Is(w, 0x10, 0x555) && now == 0xFF)
  {
    var n := |writes|;
    var before, w := Run(image, writes[..n - 1]), writes[n - 1];
    RunControl(image, writes[..n - 1]);
    StateExplained(writes, n - 1);
    StepChanges(before, w, a);
    hide Programmed, Unlocked, SetUp, Is, SectorStart, SectorEnd, Command, Apply, Advance, ProgramsByte, After;
  }

  lemma StepChanges(f: Chip, w: Access, a: nat)
    requires a < |f.bytes|
    ensures var was, now := f.bytes[a], Written(f, w).bytes[a];
            now != was ==>
              || (f.control.program && ProgramsByte(w, a, was, now))
              || (f.control.unlock == 2 && f.control.erase && now == 0xFF
                  && ((Command(w) == 0x30 && SectorStart(w.off) <= a < SectorEnd(w.off)) || Is(w, 0x10, 0x555)))
  {
    hide Programmed, Lane, At, And, Word12, Command, SectorStart, SectorEnd;
    if f.control.program { ProgrammedAt(f.bytes, w, w.size.Count()); }
  }

  /** A write that does not erase leaves in each byte only bits that were there. */
  lemma ApplyClears(bytes: seq<Byte>, effect: Effect, w: Access, a: nat)
    requires a < |bytes| && !effect.Erases()
    ensures Within(Apply(bytes, effect, w)[a], bytes[a])
  {
    WithinItself(bytes[a]);
    if effect.Program? {
      ProgrammedAt(bytes, w, w.size.Count());
      hide Programmed, At, Lane, Within;
      if i :| 0 <= i < w.size.Count() && At(w.off, i) == a { AndIsWithin(bytes[a], Lane(w.value, w.size.Count(), i)); }
    }
  }

  /** Between erases, bytes only lose bits. */
  lemma {:induction false} BitsOnlyClear(image: seq<Byte>, writes: seq<Access>, from: nat, a: nat)
    requires from <= |writes| && a < |image|
    requires forall k :: from <= k < |writes| ==> !Did(writes, k).Erases()
    ensures Within(Run(image, writes).bytes[a], Run(image, writes[..from]).bytes[a])
  {
    var n := |writes|;
    if from == n {
      assert writes[..n] == writes;
      WithinItself(Run(image, writes).bytes[a]);
    } else {
      var early := writes[..n - 1];
      forall k | from <= k < n - 1 ensures !Did(early, k).Erases() { assert early[..k] == writes[..k] && Did(writes, k) == Did(early, k); }
      BitsOnlyClear(image, early, from, a);
      assert early[..from] == writes[..from];
      RunControl(image, early);
      assert !Did(writes, n - 1).Erases();
      ApplyClears(Run(image, early).bytes, Did(writes, n - 1), writes[n - 1], a);
      hide Apply, Within, Advance;
      WithinChains(Run(image, writes).bytes[a], Run(image, early).bytes[a], Run(image, writes[..from]).bytes[a]);
    }
  }

  // ---- Which command bytes there are ----------------------------------------------------------------------------

  const UNLOCK_1 := Access(2 * 0x555, Two, 0xAA)
  const UNLOCK_2 := Access(2 * 0x2AA, Two, 0x55)

  function Order(command: Byte): Access {
    Access(2 * 0x555, Two, command)
  }

  lemma AfterOne(writes: seq<Access>, w: Access)
    ensures After(writes + [w]) == Advance(After(writes), w).control
  {
    hide Advance;
    assert (writes + [w])[..|writes|] == writes;
  }

  lemma AfterUnlock(writes: seq<Access>)
    requires After(writes).unlock == 0 && !After(writes).program
    ensures After(writes + [UNLOCK_1]) == After(writes).(unlock := 1)
    ensures After(writes + [UNLOCK_1] + [UNLOCK_2]) == After(writes).(unlock := 2)
  {
    AfterOne(writes, UNLOCK_1);
    AfterOne(writes + [UNLOCK_1], UNLOCK_2);
    hide After;
  }

  lemma AfterOrder(writes: seq<Access>, command: Byte)
    requires After(writes).unlock == 0 && !After(writes).program && command in {0x90, 0xA0, 0x80}
    ensures After(writes + [UNLOCK_1] + [UNLOCK_2] + [Order(command)]) ==
            if command == 0x90 then After(writes).(mode := true)
            else if command == 0xA0 then After(writes).(program := true) else After(writes).(erase := true)
  {
    AfterUnlock(writes);
    AfterOne(writes + [UNLOCK_1] + [UNLOCK_2], Order(command));
    hide After;
  }

  ghost predicate Reachable(c: Control) {
    exists writes :: After(writes) == c
  }

  /** The command bytes that runs reach are the ones Restore accepts, less those with a program pending in
      the middle of an unlock. */
  lemma {:induction false} ReachableBytes(b: Byte)
    ensures (Reachable(Unpack(b)) && b < 32) <==> Acceptable(b) && (Unpack(b).program ==> Unpack(b).unlock == 0)
  {
    if Reachable(Unpack(b)) && b < 32 {
      var writes :| After(writes) == Unpack(b);
      StateExplained(writes, |writes|);
      assert writes[..|writes|] == writes;
    }
    if Acceptable(b) && (Unpack(b).program ==> Unpack(b).unlock == 0) { Reaches(Unpack(b)); }
  }

  lemma ReachesMode(mode: bool) returns (writes: seq<Access>)
    ensures After(writes) == Control(mode, 0, false, false)
  {
    writes := [];
    if mode {
      AfterOrder(writes, 0x90);
      writes := writes + [UNLOCK_1] + [UNLOCK_2] + [Order(0x90)];
    }
  }

  lemma ReachesErase(mode: bool, erase: bool) returns (writes: seq<Access>)
    ensures After(writes) == Control(mode, 0, false, erase)
  {
    hide After;
    writes := ReachesMode(mode);
    if erase {
      AfterOrder(writes, 0x80);
      writes := writes + [UNLOCK_1] + [UNLOCK_2] + [Order(0x80)];
    }
  }

  lemma Reaches(c: Control)
    requires c.unlock <= 2 && (c.program ==> c.unlock == 0)
    ensures Reachable(c)
  {
    hide After;
    var writes := ReachesErase(c.mode, c.erase);
    AfterUnlock(writes);
    AfterOrder(writes, 0xA0);
    if c.program {
      assert After(writes + [UNLOCK_1] + [UNLOCK_2] + [Order(0xA0)]) == c;
    } else if c.unlock == 0 {
      assert After(writes) == c;
    } else if c.unlock == 1 {
      assert After(writes + [UNLOCK_1]) == c;
    } else {
      assert After(writes + [UNLOCK_1] + [UNLOCK_2]) == c;
    }
  }

  /** Every state a run reaches is one Restore takes back. */
  lemma {:induction false} RunsAreAcceptable(image: seq<Byte>, writes: seq<Access>)
    ensures var c := Run(image, writes).control; Acceptable(Pack(c)) && Unpack(Pack(c)) == c
  {
    RunControl(image, writes);
    StateExplained(writes, |writes|);
    assert writes[..|writes|] == writes;
    var c := After(writes);
    hide After, Unpack;
    PackedUnpacks(c);
    var p, e := Flag(c.program), Flag(c.erase);
    assert Pack(c) / 2 == c.unlock + 4 * p + 8 * e;
  }

  // ---- The sequences do what they are for --------------------------------------------------------------------

  /** From rest, an unlock and A0 make the next write, whatever it is, program; nothing else is left changed. */
  lemma ProgramWorks(f: Chip, first: Access, second: Access, order: Access, w: Access)
    requires f.control.unlock == 0 && !f.control.program
    requires Is(first, 0xAA, 0x555) && Is(second, 0x55, 0x2AA) && Is(order, 0xA0, 0x555)
    ensures Written(Written(Written(Written(f, first), second), order), w) == f.(bytes := Programmed(f.bytes, w, w.size.Count()))
  {
    hide Programmed, Word12, Command;
    assert Written(f, first) == f.(control := f.control.(unlock := 1));
    assert Written(Written(f, first), second) == f.(control := f.control.(unlock := 2));
    assert Written(Written(Written(f, first), second), order) == f.(control := f.control.(program := true));
  }

  /** From rest, an unlock and 80, another unlock and a 30 anywhere in a sector erase that sector. */
  lemma EraseWorks(f: Chip, first: Access, second: Access, order: Access, third: Access, fourth: Access, w: Access)
    requires f.control.unlock == 0 && !f.control.program
    requires Is(first, 0xAA, 0x555) && Is(second, 0x55, 0x2AA) && Is(order, 0x80, 0x555)
    requires Is(third, 0xAA, 0x555) && Is(fourth, 0x55, 0x2AA) && Command(w) == 0x30
    ensures Written(Written(Written(Written(Written(Written(f, first), second), order), third), fourth), w) ==
            f.(bytes := Erased(f.bytes, SectorStart(w.off), SectorEnd(w.off)), control := f.control.(erase := false))
  {
    hide Word12, Command, SectorStart, SectorEnd, Erased;
    assert Written(f, first) == f.(control := f.control.(unlock := 1));
    assert Written(Written(f, first), second) == f.(control := f.control.(unlock := 2));
    var armed := f.(control := f.control.(erase := true));
    assert Written(Written(Written(f, first), second), order) == armed;
    assert Written(armed, third) == armed.(control := armed.control.(unlock := 1));
    assert Written(Written(armed, third), fourth) == armed.(control := armed.control.(unlock := 2));
  }

  /** Below the last 64 KiB of the offset space, where the end wraps, the sectors divide the chip: an offset
      is in its own sector and in no other. */
  lemma SectorsDivide(a: Word, b: Word)
    requires b < 0xFFFF_0000
    ensures SectorStart(b) <= a < SectorEnd(b) <==> SectorStart(a) == SectorStart(b) && SectorEnd(a) == SectorEnd(b)
  {
    var q, r := a / 0x1_0000, b / 0x1_0000;
    assert a - a % 0x1_0000 == 0x1_0000 * q && b - b % 0x1_0000 == 0x1_0000 * r;
  }

  /** Where sector k begins: four boot sectors of 16, 8, 8 and 32 KiB, then 64 KiB each. */
  function Boundary(k: nat): nat {
    if k == 0 then 0 else if k == 1 then 0x4000 else if k == 2 then 0x6000 else if k == 3 then 0x8000
    else 0x1_0000 * (k - 3)
  }

  /** The sector of an offset is the one between whose boundaries it lies, and it lies between some two;
      the end of the last 64 KiB wraps. */
  lemma SectorsAre(off: Word)
    ensures forall k: nat :: Boundary(k) <= off < Boundary(k + 1) ==>
              SectorStart(off) == Boundary(k) && SectorEnd(off) as int == Boundary(k + 1) % 0x1_0000_0000
    ensures exists k: nat :: Boundary(k) <= off < Boundary(k + 1)
  {
    var q := off / 0x1_0000;
    assert off - off % 0x1_0000 == 0x1_0000 * q;
    var s: nat := if off < 0x4000 then 0 else if off < 0x6000 then 1 else if off < 0x8000 then 2 else q + 3;
    assert Boundary(s) <= off < Boundary(s + 1);
    forall k: nat | Boundary(k) <= off < Boundary(k + 1) ensures k == s {
      if k < s { BoundariesRise(k, s); }
      if s < k { BoundariesRise(s, k); }
    }
  }

  lemma BoundariesRise(j: nat, k: nat)
    requires j < k
    ensures Boundary(j + 1) <= Boundary(k)
  {
  }

  /** With an erase set up, F0 is refused and the erase stays set up. */
  lemma ResetDoesNotCancelErase(f: Chip, w: Access)
    requires f.control.erase && !f.control.program && Command(w) == 0xF0
    ensures Written(f, w).control == f.control.(unlock := 0) && Written(f, w).refused == f.refused + 1
    ensures Written(f, w).bytes == f.bytes
  {
    hide Word12;
  }

  /** F0 puts the sequence to rest unless an erase is set up, or it arrives as a program's data while
      the chip identifies itself; and unless it is a program's data or an erase is set up, that is
      all it does. */
  lemma WhenF0Resets(c: Control, w: Access)
    requires Command(w) == 0xF0
    ensures Advance(c, w).control == IDLE <==> !c.erase && !(c.program && c.mode)
    ensures Advance(c, w) == Turn(IDLE, Nothing, false) <==> !c.erase && !c.program
  {
    hide Word12;
  }

  // ---- Reading -------------------------------------------------------------------------------------------------

  /** What a chip answers while it identifies itself. */
  function Identify(off: Word, size: Size): nat {
    var id := if off / 2 % 2 == 1 then 0x2249 else 0x0004;
    match size
    case Four => 0x0004_2249
    case Two => id
    case One => if off % 2 == 1 then id % 0x100 else id / 0x100
  }

  /** The manufacturer and the device, over and over. */
  function Badge(a: Word): Byte {
    Lettering(a % 4)
  }

  function Lettering(r: int): Byte {
    if r == 0 then 0x00 else if r == 1 then 0x04 else if r == 2 then 0x22 else 0x49
  }

  function BadgeLoad(off: Word, n: nat): nat {
    if n == 0 then 0 else BadgeLoad(off, n - 1) * 0x100 + Badge(At(off, n - 1))
  }

  lemma Residue(off: Word, i: nat)
    requires i < 4
    ensures Badge(At(off, i)) == Lettering(if off % 4 + i < 4 then off % 4 + i else off % 4 + i - 4)
  {
    hide Lettering;
  }

  lemma BadgeLoads(off: Word, size: Size)
    ensures BadgeLoad(off, size.Count()) ==
            match size
            case One => Badge(At(off, 0)) as int
            case Two => Badge(At(off, 0)) as int * 0x100 + Badge(At(off, 1))
            case Four => Badge(At(off, 0)) as int * 0x100_0000 + Badge(At(off, 1)) as int * 0x1_0000 + Badge(At(off, 2)) as int * 0x100 + Badge(At(off, 3))
  {
    hide At, Badge;
    assert BadgeLoad(off, 1) == Badge(At(off, 0));
    assert BadgeLoad(off, 2) == BadgeLoad(off, 1) * 0x100 + Badge(At(off, 1));
    assert BadgeLoad(off, 3) == BadgeLoad(off, 2) * 0x100 + Badge(At(off, 2));
    assert BadgeLoad(off, 4) == BadgeLoad(off, 3) * 0x100 + Badge(At(off, 3));
  }

  /** The answer is a big-endian read of the repeated badge exactly for aligned accesses. */
  lemma IdentifiesAligned(off: Word, size: Size)
    ensures Identify(off, size) == BadgeLoad(off, size.Count()) <==> off % size.Count() == 0
  {
    hide BadgeLoad, At, Badge;
    BadgeLoads(off, size);
    Residue(off, 0);
    Residue(off, 1);
    Residue(off, 2);
    Residue(off, 3);
    var q, r := off / 4, off % 4;
    assert off == 4 * q + r;
    assert off / 2 == 2 * q + r / 2 && off / 2 % 2 == r / 2 && off % 2 == r % 2;
    match size
    case One => assert Identify(off, One) == Lettering(r);
    case Two => assert r == 0 || r == 1 || r == 2 || r == 3;
    case Four => assert r == 0 || r == 1 || r == 2 || r == 3;
  }

  function ReadOf(f: Chip, off: Word, size: Size): nat {
    if f.control.mode then Identify(off, size) else Load(f.bytes, off, size.Count())
  }

  // ---- In place -------------------------------------------------------------------------------------------------

  class FlashChip {
    const bytes: array<Byte>
    var refused: nat
    var command: Byte

    constructor (image: seq<Byte>)
      requires 0 < |image| < 0x1_0000_0000
      ensures Valid() && fresh(bytes) && State() == Run(image, [])
    {
      bytes, refused, command := new Byte[|image|](i requires 0 <= i < |image| => image[i]), 0, 0;
      new;
      assert bytes[..] == image;
    }

    ghost predicate Valid()
      reads this
    {
      0 < bytes.Length < 0x1_0000_0000 && command < 32
    }

    ghost function State(): Chip
      reads this, bytes
    {
      Chip(bytes[..], refused, Unpack(command))
    }

    method Read(off: Word, size: Size) returns (value: nat)
      requires Valid()
      ensures value == ReadOf(State(), off, size)
    {
      if command % 2 == 1 {
        value := Identify(off, size);
      } else if off + size.Count() <= bytes.Length {
        FastLoad(bytes[..], off, size);
        hide Load;
        match size {
          case One => value := bytes[off];
          case Two => value := bytes[off] as int * 0x100 + bytes[off + 1];
          case Four =>
            value := bytes[off] as int * 0x100_0000 + bytes[off + 1] as int * 0x1_0000 + bytes[off + 2] as int * 0x100 + bytes[off + 3];
        }
      } else {
        value := 0;
        for i := 0 to size.Count()
          invariant value == Load(bytes[..], off, i)
        {
          var a := At(off, i);
          value := value * 0x100 + if a < bytes.Length then bytes[a] as int else 0;
        }
      }
    }

    method ProgramAll(w: Access)
      requires Valid()
      modifies bytes
      ensures bytes[..] == Programmed(old(bytes[..]), w, w.size.Count())
    {
      for i := 0 to w.size.Count()
        invariant bytes[..] == Programmed(old(bytes[..]), w, i)
      {
        var a := At(w.off, i);
        hide And, At, Lane;
        if a < bytes.Length {
          ghost var was := bytes[..];
          bytes[a] := And(bytes[a], Lane(w.value, w.size.Count(), i));
          assert bytes[..] == was[a := And(was[a], Lane(w.value, w.size.Count(), i))];
        }
      }
    }

    method Erase(from: nat, to: nat)
      requires Valid()
      modifies bytes
      ensures bytes[..] == Erased(old(bytes[..]), from, to)
    {
      var end := if to > bytes.Length then bytes.Length else to;
      var i := from;
      while i < end
        invariant from <= i && (if from <= end then i <= end else i == from)
        invariant forall a :: 0 <= a < bytes.Length ==> bytes[a] == if from <= a < i then 0xFF else old(bytes[a])
      {
        bytes[i] := 0xFF;
        i := i + 1;
      }
      assert forall a :: 0 <= a < bytes.Length ==> bytes[..][a] == Erased(old(bytes[..]), from, to)[a];
    }

    // An unlocked command at 555.
    method Obey(w: Access, c: Control) returns (next: Control)
      requires Valid() && c == Unpack(command)
      requires c.unlock == 2 && !c.program && !(c.erase && Command(w) == 0x30) && !(Command(w) == 0xF0 && !c.erase)
      requires Word12(w) == 0x555
      modifies bytes, this`refused
      ensures Valid() && command == old(command)
      ensures Chip(bytes[..], refused, next) == Written(old(State()), w)
    {
      hide Unpack, Word12, Erased;
      var order := Command(w);
      hide Command;
      next := c.(unlock := 0);
      if order == 0x90 {
        next := next.(mode := true);
      } else if order == 0xA0 {
        next := next.(program := true);
      } else if order == 0x80 {
        next := next.(erase := true);
      } else if order == 0x10 {
        if c.erase {
          Erase(0, bytes.Length);
          next := next.(erase := false);
        }
      } else {
        refused := refused + 1;
      }
    }

    method Write(off: Word, size: Size, value: Word)
      requires Valid()
      modifies this, bytes
      ensures Valid() && State() == Written(old(State()), Access(off, size, value))
    {
      hide Programmed, Erased, SectorStart, SectorEnd, Unpack, Pack;
      var c, w := Unpack(command), Access(off, size, value);
      var word, order := off / 2 % 0x1000, value % 0x100;
      var next := c.(unlock := 0);
      if c.program {
        next := next.(program := false);
        ProgramAll(w);
      } else if c.unlock == 2 && c.erase && order == 0x30 {
        next := next.(erase := false);
        Erase(SectorStart(off), SectorEnd(off));
      } else if order == 0xF0 && !c.erase {
        next := next.(mode := false);
      } else if c.unlock == 0 && order == 0xAA && word == 0x555 {
        next := c.(unlock := 1);
      } else if c.unlock == 1 && order == 0x55 && word == 0x2AA {
        next := c.(unlock := 2);
      } else if c.unlock == 2 && word == 0x555 {
        next := Obey(w, c);
      } else {
        refused := refused + 1;
      }
      PackedUnpacks(next);
      command := Pack(next);
    }

    method Reset()
      requires Valid()
      modifies this
      ensures Valid() && State() == Run(bytes[..], [])
    {
      refused, command := 0, 0;
    }

    /** Restore, once the blob has been decoded. */
    method Restore(image: seq<Byte>, turnedAway: nat, order: Byte) returns (ok: bool)
      requires Valid()
      modifies this, bytes
      ensures Valid()
      ensures ok == (|image| == bytes.Length && Acceptable(order))
      ensures State() == if ok then Chip(image, turnedAway, Unpack(order)) else old(State())
    {
      if |image| != bytes.Length || order >= 32 || order / 2 % 4 > 2 { return false; }
      forall i | 0 <= i < bytes.Length { bytes[i] := image[i]; }
      assert bytes[..] == image;
      refused, command := turnedAway, order;
      ok := true;
    }
  }
}
