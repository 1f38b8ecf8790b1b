// internal/machine/snapshot.go: saving and restoring a whole machine. The owners of state are the
// core, the handoff, the Sky gates, the clock and the bus; the bus is restored last, because it
// alone can undo itself.
module MachineSnapshot {
  import opened Words
  import opened BusSnapshot
  import opened Stepping

  // ---- On values ----------------------------------------------------------------------------------------

  /** What the core saves: everything but the memory, which is on the bus. */
  type CoreState = s: Snap | s.mem == map[] witness JUMP_TO_TWO.(mem := map[])

  /** A core blob, if it decodes. */
  type CoreBlob = Option<CoreState>

  const STOPPED: CoreState := JUMP_TO_TWO.(mem := map[])

  function CoreLoad(now: CoreState, blob: CoreBlob): (bool, CoreState) {
    if blob.Some? && RestoreAccepts(blob.value) then (true, blob.value) else (false, now)
  }

  /** Core.Snapshot and Core.Restore. */
  const CPU: Behaviour<CoreState, CoreBlob> := Behaviour<CoreState, CoreBlob>.Behaviour((s: CoreState) => Some(Some(s)), CoreLoad, STOPPED)

  /** The owners whose workings are not modelled, and the devices on the bus. */
  datatype Owners = Owners(handoff: Model, sky: Model, clock: Model, devices: seq<Model>, names: seq<Name>)
  {
    ghost predicate Honest() {
      && |devices| == |names| && Distinct(names)
      && handoff.Honest() && sky.Honest() && clock.Honest()
      && forall k :: 0 <= k < |devices| ==> devices[k].Honest()
    }

    ghost predicate Reliable() {
      && handoff.Reliable() && sky.Reliable() && clock.Reliable()
      && forall k :: 0 <= k < |devices| ==> devices[k].Reliable()
    }
  }

  datatype Machine = Machine(cpu: CoreState, handoff: State, sky: State, clock: State, retired: nat, bus: BusState, unknown: bool)

  /** An opened machine snapshot with exactly the members a machine has. */
  datatype Whole = Whole(cpu: CoreBlob, handoff: Blob, sky: Blob, clock: Blob, retired: Option<nat>, bus: Option<Image>)

  datatype NonBus = NonBus(cpu: CoreBlob, handoff: Blob, sky: Blob, clock: Blob, retired: nat)

  function SaveNonBus(os: Owners, m: Machine): Option<NonBus> {
    var h, s, c := os.handoff.save(m.handoff), os.sky.save(m.sky), os.clock.save(m.clock);
    if h.None? || s.None? || c.None? then None else Some(NonBus(Some(m.cpu), h.value, s.value, c.value, m.retired))
  }

  function SaveMachine(os: Owners, m: Machine): Option<Whole>
    requires |os.devices| == |os.names| == |m.bus.states|
  {
    if m.unknown then None
    else
      var bus, rest := SnapshotOf(os.devices, os.names, m.bus), SaveNonBus(os, m);
      if bus.None? || rest.None? then None
      else
        var r := rest.value;
        Some(Whole(r.cpu, r.handoff, r.sky, r.clock, Some(r.retired), bus))
  }

  /** restoreSet, owner by owner, the bus last. */
  function RestoreSet(os: Owners, m: Machine, w: Whole): (r: (bool, Machine))
    requires |os.devices| == |os.names| == |m.bus.states|
  {
    var (ok, cpu) := CPU.load(m.cpu, w.cpu);
    var m := m.(cpu := cpu);
    if !ok then (false, m)
    else
      var (ok, handoff) := os.handoff.load(m.handoff, w.handoff);
      var m := m.(handoff := handoff);
      if !ok || w.retired.None? then (false, m)
      else
        var m := m.(retired := w.retired.value);
        var (ok, sky) := os.sky.load(m.sky, w.sky);
        var m := m.(sky := sky);
        if !ok then (false, m)
        else
          var (ok, clock) := os.clock.load(m.clock, w.clock);
          var m := m.(clock := clock);
          if !ok then (false, m)
          else
            var (ok, bus) := RestoreOf(os.devices, os.names, m.bus, w.bus);
            (ok, m.(bus := bus))
  }

  /** restoreNonBusState: every owner is given its own blob back, whoever refuses. */
  function UndoNonBus(os: Owners, m: Machine, was: NonBus): (r: (bool, Machine)) {
    var (ok0, cpu) := CPU.load(m.cpu, was.cpu);
    var (ok1, handoff) := os.handoff.load(m.handoff, was.handoff);
    var (ok2, sky) := os.sky.load(m.sky, was.sky);
    var (ok3, clock) := os.clock.load(m.clock, was.clock);
    (ok0 && ok1 && ok2 && ok3, Machine(cpu, handoff, sky, clock, was.retired, m.bus, m.unknown))
  }

  function RestoreMachine(os: Owners, m: Machine, w: Option<Whole>): (r: (bool, Machine))
    requires |os.devices| == |os.names| == |m.bus.states|
  {
    if m.unknown || w.None? then (false, m)
    else
      var before := SaveNonBus(os, m);
      if before.None? then (false, m)
      else
        var (ok, after) := RestoreSet(os, m, w.value);
        if ok then (true, after)
        else
          var (undone, back) := UndoNonBus(os, after, before.value);
          (false, back.(unknown := !undone))
  }

  // ---- All or nothing, twice over ---------------------------------------------------------------------------

  lemma {:induction false} SetInstalls(os: Owners, m: Machine, w: Whole)
    requires |os.devices| == |os.names| == |m.bus.states|
    ensures var (ok, r) := RestoreSet(os, m, w);
            && r.unknown == m.unknown
            && (ok ==> && w.cpu == Some(r.cpu) && RestoreAccepts(r.cpu)
                       && os.handoff.load(m.handoff, w.handoff) == (true, r.handoff)
                       && os.sky.load(m.sky, w.sky) == (true, r.sky)
                       && os.clock.load(m.clock, w.clock) == (true, r.clock)
                       && w.retired == Some(r.retired)
                       && RestoreOf(os.devices, os.names, m.bus, w.bus) == (true, r.bus))
            && (!ok ==> r.bus == m.bus || RestoreOf(os.devices, os.names, m.bus, w.bus) == (false, r.bus))
  {
    hide RestoreOf, RestoreAccepts;
  }

  /** A rollback that nobody refuses is exact, and only the core's own test can make the core refuse. */
  lemma {:induction false} UndoIsExact(os: Owners, m: Machine, after: Machine)
    requires os.Honest() && SaveNonBus(os, m).Some?
    ensures var (undone, r) := UndoNonBus(os, after, SaveNonBus(os, m).value);
            && (undone ==> r == m.(bus := after.bus, unknown := after.unknown))
            && (undone ==> RestoreAccepts(m.cpu))
            && (os.Reliable() ==> undone == RestoreAccepts(m.cpu))
            && r.bus == after.bus && r.unknown == after.unknown
  {
    hide RestoreAccepts;
  }

  /** A machine restore installs every member, or leaves the machine exactly as it was, or leaves a
      machine or a bus that knows it has no known state. The last needs an owner that refuses a blob
      just taken from it: for the machine, an unreliable owner or a core whose own test fails. */
  lemma {:induction false} MachineAllOrNothing(os: Owners, m: Machine, w: Option<Whole>)
    requires os.Honest() && |m.bus.states| == |os.devices|
    ensures var (ok, r) := RestoreMachine(os, m, w);
            && |r.bus.states| == |m.bus.states|
            && (ok ==> && w.Some? && !r.unknown && !r.bus.unknown
                       && w.value.cpu == Some(r.cpu) && RestoreAccepts(r.cpu)
                       && os.handoff.load(m.handoff, w.value.handoff) == (true, r.handoff)
                       && os.sky.load(m.sky, w.value.sky) == (true, r.sky)
                       && os.clock.load(m.clock, w.value.clock) == (true, r.clock)
                       && w.value.retired == Some(r.retired)
                       && RestoreOf(os.devices, os.names, m.bus, w.value.bus) == (true, r.bus))
            && (!ok ==> r == m || r.unknown || (r.bus.unknown && r == m.(bus := r.bus)))
            && (r.unknown && !m.unknown && os.Reliable() ==> !RestoreAccepts(m.cpu))
            && (r.bus.unknown && !m.bus.unknown ==> !os.Reliable())
  {
    if !m.unknown && w.Some? && SaveNonBus(os, m).Some? {
      SetInstalls(os, m, w.value);
      var (ok, after) := RestoreSet(os, m, w.value);
      UndoIsExact(os, m, after);
      UnknownRefuses(os.devices, os.names, m.bus, w.value.bus);
      BusStaysKnown(os, m.bus, w.value.bus);
      hide RestoreSet, UndoNonBus, SaveNonBus, RestoreOf, RestoreAccepts, SnapshotOf;
    }
  }

  lemma {:induction false} BusStaysKnown(os: Owners, b: BusState, image: Option<Image>)
    requires os.Honest() && |b.states| == |os.devices|
    ensures var (ok, r) := RestoreOf(os.devices, os.names, b, image);
            && |r.states| == |b.states|
            && (ok ==> !r.unknown)
            && (os.Reliable() && !b.unknown ==> !r.unknown)
  {
    AllOrNothing(os.devices, os.names, b.states, image);
    hide Restore;
  }

  /** Saving one machine and restoring it over another, both with cores that real runs reach and owners
      that can be trusted: it succeeds exactly when the saved core is word aligned, and then the other
      machine becomes the saved one. When it fails the other machine is still known, and still itself,
      exactly when its own core is word aligned. */
  lemma {:induction false} MachineRoundTrip(os: Owners, m: Machine, other: Machine)
    requires os.Honest() && os.Reliable() && Sound(m.cpu) && Sound(other.cpu)
    requires |m.bus.states| == |other.bus.states| == |os.devices|
    requires !m.unknown && !m.bus.unknown && !other.unknown && !other.bus.unknown
    ensures var w := SaveMachine(os, m);
            var (ok, r) := RestoreMachine(os, other, w);
            && w.Some?
            && ok == WordAligned(m.cpu)
            && (ok ==> r == m)
            && (!ok ==> if WordAligned(other.cpu) then r == other else r.unknown)
  {
    SnapshotRoundTrip(os.devices, os.names, m.bus.states, other.bus.states);
    assert m.bus == BusState(m.bus.states, false) && other.bus == BusState(other.bus.states, false);
    hide SnapshotOf, RestoreOf;
    var w := SaveMachine(os, m).value;
    RestoreAcceptsReachable(m.cpu);
    RestoreAcceptsReachable(other.cpu);
    hide RestoreAccepts, WordAligned, Sound;
    var (ok, after) := RestoreSet(os, other, w);
    SetTakes(os, other, w, m);
    UndoIsExact(os, other, after);
    hide RestoreSet, UndoNonBus;
  }

  /** A complete image of trusted owners stops only at the core. */
  lemma {:induction false} SetTakes(os: Owners, m: Machine, w: Whole, was: Machine)
    requires os.Honest() && os.Reliable() && |m.bus.states| == |os.devices| == |was.bus.states|
    requires w.cpu == Some(was.cpu) && w.retired == Some(was.retired)
    requires os.handoff.save(was.handoff) == Some(w.handoff) && os.sky.save(was.sky) == Some(w.sky)
    requires os.clock.save(was.clock) == Some(w.clock)
    requires RestoreOf(os.devices, os.names, m.bus, w.bus) == (true, was.bus)
    ensures var (ok, r) := RestoreSet(os, m, w);
            && ok == RestoreAccepts(was.cpu)
            && (ok ==> r == was.(unknown := m.unknown))
            && (!ok ==> r == m)
  {
    hide RestoreAccepts, RestoreOf;
  }

  /** A machine one instruction after a MIPS32 jump to an address that is 2 modulo 4 can be saved, but
      restoring that very snapshot on it loses it. */
  lemma {:induction false} OwnSnapshotLosesTheMachine(os: Owners, m: Machine)
    requires os.Honest() && os.Reliable() && |m.bus.states| == |os.devices| && !m.unknown && !m.bus.unknown
    requires var r := Step(JUMP_TO_TWO, NoHook); r.Retired? && m.cpu == r.s.(mem := map[])
    ensures var w := SaveMachine(os, m); w.Some? && var (ok, r) := RestoreMachine(os, m, w); !ok && r.unknown
  {
    RefusedAfterJump();
    var r := Step(JUMP_TO_TWO, NoHook);
    hide Step;
    assert Sound(m.cpu) && !RestoreAccepts(m.cpu);
    RestoreAcceptsReachable(m.cpu);
    MachineRoundTrip(os, m, m);
  }

  /** A bus with no known state keeps the whole machine from being saved or restored. */
  lemma {:induction false} LostBusRefusesTheMachine(os: Owners, m: Machine, w: Option<Whole>)
    requires os.Honest() && |m.bus.states| == |os.devices|
    requires m.unknown || m.bus.unknown
    ensures SaveMachine(os, m) == None
    ensures var (ok, r) := RestoreMachine(os, m, w); !ok && (r == m || r.unknown)
  {
    MachineAllOrNothing(os, m, w);
    if !m.unknown && w.Some? && SaveNonBus(os, m).Some? {
      SetInstalls(os, m, w.value);
      var (ok, after) := RestoreSet(os, m, w.value);
      UndoIsExact(os, m, after);
      hide RestoreSet, UndoNonBus, SaveNonBus, RestoreAccepts;
    }
  }

  // ---- In place -------------------------------------------------------------------------------------------------

  class Board {
    const core: Device<CoreState, CoreBlob>
    const handoff: Device<State, Blob>
    const sky: Device<State, Blob>
    const clock: Device<State, Blob>
    const bus: Bus
    var retired: nat
    var unknown: bool

    constructor (c: Device<CoreState, CoreBlob>, h: Device<State, Blob>, s: Device<State, Blob>, k: Device<State, Blob>, b: Bus)
      requires c.does == CPU && b.Valid() && h != s && h != k && s != k
      requires h !in b.devices && s !in b.devices && k !in b.devices
      ensures Valid() && core == c && handoff == h && sky == s && clock == k && bus == b
      ensures retired == 0 && !unknown
    {
      core, handoff, sky, clock, bus, retired, unknown := c, h, s, k, b, 0, false;
    }

    ghost predicate Valid()
      reads bus`devices
    {
      && core.does == CPU && bus.Valid()
      && handoff != sky && handoff != clock && sky != clock
      && handoff !in bus.devices && sky !in bus.devices && clock !in bus.devices
    }

    ghost function Parts(): (r: Owners)
      reads bus`devices
      ensures |r.devices| == |r.names| == |bus.devices|
    {
      Owners(handoff.does, sky.does, clock.does, bus.Models(), bus.Names())
    }

    ghost function Now(): (r: Machine)
      reads this, core, handoff, sky, clock, bus, bus.devices
      ensures |r.bus.states| == |bus.devices|
    {
      Machine(core.state, handoff.state, sky.state, clock.state, retired, bus.Now(), unknown)
    }

    method SaveRest() returns (saved: Option<NonBus>)
      requires Valid()
      ensures saved == SaveNonBus(Parts(), Now())
    {
      var cpu := core.Save();
      var c := clock.Save();
      if c.None? { return None; }
      var h := handoff.Save();
      if h.None? { return None; }
      var s := sky.Save();
      if s.None? { return None; }
      saved := Some(NonBus(cpu.value, h.value, s.value, c.value, retired));
    }

    method Snapshot() returns (image: Option<Whole>)
      requires Valid()
      ensures image == SaveMachine(Parts(), Now())
    {
      hide SnapshotOf;
      if unknown { return None; }
      var boardImage := bus.Snapshot();
      if boardImage.None? { return None; }
      var rest := SaveRest();
      hide SaveNonBus;
      if rest.None? { return None; }
      var r := rest.value;
      image := Some(Whole(r.cpu, r.handoff, r.sky, r.clock, Some(r.retired), boardImage));
    }

    method RestoreAll(w: Whole) returns (ok: bool)
      requires Valid()
      modifies this`retired, core, handoff, sky, clock, bus`unknown, bus.devices
      ensures Valid()
      ensures (ok, Now()) == RestoreSet(Parts(), old(Now()), w)
    {
      hide RestoreOf, CoreLoad, Bus.Valid, Bus.Models, Bus.Names, Bus.Now;
      ok := core.Load(w.cpu);
      if !ok { return; }
      ok := handoff.Load(w.handoff);
      if !ok { return; }
      if w.retired.None? { return false; }
      retired := w.retired.value;
      ok := sky.Load(w.sky);
      if !ok { return; }
      ok := clock.Load(w.clock);
      if !ok { return; }
      ok := bus.Restore(w.bus);
    }

    method UndoAll(was: NonBus) returns (undone: bool)
      requires Valid()
      modifies this`retired, core, handoff, sky, clock
      ensures Valid()
      ensures (undone, Now()) == UndoNonBus(Parts(), old(Now()), was)
    {
      hide CoreLoad, Bus.Valid, Bus.Models, Bus.Names, Bus.Now;
      undone := core.Load(was.cpu);
      var ok := handoff.Load(was.handoff);
      undone := undone && ok;
      ok := sky.Load(was.sky);
      undone := undone && ok;
      ok := clock.Load(was.clock);
      undone := undone && ok;
      retired := was.retired;
    }

    method Restore(w: Option<Whole>) returns (ok: bool)
      requires Valid()
      modifies this`retired, this`unknown, core, handoff, sky, clock, bus`unknown, bus.devices
      ensures Valid()
      ensures (ok, Now()) == RestoreMachine(Parts(), old(Now()), w)
    {
      hide RestoreSet, UndoNonBus, SaveNonBus;
      if unknown || w.None? { return false; }
      var before := SaveRest();
      if before.None? { return false; }
      ok := RestoreAll(w.value);
      if ok { return; }
      var undone := UndoAll(before.value);
      unknown := !undone;
    }
  }
}
