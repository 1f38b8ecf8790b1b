// internal/bus/snapshot.go: saving and restoring every device on the bus. A device is whatever it
// does with a blob: it may refuse one, and may scribble on itself while refusing. What it promises
// is only that accepting a blob of its own puts back the state the blob was taken from.
module BusSnapshot {
  import opened Words

  type State = seq<Byte>
  type Blob = seq<Byte>
  type Name = seq<char>

  /** What an owner of state does when it is saved and when it is given a blob, and its power-on state. */
  datatype Behaviour<!S(!new), !B(!new)> = Behaviour(save: S -> Option<B>, load: (S, B) -> (bool, S), initial: S)
  {
    /** Whatever state it is in, accepting a blob taken from it puts that state back. */
    ghost predicate Honest() {
      forall s, t, b :: save(s) == Some(b) && load(t, b).0 ==> load(t, b).1 == s
    }

    /** It never refuses a blob taken from it in state s. */
    ghost predicate TakesBack(s: S) {
      forall t, b :: save(s) == Some(b) ==> load(t, b).0
    }

    /** It can always be saved, and never refuses a blob of its own. */
    ghost predicate Reliable() {
      forall s :: save(s).Some? && TakesBack(s)
    }
  }

  type Model = Behaviour<State, Blob>

  /** An opened snapshot: its version and its named blobs. */
  datatype Image = Image(version: nat, members: map<Name, Blob>)

  const VERSION := 2
  const LEGACY_VERSION := 1
  const LEGACY_AUDIO: Name := "audio-control"

  /** How a restore ends: every blob installed, nothing changed, or no known state at all. */
  datatype Ending = Installed | Refused | Unknown

  // ---- On values ----------------------------------------------------------------------------------------

  /** The names a snapshot of this version must have, exactly. */
  function Required(names: seq<Name>, version: nat): set<Name> {
    set n | n in names && !(version == 1 && n == "audio-control")
  }

  /** The blob each device is given: its own member or, for a device younger than the snapshot, the
      state it is in. */
  function BlobFor(b: Model, name: Name, s: State, image: Image): Option<Blob> {
    if name in image.members then Some(image.members[name])
    else if image.version == LEGACY_VERSION && name == LEGACY_AUDIO then b.save(s)
    else None
  }

  function Blobs(bs: seq<Model>, names: seq<Name>, states: seq<State>, image: Image, n: nat): Option<seq<Blob>>
    requires n <= |bs| == |names| == |states|
  {
    if n == 0 then Some([])
    else
      match Blobs(bs, names, states, image, n - 1)
      case None => None
      case Some(early) =>
        match BlobFor(bs[n - 1], names[n - 1], states[n - 1], image)
        case None => None
        case Some(blob) => Some(early + [blob])
  }

  /** The rollback copy of the first n devices. */
  function Saves(bs: seq<Model>, states: seq<State>, n: nat): Option<seq<Blob>>
    requires n <= |bs| == |states|
  {
    if n == 0 then Some([])
    else
      match Saves(bs, states, n - 1)
      case None => None
      case Some(early) =>
        match bs[n - 1].save(states[n - 1])
        case None => None
        case Some(blob) => Some(early + [blob])
  }

  datatype Loaded = Loaded(states: seq<State>, failed: Option<nat>)

  /** The first n devices given their blobs in order, stopping at the first that refuses. */
  function Load(bs: seq<Model>, states: seq<State>, blobs: seq<Blob>, n: nat): (r: Loaded)
    requires n <= |bs| == |states| && n <= |blobs|
    ensures |r.states| == |states| && (r.failed.Some? ==> r.failed.value < n)
  {
    if n == 0 then Loaded(states, None)
    else
      var r := Load(bs, states, blobs, n - 1);
      if r.failed.Some? then r
      else
        var (ok, s) := bs[n - 1].load(r.states[n - 1], blobs[n - 1]);
        Loaded(r.states[n - 1 := s], if ok then None else Some(n - 1))
  }

  datatype Undone = Undone(states: seq<State>, all: bool)

  /** rollback: the first n devices given back their own blobs, all of them, whoever refuses. */
  function Undo(bs: seq<Model>, states: seq<State>, before: seq<Blob>, n: nat): (r: Undone)
    requires n <= |bs| == |states| && n <= |before|
    ensures |r.states| == |states|
  {
    if n == 0 then Undone(states, true)
    else
      var r := Undo(bs, states, before, n - 1);
      var (ok, s) := bs[n - 1].load(r.states[n - 1], before[n - 1]);
      Undone(r.states[n - 1 := s], r.all && ok)
  }

  datatype Restored = Restored(states: seq<State>, ending: Ending)

  function Attempt(bs: seq<Model>, states: seq<State>, blobs: seq<Blob>, before: seq<Blob>): Restored
    requires |bs| == |states| == |blobs| == |before|
  {
    var r := Load(bs, states, blobs, |bs|);
    match r.failed
    case None => Restored(r.states, Installed)
    case Some(i) =>
      var u := Undo(bs, r.states, before, i + 1);
      Restored(u.states, if u.all then Refused else Unknown)
  }

  /** Bus.Restore on an opened snapshot, from a known state. */
  function Restore(bs: seq<Model>, names: seq<Name>, states: seq<State>, image: Option<Image>): (r: Restored)
    requires |bs| == |names| == |states|
  {
    if image.None? || image.value.members.Keys != Required(names, image.value.version) then Restored(states, Refused)
    else
      var blobs := Blobs(bs, names, states, image.value, |bs|);
      var before := Saves(bs, states, |bs|);
      BlobsCount(bs, names, states, image.value, |bs|);
      SavesCount(bs, states, |bs|);
      if blobs.None? || before.None? then Restored(states, Refused) else Attempt(bs, states, blobs.value, before.value)
  }

  lemma {:induction false} BlobsCount(bs: seq<Model>, names: seq<Name>, states: seq<State>, image: Image, n: nat)
    requires n <= |bs| == |names| == |states|
    ensures Blobs(bs, names, states, image, n).Some? ==> |Blobs(bs, names, states, image, n).value| == n
  {
    if n == 0 {
    } else {
      BlobsCount(bs, names, states, image, n - 1);
    }
  }

  lemma {:induction false} SavesCount(bs: seq<Model>, states: seq<State>, n: nat)
    requires n <= |bs| == |states|
    ensures match Saves(bs, states, n)
            case None => true
            case Some(blobs) => |blobs| == n && forall k :: 0 <= k < n ==> bs[k].save(states[k]) == Some(blobs[k])
  {
    if n == 0 {
    } else {
      SavesCount(bs, states, n - 1);
    }
  }

  // ---- All or nothing ---------------------------------------------------------------------------------------

  /** A load that has not failed has installed each blob over the device's own state; one that has
      failed has touched no device past the one that refused. */
  lemma {:induction false} LoadInstalls(bs: seq<Model>, states: seq<State>, blobs: seq<Blob>, n: nat)
    requires n <= |bs| == |states| && n <= |blobs|
    ensures var r := Load(bs, states, blobs, n);
            match r.failed
            case None =>
              && (forall k :: 0 <= k < n ==> bs[k].load(states[k], blobs[k]) == (true, r.states[k]))
              && (forall k :: n <= k < |bs| ==> r.states[k] == states[k])
            case Some(i) =>
              && !bs[i].load(states[i], blobs[i]).0
              && (forall k :: i < k < |bs| ==> r.states[k] == states[k])
  {
    if n == 0 {
    } else {
      LoadInstalls(bs, states, blobs, n - 1);
    }
  }

  /** A rollback nobody refuses puts the first n devices back, whatever was done to them. */
  lemma {:induction false} UndoRestores(bs: seq<Model>, was: seq<State>, states: seq<State>, before: seq<Blob>, n: nat)
    requires n <= |bs| == |states| == |was| && n <= |before|
    requires forall k :: 0 <= k < n ==> bs[k].Honest() && bs[k].save(was[k]) == Some(before[k])
    ensures var r := Undo(bs, states, before, n);
            && (r.all ==> forall k :: 0 <= k < n ==> r.states[k] == was[k])
            && (forall k :: n <= k < |bs| ==> r.states[k] == states[k])
            && ((forall k :: 0 <= k < n ==> bs[k].TakesBack(was[k])) ==> r.all)
  {
    if n == 0 {
    } else {
      UndoRestores(bs, was, states, before, n - 1);
    }
  }

  /** A bus restore installs every blob, or changes nothing, or says that no state is known; and the
      last only if some device refuses a blob just taken from it. */
  lemma {:induction false} AllOrNothing(bs: seq<Model>, names: seq<Name>, states: seq<State>, image: Option<Image>)
    requires |bs| == |names| == |states| && forall k :: 0 <= k < |bs| ==> bs[k].Honest()
    ensures var r := Restore(bs, names, states, image);
            && |r.states| == |states|
            && (r.ending == Installed ==>
                  image.Some? && image.value.members.Keys == Required(names, image.value.version) &&
                  forall k :: 0 <= k < |bs| ==>
                    var blob := BlobFor(bs[k], names[k], states[k], image.value);
                    blob.Some? && bs[k].load(states[k], blob.value) == (true, r.states[k]))
            && (r.ending == Refused ==> r.states == states)
            && (r.ending == Unknown ==> exists k :: 0 <= k < |bs| && !bs[k].TakesBack(states[k]))
  {
    if image.Some? && image.value.members.Keys == Required(names, image.value.version) {
      var blobs, before := Blobs(bs, names, states, image.value, |bs|), Saves(bs, states, |bs|);
      BlobsAre(bs, names, states, image.value, |bs|);
      SavesCount(bs, states, |bs|);
      if blobs.Some? && before.Some? {
        LoadInstalls(bs, states, blobs.value, |bs|);
        var r := Load(bs, states, blobs.value, |bs|);
        if r.failed.Some? { UndoRestores(bs, states, r.states, before.value, r.failed.value + 1); }
        hide Load, Undo, Blobs, Saves, BlobFor;
      }
    }
  }

  lemma {:induction false} BlobsAre(bs: seq<Model>, names: seq<Name>, states: seq<State>, image: Image, n: nat)
    requires n <= |bs| == |names| == |states|
    ensures match Blobs(bs, names, states, image, n)
            case None => true
            case Some(blobs) => |blobs| == n && forall k :: 0 <= k < n ==> BlobFor(bs[k], names[k], states[k], image) == Some(blobs[k])
  {
    if n == 0 {
    } else {
      BlobsAre(bs, names, states, image, n - 1);
      hide BlobFor;
    }
  }

  // ---- The whole bus ------------------------------------------------------------------------------------------

  predicate Distinct(names: seq<Name>) {
    forall i, j :: 0 <= i < j < |names| ==> names[i] != names[j]
  }

  /** The devices' states, and the standing refusal. */
  datatype BusState = BusState(states: seq<State>, unknown: bool)

  /** The named set holding the first n devices' blobs. */
  function Members(names: seq<Name>, blobs: seq<Blob>, n: nat): map<Name, Blob>
    requires n <= |names| && n <= |blobs|
  {
    if n == 0 then map[] else Members(names, blobs, n - 1)[names[n - 1] := blobs[n - 1]]
  }

  function SnapshotOf(bs: seq<Model>, names: seq<Name>, b: BusState): Option<Image>
    requires |bs| == |names| == |b.states|
  {
    if b.unknown then None
    else
      SavesCount(bs, b.states, |bs|);
      match Saves(bs, b.states, |bs|)
      case None => None
      case Some(blobs) => Some(Image(VERSION, Members(names, blobs, |bs|)))
  }

  function RestoreOf(bs: seq<Model>, names: seq<Name>, b: BusState, image: Option<Image>): (r: (bool, BusState))
    requires |bs| == |names| == |b.states|
  {
    if b.unknown then (false, b)
    else
      var r := Restore(bs, names, b.states, image);
      (r.ending == Installed, BusState(r.states, r.ending == Unknown))
  }

  function ResetOf(bs: seq<Model>): BusState {
    BusState(seq(|bs|, i requires 0 <= i < |bs| => bs[i].initial), false)
  }

  lemma {:induction false} MembersHold(names: seq<Name>, blobs: seq<Blob>, n: nat)
    requires n <= |names| && n <= |blobs| && Distinct(names)
    ensures var m := Members(names, blobs, n);
            && (forall name :: name in m <==> name in names[..n])
            && (forall k :: 0 <= k < n ==> names[k] in m && m[names[k]] == blobs[k])
  {
    MembersKeys(names, blobs, n);
    MembersValues(names, blobs, n);
    hide Members;
  }

  lemma {:induction false} MembersKeys(names: seq<Name>, blobs: seq<Blob>, n: nat)
    requires n <= |names| && n <= |blobs|
    ensures forall name :: name in Members(names, blobs, n) <==> name in names[..n]
  {
    if n == 0 {
    } else {
      MembersKeys(names, blobs, n - 1);
      assert names[..n] == names[..n - 1] + [names[n - 1]];
    }
  }

  lemma {:induction false} MembersValues(names: seq<Name>, blobs: seq<Blob>, n: nat)
    requires n <= |names| && n <= |blobs| && Distinct(names)
    ensures var m := Members(names, blobs, n); forall k :: 0 <= k < n ==> names[k] in m && m[names[k]] == blobs[k]
  {
    if n == 0 {
    } else {
      MembersValues(names, blobs, n - 1);
    }
  }

  lemma {:induction false} BlobsFound(bs: seq<Model>, names: seq<Name>, states: seq<State>, image: Image, n: nat)
    requires n <= |bs| == |names| == |states|
    requires forall k :: 0 <= k < n ==> BlobFor(bs[k], names[k], states[k], image).Some?
    ensures Blobs(bs, names, states, image, n).Some?
  {
    if n == 0 {
    } else {
      BlobsFound(bs, names, states, image, n - 1);
    }
  }

  lemma {:induction false} SavesFound(bs: seq<Model>, states: seq<State>, n: nat)
    requires n <= |bs| == |states| && forall k :: 0 <= k < n ==> bs[k].save(states[k]).Some?
    ensures Saves(bs, states, n).Some?
  {
    if n == 0 {
    } else {
      SavesFound(bs, states, n - 1);
    }
  }

  /** When every device can be saved and takes each of its blobs, a complete image is installed. */
  lemma {:induction false} CompleteIsInstalled(bs: seq<Model>, names: seq<Name>, states: seq<State>, image: Image)
    requires |bs| == |names| == |states| && image.members.Keys == Required(names, image.version)
    requires forall k :: 0 <= k < |bs| ==> bs[k].save(states[k]).Some? && BlobFor(bs[k], names[k], states[k], image).Some?
    requires forall k :: 0 <= k < |bs| ==> bs[k].load(states[k], BlobFor(bs[k], names[k], states[k], image).value).0
    ensures Restore(bs, names, states, Some(image)).ending == Installed
  {
    BlobsFound(bs, names, states, image, |bs|);
    SavesFound(bs, states, |bs|);
    BlobsAre(bs, names, states, image, |bs|);
    SavesCount(bs, states, |bs|);
    var blobs := Blobs(bs, names, states, image, |bs|).value;
    LoadInstalls(bs, states, blobs, |bs|);
    hide Load, BlobFor, Blobs, Saves;
  }

  /** A snapshot restored on the same devices, whatever has become of them since, puts every one of
      them back where it was. */
  lemma {:induction false} SnapshotRoundTrip(bs: seq<Model>, names: seq<Name>, was: seq<State>, now: seq<State>)
    requires |bs| == |names| == |was| == |now| && Distinct(names)
    requires forall k :: 0 <= k < |bs| ==> bs[k].Honest() && bs[k].Reliable()
    ensures var image := SnapshotOf(bs, names, BusState(was, false));
            image.Some? && RestoreOf(bs, names, BusState(now, false), image) == (true, BusState(was, false))
  {
    SavesFound(bs, was, |bs|);
    SavesCount(bs, was, |bs|);
    var blobs := Saves(bs, was, |bs|).value;
    MembersHold(names, blobs, |bs|);
    var image := Image(VERSION, Members(names, blobs, |bs|));
    assert names[..|bs|] == names;
    assert image.members.Keys == Required(names, VERSION);
    CompleteIsInstalled(bs, names, now, image);
    AllOrNothing(bs, names, now, Some(image));
    hide Restore, Saves, Members, Required;
    assert Restore(bs, names, now, Some(image)).states == was;
  }

  /** An image from before the audio control was a device keeps that device as it stands. */
  lemma {:induction false} LegacyKeepsAudio(bs: seq<Model>, names: seq<Name>, states: seq<State>, image: Image, k: nat)
    requires |bs| == |names| == |states| && forall i :: 0 <= i < |bs| ==> bs[i].Honest()
    requires k < |bs| && names[k] == LEGACY_AUDIO && image.version == LEGACY_VERSION
    ensures var r := Restore(bs, names, states, Some(image));
            r.ending == Installed ==> |r.states| == |states| && r.states[k] == states[k]
  {
    AllOrNothing(bs, names, states, Some(image));
    hide Restore;
  }

  /** Once no state is known, only a reset changes anything or lets anything be saved. */
  lemma UnknownRefuses(bs: seq<Model>, names: seq<Name>, b: BusState, image: Option<Image>)
    requires |bs| == |names| == |b.states| && forall k :: 0 <= k < |bs| ==> bs[k].Honest()
    ensures b.unknown ==> SnapshotOf(bs, names, b) == None && RestoreOf(bs, names, b, image) == (false, b)
    ensures var (ok, after) := RestoreOf(bs, names, b, image);
            !ok ==> after == b || (after.unknown && SnapshotOf(bs, names, after) == None)
    ensures !ResetOf(bs).unknown
  {
    if !b.unknown { AllOrNothing(bs, names, b.states, image); }
    hide Restore, SnapshotOf;
  }

  // ---- In place -------------------------------------------------------------------------------------------------

  /** An owner of state, saved and restored in place. */
  class Device<S(!new), B(!new)> {
    const name: Name
    const does: Behaviour<S, B>
    var state: S

    constructor (n: Name, d: Behaviour<S, B>)
      ensures name == n && does == d && state == d.initial
    {
      name, does, state := n, d, d.initial;
    }

    method Save() returns (blob: Option<B>)
      ensures blob == does.save(state)
    {
      blob := does.save(state);
    }

    method Load(blob: B) returns (ok: bool)
      modifies this
      ensures (ok, state) == does.load(old(state), blob)
    {
      var (accepted, s) := does.load(state, blob);
      ok, state := accepted, s;
    }

    method Reset()
      modifies this
      ensures state == does.initial
    {
      state := does.initial;
    }
  }

  class Bus {
    var devices: seq<Device<State, Blob>>
    var unknown: bool

    constructor ()
      ensures Valid() && devices == [] && !unknown
    {
      devices, unknown := [], false;
    }

    /** Every device is on the bus once, under a name of its own. */
    ghost predicate Valid()
      reads this`devices
    {
      && (forall i, j :: 0 <= i < j < |devices| ==> devices[i] != devices[j])
      && Distinct(Names())
    }

    ghost function Names(): (r: seq<Name>)
      reads this`devices
      ensures |r| == |devices|
    {
      var ds := devices;
      seq(|ds|, i requires 0 <= i < |ds| => ds[i].name)
    }

    ghost function Models(): (r: seq<Model>)
      reads this`devices
      ensures |r| == |devices|
    {
      var ds := devices;
      seq(|ds|, i requires 0 <= i < |ds| => ds[i].does)
    }

    ghost function States(): (r: seq<State>)
      reads this`devices, devices
      ensures |r| == |devices|
    {
      var ds := devices;
      seq(|ds|, i requires 0 <= i < |ds| reads ds => ds[i].state)
    }

    ghost function Now(): (r: BusState)
      reads this, devices
      ensures |r.states| == |devices|
    {
      BusState(States(), unknown)
    }

    // One device changes: the others keep their states.
    method LoadOne(i: nat, blob: Blob) returns (ok: bool)
      requires Valid() && i < |devices|
      modifies devices[i]
      ensures var (accepted, s) := Models()[i].load(old(States())[i], blob);
              ok == accepted && States() == old(States())[i := s]
    {
      ghost var was := States();
      ok := devices[i].Load(blob);
      ghost var s := Models()[i].load(was[i], blob).1;
      assert States() == was[i := s];
    }

    method BlobOf(i: nat, image: Image) returns (blob: Option<Blob>)
      requires i < |devices|
      ensures blob == BlobFor(Models()[i], Names()[i], States()[i], image)
    {
      if devices[i].name in image.members { return Some(image.members[devices[i].name]); }
      if image.version == LEGACY_VERSION && devices[i].name == LEGACY_AUDIO {
        blob := devices[i].Save();
      } else {
        blob := None;
      }
    }

    method Collect(image: Image) returns (blobs: Option<seq<Blob>>)
      ensures blobs == Blobs(Models(), Names(), States(), image, |devices|)
    {
      var found: seq<Blob>, failed := [], false;
      for i := 0 to |devices|
        invariant Blobs(Models(), Names(), States(), image, i) == if failed then None else Some(found)
      {
        if !failed {
          var blob := BlobOf(i, image);
          hide BlobFor;
          if blob.None? { failed := true; } else { found := found + [blob.value]; }
        }
      }
      blobs := if failed then None else Some(found);
    }

    method SaveAll() returns (blobs: Option<seq<Blob>>)
      ensures blobs == Saves(Models(), States(), |devices|)
    {
      var saved: seq<Blob>, failed := [], false;
      for i := 0 to |devices|
        invariant Saves(Models(), States(), i) == if failed then None else Some(saved)
      {
        if !failed {
          var blob := devices[i].Save();
          if blob.None? { failed := true; } else { saved := saved + [blob.value]; }
        }
      }
      blobs := if failed then None else Some(saved);
    }

    method LoadAll(blobs: seq<Blob>) returns (failed: Option<nat>)
      requires Valid() && |blobs| == |devices|
      modifies devices
      ensures Valid()
      ensures Loaded(States(), failed) == Load(Models(), old(States()), blobs, |devices|)
    {
      failed := None;
      for i := 0 to |devices|
        invariant Valid()
        invariant Loaded(States(), failed) == Load(Models(), old(States()), blobs, i)
      {
        if failed.None? {
          var ok := LoadOne(i, blobs[i]);
          if !ok { failed := Some(i); }
        }
      }
    }

    method Rollback(before: seq<Blob>, n: nat) returns (all: bool)
      requires Valid() && n <= |before| && n <= |devices|
      modifies devices
      ensures Valid()
      ensures Undone(States(), all) == Undo(Models(), old(States()), before, n)
    {
      all := true;
      for i := 0 to n
        invariant Valid()
        invariant Undone(States(), all) == Undo(Models(), old(States()), before, i)
      {
        var ok := LoadOne(i, before[i]);
        all := all && ok;
      }
    }

    method Gather(blobs: seq<Blob>) returns (members: map<Name, Blob>)
      requires |blobs| == |devices|
      ensures members == Members(Names(), blobs, |devices|)
    {
      members := map[];
      for i := 0 to |devices|
        invariant members == Members(Names(), blobs, i)
      {
        members := members[devices[i].name := blobs[i]];
      }
    }

    method Snapshot() returns (image: Option<Image>)
      requires Valid()
      ensures image == SnapshotOf(Models(), Names(), Now())
    {
      if unknown { return None; }
      var blobs := SaveAll();
      SavesCount(Models(), States(), |devices|);
      hide Saves, Members, Models, Names, States;
      if blobs.None? { return None; }
      var members := Gather(blobs.value);
      image := Some(Image(VERSION, members));
    }

    method Complete(image: Image) returns (ok: bool)
      ensures ok == (image.members.Keys == Required(Names(), image.version))
    {
      var required: set<Name> := {};
      for i := 0 to |devices|
        invariant required == Required(Names()[..i], image.version)
      {
        assert Names()[..i + 1] == Names()[..i] + [devices[i].name];
        if image.version != LEGACY_VERSION || devices[i].name != LEGACY_AUDIO { required := required + {devices[i].name}; }
      }
      assert Names()[..|devices|] == Names();
      ok := image.members.Keys == required;
    }

    method Install(blobs: seq<Blob>, before: seq<Blob>) returns (ok: bool)
      requires Valid() && !unknown && |blobs| == |before| == |devices|
      modifies this`unknown, devices
      ensures Valid()
      ensures var r := Attempt(Models(), old(States()), blobs, before);
              States() == r.states && ok == (r.ending == Installed) && unknown == (r.ending == Unknown)
    {
      hide Load, Undo, Names, Models, States;
      var failed := LoadAll(blobs);
      if failed.None? { return true; }
      var undone := Rollback(before, failed.value + 1);
      unknown := !undone;
      ok := false;
    }

    method Restore(image: Option<Image>) returns (ok: bool)
      requires Valid()
      modifies this`unknown, devices
      ensures Valid()
      ensures (ok, Now()) == RestoreOf(Models(), Names(), old(Now()), image)
    {
      hide Required, Saves, Blobs, Attempt, Names, Models, States;
      if unknown || image.None? { return false; }
      var complete := Complete(image.value);
      if !complete { return false; }
      var blobs := Collect(image.value);
      if blobs.None? { return false; }
      var before := SaveAll();
      if before.None? { return false; }
      BlobsCount(Models(), Names(), States(), image.value, |devices|);
      SavesCount(Models(), States(), |devices|);
      ok := Install(blobs.value, before.value);
    }

    method Reset()
      requires Valid()
      modifies this`unknown, devices
      ensures Valid() && Now() == ResetOf(Models())
    {
      for i := 0 to |devices|
        invariant Valid()
        invariant forall k :: 0 <= k < i ==> devices[k].state == devices[k].does.initial
      {
        devices[i].Reset();
      }
      unknown := false;
      assert forall k :: 0 <= k < |devices| ==> States()[k] == ResetOf(Models()).states[k];
      assert States() == ResetOf(Models()).states;
    }
  }
}
