// reference/mips16.js: step() with its decode cache and the direct-mapped index in front of it.
// The Map belongs to the caller, who may delete from it between steps; the index notices by
// comparing the Map's size with the size step() last left behind.
module FrontCache {
  import opened Words
  import opened Memory
  import D = OracleDecode
  import E = OracleExec

  const FC_SIZE := 0x4000
  const LAST_GENERATION := 0x3FFF_FFFF

  type Entries = map<Word, D.Decoded>

  ghost predicate Submap(a: Entries, b: Entries) {
    forall k :: k in a ==> k in b && a[k] == b[k]
  }

  /** An only-shrunk map of unchanged size is the same map. */
  lemma ShrunkToSameSize(a: Entries, b: Entries)
    requires Submap(a, b) && |a| == |b|
    ensures a == b
  {
    assert a.Keys <= b.Keys;
    SameSizeSubset(a.Keys, b.Keys);
  }

  lemma SameSizeSubset<T>(a: set<T>, b: set<T>)
    requires a <= b && |a| == |b|
    ensures a == b
  {
    assert |b - a| == |b| - |a|;
  }

  /** Every cached instruction is what decoding its address would give now. */
  ghost predicate Coherent(entries: Entries, m: Mem) {
    forall k :: k in entries ==> entries[k].Insn? && entries[k] == D.FetchDecode(m, k, k)
  }

  lemma CoherentAt(entries: Entries, m: Mem, pc: Word)
    requires Coherent(entries, m) && pc in entries
    ensures entries[pc].Insn? && entries[pc] == D.FetchDecode(m, pc, pc)
  {
  }

  lemma SubmapOfItself(entries: Entries)
    ensures Submap(entries, entries)
  {
  }

  /** The code at k is not what it was. Two halfwords decide an instruction. */
  predicate Rewritten(m: Mem, m': Mem, k: Word) {
    Read16(m, k) != Read16(m', k) || Read16(m, U32(k + 2)) != Read16(m', U32(k + 2))
  }

  /** Evicting what was rewritten, and whatever else the caller likes, keeps the cache coherent. */
  lemma EvictionKeepsCoherence(entries: Entries, m: Mem, m': Mem, gone: set<Word>)
    requires Coherent(entries, m)
    requires forall k :: k in entries && Rewritten(m, m', k) ==> k in gone
    ensures Coherent(entries - gone, m')
  {
    forall k | k in entries - gone
      ensures D.FetchDecode(m', k, k) == D.FetchDecode(m, k, k)
    {
      D.WindowDecides(m, m', k, k);
    }
  }

  // The caller's decode cache. Something with get and set but no size is not `sized`.
  class Cache {
    var entries: Entries
    const sized: bool

    constructor (sized: bool)
      ensures entries == map[] && this.sized == sized
    {
      entries := map[];
      this.sized := sized;
    }
  }

  // The executor's index in front of one cache.
  class Front {
    const cache: Cache
    const live: bool
    var n: nat
    var g: int
    const gen: array<int>
    const tag: array<int>
    const ins: array<D.Decoded>
    ghost var seen: Entries // the cache as step() last left it

    ghost predicate Valid()
      reads this, gen, tag, ins
    {
      && gen != tag
      && gen.Length == tag.Length == ins.Length == FC_SIZE
      && live == cache.sized
      && 1 <= g <= LAST_GENERATION
      && n == |seen|
      && (forall s :: 0 <= s < FC_SIZE ==> gen[s] <= g)
      && (forall s :: 0 <= s < FC_SIZE && gen[s] == g ==> Holds(tag[s], ins[s], seen))
    }

    constructor (cache: Cache)
      ensures Valid() && this.cache == cache && seen == cache.entries
      ensures fresh(gen) && fresh(tag) && fresh(ins)
    {
      this.cache, live, n, g := cache, cache.sized, |cache.entries|, 1;
      gen := new int[FC_SIZE](_ => 0);
      tag := new int[FC_SIZE](_ => 0);
      ins := new D.Decoded[FC_SIZE](_ => D.Unknown);
      seen := cache.entries;
    }

    // A new generation disowns every slot at once; when generations run out, the slots are wiped instead.
    method Refresh()
      requires Valid() && live
      modifies this, gen
      ensures Valid() && seen == cache.entries
    {
      g := g + 1;
      if g > LAST_GENERATION {
        forall s | 0 <= s < FC_SIZE { gen[s] := 0; }
        g := 1;
      }
      n := |cache.entries|;
      seen := cache.entries;
    }

    // A size that is not the one step() left means the cache has shrunk; the same size means it
    // is the same cache.
    method Watch()
      requires Valid() && (live ==> Submap(cache.entries, seen))
      modifies this, gen
      ensures Valid() && (live ==> seen == cache.entries)
    {
      if live && n != |cache.entries| {
        Refresh();
      } else if live {
        ShrunkToSameSize(cache.entries, seen);
      }
    }

    // What the index answers is an entry of the cache it has seen.
    method Find(pc: Word) returns (hit: Option<D.Decoded>)
      requires Valid()
      ensures hit.Some? ==> live && pc in seen && hit.value == seen[pc]
    {
      var slot := pc / 2 % FC_SIZE;
      if live && tag[slot] == S32(pc) && gen[slot] == g {
        SameAddress(tag[slot], ins[slot], seen, pc);
        return Some(ins[slot]);
      }
      hit := None;
    }

    method Remember(slot: nat, pc: Word, i: D.Decoded)
      requires Valid() && slot < FC_SIZE
      requires pc in cache.entries && cache.entries[pc] == i
      requires Submap(seen, cache.entries)
      modifies this`n, this`seen, gen, tag, ins
      ensures Valid() && seen == cache.entries
    {
      tag[slot], gen[slot], ins[slot] := S32(pc), g, i;
      n := |cache.entries|;
      seen := cache.entries;
    }
  }

  /** The slot's tag names an entry and its instruction is that entry. */
  ghost predicate Holds(tag: int, i: D.Decoded, entries: Entries) {
    exists k: Word :: k in entries && tag == S32(k) && entries[k] == i
  }

  // cpu, mem, cpu.__dcache and cpu.__fc.
  class Executor {
    var cpu: E.Cpu
    var mem: Mem
    var dcache: Cache?
    var fc: Front?
    var shelf: set<Cache> // Maps the caller has used before and may use again

    // What holds between steps: the cache agrees with memory, and the index has seen at least
    // everything its cache still holds.
    ghost predicate Valid()
      reads this, dcache, fc, if fc != null then {fc.cache, fc.gen, fc.tag, fc.ins} else {}
    {
      && (dcache != null ==> Coherent(dcache.entries, mem))
      && (fc != null ==> fc.Valid() && (fc.live ==> Submap(fc.cache.entries, fc.seen)))
    }

    // The objects a step may write.
    ghost function Footprint(): set<object>
      reads this, fc
    {
      (if dcache != null then {dcache} else {}) + (if fc != null then {fc, fc.gen, fc.tag, fc.ins} else {}) + shelf
    }

    constructor (cpu: E.Cpu, mem: Mem, dcache: Cache?)
      requires dcache != null ==> dcache.entries == map[]
      ensures Valid() && this.cpu == cpu && this.mem == mem && this.dcache == dcache && fc == null
    {
      this.cpu, this.mem, this.dcache, fc, shelf := cpu, mem, dcache, null, {};
    }

    // exec(): it returns the outcome and, unless it refuses, leaves the machine after it.
    method Exec(i: D.Decoded) returns (r: E.Outcome)
      requires i.Insn?
      modifies `cpu, `mem
      ensures r == E.Exec(old(cpu), old(mem), i)
      ensures (cpu, mem) == Left(r, old(cpu), old(mem))
    {
      hide E.Exec;
      r := E.Exec(cpu, mem, i);
      if r.Ran? {
        cpu, mem := r.cpu, r.mem;
      }
    }

    // The index for this step's cache, made or refreshed as step() does.
    method FrontFor(c: Cache) returns (f: Front)
      requires Valid() && c == dcache
      modifies this`fc, Footprint()
      ensures Valid() && fc == f && f.cache == c && f.Valid()
      ensures f.live ==> f.seen == c.entries
      ensures c.entries == old(c.entries)
      ensures dcache == old(dcache) && fresh(Footprint() - old(Footprint()))
    {
      hide D.FetchDecode, Coherent, Front.Valid, Submap;
      SubmapOfItself(c.entries);
      if fc == null || fc.cache != c {
        f := new Front(c);
        fc := f;
      } else {
        f := fc;
        f.Watch();
      }
    }

    // The instruction at pc outside a delay slot: from the index, from the Map or from decode().
    // Whichever answers, the answer is what decode() would give.
    method Lookup(c: Cache, pc: Word) returns (i: D.Decoded)
      requires Valid() && c == dcache
      modifies this`fc, Footprint()
      ensures Valid()
      ensures i == D.FetchDecode(mem, pc, pc)
      ensures dcache == old(dcache) && fresh(Footprint() - old(Footprint()))
    {
      hide D.FetchDecode, Coherent, Submap, Front.Valid;
      var f := FrontFor(c);
      var hit := f.Find(pc);
      if hit.Some? {
        CoherentAt(c.entries, mem, pc);
        return hit.value;
      }
      i := Miss(c, f, pc);
      SubmapOfItself(c.entries);
    }

    // The index does not know pc: ask the Map, then decode(), and remember the answer.
    method Miss(c: Cache, f: Front, pc: Word) returns (i: D.Decoded)
      requires c == dcache && f == fc && f.cache == c && f.Valid() && (f.live ==> f.seen == c.entries)
      requires Coherent(c.entries, mem)
      modifies c, f`n, f`seen, f.gen, f.tag, f.ins
      ensures f.Valid() && (f.live ==> f.seen == c.entries)
      ensures Coherent(c.entries, mem)
      ensures i == D.FetchDecode(mem, pc, pc)
    {
      hide D.FetchDecode, S32, Holds;
      if pc in c.entries {
        i := c.entries[pc];
      } else {
        i := D.FetchDecode(mem, pc, pc);
        if i.Unknown? { return; }
        c.entries := c.entries[pc := i];
      }
      if f.live { f.Remember(pc / 2 % FC_SIZE, pc, i); }
    }

    // One MIPS16 instruction. It returns and leaves exactly what step() with no cache does, and
    // the Map still agrees with the code as it was before the instruction ran.
    method Step() returns (r: E.Outcome)
      requires Valid()
      modifies this`cpu, this`mem, this`fc, Footprint()
      ensures r == E.Step(old(cpu), old(mem))
      ensures (cpu, mem) == Left(r, old(cpu), old(mem))
      ensures dcache == old(dcache) && fresh(Footprint() - old(Footprint()))
      ensures dcache != null ==> Coherent(dcache.entries, old(mem))
      ensures fc != null ==> fc.Valid() && (fc.live ==> Submap(fc.cache.entries, fc.seen))
    {
      hide D.FetchDecode, E.Exec, Front.Valid, Submap, Coherent;
      if !cpu.isa16 { return E.Halt; }
      var i;
      if dcache == null || cpu.delayed.Slot? {
        i := D.FetchDecode(mem, cpu.pc, E.PcBase(cpu));
      } else {
        i := Lookup(dcache, cpu.pc);
      }
      if i.Unknown? { return E.Halt; }
      r := Exec(i);
    }

    // A Map set aside may come back; what was rewritten meanwhile is evicted from it first.
    method PutBack(c: Cache, more: set<Word>)
      requires c in shelf
      requires fc != null ==> fc.Valid() && (fc.live ==> Submap(fc.cache.entries, fc.seen))
      modifies this`dcache, this`shelf, c
      ensures Valid() && fc == old(fc) && dcache == c && fresh(Footprint() - old(Footprint()))
    {
      var stale := set k | k in c.entries && !(c.entries[k].Insn? && c.entries[k] == D.FetchDecode(mem, k, k));
      hide D.FetchDecode, Front.Valid;
      SetAside();
      c.entries := c.entries - (stale + more);
      dcache := c;
    }

    method SetAside()
      modifies this`shelf
      ensures shelf == old(shelf) + if dcache != null then {dcache} else {}
    {
      if dcache != null { shelf := shelf + {dcache}; }
    }

    method EvictFrom(c: Cache, more: set<Word>, was: Mem)
      requires c == dcache && Coherent(c.entries, was)
      requires fc != null ==> fc.Valid() && (fc.live ==> Submap(fc.cache.entries, fc.seen))
      modifies c
      ensures Valid()
    {
      var rewritten := set k | k in c.entries && Rewritten(was, mem, k);
      EvictionKeepsCoherence(c.entries, was, mem, rewritten + more);
      hide D.FetchDecode, Front.Valid, Coherent;
      c.entries := c.entries - (rewritten + more);
    }

    // What the caller does between steps: it deletes from its Map at least what was rewritten
    // since `was`, or starts a new Map, or stops caching, or goes back to a Map it has used before.
    method Caller(a: Action, was: Mem)
      requires dcache != null ==> Coherent(dcache.entries, was)
      requires fc != null ==> fc.Valid() && (fc.live ==> Submap(fc.cache.entries, fc.seen))
      modifies this`dcache, this`shelf, dcache, shelf
      ensures Valid() && fc == old(fc) && fresh(Footprint() - old(Footprint()))
    {
      hide D.FetchDecode, Front.Valid, Submap;
      match a
      case Evict(more) => if dcache != null { EvictFrom(dcache, more, was); }
      case NewMap(sized) =>
        SetAside();
        dcache := new Cache(sized);
      case NoMap =>
        SetAside();
        dcache := null;
      case OldMap(c, more) => if c in shelf { PutBack(c, more); } else if dcache != null { EvictFrom(dcache, more, was); }
    }

    method Round(a: Action) returns (r: E.Outcome)
      requires Valid()
      modifies this, Footprint()
      ensures Valid() && fresh(Footprint() - old(Footprint()))
      ensures r == E.Step(old(cpu), old(mem)) && (cpu, mem) == Left(r, old(cpu), old(mem))
    {
      hide E.Step, Coherent, Submap, Front.Valid, Left;
      var was := mem;
      r := Step();
      Caller(a, was);
    }

    // A run: a step and a caller's action for each element of the script. Whatever the caller
    // does, the outcomes and the machine are those of the run with no cache.
    method Run(script: seq<Action>) returns (outcomes: seq<E.Outcome>)
      requires Valid()
      modifies this, Footprint()
      ensures Valid()
      ensures (cpu, mem, outcomes) == Uncached(|script|, old(cpu), old(mem))
    {
      hide E.Step, Valid, Left;
      outcomes := [];
      for n := 0 to |script|
        invariant Valid() && fresh(Footprint() - old(Footprint()))
        invariant (cpu, mem, outcomes) == Uncached(n, old(cpu), old(mem))
      {
        var r := Round(script[n]);
        outcomes := outcomes + [r];
      }
    }
  }

  datatype Action = Evict(more: set<Word>) | NewMap(sized: bool) | NoMap | OldMap(cache: Cache, more: set<Word>)

  /** n steps of the executor with no decode cache at all. */
  function Uncached(n: nat, c: E.Cpu, m: Mem): (E.Cpu, Mem, seq<E.Outcome>) {
    if n == 0 then (c, m, [])
    else
      var (c', m', before) := Uncached(n - 1, c, m);
      var r := E.Step(c', m');
      var (c'', m'') := Left(r, c', m');
      (c'', m'', before + [r])
  }

  /** The machine a step leaves: its outcome's, or the one it was given if it refused. */
  function Left(r: E.Outcome, c: E.Cpu, m: Mem): (E.Cpu, Mem) {
    if r.Halt? then (c, m) else (r.cpu, r.mem)
  }

  /** Tags are signed words, so equal tags are equal addresses. */
  lemma SameAddress(tag: int, i: D.Decoded, entries: Entries, pc: Word)
    requires Holds(tag, i, entries) && tag == S32(pc)
    ensures pc in entries && entries[pc] == i
  {
    hide D.FetchDecode, S32, U32;
    var k: Word :| k in entries && tag == S32(k) && entries[k] == i;
    SignedBack(k);
    SignedBack(pc);
  }

  lemma SignedBack(w: Word)
    ensures U32(S32(w)) == w
  {
  }
}
