// internal/bus/bus.go: the address decoder. It translates a virtual address, finds the region there,
// trying the last one hit first, and keeps a capped census of the accesses that reach nothing.
module Decoder {
  import opened Words

  // ---- Translation -----------------------------------------------------------------------------------------

  const SEGMENTS_LOW: Word := 0x8000_0000
  const SEGMENTS_HIGH: Word := 0xC000_0000
  const PHYS_MASK: Word := 0x1FFF_FFFF
  const PHYS_SIZE: Word := 0x2000_0000

  /** The physical address behind a virtual one, for the two segments that need no table. */
  function Physical(virt: Word): Option<Word> {
    if SEGMENTS_LOW <= virt < SEGMENTS_HIGH then Some(AndW(virt, PHYS_MASK)) else None
  }

  lemma {:induction false} AndLow(a: nat, n: nat)
    ensures AndBits(a, Pow2(n) - 1) == a % Pow2(n)
  {
    hide AndBits;
    if n == 0 {
      AndNothing(a, 0);
    } else if a == 0 {
      AndNothing(0, Pow2(n) - 1);
      HalfMod(0, Pow2(n - 1), Pow2(n));
      AndLow(0, n - 1);
      AndNothing(0, Pow2(n - 1) - 1);
    } else {
      AndLow(a / 2, n - 1);
      AndDouble(a, Pow2(n - 1), Pow2(n));
    }
  }

  lemma AndDouble(a: nat, p: nat, d: nat)
    requires p > 0 && d == 2 * p && AndBits(a / 2, p - 1) == a / 2 % p
    ensures AndBits(a, d - 1) == a % d
  {
    hide AndBits;
    AndOdd(a, d - 1, p - 1);
    HalfMod(a, p, d);
  }

  lemma AndNothing(a: nat, b: nat)
    ensures a == 0 || b == 0 ==> AndBits(a, b) == 0
  {
  }

  lemma AndOdd(a: nat, b: nat, half: nat)
    requires b == 2 * half + 1
    ensures AndBits(a, b) == 2 * AndBits(a / 2, half) + a % 2
  {
    assert b / 2 == half && b % 2 == 1;
  }

  lemma HalfMod(a: nat, p: nat, d: nat)
    requires p > 0 && d == 2 * p
    ensures a % d == 2 * (a / 2 % p) + a % 2
  {
    var h := a / 2;
    var q, r := h / p, h % p;
    assert a == d * q + (2 * r + a % 2) by { assert h == p * q + r; }
    var k := a / d - q;
    assert d * k == 2 * r + a % 2 - a % d;
    assert k >= 1 ==> d * k >= d;
    assert k <= -1 ==> d * k + d <= 0;
  }

  /** The two segments are two views of the same 512 MB. */
  lemma PhysicalIs(virt: Word)
    ensures Physical(virt) == if 0x8000_0000 <= virt < 0xC000_0000 then Some(virt % 0x2000_0000) else None
  {
    assert Pow2(8) == 0x100 && Pow2(16) == 0x1_0000 && Pow2(24) == 0x100_0000 && Pow2(29) == PHYS_SIZE;
    AndLow(virt, 29);
  }

  // ---- The map ---------------------------------------------------------------------------------------------

  type Name = seq<char>

  datatype Region = Region(base: Word, size: Word, name: Name)
  {
    predicate Holds(phys: Word) {
      base <= phys < base + size
    }

    predicate Fits() {
      size > 0 && base + size <= PHYS_SIZE
    }

    predicate Below(other: Region) {
      base + size <= other.base && name != other.name
    }
  }

  /** Sorted, disjoint, inside physical space, every region with bytes and a name of its own. */
  predicate Mapped(regions: seq<Region>) {
    && (forall i :: 0 <= i < |regions| ==> regions[i].Fits())
    && (forall i, j :: 0 <= i < j < |regions| ==> regions[i].Below(regions[j]))
  }

  /** The first region that holds an address. */
  function Linear(regions: seq<Region>, phys: Word): Option<Region> {
    if |regions| == 0 then None
    else if regions[0].Holds(phys) then Some(regions[0])
    else Linear(regions[1..], phys)
  }

  datatype Refusal = NoName | NameTaken | NoBytes | NoTranslation | PastTheEnd | Overlaps

  predicate Clashes(r: Region, phys: Word, size: Word) {
    phys < AddW(r.base, r.size) && r.base < AddW(phys, size)
  }

  /** A region put in its place by base. */
  function Insert(regions: seq<Region>, r: Region): (s: seq<Region>)
    ensures |s| == |regions| + 1
  {
    if |regions| == 0 then [r]
    else if r.base < regions[0].base then [r] + regions
    else [regions[0]] + Insert(regions[1..], r)
  }

  function Attached(regions: seq<Region>, base: Word, size: Word, name: Name): Result<seq<Region>, Refusal> {
    if name == [] then Err(NoName)
    else if exists i :: 0 <= i < |regions| && regions[i].name == name then Err(NameTaken)
    else if size == 0 then Err(NoBytes)
    else if Physical(base).None? then Err(NoTranslation)
    else
      var phys := Physical(base).value;
      if phys + size > PHYS_SIZE then Err(PastTheEnd)
      else if exists i :: 0 <= i < |regions| && Clashes(regions[i], phys, size) then Err(Overlaps)
      else Ok(Insert(regions, Region(phys, size, name)))
  }

  lemma {:induction false} InsertedWhere(regions: seq<Region>, r: Region) returns (at: nat)
    requires forall i, j :: 0 <= i < j < |regions| ==> regions[i].base < regions[j].base
    ensures at <= |regions| && Insert(regions, r) == regions[..at] + [r] + regions[at..]
    ensures forall i :: 0 <= i < at ==> regions[i].base <= r.base
    ensures forall i :: at <= i < |regions| ==> r.base < regions[i].base
  {
    if |regions| == 0 || r.base < regions[0].base {
      at := 0;
    } else {
      var k := InsertedWhere(regions[1..], r);
      at := k + 1;
      assert regions[..at] == [regions[0]] + regions[1..][..k] && regions[at..] == regions[1..][k..];
    }
  }

  lemma {:induction false} LinearFinds(regions: seq<Region>, phys: Word, k: nat)
    requires Mapped(regions) && k < |regions| && regions[k].Holds(phys)
    ensures Linear(regions, phys) == Some(regions[k])
  {
    if k == 0 {
    } else {
      assert regions[0].Below(regions[k]);
      LinearFinds(regions[1..], phys, k - 1);
    }
  }

  lemma {:induction false} LinearMisses(regions: seq<Region>, phys: Word)
    requires forall i :: 0 <= i < |regions| ==> !regions[i].Holds(phys)
    ensures Linear(regions, phys) == None
  {
    if |regions| == 0 {
    } else {
      LinearMisses(regions[1..], phys);
    }
  }

  predicate Clear(regions: seq<Region>, r: Region) {
    r.Fits() && forall i :: 0 <= i < |regions| ==> r.Below(regions[i]) || regions[i].Below(r)
  }

  /** The wrapping overlap test is the plain one on a map that fits. */
  lemma ClashIsOverlap(r: Region, phys: Word, size: Word)
    requires r.Fits() && phys + size <= PHYS_SIZE
    ensures Clashes(r, phys, size) <==> phys < r.base + r.size && r.base < phys + size
  {
  }

  lemma {:induction false} InsertKeeps(regions: seq<Region>, r: Region) returns (at: nat)
    requires Mapped(regions) && Clear(regions, r)
    ensures at <= |regions| && Insert(regions, r) == regions[..at] + [r] + regions[at..] && Mapped(Insert(regions, r))
  {
    forall i, j | 0 <= i < j < |regions| ensures regions[i].base < regions[j].base { assert regions[i].Below(regions[j]) && regions[i].Fits(); }
    at := InsertedWhere(regions, r);
    forall i | 0 <= i < at ensures regions[i].Below(r) { assert regions[i].Fits() && (r.Below(regions[i]) || regions[i].Below(r)); }
    forall i | at <= i < |regions| ensures r.Below(regions[i]) { assert regions[i].Fits() && (r.Below(regions[i]) || regions[i].Below(r)); }
    InsertOrders(regions, r, at);
  }

  lemma InsertOrders(regions: seq<Region>, r: Region, at: nat)
    requires Mapped(regions) && r.Fits() && at <= |regions|
    requires forall i :: 0 <= i < at ==> regions[i].Below(r)
    requires forall i :: at <= i < |regions| ==> r.Below(regions[i])
    ensures Mapped(regions[..at] + [r] + regions[at..])
  {
  }

  lemma {:induction false} LinearInserted(regions: seq<Region>, r: Region, phys: Word)
    requires Mapped(regions) && Clear(regions, r)
    ensures Linear(Insert(regions, r), phys) == if r.Holds(phys) then Some(r) else Linear(regions, phys)
  {
    if |regions| > 0 && r.base >= regions[0].base {
      assert regions[0].Below(r);
      LinearInserted(regions[1..], r, phys);
      assert Insert(regions, r)[1..] == Insert(regions[1..], r);
      if regions[0].Holds(phys) { assert !r.Holds(phys); }
    } else {
      assert Insert(regions, r)[1..] == regions;
    }
  }

  lemma {:induction false} Separate(regions: seq<Region>, r: Region)
    requires Mapped(regions) && r.Fits()
    requires forall i :: 0 <= i < |regions| ==> !Clashes(regions[i], r.base, r.size) && regions[i].name != r.name
    ensures Clear(regions, r)
  {
    hide Clashes;
    forall i | 0 <= i < |regions| ensures r.Below(regions[i]) || regions[i].Below(r) { ClashIsOverlap(regions[i], r.base, r.size); }
  }

  /** An accepted attachment keeps the map sorted and disjoint, claims exactly its own addresses and takes
      none from anyone else. */
  lemma {:induction false} AttachClaims(regions: seq<Region>, base: Word, size: Word, name: Name, phys: Word)
    requires Mapped(regions) && Attached(regions, base, size, name).Ok?
    ensures var after, r := Attached(regions, base, size, name).value, Region(Physical(base).value, size, name);
            && Mapped(after)
            && Linear(after, phys) == if r.Holds(phys) then Some(r) else Linear(regions, phys)
  {
    var r := Region(Physical(base).value, size, name);
    hide Insert, Physical, Linear;
    Separate(regions, r);
    var at := InsertKeeps(regions, r);
    LinearInserted(regions, r, phys);
  }

  /** An attachment is accepted exactly when it has a new name and some bytes, all of them in the two
      segments' physical space and none of them anyone's yet. */
  lemma {:induction false} AttachAccepts(regions: seq<Region>, base: Word, size: Word, name: Name)
    requires Mapped(regions)
    ensures Attached(regions, base, size, name).Ok? <==>
            && name != [] && (forall i :: 0 <= i < |regions| ==> regions[i].name != name)
            && size > 0 && Physical(base).Some? && Physical(base).value + size <= PHYS_SIZE
            && (forall p: Word :: Physical(base).value <= p < Physical(base).value + size ==> Linear(regions, p).None?)
  {
    hide Insert, Physical, Linear;
    if size > 0 && Physical(base).Some? && Physical(base).value + size <= PHYS_SIZE { FreeMeansClear(regions, Physical(base).value, size); }
  }

  datatype Attempt = Attempt(base: Word, size: Word, name: Name)

  /** A bus after some attachments, the refused ones changing nothing. */
  function Built(attempts: seq<Attempt>): seq<Region> {
    if |attempts| == 0 then []
    else
      var regions, a := Built(attempts[..|attempts| - 1]), attempts[|attempts| - 1];
      match Attached(regions, a.base, a.size, a.name)
      case Ok(more) => more
      case Err(_) => regions
  }

  /** Whatever is attached, in whatever order, the map stays sorted and disjoint. */
  lemma {:induction false} BuiltIsMapped(attempts: seq<Attempt>)
    ensures Mapped(Built(attempts))
  {
    if |attempts| == 0 {
    } else {
      var early, a := attempts[..|attempts| - 1], attempts[|attempts| - 1];
      BuiltIsMapped(early);
      hide Attached, Mapped;
      if Attached(Built(early), a.base, a.size, a.name).Ok? { AttachClaims(Built(early), a.base, a.size, a.name, 0); }
    }
  }

  lemma {:induction false} FreeMeansClear(regions: seq<Region>, phys: Word, size: Word)
    requires Mapped(regions) && size > 0 && phys + size <= PHYS_SIZE
    ensures (exists i :: 0 <= i < |regions| && Clashes(regions[i], phys, size)) <==>
            (exists p: Word :: phys <= p < phys + size && Linear(regions, p).Some?)
  {
    if i :| 0 <= i < |regions| && Clashes(regions[i], phys, size) {
      ClashIsOverlap(regions[i], phys, size);
      assert regions[i].Fits();
      var p: Word := if phys < regions[i].base then regions[i].base else phys;
      LinearFinds(regions, p, i);
      assert phys <= p < phys + size && Linear(regions, p).Some?;
    }
    if p: Word :| phys <= p < phys + size && Linear(regions, p).Some? {
      var i := LinearWhere(regions, p);
      ClashIsOverlap(regions[i], phys, size);
      assert Clashes(regions[i], phys, size);
    }
  }

  lemma {:induction false} LinearWhere(regions: seq<Region>, phys: Word) returns (i: nat)
    requires Linear(regions, phys).Some?
    ensures i < |regions| && Linear(regions, phys) == Some(regions[i]) && regions[i].Holds(phys)
  {
    if regions[0].Holds(phys) {
      i := 0;
    } else {
      var k := LinearWhere(regions[1..], phys);
      i := k + 1;
    }
  }

  // ---- Reaching a device -----------------------------------------------------------------------------------------

  datatype Reached = Device(name: Name, offset: Word) | NoDevice(physical: Word) | NoSegment

  function Target(regions: seq<Region>, virt: Word): Reached {
    match Physical(virt)
    case None => NoSegment
    case Some(phys) =>
      match Linear(regions, phys)
      case None => NoDevice(phys)
      case Some(r) => Device(r.name, SubW(phys, r.base))
  }

  /** Two addresses reach the same byte of the same device exactly when they have one physical address, so
      the cached and the uncached window are one memory and no two other bytes are. */
  lemma {:induction false} SameByte(regions: seq<Region>, v: Word, w: Word)
    requires Mapped(regions) && Target(regions, v).Device? && Target(regions, w).Device?
    ensures Target(regions, v) == Target(regions, w) <==> v % 0x2000_0000 == w % 0x2000_0000
  {
    hide Physical, Linear;
    PhysicalIs(v);
    PhysicalIs(w);
    var p, q := v % PHYS_SIZE, w % PHYS_SIZE;
    var i := LinearWhere(regions, p);
    var j := LinearWhere(regions, q);
    assert regions[i].Fits() && regions[j].Fits();
    if i < j { assert regions[i].Below(regions[j]); }
    if j < i { assert regions[j].Below(regions[i]); }
  }

  /** Every cached address has its uncached alias. */
  lemma UncachedAlias(regions: seq<Region>, virt: Word)
    requires SEGMENTS_LOW <= virt < SEGMENTS_LOW + PHYS_SIZE
    ensures match Target(regions, virt)
            case Device(name, offset) => Target(regions, virt + PHYS_SIZE) == Device(name, offset)
            case NoDevice(phys) => Target(regions, virt + PHYS_SIZE) == NoDevice(phys)
            case NoSegment => false
  {
    hide Physical, Linear;
    PhysicalIs(virt);
    PhysicalIs(virt + PHYS_SIZE);
    assert virt % PHYS_SIZE == virt - SEGMENTS_LOW == (virt + PHYS_SIZE) % PHYS_SIZE;
  }

  // ---- The census ----------------------------------------------------------------------------------------------------

  const MAX_SITES := 4096

  /** One address that could not be delivered: where it translated to, if it did, and how often. */
  datatype Site = Site(physical: Option<Word>, loads: nat, stores: nat)

  datatype Census = Census(sites: map<Word, Site>, loads: nat, stores: nat, kept: nat, dropped: nat)

  const EMPTY := Census(map[], 0, 0, 0, 0)

  datatype Touch = Touch(virt: Word, read: bool)

  function Note(c: Census, t: Touch, physical: Option<Word>): Census {
    var c := c.(loads := c.loads + Flag(t.read), stores := c.stores + Flag(!t.read));
    if t.virt in c.sites then
      var s := c.sites[t.virt];
      c.(sites := c.sites[t.virt := s.(loads := s.loads + Flag(t.read), stores := s.stores + Flag(!t.read))])
    else if |c.sites| >= MAX_SITES then c.(dropped := c.dropped + 1)
    else c.(sites := c.sites[t.virt := Site(physical, Flag(t.read), Flag(!t.read))], kept := c.kept + 1)
  }

  function Looked(regions: seq<Region>, c: Census, t: Touch): Census {
    match Target(regions, t.virt)
    case Device(_, _) => c
    case NoDevice(phys) => Note(c, t, Some(phys))
    case NoSegment => Note(c, t, None)
  }

  function LookedAll(regions: seq<Region>, touches: seq<Touch>): Census {
    if |touches| == 0 then EMPTY
    else Looked(regions, LookedAll(regions, touches[..|touches| - 1]), touches[|touches| - 1])
  }

  /** How many of the touches are undelivered loads, or stores, at one address or at all. */
  function Count(regions: seq<Region>, touches: seq<Touch>, virt: Option<Word>, read: bool): nat {
    if |touches| == 0 then 0
    else
      var t := touches[|touches| - 1];
      Count(regions, touches[..|touches| - 1], virt, read)
      + Flag(!Target(regions, t.virt).Device? && t.read == read && (virt.None? || virt.value == t.virt))
  }

  ghost function Sum(sites: map<Word, Site>): nat
    decreases |sites|
  {
    if sites == map[] then 0
    else
      var v :| v in sites;
      sites[v].loads + sites[v].stores + Sum(sites - {v})
  }

  lemma {:induction false} SumTakes(sites: map<Word, Site>, v: Word)
    requires v in sites
    ensures Sum(sites) == sites[v].loads + sites[v].stores + Sum(sites - {v})
    decreases |sites|
  {
    var w :| w in sites && Sum(sites) == sites[w].loads + sites[w].stores + Sum(sites - {w});
    if v != w {
      SumTakes(sites - {w}, v);
      SumTakes(sites - {v}, w);
      assert sites - {v} - {w} == sites - {w} - {v};
    }
  }

  lemma SumPut(sites: map<Word, Site>, v: Word, s: Site)
    ensures var after := sites[v := s];
            Sum(after) == Sum(sites) + s.loads + s.stores - if v in sites then sites[v].loads + sites[v].stores else 0
  {
    var after := sites[v := s];
    SumTakes(after, v);
    assert after - {v} == sites - {v};
    if v in sites { SumTakes(sites, v); } else { assert sites - {v} == sites; }
  }

  // What the census says of a run of accesses: its totals,
  ghost predicate TotalsRight(regions: seq<Region>, touches: seq<Touch>, c: Census) {
    && c.loads == Count(regions, touches, None, true) && c.stores == Count(regions, touches, None, false)
    && c.kept == |c.sites| <= 4096
    && (c.dropped > 0 ==> c.kept == 4096)
    && c.loads + c.stores == Sum(c.sites) + c.dropped
  }

  // and each address it kept, or did not.
  ghost predicate SiteRight(regions: seq<Region>, touches: seq<Touch>, c: Census, v: Word) {
    var loads, stores := Count(regions, touches, Some(v), true), Count(regions, touches, Some(v), false);
    if v in c.sites then
      var s := c.sites[v];
      s.loads == loads && s.stores == stores && loads + stores > 0 && !Target(regions, v).Device? && s.physical == Physical(v)
    else
      |c.sites| < 4096 ==> loads == stores == 0
  }

  /** Over any run the totals count every access that reached nothing; each address kept has all of its
      accesses counted; and the total is what the kept addresses add up to plus what was dropped. */
  lemma {:induction false} CensusIsFaithful(regions: seq<Region>, touches: seq<Touch>)
    ensures var c := LookedAll(regions, touches);
            TotalsRight(regions, touches, c) && forall v :: SiteRight(regions, touches, c, v)
  {
    if |touches| == 0 {
    } else {
      var early, t := touches[..|touches| - 1], touches[|touches| - 1];
      CensusIsFaithful(regions, early);
      var c := LookedAll(regions, early);
      LookTotals(regions, touches, c);
      forall v ensures SiteRight(regions, touches, Looked(regions, c, t), v) { LookSite(regions, touches, c, v); }
      hide Looked, TotalsRight, SiteRight;
    }
  }

  lemma Unmet(regions: seq<Region>, virt: Word)
    ensures match Target(regions, virt)
            case Device(_, _) => true
            case NoDevice(phys) => Physical(virt) == Some(phys)
            case NoSegment => Physical(virt) == None
  {
    hide Physical, Linear;
  }

  lemma CountNext(regions: seq<Region>, touches: seq<Touch>, virt: Option<Word>, read: bool)
    requires |touches| > 0
    ensures var t := touches[|touches| - 1];
            Count(regions, touches, virt, read) ==
            Count(regions, touches[..|touches| - 1], virt, read) +
            Flag(!Target(regions, t.virt).Device? && t.read == read && (virt.None? || virt.value == t.virt))
  {
    hide Target;
  }

  lemma {:induction false} LookTotals(regions: seq<Region>, touches: seq<Touch>, c: Census)
    requires |touches| > 0 && TotalsRight(regions, touches[..|touches| - 1], c)
    ensures TotalsRight(regions, touches, Looked(regions, c, touches[|touches| - 1]))
  {
    hide Count, Sum, Target;
    var t := touches[|touches| - 1];
    CountNext(regions, touches, None, true);
    CountNext(regions, touches, None, false);
    var next := Looked(regions, c, t);
    if !Target(regions, t.virt).Device? && (t.virt in c.sites || |c.sites| < MAX_SITES) {
      SumPut(c.sites, t.virt, next.sites[t.virt]);
    }
  }

  lemma {:induction false} LookSite(regions: seq<Region>, touches: seq<Touch>, c: Census, v: Word)
    requires |touches| > 0 && SiteRight(regions, touches[..|touches| - 1], c, v)
    ensures SiteRight(regions, touches, Looked(regions, c, touches[|touches| - 1]), v)
  {
    hide Count, Target, Physical;
    var t := touches[|touches| - 1];
    CountNext(regions, touches, Some(v), true);
    CountNext(regions, touches, Some(v), false);
    Unmet(regions, t.virt);
  }

  // ---- In place -------------------------------------------------------------------------------------------------------

  /** The shortcut's wrapping subtraction tests exactly whether a region holds the address. */
  lemma WrappingTest(r: Region, phys: Word)
    requires r.Fits()
    ensures SubW(phys, r.base) < r.size <==> r.Holds(phys)
  {
  }

  /** If the last region starting at or before an address does not hold it, none does. */
  lemma {:induction false} OnlyCandidate(regions: seq<Region>, phys: Word, n: nat)
    requires Mapped(regions) && n <= |regions|
    requires forall i :: 0 <= i < n ==> regions[i].base <= phys
    requires forall i :: n <= i < |regions| ==> phys < regions[i].base
    ensures Linear(regions, phys) == if n > 0 && regions[n - 1].Holds(phys) then Some(regions[n - 1]) else None
  {
    if n > 0 && regions[n - 1].Holds(phys) {
      LinearFinds(regions, phys, n - 1);
    } else {
      forall i | 0 <= i < n ensures !regions[i].Holds(phys) {
        if i < n - 1 { assert regions[i].Below(regions[n - 1]); }
      }
      LinearMisses(regions, phys);
    }
  }

  lemma {:induction false} InsertStep(regions: seq<Region>, r: Region, at: nat)
    requires at <= |regions| && Insert(regions, r) == regions[..at] + Insert(regions[at..], r)
    ensures if at == |regions| || regions[at].base > r.base then Insert(regions, r) == regions[..at] + [r] + regions[at..]
            else Insert(regions, r) == regions[..at + 1] + Insert(regions[at + 1..], r)
  {
    if at < |regions| { assert regions[at..][1..] == regions[at + 1..] && regions[..at + 1] == regions[..at] + [regions[at]]; }
  }

  lemma InsertNames(regions: seq<Region>, r: Region, at: nat)
    requires at <= |regions|
    ensures (set q | q in regions[..at] + [r] + regions[at..] :: q.name) == (set q | q in regions :: q.name) + {r.name}
  {
    assert regions == regions[..at] + regions[at..];
    assert forall q :: q in regions[..at] + [r] + regions[at..] <==> q in regions || q == r;
  }

  class AddressBus {
    var regions: seq<Region>
    var names: set<Name>
    var last: int
    var census: Census

    constructor ()
      ensures Valid() && regions == [] && census == EMPTY
    {
      regions, names, last, census := [], {}, -1, EMPTY;
    }

    ghost predicate Valid()
      reads this`regions, this`names, this`last
    {
      Mapped(regions) && names == (set r | r in regions :: r.name) && -1 <= last < |regions|
    }

    method Place(r: Region)
      requires Mapped(regions) && Clear(regions, r)
      modifies this`regions
      ensures regions == Insert(old(regions), r)
      ensures (set q | q in regions :: q.name) == (set q | q in old(regions) :: q.name) + {r.name}
    {
      hide Insert, Mapped, Clear;
      var at := 0;
      while at < |regions| && regions[at].base <= r.base
        invariant regions == old(regions)
        invariant at <= |regions| && Insert(regions, r) == regions[..at] + Insert(regions[at..], r)
      {
        InsertStep(regions, r, at);
        at := at + 1;
      }
      InsertStep(regions, r, at);
      ghost var was := regions;
      regions := regions[..at] + [r] + regions[at..];
      InsertNames(was, r, at);
    }

    method Attach(base: Word, size: Word, name: Name) returns (refused: Option<Refusal>)
      requires Valid()
      modifies this`regions, this`names, this`last
      ensures Valid()
      ensures match Attached(old(regions), base, size, name)
              case Ok(more) => refused == None && regions == more
              case Err(why) => refused == Some(why) && regions == old(regions) && last == old(last)
    {
      hide Physical, Insert;
      if name == [] { return Some(NoName); }
      if name in names { return Some(NameTaken); }
      if size == 0 { return Some(NoBytes); }
      var phys := Physical(base);
      if phys.None? { return Some(NoTranslation); }
      if phys.value + size > PHYS_SIZE { return Some(PastTheEnd); }
      for i := 0 to |regions|
        invariant forall k :: 0 <= k < i ==> !Clashes(regions[k], phys.value, size)
      {
        if Clashes(regions[i], phys.value, size) { return Some(Overlaps); }
      }
      AttachClaims(regions, base, size, name, 0);
      Separate(regions, Region(phys.value, size, name));
      Place(Region(phys.value, size, name));
      names := names + {name};
      last := -1;
      refused := None;
    }

    /** The region holding an address, by the last one hit or by binary search: the same one a scan of
        them all would find, whatever was looked for before. */
    method Find(phys: Word) returns (r: Option<Region>)
      requires Valid()
      modifies this`last
      ensures Valid() && r == Linear(regions, phys)
    {
      if last >= 0 {
        WrappingTest(regions[last], phys);
        if SubW(phys, regions[last].base) < regions[last].size {
          LinearFinds(regions, phys, last);
          return Some(regions[last]);
        }
      }
      var lo, hi := 0, |regions|;
      while lo < hi
        invariant 0 <= lo <= hi <= |regions|
        invariant forall i :: 0 <= i < lo ==> regions[i].base <= phys
        invariant forall i :: hi <= i < |regions| ==> phys < regions[i].base
      {
        var mid := (lo + hi) / 2;
        if regions[mid].base > phys {
          forall i | mid <= i < |regions| ensures phys < regions[i].base { assert i > mid ==> regions[mid].Below(regions[i]); }
          hi := mid;
        } else {
          forall i | 0 <= i <= mid ensures regions[i].base <= phys { assert i < mid ==> regions[i].Below(regions[mid]); }
          lo := mid + 1;
        }
      }
      OnlyCandidate(regions, phys, lo);
      if lo == 0 { return None; }
      WrappingTest(regions[lo - 1], phys);
      if SubW(phys, regions[lo - 1].base) >= regions[lo - 1].size { return None; }
      last := lo - 1;
      r := Some(regions[lo - 1]);
    }

    method Record(t: Touch, physical: Option<Word>)
      modifies this`census
      ensures census == Note(old(census), t, physical)
    {
      if t.read {
        census := census.(loads := census.loads + 1);
      } else {
        census := census.(stores := census.stores + 1);
      }
      if t.virt in census.sites {
        var s := census.sites[t.virt];
        s := if t.read then s.(loads := s.loads + 1) else s.(stores := s.stores + 1);
        census := census.(sites := census.sites[t.virt := s]);
        return;
      }
      if |census.sites| >= MAX_SITES {
        census := census.(dropped := census.dropped + 1);
        return;
      }
      var s := if t.read then Site(physical, 1, 0) else Site(physical, 0, 1);
      census := census.(sites := census.sites[t.virt := s], kept := census.kept + 1);
    }

    /** A read or a write, up to the device that answers it. */
    method Deliver(t: Touch) returns (to: Reached)
      requires Valid()
      modifies this`last, this`census
      ensures Valid() && to == Target(regions, t.virt) && census == Looked(regions, old(census), t)
    {
      hide Linear, Note, Mapped, Physical;
      var phys := Physical(t.virt);
      if phys.None? {
        Record(t, None);
        return NoSegment;
      }
      var r := Find(phys.value);
      if r.Some? { return Device(r.value.name, SubW(phys.value, r.value.base)); }
      Record(t, phys);
      to := NoDevice(phys.value);
    }

    /** The census part of Reset; the devices are reset one by one. */
    method ResetCensus()
      modifies this`census
      ensures census == LookedAll(regions, [])
    {
      census := EMPTY;
    }
  }
}
