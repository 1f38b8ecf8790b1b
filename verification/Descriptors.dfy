// internal/broadcast/sections.go: the descriptor loops of the bouquet table, as the builder writes
// them and as the guest walks them. A private line-up descriptor is visible only inside the
// namespace its own loop declares.
module Descriptors {
  import opened Words
  import opened Packing

  datatype Desc = Desc(tag: Byte, body: Bytes)

  type Descriptor = d: Desc | |d.body| <= 0xFF witness Desc(0, [])

  const SPECIFIER_TAG: Byte := 0x5F
  const LINEUP_TAG: Byte := 0xB1
  const SERVICES_TAG: Byte := 0x41
  const LINKAGE_TAG: Byte := 0x4A
  const LINKAGE_GUIDE: Byte := 0x91
  const MAX_LINEUP_ENTRIES := 28 // (255 - 2) / 9
  const MAX_SERVICE_ENTRIES := 85 // 255 / 3

  /** The private_data_specifier whose namespace the line-up lives in. */
  const SPECIFIER: Descriptor := Desc(SPECIFIER_TAG, [0, 0, 0, 2])

  function DescBytes(d: Descriptor): (b: Bytes)
    ensures |b| == 2 + |d.body|
  {
    [d.tag, |d.body|] + d.body
  }

  function LoopBytes(ds: seq<Descriptor>): Bytes {
    if ds == [] then [] else DescBytes(ds[0]) + LoopBytes(ds[1..])
  }

  lemma {:induction false} LoopJoins(a: seq<Descriptor>, b: seq<Descriptor>)
    ensures LoopBytes(a + b) == LoopBytes(a) + LoopBytes(b)
  {
    if a == [] {
      assert a + b == b;
    } else {
      LoopJoins(a[1..], b);
      assert (a + b)[1..] == a[1..] + b;
    }
  }

  /** A receiver's walk of a loop. */
  function ReadLoop(b: Bytes): Option<seq<Descriptor>>
    decreases |b|
  {
    if b == [] then Some([])
    else if |b| < 2 || 2 + b[1] > |b| then None
    else
      match ReadLoop(b[2 + b[1]..])
      case None => None
      case Some(rest) => Some([Desc(b[0], b[2..2 + b[1]])] + rest)
  }

  lemma {:induction false} LoopReads(ds: seq<Descriptor>)
    ensures ReadLoop(LoopBytes(ds)) == Some(ds)
  {
    if ds == [] {
    } else {
      var d, b := ds[0], LoopBytes(ds);
      LoopReads(ds[1..]);
      assert b[2 + b[1]..] == LoopBytes(ds[1..]) && b[2..2 + b[1]] == d.body;
      assert [d] + ds[1..] == ds;
    }
  }

  // ---- What a transport announces -------------------------------------------------------------------

  datatype LineupEntry = LineupEntry(serviceId: Half, kind: Byte, listings: Half, extra: Half, channel: Half, flags: Byte)

  datatype Service = Service(id: Half, kind: Byte)

  datatype Transport = Transport(id: Half, networkId: Half, services: seq<Service>, lineup: seq<LineupEntry>)

  /** Zero stands for one, in both lists. */
  function OrOne(kind: Byte): Byte {
    if kind == 0 then 1 else kind
  }

  predicate EntryFits(e: LineupEntry) {
    e.channel <= 0xFFF && e.flags <= 0xF
  }

  function EntryBytes(e: LineupEntry): (b: Bytes)
    requires EntryFits(e)
    ensures |b| == 9
  {
    U16(e.serviceId) + [OrOne(e.kind)] + U16(e.listings) + U16(e.extra) + U16(e.channel * 0x10 + e.flags)
  }

  ghost predicate AllFit(lineup: seq<LineupEntry>) {
    forall k :: 0 <= k < |lineup| ==> EntryFits(lineup[k])
  }

  function EntriesBytes(lineup: seq<LineupEntry>): (b: Bytes)
    requires AllFit(lineup)
    ensures |b| == 9 * |lineup|
  {
    if lineup == [] then [] else EntryBytes(lineup[0]) + EntriesBytes(lineup[1..])
  }

  /** One 0xB1 for every twenty-eight entries, each opening with the gate the guest tests. */
  function LineupSlices(lineup: seq<LineupEntry>): seq<Descriptor>
    requires AllFit(lineup)
    decreases |lineup|
  {
    if lineup == [] then []
    else
      var n := Least(MAX_LINEUP_ENTRIES, |lineup|);
      [Desc(LINEUP_TAG, [0xFF, 0xFF] + EntriesBytes(lineup[..n]))] + LineupSlices(lineup[n..])
  }

  function LineupDescs(lineup: seq<LineupEntry>): seq<Descriptor>
    requires AllFit(lineup)
  {
    if lineup == [] then [] else [SPECIFIER] + LineupSlices(lineup)
  }

  function ServicesBytes(services: seq<Service>): (b: Bytes)
    ensures |b| == 3 * |services|
  {
    if services == [] then [] else U16(services[0].id) + [OrOne(services[0].kind)] + ServicesBytes(services[1..])
  }

  function ServiceDescs(services: seq<Service>): seq<Descriptor>
    decreases |services|
  {
    if services == [] then []
    else
      var n := Least(MAX_SERVICE_ENTRIES, |services|);
      [Desc(SERVICES_TAG, ServicesBytes(services[..n]))] + ServiceDescs(services[n..])
  }

  function Linkage(tr: Transport): Descriptor
    requires tr.services != []
  {
    Desc(LINKAGE_TAG, U16(tr.id) + U16(tr.networkId) + U16(tr.services[0].id) + [LINKAGE_GUIDE])
  }

  /** A transport the bouquet table can announce. */
  ghost predicate Announceable(tr: Transport) {
    AllFit(tr.lineup) && tr.services != []
  }

  function TransportDescs(tr: Transport): (ds: seq<Descriptor>)
    requires Announceable(tr)
    ensures ds != []
  {
    LineupDescs(tr.lineup) + ServiceDescs(tr.services) + [Linkage(tr)]
  }

  // ---- What the guest takes from it --------------------------------------------------------------------

  function ReadEntry(b: Bytes): LineupEntry
    requires |b| == 9
  {
    var last := FromU16(b[7], b[8]);
    LineupEntry(FromU16(b[0], b[1]), b[2], FromU16(b[3], b[4]), FromU16(b[5], b[6]), last / 0x10, last % 0x10)
  }

  function ReadEntries(b: Bytes): seq<LineupEntry>
    decreases |b|
  {
    if |b| < 9 then [] else [ReadEntry(b[..9])] + ReadEntries(b[9..])
  }

  /** The guest's walk of one loop. `visible` is whether the namespace now in force is the
      line-up's: a specifier sets it for the descriptors that follow, and a 0xB1 outside it, or
      without its gate, is passed over. */
  function Seen(ds: seq<Descriptor>, visible: bool): seq<LineupEntry> {
    if ds == [] then []
    else
      var d := ds[0];
      if d.tag == 0x5F then Seen(ds[1..], d.body == [0, 0, 0, 2])
      else if d.tag == 0xB1 && visible && |d.body| >= 2 && d.body[..2] == [0xFF, 0xFF] then
        ReadEntries(d.body[2..]) + Seen(ds[1..], visible)
      else Seen(ds[1..], visible)
  }

  /** The entries as the guest has them, the default kind filled in. */
  function AsSeen(lineup: seq<LineupEntry>): (r: seq<LineupEntry>)
    ensures |r| == |lineup|
  {
    seq(|lineup|, k requires 0 <= k < |lineup| => lineup[k].(kind := OrOne(lineup[k].kind)))
  }

  lemma EntryReads(e: LineupEntry)
    requires EntryFits(e)
    ensures ReadEntry(EntryBytes(e)) == e.(kind := OrOne(e.kind))
  {
    U16Read(e.serviceId);
    U16Read(e.listings);
    U16Read(e.extra);
    U16Read(e.channel * 0x10 + e.flags);
    assert (e.channel * 0x10 + e.flags) / 0x10 == e.channel && (e.channel * 0x10 + e.flags) % 0x10 == e.flags;
    hide U16, FromU16, OrOne;
  }

  lemma {:induction false} EntriesRead(lineup: seq<LineupEntry>)
    requires AllFit(lineup)
    ensures ReadEntries(EntriesBytes(lineup)) == AsSeen(lineup)
  {
    if lineup == [] {
    } else {
      EntriesRead(lineup[1..]);
      EntryReads(lineup[0]);
      var b, rest := EntryBytes(lineup[0]), EntriesBytes(lineup[1..]);
      assert (b + rest)[..9] == b && (b + rest)[9..] == rest;
      assert [AsSeen(lineup)[0]] + AsSeen(lineup[1..]) == AsSeen(lineup);
      hide EntryBytes, ReadEntry;
    }
  }

  lemma {:induction false} SlicesSeen(lineup: seq<LineupEntry>)
    requires AllFit(lineup)
    ensures Seen(LineupSlices(lineup), true) == AsSeen(lineup)
    decreases |lineup|
  {
    if lineup == [] {
    } else {
      var n := Least(MAX_LINEUP_ENTRIES, |lineup|);
      assert AsSeen(lineup[..n]) + AsSeen(lineup[n..]) == AsSeen(lineup);
      hide ReadEntries, EntriesBytes, AsSeen;
      EntriesRead(lineup[..n]);
      SlicesSeen(lineup[n..]);
      var ds := LineupSlices(lineup);
      assert ds[0].body[2..] == EntriesBytes(lineup[..n]) && ds[1..] == LineupSlices(lineup[n..]);
    }
  }

  /** No specifier among the descriptors. */
  ghost predicate NoSpecifier(ds: seq<Descriptor>) {
    forall k :: 0 <= k < |ds| ==> ds[k].tag != SPECIFIER_TAG
  }

  // The walk's first step.
  lemma {:induction false} SeenOne(ds: seq<Descriptor>, visible: bool)
    requires ds != [] && ds[0].tag != SPECIFIER_TAG
    ensures Seen(ds, visible) == (if ds[0].tag == LINEUP_TAG && visible && |ds[0].body| >= 2 && ds[0].body[..2] == [0xFF, 0xFF]
                                  then ReadEntries(ds[0].body[2..]) else []) + Seen(ds[1..], visible)
  {
    hide ReadEntries;
  }

  /** A loop walked in two parts with no specifier in the first. */
  lemma {:induction false} SeenJoins(a: seq<Descriptor>, b: seq<Descriptor>, visible: bool)
    requires NoSpecifier(a)
    ensures Seen(a + b, visible) == Seen(a, visible) + Seen(b, visible)
  {
    hide ReadEntries;
    if a == [] {
      assert a + b == b;
    } else {
      SeenJoins(a[1..], b, visible);
      assert (a + b)[0] == a[0] && (a + b)[1..] == a[1..] + b;
      SeenOne(a, visible);
      SeenOne(a + b, visible);
      hide Seen;
    }
  }

  lemma {:induction false} NothingSeen(ds: seq<Descriptor>, visible: bool)
    requires forall k :: 0 <= k < |ds| ==> ds[k].tag != SPECIFIER_TAG && ds[k].tag != LINEUP_TAG
    ensures Seen(ds, visible) == []
  {
    if ds == [] {
    } else {
      NothingSeen(ds[1..], visible);
    }
  }

  lemma {:induction false} SliceTags(lineup: seq<LineupEntry>)
    requires AllFit(lineup)
    ensures forall k :: 0 <= k < |LineupSlices(lineup)| ==> LineupSlices(lineup)[k].tag == LINEUP_TAG
    decreases |lineup|
  {
    if lineup == [] {
    } else {
      SliceTags(lineup[Least(MAX_LINEUP_ENTRIES, |lineup|)..]);
    }
  }

  lemma {:induction false} ServiceTags(services: seq<Service>)
    ensures forall k :: 0 <= k < |ServiceDescs(services)| ==> ServiceDescs(services)[k].tag == SERVICES_TAG
    decreases |services|
  {
    if services == [] {
    } else {
      ServiceTags(services[Least(MAX_SERVICE_ENTRIES, |services|)..]);
    }
  }

  /** A transport's loop opens with its only specifier if it has a line-up, and otherwise holds
      neither specifier nor line-up. */
  lemma TransportShape(tr: Transport)
    requires Announceable(tr)
    ensures var ds := TransportDescs(tr);
            if tr.lineup == [] then forall k :: 0 <= k < |ds| ==> ds[k].tag != SPECIFIER_TAG && ds[k].tag != LINEUP_TAG
            else ds[0] == SPECIFIER && NoSpecifier(ds[1..]) && Seen(ds[1..], true) == AsSeen(tr.lineup)
  {
    hide LineupSlices, ServiceDescs, Seen, AsSeen, Linkage;
    ServiceTags(tr.services);
    LinkageTag(tr);
    if tr.lineup != [] {
      var slices, tail := LineupSlices(tr.lineup), ServiceDescs(tr.services) + [Linkage(tr)];
      SliceTags(tr.lineup);
      SlicesSeen(tr.lineup);
      assert TransportDescs(tr)[1..] == slices + tail;
      SeenJoins(slices, tail, true);
      NothingSeen(tail, true);
      assert Seen(slices, true) + [] == Seen(slices, true);
    }
  }

  lemma LinkageTag(tr: Transport)
    requires Announceable(tr)
    ensures Linkage(tr).tag != SPECIFIER_TAG && Linkage(tr).tag != LINEUP_TAG
  {
  }

  // ---- The services and the linkage, read back ---------------------------------------------------------

  function ReadServices(b: Bytes): seq<Service>
    decreases |b|
  {
    if |b| < 3 then [] else [Service(FromU16(b[0], b[1]), b[2])] + ReadServices(b[3..])
  }

  function ServicesOf(d: Descriptor): seq<Service> {
    if d.tag == 0x41 then ReadServices(d.body) else []
  }

  /** The services a receiver finds in a loop's service lists. */
  function ServicesIn(ds: seq<Descriptor>): seq<Service> {
    if ds == [] then [] else ServicesOf(ds[0]) + ServicesIn(ds[1..])
  }

  /** A linkage: transport, network and service, and what for. */
  datatype Link = Link(transport: Half, network: Half, service: Half, kind: Byte)

  function LinkOf(d: Descriptor): seq<Link> {
    var b := d.body;
    if d.tag == 0x4A && |b| == 7 then [Link(FromU16(b[0], b[1]), FromU16(b[2], b[3]), FromU16(b[4], b[5]), b[6])] else []
  }

  function LinksIn(ds: seq<Descriptor>): seq<Link> {
    if ds == [] then [] else LinkOf(ds[0]) + LinksIn(ds[1..])
  }

  function AsSent(services: seq<Service>): (r: seq<Service>)
    ensures |r| == |services|
  {
    seq(|services|, k requires 0 <= k < |services| => Service(services[k].id, if services[k].kind == 0 then 1 else services[k].kind))
  }

  lemma {:induction false} ServicesRead(services: seq<Service>)
    ensures ReadServices(ServicesBytes(services)) == AsSent(services)
  {
    if services != [] {
      ServicesRead(services[1..]);
      U16Read(services[0].id);
      var b := ServicesBytes(services);
      assert b[3..] == ServicesBytes(services[1..]);
      assert AsSent(services) == [AsSent(services)[0]] + AsSent(services[1..]);
      hide U16, FromU16, ServicesBytes;
    }
  }

  lemma {:induction false} ServicesJoin(a: seq<Descriptor>, b: seq<Descriptor>)
    ensures ServicesIn(a + b) == ServicesIn(a) + ServicesIn(b)
  {
    hide ServicesOf;
    if a == [] {
      assert a + b == b;
    } else {
      ServicesJoin(a[1..], b);
      assert (a + b)[0] == a[0] && (a + b)[1..] == a[1..] + b;
    }
  }

  lemma {:induction false} LinksJoin(a: seq<Descriptor>, b: seq<Descriptor>)
    ensures LinksIn(a + b) == LinksIn(a) + LinksIn(b)
  {
    hide LinkOf;
    if a == [] {
      assert a + b == b;
    } else {
      LinksJoin(a[1..], b);
      assert (a + b)[0] == a[0] && (a + b)[1..] == a[1..] + b;
    }
  }

  lemma {:induction false} NothingIn(ds: seq<Descriptor>)
    requires forall k :: 0 <= k < |ds| ==> ds[k].tag == 0x5F || ds[k].tag == 0xB1
    ensures ServicesIn(ds) == [] && LinksIn(ds) == []
  {
    if ds != [] { NothingIn(ds[1..]); }
  }

  lemma {:induction false} ServiceListsRead(services: seq<Service>)
    ensures ServicesIn(ServiceDescs(services)) == AsSent(services) && LinksIn(ServiceDescs(services)) == []
    decreases |services|
  {
    if services != [] {
      var n := Least(MAX_SERVICE_ENTRIES, |services|);
      ServiceListsRead(services[n..]);
      ServicesRead(services[..n]);
      assert AsSent(services) == AsSent(services[..n]) + AsSent(services[n..]);
      var ds := ServiceDescs(services);
      assert ds[1..] == ServiceDescs(services[n..]);
      hide ReadServices, ServicesBytes, AsSent;
    }
  }

  lemma {:induction false} LineupHasNone(lineup: seq<LineupEntry>)
    requires AllFit(lineup)
    ensures forall k :: 0 <= k < |LineupDescs(lineup)| ==> LineupDescs(lineup)[k].tag == 0x5F || LineupDescs(lineup)[k].tag == 0xB1
  {
    SliceTags(lineup);
    hide LineupSlices;
  }

  lemma LinkageReads(tr: Transport)
    requires tr.services != []
    ensures LinksIn([Linkage(tr)]) == [Link(tr.id, tr.networkId, tr.services[0].id, 0x91)] && ServicesIn([Linkage(tr)]) == []
  {
    U16Read(tr.id);
    U16Read(tr.networkId);
    U16Read(tr.services[0].id);
    hide U16, FromU16;
    assert LinksIn([Linkage(tr)][1..]) == [];
    assert [Linkage(tr)][1..] == [];
  }

  /** From a transport's loop a receiver takes every service, in order and with its kind, one where that was
      zero; and one linkage, of the guide's kind, to the transport's first service. */
  lemma TransportAnnounces(tr: Transport)
    requires Announceable(tr)
    ensures ServicesIn(TransportDescs(tr)) == AsSent(tr.services)
    ensures LinksIn(TransportDescs(tr)) == [Link(tr.id, tr.networkId, tr.services[0].id, 0x91)]
  {
    var lineup, services, link := LineupDescs(tr.lineup), ServiceDescs(tr.services), [Linkage(tr)];
    LineupHasNone(tr.lineup);
    NothingIn(lineup);
    ServiceListsRead(tr.services);
    LinkageReads(tr);
    ServicesJoin(lineup + services, link);
    ServicesJoin(lineup, services);
    LinksJoin(lineup + services, link);
    LinksJoin(lineup, services);
    hide ServicesIn, LinksIn, LineupDescs, ServiceDescs, Linkage, AsSent;
  }
}
