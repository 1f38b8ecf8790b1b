// internal/broadcast/sections.go: BAT, the bouquet association table, and the cutting of a
// transport's descriptors into pieces that fit a section.
module Bouquet {
  import opened Words
  import opened Packing
  import opened Descriptors
  import opened Sections

  const BAT_TABLE: Byte := 0x4A
  const SPECIFIER_SIZE := 6

  // ---- Cutting a loop ---------------------------------------------------------------------------------

  /** How many whole descriptors from the front take no more than room bytes. */
  function Fit(ds: seq<Descriptor>, room: int): (n: nat)
    ensures n <= |ds|
  {
    if ds == [] || 2 + |ds[0].body| > room then 0 else 1 + Fit(ds[1..], room - 2 - |ds[0].body|)
  }

  lemma {:induction false} FitFits(ds: seq<Descriptor>, room: nat)
    ensures |LoopBytes(ds[..Fit(ds, room)])| <= room
    ensures Fit(ds, room) < |ds| ==> |LoopBytes(ds[..Fit(ds, room) + 1])| > room
  {
    if ds == [] {
    } else {
      var size := 2 + |ds[0].body|;
      assert ds[..1] == [ds[0]] && LoopBytes(ds[1..][..0]) == [];
      if size <= room {
        FitFits(ds[1..], room - size);
        var n := Fit(ds[1..], room - size);
        assert ds[..n + 1][1..] == ds[1..][..n];
        if n + 1 < |ds| { assert ds[..n + 2][1..] == ds[1..][..n + 1]; }
      }
    }
  }

  /** descriptorBoundary: the last whole descriptor's end at or before limit. */
  method DescriptorBoundary(descriptors: Bytes, start: nat, limit: nat, ghost ds: seq<Descriptor>) returns (at: nat)
    requires start <= |descriptors| && descriptors[start..] == LoopBytes(ds) && start <= limit <= |descriptors|
    ensures at == start + |LoopBytes(ds[..Fit(ds, limit - start)])| <= limit
    ensures descriptors[at..] == LoopBytes(ds[Fit(ds, limit - start)..])
  {
    at := start;
    ghost var k := 0;
    assert ds[..0] == [] && ds[0..] == ds;
    while at < limit
      invariant start <= at <= limit && k <= |ds|
      invariant at == start + |LoopBytes(ds[..k])| && descriptors[at..] == LoopBytes(ds[k..])
      invariant Fit(ds, limit - start) == k + Fit(ds[k..], limit - at)
    {
      ghost var rest := ds[k..];
      assert rest != [] && descriptors[at + 1] == |rest[0].body| by { assert descriptors[at..][1] == descriptors[at + 1]; }
      if at + 2 > |descriptors| { break; }
      var next := at + 2 + descriptors[at + 1];
      if next > limit { break; }
      NextDescriptor(descriptors, at, ds, k);
      at, k := next, k + 1;
    }
    FitStops(ds[k..], limit - at);
  }

  lemma NextDescriptor(descriptors: Bytes, at: nat, ds: seq<Descriptor>, k: nat)
    requires k < |ds| && at <= |descriptors| && descriptors[at..] == LoopBytes(ds[k..])
    ensures var size := 2 + |ds[k].body|;
            && at + size <= |descriptors| && descriptors[at + size..] == LoopBytes(ds[k + 1..])
            && |LoopBytes(ds[..k + 1])| == |LoopBytes(ds[..k])| + size
  {
    var size := 2 + |ds[k].body|;
    assert ds[k..][1..] == ds[k + 1..];
    assert descriptors[at + size..] == descriptors[at..][size..];
    assert ds[..k + 1] == ds[..k] + [ds[k]];
    LoopJoins(ds[..k], [ds[k]]);
    assert LoopBytes([ds[k]]) == DescBytes(ds[k]) + LoopBytes([]);
  }

  lemma FitStops(ds: seq<Descriptor>, room: int)
    requires room <= 0 || (ds != [] && 2 + |ds[0].body| > room)
    ensures Fit(ds, room) == 0
  {
  }

  // ---- Building a transport's loop ------------------------------------------------------------------------

  /** The first entry the line-up descriptor has no room for a field of. */
  function LineupError(lineup: seq<LineupEntry>): Option<SectionError> {
    if lineup == [] then None
    else if lineup[0].channel > 0xFFF then Some(ChannelTooBig)
    else if lineup[0].flags > 0xF then Some(FlagsTooBig)
    else LineupError(lineup[1..])
  }

  lemma AllFitSplits(lineup: seq<LineupEntry>, n: nat)
    requires n <= |lineup|
    ensures AllFit(lineup) <==> AllFit(lineup[..n]) && AllFit(lineup[n..])
  {
    if AllFit(lineup[..n]) && AllFit(lineup[n..]) {
      forall k | 0 <= k < |lineup| ensures EntryFits(lineup[k]) {
        assert lineup[k] == if k < n then lineup[..n][k] else lineup[n..][k - n];
      }
    }
  }

  lemma {:induction false} LineupErrorMeans(lineup: seq<LineupEntry>)
    ensures LineupError(lineup).None? <==> AllFit(lineup)
  {
    if lineup == [] {
    } else {
      LineupErrorMeans(lineup[1..]);
      AllFitSplits(lineup, 1);
      assert AllFit(lineup[..1]) <==> EntryFits(lineup[0]) by {
        assert lineup[..1][0] == lineup[0];
      }
    }
  }

  lemma {:induction false} ErrorSkips(lineup: seq<LineupEntry>, n: nat)
    requires n <= |lineup| && AllFit(lineup[..n])
    ensures LineupError(lineup) == LineupError(lineup[n..])
  {
    if n == 0 {
      assert lineup[0..] == lineup;
    } else {
      assert lineup[..n][0] == lineup[0];
      AllFitSplits(lineup[..n], 1);
      assert lineup[..n][1..] == lineup[1..][..n - 1];
      ErrorSkips(lineup[1..], n - 1);
      assert lineup[1..][n - 1..] == lineup[n..];
    }
  }

  lemma {:induction false} ErrorStands(lineup: seq<LineupEntry>, n: nat)
    requires n <= |lineup| && LineupError(lineup[..n]).Some?
    ensures LineupError(lineup) == LineupError(lineup[..n])
  {
    assert lineup[..n][1..] == lineup[1..][..n - 1];
    if EntryFits(lineup[0]) { ErrorStands(lineup[1..], n - 1); }
  }

  // One 0xB1's entries.
  method EntriesOf(slice: seq<LineupEntry>) returns (r: Result<Bytes, SectionError>)
    ensures match LineupError(slice)
            case Some(e) => r == Err(e)
            case None => AllFit(slice) && r == Ok(EntriesBytes(slice))
  {
    LineupErrorMeans(slice);
    hide EntryBytes;
    var body: Bytes := [];
    for i := 0 to |slice|
      invariant LineupError(slice) == LineupError(slice[i..])
      invariant AllFit(slice) ==> body + EntriesBytes(slice[i..]) == EntriesBytes(slice)
    {
      var e := slice[i];
      assert slice[i..][1..] == slice[i + 1..];
      if e.channel > 0xFFF { return Err(ChannelTooBig); }
      if e.flags > 0xF { return Err(FlagsTooBig); }
      if AllFit(slice) {
        var rest := EntriesBytes(slice[i + 1..]);
        assert body + (EntryBytes(e) + rest) == body + EntryBytes(e) + rest;
      }
      body := body + EntryBytes(e);
    }
    assert slice[|slice|..] == [] && body + [] == body;
    r := Ok(body);
  }

  // lineupDescriptors
  method LineupDescriptors(lineup: seq<LineupEntry>) returns (r: Result<Bytes, SectionError>)
    ensures match LineupError(lineup)
            case Some(e) => r == Err(e)
            case None => AllFit(lineup) && r == Ok(LoopBytes(LineupDescs(lineup)))
  {
    if |lineup| == 0 { return Ok([]); }
    hide EntriesBytes, LineupSlices;
    var out: Bytes, start := [SPECIFIER_TAG, 4, 0, 0, 0, 2], 0;
    LineupErrorMeans(lineup);
    LineupStarts(lineup, out);
    while start < |lineup|
      invariant start <= |lineup| && AllFit(lineup[..start])
      invariant AllFit(lineup) ==> AllFit(lineup[start..]) && out + LoopBytes(LineupSlices(lineup[start..])) == LoopBytes(LineupDescs(lineup))
    {
      var end := Least(start + MAX_LINEUP_ENTRIES, |lineup|);
      var body := EntriesOf(lineup[start..end]);
      SliceStep(lineup, start, end, out);
      if body.Err? { return body; }
      var all: Bytes := [0xFF, 0xFF] + body.value;
      out := out + [LINEUP_TAG, |all|] + all;
      start := end;
    }
    assert lineup[..|lineup|] == lineup && lineup[|lineup|..] == [];
    NoSlices();
    assert out + [] == out;
    r := Ok(out);
  }

  lemma NoSlices()
    ensures LoopBytes(LineupSlices([])) == []
  {
  }

  lemma LineupStarts(lineup: seq<LineupEntry>, out: Bytes)
    requires lineup != [] && out == [SPECIFIER_TAG, 4, 0, 0, 0, 2]
    ensures AllFit(lineup) ==> AllFit(lineup[0..]) && out + LoopBytes(LineupSlices(lineup[0..])) == LoopBytes(LineupDescs(lineup))
  {
    assert lineup[0..] == lineup;
    if AllFit(lineup) { assert LineupDescs(lineup)[1..] == LineupSlices(lineup); }
  }

  lemma SliceStep(lineup: seq<LineupEntry>, start: nat, end: nat, out: Bytes)
    requires start < end <= |lineup| && end == Least(start + MAX_LINEUP_ENTRIES, |lineup|) && AllFit(lineup[..start])
    requires AllFit(lineup) ==> AllFit(lineup[start..]) && out + LoopBytes(LineupSlices(lineup[start..])) == LoopBytes(LineupDescs(lineup))
    ensures match LineupError(lineup[start..end])
            case Some(e) => LineupError(lineup) == Some(e)
            case None =>
              && AllFit(lineup[start..end]) && AllFit(lineup[..end])
              && var all := [0xFF, 0xFF] + EntriesBytes(lineup[start..end]);
                 AllFit(lineup) ==>
                   AllFit(lineup[end..]) &&
                   out + [LINEUP_TAG, |all|] + all + LoopBytes(LineupSlices(lineup[end..])) == LoopBytes(LineupDescs(lineup))
  {
    var slice, rest := lineup[start..end], lineup[start..];
    assert rest[..end - start] == slice && rest[end - start..] == lineup[end..];
    SliceError(lineup, start, end);
    hide EntriesBytes, LineupSlices, LineupError, AllFit, LoopBytes;
    if LineupError(slice).None? && AllFit(lineup) { SliceBytes(rest, end - start, out); }
  }

  lemma SliceError(lineup: seq<LineupEntry>, start: nat, end: nat)
    requires start < end <= |lineup| && AllFit(lineup[..start])
    ensures match LineupError(lineup[start..end])
            case Some(e) => LineupError(lineup) == Some(e)
            case None => AllFit(lineup[start..end]) && AllFit(lineup[..end])
    ensures AllFit(lineup) ==> LineupError(lineup[start..end]).None? && AllFit(lineup[start..]) && AllFit(lineup[end..])
  {
    var slice, rest := lineup[start..end], lineup[start..];
    assert rest[..end - start] == slice;
    assert lineup[..end][..start] == lineup[..start] && lineup[..end][start..] == slice;
    LineupErrorMeans(slice);
    AllFitSplits(lineup[..end], start);
    AllFitSplits(lineup, end);
    AllFitSplits(lineup, start);
    hide AllFit, LineupError;
    ErrorSkips(lineup, start);
    if LineupError(slice).Some? { ErrorStands(rest, end - start); }
    LineupErrorMeans(lineup);
  }

  lemma SliceBytes(rest: seq<LineupEntry>, n: nat, out: Bytes)
    requires rest != [] && AllFit(rest) && n == Least(MAX_LINEUP_ENTRIES, |rest|)
    ensures AllFit(rest[..n]) && AllFit(rest[n..])
    ensures var all := [0xFF, 0xFF] + EntriesBytes(rest[..n]);
            out + [LINEUP_TAG, |all|] + all + LoopBytes(LineupSlices(rest[n..])) == out + LoopBytes(LineupSlices(rest))
  {
    AllFitSplits(rest, n);
    hide EntriesBytes, AllFit;
    var d: Descriptor := Desc(LINEUP_TAG, [0xFF, 0xFF] + EntriesBytes(rest[..n]));
    var later := LineupSlices(rest[n..]);
    assert LineupSlices(rest) == [d] + later;
    hide LineupSlices;
    assert ([d] + later)[1..] == later;
    assert LoopBytes([d] + later) == DescBytes(d) + LoopBytes(later);
    hide LoopBytes;
    assert out + [LINEUP_TAG, |d.body|] + d.body + LoopBytes(later) == out + (DescBytes(d) + LoopBytes(later));
  }

  // serviceListDescriptor
  method ServiceListDescriptor(services: seq<Service>) returns (out: Bytes)
    ensures out == LoopBytes(ServiceDescs(services))
  {
    out := [];
    var start := 0;
    assert services[0..] == services && [] + LoopBytes(ServiceDescs(services)) == LoopBytes(ServiceDescs(services));
    while start < |services|
      invariant start <= |services|
      invariant out + LoopBytes(ServiceDescs(services[start..])) == LoopBytes(ServiceDescs(services))
    {
      hide ServiceDescs, LoopBytes;
      var end := Least(start + MAX_SERVICE_ENTRIES, |services|);
      var chunk := services[start..end];
      var list := ServicesOf(chunk);
      assert services[start..][..end - start] == chunk && services[start..][end - start..] == services[end..];
      ServiceSlice(services[start..], out);
      out := out + [SERVICES_TAG, |chunk| * 3] + list;
      start := end;
    }
    assert services[|services|..] == [] && out + [] == out;
  }

  method ServicesOf(chunk: seq<Service>) returns (list: Bytes)
    ensures list == ServicesBytes(chunk)
  {
    list := [];
    for i := 0 to |chunk|
      invariant list + ServicesBytes(chunk[i..]) == ServicesBytes(chunk)
    {
      assert chunk[i..][1..] == chunk[i + 1..];
      var entry, rest := U16(chunk[i].id) + [OrOne(chunk[i].kind)], ServicesBytes(chunk[i + 1..]);
      assert ServicesBytes(chunk[i..]) == entry + rest;
      assert list + (entry + rest) == list + entry + rest;
      list := list + entry;
    }
    assert chunk[|chunk|..] == [] && list + [] == list;
  }

  lemma ServiceSlice(rest: seq<Service>, out: Bytes)
    requires rest != []
    ensures var n := Least(MAX_SERVICE_ENTRIES, |rest|);
            out + [SERVICES_TAG, n * 3] + ServicesBytes(rest[..n]) + LoopBytes(ServiceDescs(rest[n..])) == out + LoopBytes(ServiceDescs(rest))
  {
    hide ServicesBytes;
    var n: nat := Least(MAX_SERVICE_ENTRIES, |rest|);
    var list := ServicesBytes(rest[..n]);
    assert n <= MAX_SERVICE_ENTRIES && |list| == n * 3;
    var d: Descriptor := Desc(SERVICES_TAG, list);
    assert ServiceDescs(rest) == [d] + ServiceDescs(rest[n..]);
    hide ServiceDescs, LoopBytes, Least;
    FirstOfLoop(d, ServiceDescs(rest[n..]), out);
  }

  lemma FirstOfLoop(d: Descriptor, later: seq<Descriptor>, out: Bytes)
    ensures out + [d.tag, |d.body|] + d.body + LoopBytes(later) == out + LoopBytes([d] + later)
  {
    assert ([d] + later)[1..] == later;
    assert LoopBytes([d] + later) == DescBytes(d) + LoopBytes(later);
    hide LoopBytes;
    assert out + [d.tag, |d.body|] + d.body + LoopBytes(later) == out + (DescBytes(d) + LoopBytes(later));
  }

  // linkageDescriptor
  method LinkageDescriptor(tr: Transport) returns (r: Result<Bytes, SectionError>)
    ensures if tr.services == [] then r == Err(NoService) else r == Ok(DescBytes(Linkage(tr)))
  {
    if |tr.services| == 0 { return Err(NoService); }
    var desc: Bytes := [LINKAGE_TAG, 7];
    desc := desc + U16(tr.id);
    desc := desc + U16(tr.networkId);
    desc := desc + U16(tr.services[0].id);
    desc := desc + [LINKAGE_GUIDE];
    assert desc == DescBytes(Linkage(tr));
    r := Ok(desc);
  }

  /** Why a transport cannot be announced, if it cannot. */
  function TransportError(tr: Transport): (e: Option<SectionError>)
    ensures e.None? <==> Announceable(tr)
  {
    LineupErrorMeans(tr.lineup);
    if LineupError(tr.lineup).Some? then LineupError(tr.lineup) else if tr.services == [] then Some(NoService) else None
  }

  // transportDescriptors
  method TransportDescriptors(tr: Transport) returns (r: Result<Bytes, SectionError>)
    ensures match TransportError(tr)
            case Some(e) => r == Err(e)
            case None => r == Ok(LoopBytes(TransportDescs(tr)))
  {
    var lineup := LineupDescriptors(tr.lineup);
    if lineup.Err? { return lineup; }
    var services := ServiceListDescriptor(tr.services);
    var linkage := LinkageDescriptor(tr);
    if linkage.Err? { return linkage; }
    hide LineupDescs, ServiceDescs, LineupError;
    var link := Linkage(tr);
    LoopJoins(LineupDescs(tr.lineup), ServiceDescs(tr.services));
    LoopJoins(LineupDescs(tr.lineup) + ServiceDescs(tr.services), [link]);
    OneDesc(link);
    r := Ok(lineup.value + services + linkage.value);
  }

  lemma OneDesc(d: Descriptor)
    ensures LoopBytes([d]) == DescBytes(d)
  {
    assert LoopBytes([d]) == DescBytes(d) + LoopBytes([]);
  }

  // ---- Pieces ---------------------------------------------------------------------------------------------

  /** The loops a transport's descriptors are cut into: as many whole descriptors as fit, and a
      namespace of its own at the head of every loop after the first. */
  function PieceLoops(ds: seq<Descriptor>, first: bool, budget: nat): (loops: seq<seq<Descriptor>>)
    requires budget >= 263
    decreases |ds|
  {
    if ds == [] then []
    else
      var prefix := if first then [] else [SPECIFIER];
      var n := Fit(ds, if first then budget else budget - SPECIFIER_SIZE);
      [prefix + ds[..n]] + PieceLoops(ds[n..], false, budget)
  }

  /** Taking the injected namespaces away again. */
  function Stripped(loops: seq<seq<Descriptor>>, first: bool): seq<Descriptor> {
    if loops == [] then []
    else (if first || loops[0] == [] then loops[0] else loops[0][1..]) + Stripped(loops[1..], false)
  }

  /** What the guest sees, loop after loop: each starts with no namespace in force. */
  function SeenAll(loops: seq<seq<Descriptor>>): seq<LineupEntry> {
    if loops == [] then [] else Seen(loops[0], false) + SeenAll(loops[1..])
  }

  /** Without the injected namespaces the pieces are exactly the transport's own descriptors, cut
      between descriptors. */
  lemma {:induction false} StrippedRejoins(ds: seq<Descriptor>, first: bool, budget: nat)
    requires budget >= 263
    ensures Stripped(PieceLoops(ds, first, budget), first) == ds
    decreases |ds|
  {
    if ds == [] {
    } else {
      var n := Fit(ds, if first then budget else budget - SPECIFIER_SIZE);
      StrippedRejoins(ds[n..], false, budget);
      assert ds[..n] + ds[n..] == ds;
      var loops := PieceLoops(ds, first, budget);
      assert loops[1..] == PieceLoops(ds[n..], false, budget);
      assert first ==> [] + ds[..n] == ds[..n];
      assert !first ==> ([SPECIFIER] + ds[..n])[1..] == ds[..n];
      hide Fit;
    }
  }

  /** Every piece is small enough for the section budget it was cut to. */
  lemma {:induction false} PiecesFit(ds: seq<Descriptor>, first: bool, budget: nat)
    requires budget >= 263
    ensures forall k :: 0 <= k < |PieceLoops(ds, first, budget)| ==> |LoopBytes(PieceLoops(ds, first, budget)[k])| <= budget
    decreases |ds|
  {
    if ds == [] {
    } else {
      var room := if first then budget else budget - SPECIFIER_SIZE;
      var n := Fit(ds, room);
      PiecesFit(ds[n..], false, budget);
      FitFits(ds, room);
      OneDesc(SPECIFIER);
      LoopJoins([SPECIFIER], ds[..n]);
      assert [] + ds[..n] == ds[..n];
      hide Fit, LoopBytes;
    }
  }

  /** Later pieces show the guest everything that was in them, because each declares the
      namespace again. */
  lemma {:induction false} LaterPiecesSeen(ds: seq<Descriptor>, budget: nat)
    requires budget >= 263 && NoSpecifier(ds)
    ensures SeenAll(PieceLoops(ds, false, budget)) == Seen(ds, true)
    decreases |ds|
  {
    if ds == [] {
    } else {
      var n := Fit(ds, budget - SPECIFIER_SIZE);
      LaterPiecesSeen(ds[n..], budget);
      SeenJoins(ds[..n], ds[n..], true);
      assert ds[..n] + ds[n..] == ds;
      var loops := PieceLoops(ds, false, budget);
      assert loops[0] == [SPECIFIER] + ds[..n] && loops[1..] == PieceLoops(ds[n..], false, budget);
      assert ([SPECIFIER] + ds[..n])[1..] == ds[..n];
      assert Seen([SPECIFIER] + ds[..n], false) == Seen(ds[..n], true);
      hide Seen, Fit;
    }
  }

  /** However a transport is cut, the guest ends up with its whole line-up, in order. */
  lemma GuestSeesLineup(tr: Transport, budget: nat)
    requires Announceable(tr) && budget >= 263
    ensures SeenAll(PieceLoops(TransportDescs(tr), true, budget)) == AsSeen(tr.lineup)
  {
    var ds := TransportDescs(tr);
    var n := Fit(ds, budget);
    TransportShape(tr);
    var loops := PieceLoops(ds, true, budget);
    assert [] + ds[..n] == ds[..n];
    assert loops[0] == ds[..n] && loops[1..] == PieceLoops(ds[n..], false, budget) && n > 0;
    hide Seen, PieceLoops, Fit, TransportDescs;
    LaterPiecesSeen(ds[n..], budget);
    if tr.lineup == [] {
      NothingSeen(ds[..n], false);
      NothingSeen(ds[n..], true);
      assert AsSeen(tr.lineup) == [];
    } else {
      FirstPieceSeen(ds, n);
    }
  }

  lemma FirstPieceSeen(ds: seq<Descriptor>, n: nat)
    requires 0 < n <= |ds| && ds[0] == SPECIFIER && NoSpecifier(ds[1..])
    ensures NoSpecifier(ds[n..])
    ensures Seen(ds[..n], false) + Seen(ds[n..], true) == Seen(ds[1..], true)
  {
    assert ds[..n][1..] == ds[1..n] && ds[..n][0] == SPECIFIER;
    assert Seen(ds[..n], false) == Seen(ds[1..n], true);
    assert forall k :: 0 <= k < n - 1 ==> ds[1..n][k] == ds[1..][k];
    assert forall k :: 0 <= k < |ds| - n ==> ds[n..][k] == ds[1..][k + n - 1];
    SeenJoins(ds[1..n], ds[n..], true);
    assert ds[1..n] + ds[n..] == ds[1..];
  }
}
