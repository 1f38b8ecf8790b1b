// internal/broadcast/sections.go: BAT itself. Pieces of transports are packed into sections that
// all carry the bouquet's own loop.
module Bat {
  import opened Words
  import opened Packing
  import opened Descriptors
  import opened Sections
  import opened Bouquet

  const BOUQUET_NAME_TAG: Byte := 0x47

  // ---- Pieces as bytes --------------------------------------------------------------------------------

  /** One appearance of a transport in a section: its header and a loop. */
  datatype Piece = Piece(id: Half, networkId: Half, loop: seq<Descriptor>)

  function PieceBytes(p: Piece): Bytes
    requires |LoopBytes(p.loop)| <= 0xFFF
  {
    U16(p.id) + U16(p.networkId) + U16(0xF000 + |LoopBytes(p.loop)|) + LoopBytes(p.loop)
  }

  function PiecesOf(tr: Transport, loops: seq<seq<Descriptor>>): (r: seq<Piece>)
    ensures |r| == |loops|
  {
    seq(|loops|, k requires 0 <= k < |loops| => Piece(tr.id, tr.networkId, loops[k]))
  }

  ghost predicate Small(ps: seq<Piece>, budget: nat) {
    forall k :: 0 <= k < |ps| ==> |LoopBytes(ps[k].loop)| <= budget
  }

  function Encoded(ps: seq<Piece>): (r: seq<Bytes>)
    requires Small(ps, 0xFFF)
    ensures |r| == |ps|
  {
    seq(|ps|, k requires 0 <= k < |ps| => PieceBytes(ps[k]))
  }

  /** A receiver's walk of a transport loop. */
  function ReadPieces(b: Bytes): Option<seq<Piece>>
    decreases |b|
  {
    if b == [] then Some([])
    else if |b| < 6 then None
    else
      var n := FromU16(b[4], b[5]) % 0x1000;
      if 6 + n > |b| then None
      else
        match ReadLoop(b[6..6 + n])
        case None => None
        case Some(loop) =>
          match ReadPieces(b[6 + n..])
          case None => None
          case Some(rest) => Some([Piece(FromU16(b[0], b[1]), FromU16(b[2], b[3]), loop)] + rest)
  }

  lemma {:induction false} PieceReads(p: Piece, rest: Bytes)
    requires |LoopBytes(p.loop)| <= 0xFFF && ReadPieces(rest).Some?
    ensures ReadPieces(PieceBytes(p) + rest) == Some([p] + ReadPieces(rest).value)
  {
    var loop := LoopBytes(p.loop);
    LoopReads(p.loop);
    hide LoopBytes, ReadLoop;
    U16Read(p.id);
    U16Read(p.networkId);
    U16Read(0xF000 + |loop|);
    assert (0xF000 + |loop|) % 0x1000 == |loop|;
    var b := PieceBytes(p) + rest;
    hide U16, FromU16, LoopBytes, ReadLoop;
    assert b[..2] == U16(p.id) && b[2..4] == U16(p.networkId) && b[4..6] == U16(0xF000 + |loop|);
    assert b[6..6 + |loop|] == loop && b[6 + |loop|..] == rest;
  }

  lemma {:induction false} PiecesRead(ps: seq<Piece>)
    requires Small(ps, 0xFFF)
    ensures ReadPieces(Joined(Encoded(ps))) == Some(ps)
  {
    PiecesReadBefore(ps, []);
    assert Joined(Encoded(ps)) + [] == Joined(Encoded(ps)) && ps + [] == ps;
  }

  lemma {:induction false} PiecesReadBefore(ps: seq<Piece>, rest: Bytes)
    requires Small(ps, 0xFFF) && ReadPieces(rest).Some?
    ensures ReadPieces(Joined(Encoded(ps)) + rest) == Some(ps + ReadPieces(rest).value)
    decreases |ps|
  {
    hide Joined, Encoded, LoopBytes, PieceBytes, ReadPieces, U16;
    if ps == [] {
      EncodedNone();
      assert [] + rest == rest && ps + ReadPieces(rest).value == ReadPieces(rest).value;
    } else {
      var n := |ps| - 1;
      EncodedLast(ps);
      PieceReads(ps[n], rest);
      PiecesReadBefore(ps[..n], PieceBytes(ps[n]) + rest);
      assert Joined(Encoded(ps)) + rest == Joined(Encoded(ps[..n])) + (PieceBytes(ps[n]) + rest);
      assert ps[..n] + ([ps[n]] + ReadPieces(rest).value) == ps + ReadPieces(rest).value;
    }
  }

  lemma {:induction false} EncodedNone()
    ensures Joined(Encoded([])) == []
  {
  }

  lemma {:induction false} EncodedLast(ps: seq<Piece>)
    requires Small(ps, 0xFFF) && ps != []
    ensures Small(ps[..|ps| - 1], 0xFFF)
    ensures Joined(Encoded(ps)) == Joined(Encoded(ps[..|ps| - 1])) + PieceBytes(ps[|ps| - 1])
  {
    hide PieceBytes, LoopBytes;
    assert Encoded(ps)[..|ps| - 1] == Encoded(ps[..|ps| - 1]);
  }

  // ---- The pieces of a bouquet ----------------------------------------------------------------------------

  /** Name and linkage, carried by every section. */
  function BouquetLoop(name: Bytes, tr: Transport): (b: Bytes)
    requires |name| <= 0xFF && tr.services != []
    ensures |b| == |name| + 11
  {
    [BOUQUET_NAME_TAG, |name|] + name + DescBytes(Linkage(tr))
  }

  /** A receiver reads the bouquet's loop as its name, and a linkage of the guide's kind to the first service
      of the transport. */
  lemma BouquetReads(name: Bytes, tr: Transport)
    requires |name| <= 0xFF && tr.services != []
    ensures var ds := ReadLoop(BouquetLoop(name, tr));
            && ds.Some? && |ds.value| == 2 && ds.value[0] == Desc(0x47, name)
            && LinksIn(ds.value[1..]) == [Link(tr.id, tr.networkId, tr.services[0].id, 0x91)]
  {
    var d: Descriptor := Desc(0x47, name);
    var ds := [d] + [Linkage(tr)];
    assert ds[1..] == [Linkage(tr)];
    LoopJoins([d], [Linkage(tr)]);
    OneDesc(d);
    OneDesc(Linkage(tr));
    LoopReads(ds);
    LinkageReads(tr);
    hide ReadLoop, LinksIn, Linkage, LoopBytes;
  }

  /** Room for one transport's descriptors beside the bouquet's own. */
  function Budget(name: Bytes): (r: nat)
    requires |name| <= 0xFF
    ensures r >= 736
  {
    PAYLOAD_BUDGET - Head(name) - 6
  }

  function Head(name: Bytes): nat {
    |name| + 15
  }

  function TransportPieces(tr: Transport, budget: nat): (ps: seq<Piece>)
    requires Announceable(tr) && 263 <= budget <= 0xFFF
    ensures Small(ps, budget)
  {
    var loops := PieceLoops(TransportDescs(tr), true, budget);
    PiecesFit(TransportDescs(tr), true, budget);
    PiecesOf(tr, loops)
  }

  ghost predicate AllAnnounceable(ts: seq<Transport>) {
    forall k :: 0 <= k < |ts| ==> Announceable(ts[k])
  }

  function AllPieces(ts: seq<Transport>, budget: nat): (ps: seq<Piece>)
    requires AllAnnounceable(ts) && 263 <= budget <= 0xFFF
    ensures Small(ps, budget)
  {
    if ts == [] then [] else AllPieces(ts[..|ts| - 1], budget) + TransportPieces(ts[|ts| - 1], budget)
  }

  function FirstError(ts: seq<Transport>): Option<SectionError> {
    if ts == [] then None
    else
      var early := FirstError(ts[..|ts| - 1]);
      if early.Some? then early else TransportError(ts[|ts| - 1])
  }

  lemma {:induction false} NoErrorAnnounceable(ts: seq<Transport>)
    requires FirstError(ts).None?
    ensures AllAnnounceable(ts)
  {
    if ts == [] {
    } else {
      NoErrorAnnounceable(ts[..|ts| - 1]);
    }
  }

  lemma {:induction false} ErrorStaysFirst(ts: seq<Transport>, n: nat)
    requires n <= |ts| && FirstError(ts[..n]).Some?
    ensures FirstError(ts) == FirstError(ts[..n])
    decreases |ts|
  {
    if n == |ts| {
      assert ts[..n] == ts;
    } else {
      assert ts[..|ts| - 1][..n] == ts[..n];
      ErrorStaysFirst(ts[..|ts| - 1], n);
    }
  }

  predicate Ascii(name: Bytes) {
    forall k :: 0 <= k < |name| ==> 0x20 <= name[k] <= 0x7E
  }

  /** A piece with its two halves of six bytes fits beside the bouquet loop. */
  lemma {:induction false} EncodedFits(ps: seq<Piece>, name: Bytes)
    requires |name| <= 0xFF && Small(ps, Budget(name))
    ensures Small(ps, 0xFFF)
    ensures forall k :: 0 <= k < |ps| ==> Head(name) + |Encoded(ps)[k]| <= PAYLOAD_BUDGET
  {
    hide LoopBytes;
  }

  function Oks(items: seq<Bytes>): (r: seq<Result<Bytes, SectionError>>)
    ensures |r| == |items|
  {
    seq(|items|, k requires 0 <= k < |items| => Ok(items[k]))
  }

  lemma {:induction false} OksAreFine(items: seq<Bytes>, head: nat)
    requires forall k :: 0 <= k < |items| ==> head + |items[k]| <= PAYLOAD_BUDGET
    ensures FirstTooBig(Oks(items), head).None?
    ensures forall k :: 0 <= k < |items| ==> Oks(items)[k].Ok?
    ensures Values(Oks(items)) == items
  {
    if items == [] {
    } else {
      OksAreFine(items[..|items| - 1], head);
      assert Oks(items)[..|items| - 1] == Oks(items[..|items| - 1]);
    }
  }

  /** One section's payload: the bouquet loop and the transport loop, each behind its length. */
  function BatPayload(bouquet: Bytes, loop: Bytes): Bytes
    requires |bouquet| <= 0xFFF && |loop| <= 0xFFF
  {
    U16(0xF000 + |bouquet|) + bouquet + U16(0xF000 + |loop|) + loop
  }

  // ---- The table -----------------------------------------------------------------------------------------------

  function BatPayloads(bouquet: Bytes, groups: seq<seq<Bytes>>): (r: seq<Bytes>)
    requires |bouquet| <= 0xFFF && forall k :: 0 <= k < |groups| ==> |Joined(groups[k])| <= 0xFFF
    ensures |r| == |groups|
    ensures forall k :: 0 <= k < |r| ==> |r[k]| == |bouquet| + 4 + |Joined(groups[k])|
  {
    seq(|groups|, k requires 0 <= k < |groups| => BatPayload(bouquet, Joined(groups[k])))
  }

  /** The groups the pieces are packed in: nothing is refused for its size. */
  function BatGroups(name: Bytes, ts: seq<Transport>): (groups: seq<seq<Bytes>>)
    requires |name| <= 0xFF && AllAnnounceable(ts)
    ensures Spreads(groups, Encoded(AllPieces(ts, Budget(name))), Head(name))
    ensures Beside(groups, |name| + 11)
    ensures Sectioned(Oks(Encoded(AllPieces(ts, Budget(name)))), Head(name)) ==
            if |groups| > MAX_SECTIONS then Err(TooManySections) else Ok(groups)
  {
    var items := Encoded(AllPieces(ts, Budget(name)));
    EncodedFits(AllPieces(ts, Budget(name)), name);
    OksAreFine(items, Head(name));
    PackingSpreads(items, Head(name));
    SpreadsMeans(Packed(items, Head(name)).All(), items, Head(name));
    LoopsFit(Packed(items, Head(name)).All(), Head(name), items);
    Packed(items, Head(name)).All()
  }

  /** The groups fit their sections beside a bouquet loop of n bytes. */
  ghost predicate Beside(groups: seq<seq<Bytes>>, n: nat) {
    groups != [] && n + 4 <= PAYLOAD_BUDGET && forall k :: 0 <= k < |groups| ==> n + 4 + |Joined(groups[k])| <= PAYLOAD_BUDGET
  }

  function Assembled(bouquetId: Half, version: Byte, bouquet: Bytes, groups: seq<seq<Bytes>>): Result<seq<Bytes>, SectionError>
    requires Beside(groups, |bouquet|)
  {
    if |groups| > MAX_SECTIONS then Err(TooManySections)
    else if version > 31 then Err(VersionTooBig)
    else Ok(Table(BAT_TABLE, bouquetId, version, BatPayloads(bouquet, groups), |groups|))
  }

  /** The table for inputs that can be announced: only the number of sections and the version can
      be refused. No descriptor is too large, no piece overfills a section, no section is too long. */
  function BatTable(bouquetId: Half, version: Byte, name: Bytes, ts: seq<Transport>): Result<seq<Bytes>, SectionError>
    requires |name| <= 0xFF && ts != [] && AllAnnounceable(ts)
  {
    Assembled(bouquetId, version, BouquetLoop(name, ts[0]), BatGroups(name, ts))
  }

  /** BAT's answer. */
  function BatSections(bouquetId: Half, version: Byte, name: Bytes, ts: seq<Transport>): Result<seq<Bytes>, SectionError> {
    if !Ascii(name) then Err(NotAscii)
    else if |name| > 0xFF then Err(NameTooLong)
    else if ts == [] then Err(NoTransports)
    else if ts[0].services == [] then Err(NoService)
    else if FirstError(ts).Some? then Err(FirstError(ts).value)
    else
      NoErrorAnnounceable(ts);
      BatTable(bouquetId, version, name, ts)
  }

  lemma {:induction false} LoopsFit(groups: seq<seq<Bytes>>, head: nat, items: seq<Bytes>)
    requires Spreads(groups, items, head)
    ensures forall k :: 0 <= k < |groups| ==> head + |Joined(groups[k])| <= PAYLOAD_BUDGET
  {
    assert forall k :: 0 <= k < |groups| ==> Fits(groups[k], head);
  }

  // ---- Building it --------------------------------------------------------------------------------------------

  /** The piece bytes of what is left of a transport. */
  function Remaining(tr: Transport, rest: seq<Descriptor>, first: bool, budget: nat): seq<Bytes>
    requires 263 <= budget <= 0xFFF
  {
    PiecesFit(rest, first, budget);
    Encoded(PiecesOf(tr, PieceLoops(rest, first, budget)))
  }

  function Room(first: bool, budget: nat): int {
    if first then budget else budget - SPECIFIER_SIZE
  }

  function NextLoop(rest: seq<Descriptor>, first: bool, budget: nat): seq<Descriptor> {
    (if first then [] else [SPECIFIER]) + rest[..Fit(rest, Room(first, budget))]
  }

  lemma {:induction false} RemainingStep(tr: Transport, rest: seq<Descriptor>, first: bool, budget: nat)
    requires 263 <= budget <= 0xFFF && rest != []
    ensures |LoopBytes(NextLoop(rest, first, budget))| <= budget
    ensures Remaining(tr, rest, first, budget) ==
            [PieceBytes(Piece(tr.id, tr.networkId, NextLoop(rest, first, budget)))]
            + Remaining(tr, rest[Fit(rest, Room(first, budget))..], false, budget)
  {
    var next, later := NextLoop(rest, first, budget), PieceLoops(rest[Fit(rest, Room(first, budget))..], false, budget);
    assert PieceLoops(rest, first, budget) == [next] + later;
    PiecesFit(rest, first, budget);
    PiecesFit(rest[Fit(rest, Room(first, budget))..], false, budget);
    hide LoopBytes, PieceBytes, Fit, PieceLoops, NextLoop, Encoded, PiecesOf;
    assert PieceLoops(rest, first, budget)[0] == next;
    PiecesCons(tr, next, later, budget);
  }

  lemma {:induction false} PiecesCons(tr: Transport, next: seq<Descriptor>, later: seq<seq<Descriptor>>, budget: nat)
    requires budget <= 0xFFF && |LoopBytes(next)| <= budget && Small(PiecesOf(tr, later), budget)
    ensures Small(PiecesOf(tr, [next] + later), budget)
    ensures Encoded(PiecesOf(tr, [next] + later)) ==
            [PieceBytes(Piece(tr.id, tr.networkId, next))] + Encoded(PiecesOf(tr, later))
  {
    hide LoopBytes, PieceBytes;
    var ps := PiecesOf(tr, [next] + later);
    assert ps == [Piece(tr.id, tr.networkId, next)] + PiecesOf(tr, later);
  }

  lemma {:induction false} FitAll(ds: seq<Descriptor>, room: nat)
    requires |LoopBytes(ds)| <= room
    ensures Fit(ds, room) == |ds|
  {
    if ds == [] {
    } else {
      FitAll(ds[1..], room - 2 - |ds[0].body|);
    }
  }

  // One turn of the inner loop.
  method CutOne(tr: Transport, descriptors: Bytes, start: nat, budget: nat, ghost rest: seq<Descriptor>)
      returns (piece: Bytes, end: nat)
    requires start <= |descriptors| && descriptors[start..] == LoopBytes(rest) && 263 <= budget <= 0xFFF && rest != []
    ensures |LoopBytes(NextLoop(rest, start == 0, budget))| <= budget
    ensures piece == PieceBytes(Piece(tr.id, tr.networkId, NextLoop(rest, start == 0, budget)))
    ensures start < end <= |descriptors| && descriptors[end..] == LoopBytes(rest[Fit(rest, Room(start == 0, budget))..])
  {
    hide Fit, LoopBytes, PieceBytes, U16, NextLoop, Remaining;
    ghost var first, n := start == 0, Fit(rest, Room(start == 0, budget));
    var prefix: Bytes := if start > 0 then [SPECIFIER_TAG, 4, 0, 0, 0, 2] else [];
    var limit: nat := Least(start + budget - |prefix|, |descriptors|);
    FitsRoom(rest, limit - start, Room(first, budget));
    end := DescriptorBoundary(descriptors, start, limit, rest);
    RemainingStep(tr, rest, first, budget);
    CutBytes(rest, n, descriptors[start..]);
    assert descriptors[start..end] == descriptors[start..][..end - start];
    NextLoopBytes(rest, first, budget);
    piece := FramePiece(tr, prefix + descriptors[start..end], NextLoop(rest, first, budget));
  }

  lemma {:induction false} NextLoopBytes(rest: seq<Descriptor>, first: bool, budget: nat)
    ensures LoopBytes(NextLoop(rest, first, budget)) ==
            (if first then [] else [SPECIFIER_TAG, 4, 0, 0, 0, 2]) + LoopBytes(rest[..Fit(rest, Room(first, budget))])
  {
    PrefixBytes(rest[..Fit(rest, Room(first, budget))], first);
  }

  // The room a piece has is what is left of the loop or of the budget, whichever is less.
  lemma {:induction false} FitsRoom(rest: seq<Descriptor>, room: nat, full: nat)
    requires rest != [] && full >= 257 && room == Least(full, |LoopBytes(rest)|)
    ensures Fit(rest, room) == Fit(rest, full) > 0
  {
    if full > |LoopBytes(rest)| {
      FitAll(rest, room);
      FitAll(rest, full);
    }
  }

  method FramePiece(tr: Transport, chunk: Bytes, ghost loop: seq<Descriptor>) returns (piece: Bytes)
    requires chunk == LoopBytes(loop) && |chunk| <= 0xFFF
    ensures piece == PieceBytes(Piece(tr.id, tr.networkId, loop))
  {
    LengthField(|chunk|);
    piece := U16(tr.id);
    piece := piece + U16(tr.networkId);
    piece := piece + [0xF0 + |chunk| / 0x100, |chunk| % 0x100];
    piece := piece + chunk;
  }

  lemma {:induction false} LengthField(n: nat)
    requires n <= 0xFFF
    ensures U16(0xF000 + n) == [0xF0 + n / 0x100, n % 0x100]
  {
  }

  lemma {:induction false} CutBytes(rest: seq<Descriptor>, n: nat, bytes: Bytes)
    requires 0 < n <= |rest| && bytes == LoopBytes(rest)
    ensures |LoopBytes(rest[..n])| <= |bytes| && bytes[..|LoopBytes(rest[..n])|] == LoopBytes(rest[..n])
    ensures |LoopBytes(rest[..n])| > 0
  {
    LoopJoins(rest[..n], rest[n..]);
    assert rest[..n] + rest[n..] == rest;
  }

  lemma {:induction false} PrefixBytes(ds: seq<Descriptor>, first: bool)
    ensures LoopBytes((if first then [] else [SPECIFIER]) + ds) ==
            (if first then [] else [SPECIFIER_TAG, 4, 0, 0, 0, 2]) + LoopBytes(ds)
  {
    if first {
      assert [] + ds == ds && [] + LoopBytes(ds) == LoopBytes(ds);
    } else {
      LoopJoins([SPECIFIER], ds);
      OneDesc(SPECIFIER);
    }
  }

  // The inner loop: one transport cut into pieces, a namespace added to all but the first.
  method CutTransport(tr: Transport, descriptors: Bytes, budget: nat) returns (pieces: seq<Bytes>)
    requires Announceable(tr) && descriptors == LoopBytes(TransportDescs(tr)) && 263 <= budget <= 0xFFF
    ensures pieces == Encoded(TransportPieces(tr, budget))
  {
    hide LoopBytes, TransportDescs, PieceBytes, Fit, PieceLoops, NextLoop, Encoded;
    var start := 0;
    pieces := [];
    ghost var rest := TransportDescs(tr);
    ghost var all := Remaining(tr, rest, true, budget);
    assert descriptors[0..] == descriptors && [] + all == all;
    while start < |descriptors| || start == 0
      invariant start <= |descriptors| && descriptors[start..] == LoopBytes(rest)
      invariant start == 0 ==> rest != []
      invariant pieces + Remaining(tr, rest, start == 0, budget) == all
      decreases |descriptors| - start
    {
      if start > 0 { StillSome(rest, descriptors, start); }
      RemainingStep(tr, rest, start == 0, budget);
      ghost var later := rest[Fit(rest, Room(start == 0, budget))..];
      var piece, end := CutOne(tr, descriptors, start, budget, rest);
      assert pieces + ([piece] + Remaining(tr, later, false, budget)) == pieces + [piece] + Remaining(tr, later, false, budget);
      pieces := pieces + [piece];
      start, rest := end, later;
      if start >= |descriptors| { break; }
    }
    assert descriptors[|descriptors|..] == [];
    NothingLeft(tr, rest, budget);
    assert pieces + [] == pieces;
  }

  lemma {:induction false} StillSome(rest: seq<Descriptor>, descriptors: Bytes, start: nat)
    requires start < |descriptors| && descriptors[start..] == LoopBytes(rest)
    ensures rest != []
  {
  }

  lemma {:induction false} NothingLeft(tr: Transport, rest: seq<Descriptor>, budget: nat)
    requires LoopBytes(rest) == [] && 263 <= budget <= 0xFFF
    ensures Remaining(tr, rest, false, budget) == []
  {
  }

  // The outer loop: every transport's descriptors, cut.
  method CutAll(ts: seq<Transport>, budget: nat) returns (r: Result<seq<Bytes>, SectionError>)
    requires 263 <= budget <= 0xFFF
    ensures match FirstError(ts)
            case Some(e) => r == Err(e)
            case None => AllAnnounceable(ts) && r == Ok(Encoded(AllPieces(ts, budget)))
  {
    hide LoopBytes, TransportDescs, TransportPieces, Encoded, TransportError;
    var pieces: seq<Bytes> := [];
    EncodedEmpty(budget);
    for i := 0 to |ts|
      invariant FirstError(ts[..i]).None? && AllAnnounceable(ts[..i])
      invariant pieces == Encoded(AllPieces(ts[..i], budget))
    {
      assert ts[..i + 1][..i] == ts[..i];
      var descriptors := TransportDescriptors(ts[i]);
      if descriptors.Err? {
        ErrorStaysFirst(ts, i + 1);
        return Err(descriptors.error);
      }
      var more := CutTransport(ts[i], descriptors.value, budget);
      EncodedJoins(AllPieces(ts[..i], budget), TransportPieces(ts[i], budget));
      pieces := pieces + more;
    }
    assert ts[..|ts|] == ts;
    r := Ok(pieces);
  }

  lemma {:induction false} EncodedEmpty(budget: nat)
    requires 263 <= budget <= 0xFFF
    ensures Encoded(AllPieces([], budget)) == []
  {
  }

  lemma {:induction false} EncodedJoins(a: seq<Piece>, b: seq<Piece>)
    requires Small(a, 0xFFF) && Small(b, 0xFFF)
    ensures Small(a + b, 0xFFF) && Encoded(a + b) == Encoded(a) + Encoded(b)
  {
    hide LoopBytes, PieceBytes;
  }

  method CheckName(name: Bytes) returns (ok: bool)
    ensures ok == Ascii(name)
  {
    for i := 0 to |name|
      invariant Ascii(name[..i])
    {
      if name[i] < 0x20 || name[i] > 0x7E { return false; }
    }
    ok := true;
  }

  method GroupItems(pieces: seq<Bytes>, head: nat) returns (r: Result<seq<seq<Bytes>>, SectionError>)
    ensures r == Sectioned(Oks(pieces), head)
  {
    r := PackSections(Oks(pieces), head);
  }

  // The last loop's payloads.
  method PayloadsOf(bouquet: Bytes, groups: seq<seq<Bytes>>) returns (payloads: seq<Bytes>)
    requires |bouquet| <= 0xFFF && forall k :: 0 <= k < |groups| ==> |Joined(groups[k])| <= 0xFFF
    ensures payloads == BatPayloads(bouquet, groups)
  {
    hide Joined;
    payloads := [];
    LengthField(|bouquet|);
    for i := 0 to |groups|
      invariant payloads == BatPayloads(bouquet, groups)[..i]
    {
      var tsLoop := JoinAll(groups[i]);
      LengthField(|tsLoop|);
      var payload: Bytes := [0xF0 + |bouquet| / 0x100, |bouquet| % 0x100] + bouquet;
      payload := payload + [0xF0 + |tsLoop| / 0x100, |tsLoop| % 0x100];
      payload := payload + tsLoop;
      payloads := payloads + [payload];
    }
  }

  // The name and the linkage every section repeats.
  method MakeBouquetLoop(name: Bytes, tr: Transport) returns (r: Result<Bytes, SectionError>)
    requires |name| <= 0xFF
    ensures if tr.services == [] then r == Err(NoService) else r == Ok(BouquetLoop(name, tr))
  {
    var bouquetLoop: Bytes := [BOUQUET_NAME_TAG, |name|] + name;
    var linkage := LinkageDescriptor(tr);
    if linkage.Err? { return linkage; }
    r := Ok(bouquetLoop + linkage.value);
  }

  method BAT(bouquetId: Half, version: Byte, name: Bytes, ts: seq<Transport>) returns (r: Result<seq<Bytes>, SectionError>)
    ensures r == BatSections(bouquetId, version, name, ts)
  {
    hide Encoded, AllPieces, FirstError, Ascii, BatTable, BouquetLoop;
    var ascii := CheckName(name);
    if !ascii { return Err(NotAscii); }
    if |name| > 255 { return Err(NameTooLong); }
    if |ts| == 0 { return Err(NoTransports); }
    var bouquetLoop := MakeBouquetLoop(name, ts[0]);
    if bouquetLoop.Err? { return Err(bouquetLoop.error); }
    var head := 2 + |bouquetLoop.value| + 2;
    var pieces := CutAll(ts, PAYLOAD_BUDGET - head - 6);
    if pieces.Err? { return Err(pieces.error); }
    r := FillSections(bouquetId, version, name, ts, bouquetLoop.value, pieces.value);
  }

  // Packing the pieces and numbering the sections.
  method FillSections(bouquetId: Half, version: Byte, name: Bytes, ts: seq<Transport>, bouquetLoop: Bytes, pieces: seq<Bytes>)
      returns (r: Result<seq<Bytes>, SectionError>)
    requires |name| <= 0xFF && ts != [] && AllAnnounceable(ts)
    requires bouquetLoop == BouquetLoop(name, ts[0]) && pieces == Encoded(AllPieces(ts, Budget(name)))
    ensures r == BatTable(bouquetId, version, name, ts)
  {
    ghost var packed := BatGroups(name, ts);
    hide Encoded, AllPieces, Joined, Spreads, Table, BatGroups, Sectioned, BouquetLoop, BatPayloads;
    var groups := GroupItems(pieces, |bouquetLoop| + 4);
    if groups.Err? { return Err(groups.error); }
    SomeSections(packed, Head(name), pieces);
    var payloads := PayloadsOf(bouquetLoop, groups.value);
    r := NumberAll(BAT_TABLE, bouquetId, version, payloads);
  }

  lemma {:induction false} SomeSections(groups: seq<seq<Bytes>>, head: nat, items: seq<Bytes>)
    requires Spreads(groups, items, head)
    ensures groups != []
  {
  }

  // ---- Receiving it -----------------------------------------------------------------------------------------

  /** The transport loop of a bouquet section, and the bouquet's own. */
  function BatLoops(p: Bytes): Option<(Bytes, Bytes)> {
    if |p| < 4 then None
    else
      var n := FromU16(p[0], p[1]) % 0x1000;
      if 4 + n > |p| then None
      else
        var m := FromU16(p[2 + n], p[3 + n]) % 0x1000;
        if 4 + n + m != |p| then None else Some((p[2..2 + n], p[4 + n..]))
  }

  lemma {:induction false} PayloadReads(bouquet: Bytes, loop: Bytes)
    requires |bouquet| <= 0xFFF && |loop| <= 0xFFF
    ensures BatLoops(BatPayload(bouquet, loop)) == Some((bouquet, loop))
  {
    var p, n := BatPayload(bouquet, loop), |bouquet|;
    U16Read(0xF000 + n);
    U16Read(0xF000 + |loop|);
    assert (0xF000 + n) % 0x1000 == n && (0xF000 + |loop|) % 0x1000 == |loop|;
    hide U16, FromU16;
    assert p[..2] == U16(0xF000 + n) && p[2 + n..4 + n] == U16(0xF000 + |loop|);
    assert p[2..2 + n] == bouquet && p[4 + n..] == loop;
  }

  /** What a receiver gathers from the table's sections: the pieces, section after section. A
      section that does not check out, is out of its place or carries another bouquet loop spoils
      the table. */
  function Gather(sections: seq<Bytes>, n: nat, expected: Parsed, bouquet: Bytes): Option<seq<Piece>>
    requires n <= |sections| <= MAX_SECTIONS
  {
    if n == 0 then Some([])
    else
      match Gather(sections, n - 1, expected, bouquet)
      case None => None
      case Some(early) =>
        match Parse(sections[n - 1])
        case None => None
        case Some(p) =>
          if |sections[n - 1]| > MAX_SECTION_LENGTH + 3 || p != expected.(number := n - 1, payload := p.payload) then None
          else
            match BatLoops(p.payload)
            case None => None
            case Some((own, loop)) =>
              if own != bouquet then None
              else
                match ReadPieces(loop)
                case None => None
                case Some(late) => Some(early + late)
  }

  lemma {:induction false} SectionGathers(sections: seq<Bytes>, n: nat, expected: Parsed, bouquet: Bytes, early: seq<Piece>, loop: Bytes, late: seq<Piece>)
    requires 0 < n <= |sections| <= MAX_SECTIONS && Gather(sections, n - 1, expected, bouquet) == Some(early)
    requires |bouquet| <= 0xFFF && |loop| <= 0xFFF
    requires |sections[n - 1]| <= MAX_SECTION_LENGTH + 3
    requires Parse(sections[n - 1]) == Some(expected.(number := n - 1, payload := BatPayload(bouquet, loop)))
    requires ReadPieces(loop) == Some(late)
    ensures Gather(sections, n, expected, bouquet) == Some(early + late)
  {
    PayloadReads(bouquet, loop);
    hide ReadPieces, Parse, BatLoops, BatPayload;
  }

  /** The pieces a receiver gathers are the pieces that were packed, however they were grouped. */
  lemma {:induction false} TableGathers(bouquetId: Half, version: Byte, bouquet: Bytes, groups: seq<seq<Bytes>>, n: nat,
                                        ps: seq<Piece>)
    requires version <= 31 && |bouquet| <= 0xFFF && n <= |groups| <= MAX_SECTIONS && groups != [] && Small(ps, 0xFFF)
    requires forall k :: 0 <= k < |groups| ==> |bouquet| + 4 + |Joined(groups[k])| <= PAYLOAD_BUDGET
    requires Flat(groups[..n]) == Encoded(ps)
    ensures var sections := Table(BAT_TABLE, bouquetId, version, BatPayloads(bouquet, groups), |groups|);
            && |sections| == |groups|
            && Gather(sections, n, Parsed(BAT_TABLE, bouquetId, version, 0, |groups| - 1, []), bouquet) == Some(ps)
    decreases n
  {
    hide Table, Encoded, Gather, Parse, LoopBytes, Joined, Flat, ReadPieces, BatPayload;
    var payloads := BatPayloads(bouquet, groups);
    TableLength(BAT_TABLE, bouquetId, version, payloads, |groups|);
    var sections := Table(BAT_TABLE, bouquetId, version, payloads, |groups|);
    var expected := Parsed(BAT_TABLE, bouquetId, version, 0, |groups| - 1, []);
    if n == 0 {
      NothingGathered(sections, expected, bouquet, groups, ps);
    } else {
      var k := |ps| - |groups[n - 1]|;
      LastGroup(groups, n, ps, k);
      var early, late := ps[..k], ps[k..];
      TableGathers(bouquetId, version, bouquet, groups, n - 1, early);
      TableParses(BAT_TABLE, bouquetId, version, payloads, |groups|, n - 1);
      PiecesRead(late);
      SectionGathers(sections, n, expected, bouquet, early, Joined(groups[n - 1]), late);
      assert early + late == ps;
    }
  }

  lemma {:induction false} NothingGathered(sections: seq<Bytes>, expected: Parsed, bouquet: Bytes, groups: seq<seq<Bytes>>, ps: seq<Piece>)
    requires |sections| <= MAX_SECTIONS && Small(ps, 0xFFF) && Flat(groups[..0]) == Encoded(ps)
    ensures ps == [] && Gather(sections, 0, expected, bouquet) == Some(ps)
  {
    assert groups[..0] == [] && |ps| == |Encoded(ps)|;
  }

  lemma {:induction false} LastGroup(groups: seq<seq<Bytes>>, n: nat, ps: seq<Piece>, k: int)
    requires 0 < n <= |groups| && Small(ps, 0xFFF) && Flat(groups[..n]) == Encoded(ps) && k == |ps| - |groups[n - 1]|
    ensures 0 <= k <= |ps| && Small(ps[..k], 0xFFF) && Small(ps[k..], 0xFFF)
    ensures Flat(groups[..n - 1]) == Encoded(ps[..k]) && groups[n - 1] == Encoded(ps[k..])
  {
    hide LoopBytes, PieceBytes;
    assert groups[..n][..n - 1] == groups[..n - 1];
    assert Flat(groups[..n]) == Flat(groups[..n - 1]) + groups[n - 1];
    assert |Encoded(ps)| == |ps|;
    assert Encoded(ps)[..k] == Encoded(ps[..k]) && Encoded(ps)[k..] == Encoded(ps[k..]);
  }

  lemma {:induction false} AssembledCarries(bouquetId: Half, version: Byte, bouquet: Bytes, groups: seq<seq<Bytes>>, ps: seq<Piece>)
    requires Beside(groups, |bouquet|) && Small(ps, 0xFFF) && Flat(groups) == Encoded(ps)
    requires Assembled(bouquetId, version, bouquet, groups).Ok?
    ensures var sections := Assembled(bouquetId, version, bouquet, groups).value;
            && 0 < |sections| <= 256
            && Gather(sections, |sections|, Parsed(0x4A, bouquetId, version, 0, |sections| - 1, []), bouquet) == Some(ps)
  {
    assert groups[..|groups|] == groups;
    TableGathers(bouquetId, version, bouquet, groups, |groups|, ps);
    hide Table, BatPayloads, Gather, Encoded, Flat;
  }

  lemma {:induction false} BatTableCarries(bouquetId: Half, version: Byte, name: Bytes, ts: seq<Transport>)
    requires |name| <= 0xFF && ts != [] && AllAnnounceable(ts) && BatTable(bouquetId, version, name, ts).Ok?
    ensures var sections := BatTable(bouquetId, version, name, ts).value;
            && 0 < |sections| <= 256
            && Gather(sections, |sections|, Parsed(0x4A, bouquetId, version, 0, |sections| - 1, []),
                      BouquetLoop(name, ts[0])) == Some(AllPieces(ts, Budget(name)))
  {
    assert Announceable(ts[0]);
    hide AllPieces, BatGroups, Gather, Assembled, BouquetLoop, Encoded, Spreads, Beside;
    var groups, ps := BatGroups(name, ts), AllPieces(ts, Budget(name));
    SpreadsMeans(groups, Encoded(ps), Head(name));
    AssembledCarries(bouquetId, version, BouquetLoop(name, ts[0]), groups, ps);
  }

  /** Every bouquet table that is built can be received whole: each section is within its limit,
      checks out, is in its place and repeats the bouquet's loop, and together they hold the
      pieces of every transport, in order. */
  lemma {:induction false} BatCarriesEverything(bouquetId: Half, version: Byte, name: Bytes, ts: seq<Transport>)
    requires BatSections(bouquetId, version, name, ts).Ok?
    ensures |name| <= 0xFF && ts != [] && AllAnnounceable(ts)
    ensures var sections := BatSections(bouquetId, version, name, ts).value;
            && 0 < |sections| <= 256
            && Gather(sections, |sections|, Parsed(0x4A, bouquetId, version, 0, |sections| - 1, []),
                      BouquetLoop(name, ts[0])) == Some(AllPieces(ts, Budget(name)))
  {
    hide FirstError, AllPieces, Ascii, Gather, BouquetLoop, BatTable, Announceable;
    NoErrorAnnounceable(ts);
    BatTableCarries(bouquetId, version, name, ts);
  }

  lemma {:induction false} SpreadsMeans(groups: seq<seq<Bytes>>, items: seq<Bytes>, head: nat)
    requires Spreads(groups, items, head)
    ensures groups != [] && Flat(groups) == items
  {
  }

  function LoopsIn(ps: seq<Piece>): (r: seq<seq<Descriptor>>)
    ensures |r| == |ps|
  {
    seq(|ps|, k requires 0 <= k < |ps| => ps[k].loop)
  }

  /** A transport's pieces, the injected namespaces taken away, are exactly its descriptors; and
      the guest, walking each piece on its own, ends up with the whole line-up. */
  lemma {:induction false} TransportArrivesWhole(tr: Transport, budget: nat)
    requires Announceable(tr) && 263 <= budget <= 0xFFF
    ensures var ps := TransportPieces(tr, budget);
            && (forall k :: 0 <= k < |ps| ==> ps[k].id == tr.id && ps[k].networkId == tr.networkId)
            && Stripped(LoopsIn(ps), true) == TransportDescs(tr)
            && SeenAll(LoopsIn(ps)) == AsSeen(tr.lineup)
  {
    var loops := PieceLoops(TransportDescs(tr), true, budget);
    StrippedRejoins(TransportDescs(tr), true, budget);
    GuestSeesLineup(tr, budget);
    hide PieceLoops, TransportDescs, AsSeen;
    assert LoopsIn(TransportPieces(tr, budget)) == loops;
  }

  /** A bouquet's table is refused for its inputs, for needing more sections than can be numbered,
      or for its version: nothing else. */
  lemma {:induction false} BatFailsOnlyFor(bouquetId: Half, version: Byte, name: Bytes, ts: seq<Transport>)
    requires Ascii(name) && |name| <= 0xFF && ts != [] && AllAnnounceable(ts)
    ensures BatSections(bouquetId, version, name, ts).Ok? <==> |BatGroups(name, ts)| <= 256 && version <= 31
  {
    assert ts[0].services != [] by { assert Announceable(ts[0]); }
    hide Ascii, FirstError, BatGroups, BatTable, AllAnnounceable;
    AnnounceableNoError(ts);
    BatTableOk(bouquetId, version, name, ts);
  }

  lemma {:induction false} BatTableOk(bouquetId: Half, version: Byte, name: Bytes, ts: seq<Transport>)
    requires |name| <= 0xFF && ts != [] && AllAnnounceable(ts)
    ensures BatTable(bouquetId, version, name, ts).Ok? <==> |BatGroups(name, ts)| <= 256 && version <= 31
  {
    hide BatGroups, Table, BouquetLoop, Beside, Spreads, AllAnnounceable, Encoded, BatPayloads;
  }

  lemma {:induction false} AnnounceableNoError(ts: seq<Transport>)
    requires AllAnnounceable(ts)
    ensures FirstError(ts).None?
  {
    if ts == [] {
    } else {
      AnnounceableNoError(ts[..|ts| - 1]);
      assert Announceable(ts[|ts| - 1]);
    }
  }

  // ---- From the sections to the guest's line-ups ----------------------------------------------------------------

  /** The pieces announced under one transport's id, in order. */
  function OfTransport(ps: seq<Piece>, id: Half, networkId: Half): seq<Piece> {
    if ps == [] then []
    else
      var n := |ps| - 1;
      OfTransport(ps[..n], id, networkId) + if ps[n].id == id && ps[n].networkId == networkId then [ps[n]] else []
  }

  /** The entries of every transport with this id, in order, as the guest has them. */
  function LineupsOf(ts: seq<Transport>, id: Half, networkId: Half): seq<LineupEntry> {
    if ts == [] then []
    else
      var n := |ts| - 1;
      LineupsOf(ts[..n], id, networkId) + if ts[n].id == id && ts[n].networkId == networkId then AsSeen(ts[n].lineup) else []
  }

  lemma {:induction false} OfTransportJoins(a: seq<Piece>, b: seq<Piece>, id: Half, networkId: Half)
    ensures OfTransport(a + b, id, networkId) == OfTransport(a, id, networkId) + OfTransport(b, id, networkId)
    decreases |b|
  {
    if b == [] {
      assert a + b == a;
    } else {
      var n := |b| - 1;
      OfTransportJoins(a, b[..n], id, networkId);
      assert (a + b)[..|a + b| - 1] == a + b[..n];
    }
  }

  predicate Announces(ps: seq<Piece>, tr: Transport) {
    forall k :: 0 <= k < |ps| ==> ps[k].id == tr.id && ps[k].networkId == tr.networkId
  }

  lemma {:induction false} OfItsOwn(ps: seq<Piece>, tr: Transport, id: Half, networkId: Half)
    requires Announces(ps, tr)
    ensures OfTransport(ps, id, networkId) == if tr.id == id && tr.networkId == networkId then ps else []
  {
    if ps == [] {
    } else {
      var n := |ps| - 1;
      assert ps[n].id == tr.id && ps[n].networkId == tr.networkId && Announces(ps[..n], tr);
      hide Announces;
      OfItsOwn(ps[..n], tr, id, networkId);
      assert ps[..n] + [ps[n]] == ps;
    }
  }

  lemma {:induction false} SeenAllOne(loop: seq<Descriptor>, rest: seq<seq<Descriptor>>)
    ensures SeenAll([loop] + rest) == Seen(loop, false) + SeenAll(rest)
  {
    hide Seen;
    assert ([loop] + rest)[1..] == rest;
  }

  lemma {:induction false} SeenAllJoins(a: seq<seq<Descriptor>>, b: seq<seq<Descriptor>>)
    ensures SeenAll(a + b) == SeenAll(a) + SeenAll(b)
  {
    hide Seen, SeenAll;
    if a == [] {
      assert a + b == b;
      NothingSeenAll(b);
    } else {
      SeenAllJoins(a[1..], b);
      assert a + b == [a[0]] + (a[1..] + b) && [a[0]] + a[1..] == a;
      SeenAllOne(a[0], a[1..] + b);
      SeenAllOne(a[0], a[1..]);
    }
  }

  lemma NothingSeenAll(b: seq<seq<Descriptor>>)
    ensures SeenAll([]) == [] && SeenAll([]) + SeenAll(b) == SeenAll(b)
  {
    hide Seen;
  }

  lemma {:induction false} OwnPiecesShow(tr: Transport, budget: nat, id: Half, networkId: Half)
    requires Announceable(tr) && 263 <= budget <= 0xFFF
    ensures SeenAll(LoopsIn(OfTransport(TransportPieces(tr, budget), id, networkId))) ==
            if tr.id == id && tr.networkId == networkId then AsSeen(tr.lineup) else []
  {
    var own := TransportPieces(tr, budget);
    hide SeenAll, Announceable, AsSeen, OfTransport, TransportPieces, LoopsIn;
    TransportArrivesWhole(tr, budget);
    assert Announces(own, tr);
    OfItsOwn(own, tr, id, networkId);
    NothingShown(id, networkId);
  }

  lemma {:induction false} ShownJoins(a: seq<Piece>, b: seq<Piece>, id: Half, networkId: Half)
    ensures SeenAll(LoopsIn(OfTransport(a + b, id, networkId))) ==
            SeenAll(LoopsIn(OfTransport(a, id, networkId))) + SeenAll(LoopsIn(OfTransport(b, id, networkId)))
  {
    hide SeenAll, OfTransport;
    OfTransportJoins(a, b, id, networkId);
    var x, y := OfTransport(a, id, networkId), OfTransport(b, id, networkId);
    assert LoopsIn(x + y) == LoopsIn(x) + LoopsIn(y);
    SeenAllJoins(LoopsIn(x), LoopsIn(y));
  }

  lemma {:induction false} PiecesShowLineups(ts: seq<Transport>, budget: nat, id: Half, networkId: Half)
    requires AllAnnounceable(ts) && 263 <= budget <= 0xFFF
    ensures SeenAll(LoopsIn(OfTransport(AllPieces(ts, budget), id, networkId))) == LineupsOf(ts, id, networkId)
  {
    hide TransportPieces, SeenAll, Announceable, AsSeen, OfTransport, LoopsIn;
    if ts == [] {
      NothingShown(id, networkId);
    } else {
      var n := |ts| - 1;
      PiecesShowLineups(ts[..n], budget, id, networkId);
      OwnPiecesShow(ts[n], budget, id, networkId);
      ShownJoins(AllPieces(ts[..n], budget), TransportPieces(ts[n], budget), id, networkId);
    }
  }

  lemma NothingShown(id: Half, networkId: Half)
    ensures SeenAll(LoopsIn([])) == [] && OfTransport([], id, networkId) == []
  {
  }

  /** A receiver gathers pieces from the sections in which the guest, walking each on its own, sees the whole
      line-up announced under the transport's id, in order and nothing else. */
  ghost predicate Shows(sections: seq<Bytes>, bouquetId: Half, version: Byte, bouquet: Bytes, lineup: seq<LineupEntry>, id: Half,
                        networkId: Half)
  {
    && 0 < |sections| <= 256
    && var pieces := Gather(sections, |sections|, Parsed(0x4A, bouquetId, version, 0, |sections| - 1, []), bouquet);
       pieces.Some? && SeenAll(LoopsIn(OfTransport(pieces.value, id, networkId))) == lineup
  }

  /** The sections of any bouquet table that is built show every line-up. */
  lemma {:induction false} BatShowsLineups(bouquetId: Half, version: Byte, name: Bytes, ts: seq<Transport>, id: Half, networkId: Half)
    requires BatSections(bouquetId, version, name, ts).Ok?
    ensures |name| <= 0xFF && ts != [] && AllAnnounceable(ts)
    ensures Shows(BatSections(bouquetId, version, name, ts).value, bouquetId, version, BouquetLoop(name, ts[0]),
                  LineupsOf(ts, id, networkId), id, networkId)
  {
    hide BatSections, Gather, AllPieces, LineupsOf, OfTransport, SeenAll, LoopsIn, BouquetLoop;
    BatCarriesEverything(bouquetId, version, name, ts);
    PiecesShowLineups(ts, Budget(name), id, networkId);
  }
}
