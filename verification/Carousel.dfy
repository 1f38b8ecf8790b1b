// internal/broadcast/carousel.go: which tables go on air when. Six rungs, each on its own period
// and held back until the rung below has gone out and settled. Instants are uint64 and their sums
// wrap. The sources are whatever they are: a world that answers each question and changes by it.
module Carousel {
  import opened Emissions
  import opened Words

  type Instant = x: int | 0 <= x < 0x1_0000_0000_0000_0000

  datatype Rung = Clock | Lineup | Titles | Events | Programmes | Index
  datatype Answer = Says(sections: seq<Emission>) | Fails

  /** The content sources: what the world says to a rung at an instant, and the world after. The
      last three rungs are optional. */
  datatype Source<!W> = Source(ask: (W, Rung, Instant) -> (Answer, W), events: bool, programmes: bool, index: bool)

  datatype Schedule = Schedule(clockPeriod: Instant, lineupPeriod: Instant, titlePeriod: Instant, eventPeriod: Instant,
                               programmePeriod: Instant, indexPeriod: Instant, clockSettle: Instant, lineupSettle: Instant,
                               titleSettle: Instant)

  datatype State<W> = State(started: bool, nextClock: Instant, nextLineup: Instant, nextTitles: Instant, nextEvents: Instant,
                            nextProgrammes: Instant, nextIndex: Instant, clockedAt: Instant, lineupAt: Instant,
                            titledAt: Instant, sentClock: bool, sentLineup: bool, sentTitles: bool, world: W)

  /** Go's uint64 addition. */
  function Plus(a: Instant, b: Instant): Instant {
    (a + b) % 0x1_0000_0000_0000_0000
  }

  // ---- One wave -----------------------------------------------------------------------------------------

  /** Whether Wave asks this rung's source at now. */
  predicate Due<W>(sch: Schedule, src: Source<W>, s: State<W>, now: Instant, rung: Rung) {
    match rung
    case Clock => now >= s.nextClock
    case Lineup => s.sentClock && now >= Plus(s.clockedAt, sch.clockSettle) && now >= s.nextLineup
    case Titles => s.sentLineup && now >= Plus(s.lineupAt, sch.lineupSettle) && now >= s.nextTitles
    case Events => src.events && s.sentLineup && now >= Plus(s.lineupAt, sch.lineupSettle) && now >= s.nextEvents
    case Programmes => src.programmes && s.sentLineup && now >= Plus(s.lineupAt, sch.lineupSettle) && now >= s.nextProgrammes
    case Index => src.index && s.sentTitles && now >= Plus(s.titledAt, sch.titleSettle) && now >= s.nextIndex
  }

  /** The schedule moved past a rung that answered, and its first nonempty answer remembered. */
  function Advance<W>(sch: Schedule, s: State<W>, now: Instant, rung: Rung, spoke: bool): State<W> {
    match rung
    case Clock =>
      var t := s.(nextClock := Plus(now, sch.clockPeriod));
      if !s.sentClock && spoke then t.(sentClock := true, clockedAt := now) else t
    case Lineup =>
      var t := s.(nextLineup := Plus(now, sch.lineupPeriod));
      if !s.sentLineup && spoke then t.(sentLineup := true, lineupAt := now) else t
    case Titles =>
      var t := s.(nextTitles := Plus(now, sch.titlePeriod));
      if !s.sentTitles && spoke then t.(sentTitles := true, titledAt := now) else t
    case Events => s.(nextEvents := Plus(now, sch.eventPeriod))
    case Programmes => s.(nextProgrammes := Plus(now, sch.programmePeriod))
    case Index => s.(nextIndex := Plus(now, sch.indexPeriod))
  }

  /** One question put to a source, and its answer. */
  datatype Ask = Ask(rung: Rung, at: Instant, answer: Answer)

  /** A wave so far: what it carries, the state it has left, and every question asked. */
  datatype Progress<W> = Going(wave: seq<Emission>, s: State<W>, asks: seq<Ask>) | Broken(rung: Rung, s: State<W>, asks: seq<Ask>)

  function Turn<W>(sch: Schedule, src: Source<W>, p: Progress<W>, now: Instant, rung: Rung): Progress<W> {
    if p.Broken? || !Due(sch, src, p.s, now, rung) then p
    else
      var (answer, world) := src.ask(p.s.world, rung, now);
      var asks := p.asks + [Ask(rung, now, answer)];
      match answer
      case Fails => Broken(rung, p.s.(world := world), asks)
      case Says(sections) =>
        Going(p.wave + sections, Advance(sch, p.s.(world := world), now, rung, sections != []), asks)
  }

  function Started<W>(s: State<W>, now: Instant): State<W> {
    if s.started then s else s.(started := true, nextClock := now, nextLineup := now, nextTitles := now)
  }

  /** Wave: the rungs in transmission order. */
  function WaveAt<W>(sch: Schedule, src: Source<W>, s: State<W>, now: Instant): Progress<W> {
    var p := Going([], Started(s, now), []);
    var p := Turn(sch, src, p, now, Clock);
    var p := Turn(sch, src, p, now, Lineup);
    var p := Turn(sch, src, p, now, Titles);
    var p := Turn(sch, src, p, now, Events);
    var p := Turn(sch, src, p, now, Programmes);
    Turn(sch, src, p, now, Index)
  }

  function Later(a: Instant, b: Instant): Instant {
    if a > b then a else b
  }

  function Sooner(a: Instant, b: Instant): Instant {
    if a < b then a else b
  }

  /** NextDue over the clock, the line-up and the titles. */
  function LowerDue<W>(sch: Schedule, s: State<W>): Instant {
    var due := s.nextClock;
    var due := if s.sentClock then Sooner(due, Later(s.nextLineup, Plus(s.clockedAt, sch.clockSettle))) else due;
    if s.sentLineup then Sooner(due, Later(s.nextTitles, Plus(s.lineupAt, sch.lineupSettle))) else due
  }

  /** NextDue: the earliest instant at which a rung other than the events could be asked. */
  function NextDueOf<W>(sch: Schedule, src: Source<W>, s: State<W>): Instant {
    if !s.started then 0
    else
      var due := LowerDue(sch, s);
      var due := if src.index && s.sentTitles then Sooner(due, Later(s.nextIndex, Plus(s.titledAt, sch.titleSettle))) else due;
      if src.programmes && s.sentLineup then Sooner(due, Later(s.nextProgrammes, Plus(s.lineupAt, sch.lineupSettle))) else due
  }

  // ---- NextDue and Wave agree ---------------------------------------------------------------------------

  /** Before NextDue no source but the events' is asked, and at or after it one is. */
  lemma {:induction false} NextDueIsExact<W>(sch: Schedule, src: Source<W>, s: State<W>, now: Instant)
    requires s.started
    ensures now < NextDueOf(sch, src, s) <==> forall rung :: rung != Events ==> !Due(sch, src, s, now, rung)
  {
    if forall rung :: rung != Events ==> !Due(sch, src, s, now, rung) {
      assert !Due(sch, src, s, now, Clock) && !Due(sch, src, s, now, Lineup) && !Due(sch, src, s, now, Titles);
      assert !Due(sch, src, s, now, Programmes) && !Due(sch, src, s, now, Index);
    }
  }

  /** A wave before NextDue, with no event source, is silence: nothing is asked, nothing is sent
      and nothing changes. */
  lemma {:induction false} EarlyWaveIsSilent<W>(sch: Schedule, src: Source<W>, s: State<W>, now: Instant)
    requires now < NextDueOf(sch, src, s) && !src.events
    ensures WaveAt(sch, src, s, now) == Going([], s, [])
  {
    NextDueIsExact(sch, src, s, now);
    hide NextDueOf, Advance;
    assert forall rung :: !Due(sch, src, s, now, rung);
  }

  /** With an event source a wave before NextDue asks at most the events, sends only what they say
      and moves only their schedule. */
  lemma {:induction false} EarlyWaveIsEvents<W>(sch: Schedule, src: Source<W>, s: State<W>, now: Instant)
    requires now < NextDueOf(sch, src, s)
    ensures WaveAt(sch, src, s, now) == Turn(sch, src, Going([], s, []), now, Events)
    ensures var p := WaveAt(sch, src, s, now);
            && p.s == s.(nextEvents := p.s.nextEvents, world := p.s.world)
            && forall k :: 0 <= k < |p.asks| ==> p.asks[k].rung == Events
  {
    assert s.started;
    hide NextDueOf;
    NextDueIsExact(sch, src, s, now);
    var p := Turn(sch, src, Going([], s, []), now, Events);
    EventsMoveNothingElse(sch, src, s, now);
    assert forall rung :: rung != Events ==> !Due(sch, src, p.s, now, rung) == !Due(sch, src, s, now, rung);
    hide Due, Advance;
  }

  lemma {:induction false} EventsMoveNothingElse<W>(sch: Schedule, src: Source<W>, s: State<W>, now: Instant)
    ensures var p := Turn(sch, src, Going([], s, []), now, Events);
            && p.s == s.(nextEvents := p.s.nextEvents, world := p.s.world)
            && forall k :: 0 <= k < |p.asks| ==> p.asks[k].rung == Events
  {
    hide Due;
  }

  /** So a wave skipped because NextDue has not come is a loss exactly when the events were due. */
  lemma {:induction false} EarlyWaveIsSilentIff<W>(sch: Schedule, src: Source<W>, s: State<W>, now: Instant)
    requires now < NextDueOf(sch, src, s)
    ensures WaveAt(sch, src, s, now) == Going([], s, []) <==> !Due(sch, src, s, now, Events)
  {
    EarlyWaveIsEvents(sch, src, s, now);
    TurnLeaves(sch, src, Going([], s, []), now, Events);
    hide WaveAt, NextDueOf, Due, Advance;
  }

  /** A wave at or after NextDue asks something. */
  lemma {:induction false} DueWaveAsks<W>(sch: Schedule, src: Source<W>, s: State<W>, now: Instant)
    requires s.started && now >= NextDueOf(sch, src, s)
    ensures WaveAt(sch, src, s, now).asks != []
  {
    NextDueIsExact(sch, src, s, now);
    var rung :| rung != Events && Due(sch, src, s, now, rung);
    hide NextDueOf, Due;
    TurnsLeaveAsks(sch, src, s, now);
  }

  lemma {:induction false} TurnLeaves<W>(sch: Schedule, src: Source<W>, p: Progress<W>, now: Instant, rung: Rung)
    ensures var q := Turn(sch, src, p, now, rung);
            && |q.asks| >= |p.asks|
            && (|q.asks| == |p.asks| ==> q == p && (p.Going? ==> !Due(sch, src, p.s, now, rung)))
  {
    hide Due, Advance;
  }

  /** If a wave asks nothing then nothing was due. */
  lemma {:induction false} TurnsLeaveAsks<W>(sch: Schedule, src: Source<W>, s: State<W>, now: Instant)
    requires s.started
    ensures WaveAt(sch, src, s, now).asks == [] ==> forall rung :: !Due(sch, src, s, now, rung)
  {
    hide Due, Advance, Turn;
    var p0 := Going([], s, []);
    var p1 := Turn(sch, src, p0, now, Clock);
    var p2 := Turn(sch, src, p1, now, Lineup);
    var p3 := Turn(sch, src, p2, now, Titles);
    var p4 := Turn(sch, src, p3, now, Events);
    var p5 := Turn(sch, src, p4, now, Programmes);
    TurnLeaves(sch, src, p0, now, Clock);
    TurnLeaves(sch, src, p1, now, Lineup);
    TurnLeaves(sch, src, p2, now, Titles);
    TurnLeaves(sch, src, p3, now, Events);
    TurnLeaves(sch, src, p4, now, Programmes);
    TurnLeaves(sch, src, p5, now, Index);
    if WaveAt(sch, src, s, now).asks == [] {
      forall rung: Rung ensures !Due(sch, src, s, now, rung) {
        match rung case Clock => case Lineup => case Titles => case Events => case Programmes => case Index =>
      }
    }
  }

  // ---- Runs -------------------------------------------------------------------------------------------------

  /** What goes out over a run: waves with something in them, and failures. */
  datatype Output = Sent(at: Instant, wave: seq<Emission>) | Failed(at: Instant, rung: Rung)

  function OutputOf<W>(p: Progress<W>, now: Instant): seq<Output> {
    match p
    case Broken(rung, _, _) => [Failed(now, rung)]
    case Going(wave, _, _) => if wave == [] then [] else [Sent(now, wave)]
  }

  datatype Run<W> = Run(s: State<W>, output: seq<Output>, asks: seq<Ask>)

  function Then<W>(r: Run<W>, p: Progress<W>, now: Instant): Run<W> {
    Run(p.s, r.output + OutputOf(p, now), r.asks + p.asks)
  }

  /** Wave called at every instant. */
  function Polled<W>(sch: Schedule, src: Source<W>, s: State<W>, instants: seq<Instant>): Run<W> {
    if instants == [] then Run(s, [], [])
    else
      var n := |instants| - 1;
      var r := Polled(sch, src, s, instants[..n]);
      Then(r, WaveAt(sch, src, r.s, instants[n]), instants[n])
  }

  /** Wave called only when NextDue has been reached, as Pump does. */
  function Pumped<W>(sch: Schedule, src: Source<W>, s: State<W>, instants: seq<Instant>): Run<W> {
    if instants == [] then Run(s, [], [])
    else
      var n := |instants| - 1;
      var r := Pumped(sch, src, s, instants[..n]);
      if instants[n] < NextDueOf(sch, src, r.s) then r else Then(r, WaveAt(sch, src, r.s, instants[n]), instants[n])
  }

  /** Without an event source nothing is lost by waiting for NextDue: every wave goes out at the
      same instant with the same sections, every failure happens at the same instant, the sources
      are asked the same questions, and the carousel ends in the same state. */
  lemma {:induction false} PumpingIsPolling<W>(sch: Schedule, src: Source<W>, s: State<W>, instants: seq<Instant>)
    requires !src.events
    ensures Pumped(sch, src, s, instants) == Polled(sch, src, s, instants)
  {
    if instants == [] {
    } else {
      var n := |instants| - 1;
      PumpingIsPolling(sch, src, s, instants[..n]);
      var r := Polled(sch, src, s, instants[..n]);
      if instants[n] < NextDueOf(sch, src, r.s) {
        EarlyWaveIsSilent(sch, src, r.s, instants[n]);
        assert r.output + [] == r.output && r.asks + [] == r.asks;
      }
      hide WaveAt, NextDueOf;
    }
  }

  /** At the k-th instant of the polled run the events were due and nothing else was. */
  ghost predicate Missed<W>(sch: Schedule, src: Source<W>, s: State<W>, instants: seq<Instant>, k: nat)
    requires k < |instants|
  {
    var t := Polled(sch, src, s, instants[..k]).s;
    instants[k] < NextDueOf(sch, src, t) && Due(sch, src, t, instants[k], Events)
  }

  /** The two runs have asked different questions, or the pumped one is waiting past one that the polled
      one has asked. */
  ghost predicate Apart<W>(sch: Schedule, src: Source<W>, pumped: Run<W>, polled: Run<W>) {
    exists i: nat :: ApartAt(sch, src, pumped, polled, i)
  }

  ghost predicate ApartAt<W>(sch: Schedule, src: Source<W>, pumped: Run<W>, polled: Run<W>, i: nat) {
    && i < |polled.asks|
    && if i < |pumped.asks| then pumped.asks[i] != polled.asks[i]
       else i == |pumped.asks| && polled.asks[i].at < NextDueOf(sch, src, pumped.s)
  }

  lemma {:induction false} TurnAsksNow<W>(sch: Schedule, src: Source<W>, p: Progress<W>, now: Instant, rung: Rung)
    requires forall k :: 0 <= k < |p.asks| ==> p.asks[k].at == now
    ensures var q := Turn(sch, src, p, now, rung); forall k :: 0 <= k < |q.asks| ==> q.asks[k].at == now
  {
    hide Due, Advance;
  }

  lemma {:induction false} WaveAsksNow<W>(sch: Schedule, src: Source<W>, s: State<W>, now: Instant)
    ensures var p := WaveAt(sch, src, s, now); forall k :: 0 <= k < |p.asks| ==> p.asks[k].at == now
  {
    hide Turn;
    var p0 := Going([], Started(s, now), []);
    TurnAsksNow(sch, src, p0, now, Clock);
    var p1 := Turn(sch, src, p0, now, Clock);
    TurnAsksNow(sch, src, p1, now, Lineup);
    var p2 := Turn(sch, src, p1, now, Lineup);
    TurnAsksNow(sch, src, p2, now, Titles);
    var p3 := Turn(sch, src, p2, now, Titles);
    TurnAsksNow(sch, src, p3, now, Events);
    var p4 := Turn(sch, src, p3, now, Events);
    TurnAsksNow(sch, src, p4, now, Programmes);
    var p5 := Turn(sch, src, p4, now, Programmes);
    TurnAsksNow(sch, src, p5, now, Index);
  }

  /** Runs that have come apart stay apart. */
  lemma {:induction false} ApartStays<W>(sch: Schedule, src: Source<W>, pumped: Run<W>, polled: Run<W>, now: Instant)
    requires Apart(sch, src, pumped, polled)
    ensures var later := Then(polled, WaveAt(sch, src, polled.s, now), now);
            Apart(sch, src, if now < NextDueOf(sch, src, pumped.s) then pumped
                            else Then(pumped, WaveAt(sch, src, pumped.s, now), now), later)
  {
    var i: nat :| ApartAt(sch, src, pumped, polled, i);
    var later := Then(polled, WaveAt(sch, src, polled.s, now), now);
    if now < NextDueOf(sch, src, pumped.s) {
      assert ApartAt(sch, src, pumped, later, i);
    } else {
      assert i == |pumped.asks| ==> pumped.s.started;
      if pumped.s.started { DueWaveAsks(sch, src, pumped.s, now); }
      WaveAsksNow(sch, src, pumped.s, now);
      hide WaveAt, NextDueOf, OutputOf;
      assert ApartAt(sch, src, Then(pumped, WaveAt(sch, src, pumped.s, now), now), later, i);
    }
  }

  /** A wave skipped with events due sets the runs apart. */
  lemma {:induction false} MissingSetsApart<W>(sch: Schedule, src: Source<W>, r: Run<W>, now: Instant)
    requires now < NextDueOf(sch, src, r.s) && Due(sch, src, r.s, now, Events)
    ensures Apart(sch, src, r, Then(r, WaveAt(sch, src, r.s, now), now))
  {
    EarlyWaveIsEvents(sch, src, r.s, now);
    var p := Turn(sch, src, Going([], r.s, []), now, Events);
    assert p.asks[0].at == now by { hide NextDueOf, WaveAt; }
    hide WaveAt, NextDueOf, Due, Turn;
    assert ApartAt(sch, src, r, Then(r, p, now), |r.asks|);
  }

  lemma {:induction false} PumpingFollows<W>(sch: Schedule, src: Source<W>, s: State<W>, instants: seq<Instant>)
    ensures var pumped, polled := Pumped(sch, src, s, instants), Polled(sch, src, s, instants);
            if forall k :: 0 <= k < |instants| ==> !Missed(sch, src, s, instants, k) then pumped == polled
            else Apart(sch, src, pumped, polled)
  {
    hide WaveAt, NextDueOf, Due, Apart, OutputOf;
    if instants == [] {
      assert Pumped(sch, src, s, []) == Polled(sch, src, s, []);
    } else {
      var n := |instants| - 1;
      var r, now := Polled(sch, src, s, instants[..n]), instants[n];
      PumpingFollows(sch, src, s, instants[..n]);
      forall k | 0 <= k < n ensures Missed(sch, src, s, instants[..n], k) == Missed(sch, src, s, instants, k) {
        assert instants[..n][..k] == instants[..k];
      }
      if exists k :: 0 <= k < n && Missed(sch, src, s, instants, k) {
        ApartStays(sch, src, Pumped(sch, src, s, instants[..n]), r, now);
      } else if now < NextDueOf(sch, src, r.s) {
        if Due(sch, src, r.s, now, Events) {
          assert Missed(sch, src, s, instants, n);
          MissingSetsApart(sch, src, r, now);
        } else {
          SkippingIsSilent(sch, src, r, now);
        }
      }
    }
  }

  lemma {:induction false} SkippingIsSilent<W>(sch: Schedule, src: Source<W>, r: Run<W>, now: Instant)
    requires now < NextDueOf(sch, src, r.s) && !Due(sch, src, r.s, now, Events)
    ensures Then(r, WaveAt(sch, src, r.s, now), now) == r
  {
    EarlyWaveIsSilentIff(sch, src, r.s, now);
    hide WaveAt, NextDueOf, Due;
    assert r.output + [] == r.output && r.asks + [] == r.asks;
  }

  /** With an event source as well: pumping is polling, over a whole run, exactly when the events were due
      at no instant the polled run could have skipped. */
  lemma {:induction false} PumpingIsPollingIff<W>(sch: Schedule, src: Source<W>, s: State<W>, instants: seq<Instant>)
    ensures Pumped(sch, src, s, instants) == Polled(sch, src, s, instants) <==>
            forall k :: 0 <= k < |instants| ==> !Missed(sch, src, s, instants, k)
  {
    PumpingFollows(sch, src, s, instants);
    hide Pumped, Polled, Missed, NextDueOf;
  }

  // ---- Clock first ------------------------------------------------------------------------------------------

  /** The first nonempty answer a rung has given. */
  function First(asks: seq<Ask>, rung: Rung): Option<Instant> {
    if asks == [] then None
    else
      var n := |asks| - 1;
      var early := First(asks[..n], rung);
      if early.Some? then early
      else if asks[n].rung == rung && asks[n].answer.Says? && asks[n].answer.sections != [] then Some(asks[n].at)
      else None
  }

  /** The rung below and the settle that follows it. */
  function Gate(sch: Schedule, rung: Rung): Option<(Rung, Instant)> {
    match rung
    case Clock => None
    case Lineup => Some((Clock, sch.clockSettle))
    case Titles => Some((Lineup, sch.lineupSettle))
    case Events => Some((Lineup, sch.lineupSettle))
    case Programmes => Some((Lineup, sch.lineupSettle))
    case Index => Some((Titles, sch.titleSettle))
  }

  /** A question is asked only after the rung below has given something, and its settle has passed. */
  predicate Allowed(sch: Schedule, before: seq<Ask>, ask: Ask) {
    match Gate(sch, ask.rung)
    case None => true
    case Some((below, settle)) =>
      match First(before, below)
      case None => false
      case Some(at) => ask.at >= Plus(at, settle)
  }

  ghost predicate Safe(sch: Schedule, asks: seq<Ask>) {
    forall k :: 0 <= k < |asks| ==> Allowed(sch, asks[..k], asks[k])
  }

  /** The carousel's memory of the run so far. */
  ghost predicate Remembers<W>(s: State<W>, asks: seq<Ask>) {
    && First(asks, Clock) == (if s.sentClock then Some(s.clockedAt) else None)
    && First(asks, Lineup) == (if s.sentLineup then Some(s.lineupAt) else None)
    && First(asks, Titles) == (if s.sentTitles then Some(s.titledAt) else None)
  }

  lemma {:induction false} FirstGrows(asks: seq<Ask>, ask: Ask, rung: Rung)
    ensures First(asks + [ask], rung) ==
            if First(asks, rung).Some? then First(asks, rung)
            else if ask.rung == rung && ask.answer.Says? && ask.answer.sections != [] then Some(ask.at) else None
  {
    assert (asks + [ask])[..|asks|] == asks;
  }

  lemma {:induction false} SafeGrows(sch: Schedule, asks: seq<Ask>, ask: Ask)
    requires Safe(sch, asks) && Allowed(sch, asks, ask)
    ensures Safe(sch, asks + [ask])
  {
    var all := asks + [ask];
    forall k | 0 <= k < |all| ensures Allowed(sch, all[..k], all[k]) {
      assert all[..k] == if k < |asks| then asks[..k] else asks;
    }
  }

  /** Whatever a source answers, asking it keeps the order and the carousel's memory of it. */
  lemma {:induction false} TurnIsSafe<W>(sch: Schedule, src: Source<W>, before: seq<Ask>, p: Progress<W>, now: Instant, rung: Rung)
    requires Safe(sch, before + p.asks) && Remembers(p.s, before + p.asks)
    ensures var q := Turn(sch, src, p, now, rung); Safe(sch, before + q.asks) && Remembers(q.s, before + q.asks)
  {
    hide First, Safe, Plus, Due, Allowed, Remembers, Advance;
    if p.Going? && Due(sch, src, p.s, now, rung) {
      var (answer, world) := src.ask(p.s.world, rung, now);
      var h, ask := before + p.asks, Ask(rung, now, answer);
      assert before + (p.asks + [ask]) == h + [ask];
      DueIsAllowed(sch, src, p.s, h, ask);
      SafeGrows(sch, h, ask);
      StillRemembers(sch, p.s, h, ask, world);
    }
  }

  lemma {:induction false} DueIsAllowed<W>(sch: Schedule, src: Source<W>, s: State<W>, asks: seq<Ask>, ask: Ask)
    requires Remembers(s, asks) && Due(sch, src, s, ask.at, ask.rung)
    ensures Allowed(sch, asks, ask)
  {
    hide First, Plus;
  }

  lemma {:induction false} StillRemembers<W>(sch: Schedule, s: State<W>, asks: seq<Ask>, ask: Ask, world: W)
    requires Remembers(s, asks)
    ensures var t := s.(world := world);
            match ask.answer
            case Fails => Remembers(t, asks + [ask])
            case Says(sections) => Remembers(Advance(sch, t, ask.at, ask.rung, sections != []), asks + [ask])
  {
    FirstGrows(asks, ask, Clock);
    FirstGrows(asks, ask, Lineup);
    FirstGrows(asks, ask, Titles);
    hide First, Plus;
  }

  lemma {:induction false} WaveIsSafe<W>(sch: Schedule, src: Source<W>, before: seq<Ask>, s: State<W>, now: Instant)
    requires Safe(sch, before) && Remembers(s, before)
    ensures var p := WaveAt(sch, src, s, now); Safe(sch, before + p.asks) && Remembers(p.s, before + p.asks)
  {
    hide Turn, Safe, First;
    var p0 := Going([], Started(s, now), []);
    assert before + [] == before;
    TurnIsSafe(sch, src, before, p0, now, Clock);
    var p1 := Turn(sch, src, p0, now, Clock);
    TurnIsSafe(sch, src, before, p1, now, Lineup);
    var p2 := Turn(sch, src, p1, now, Lineup);
    TurnIsSafe(sch, src, before, p2, now, Titles);
    var p3 := Turn(sch, src, p2, now, Titles);
    TurnIsSafe(sch, src, before, p3, now, Events);
    var p4 := Turn(sch, src, p3, now, Events);
    TurnIsSafe(sch, src, before, p4, now, Programmes);
    var p5 := Turn(sch, src, p4, now, Programmes);
    TurnIsSafe(sch, src, before, p5, now, Index);
    hide Remembers;
  }

  /** A carousel that has not transmitted anything. */
  function Fresh<W>(world: W): State<W> {
    State(false, 0, 0, 0, 0, 0, 0, 0, 0, 0, false, false, false, world)
  }

  /** Clock first, over every run: the line-up is asked for only after a nonempty clock wave has
      settled, the titles, events and programmes only after the line-up, the index only after the
      titles; whatever the sources answer, failures included. */
  lemma {:induction false} EveryRunIsSafe<W>(sch: Schedule, src: Source<W>, world: W, instants: seq<Instant>)
    ensures var r := Polled(sch, src, Fresh(world), instants); Safe(sch, r.asks) && Remembers(r.s, r.asks)
  {
    if instants == [] {
    } else {
      var n := |instants| - 1;
      EveryRunIsSafe(sch, src, world, instants[..n]);
      var r := Polled(sch, src, Fresh(world), instants[..n]);
      WaveIsSafe(sch, src, r.asks, r.s, instants[n]);
      hide WaveAt, Safe, Remembers;
    }
  }

  /** The settle is a real delay as long as it does not run past the end of the counter. */
  lemma {:induction false} SettleIsADelay(at: Instant, settle: Instant, now: Instant)
    ensures at + settle < 0x1_0000_0000_0000_0000 ==> (now >= Plus(at, settle) <==> now - at >= settle)
    ensures at + settle >= 0x1_0000_0000_0000_0000 ==> Plus(at, settle) < at
  {
  }

  // ---- What a failure costs -----------------------------------------------------------------------------------

  /** The sections of a run's answers, in order, and of its waves. */
  function Answered(asks: seq<Ask>): seq<Emission> {
    if asks == [] then []
    else
      var n := |asks| - 1;
      Answered(asks[..n]) + if asks[n].answer.Says? then asks[n].answer.sections else []
  }

  function OnAir(output: seq<Output>): seq<Emission> {
    if output == [] then []
    else
      var n := |output| - 1;
      OnAir(output[..n]) + if output[n].Sent? then output[n].wave else []
  }

  ghost predicate NoFailure(output: seq<Output>) {
    forall k :: 0 <= k < |output| ==> output[k].Sent?
  }

  lemma {:induction false} AnsweredGrows(a: seq<Ask>, b: seq<Ask>)
    ensures Answered(a + b) == Answered(a) + Answered(b)
    decreases |b|
  {
    if b == [] {
      assert a + b == a;
    } else {
      var n := |b| - 1;
      assert (a + b)[..|a + b| - 1] == a + b[..n];
      AnsweredGrows(a, b[..n]);
    }
  }

  lemma {:induction false} TurnCarries<W>(sch: Schedule, src: Source<W>, p: Progress<W>, now: Instant, rung: Rung)
    requires p.Going? ==> p.wave == Answered(p.asks)
    ensures var q := Turn(sch, src, p, now, rung); q.Going? ==> q.wave == Answered(q.asks)
  {
    if p.Going? && Due(sch, src, p.s, now, rung) {
      var ask := Ask(rung, now, src.ask(p.s.world, rung, now).0);
      assert (p.asks + [ask])[..|p.asks|] == p.asks;
    }
  }

  lemma {:induction false} WaveCarries<W>(sch: Schedule, src: Source<W>, s: State<W>, now: Instant)
    ensures var p := WaveAt(sch, src, s, now); p.Going? ==> p.wave == Answered(p.asks)
  {
    hide Turn;
    var p0 := Going([], Started(s, now), []);
    assert Answered([]) == [];
    hide Answered;
    TurnCarries(sch, src, p0, now, Clock);
    var p1 := Turn(sch, src, p0, now, Clock);
    TurnCarries(sch, src, p1, now, Lineup);
    var p2 := Turn(sch, src, p1, now, Lineup);
    TurnCarries(sch, src, p2, now, Titles);
    var p3 := Turn(sch, src, p2, now, Titles);
    TurnCarries(sch, src, p3, now, Events);
    var p4 := Turn(sch, src, p3, now, Events);
    TurnCarries(sch, src, p4, now, Programmes);
    var p5 := Turn(sch, src, p4, now, Programmes);
    TurnCarries(sch, src, p5, now, Index);
  }

  /** In a run without a failure, everything the sources say goes on the air, in the order said. */
  lemma {:induction false} NothingIsDropped<W>(sch: Schedule, src: Source<W>, s: State<W>, instants: seq<Instant>)
    requires NoFailure(Polled(sch, src, s, instants).output)
    ensures OnAir(Polled(sch, src, s, instants).output) == Answered(Polled(sch, src, s, instants).asks)
  {
    if instants == [] {
    } else {
      var n := |instants| - 1;
      var r := Polled(sch, src, s, instants[..n]);
      var p := WaveAt(sch, src, r.s, instants[n]);
      var more := OutputOf(p, instants[n]);
      forall k | 0 <= k < |r.output| ensures r.output[k].Sent? { assert r.output[k] == (r.output + more)[k]; }
      NothingIsDropped(sch, src, s, instants[..n]);
      WaveCarries(sch, src, r.s, instants[n]);
      AnsweredGrows(r.asks, p.asks);
      assert more != [] ==> (r.output + more)[|r.output|] == more[0];
      assert more == [] ==> r.output + more == r.output;
      assert more != [] ==> (r.output + more)[..|r.output|] == r.output;
      hide WaveAt, Answered;
    }
  }

  /** A world that counts the questions, in which the first line-up fails. */
  function Faulty(n: nat, rung: Rung, now: Instant): (Answer, nat) {
    (if rung == Lineup && n == 1 then Fails else Says([Emission(n % 0x2000, [])]), n + 1)
  }

  lemma {:induction false} TwoInstants<W>(sch: Schedule, src: Source<W>, s: State<W>, a: Instant, b: Instant)
    ensures var p := WaveAt(sch, src, s, a);
            Polled(sch, src, s, [a, b]) == Then(Then(Run(s, [], []), p, a), WaveAt(sch, src, p.s, b), b)
    ensures var p := WaveAt(sch, src, s, a);
            a >= NextDueOf(sch, src, s) && b < NextDueOf(sch, src, p.s) ==>
              Pumped(sch, src, s, [a, b]) == Then(Run(s, [], []), p, a)
  {
    assert [a, b][..1] == [a] && [a][..0] == [];
    assert Polled(sch, src, s, []) == Pumped(sch, src, s, []) == Run(s, [], []);
    hide WaveAt, NextDueOf;
    var p := WaveAt(sch, src, s, a);
    assert Polled(sch, src, s, [a]) == Then(Run(s, [], []), p, a);
    if a >= NextDueOf(sch, src, s) { assert Pumped(sch, src, s, [a]) == Then(Run(s, [], []), p, a); }
    hide Then;
  }

  lemma {:induction false} FaultyWaves(sch: Schedule, src: Source<nat>)
    requires sch == Schedule(100, 1, 100, 0, 0, 0, 0, 50, 0) && src == Source(Faulty, false, false, false)
    ensures var p := WaveAt(sch, src, Fresh(0), 0);
            && p.Broken? && p.rung == Lineup && |p.asks| == 2
            && var q := WaveAt(sch, src, p.s, 1);
               q.Going? && q.wave == [Emission(2, [])] && q.asks == [Ask(Lineup, 1, Says([Emission(2, [])]))]
  {
    var s0 := Fresh(0).(started := true);
    var clock := Ask(Clock, 0, Says([Emission(0, [])]));
    var p1 := Turn(sch, src, Going([], s0, []), 0, Clock);
    var s1 := s0.(nextClock := 100, sentClock := true, clockedAt := 0, world := 1);
    assert p1 == Going([Emission(0, [])], s1, [clock]);
    var p2 := Turn(sch, src, p1, 0, Lineup);
    var s2 := s1.(world := 2);
    assert p2 == Broken(Lineup, s2, [clock, Ask(Lineup, 0, Fails)]);
    assert WaveAt(sch, src, Fresh(0), 0) == p2 by {
      hide Turn;
      BrokenStays(sch, src, p2, 0);
    }
    SecondWave(sch, src, s2);
  }

  lemma {:induction false} SecondWave(sch: Schedule, src: Source<nat>, s: State<nat>)
    requires sch == Schedule(100, 1, 100, 0, 0, 0, 0, 50, 0) && src == Source(Faulty, false, false, false)
    requires s == Fresh(2).(started := true, nextClock := 100, sentClock := true)
    ensures var q := WaveAt(sch, src, s, 1);
            q.Going? && q.wave == [Emission(2, [])] && q.asks == [Ask(Lineup, 1, Says([Emission(2, [])]))]
  {
    var p0 := Going([], s, []);
    assert Turn(sch, src, p0, 1, Clock) == p0;
    var t := s.(nextLineup := 2, sentLineup := true, lineupAt := 1, world := 3);
    var p2 := Turn(sch, src, p0, 1, Lineup);
    assert p2 == Going([Emission(2, [])], t, [Ask(Lineup, 1, Says([Emission(2, [])]))]);
    assert forall rung :: rung != Clock && rung != Lineup ==> !Due(sch, src, t, 1, rung);
    hide Due;
  }

  /** A failure loses what the wave had already gathered: here the first thing on the air is a
      line-up, though the clock was asked first, because the clock's sections went down with the
      wave in which the line-up failed. */
  lemma {:induction false} FailureLosesTheClock(sch: Schedule, src: Source<nat>)
    requires sch == Schedule(100, 1, 100, 0, 0, 0, 0, 50, 0) && src == Source(Faulty, false, false, false)
    ensures var r := Polled(sch, src, Fresh(0), [0, 1]);
            && r.output == [Failed(0, Lineup), Sent(1, [Emission(2, [])])]
            && |r.asks| == 3 && r.asks[2] == Ask(Lineup, 1, Says([Emission(2, [])]))
  {
    hide WaveAt, Polled;
    FaultyWaves(sch, src);
    TwoInstants(sch, src, Fresh(0), 0, 1);
  }

  /** A world in which every source always has one section. */
  function Steady(n: nat, rung: Rung, now: Instant): (Answer, nat) {
    (Says([Emission(0, [])]), n)
  }

  lemma {:induction false} SteadyWaves(sch: Schedule, src: Source<nat>)
    requires sch == Schedule(100, 100, 100, 5, 0, 0, 0, 0, 0) && src == Source(Steady, true, false, false)
    ensures var p := WaveAt(sch, src, Fresh(0), 0);
            && p.Going? && p.wave != [] && NextDueOf(sch, src, p.s) == 100
            && Due(sch, src, p.s, 5, Events)
  {
    var s0, e := Fresh(0).(started := true), Emission(0, []);
    var p1 := Turn(sch, src, Going([], s0, []), 0, Clock);
    var s1 := s0.(nextClock := 100, sentClock := true, clockedAt := 0);
    assert p1.Going? && p1.s == s1 && p1.wave != [];
    var p2 := Turn(sch, src, p1, 0, Lineup);
    var s2 := s1.(nextLineup := 100, sentLineup := true, lineupAt := 0);
    assert p2.Going? && p2.s == s2 && p2.wave != [];
    var p3 := Turn(sch, src, p2, 0, Titles);
    var s3 := s2.(nextTitles := 100, sentTitles := true, titledAt := 0);
    assert p3.Going? && p3.s == s3 && p3.wave != [];
    var p4 := Turn(sch, src, p3, 0, Events);
    assert p4.Going? && p4.s == s3.(nextEvents := 5) && p4.wave != [];
    var p5 := Turn(sch, src, p4, 0, Programmes);
    assert Turn(sch, src, p5, 0, Index) == p4;
    assert WaveAt(sch, src, Fresh(0), 0) == p4 by { hide Turn; }
  }

  /** With an event source, waiting for NextDue can hold its sections back: polled, events go out at
      5 as well as at 0; pumped, they do not. */
  lemma {:induction false} EventsWait(sch: Schedule, src: Source<nat>)
    requires sch == Schedule(100, 100, 100, 5, 0, 0, 0, 0, 0) && src == Source(Steady, true, false, false)
    ensures |Polled(sch, src, Fresh(0), [0, 5]).output| == 2 && |Pumped(sch, src, Fresh(0), [0, 5]).output| == 1
  {
    SteadyWaves(sch, src);
    var p := WaveAt(sch, src, Fresh(0), 0);
    EarlyWaveIsEvents(sch, src, p.s, 5);
    var q := WaveAt(sch, src, p.s, 5);
    assert q.Going? && q.wave != [] by { hide WaveAt, NextDueOf; }
    TwoInstants(sch, src, Fresh(0), 0, 5);
    assert NextDueOf(sch, src, Fresh<nat>(0)) == 0;
    hide WaveAt, Polled, Pumped, NextDueOf, Due;
  }

  // ---- The carousel itself ------------------------------------------------------------------------------------

  datatype BadSchedule = ClockPeriodZero | LineupPeriodZero | TitlePeriodZero | EventPeriodZero | ProgrammePeriodZero | IndexPeriodZero

  /** NewCarousel's check: every period in use is at least one instant. */
  function ScheduleError<W>(sch: Schedule, src: Source<W>): Option<BadSchedule> {
    if sch.clockPeriod == 0 then Some(ClockPeriodZero)
    else if sch.lineupPeriod == 0 then Some(LineupPeriodZero)
    else if sch.titlePeriod == 0 then Some(TitlePeriodZero)
    else if src.events && sch.eventPeriod == 0 then Some(EventPeriodZero)
    else if src.programmes && sch.programmePeriod == 0 then Some(ProgrammePeriodZero)
    else if src.index && sch.indexPeriod == 0 then Some(IndexPeriodZero)
    else None
  }

  class Carousel<!W> {
    const schedule: Schedule
    const source: Source<W>
    var started: bool
    var nextClock: Instant
    var nextLineup: Instant
    var nextTitles: Instant
    var nextEvents: Instant
    var nextProgrammes: Instant
    var nextIndex: Instant
    var clockedAt: Instant
    var lineupAt: Instant
    var titledAt: Instant
    var sentClock: bool
    var sentLineup: bool
    var sentTitles: bool
    var world: W

    ghost function Now(): State<W>
      reads this
    {
      State(started, nextClock, nextLineup, nextTitles, nextEvents, nextProgrammes, nextIndex, clockedAt, lineupAt, titledAt,
            sentClock, sentLineup, sentTitles, world)
    }

    constructor (schedule: Schedule, source: Source<W>, world: W)
      requires ScheduleError(schedule, source).None?
      ensures Now() == Fresh(world) && this.schedule == schedule && this.source == source
    {
      this.schedule, this.source, this.world := schedule, source, world;
      started, nextClock, nextLineup, nextTitles, nextEvents, nextProgrammes, nextIndex := false, 0, 0, 0, 0, 0, 0;
      clockedAt, lineupAt, titledAt, sentClock, sentLineup, sentTitles := 0, 0, 0, false, false, false;
    }

    // The clock and the two rungs that gate others.
    method ClockTurn(now: Instant, wave: seq<Emission>, ghost asks: seq<Ask>) returns (ok: bool, more: seq<Emission>, ghost p: Progress<W>)
      modifies this
      ensures p == Turn(schedule, source, Going(wave, old(Now()), asks), now, Clock)
      ensures ok == p.Going? && Now() == p.s && (ok ==> more == p.wave)
    {
      hide Plus;
      ok, more, p := true, wave, Going(wave, Now(), asks);
      if now >= nextClock {
        var (answer, after) := source.ask(world, Clock, now);
        world := after;
        p := Turn(schedule, source, Going(wave, old(Now()), asks), now, Clock);
        if answer.Fails? { return false, wave, p; }
        more := wave + answer.sections;
        nextClock := Plus(now, schedule.clockPeriod);
        if !sentClock && |answer.sections| > 0 { sentClock, clockedAt := true, now; }
      }
    }

    method LineupTurn(now: Instant, wave: seq<Emission>, ghost asks: seq<Ask>) returns (ok: bool, more: seq<Emission>, ghost p: Progress<W>)
      modifies this
      ensures p == Turn(schedule, source, Going(wave, old(Now()), asks), now, Lineup)
      ensures ok == p.Going? && Now() == p.s && (ok ==> more == p.wave)
    {
      hide Plus;
      ok, more, p := true, wave, Going(wave, Now(), asks);
      if sentClock && now >= Plus(clockedAt, schedule.clockSettle) && now >= nextLineup {
        var (answer, after) := source.ask(world, Lineup, now);
        world := after;
        p := Turn(schedule, source, Going(wave, old(Now()), asks), now, Lineup);
        if answer.Fails? { return false, wave, p; }
        more := wave + answer.sections;
        nextLineup := Plus(now, schedule.lineupPeriod);
        if !sentLineup && |answer.sections| > 0 { sentLineup, lineupAt := true, now; }
      }
    }

    method TitlesTurn(now: Instant, wave: seq<Emission>, ghost asks: seq<Ask>) returns (ok: bool, more: seq<Emission>, ghost p: Progress<W>)
      modifies this
      ensures p == Turn(schedule, source, Going(wave, old(Now()), asks), now, Titles)
      ensures ok == p.Going? && Now() == p.s && (ok ==> more == p.wave)
    {
      hide Plus;
      ok, more, p := true, wave, Going(wave, Now(), asks);
      if sentLineup && now >= Plus(lineupAt, schedule.lineupSettle) && now >= nextTitles {
        var (answer, after) := source.ask(world, Titles, now);
        world := after;
        p := Turn(schedule, source, Going(wave, old(Now()), asks), now, Titles);
        if answer.Fails? { return false, wave, p; }
        more := wave + answer.sections;
        nextTitles := Plus(now, schedule.titlePeriod);
        if !sentTitles && |answer.sections| > 0 { sentTitles, titledAt := true, now; }
      }
    }

    // The three rungs nothing waits for.
    method TopTurn(rung: Rung, now: Instant, wave: seq<Emission>, ghost asks: seq<Ask>)
        returns (ok: bool, more: seq<Emission>, ghost p: Progress<W>)
      requires rung.Events? || rung.Programmes? || rung.Index?
      modifies this
      ensures p == Turn(schedule, source, Going(wave, old(Now()), asks), now, rung)
      ensures ok == p.Going? && Now() == p.s && (ok ==> more == p.wave)
    {
      hide Plus;
      ok, more, p := true, wave, Going(wave, Now(), asks);
      var settled := if rung.Index? then sentTitles && now >= Plus(titledAt, schedule.titleSettle)
                     else sentLineup && now >= Plus(lineupAt, schedule.lineupSettle);
      var present := if rung.Events? then source.events else if rung.Programmes? then source.programmes else source.index;
      var next := if rung.Events? then nextEvents else if rung.Programmes? then nextProgrammes else nextIndex;
      if present && settled && now >= next {
        var (answer, after) := source.ask(world, rung, now);
        world := after;
        p := Turn(schedule, source, Going(wave, old(Now()), asks), now, rung);
        if answer.Fails? { return false, wave, p; }
        more := wave + answer.sections;
        if rung.Events? {
          nextEvents := Plus(now, schedule.eventPeriod);
        } else if rung.Programmes? {
          nextProgrammes := Plus(now, schedule.programmePeriod);
        } else {
          nextIndex := Plus(now, schedule.indexPeriod);
        }
      }
    }

    /** Wave, rung by rung; a source that fails ends it, and what it had gathered is dropped. */
    method Wave(now: Instant) returns (wave: Option<seq<Emission>>)
      modifies this
      ensures var p := WaveAt(schedule, source, old(Now()), now);
              Now() == p.s && wave == if p.Going? then Some(p.wave) else None
    {
      if !started {
        started := true;
        nextClock, nextLineup, nextTitles := now, now, now;
      }
      hide Turn, Advance;
      ghost var all := WaveAt(schedule, source, old(Now()), now);
      var ok, sent, p := ClockTurn(now, [], []);
      BrokenStays(schedule, source, p, now);
      if !ok { return None; }
      ok, sent, p := LineupTurn(now, sent, p.asks);
      BrokenStays(schedule, source, p, now);
      if !ok { return None; }
      ok, sent, p := TitlesTurn(now, sent, p.asks);
      BrokenStays(schedule, source, p, now);
      if !ok { return None; }
      ok, sent, p := TopTurn(Events, now, sent, p.asks);
      BrokenStays(schedule, source, p, now);
      if !ok { return None; }
      ok, sent, p := TopTurn(Programmes, now, sent, p.asks);
      BrokenStays(schedule, source, p, now);
      if !ok { return None; }
      ok, sent, p := TopTurn(Index, now, sent, p.asks);
      if !ok { return None; }
      wave := Some(sent);
    }

    // The clock, the line-up and the titles.
    method LowerRungs() returns (due: Instant)
      ensures due == LowerDue(schedule, Now())
    {
      hide Plus;
      due := nextClock;
      var lineup := nextLineup;
      if sentClock {
        var hold := Plus(clockedAt, schedule.clockSettle);
        if hold > lineup { lineup := hold; }
        if lineup < due { due := lineup; }
      }
      if sentLineup {
        var titles, hold := nextTitles, Plus(lineupAt, schedule.lineupSettle);
        if hold > titles { titles := hold; }
        if titles < due { due := titles; }
      }
    }

    method NextDue() returns (due: Instant)
      ensures due == NextDueOf(schedule, source, Now())
    {
      hide Plus, LowerDue;
      if !started { return 0; }
      due := LowerRungs();
      if source.index && sentTitles {
        var index, hold := nextIndex, Plus(titledAt, schedule.titleSettle);
        if hold > index { index := hold; }
        if index < due { due := index; }
      }
      if source.programmes && sentLineup {
        var programmes, hold := nextProgrammes, Plus(lineupAt, schedule.lineupSettle);
        if hold > programmes { programmes := hold; }
        if programmes < due { due := programmes; }
      }
    }
  }

  lemma {:induction false} BrokenStays<W>(sch: Schedule, src: Source<W>, p: Progress<W>, now: Instant)
    ensures p.Broken? ==> forall rung :: Turn(sch, src, p, now, rung) == p
  {
  }
}
