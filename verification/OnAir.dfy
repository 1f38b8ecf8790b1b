// internal/broadcast/carousel.go: what goes on the air when a source fails. Wave drops whatever it had
// gathered, but not its memory of having been answered, so a rung may be opened by sections nobody was
// ever sent. This file says exactly when that can put the rungs out of order, and what is lost.
module OnAir {
  import opened Words
  import opened Emissions
  import opened Carousel

  predicate Speaks(a: Ask) {
    a.answer.Says? && a.answer.sections != []
  }

  /** The questions of a wave whose answers went out. */
  function AiredIn<W>(p: Progress<W>): seq<Ask> {
    if p.Going? then p.asks else []
  }

  function WaveOf<W>(sch: Schedule, src: Source<W>, s: State<W>, instants: seq<Instant>, k: nat): Progress<W>
    requires k < |instants|
  {
    WaveAt(sch, src, Polled(sch, src, s, instants[..k]).s, instants[k])
  }

  function Aired<W>(sch: Schedule, src: Source<W>, s: State<W>, instants: seq<Instant>): seq<Ask> {
    if instants == [] then []
    else
      var n := |instants| - 1;
      Aired(sch, src, s, instants[..n]) + AiredIn(WaveOf(sch, src, s, instants, n))
  }

  // ---- What is lost -----------------------------------------------------------------------------------------

  /** How many sections went down with the waves that failed. */
  function Dropped<W>(sch: Schedule, src: Source<W>, s: State<W>, instants: seq<Instant>): nat {
    if instants == [] then 0
    else
      var n := |instants| - 1;
      var p := WaveOf(sch, src, s, instants, n);
      Dropped(sch, src, s, instants[..n]) + if p.Broken? then |Answered(p.asks)| else 0
  }

  lemma {:induction false} OnAirGrows(output: seq<Output>, more: seq<Output>)
    requires |more| <= 1
    ensures OnAir(output + more) == OnAir(output) + if more != [] && more[0].Sent? then more[0].wave else []
  {
    if more == [] {
      assert output + more == output;
    } else {
      assert (output + more)[..|output|] == output && (output + more)[|output|] == more[0];
    }
  }

  /** What goes out is what the waves that did not fail were answered; the rest is dropped. */
  lemma {:induction false} WhatGoesOut<W>(sch: Schedule, src: Source<W>, s: State<W>, instants: seq<Instant>)
    ensures var r := Polled(sch, src, s, instants);
            && OnAir(r.output) == Answered(Aired(sch, src, s, instants))
            && |Answered(r.asks)| == |OnAir(r.output)| + Dropped(sch, src, s, instants)
            && (Dropped(sch, src, s, instants) == 0 ==> OnAir(r.output) == Answered(r.asks))
  {
    hide WaveAt, Answered, OnAir;
    if instants == [] {
      NothingSaid();
    } else {
      var n := |instants| - 1;
      WhatGoesOut(sch, src, s, instants[..n]);
      var r, p := Polled(sch, src, s, instants[..n]), WaveOf(sch, src, s, instants, n);
      WaveCarries(sch, src, r.s, instants[n]);
      AnsweredGrows(r.asks, p.asks);
      AnsweredGrows(Aired(sch, src, s, instants[..n]), AiredIn(p));
      NothingSaid();
      OnAirGrows(r.output, OutputOf(p, instants[n]));
    }
  }

  lemma NothingSaid()
    ensures Answered([]) == [] && OnAir([]) == []
  {
  }

  /** A wave goes out, or fails before anybody has said anything. */
  predicate LosesNothing<W>(p: Progress<W>) {
    p.Broken? ==> Answered(p.asks) == []
  }

  /** Everything answered goes on the air exactly when no wave that failed had anything to lose. */
  lemma {:induction false} NothingDroppedIff<W>(sch: Schedule, src: Source<W>, s: State<W>, instants: seq<Instant>)
    ensures var r := Polled(sch, src, s, instants);
            OnAir(r.output) == Answered(r.asks) <==>
            forall k :: 0 <= k < |instants| ==> LosesNothing(WaveOf(sch, src, s, instants, k))
  {
    hide WaveOf, Answered, OnAir, Polled, Dropped, Aired, LosesNothing;
    WhatGoesOut(sch, src, s, instants);
    DroppedWhen(sch, src, s, instants);
  }

  lemma {:induction false} DroppedWhen<W>(sch: Schedule, src: Source<W>, s: State<W>, instants: seq<Instant>)
    ensures Dropped(sch, src, s, instants) == 0 <==>
            forall k :: 0 <= k < |instants| ==> LosesNothing(WaveOf(sch, src, s, instants, k))
  {
    hide WaveOf, Answered;
    if instants == [] {
    } else {
      var n := |instants| - 1;
      DroppedWhen(sch, src, s, instants[..n]);
      forall k | 0 <= k < n ensures WaveOf(sch, src, s, instants[..n], k) == WaveOf(sch, src, s, instants, k) {
        SameWave(sch, src, s, instants, n, k);
      }
      hide LosesNothing;
    }
  }

  lemma SameWave<W>(sch: Schedule, src: Source<W>, s: State<W>, instants: seq<Instant>, n: nat, k: nat)
    requires k < n <= |instants|
    ensures WaveOf(sch, src, s, instants[..n], k) == WaveOf(sch, src, s, instants, k)
  {
    assert instants[..n][..k] == instants[..k];
  }

  // ---- The order on the air ------------------------------------------------------------------------------------

  function Below(rung: Rung): Option<Rung> {
    match rung
    case Clock => None
    case Lineup => Some(Clock)
    case Titles => Some(Lineup)
    case Events => Some(Lineup)
    case Programmes => Some(Lineup)
    case Index => Some(Titles)
  }

  /** A rung's sections go out only after some of the rung below have. */
  ghost predicate Ordered(aired: seq<Ask>) {
    forall k :: 0 <= k < |aired| && Speaks(aired[k]) && Below(aired[k].rung).Some? ==>
      First(aired[..k], Below(aired[k].rung).value).Some?
  }

  /** What a schedule must have for the order to survive every failure. A settle keeps the first answer of
      the rung it follows alone in its wave; the index also needs nobody else between it and the titles. */
  predicate KeepsOrder(sch: Schedule, events: bool, programmes: bool, index: bool) {
    && sch.clockSettle > 0 && sch.lineupSettle > 0
    && (index ==> sch.titleSettle > 0 && !events && !programmes)
  }

  const END := 0x1_0000_0000_0000_0000

  /** No settle counted from this instant runs past the end of the counter. */
  predicate Early(sch: Schedule, now: Instant) {
    now + sch.clockSettle < END && now + sch.lineupSettle < END && now + sch.titleSettle < END
  }

  predicate Ladder<W>(s: State<W>) {
    (s.sentLineup ==> s.sentClock) && (s.sentTitles ==> s.sentLineup)
  }

  /** The carousel's memory is of what went out; the titles matter only to an index. */
  ghost predicate Knows<W>(src: Source<W>, s: State<W>, aired: seq<Ask>) {
    && First(aired, Clock) == (if s.sentClock then Some(s.clockedAt) else None)
    && First(aired, Lineup) == (if s.sentLineup then Some(s.lineupAt) else None)
    && (src.index ==> First(aired, Titles) == if s.sentTitles then Some(s.titledAt) else None)
  }

  lemma {:induction false} DueIsAllowedOnAir<W>(sch: Schedule, src: Source<W>, s: State<W>, h: seq<Ask>, ask: Ask)
    requires Knows(src, s, h) && Due(sch, src, s, ask.at, ask.rung)
    ensures Allowed(sch, h, ask)
  {
    hide First, Plus;
  }

  lemma {:induction false} StillKnows<W>(sch: Schedule, src: Source<W>, s: State<W>, h: seq<Ask>, ask: Ask, world: W)
    requires Knows(src, s, h) && ask.answer.Says?
    ensures Knows(src, Advance(sch, s.(world := world), ask.at, ask.rung, ask.answer.sections != []), h + [ask])
  {
    FirstGrows(h, ask, Clock);
    FirstGrows(h, ask, Lineup);
    FirstGrows(h, ask, Titles);
    hide First, Plus;
  }

  /** As long as the wave goes on, what it has asked is in order after what went out before. */
  lemma {:induction false} TurnAirs<W>(sch: Schedule, src: Source<W>, h: seq<Ask>, p: Progress<W>, now: Instant, rung: Rung)
    requires p.Going? ==> Safe(sch, h + p.asks) && Knows(src, p.s, h + p.asks)
    ensures var q := Turn(sch, src, p, now, rung); q.Going? ==> Safe(sch, h + q.asks) && Knows(src, q.s, h + q.asks)
  {
    hide First, Safe, Plus, Due, Allowed, Knows, Advance;
    if p.Going? && Due(sch, src, p.s, now, rung) {
      var (answer, world) := src.ask(p.s.world, rung, now);
      var all, ask := h + p.asks, Ask(rung, now, answer);
      if answer.Says? {
        assert h + (p.asks + [ask]) == all + [ask];
        DueIsAllowedOnAir(sch, src, p.s, all, ask);
        SafeGrows(sch, all, ask);
        StillKnows(sch, src, p.s, all, ask, world);
      }
    }
  }

  lemma {:induction false} WaveAirs<W>(sch: Schedule, src: Source<W>, h: seq<Ask>, s: State<W>, now: Instant)
    requires Safe(sch, h) && Knows(src, s, h)
    ensures var p := WaveAt(sch, src, s, now); p.Going? ==> Safe(sch, h + p.asks) && Knows(src, p.s, h + p.asks)
  {
    hide Turn, Safe, First;
    var p0 := Going([], Started(s, now), []);
    assert h + [] == h;
    TurnAirs(sch, src, h, p0, now, Clock);
    var p1 := Turn(sch, src, p0, now, Clock);
    TurnAirs(sch, src, h, p1, now, Lineup);
    var p2 := Turn(sch, src, p1, now, Lineup);
    TurnAirs(sch, src, h, p2, now, Titles);
    var p3 := Turn(sch, src, p2, now, Titles);
    TurnAirs(sch, src, h, p3, now, Events);
    var p4 := Turn(sch, src, p3, now, Events);
    TurnAirs(sch, src, h, p4, now, Programmes);
    var p5 := Turn(sch, src, p4, now, Programmes);
    TurnAirs(sch, src, h, p5, now, Index);
    hide Knows;
  }

  /** The same rungs have been answered, at the same instants. */
  predicate SameMemory<W>(src: Source<W>, s: State<W>, t: State<W>) {
    && s.sentClock == t.sentClock && s.clockedAt == t.clockedAt
    && s.sentLineup == t.sentLineup && s.lineupAt == t.lineupAt
    && (src.index ==> s.sentTitles == t.sentTitles && s.titledAt == t.titledAt)
  }

  /** The rungs Wave comes to after this one. */
  function Next(rung: Rung): set<Rung> {
    match rung
    case Clock => {Lineup, Titles, Events, Programmes, Index}
    case Lineup => {Titles, Events, Programmes, Index}
    case Titles => {Events, Programmes, Index}
    case Events => {Programmes, Index}
    case Programmes => {Index}
    case Index => {}
  }

  /** Either nothing has been answered for the first time, or the rest of the wave asks nothing. */
  predicate Alone<W>(sch: Schedule, src: Source<W>, s: State<W>, p: Progress<W>, now: Instant, rest: set<Rung>) {
    Ladder(p.s) && (SameMemory(src, s, p.s) || (p.Going? && forall r :: r in rest ==> !Due(sch, src, p.s, now, r)))
  }

  lemma {:induction false} TurnAlone<W>(sch: Schedule, src: Source<W>, s: State<W>, p: Progress<W>, now: Instant, rung: Rung)
    requires KeepsOrder(sch, src.events, src.programmes, src.index) && Early(sch, now)
    requires Alone(sch, src, s, p, now, {rung} + Next(rung))
    ensures Alone(sch, src, s, Turn(sch, src, p, now, rung), now, Next(rung))
  {
    if p.Going? && Due(sch, src, p.s, now, rung) {
      var (answer, world) := src.ask(p.s.world, rung, now);
      match rung
      case Clock => assert Plus(now, sch.clockSettle) == now + sch.clockSettle;
      case Lineup => assert Plus(now, sch.lineupSettle) == now + sch.lineupSettle;
      case Titles => assert Plus(now, sch.titleSettle) == now + sch.titleSettle;
      case Events => case Programmes => case Index =>
    }
  }

  /** A wave that fails has remembered nothing, if the schedule keeps the order. */
  lemma {:induction false} FailureForgets<W>(sch: Schedule, src: Source<W>, s: State<W>, now: Instant)
    requires KeepsOrder(sch, src.events, src.programmes, src.index) && Early(sch, now) && Ladder(s)
    ensures var p := WaveAt(sch, src, s, now); Ladder(p.s) && (p.Broken? ==> SameMemory(src, s, p.s))
  {
    hide Turn, Due, KeepsOrder, Early;
    var p0 := Going([], Started(s, now), []);
    TurnAlone(sch, src, s, p0, now, Clock);
    var p1 := Turn(sch, src, p0, now, Clock);
    assert {Lineup} + Next(Lineup) == Next(Clock);
    TurnAlone(sch, src, s, p1, now, Lineup);
    var p2 := Turn(sch, src, p1, now, Lineup);
    assert {Titles} + Next(Titles) == Next(Lineup);
    TurnAlone(sch, src, s, p2, now, Titles);
    var p3 := Turn(sch, src, p2, now, Titles);
    assert {Events} + Next(Events) == Next(Titles);
    TurnAlone(sch, src, s, p3, now, Events);
    var p4 := Turn(sch, src, p3, now, Events);
    assert {Programmes} + Next(Programmes) == Next(Events);
    TurnAlone(sch, src, s, p4, now, Programmes);
    var p5 := Turn(sch, src, p4, now, Programmes);
    assert {Index} + Next(Index) == Next(Programmes);
    TurnAlone(sch, src, s, p5, now, Index);
  }

  lemma {:induction false} KnowsStill<W>(src: Source<W>, s: State<W>, t: State<W>, aired: seq<Ask>)
    requires Knows(src, s, aired) && SameMemory(src, s, t)
    ensures Knows(src, t, aired)
  {
    hide First;
  }

  lemma SafeIsOrdered(sch: Schedule, aired: seq<Ask>)
    requires Safe(sch, aired)
    ensures Ordered(aired)
  {
    hide First, Plus;
    forall k | 0 <= k < |aired| && Speaks(aired[k]) && Below(aired[k].rung).Some?
      ensures First(aired[..k], Below(aired[k].rung).value).Some?
    {
      assert Allowed(sch, aired[..k], aired[k]);
    }
  }

  /** With such a schedule the order on the air, settles included, survives any failures of any sources. */
  lemma {:induction false} OrderSurvives<W>(sch: Schedule, src: Source<W>, world: W, instants: seq<Instant>)
    requires KeepsOrder(sch, src.events, src.programmes, src.index)
    requires forall k :: 0 <= k < |instants| ==> Early(sch, instants[k])
    ensures var aired, s := Aired(sch, src, Fresh(world), instants), Polled(sch, src, Fresh(world), instants).s;
            Safe(sch, aired) && Ordered(aired) && Knows(src, s, aired) && Ladder(s)
  {
    var aired := Aired(sch, src, Fresh(world), instants);
    if instants == [] {
      assert Knows(src, Fresh(world), []);
    } else {
      hide WaveAt, Safe, Knows, Ladder, SameMemory, KeepsOrder, Early, Ordered;
      var n := |instants| - 1;
      OrderSurvives(sch, src, world, instants[..n]);
      var h, s := Aired(sch, src, Fresh(world), instants[..n]), Polled(sch, src, Fresh(world), instants[..n]).s;
      WaveAirs(sch, src, h, s, instants[n]);
      FailureForgets(sch, src, s, instants[n]);
      var p := WaveAt(sch, src, s, instants[n]);
      if p.Broken? { KnowsStill(src, s, p.s, h); }
      assert h + [] == h;
    }
    SafeIsOrdered(sch, aired);
  }

  // ---- The run that stops -------------------------------------------------------------------------------------------

  datatype Watched<W> = Watched(run: Run<W>, aired: seq<Ask>, stopped: bool)

  /** The machine's loop ends at the first error, so a wave that fails is the last. */
  function Live<W>(sch: Schedule, src: Source<W>, s: State<W>, instants: seq<Instant>): Watched<W> {
    if instants == [] then Watched(Run(s, [], []), [], false)
    else
      var n := |instants| - 1;
      var w := Live(sch, src, s, instants[..n]);
      if w.stopped then w
      else
        var p := WaveAt(sch, src, w.run.s, instants[n]);
        Watched(Then(w.run, p, instants[n]), w.aired + AiredIn(p), p.Broken?)
  }

  lemma {:induction false} SafePrefix(sch: Schedule, a: seq<Ask>, b: seq<Ask>)
    requires Safe(sch, a + b)
    ensures Safe(sch, a)
  {
    hide First, Plus, Allowed;
    forall k | 0 <= k < |a| ensures Allowed(sch, a[..k], a[k]) {
      assert (a + b)[..k] == a[..k] && (a + b)[k] == a[k];
    }
  }

  /** Up to the first failure the order on the air needs nothing of the schedule, not even settles that
      fit the counter: whatever went out went out in order. */
  lemma {:induction false} LiveIsOrdered<W>(sch: Schedule, src: Source<W>, world: W, instants: seq<Instant>)
    ensures var w := Live(sch, src, Fresh(world), instants);
            && Safe(sch, w.aired) && Ordered(w.aired)
            && (!w.stopped ==> w.aired == w.run.asks && Remembers(w.run.s, w.run.asks))
  {
    hide WaveAt, Safe, Remembers, Ordered;
    if instants == [] {
      NothingAsked(sch, world);
    } else {
      var n := |instants| - 1;
      LiveIsOrdered(sch, src, world, instants[..n]);
      var w := Live(sch, src, Fresh(world), instants[..n]);
      if !w.stopped {
        WaveIsSafe(sch, src, w.run.asks, w.run.s, instants[n]);
        var p := WaveAt(sch, src, w.run.s, instants[n]);
        SafePrefix(sch, w.run.asks, p.asks);
        assert w.aired + [] == w.aired;
      }
    }
    SafeIsOrdered(sch, Live(sch, src, Fresh(world), instants).aired);
  }

  lemma NothingAsked<W>(sch: Schedule, world: W)
    ensures Safe(sch, []) && Remembers(Fresh(world), [])
  {
  }

  // ---- The run that goes on ------------------------------------------------------------------------------------------

  const SECTION := Emission(0, [])

  /** How a source can upset the order: every rung up to `below` speaks once, `faulty` then fails once in
      the same wave, and `above` speaks next. */
  datatype Plot = Plot(below: Rung, faulty: Rung, above: Rung)

  function Level(rung: Rung): nat {
    match rung
    case Clock => 0
    case Lineup => 1
    case Titles => 2
    case _ => 3
  }

  /** The world counts what has happened. */
  function Sabotage(plot: Plot, n: nat, rung: Rung): (Answer, nat) {
    var b := Level(plot.below);
    if n <= b && Level(rung) == n then (Says([SECTION]), n + 1)
    else if n == b + 1 && rung == plot.faulty then (Fails, n + 1)
    else if n == b + 2 && rung == plot.above then (Says([SECTION]), n + 1)
    else (Says([]), n)
  }

  function Plotted(plot: Plot, events: bool, programmes: bool, index: bool): Source<nat> {
    Source((n, rung, now) => Sabotage(plot, n, rung), events, programmes, index)
  }

  predicate Scene(plot: Plot) {
    plot.below.Clock? || plot.below.Lineup? || plot.below.Titles?
  }

  /** What a question that gets no sections leaves: everything but when its own rung is next due. */
  predicate Unmoved(sch: Schedule, src: Source<nat>, p: Progress<nat>, q: Progress<nat>, now: Instant, rung: Rung) {
    && p.Going? && q.Going? && q.s.world == p.s.world && q.s.started == p.s.started
    && q.s.sentClock == p.s.sentClock && q.s.sentLineup == p.s.sentLineup && q.s.sentTitles == p.s.sentTitles
    && q.s.clockedAt == p.s.clockedAt && q.s.lineupAt == p.s.lineupAt && q.s.titledAt == p.s.titledAt
    && (rung != Lineup ==> q.s.nextLineup == p.s.nextLineup) && (rung != Titles ==> q.s.nextTitles == p.s.nextTitles)
    && (rung != Events ==> q.s.nextEvents == p.s.nextEvents)
    && (rung != Programmes ==> q.s.nextProgrammes == p.s.nextProgrammes)
    && (rung != Index ==> q.s.nextIndex == p.s.nextIndex)
    && (q.asks == p.asks || q.asks == p.asks + [Ask(rung, now, Says([]))])
  }

  lemma {:induction false} SilentTurn(sch: Schedule, src: Source<nat>, p: Progress<nat>, now: Instant, rung: Rung)
    requires p.Going? && (Due(sch, src, p.s, now, rung) ==> src.ask(p.s.world, rung, now) == (Says([]), p.s.world))
    ensures Unmoved(sch, src, p, Turn(sch, src, p, now, rung), now, rung)
  {
    hide Due, Plus;
  }

  // ---- The last wave of a plot -----------------------------------------------------------------------------------------

  ghost predicate Spoke(asks: seq<Ask>, rung: Rung) {
    exists k :: 0 <= k < |asks| && Speaks(asks[k]) && asks[k].rung == rung
  }

  ghost predicate OnlySpoke(asks: seq<Ask>, rung: Rung) {
    forall k :: 0 <= k < |asks| && Speaks(asks[k]) ==> asks[k].rung == rung
  }

  /** The wave in which `above` speaks, before it has and after. */
  ghost predicate Final(sch: Schedule, src: Source<nat>, plot: Plot, p: Progress<nat>, now: Instant, done: bool) {
    && p.Going? && OnlySpoke(p.asks, plot.above)
    && p.s.world == Level(plot.below) + (if done then 3 else 2)
    && (if done then Spoke(p.asks, plot.above) else Due(sch, src, p.s, now, plot.above))
  }

  lemma {:induction false} FinalTurn(sch: Schedule, src: Source<nat>, plot: Plot, p: Progress<nat>, now: Instant, rung: Rung,
                                     done: bool)
    requires Scene(plot) && src.ask == Plotted(plot, src.events, src.programmes, src.index).ask
    requires Final(sch, src, plot, p, now, done)
    ensures Final(sch, src, plot, Turn(sch, src, p, now, rung), now, done || rung == plot.above)
  {
    var q := Turn(sch, src, p, now, rung);
    if !done && rung == plot.above {
      var ask := Ask(rung, now, Says([SECTION]));
      assert q.asks == p.asks + [ask];
      assert q.asks[|p.asks|] == ask;
    } else {
      SilentTurn(sch, src, p, now, rung);
      if done {
        var k :| 0 <= k < |p.asks| && Speaks(p.asks[k]) && p.asks[k].rung == plot.above;
        assert q.asks[k] == p.asks[k];
      }
    }
  }

  lemma {:induction false} FinalWave(sch: Schedule, src: Source<nat>, plot: Plot, s: State<nat>, now: Instant)
    requires Scene(plot) && src.ask == Plotted(plot, src.events, src.programmes, src.index).ask
    requires s.started && s.world == Level(plot.below) + 2 && Due(sch, src, s, now, plot.above)
    ensures var p := WaveAt(sch, src, s, now); p.Going? && OnlySpoke(p.asks, plot.above) && Spoke(p.asks, plot.above)
  {
    hide Turn, Plotted;
    var a := plot.above;
    var p0 := Going([], s, []);
    assert Final(sch, src, plot, p0, now, false);
    hide Final, Due;
    FinalTurn(sch, src, plot, p0, now, Clock, false);
    var p1 := Turn(sch, src, p0, now, Clock);
    FinalTurn(sch, src, plot, p1, now, Lineup, a == Clock);
    var p2 := Turn(sch, src, p1, now, Lineup);
    FinalTurn(sch, src, plot, p2, now, Titles, a == Clock || a == Lineup);
    var p3 := Turn(sch, src, p2, now, Titles);
    FinalTurn(sch, src, plot, p3, now, Events, a == Clock || a == Lineup || a == Titles);
    var p4 := Turn(sch, src, p3, now, Events);
    FinalTurn(sch, src, plot, p4, now, Programmes, a != Programmes && a != Index);
    var p5 := Turn(sch, src, p4, now, Programmes);
    FinalTurn(sch, src, plot, p5, now, Index, a != Index);
    FinalMeans(sch, src, plot, Turn(sch, src, p5, now, Index), now);
  }

  lemma FinalMeans(sch: Schedule, src: Source<nat>, plot: Plot, p: Progress<nat>, now: Instant)
    requires Final(sch, src, plot, p, now, true)
    ensures p.Going? && OnlySpoke(p.asks, plot.above) && Spoke(p.asks, plot.above)
  {
  }

  // ---- The waves before it -----------------------------------------------------------------------------------------------

  /** Only the clock has spoken, at 0, and no other rung has been asked. */
  predicate Clocked(s: State<nat>) {
    && s.started && s.world == 1 && s.sentClock && s.clockedAt == 0 && !s.sentLineup && !s.sentTitles
    && s.nextLineup == s.nextTitles == s.nextEvents == s.nextProgrammes == s.nextIndex == 0
  }

  /** The line-up has spoken too, at `at`. */
  predicate Lined(s: State<nat>, at: Instant) {
    && s.started && s.world == 2 && s.sentLineup && s.lineupAt == at && !s.sentTitles
    && s.nextTitles == s.nextEvents == s.nextProgrammes == s.nextIndex == 0
  }

  lemma {:induction false} RestAsksNothing(sch: Schedule, src: Source<nat>, p: Progress<nat>, now: Instant)
    requires p.Broken? || forall rung :: rung in Next(Clock) ==> !Due(sch, src, p.s, now, rung)
    ensures forall rung :: rung in Next(Clock) ==> Turn(sch, src, p, now, rung) == p
  {
    hide Due;
  }

  lemma {:induction false} OpeningWave(sch: Schedule, src: Source<nat>, plot: Plot)
    requires src.ask == Plotted(plot, src.events, src.programmes, src.index).ask && sch.clockSettle > 0
    requires plot.below == Lineup || plot.below == Titles
    ensures var p := WaveAt(sch, src, Fresh(0), 0); p.Going? && Clocked(p.s) && OnlySpoke(p.asks, Clock)
  {
    var p1 := Turn(sch, src, Going([], Started(Fresh(0), 0), []), 0, Clock);
    assert p1.Going? && Clocked(p1.s) && OnlySpoke(p1.asks, Clock);
    RestAsksNothing(sch, src, p1, 0);
    hide Turn, Due, Clocked, OnlySpoke;
  }

  /** No settle after the clock: the line-up fails in the clock's own wave. */
  lemma {:induction false} OpeningBreaks(sch: Schedule, src: Source<nat>, plot: Plot)
    requires src.ask == Plotted(plot, src.events, src.programmes, src.index).ask && sch.clockSettle == 0
    requires plot == Plot(Clock, Lineup, Lineup)
    ensures var p := WaveAt(sch, src, Fresh(0), 0);
            p.Broken? && p.s.started && p.s.world == 2 && Due(sch, src, p.s, 0, Lineup)
  {
    var p1 := Turn(sch, src, Going([], Started(Fresh(0), 0), []), 0, Clock);
    var p2 := Turn(sch, src, p1, 0, Lineup);
    assert p2.Broken? && p2.s.started && p2.s.world == 2 && Due(sch, src, p2.s, 0, Lineup);
    RestAsksNothing(sch, src, p2, 0);
    hide Turn, Due;
  }

  /** The wave in which the line-up speaks, up to the line-up. */
  lemma {:induction false} LineupSpeaks(sch: Schedule, src: Source<nat>, plot: Plot, s: State<nat>)
    requires src.ask == Plotted(plot, src.events, src.programmes, src.index).ask && Clocked(s)
    requires plot.below == Lineup || plot.below == Titles
    ensures var p := Turn(sch, src, Turn(sch, src, Going([], s, []), sch.clockSettle, Clock), sch.clockSettle, Lineup);
            p.Going? && Lined(p.s, sch.clockSettle) && OnlySpoke(p.asks, Lineup)
  {
    var p0 := Going([], s, []);
    SilentTurn(sch, src, p0, sch.clockSettle, Clock);
    var p1 := Turn(sch, src, p0, sch.clockSettle, Clock);
    assert Due(sch, src, p1.s, sch.clockSettle, Lineup);
  }

  lemma {:induction false} LineupWave(sch: Schedule, src: Source<nat>, plot: Plot, s: State<nat>)
    requires src.ask == Plotted(plot, src.events, src.programmes, src.index).ask && Clocked(s)
    requires plot.below == Titles && sch.lineupSettle > 0 && sch.clockSettle + sch.lineupSettle < END
    ensures var p := WaveAt(sch, src, s, sch.clockSettle);
            p.Going? && Lined(p.s, sch.clockSettle) && OnlySpoke(p.asks, Lineup)
  {
    LineupSpeaks(sch, src, plot, s);
    var now := sch.clockSettle;
    var p2 := Turn(sch, src, Turn(sch, src, Going([], s, []), now, Clock), now, Lineup);
    assert forall rung :: rung in Next(Lineup) ==> !Due(sch, src, p2.s, now, rung);
    hide Due, Lined, OnlySpoke, Clocked;
    assert Turn(sch, src, p2, now, Titles) == p2 && Turn(sch, src, p2, now, Events) == p2;
    assert Turn(sch, src, p2, now, Programmes) == p2 && Turn(sch, src, p2, now, Index) == p2;
    hide Turn;
  }

  /** No settle after the line-up: the titles fail in its own wave. */
  lemma {:induction false} LineupBreaks(sch: Schedule, src: Source<nat>, plot: Plot, s: State<nat>)
    requires src.ask == Plotted(plot, src.events, src.programmes, src.index).ask && Clocked(s) && sch.lineupSettle == 0
    requires plot == Plot(Lineup, Titles, Titles)
    ensures var p := WaveAt(sch, src, s, sch.clockSettle);
            p.Broken? && p.s.started && p.s.world == 3 && Due(sch, src, p.s, sch.clockSettle, Titles)
  {
    LineupSpeaks(sch, src, plot, s);
    var now := sch.clockSettle;
    var p2 := Turn(sch, src, Turn(sch, src, Going([], s, []), now, Clock), now, Lineup);
    var p3 := Turn(sch, src, p2, now, Titles);
    assert p3.Broken? && p3.s.started && p3.s.world == 3 && Due(sch, src, p3.s, now, Titles);
    RestAsksNothing(sch, src, p3, now);
    hide Turn, Due, Lined, OnlySpoke, Clocked;
  }

  /** Who fails behind the titles: the index itself if nothing holds it back, or the events or the
      programmes, which the titles share their wave with. */
  predicate Culprit(sch: Schedule, src: Source<nat>, faulty: Rung) {
    match faulty
    case Events => src.events
    case Programmes => src.programmes && !src.events
    case Index => src.index && sch.titleSettle == 0
    case _ => false
  }

  /** The wave in which the titles speak, up to the titles. */
  lemma {:induction false} TitlesSpeak(sch: Schedule, src: Source<nat>, plot: Plot, s: State<nat>, now: Instant)
    requires src.ask == Plotted(plot, src.events, src.programmes, src.index).ask && plot.below == Titles
    requires Lined(s, sch.clockSettle) && now == sch.clockSettle + sch.lineupSettle && Culprit(sch, src, plot.faulty)
    ensures var p := Turn(sch, src, Turn(sch, src, Turn(sch, src, Going([], s, []), now, Clock), now, Lineup), now, Titles);
            && p.Going? && p.s.started && p.s.world == 3 && p.s.sentTitles && p.s.titledAt == now
            && p.s.sentLineup && p.s.lineupAt == sch.clockSettle
            && p.s.nextEvents == p.s.nextProgrammes == p.s.nextIndex == 0
  {
    var p0 := Going([], s, []);
    SilentTurn(sch, src, p0, now, Clock);
    var p1 := Turn(sch, src, p0, now, Clock);
    SilentTurn(sch, src, p1, now, Lineup);
    var p2 := Turn(sch, src, p1, now, Lineup);
    assert Due(sch, src, p2.s, now, Titles);
    hide Unmoved;
  }

  lemma {:induction false} TitlesBreak(sch: Schedule, src: Source<nat>, plot: Plot, s: State<nat>, now: Instant)
    requires src.ask == Plotted(plot, src.events, src.programmes, src.index).ask && plot.below == Titles
    requires Lined(s, sch.clockSettle) && now == sch.clockSettle + sch.lineupSettle && Culprit(sch, src, plot.faulty)
    ensures var p := WaveAt(sch, src, s, now);
            p.Broken? && p.s.started && p.s.world == 4 && p.s.sentTitles && p.s.titledAt == now && p.s.nextIndex == 0
  {
    TitlesSpeak(sch, src, plot, s, now);
    var p3 := Turn(sch, src, Turn(sch, src, Turn(sch, src, Going([], s, []), now, Clock), now, Lineup), now, Titles);
    AfterTitles(sch, src, plot, p3, now);
    hide Turn, Due, Lined, Culprit;
  }

  lemma {:induction false} AfterTitles(sch: Schedule, src: Source<nat>, plot: Plot, p: Progress<nat>, now: Instant)
    requires src.ask == Plotted(plot, src.events, src.programmes, src.index).ask && plot.below == Titles
    requires now == sch.clockSettle + sch.lineupSettle && Culprit(sch, src, plot.faulty)
    requires p.Going? && p.s.started && p.s.world == 3 && p.s.sentTitles && p.s.titledAt == now
    requires p.s.sentLineup && p.s.lineupAt == sch.clockSettle
    requires p.s.nextEvents == p.s.nextProgrammes == p.s.nextIndex == 0
    ensures var q := Turn(sch, src, Turn(sch, src, Turn(sch, src, p, now, Events), now, Programmes), now, Index);
            q.Broken? && q.s.started && q.s.world == 4 && q.s.sentTitles && q.s.titledAt == now && q.s.nextIndex == 0
  {
    var p4 := Turn(sch, src, p, now, Events);
    if plot.faulty != Events {
      SilentTurn(sch, src, p, now, Events);
      var p5 := Turn(sch, src, p4, now, Programmes);
      if plot.faulty != Programmes { SilentTurn(sch, src, p4, now, Programmes); }
    }
  }

  // ---- Exactly when ---------------------------------------------------------------------------------------------------------

  lemma {:induction false} OneMore(sch: Schedule, src: Source<nat>, s: State<nat>, instants: seq<Instant>, t: Instant)
    ensures var p := WaveAt(sch, src, Polled(sch, src, s, instants).s, t);
            && Polled(sch, src, s, instants + [t]).s == p.s
            && Aired(sch, src, s, instants + [t]) == Aired(sch, src, s, instants) + AiredIn(p)
  {
    var all := instants + [t];
    assert all[..|all| - 1] == instants;
    hide WaveAt;
  }

  lemma SpokeJoins(a: seq<Ask>, b: seq<Ask>, rung: Rung)
    ensures Spoke(a + b, rung) <==> Spoke(a, rung) || Spoke(b, rung)
  {
    var all := a + b;
    if k :| 0 <= k < |all| && Speaks(all[k]) && all[k].rung == rung { assert if k < |a| then a[k] == all[k] else b[k - |a|] == all[k]; }
    if k :| 0 <= k < |a| && Speaks(a[k]) && a[k].rung == rung { assert all[k] == a[k]; }
    if k :| 0 <= k < |b| && Speaks(b[k]) && b[k].rung == rung { assert all[|a| + k] == b[k]; }
  }

  lemma OnlyOne(asks: seq<Ask>, rung: Rung, other: Rung)
    requires OnlySpoke(asks, rung) && rung != other
    ensures !Spoke(asks, other)
  {
  }

  lemma {:induction false} NeverFirst(asks: seq<Ask>, rung: Rung)
    requires !Spoke(asks, rung)
    ensures First(asks, rung) == None
  {
    if asks == [] {
    } else {
      var n := |asks| - 1;
      SpokeJoins(asks[..n], [asks[n]], rung);
      assert asks[..n] + [asks[n]] == asks && [asks[n]][0] == asks[n];
      NeverFirst(asks[..n], rung);
    }
  }

  /** A rung that speaks with nothing from the rung below on the air. */
  lemma {:induction false} OutOfOrder(h: seq<Ask>, asks: seq<Ask>, below: Rung, above: Rung)
    requires !Spoke(h, below) && OnlySpoke(asks, above) && Spoke(asks, above) && Below(above) == Some(below)
    ensures !Ordered(h + asks)
  {
    hide First;
    var k :| 0 <= k < |asks| && Speaks(asks[k]) && asks[k].rung == above;
    var all := h + asks;
    assert all[|h| + k] == asks[k] && all[..|h| + k] == h + asks[..k];
    OnlyOne(asks[..k], above, below);
    SpokeJoins(h, asks[..k], below);
    NeverFirst(h + asks[..k], below);
  }

  ghost predicate Rising(instants: seq<Instant>) {
    forall i, j :: 0 <= i < j < |instants| ==> instants[i] <= instants[j]
  }

  /** Instants as a driver gives them, none of them within a settle of the counter's end. */
  ghost predicate Driven(sch: Schedule, instants: seq<Instant>) {
    Rising(instants) && forall k :: 0 <= k < |instants| ==> Early(sch, instants[k])
  }

  /** The settles leave the counter room: together they are less than half of it. */
  predicate Room(sch: Schedule) {
    2 * (sch.clockSettle + sch.lineupSettle + sch.titleSettle) < END
  }

  lemma {:induction false} NoClockSettle(sch: Schedule, src: Source<nat>, plot: Plot)
    requires src.ask == Plotted(plot, src.events, src.programmes, src.index).ask && sch.clockSettle == 0
    requires plot == Plot(Clock, Lineup, Lineup)
    ensures !Ordered(Aired(sch, src, Fresh(0), [0, 0]))
  {
    hide WaveAt, Ordered, Due, First, Clocked, Lined, Culprit, Plotted, Spoke, OnlySpoke, Polled, Aired;
    NoneYet(sch, src);
    OneMore(sch, src, Fresh(0), [], 0);
    OneMore(sch, src, Fresh(0), [0], 0);
    assert [] + [0] == [0] && [0] + [0] == [0, 0];
    OpeningBreaks(sch, src, plot);
    FinalWave(sch, src, plot, Polled(sch, src, Fresh(0), [0]).s, 0);
    NeverSpoke(Clock);
    OutOfOrder(Aired(sch, src, Fresh(0), [0]), WaveAt(sch, src, Polled(sch, src, Fresh(0), [0]).s, 0).asks, Clock, Lineup);
  }

  lemma {:induction false} NoLineupSettle(sch: Schedule, src: Source<nat>, plot: Plot)
    requires src.ask == Plotted(plot, src.events, src.programmes, src.index).ask && sch.clockSettle > 0 && sch.lineupSettle == 0
    requires plot == Plot(Lineup, Titles, Titles)
    ensures !Ordered(Aired(sch, src, Fresh(0), [0, sch.clockSettle, sch.clockSettle]))
  {
    hide WaveAt, Ordered, Due, First, Clocked, Lined, Culprit, Plotted, Spoke, OnlySpoke, Polled, Aired;
    NoneYet(sch, src);
    var cs := sch.clockSettle;
    OneMore(sch, src, Fresh(0), [], 0);
    OneMore(sch, src, Fresh(0), [0], cs);
    OneMore(sch, src, Fresh(0), [0, cs], cs);
    assert [] + [0] == [0] && [0] + [cs] == [0, cs] && [0, cs] + [cs] == [0, cs, cs];
    OpeningWave(sch, src, plot);
    LineupBreaks(sch, src, plot, Polled(sch, src, Fresh(0), [0]).s);
    FinalWave(sch, src, plot, Polled(sch, src, Fresh(0), [0, cs]).s, cs);
    var first := WaveAt(sch, src, Fresh(0), 0).asks;
    OnlyOne(first, Clock, Lineup);
    assert Aired(sch, src, Fresh(0), [0, cs]) == first;
    OutOfOrder(Aired(sch, src, Fresh(0), [0, cs]), WaveAt(sch, src, Polled(sch, src, Fresh(0), [0, cs]).s, cs).asks, Lineup, Titles);
  }

  lemma {:induction false} IndexAlone(sch: Schedule, src: Source<nat>, plot: Plot, a: Instant, b: Instant, c: Instant)
    requires src.ask == Plotted(plot, src.events, src.programmes, src.index).ask && sch.clockSettle > 0 && sch.lineupSettle > 0
    requires plot == Plot(Titles, plot.faulty, Index) && Culprit(sch, src, plot.faulty) && src.index && Room(sch)
    requires a == sch.clockSettle && b == a + sch.lineupSettle && c == b + sch.titleSettle
    ensures !Ordered(Aired(sch, src, Fresh(0), [0, a, b, c]))
  {
    hide WaveAt, Ordered, Due, First, Clocked, Lined, Culprit, Plotted, Spoke, OnlySpoke, Polled, Aired;
    NoneYet(sch, src);
    OneMore(sch, src, Fresh(0), [], 0);
    OneMore(sch, src, Fresh(0), [0], a);
    OneMore(sch, src, Fresh(0), [0, a], b);
    OneMore(sch, src, Fresh(0), [0, a, b], c);
    assert [] + [0] == [0] && [0] + [a] == [0, a] && [0, a] + [b] == [0, a, b] && [0, a, b] + [c] == [0, a, b, c];
    OpeningWave(sch, src, plot);
    LineupWave(sch, src, plot, Polled(sch, src, Fresh(0), [0]).s);
    TitlesBreak(sch, src, plot, Polled(sch, src, Fresh(0), [0, a]).s, b);
    var s := Polled(sch, src, Fresh(0), [0, a, b]).s;
    IndexIsDue(sch, src, s, b, c);
    FinalWave(sch, src, plot, s, c);
    var first, second := WaveAt(sch, src, Fresh(0), 0).asks, WaveAt(sch, src, Polled(sch, src, Fresh(0), [0]).s, a).asks;
    OnlyOne(first, Clock, Titles);
    OnlyOne(second, Lineup, Titles);
    SpokeJoins(first, second, Titles);
    assert Aired(sch, src, Fresh(0), [0, a, b]) == first + second;
    OutOfOrder(Aired(sch, src, Fresh(0), [0, a, b]), WaveAt(sch, src, s, c).asks, Titles, Index);
  }

  lemma NeverSpoke(rung: Rung)
    ensures !Spoke([], rung)
  {
  }

  lemma NoneYet(sch: Schedule, src: Source<nat>)
    ensures Polled(sch, src, Fresh(0), []).s == Fresh(0) && Aired(sch, src, Fresh(0), []) == []
  {
  }

  lemma IndexIsDue(sch: Schedule, src: Source<nat>, s: State<nat>, b: Instant, c: Instant)
    requires src.index && s.sentTitles && s.titledAt == b && s.nextIndex == 0 && c == b + sch.titleSettle
    ensures Due(sch, src, s, c, Index)
  {
  }

  /** A schedule that does not keep the order is upset by some sources, over instants that run up. */
  lemma {:induction false} OrderUpset(sch: Schedule, events: bool, programmes: bool, index: bool)
      returns (src: Source<nat>, instants: seq<Instant>)
    requires Room(sch) && !KeepsOrder(sch, events, programmes, index)
    ensures src.events == events && src.programmes == programmes && src.index == index
    ensures Driven(sch, instants) && !Ordered(Aired(sch, src, Fresh(0), instants))
  {
    hide Ordered, Aired;
    var a := sch.clockSettle;
    if a == 0 {
      src, instants := Plotted(Plot(Clock, Lineup, Lineup), events, programmes, index), [0, 0];
      NoClockSettle(sch, src, Plot(Clock, Lineup, Lineup));
    } else if sch.lineupSettle == 0 {
      src, instants := Plotted(Plot(Lineup, Titles, Titles), events, programmes, index), [0, a, a];
      NoLineupSettle(sch, src, Plot(Lineup, Titles, Titles));
    } else {
      var plot := Plot(Titles, if sch.titleSettle == 0 then Index else if events then Events else Programmes, Index);
      var b: Instant := a + sch.lineupSettle;
      src, instants := Plotted(plot, events, programmes, index), [0, a, b, b + sch.titleSettle];
      IndexAlone(sch, src, plot, a, b, b + sch.titleSettle);
    }
  }

  /** Every source of this shape, over every such run from the start, puts its rungs on the air in order. */
  ghost predicate AlwaysOrdered(sch: Schedule, events: bool, programmes: bool, index: bool) {
    forall src: Source<nat>, world: nat, instants: seq<Instant> ::
      src.events == events && src.programmes == programmes && src.index == index && Driven(sch, instants) ==>
        Ordered(Aired(sch, src, Fresh(world), instants))
  }

  /** The order on the air survives failures exactly with settles after the clock and the line-up and, if
      there is an index, a settle after the titles and neither events nor programmes. */
  lemma {:induction false} OrderSurvivesIff(sch: Schedule, events: bool, programmes: bool, index: bool)
    requires Room(sch)
    ensures AlwaysOrdered(sch, events, programmes, index) <==> KeepsOrder(sch, events, programmes, index)
  {
    hide Ordered, Aired, KeepsOrder, Room;
    if KeepsOrder(sch, events, programmes, index) {
      forall src: Source<nat>, world: nat, instants: seq<Instant>
        | src.events == events && src.programmes == programmes && src.index == index && Driven(sch, instants)
        ensures Ordered(Aired(sch, src, Fresh(world), instants))
      {
        OrderSurvives(sch, src, world, instants);
      }
    } else {
      var src, instants := OrderUpset(sch, events, programmes, index);
    }
  }
}
