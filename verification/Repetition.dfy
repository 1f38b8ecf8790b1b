// internal/broadcast/carousel.go: how often each rung is asked. Over any run a rung is asked exactly when
// its own period has passed since it last answered, the rung below has gone out and settled, and no
// earlier rung of the same wave has failed.
module Repetition {
  import opened Words
  import opened Carousel

  /** The period a rung repeats on. */
  function Period(sch: Schedule, rung: Rung): Instant {
    match rung
    case Clock => sch.clockPeriod
    case Lineup => sch.lineupPeriod
    case Titles => sch.titlePeriod
    case Events => sch.eventPeriod
    case Programmes => sch.programmePeriod
    case Index => sch.indexPeriod
  }

  predicate Present<W>(src: Source<W>, rung: Rung) {
    match rung
    case Events => src.events
    case Programmes => src.programmes
    case Index => src.index
    case _ => true
  }

  /** The order of transmission. */
  function Place(rung: Rung): nat {
    match rung
    case Clock => 0
    case Lineup => 1
    case Titles => 2
    case Events => 3
    case Programmes => 4
    case Index => 5
  }

  /** When a rung last answered, with something or with nothing. */
  function Last(asks: seq<Ask>, rung: Rung): Option<Instant> {
    if asks == [] then None
    else
      var n := |asks| - 1;
      if asks[n].rung == rung && asks[n].answer.Says? then Some(asks[n].at) else Last(asks[..n], rung)
  }

  /** The rung has never answered, or its period has passed since it did. */
  predicate Rested(sch: Schedule, before: seq<Ask>, rung: Rung, now: Instant) {
    Last(before, rung).Some? ==> now >= Plus(Last(before, rung).value, Period(sch, rung))
  }

  /** The rung below has given something, and its settle has passed. */
  predicate Open(sch: Schedule, before: seq<Ask>, rung: Rung, now: Instant) {
    match Gate(sch, rung)
    case None => true
    case Some((below, settle)) =>
      First(before, below).Some? && now >= Plus(First(before, below).value, settle)
  }

  /** No rung before this one failed in the wave. */
  ghost predicate Reached(wave: seq<Ask>, rung: Rung) {
    forall k :: 0 <= k < |wave| && wave[k].answer.Fails? ==> Place(wave[k].rung) >= Place(rung)
  }

  ghost predicate Asked(wave: seq<Ask>, rung: Rung) {
    exists k :: 0 <= k < |wave| && wave[k].rung == rung
  }

  // ---- What the carousel's fields say about the run -------------------------------------------

  function Next<W>(s: State<W>, rung: Rung): Instant {
    match rung
    case Clock => s.nextClock
    case Lineup => s.nextLineup
    case Titles => s.nextTitles
    case Events => s.nextEvents
    case Programmes => s.nextProgrammes
    case Index => s.nextIndex
  }

  /** Each rung's instant is its last answer and its own period; one that has not answered yet waits for
      nothing after the run's first instant. */
  ghost predicate Timed<W>(sch: Schedule, s: State<W>, asks: seq<Ask>, from: Instant) {
    forall rung :: if Last(asks, rung).Some? then Next(s, rung) == Plus(Last(asks, rung).value, Period(sch, rung))
                   else Next(s, rung) <= from
  }

  lemma {:induction false} LastGrows(asks: seq<Ask>, ask: Ask, rung: Rung)
    ensures Last(asks + [ask], rung) == if ask.rung == rung && ask.answer.Says? then Some(ask.at) else Last(asks, rung)
  {
    assert (asks + [ask])[..|asks|] == asks;
  }

  lemma {:induction false} DueIff<W>(sch: Schedule, src: Source<W>, s: State<W>, asks: seq<Ask>, from: Instant, now: Instant, rung: Rung)
    requires Remembers(s, asks) && Timed(sch, s, asks, from) && now >= from
    ensures Due(sch, src, s, now, rung) <==> Present(src, rung) && Open(sch, asks, rung, now) && Rested(sch, asks, rung, now)
  {
    hide First, Last, Plus;
    assert if Last(asks, rung).Some? then Next(s, rung) == Plus(Last(asks, rung).value, Period(sch, rung)) else Next(s, rung) <= from;
  }

  lemma {:induction false} AdvanceTimes<W>(sch: Schedule, s: State<W>, now: Instant, rung: Rung, spoke: bool, other: Rung)
    ensures Next(Advance(sch, s, now, rung, spoke), other) ==
            if other == rung then Plus(now, Period(sch, rung)) else Next(s, other)
  {
    hide Plus;
  }

  lemma {:induction false} TurnIsTimed<W>(sch: Schedule, src: Source<W>, before: seq<Ask>, p: Progress<W>, from: Instant, now: Instant, rung: Rung)
    requires Timed(sch, p.s, before + p.asks, from)
    ensures var q := Turn(sch, src, p, now, rung); Timed(sch, q.s, before + q.asks, from)
  {
    hide Last, Plus, Due, Advance, Period, Next;
    if p.Going? && Due(sch, src, p.s, now, rung) {
      var (answer, world) := src.ask(p.s.world, rung, now);
      var h, ask, q := before + p.asks, Ask(rung, now, answer), Turn(sch, src, p, now, rung);
      assert before + q.asks == h + [ask];
      forall other
        ensures if Last(h + [ask], other).Some? then Next(q.s, other) == Plus(Last(h + [ask], other).value, Period(sch, other))
                else Next(q.s, other) <= from
      {
        LastGrows(h, ask, other);
        NextKeeps(p.s, world, other);
        if answer.Says? { AdvanceTimes(sch, p.s.(world := world), now, rung, answer.sections != [], other); }
      }
    }
  }

  lemma NextKeeps<W>(s: State<W>, world: W, rung: Rung)
    ensures Next(s.(world := world), rung) == Next(s, rung)
  {
  }

  // ---- One wave -----------------------------------------------------------------------------

  const LADDER: seq<Rung> := [Clock, Lineup, Titles, Events, Programmes, Index]

  /** The wave after its first i turns. */
  function Turns<W>(sch: Schedule, src: Source<W>, s: State<W>, now: Instant, i: nat): Progress<W>
    requires i <= 6
  {
    if i == 0 then Going([], Started(s, now), []) else Turn(sch, src, Turns(sch, src, s, now, i - 1), now, LADDER[i - 1])
  }

  lemma {:induction false} SixTurns<W>(sch: Schedule, src: Source<W>, s: State<W>, now: Instant)
    ensures Turns(sch, src, s, now, 6) == WaveAt(sch, src, s, now)
  {
    var p0 := Turns(sch, src, s, now, 0);
    var p1 := Turns(sch, src, s, now, 1);
    assert p1 == Turn(sch, src, p0, now, Clock);
    var p2 := Turns(sch, src, s, now, 2);
    assert p2 == Turn(sch, src, p1, now, Lineup);
    var p3 := Turns(sch, src, s, now, 3);
    assert p3 == Turn(sch, src, p2, now, Titles);
    var p4 := Turns(sch, src, s, now, 4);
    assert p4 == Turn(sch, src, p3, now, Events);
    var p5 := Turns(sch, src, s, now, 5);
    assert p5 == Turn(sch, src, p4, now, Programmes);
    assert Turns(sch, src, s, now, 6) == Turn(sch, src, p5, now, Index);
    hide Turn;
  }

  ghost predicate Within(asks: seq<Ask>, low: nat, high: nat) {
    forall k :: 0 <= k < |asks| ==> low <= Place(asks[k].rung) < high
  }

  /** A turn asks its rung once or not at all, and fails exactly when an answer did. */
  lemma {:induction false} OneTurn<W>(sch: Schedule, src: Source<W>, p: Progress<W>, now: Instant, rung: Rung)
    ensures var q := Turn(sch, src, p, now, rung);
            if p.Going? && Due(sch, src, p.s, now, rung) then
              var ask := Ask(rung, now, src.ask(p.s.world, rung, now).0);
              q.asks == p.asks + [ask] && (q.Broken? <==> ask.answer.Fails?)
            else q == p
  {
    hide Due, Advance;
  }

  /** From one turn to a later one only the rungs between are asked. */
  lemma {:induction false} TurnsAppend<W>(sch: Schedule, src: Source<W>, s: State<W>, now: Instant, i: nat, j: nat)
    requires i <= j <= 6
    ensures var a, b := Turns(sch, src, s, now, i).asks, Turns(sch, src, s, now, j).asks;
            |a| <= |b| && b[..|a|] == a && Within(b[|a|..], i, j)
  {
    if i < j {
      hide Turn, Turns, Due, Within;
      TurnsAppend(sch, src, s, now, i, j - 1);
      var a, b, c := Turns(sch, src, s, now, i).asks, Turns(sch, src, s, now, j - 1).asks, Turns(sch, src, s, now, j).asks;
      NextTurn(sch, src, s, now, j - 1);
      if c == b { WithinMore(b[|a|..], i, j - 1); } else { WithinOneMore(a, b, c[|b|], i, j - 1); }
    } else {
      var a := Turns(sch, src, s, now, i).asks;
      assert a[..|a|] == a && a[|a|..] == [];
    }
  }

  lemma {:induction false} NextTurn<W>(sch: Schedule, src: Source<W>, s: State<W>, now: Instant, i: nat)
    requires i < 6
    ensures var b, c := Turns(sch, src, s, now, i).asks, Turns(sch, src, s, now, i + 1).asks;
            c == b || (|c| == |b| + 1 && c == b + [c[|b|]] && Place(c[|b|].rung) == i)
  {
    OneTurn(sch, src, Turns(sch, src, s, now, i), now, LADDER[i]);
    assert Place(LADDER[i]) == i;
    hide Turn, Due;
  }

  lemma WithinMore(asks: seq<Ask>, low: nat, high: nat)
    requires Within(asks, low, high)
    ensures Within(asks, low, high + 1)
  {
  }

  lemma WithinOneMore(a: seq<Ask>, b: seq<Ask>, ask: Ask, low: nat, high: nat)
    requires |a| <= |b| && b[..|a|] == a && Within(b[|a|..], low, high) && low <= Place(ask.rung) == high
    ensures (b + [ask])[..|a|] == a && Within((b + [ask])[|a|..], low, high + 1)
  {
    assert (b + [ask])[|a|..] == b[|a|..] + [ask];
  }

  lemma {:induction false} BrokenIff<W>(sch: Schedule, src: Source<W>, s: State<W>, now: Instant, i: nat)
    requires i <= 6
    ensures var p := Turns(sch, src, s, now, i); p.Broken? <==> exists k :: 0 <= k < |p.asks| && p.asks[k].answer.Fails?
  {
    if i > 0 {
      BrokenIff(sch, src, s, now, i - 1);
      var p, q := Turns(sch, src, s, now, i - 1), Turns(sch, src, s, now, i);
      OneTurn(sch, src, p, now, LADDER[i - 1]);
      hide Turn, Turns, Due;
      if q != p {
        assert forall k :: 0 <= k < |p.asks| ==> q.asks[k] == p.asks[k];
        assert q.Broken? <==> q.asks[|p.asks|].answer.Fails?;
      }
    }
  }

  lemma {:induction false} LastSkips(a: seq<Ask>, b: seq<Ask>, rung: Rung)
    requires forall k :: 0 <= k < |b| ==> b[k].rung != rung
    ensures Last(a + b, rung) == Last(a, rung)
    decreases |b|
  {
    if b == [] {
      assert a + b == a;
    } else {
      var n := |b| - 1;
      assert a + b == (a + b[..n]) + [b[n]];
      LastGrows(a + b[..n], b[n], rung);
      LastSkips(a, b[..n], rung);
    }
  }

  lemma {:induction false} FirstSkips(a: seq<Ask>, b: seq<Ask>, rung: Rung)
    requires forall k :: 0 <= k < |b| ==> b[k].rung != rung
    ensures First(a + b, rung) == First(a, rung)
    decreases |b|
  {
    if b == [] {
      assert a + b == a;
    } else {
      var n := |b| - 1;
      assert a + b == (a + b[..n]) + [b[n]];
      FirstGrows(a + b[..n], b[n], rung);
      FirstSkips(a, b[..n], rung);
    }
  }

  lemma {:induction false} TurnsKeep<W>(sch: Schedule, src: Source<W>, before: seq<Ask>, s: State<W>, from: Instant, now: Instant, i: nat)
    requires i <= 6 && Safe(sch, before) && Remembers(s, before) && Timed(sch, Started(s, now), before, from)
    ensures var p := Turns(sch, src, s, now, i);
            Safe(sch, before + p.asks) && Remembers(p.s, before + p.asks) && Timed(sch, p.s, before + p.asks, from)
  {
    hide Turn, Timed, Safe, First;
    if i == 0 {
      assert before + [] == before;
    } else {
      TurnsKeep(sch, src, before, s, from, now, i - 1);
      var p := Turns(sch, src, s, now, i - 1);
      TurnIsSafe(sch, src, before, p, now, LADDER[i - 1]);
      TurnIsTimed(sch, src, before, p, from, now, LADDER[i - 1]);
      hide Remembers;
    }
  }

  /** Looking back on the finished wave gives what the rung's turn saw. */
  lemma {:induction false} HindsightAgrees(sch: Schedule, before: seq<Ask>, early: seq<Ask>, late: seq<Ask>, now: Instant, rung: Rung)
    requires Within(early, 0, Place(rung)) && Within(late, Place(rung), 6)
    ensures Rested(sch, before + early, rung, now) == Rested(sch, before, rung, now)
    ensures Open(sch, before + early, rung, now) == Open(sch, before + (early + late), rung, now)
    ensures Reached(early + late, rung) <==> forall k :: 0 <= k < |early| ==> !early[k].answer.Fails?
  {
    LastSkips(before, early, rung);
    assert before + (early + late) == (before + early) + late;
    if Gate(sch, rung).Some? {
      var below := Gate(sch, rung).value.0;
      assert Place(below) < Place(rung);
      FirstSkips(before + early, late, below);
    }
    hide First, Last, Plus, Gate;
    var all := early + late;
    assert forall k :: 0 <= k < |early| ==> all[k] == early[k];
    assert forall k :: |early| <= k < |all| ==> all[k] == late[k - |early|];
  }

  // The wave in three: before a rung's turn, at it, and after it.
  lemma {:induction false} WaveInThree<W>(sch: Schedule, src: Source<W>, s: State<W>, now: Instant, rung: Rung)
    ensures var i := Place(rung);
            var p, q, wave := Turns(sch, src, s, now, i), Turns(sch, src, s, now, i + 1), WaveAt(sch, src, s, now).asks;
            && |p.asks| <= |q.asks| <= |wave| && wave == p.asks + wave[|p.asks|..] && wave[..|p.asks|] == p.asks
            && Within(p.asks, 0, i) && Within(wave[|p.asks|..], i, 6) && Within(wave[|q.asks|..], i + 1, 6)
            && q == Turn(sch, src, p, now, rung)
            && (|q.asks| > |p.asks| ==> |q.asks| == |p.asks| + 1 && wave[|p.asks|].rung == rung)
  {
    var i := Place(rung);
    assert LADDER[i] == rung;
    var p, q := Turns(sch, src, s, now, i), Turns(sch, src, s, now, i + 1);
    assert q == Turn(sch, src, p, now, rung);
    assert Turns(sch, src, s, now, 0).asks == [];
    hide Turn, Turns, WaveAt, Within, Due;
    SixTurns(sch, src, s, now);
    TurnsAppend(sch, src, s, now, 0, i);
    TurnsAppend(sch, src, s, now, i, 6);
    TurnsAppend(sch, src, s, now, i + 1, 6);
    OneTurn(sch, src, p, now, rung);
    var wave := WaveAt(sch, src, s, now).asks;
    assert p.asks[0..] == p.asks;
    if |q.asks| > |p.asks| { assert wave[..|q.asks|][|p.asks|] == wave[|p.asks|]; }
  }

  /** A wave asks a rung exactly when the rung is there, its turn came, the rung below has settled and its
      own period has passed. */
  lemma {:induction false} WaveAsksIff<W>(sch: Schedule, src: Source<W>, before: seq<Ask>, s: State<W>, from: Instant, now: Instant, rung: Rung)
    requires Safe(sch, before) && Remembers(s, before) && Timed(sch, Started(s, now), before, from) && now >= from
    ensures var wave := WaveAt(sch, src, s, now).asks;
            Asked(wave, rung) <==> && Present(src, rung) && Reached(wave, rung)
                                   && Open(sch, before + wave, rung, now) && Rested(sch, before, rung, now)
  {
    hide Turn, Turns, WaveAt, Timed, Safe, Remembers, Due, Open, Rested, Reached, Asked, Within, First;
    var i := Place(rung);
    var p, q, wave := Turns(sch, src, s, now, i), Turns(sch, src, s, now, i + 1), WaveAt(sch, src, s, now).asks;
    WaveInThree(sch, src, s, now, rung);
    OneTurn(sch, src, p, now, rung);
    BrokenIff(sch, src, s, now, i);
    TurnsKeep(sch, src, before, s, from, now, i);
    DueIff(sch, src, p.s, before + p.asks, from, now, rung);
    HindsightAgrees(sch, before, p.asks, wave[|p.asks|..], now, rung);
    AskedAtTurn(wave, |p.asks|, |q.asks|, rung);
  }

  // A rung is among a wave's questions exactly if the turn that is its own added one.
  lemma AskedAtTurn(wave: seq<Ask>, n: nat, m: nat, rung: Rung)
    requires n <= m <= |wave| && m <= n + 1
    requires Within(wave[..n], 0, Place(rung)) && Within(wave[m..], Place(rung) + 1, 6)
    requires m == n + 1 ==> wave[n].rung == rung
    ensures Asked(wave, rung) <==> m == n + 1
  {
    assert forall k :: 0 <= k < n ==> wave[..n][k] == wave[k];
    assert forall k :: m <= k < |wave| ==> wave[m..][k - m] == wave[k];
  }

  // ---- Runs -----------------------------------------------------------------------------------

  /** No instant is before the run's first. */
  ghost predicate FromFirst(instants: seq<Instant>) {
    forall k :: 0 <= k < |instants| ==> instants[0] <= instants[k]
  }

  lemma {:induction false} RunIsTimed<W>(sch: Schedule, src: Source<W>, world: W, instants: seq<Instant>)
    requires instants != [] && FromFirst(instants)
    ensures var r := Polled(sch, src, Fresh(world), instants);
            r.s.started && Safe(sch, r.asks) && Remembers(r.s, r.asks) && Timed(sch, r.s, r.asks, instants[0])
    decreases |instants|
  {
    var n := |instants| - 1;
    var r, now := Polled(sch, src, Fresh(world), instants[..n]), instants[n];
    EveryRunIsSafe(sch, src, world, instants[..n]);
    if n > 0 {
      assert FromFirst(instants[..n]);
      RunIsTimed(sch, src, world, instants[..n]);
    } else {
      assert r == Run(Fresh(world), [], []);
    }
    assert Timed(sch, Started(r.s, now), r.asks, instants[0]);
    TurnsKeep(sch, src, r.asks, r.s, instants[0], now, 6);
    SixTurns(sch, src, r.s, now);
    WaveStarts(sch, src, r.s, now);
    hide WaveAt, Turns, Safe, Remembers, Timed, Polled;
  }

  lemma {:induction false} TurnsStart<W>(sch: Schedule, src: Source<W>, s: State<W>, now: Instant, i: nat)
    requires i <= 6
    ensures Turns(sch, src, s, now, i).s.started
  {
    hide Due;
    if i > 0 { TurnsStart(sch, src, s, now, i - 1); }
  }

  lemma {:induction false} WaveStarts<W>(sch: Schedule, src: Source<W>, s: State<W>, now: Instant)
    ensures WaveAt(sch, src, s, now).s.started
  {
    TurnsStart(sch, src, s, now, 6);
    SixTurns(sch, src, s, now);
    hide WaveAt, Turns;
  }

  /** The questions before the k-th instant of a run, and those of its wave. */
  function Before<W>(sch: Schedule, src: Source<W>, world: W, instants: seq<Instant>, k: nat): seq<Ask>
    requires k < |instants|
  {
    Polled(sch, src, Fresh(world), instants[..k]).asks
  }

  function WaveOf<W>(sch: Schedule, src: Source<W>, world: W, instants: seq<Instant>, k: nat): seq<Ask>
    requires k < |instants|
  {
    WaveAt(sch, src, Polled(sch, src, Fresh(world), instants[..k]).s, instants[k]).asks
  }

  /** Over every run whose instants do not fall below its first: the wave at the k-th instant asks a rung
      exactly when the rung is there, no earlier rung failed in that wave, the rung below has given
      something and settled, and the rung's own period has passed since it last answered. */
  lemma {:induction false} AskedIff<W>(sch: Schedule, src: Source<W>, world: W, instants: seq<Instant>, k: nat, rung: Rung)
    requires k < |instants| && FromFirst(instants)
    ensures var before, wave, now := Before(sch, src, world, instants, k), WaveOf(sch, src, world, instants, k), instants[k];
            Asked(wave, rung) <==> && Present(src, rung) && Reached(wave, rung)
                                   && Open(sch, before + wave, rung, now) && Rested(sch, before, rung, now)
  {
    var r, now := Polled(sch, src, Fresh(world), instants[..k]), instants[k];
    EveryRunIsSafe(sch, src, world, instants[..k]);
    if k > 0 {
      assert FromFirst(instants[..k]);
      RunIsTimed(sch, src, world, instants[..k]);
    } else {
      assert r == Run(Fresh(world), [], []);
    }
    assert Timed(sch, Started(r.s, now), r.asks, instants[0]);
    WaveAsksIff(sch, src, r.asks, r.s, instants[0], now, rung);
  }

  /** Every question to a rung comes at least the rung's period after its last answer. */
  ghost predicate Paced(sch: Schedule, asks: seq<Ask>) {
    forall k :: 0 <= k < |asks| ==> Rested(sch, asks[..k], asks[k].rung, asks[k].at)
  }

  lemma {:induction false} PacedGrows(sch: Schedule, asks: seq<Ask>, ask: Ask)
    requires Paced(sch, asks) && Rested(sch, asks, ask.rung, ask.at)
    ensures Paced(sch, asks + [ask])
  {
    var all := asks + [ask];
    forall k | 0 <= k < |all| ensures Rested(sch, all[..k], all[k].rung, all[k].at) {
      assert all[..k] == if k < |asks| then asks[..k] else asks;
    }
  }

  lemma {:induction false} TurnIsPaced<W>(sch: Schedule, src: Source<W>, before: seq<Ask>, p: Progress<W>, from: Instant, now: Instant, rung: Rung)
    requires Paced(sch, before + p.asks) && Remembers(p.s, before + p.asks) && Timed(sch, p.s, before + p.asks, from) && now >= from
    ensures Paced(sch, before + Turn(sch, src, p, now, rung).asks)
  {
    hide Paced, Rested, Open, Timed, Remembers, Due;
    OneTurn(sch, src, p, now, rung);
    DueIff(sch, src, p.s, before + p.asks, from, now, rung);
    var q := Turn(sch, src, p, now, rung);
    if q != p {
      var ask := Ask(rung, now, src.ask(p.s.world, rung, now).0);
      assert before + q.asks == (before + p.asks) + [ask];
      PacedGrows(sch, before + p.asks, ask);
    }
    hide Turn;
  }

  lemma {:induction false} TurnsArePaced<W>(sch: Schedule, src: Source<W>, before: seq<Ask>, s: State<W>, from: Instant, now: Instant, i: nat)
    requires i <= 6 && Safe(sch, before) && Remembers(s, before) && Timed(sch, Started(s, now), before, from) && now >= from
    requires Paced(sch, before)
    ensures Paced(sch, before + Turns(sch, src, s, now, i).asks)
  {
    hide Turn, Timed, Safe, Remembers, Paced;
    if i == 0 {
      assert before + [] == before;
    } else {
      TurnsArePaced(sch, src, before, s, from, now, i - 1);
      TurnsKeep(sch, src, before, s, from, now, i - 1);
      TurnIsPaced(sch, src, before, Turns(sch, src, s, now, i - 1), from, now, LADDER[i - 1]);
    }
  }

  lemma {:induction false} EveryRunIsPaced<W>(sch: Schedule, src: Source<W>, world: W, instants: seq<Instant>)
    requires FromFirst(instants)
    ensures Paced(sch, Polled(sch, src, Fresh(world), instants).asks)
  {
    if instants != [] {
      var n := |instants| - 1;
      var r, now := Polled(sch, src, Fresh(world), instants[..n]), instants[n];
      assert FromFirst(instants[..n]);
      EveryRunIsPaced(sch, src, world, instants[..n]);
      EveryRunIsSafe(sch, src, world, instants[..n]);
      if n > 0 { RunIsTimed(sch, src, world, instants[..n]); } else { assert r == Run(Fresh(world), [], []); }
      assert Timed(sch, Started(r.s, now), r.asks, instants[0]);
      TurnsArePaced(sch, src, r.asks, r.s, instants[0], now, 6);
      SixTurns(sch, src, r.s, now);
      hide WaveAt, Turns, Safe, Remembers, Timed, Paced;
    }
  }

  // ---- In plain sums --------------------------------------------------------------------------

  /** The run's instants do not fall. */
  ghost predicate NeverFalls(instants: seq<Instant>) {
    forall j, k :: 0 <= j <= k < |instants| ==> instants[j] <= instants[k]
  }

  ghost predicate InOrder(asks: seq<Ask>) {
    forall j, k :: 0 <= j <= k < |asks| ==> asks[j].at <= asks[k].at
  }

  lemma {:induction false} AsksInOrder<W>(sch: Schedule, src: Source<W>, s: State<W>, instants: seq<Instant>)
    requires NeverFalls(instants)
    ensures var asks := Polled(sch, src, s, instants).asks;
            InOrder(asks) && forall k :: 0 <= k < |asks| ==> asks[k].at <= instants[|instants| - 1]
  {
    if instants != [] {
      var n := |instants| - 1;
      AsksInOrder(sch, src, s, instants[..n]);
      WaveAsksNow(sch, src, Polled(sch, src, s, instants[..n]).s, instants[n]);
      hide WaveAt;
    }
  }

  /** A rung that has answered last answered then or later. */
  lemma {:induction false} LastIsLater(asks: seq<Ask>, j: nat)
    requires j < |asks| && asks[j].answer.Says? && InOrder(asks)
    ensures Last(asks, asks[j].rung).Some?
    ensures asks[j].at <= Last(asks, asks[j].rung).value <= asks[|asks| - 1].at
    decreases |asks|
  {
    var n := |asks| - 1;
    if j < n && !(asks[n].rung == asks[j].rung && asks[n].answer.Says?) {
      assert InOrder(asks[..n]);
      LastIsLater(asks[..n], j);
    }
  }

  /** Over every run whose instants do not fall, two questions to one rung, the first of them answered, are
      at least that rung's own period apart. */
  lemma {:induction false} PeriodApart<W>(sch: Schedule, src: Source<W>, world: W, instants: seq<Instant>, j: nat, k: nat)
    requires NeverFalls(instants)
    ensures var asks := Polled(sch, src, Fresh(world), instants).asks;
            j < k < |asks| && asks[j].rung == asks[k].rung && asks[j].answer.Says?
            && asks[k].at + Period(sch, asks[k].rung) < 0x1_0000_0000_0000_0000 ==>
              asks[k].at - asks[j].at >= Period(sch, asks[k].rung)
  {
    var asks := Polled(sch, src, Fresh(world), instants).asks;
    EveryRunIsPaced(sch, src, world, instants);
    AsksInOrder(sch, src, Fresh(world), instants);
    hide Polled, InOrder, Paced;
    if j < k < |asks| && asks[j].rung == asks[k].rung && asks[j].answer.Says? { PacedApart(sch, asks, j, k); }
  }

  lemma {:induction false} PacedApart(sch: Schedule, asks: seq<Ask>, j: nat, k: nat)
    requires Paced(sch, asks) && InOrder(asks)
    requires j < k < |asks| && asks[j].rung == asks[k].rung && asks[j].answer.Says?
    ensures asks[k].at + Period(sch, asks[k].rung) < 0x1_0000_0000_0000_0000 ==>
              asks[k].at - asks[j].at >= Period(sch, asks[k].rung)
  {
    assert asks[k - 1].at <= asks[k].at;
    assert InOrder(asks[..k]);
    assert Rested(sch, asks[..k], asks[k].rung, asks[k].at);
    hide InOrder, Paced, Plus, Last, Period;
    LastIsLater(asks[..k], j);
    SettleIsADelay(Last(asks[..k], asks[k].rung).value, Period(sch, asks[k].rung), asks[k].at);
  }

  /** The sums at the k-th instant stay below 2^64: the last answer and the period, the gate and its settle. */
  predicate NoWrap(sch: Schedule, before: seq<Ask>, wave: seq<Ask>, rung: Rung) {
    && (Last(before, rung).Some? ==> Last(before, rung).value + Period(sch, rung) < 0x1_0000_0000_0000_0000)
    && match Gate(sch, rung)
       case None => true
       case Some((below, settle)) =>
         First(before + wave, below).Some? ==> First(before + wave, below).value + settle < 0x1_0000_0000_0000_0000
  }

  /** The gate in plain sums: the line-up waits for the clock, the index for the titles, the rest for the
      line-up. */
  predicate Settled(sch: Schedule, asks: seq<Ask>, rung: Rung, now: Instant) {
    var below := if rung.Lineup? then Clock else if rung.Index? then Titles else Lineup;
    var settle := if rung.Lineup? then sch.clockSettle else if rung.Index? then sch.titleSettle else sch.lineupSettle;
    rung.Clock? || (First(asks, below).Some? && now - First(asks, below).value >= settle)
  }

  /** As long as the sums stay below 2^64: once its own period has passed since its last answer and its gate
      is open, a rung is asked at the next instant whose wave reaches it, and it is asked at no other. */
  lemma {:induction false} AskedOnTime<W>(sch: Schedule, src: Source<W>, world: W, instants: seq<Instant>, k: nat, rung: Rung)
    requires k < |instants| && NeverFalls(instants)
    requires NoWrap(sch, Before(sch, src, world, instants, k), WaveOf(sch, src, world, instants, k), rung)
    ensures var before, wave, now := Before(sch, src, world, instants, k), WaveOf(sch, src, world, instants, k), instants[k];
            Asked(wave, rung) <==> && Present(src, rung) && Reached(wave, rung) && Settled(sch, before + wave, rung, now)
                                   && (Last(before, rung).Some? ==> now - Last(before, rung).value >= Period(sch, rung))
  {
    hide Before, WaveOf, Last, First, Asked, Reached, Rested, Open, NoWrap, Settled;
    AskedIff(sch, src, world, instants, k, rung);
    InPlainSums(sch, Before(sch, src, world, instants, k), WaveOf(sch, src, world, instants, k), rung, instants[k]);
  }

  lemma InPlainSums(sch: Schedule, before: seq<Ask>, wave: seq<Ask>, rung: Rung, now: Instant)
    requires NoWrap(sch, before, wave, rung)
    ensures Open(sch, before + wave, rung, now) == Settled(sch, before + wave, rung, now)
    ensures Rested(sch, before, rung, now) == (Last(before, rung).Some? ==> now - Last(before, rung).value >= Period(sch, rung))
  {
    hide Plus, Last, First, Period;
    if Last(before, rung).Some? { SettleIsADelay(Last(before, rung).value, Period(sch, rung), now); }
    if Gate(sch, rung).Some? {
      var (below, settle) := Gate(sch, rung).value;
      if First(before + wave, below).Some? { SettleIsADelay(First(before + wave, below).value, settle, now); }
    }
  }
}
