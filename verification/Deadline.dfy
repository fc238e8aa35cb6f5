/** wait_time, and what a deadline promises of whole runs. Between wait_time's reading of the clock and that of
    ping_recv, which starts the window, some time passes: the delay. */
module Deadline {
  import opened Clock
  import opened Ints
  import opened Seqs
  import opened Session
  import opened SessionInvariants
  import opened Timing

  // ----- one window

  function Micros(w: uint32): real {
    w as real / 1000000.0
  }

  function Delay(asked: Timespec, start: Timespec): real {
    Seconds(start) - Seconds(asked)
  }

  lemma EndInSeconds(start: Timespec, w: uint32)
    ensures Seconds(EndTime(start, w)) == Seconds(start) + Micros(w)
  {
    hide EndTime;
    EndIsExact(start, w);
    SecondsIsTotal(start);
    SecondsIsTotal(EndTime(start, w));
  }

  /** Every window, from where ping_recv starts it, ends by the deadline plus the fraction of a second in
      packetWait plus the delay. */
  lemma GrantedWindowEnds(deadline: real, asked: Timespec, start: Timespec, packetWait: uint32)
    requires deadline >= 0.0 && WaitTime(deadline, asked, packetWait) > 0
    ensures Seconds(EndTime(start, WaitTime(deadline, asked, packetWait)))
            <= deadline + Micros(packetWait % MICROS) + Delay(asked, start)
  {
    hide EndTime;
    EndInSeconds(start, WaitTime(deadline, asked, packetWait));
  }

  /** A window is as long as the deadline allows: all of packetWait, or to within a microsecond of the deadline,
      but for the delay. Without a deadline it is all of packetWait. */
  lemma GrantedInFull(deadline: real, asked: Timespec, start: Timespec, packetWait: uint32)
    ensures var w := WaitTime(deadline, asked, packetWait);
            || w == packetWait
            || 0.0 <= deadline <= Seconds(asked)
            || (w < packetWait
                && deadline - Micros(1) < Seconds(EndTime(start, w)) - Delay(asked, start) <= deadline)
    ensures deadline < 0.0 ==> WaitTime(deadline, asked, packetWait) == packetWait
  {
    hide EndTime;
    EndInSeconds(start, WaitTime(deadline, asked, packetWait));
  }

  /** When a window outlasts the deadline. If more is left than packetWait's whole seconds: iff it is less than
      packetWait and the delay together. Otherwise: iff the delay exceeds what truncation to microseconds cut off. */
  lemma OutlastsIff(deadline: real, asked: Timespec, start: Timespec, packetWait: uint32)
    requires deadline >= 0.0 && WaitTime(deadline, asked, packetWait) > 0
    ensures var left := deadline - Seconds(asked);
            Seconds(EndTime(start, WaitTime(deadline, asked, packetWait))) > deadline
            <==> if left > (packetWait / MICROS) as real then left < Micros(packetWait) + Delay(asked, start)
                 else left * 1000000.0 - (left * 1000000.0).Floor as real < Delay(asked, start) * 1000000.0
  {
    hide EndTime;
    EndInSeconds(start, WaitTime(deadline, asked, packetWait));
  }

  /** No window outlasts any deadline, at any reading and with this delay. */
  ghost predicate NeverOutlasts(packetWait: uint32, delay: real) {
    forall deadline: real, asked: Timespec :: deadline >= 0.0 && WaitTime(deadline, asked, packetWait) > 0
      ==> Seconds(asked) + delay + Micros(WaitTime(deadline, asked, packetWait)) <= deadline
  }

  /** The deadline is kept iff packetWait is a whole number of seconds and no time passes before the window starts. */
  lemma DeadlineKeptIff(packetWait: uint32, delay: real)
    requires packetWait > 0 && delay >= 0.0
    ensures NeverOutlasts(packetWait, delay) <==> packetWait % MICROS == 0 && delay == 0.0
  {
    var now := Timespec(0, 0);
    assert packetWait as real == (packetWait / MICROS) as real * 1000000.0 + (packetWait % MICROS) as real;
    if packetWait % MICROS != 0 {
      var left := (packetWait / MICROS) as real + Micros(packetWait % MICROS) / 2.0;
      assert WaitTime(left, now, packetWait) == packetWait;
      assert Seconds(now) + delay + Micros(WaitTime(left, now, packetWait)) > left;
    } else if delay > 0.0 {
      var left := (packetWait / MICROS) as real;
      assert WaitTime(left, now, packetWait) == packetWait;
      assert Seconds(now) + delay + Micros(WaitTime(left, now, packetWait)) > left;
    } else {
      forall deadline: real, asked: Timespec | deadline >= 0.0 && WaitTime(deadline, asked, packetWait) > 0
        ensures Seconds(asked) + delay + Micros(WaitTime(deadline, asked, packetWait)) <= deadline
      {
        assert packetWait as real == (packetWait / MICROS) as real * 1000000.0;
      }
    }
  }

  /** When the main loop stops for lack of time. Short of a second, any time left grants a whole window. */
  lemma NoTimeIff(deadline: real, now: Timespec, packetWait: uint32)
    ensures WaitTime(deadline, now, packetWait) == 0
       <==> || packetWait == 0
            || (deadline >= 0.0 && deadline <= Seconds(now))
            || (deadline >= 0.0 && packetWait >= MICROS && (deadline - Seconds(now)) * 1000000.0 < 1.0)
  {
  }

  // ----- whole runs under a steady clock

  function AfterTurns(from: int, turns: seq<Turn>): int
    decreases |turns|
  {
    if turns == [] then from else AfterTurns(AfterTurn(turns[0]), turns[1..])
  }

  ghost predicate SteadyRounds(cfg: Config, from: int, rounds: seq<Round>)
    decreases |rounds|
  {
    rounds == [] ||
    var r := rounds[0];
    var w := WaitTime(cfg.deadline, r.asked.t, cfg.packetWait);
    && Genuine(r.sentAt) && Genuine(r.asked) && Genuine(r.start)
    && from <= Total(r.sentAt.t) <= Total(r.asked.t) <= Total(r.start.t)
    && SteadyTurns(Total(r.start.t), EndTime(r.start.t, w), w, r.turns)
    && SteadyRounds(cfg, AfterTurns(Total(r.start.t), r.turns), rounds[1..])
  }

  /** A probe sent at or after the deadline. */
  predicate Late(deadline: real, a: Action) {
    deadline >= 0.0 && a.Probed? && Seconds(a.at) >= deadline
  }

  ghost predicate NoneNegative(log: seq<Action>) {
    forall i :: 0 <= i < |log| && log[i].Answered? ==> log[i].reply.rtt >= 0.0
  }

  /** At time t: no probe is ahead of the clock, no reply before its probe, and no probe was late. */
  ghost predicate Timely(deadline: real, s: State, t: int) {
    && Total(s.lastSent) <= t
    && NoneNegative(s.log)
    && forall i :: 0 <= i < |s.log| ==> !Late(deadline, s.log[i])
  }

  lemma {:induction false} DispatchTimely(cfg: Config, s: State, from: int, batch: seq<Arrival>)
    requires Timely(cfg.deadline, s, from) && SteadyBatch(from, batch)
    ensures Timely(cfg.deadline, Dispatch(cfg, s, batch), AfterBatch(from, batch))
    decreases |batch|
  {
    if batch != [] {
      SecondsKeepOrder(s.lastSent, batch[0].at.t);
      DispatchTimely(cfg, OnArrival(cfg, s, batch[0]), Total(batch[0].at.t), batch[1..]);
    }
  }

  lemma {:induction false} AfterTurnsLater(from: int, end: Timespec, w: uint32, turns: seq<Turn>)
    requires SteadyTurns(from, end, w, turns)
    ensures from <= AfterTurns(from, turns)
    decreases |turns|
  {
    if turns != [] {
      if turns[0].outcome.Ready? { BatchTakesTime(turns[0].woke, turns[0].outcome.batch); }
      AfterTurnsLater(AfterTurn(turns[0]), end, w, turns[1..]);
    }
  }

  lemma ReactTimely(cfg: Config, s: State, had: uint32, t: Turn)
    requires Timely(cfg.deadline, s, t.woke) && (t.outcome.Ready? ==> SteadyBatch(t.woke, t.outcome.batch))
    ensures Timely(cfg.deadline, React(cfg, s, had, t.outcome), AfterTurn(t))
  {
    hide Dispatch;
    match t.outcome
    case Ready(batch) => DispatchTimely(cfg, s.(log := s.log + [Dispatched(|batch|)]), t.woke, batch);
    case _ =>
  }

  lemma {:induction false} TurnsTimely(cfg: Config, s: State, had: uint32, end: Timespec, w: uint32, from: int,
                                       turns: seq<Turn>)
    requires Timely(cfg.deadline, s, from) && SteadyTurns(from, end, w, turns)
    ensures Timely(cfg.deadline, Turns(cfg, s, had, end, w, turns).s, AfterTurns(from, turns))
    decreases |turns|
  {
    hide React;
    AfterTurnsLater(from, end, w, turns);
    if turns != [] {
      var t := turns[0];
      AfterTurnsLater(AfterTurn(t), end, w, turns[1..]);
      ReactTimely(cfg, Checked(s, t), had, t);
      TurnsTimely(cfg, React(cfg, Checked(s, t), had, t.outcome), had, end, w, AfterTurn(t), turns[1..]);
    }
  }

  /** No reply is timed before its probe, and a late probe is the last thing a run does. */
  ghost predicate EndsTimely(deadline: real, log: seq<Action>) {
    && NoneNegative(log)
    && forall i :: 0 <= i < |log| && Late(deadline, log[i]) ==> i == |log| - 1
  }

  lemma {:induction false} RoundsTimely(cfg: Config, s: State, c: nat, from: int, rounds: seq<Round>)
    requires Timely(cfg.deadline, s, from) && SteadyRounds(cfg, from, rounds)
    ensures EndsTimely(cfg.deadline, Rounds(cfg, s, c, rounds).s.log)
    decreases |rounds|
  {
    hide WaitTime, Turns, SteadyTurns, EndTime, AfterTurns, Seconds, Total;
    if c < cfg.maxCount && !s.die && rounds != [] && !rounds[0].signalled {
      var r := rounds[0];
      var s1 := Ask(cfg, Send(s, r), r);
      var w := WaitTime(cfg.deadline, r.asked.t, cfg.packetWait);
      if w > 0 {
        SecondsKeepOrder(r.sentAt.t, r.asked.t);
        NoTimeIff(cfg.deadline, r.asked.t, cfg.packetWait);
        var s2 := Opened(s1, w, r.asked.t, r.start);
        TurnsTimely(cfg, s2, s1.recvd, EndTime(r.start.t, w), w, Total(r.start.t), r.turns);
        var l := Listen(cfg, s1, w, r.asked.t, r.start, r.turns);
        if l.Closed? { RoundsTimely(cfg, l.s, c + 1, AfterTurns(Total(r.start.t), r.turns), rounds[1..]); }
      }
    }
  }

  /** The environment of a run whose clock never steps back, from its first reading on. */
  ghost predicate Steady(cfg: Config, begin: Reading, rounds: seq<Round>) {
    Genuine(begin) && Total(begin.t) >= 0 && SteadyRounds(Armed(cfg, begin), Total(begin.t), rounds)
  }

  /** Whole-run deadline safety: every window of every run, from where it starts, ends by the deadline plus the
      fraction of a second in packetWait plus its delay; and under a steady clock a probe at or after the deadline
      is the last thing a run does, so there is at most one. */
  lemma DeadlineHolds(cfg: Config, begin: Reading, rounds: seq<Round>, i: nat)
    requires cfg.deadline >= 0.0 && Total(begin.t) >= 0
    ensures var s := Ping(cfg, begin, rounds).s;
            var deadline := Armed(cfg, begin).deadline;
            && deadline == (if cfg.deadline > 0.0 then cfg.deadline + Seconds(begin.t) else 0.0)
            && (i < |s.log| && s.log[i].Listened? ==>
                  var a := s.log[i];
                  Seconds(EndTime(a.start, a.w))
                  <= deadline + Micros(cfg.packetWait % MICROS) + Delay(a.asked, a.start))
            && (i < |s.log| && Steady(cfg, begin, rounds) && s.log[i].Probed? && Seconds(s.log[i].at) >= deadline ==>
                  i == |s.log| - 1)
  {
    hide EndTime, Micros, Delay;
    var s, armed := Ping(cfg, begin, rounds).s, Armed(cfg, begin);
    SecondsIsTotal(begin.t);
    PingKeeps(cfg, begin, rounds);
    if i < |s.log| && s.log[i].Listened? {
      GrantedWindowEnds(armed.deadline, s.log[i].asked, s.log[i].start, cfg.packetWait);
    }
    if Steady(cfg, begin, rounds) {
      RoundsTimely(armed, Start(cfg, begin), 0, Total(begin.t), rounds);
    }
  }

  // ----- when windows close

  function Instant(t: int): real {
    t as real / 1000000000.0
  }

  /** No step of the program takes longer than the lag: from wait_time's reading to ping_recv's, and around its loop. */
  ghost predicate Prompt(cfg: Config, lag: nat, rounds: seq<Round>) {
    forall i :: 0 <= i < |rounds| ==> PromptRound(cfg, lag, rounds[i])
  }

  ghost predicate PromptRound(cfg: Config, lag: nat, r: Round) {
    var w := WaitTime(cfg.deadline, r.asked.t, cfg.packetWait);
    && Normal(r.start.t) && Total(r.start.t) <= Total(r.asked.t) + lag
    && PromptTurns(lag, Total(r.start.t), EndTime(r.start.t, w), w, r.turns)
  }

  /** Every window in the record has closed by this time. */
  ghost predicate ShutBy(limit: real, log: seq<Action>) {
    forall i :: 0 <= i < |log| && log[i].Shut? ==> Instant(log[i].when) <= limit
  }

  lemma {:induction false} DispatchShutsNothing(cfg: Config, s: State, batch: seq<Arrival>, limit: real)
    requires ShutBy(limit, s.log)
    ensures ShutBy(limit, Dispatch(cfg, s, batch).log)
    decreases |batch|
  {
    hide Instant;
    if batch != [] { DispatchShutsNothing(cfg, OnArrival(cfg, s, batch[0]), batch[1..], limit); }
  }

  lemma ReactShutsNothing(cfg: Config, s: State, had: uint32, o: Outcome, limit: real)
    requires ShutBy(limit, s.log)
    ensures ShutBy(limit, React(cfg, s, had, o).log)
  {
    hide Instant, Dispatch;
    match o
    case Ready(batch) => DispatchShutsNothing(cfg, s.(log := s.log + [Dispatched(|batch|)]), batch, limit);
    case _ =>
  }

  lemma {:induction false} TurnsShutNothing(cfg: Config, s: State, had: uint32, end: Timespec, w: uint32,
                                            turns: seq<Turn>, limit: real)
    requires ShutBy(limit, s.log)
    ensures ShutBy(limit, Turns(cfg, s, had, end, w, turns).s.log)
    decreases |turns|
  {
    hide Instant, PlanTurn, React;
    if turns != [] {
      var s1, o := Checked(s, turns[0]), turns[0].outcome;
      ReactShutsNothing(cfg, s1, had, o, limit);
      TurnsShutNothing(cfg, React(cfg, s1, had, o), had, end, w, turns[1..], limit);
    }
  }

  /** The latest time at which a window may close. */
  function ClosingLimit(cfg: Config, lag: nat): real {
    cfg.deadline + Micros(cfg.packetWait % MICROS) + 2.0 * Instant(lag)
  }

  lemma ListenShutBy(cfg: Config, lag: nat, s: State, r: Round)
    requires cfg.deadline >= 0.0 && PromptRound(cfg, lag, r) && ShutBy(ClosingLimit(cfg, lag), s.log)
    requires WaitTime(cfg.deadline, r.asked.t, cfg.packetWait) > 0
    ensures var w := WaitTime(cfg.deadline, r.asked.t, cfg.packetWait);
            ShutBy(ClosingLimit(cfg, lag), Listen(cfg, s, w, r.asked.t, r.start, r.turns).s.log)
  {
    hide EndTime, WaitTime, PromptTurns, Turns;
    var w, end := WaitTime(cfg.deadline, r.asked.t, cfg.packetWait), ClosingLimit(cfg, lag);
    TurnsShutNothing(cfg, Opened(s, w, r.asked.t, r.start), s.recvd, EndTime(r.start.t, w), w, r.turns, end);
    WindowClosesBy(cfg, s, w, r.asked.t, r.start, lag, r.turns);
    GrantedWindowEnds(cfg.deadline, r.asked.t, r.start.t, cfg.packetWait);
    EndInSeconds(r.start.t, w);
    SecondsIsTotal(r.asked.t);
    SecondsIsTotal(r.start.t);
  }

  lemma {:induction false} RoundsShutBy(cfg: Config, lag: nat, s: State, c: nat, rounds: seq<Round>)
    requires cfg.deadline >= 0.0 && Prompt(cfg, lag, rounds) && ShutBy(ClosingLimit(cfg, lag), s.log)
    ensures ShutBy(ClosingLimit(cfg, lag), Rounds(cfg, s, c, rounds).s.log)
    decreases |rounds|
  {
    hide WaitTime, Listen, ClosingLimit, PromptRound, Instant;
    if c < cfg.maxCount && !s.die && rounds != [] && !rounds[0].signalled {
      var r := rounds[0];
      var s1 := Ask(cfg, Send(s, r), r);
      var w := WaitTime(cfg.deadline, r.asked.t, cfg.packetWait);
      if w > 0 {
        ListenShutBy(cfg, lag, s1, r);
        var l := Listen(cfg, s1, w, r.asked.t, r.start, r.turns);
        if l.Closed? { RoundsShutBy(cfg, lag, l.s, c + 1, rounds[1..]); }
      }
    }
  }

  /** In every prompt run with a deadline, every window has closed by the deadline, plus the fraction of a second
      in packetWait, plus two lags: one before the window starts, one around its loop. */
  lemma WindowsCloseByDeadline(cfg: Config, begin: Reading, lag: nat, rounds: seq<Round>, i: nat)
    requires cfg.deadline >= 0.0 && Total(begin.t) >= 0 && Prompt(Armed(cfg, begin), lag, rounds)
    ensures var s := Ping(cfg, begin, rounds).s;
            i < |s.log| && s.log[i].Shut? ==>
              Instant(s.log[i].when)
              <= Armed(cfg, begin).deadline + Micros(cfg.packetWait % MICROS) + 2.0 * Instant(lag)
  {
    SecondsIsTotal(begin.t);
    RoundsShutBy(Armed(cfg, begin), lag, Start(cfg, begin), 0, rounds);
  }

  // ----- a run that outlasts its deadline with whole seconds

  /** The clock at a number of microseconds after a second. */
  function At(sec: int, micros: nat): Reading {
    Reading(Timespec(sec, 1000 * micros), false)
  }

  /** One probe at one second; the window opens d microseconds after wait_time looked, and times out. */
  function LateRounds(d: nat): seq<Round> {
    [Round(false, false, At(1, 0), At(1, 0), At(1, d),
           [Turn(At(1, d), false, TimedOut, Total(At(2, d).t))])]
  }

  /** With -W 1 and -w 2, every delay of d microseconds, under a second, makes a steady run whose window closes
      d microseconds after the deadline. */
  lemma LateRun(cfg: Config, d: nat)
    requires cfg.deadline == 2.0 && cfg.packetWait == 1_000_000 && cfg.maxCount > 0 && 0 < d < MICROS
    ensures var begin := At(0, 0);
            var log := Ping(cfg, begin, LateRounds(d)).s.log;
            && Steady(cfg, begin, LateRounds(d)) && Armed(cfg, begin).deadline == 2.0
            && log != [] && Last(log) == Shut(2 * NANOS + 1000 * d) && Instant(2 * NANOS + 1000 * d) > 2.0
  {
    var begin, rounds := At(0, 0), LateRounds(d);
    var armed, r := Armed(cfg, begin), rounds[0];
    assert armed.deadline == 2.0 && WaitTime(2.0, r.asked.t, 1_000_000) == 1_000_000;
    var end := EndTime(r.start.t, 1_000_000);
    assert PlanTurn(end, r.start.t, 1_000_000) == Plan(Timeval(1, 0), false);
    assert SteadyTurns(r.turns[0].woke, end, 1_000_000, r.turns[1..]);
    assert SteadyRounds(armed, AfterTurns(Total(r.start.t), r.turns), rounds[1..]);
    var s1 := Ask(armed, Send(Start(cfg, begin), r), r);
    var x := Listen(armed, s1, 1_000_000, r.asked.t, r.start, r.turns);
    assert x.Closed? && x.at == 2 * NANOS + 1000 * d;
    assert Rounds(armed, x.s, 1, rounds[1..]).s == x.s;
  }
}
