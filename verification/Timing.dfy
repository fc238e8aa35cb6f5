/** How long a window stays open and how soon it closes, when the clock behaves and when it does not. */
module Timing {
  import opened Clock
  import opened Ints
  import opened Session

  // ----- a clock that never steps back

  /** The arrivals of a batch are timed in order, from `from` on. */
  ghost predicate SteadyBatch(from: int, batch: seq<Arrival>)
    decreases |batch|
  {
    batch == [] ||
    (Genuine(batch[0].at) && from <= Total(batch[0].at.t) && SteadyBatch(Total(batch[0].at.t), batch[1..]))
  }

  function AfterBatch(from: int, batch: seq<Arrival>): int
    decreases |batch|
  {
    if batch == [] then from else AfterBatch(Total(batch[0].at.t), batch[1..])
  }

  function AfterTurn(t: Turn): int {
    match t.outcome
    case Ready(batch) => AfterBatch(t.woke, batch)
    case _ => t.woke
  }

  /** Every clock reading works and none precedes an earlier one; a select that times out took its time. */
  ghost predicate SteadyTurns(from: int, end: Timespec, w: uint32, turns: seq<Turn>)
    decreases |turns|
  {
    turns == [] ||
    var t := turns[0];
    && Genuine(t.now) && from <= Total(t.now.t) <= t.woke
    && (t.outcome.TimedOut? ==> Total(t.now.t) + Duration(PlanTurn(end, t.now.t, w).tv) <= t.woke)
    && (t.outcome.Ready? ==> SteadyBatch(t.woke, t.outcome.batch))
    && SteadyTurns(AfterTurn(t), end, w, turns[1..])
  }

  lemma {:induction false} BatchTakesTime(from: int, batch: seq<Arrival>)
    requires SteadyBatch(from, batch)
    ensures from <= AfterBatch(from, batch)
    decreases |batch|
  {
    if batch != [] { BatchTakesTime(Total(batch[0].at.t), batch[1..]); }
  }

  // ----- how long ping_recv listens

  predicate RanOut(x: Window) {
    x.Closed? && (x.how.Quiet? || x.how.PastEnd?)
  }

  /** Listen-window bound: a window that is neither killed nor broken by select stays open for its
      microseconds, less the carry. */
  lemma {:induction false} TurnsLast(cfg: Config, s: State, had: uint32, start: Timespec, w: uint32, from: int,
                                     turns: seq<Turn>)
    requires Normal(start) && Total(start) <= from && SteadyTurns(from, EndTime(start, w), w, turns)
    ensures var x := Turns(cfg, s, had, EndTime(start, w), w, turns);
            RanOut(x) ==> x.at >= Total(start) + 1000 * w - Carry(start, w)
    decreases |turns|
  {
    hide React;
    if turns != [] {
      var t, end := turns[0], EndTime(start, w);
      GuardIffClockMovedBack(start, t.now.t, w);
      if PlanTurn(end, t.now.t, w).last {
        ExpiredEarlyByCarry(start, t.now.t, w);
      } else {
        PlanIsExact(start, t.now.t, w);
        if t.outcome.Ready? { BatchTakesTime(t.woke, t.outcome.batch); }
        if !Ends(t.outcome) {
          TurnsLast(cfg, React(cfg, Checked(s, t), had, t.outcome), had, start, w, AfterTurn(t), turns[1..]);
        }
      }
    }
  }

  lemma WindowLasts(cfg: Config, s: State, w: uint32, asked: Timespec, start: Reading, turns: seq<Turn>)
    requires Genuine(start) && SteadyTurns(Total(start.t), EndTime(start.t, w), w, turns)
    ensures var x := Listen(cfg, s, w, asked, start, turns);
            RanOut(x) ==> x.at >= Total(start.t) + 1000 * w - Carry(start.t, w)
  {
    TurnsLast(cfg, Opened(s, w, asked, start), s.recvd, start.t, w, Total(start.t), turns);
  }

  /** In every run of this window under a steady clock it is open for all its microseconds. */
  ghost predicate ListensFully(cfg: Config, s: State, w: uint32, asked: Timespec, start: Reading) {
    forall turns {:trigger Listen(cfg, s, w, asked, start, turns)} ::
      SteadyTurns(Total(start.t), EndTime(start.t, w), w, turns) && RanOut(Listen(cfg, s, w, asked, start, turns))
      ==> Listen(cfg, s, w, asked, start, turns).at >= Total(start.t) + 1000 * w
  }

  /** The missing carry in the end time is exactly what makes windows short. */
  lemma ListensFullyIff(cfg: Config, s: State, w: uint32, asked: Timespec, start: Reading)
    requires Genuine(start) && !s.die
    ensures ListensFully(cfg, s, w, asked, start) <==> start.t.nsec + 1000 * (w % MICROS) <= NANOS
  {
    if Carry(start.t, w) == 0 {
      forall turns | SteadyTurns(Total(start.t), EndTime(start.t, w), w, turns)
                     && RanOut(Listen(cfg, s, w, asked, start, turns))
        ensures Listen(cfg, s, w, asked, start, turns).at >= Total(start.t) + 1000 * w
      {
        WindowLasts(cfg, s, w, asked, start, turns);
      }
    } else {
      var turns := ShortWindow(cfg, s, w, asked, start);
    }
  }

  /** The window bound is tight: every window whose end carries closes early by all of the carry in some steady
      run, at the next full second. */
  lemma ShortWindow(cfg: Config, s: State, w: uint32, asked: Timespec, start: Reading) returns (turns: seq<Turn>)
    requires Genuine(start) && !s.die && Carry(start.t, w) > 0
    ensures SteadyTurns(Total(start.t), EndTime(start.t, w), w, turns)
    ensures var x := Listen(cfg, s, w, asked, start, turns);
            RanOut(x) && x.at == Total(start.t) + 1000 * w - Carry(start.t, w)
  {
    var end := EndTime(start.t, w);
    var now := Timespec(end.sec + 1, 0);
    var turn := Turn(Reading(now, false), false, TimedOut, Total(now));
    turns := [turn];
    EndIsExact(start.t, w);
    assert w == w / MICROS * MICROS + w % MICROS;
    assert Left(end, now).sec < 0;
    assert SteadyTurns(Total(now), end, w, turns[1..]);
    assert SteadyTurns(Total(start.t), end, w, turns);
    assert RanOut(Listen(cfg, s, w, asked, start, turns));
    assert Listen(cfg, s, w, asked, start, turns).at == Total(now);
  }

  // ----- how soon ping_recv stops

  /** Each clock reading comes at most `lag` nanoseconds after select last returned (after `from`, for the first),
      and select returns no later than it was asked to. */
  ghost predicate PromptTurns(lag: nat, from: int, end: Timespec, w: uint32, turns: seq<Turn>)
    decreases |turns|
  {
    turns == [] ||
    var t := turns[0];
    && Normal(t.now.t) && Total(t.now.t) <= from + lag
    && t.woke <= Total(t.now.t) + Duration(PlanTurn(end, t.now.t, w).tv)
    && PromptTurns(lag, t.woke, end, w, turns[1..])
  }

  lemma {:induction false} TurnsCloseBy(cfg: Config, s: State, had: uint32, start: Timespec, w: uint32, lag: nat,
                                        from: int, turns: seq<Turn>)
    requires Normal(start) && from <= Total(start) + 1000 * w && PromptTurns(lag, from, EndTime(start, w), w, turns)
    ensures var x := Turns(cfg, s, had, EndTime(start, w), w, turns);
            x.Closed? ==> x.at <= Total(start) + 1000 * w + lag
    decreases |turns|
  {
    hide React, EndTime, Total;
    if turns != [] {
      var t := turns[0];
      if !PlanTurn(EndTime(start, w), t.now.t, w).last {
        PlanIsExact(start, t.now.t, w);
        TurnsCloseBy(cfg, React(cfg, Checked(s, t), had, t.outcome), had, start, w, lag, t.woke, turns[1..]);
      }
    }
  }

  /** The dual of the window bound: a window that closes does so by its end, late at most by one lag. */
  lemma WindowClosesBy(cfg: Config, s: State, w: uint32, asked: Timespec, start: Reading, lag: nat, turns: seq<Turn>)
    requires Normal(start.t) && PromptTurns(lag, Total(start.t), EndTime(start.t, w), w, turns)
    ensures var x := Listen(cfg, s, w, asked, start, turns);
            x.Closed? ==> x.at <= Total(start.t) + 1000 * w + lag
  {
    TurnsCloseBy(cfg, Opened(s, w, asked, start), s.recvd, start.t, w, lag, Total(start.t), turns);
  }

  // ----- a clock that was set back

  /** A window closes at the latest at its first reading that precedes its start; no later turn matters. */
  lemma {:induction false} TurnsEndWhenSetBack(cfg: Config, s: State, had: uint32, start: Timespec, w: uint32,
                                               turns: seq<Turn>, j: nat)
    requires Normal(start) && j < |turns| && Normal(turns[j].now.t) && Total(turns[j].now.t) < Total(start)
    ensures var x := Turns(cfg, s, had, EndTime(start, w), w, turns);
            x.Closed? && x == Turns(cfg, s, had, EndTime(start, w), w, turns[..j + 1])
    decreases |turns|
  {
    hide React, EndTime, PlanTurn;
    var t, end := turns[0], EndTime(start, w);
    assert turns[..j + 1][0] == t && turns[..j + 1][1..] == turns[1..][..j];
    if j == 0 {
      ClockMovedBackEnds(start, t.now.t, w);
    } else {
      TurnsEndWhenSetBack(cfg, React(cfg, Checked(s, t), had, t.outcome), had, start, w, turns[1..], j - 1);
    }
  }

  lemma WindowEndsWhenSetBack(cfg: Config, s: State, w: uint32, asked: Timespec, start: Reading, turns: seq<Turn>,
                              j: nat)
    requires Normal(start.t) && j < |turns| && Normal(turns[j].now.t) && Total(turns[j].now.t) < Total(start.t)
    ensures var x := Listen(cfg, s, w, asked, start, turns);
            x.Closed? && x == Listen(cfg, s, w, asked, start, turns[..j + 1])
  {
    hide Turns;
    TurnsEndWhenSetBack(cfg, Opened(s, w, asked, start), s.recvd, start.t, w, turns, j);
  }

  // ----- termination

  /** The clock is ahead of `from`, and gains something on every turn. */
  ghost predicate Ticks(from: int, turns: seq<Turn>)
    decreases |turns|
  {
    turns == [] ||
    (Normal(turns[0].now.t) && from <= Total(turns[0].now.t) && Ticks(Total(turns[0].now.t) + 1, turns[1..]))
  }

  /** A turn that is not the last has a reading within the window; the k-th reading is k microseconds into it. */
  lemma TickInTime(start: Timespec, now: Timespec, w: uint32, k: nat, from: int)
    requires Normal(start) && Normal(now) && Total(start) + 1000 * (k - 1) < from <= Total(now)
    ensures Total(now) >= Total(start) + 1000 * k
    ensures !PlanTurn(EndTime(start, w), now, w).last ==> k <= w
  {
    hide EndTime, Left, Expired;
    if !PlanTurn(EndTime(start, w), now, w).last { UnexpiredIsInTime(start, now, w); }
  }

  /** A window of w microseconds closes within w + 2 turns, whatever select returns: a clock that moves
      moves by a microsecond. */
  lemma {:induction false} TurnsEnd(cfg: Config, s: State, had: uint32, start: Timespec, w: uint32, k: nat, from: int,
                                    turns: seq<Turn>)
    requires Normal(start) && Ticks(from, turns) && k <= w + 1
    requires from > Total(start) + 1000 * (k - 1) && |turns| >= w + 2 - k
    ensures Turns(cfg, s, had, EndTime(start, w), w, turns).Closed?
    decreases |turns|
  {
    hide React, EndTime, PlanTurn, Normal, Total;
    var t := turns[0];
    TickInTime(start, t.now.t, w, k, from);
    if !PlanTurn(EndTime(start, w), t.now.t, w).last {
      var s2 := React(cfg, Checked(s, t), had, t.outcome);
      TurnsEnd(cfg, s2, had, start, w, k + 1, Total(t.now.t) + 1, turns[1..]);
    }
  }

  lemma WindowCloses(cfg: Config, s: State, w: uint32, asked: Timespec, start: Reading, turns: seq<Turn>)
    requires Normal(start.t) && Ticks(Total(start.t), turns) && |turns| >= w + 2
    ensures Listen(cfg, s, w, asked, start, turns).Closed?
  {
    TurnsEnd(cfg, Opened(s, w, asked, start), s.recvd, start.t, w, 0, Total(start.t), turns);
  }

  /** With a clock that stands still, no number of interrupted turns closes the window. */
  lemma {:induction false} StuckClock(cfg: Config, s: State, had: uint32, start: Reading, w: uint32, turns: seq<Turn>)
    requires Genuine(start) && !s.die
    requires forall t :: t in turns ==> t.now == start && !t.signalled && t.outcome.Interrupted?
    ensures Turns(cfg, s, had, EndTime(start.t, w), w, turns) == Open(s)
    decreases |turns|
  {
    if turns != [] {
      GuardIffClockMovedBack(start.t, start.t, w);
      assert turns[0] in turns;
      StuckClock(cfg, s, had, start, w, turns[1..]);
    }
  }

  /** Each round brings enough turns of a moving clock. */
  ghost predicate RoundTicks(cfg: Config, r: Round) {
    Normal(r.start.t) && Ticks(Total(r.start.t), r.turns) && |r.turns| >= cfg.packetWait + 2
  }

  /** Every run finishes: maxCount rounds of packetWait + 2 turns are enough if the clock moves. */
  lemma {:induction false} RunFinishes(cfg: Config, s: State, c: nat, rounds: seq<Round>)
    requires forall i :: 0 <= i < |rounds| ==> RoundTicks(cfg, rounds[i])
    requires c + |rounds| >= cfg.maxCount
    ensures Rounds(cfg, s, c, rounds).Finished?
    decreases |rounds|
  {
    if c < cfg.maxCount && !s.die && !rounds[0].signalled {
      var r := rounds[0];
      var s1 := Ask(cfg, Send(s, r), r);
      var w := WaitTime(cfg.deadline, r.asked.t, cfg.packetWait);
      if w > 0 {
        assert RoundTicks(cfg, r);
        WindowCloses(cfg, s1, w, r.asked.t, r.start, r.turns);
        RunFinishes(cfg, Listen(cfg, s1, w, r.asked.t, r.start, r.turns).s, c + 1, rounds[1..]);
      }
    }
  }
}
