/** What windows hear, and why windows and runs end. */
module Endings {
  import opened Clock
  import opened Ints
  import opened Arp
  import opened Statistics
  import opened Session
  import opened SessionInvariants

  // ----- what a window hears

  /** The replies in a turn's batch. */
  function HeardIn(cfg: Config, sent: Timespec, t: Turn): seq<Reply> {
    match t.outcome
    case Ready(batch) => Accepted(cfg, sent, batch)
    case _ => []
  }

  /** The size of a turn's batch, if it has one. */
  function SizesIn(t: Turn): seq<nat> {
    match t.outcome
    case Ready(batch) => [|batch|]
    case _ => []
  }

  /** The replies in all batches of these turns. */
  function Heard(cfg: Config, sent: Timespec, turns: seq<Turn>): seq<Reply>
    decreases |turns|
  {
    if turns == [] then [] else HeardIn(cfg, sent, turns[0]) + Heard(cfg, sent, turns[1..])
  }

  /** The sizes of all batches of these turns. */
  function Sizes(turns: seq<Turn>): seq<nat>
    decreases |turns|
  {
    if turns == [] then [] else SizesIn(turns[0]) + Sizes(turns[1..])
  }

  lemma HeardFirst(cfg: Config, sent: Timespec, turns: seq<Turn>, n: nat)
    requires n < |turns|
    ensures Heard(cfg, sent, turns[..n + 1]) == HeardIn(cfg, sent, turns[0]) + Heard(cfg, sent, turns[1..][..n])
    ensures Sizes(turns[..n + 1]) == SizesIn(turns[0]) + Sizes(turns[1..][..n])
    ensures Heard(cfg, sent, turns[1..][..0]) == [] && Sizes(turns[1..][..0]) == []
  {
    hide HeardIn, SizesIn;
    assert turns[..n + 1][1..] == turns[1..][..n];
  }

  /** A ready batch is recorded by its size and its accepted replies; nothing else is, but silence. */
  lemma ReactRecords(cfg: Config, s: State, had: uint32, t: Turn)
    ensures var s' := React(cfg, s, had, t.outcome);
            && Replies(s'.log) == Replies(s.log) + HeardIn(cfg, s.lastSent, t)
            && Batches(s'.log) == Batches(s.log) + SizesIn(t) && s'.lastSent == s.lastSent
            && (t.outcome.Failed? ==> s'.die)
  {
    hide Dispatch, Replies, Batches, Marks, Probes, LastProbe, Accepted;
    match t.outcome
    case TimedOut => LogGrows(s.log, Silent);
    case Ready(batch) =>
      LogGrows(s.log, Dispatched(|batch|));
      DispatchRecords(cfg, s.(log := s.log + [Dispatched(|batch|)]), batch);
    case _ =>
  }

  // ----- how a window comes to die

  ghost predicate CalmBatch(batch: seq<Arrival>) {
    forall i :: 0 <= i < |batch| ==> !batch[i].at.failed
  }

  /** In this turn a signal comes, or the clock, select, or the clock of the callback fails. */
  ghost predicate Faulty(t: Turn) {
    t.signalled || t.now.failed || t.outcome.Failed? || (t.outcome.Ready? && !CalmBatch(t.outcome.batch))
  }

  /** The counter counts the replies, and the program is dying if they have reached their limit. */
  ghost predicate Counts(cfg: Config, s: State) {
    s.recvd == |Replies(s.log)| % U32 && (|Replies(s.log)| >= Limit(cfg) ==> s.die)
  }

  /** Every run keeps it. */
  lemma SoundCounts(cfg: Config, s: State)
    requires Sound(cfg, s)
    ensures Counts(cfg, s)
  {
  }

  lemma ArrivalDies(cfg: Config, s: State, a: Arrival)
    requires Counts(cfg, s)
    ensures var s' := OnArrival(cfg, s, a);
            && Counts(cfg, s') && |Replies(s.log)| <= |Replies(s'.log)|
            && (s'.die <==> s.die || a.at.failed || |Replies(s'.log)| >= Limit(cfg))
  {
    hide Accepts, SourceMac, Seconds, Update, Replies, Marks, LastProbe, Probes, Batches;
    LogGrows(s.log, Answered(Reply(SourceMac(a.frame), Seconds(a.at.t) - Seconds(s.lastSent))));
  }

  lemma {:induction false} DispatchDies(cfg: Config, s: State, batch: seq<Arrival>)
    requires Counts(cfg, s)
    ensures var s' := Dispatch(cfg, s, batch);
            && Counts(cfg, s') && |Replies(s.log)| <= |Replies(s'.log)|
            && (s'.die <==> s.die || !CalmBatch(batch) || |Replies(s'.log)| >= Limit(cfg))
    decreases |batch|
  {
    hide OnArrival, Replies;
    if batch != [] {
      ArrivalDies(cfg, s, batch[0]);
      DispatchDies(cfg, OnArrival(cfg, s, batch[0]), batch[1..]);
      assert CalmBatch(batch) <==> !batch[0].at.failed && CalmBatch(batch[1..]) by {
        assert batch == [batch[0]] + batch[1..];
      }
    }
  }

  /** What select brings kills the program exactly by a failure, or by the reply that reaches the limit. */
  lemma ReactDies(cfg: Config, s: State, had: uint32, o: Outcome)
    requires Counts(cfg, s)
    ensures var s' := React(cfg, s, had, o);
            && Counts(cfg, s') && |Replies(s.log)| <= |Replies(s'.log)|
            && (s'.die <==> || s.die || o.Failed? || (o.Ready? && !CalmBatch(o.batch))
                            || |Replies(s'.log)| >= Limit(cfg))
  {
    hide Dispatch, CalmBatch, Replies, Batches, Marks, LastProbe, Probes;
    match o
    case TimedOut => LogGrows(s.log, Silent);
    case Ready(batch) =>
      LogGrows(s.log, Dispatched(|batch|));
      DispatchDies(cfg, s.(log := s.log + [Dispatched(|batch|)]), batch);
    case _ =>
  }

  /** A window that starts from s and takes these turns finds the program dying at turn k: a signal or a failed
      reading comes with it, something failed in an earlier turn, or the replies heard have reached their limit. */
  ghost predicate DyingAt(cfg: Config, s: State, turns: seq<Turn>, k: nat)
    requires k < |turns|
  {
    || s.die || turns[k].signalled || turns[k].now.failed
    || (exists j :: 0 <= j < k && Faulty(turns[j]))
    || |Replies(s.log)| + |Heard(cfg, s.lastSent, turns[..k])| >= Limit(cfg)
  }

  /** n is the first turn at which the program is found dying, if the window was killed, and otherwise comes before
      any such turn. */
  ghost predicate DiesFirstAt(cfg: Config, s: State, turns: seq<Turn>, x: Window, n: nat) {
    && n <= |turns| && (forall k :: 0 <= k < n ==> !DyingAt(cfg, s, turns, k))
    && (x.Closed? && x.how.Killed? ==> n < |turns| && DyingAt(cfg, s, turns, n))
  }

  lemma DyingAtFirst(cfg: Config, s: State, turns: seq<Turn>)
    requires turns != [] && Counts(cfg, s)
    ensures DyingAt(cfg, s, turns, 0) <==> Checked(s, turns[0]).die
  {
    hide Replies, Heard;
    assert turns[..0] == [];
    HeardNothing(cfg, s.lastSent);
  }

  /** A later turn finds the program dying from the first on exactly if it does so from the second on. */
  lemma DyingAtNext(cfg: Config, s: State, had: uint32, turns: seq<Turn>, k: nat)
    requires k + 1 < |turns| && Counts(cfg, s) && !Checked(s, turns[0]).die
    ensures DyingAt(cfg, s, turns, k + 1)
       <==> DyingAt(cfg, React(cfg, Checked(s, turns[0]), had, turns[0].outcome), turns[1..], k)
  {
    hide React, CalmBatch, Replies, Batches, Heard, HeardIn, Sizes, SizesIn;
    var t := turns[0];
    assert Checked(s, t) == s;
    ReactDies(cfg, s, had, t.outcome);
    ReactRecords(cfg, s, had, t);
    HeardFirst(cfg, s.lastSent, turns, k);
    OneMoreTurn(turns, k);
  }

  lemma OneMoreTurn(turns: seq<Turn>, k: nat)
    requires k < |turns|
    ensures (exists j :: 0 <= j < k + 1 && Faulty(turns[j]))
       <==> Faulty(turns[0]) || exists j :: 0 <= j < k && Faulty(turns[1..][j])
  {
    hide Faulty;
    assert forall j :: 0 <= j < |turns| - 1 ==> turns[1..][j] == turns[j + 1];
    if j :| 0 < j < k + 1 && Faulty(turns[j]) { assert Faulty(turns[1..][j - 1]); }
  }

  // ----- how far a window comes

  /** A turn after which the loop goes on: no signal, a working clock, not the last, and data or EINTR. */
  predicate GoesOn(end: Timespec, w: uint32, t: Turn) {
    !t.signalled && !t.now.failed && (t.outcome.Ready? || t.outcome.Interrupted?) && !PlanTurn(end, t.now.t, w).last
  }

  ghost predicate AllGoOn(end: Timespec, w: uint32, turns: seq<Turn>) {
    forall i :: 0 <= i < |turns| ==> GoesOn(end, w, turns[i])
  }

  /** How far a window came in its turns: n of them took effect. */
  ghost predicate Reached(end: Timespec, w: uint32, turns: seq<Turn>, x: Window, n: nat) {
    match x
    case Open(_) => n == |turns| && AllGoOn(end, w, turns)
    case Closed(s, _, Killed) => n < |turns| && AllGoOn(end, w, turns[..n]) && s.die
    case Closed(s, _, how) =>
      && 0 < n <= |turns| && AllGoOn(end, w, turns[..n - 1]) && !GoesOn(end, w, turns[n - 1])
      && (how.Quiet? <==> turns[n - 1].outcome.TimedOut?) && (how.SelectFailed? <==> turns[n - 1].outcome.Failed?)
      && (how.SelectFailed? ==> s.die)
  }

  /** A window ends with its first turn that does not go on, or before the first turn at which the program is found
      dying; and it records exactly the batches dispatched and the replies heard until then. */
  lemma {:induction false} WindowRecords(cfg: Config, s: State, had: uint32, end: Timespec, w: uint32, turns: seq<Turn>)
    returns (n: nat)
    ensures var x := Turns(cfg, s, had, end, w, turns);
            && n <= |turns| && Reached(end, w, turns, x, n)
            && Replies(x.s.log) == Replies(s.log) + Heard(cfg, s.lastSent, turns[..n])
            && Batches(x.s.log) == Batches(s.log) + Sizes(turns[..n])
            && (Counts(cfg, s) ==> DiesFirstAt(cfg, s, turns, x, n))
    decreases |turns|
  {
    hide PlanTurn, React, Batches, Replies, Accepted, Heard, Sizes, DyingAt, Counts;
    n := 0;
    HeardNothing(cfg, s.lastSent);
    assert turns[..0] == [];
    if turns != [] && Counts(cfg, s) { DyingAtFirst(cfg, s, turns); }
    if turns != [] && !Checked(s, turns[0]).die {
      var t := turns[0];
      var s2 := React(cfg, Checked(s, t), had, t.outcome);
      ReactRecords(cfg, Checked(s, t), had, t);
      if GoesOn(end, w, t) {
        n := WindowRecords(cfg, s2, had, end, w, turns[1..]);
        ReachedAfter(end, w, turns, Turns(cfg, s, had, end, w, turns), n);
        if Counts(cfg, s) { DiesFirstAfter(cfg, s, had, turns, Turns(cfg, s, had, end, w, turns), n); }
      }
      HeardFirst(cfg, s.lastSent, turns, n);
      n := n + 1;
    }
  }

  lemma DiesFirstAfter(cfg: Config, s: State, had: uint32, turns: seq<Turn>, x: Window, n: nat)
    requires turns != [] && Counts(cfg, s) && !Checked(s, turns[0]).die
    requires var s2 := React(cfg, Checked(s, turns[0]), had, turns[0].outcome);
             Counts(cfg, s2) ==> DiesFirstAt(cfg, s2, turns[1..], x, n)
    requires n <= |turns| - 1
    ensures DiesFirstAt(cfg, s, turns, x, n + 1)
  {
    hide React, DyingAt, Counts;
    var s2 := React(cfg, Checked(s, turns[0]), had, turns[0].outcome);
    DyingAtFirst(cfg, s, turns);
    assert Checked(s, turns[0]) == s by { CheckedAlive(s, turns[0]); }
    ReactDies(cfg, s, had, turns[0].outcome);
    forall k | 0 <= k < n + 1
      ensures !DyingAt(cfg, s, turns, k)
    {
      if k > 0 { DyingAtNext(cfg, s, had, turns, k - 1); }
    }
    if x.Closed? && x.how.Killed? { DyingAtNext(cfg, s, had, turns, n); }
  }

  lemma CheckedAlive(s: State, t: Turn)
    requires !Checked(s, t).die
    ensures Checked(s, t) == s
  {
  }

  lemma HeardNothing(cfg: Config, sent: Timespec)
    ensures Heard(cfg, sent, []) == [] && Sizes([]) == []
  {
  }

  lemma ReachedAfter(end: Timespec, w: uint32, turns: seq<Turn>, x: Window, n: nat)
    requires turns != [] && GoesOn(end, w, turns[0]) && Reached(end, w, turns[1..], x, n)
    ensures Reached(end, w, turns, x, n + 1)
  {
    hide GoesOn;
    var rest := turns[1..];
    assert turns == [turns[0]] + rest;
    if n < |turns| { assert turns[..n + 1] == [turns[0]] + rest[..n]; }
    if n > 0 { assert turns[..n] == [turns[0]] + rest[..n - 1]; }
  }

  // ----- why a run ends

  ghost predicate CalmTurns(turns: seq<Turn>) {
    forall i :: 0 <= i < |turns| ==>
      && !turns[i].now.failed && !turns[i].signalled && !turns[i].outcome.Failed?
      && (turns[i].outcome.Ready? ==> CalmBatch(turns[i].outcome.batch))
  }

  /** Dispatching sends nothing, and dies if the clock fails for any frame. */
  lemma {:induction false} DispatchSendsNothing(cfg: Config, s: State, batch: seq<Arrival>)
    ensures var s' := Dispatch(cfg, s, batch);
            && Probes(s'.log) == Probes(s.log)
            && (s.die || !CalmBatch(batch) ==> s'.die)
    decreases |batch|
  {
    hide OnArrival, Replies, Probes, Batches;
    if batch != [] {
      ArrivalRecords(cfg, s, batch[0]);
      DispatchSendsNothing(cfg, OnArrival(cfg, s, batch[0]), batch[1..]);
    }
  }

  lemma ReactSendsNothing(cfg: Config, s: State, had: uint32, o: Outcome)
    ensures var s' := React(cfg, s, had, o);
            && Probes(s'.log) == Probes(s.log)
            && (s.die || o.Failed? || (o.Ready? && !CalmBatch(o.batch)) ==> s'.die)
  {
    hide Dispatch, Replies, Batches, Marks, Probes, LastProbe;
    match o
    case TimedOut => LogGrows(s.log, Silent);
    case Ready(batch) =>
      LogGrows(s.log, Dispatched(|batch|));
      DispatchSendsNothing(cfg, s.(log := s.log + [Dispatched(|batch|)]), batch);
    case _ =>
  }

  lemma {:induction false} WindowSendsNothing(cfg: Config, s: State, had: uint32, end: Timespec, w: uint32,
                                              turns: seq<Turn>)
    ensures var s' := Turns(cfg, s, had, end, w, turns).s;
            Probes(s'.log) == Probes(s.log) && (s.die ==> s'.die)
    decreases |turns|
  {
    hide PlanTurn, React, Probes;
    if turns != [] {
      var s1, o := Checked(s, turns[0]), turns[0].outcome;
      ReactSendsNothing(cfg, s1, had, o);
      WindowSendsNothing(cfg, React(cfg, s1, had, o), had, end, w, turns[1..]);
    }
  }

  lemma ListenSendsNothing(cfg: Config, s: State, w: uint32, r: Round)
    ensures var x := Listen(cfg, s, w, r.asked.t, r.start, r.turns);
            Probes(x.s.log) == Probes(s.log) && (s.die || r.start.failed ==> x.s.die)
  {
    hide Turns, EndTime, Replies, Batches, Marks, LastProbe, Probes;
    var s1, end := Opened(s, w, r.asked.t, r.start), EndTime(r.start.t, w);
    LogGrows(s.log, Listened(w, r.asked.t, r.start.t));
    WindowSendsNothing(cfg, s1, s.recvd, end, w, r.turns);
    var x := Turns(cfg, s1, s.recvd, end, w, r.turns);
    if x.Closed? { LogGrows(x.s.log, Shut(x.at)); }
  }

  /** A window that comes to a faulty turn dies. */
  lemma {:induction false} FaultyTurnKills(cfg: Config, s: State, had: uint32, end: Timespec, w: uint32,
                                           turns: seq<Turn>, j: nat)
    requires j < |turns| && Faulty(turns[j]) && AllGoOn(end, w, turns[..j])
    ensures Turns(cfg, s, had, end, w, turns).s.die
    decreases |turns|
  {
    hide PlanTurn, React;
    var t := turns[0];
    var s2 := React(cfg, Checked(s, t), had, t.outcome);
    ReactSendsNothing(cfg, Checked(s, t), had, t.outcome);
    if j == 0 {
      WindowSendsNothing(cfg, s2, had, end, w, turns[1..]);
    } else {
      assert turns[..j][0] == t && turns[1..][..j - 1] == turns[..j][1..];
      FaultyTurnKills(cfg, s2, had, end, w, turns[1..], j - 1);
    }
  }

  /** Something fails in this round: before its window is opened, or in a turn that its window comes to. */
  ghost predicate Broken(cfg: Config, r: Round) {
    var w := WaitTime(cfg.deadline, r.asked.t, cfg.packetWait);
    || r.sendFailed || r.sentAt.failed || (cfg.deadline >= 0.0 && r.asked.failed) || r.start.failed
    || exists j :: 0 <= j < |r.turns| && Faulty(r.turns[j]) && AllGoOn(EndTime(r.start.t, w), w, r.turns[..j])
  }

  lemma BrokenWindowDies(cfg: Config, s: State, r: Round)
    requires Broken(cfg, r)
    ensures var s1 := Ask(cfg, Send(s, r), r);
            var w := WaitTime(cfg.deadline, r.asked.t, cfg.packetWait);
            Listen(cfg, s1, w, r.asked.t, r.start, r.turns).s.die
  {
    hide Turns, EndTime, WaitTime, AllGoOn, Faulty;
    var s1, w := Ask(cfg, Send(s, r), r), WaitTime(cfg.deadline, r.asked.t, cfg.packetWait);
    var end := EndTime(r.start.t, w);
    ListenSendsNothing(cfg, s1, w, r);
    if j :| 0 <= j < |r.turns| && Faulty(r.turns[j]) && AllGoOn(end, w, r.turns[..j]) {
      FaultyTurnKills(cfg, Opened(s1, w, r.asked.t, r.start), s1.recvd, end, w, r.turns, j);
    }
  }

  /** A signal before round k leaves it out, and any failure in it makes it the last: at most k probes, or k + 1. */
  lemma {:induction false} FaultsStop(cfg: Config, s: State, c: nat, rounds: seq<Round>, k: nat)
    requires k < |rounds| && (rounds[k].signalled || Broken(cfg, rounds[k]))
    ensures Probes(Rounds(cfg, s, c, rounds).s.log) <= Probes(s.log) + if rounds[k].signalled then k else k + 1
    decreases |rounds|
  {
    hide Listen, WaitTime, Broken, Replies, Batches, Marks, LastProbe, Probes;
    if c < cfg.maxCount && !s.die && !rounds[0].signalled {
      var r := rounds[0];
      var s1 := Ask(cfg, Send(s, r), r);
      LogGrows(s.log, Probed(r.sentAt.t));
      var w := WaitTime(cfg.deadline, r.asked.t, cfg.packetWait);
      if w > 0 {
        ListenSendsNothing(cfg, s1, w, r);
        var l := Listen(cfg, s1, w, r.asked.t, r.start, r.turns);
        if k == 0 {
          BrokenWindowDies(cfg, s, r);
        } else if l.Closed? {
          FaultsStop(cfg, l.s, c + 1, rounds[1..], k - 1);
        }
      }
    }
  }

  /** With -w, if the clock fails when the deadline is set, nothing is sent. Without -w it is not read then. */
  lemma FailedStart(cfg: Config, begin: Reading, rounds: seq<Round>)
    requires begin.failed && cfg.deadline > 0.0
    ensures var x := Ping(cfg, begin, rounds);
            x.Finished? && x.s.die && x.s.sent == 0 && x.s.log == []
  {
  }

  /** No signal comes and nothing fails: not the clock, nor sending, nor select. */
  ghost predicate Calm(cfg: Config, rounds: seq<Round>) {
    forall i :: 0 <= i < |rounds| ==>
      && !rounds[i].signalled && !rounds[i].sendFailed && CalmTurns(rounds[i].turns)
      && !rounds[i].sentAt.failed && (cfg.deadline >= 0.0 ==> !rounds[i].asked.failed) && !rounds[i].start.failed
  }

  /** The program is dying exactly because the limit on replies was reached. */
  ghost predicate DiesAtLimit(cfg: Config, s: State) {
    Counts(cfg, s) && (s.die ==> |Replies(s.log)| >= Limit(cfg))
  }

  lemma {:induction false} CalmWindow(cfg: Config, s: State, had: uint32, end: Timespec, w: uint32, turns: seq<Turn>)
    requires DiesAtLimit(cfg, s) && CalmTurns(turns)
    ensures DiesAtLimit(cfg, Turns(cfg, s, had, end, w, turns).s)
    decreases |turns|
  {
    hide PlanTurn, React, Replies;
    if turns != [] {
      var s1, o := Checked(s, turns[0]), turns[0].outcome;
      assert s1 == s;
      ReactDies(cfg, s, had, o);
      CalmWindow(cfg, React(cfg, s, had, o), had, end, w, turns[1..]);
    }
  }

  lemma CalmListen(cfg: Config, s: State, w: uint32, r: Round)
    requires DiesAtLimit(cfg, s) && CalmTurns(r.turns) && !r.start.failed
    ensures DiesAtLimit(cfg, Listen(cfg, s, w, r.asked.t, r.start, r.turns).s)
  {
    hide Turns, EndTime, CalmTurns, Replies, Batches, Marks, LastProbe, Probes;
    var s1, end := Opened(s, w, r.asked.t, r.start), EndTime(r.start.t, w);
    LogGrows(s.log, Listened(w, r.asked.t, r.start.t));
    CalmWindow(cfg, s1, s.recvd, end, w, r.turns);
    var x := Turns(cfg, s1, s.recvd, end, w, r.turns);
    if x.Closed? { LogGrows(x.s.log, Shut(x.at)); }
  }

  /** wait_time granted nothing in round k, and something in every round before it. */
  ghost predicate OutOfTimeAt(cfg: Config, rounds: seq<Round>, k: int) {
    && 0 <= k < |rounds| && WaitTime(cfg.deadline, rounds[k].asked.t, cfg.packetWait) == 0
    && forall j :: 0 <= j < k ==> WaitTime(cfg.deadline, rounds[j].asked.t, cfg.packetWait) > 0
  }

  lemma {:induction false} CalmRounds(cfg: Config, s: State, c: nat, rounds: seq<Round>)
    requires DiesAtLimit(cfg, s) && Calm(cfg, rounds) && Probes(s.log) == c <= cfg.maxCount
    ensures var x := Rounds(cfg, s, c, rounds);
            && DiesAtLimit(cfg, x.s)
            && c <= Probes(x.s.log) <= cfg.maxCount
            && (x.Finished? && !x.s.die && Probes(x.s.log) < cfg.maxCount ==>
                  OutOfTimeAt(cfg, rounds, Probes(x.s.log) - c - 1))
    decreases |rounds|
  {
    hide Listen, WaitTime, Replies, Batches, Marks, LastProbe, Probes, CalmTurns;
    if c < cfg.maxCount && !s.die && rounds != [] {
      var r := rounds[0];
      var s1 := Ask(cfg, Send(s, r), r);
      LogGrows(s.log, Probed(r.sentAt.t));
      var w := WaitTime(cfg.deadline, r.asked.t, cfg.packetWait);
      if w > 0 {
        CalmListen(cfg, s1, w, r);
        ListenSendsNothing(cfg, s1, w, r);
        var l := Listen(cfg, s1, w, r.asked.t, r.start, r.turns);
        assert forall i :: 0 <= i < |rounds| - 1 ==> rounds[1..][i] == rounds[i + 1];
        if l.Closed? { CalmRounds(cfg, l.s, c + 1, rounds[1..]); }
      }
    }
  }

  /** Why a calm run ends: it dies exactly when the replies reach their limit; if it ends otherwise, it has sent
      every probe it was asked for, or wait_time has granted nothing after the last one it sent. */
  lemma CalmRunEnds(cfg: Config, begin: Reading, rounds: seq<Round>)
    requires Calm(Armed(cfg, begin), rounds) && (cfg.deadline > 0.0 ==> !begin.failed)
    ensures var x := Ping(cfg, begin, rounds);
            && (x.s.die <==> |Replies(x.s.log)| >= Limit(cfg))
            && x.s.sent <= (if cfg.findDup && cfg.maxCount == 0xffff_ffff then 3 else cfg.maxCount)
            && (x.Finished? && !x.s.die && x.s.sent < (if cfg.findDup && cfg.maxCount == 0xffff_ffff then 3
                                                       else cfg.maxCount) ==>
                  OutOfTimeAt(Armed(cfg, begin), rounds, x.s.sent - 1))
  {
    hide Rounds, OutOfTimeAt;
    CalmRounds(Armed(cfg, begin), Start(cfg, begin), 0, rounds);
    PingKeeps(cfg, begin, rounds);
    assert Limit(Armed(cfg, begin)) == Limit(cfg);
  }
}
