/** What every run of a ping session keeps, whatever the environment does. */
module SessionInvariants {
  import opened Seqs
  import opened Clock
  import opened Ints
  import opened Arp
  import opened Statistics
  import opened Session

  /** Replies at which the program stops; -C 0 stops at the first, like -C 1. */
  function Limit(cfg: Config): nat {
    if cfg.maxReplies == 0 then 1 else cfg.maxReplies
  }

  predicate NeighboursDiffer(rs: seq<Reply>, k: nat)
    requires 0 < k < |rs|
  {
    rs[k].mac != rs[k - 1].mac
  }

  /** dupfound as the code computes it: neighbouring replies differ, where the 32-bit counter is not zero. */
  ghost predicate DupSeen(rs: seq<Reply>) {
    exists k :: 0 < k < |rs| && k % U32 != 0 && NeighboursDiffer(rs, k)
  }

  /** Every variable holds what the record says it should. */
  ghost predicate Tallied(cfg: Config, s: State) {
    var rs := Replies(s.log);
    && s.sent == Probes(s.log) % U32
    && s.recvd == |rs| % U32
    && s.lastSent == LastProbe(s.log)
    && s.stats == Collect(Rtts(rs))
    && (s.dup <==> DupSeen(rs))
    && (rs != [] ==> s.lastMac == Last(rs).mac)
    && s.out == if cfg.dots then Marks(s.log) else ""
  }

  /** A window is open and no reply has been accepted in it. */
  predicate QuietSince(log: seq<Action>) {
    log != [] && (Last(log).Listened? || (Last(log).Dispatched? && QuietSince(Init(log))))
  }

  /** What may follow what: a probe, then a window of batches with their replies, or with one final silence if
      there were none, and its closing. */
  predicate MayFollow(log: seq<Action>, a: Action) {
    if log == [] then a.Probed?
    else
      var last := Last(log);
      match a
      case Probed(_) => last.Shut?
      case Listened(_, _, _) => last.Probed?
      case Dispatched(_) => last.Listened? || last.Dispatched? || last.Answered?
      case Answered(_) => last.Dispatched? || last.Answered?
      case Silent => QuietSince(log)
      case Shut(_) => !last.Probed? && !last.Shut?
  }

  ghost predicate Shape(log: seq<Action>) {
    forall i :: 0 <= i < |log| ==> MayFollow(log[..i], log[i])
  }

  /** Once the limit is reached nothing is recorded but the rest of the batch that reached it and the closing of
      its window: no batch is dispatched, nothing is sent, no window opened and no silence reported. */
  ghost predicate Sealed(limit: nat, log: seq<Action>) {
    forall i :: 0 <= i < |log| && |Replies(log[..i])| >= limit ==> log[i].Answered? || log[i].Shut?
  }

  /** The size of the last batch dispatched, or 0. */
  function LastBatch(log: seq<Action>): nat {
    var sizes := Batches(log);
    if sizes == [] then 0 else Last(sizes)
  }

  /** Replies exceed the limit by less than the last batch dispatched. */
  ghost predicate Excess(cfg: Config, log: seq<Action>) {
    |Replies(log)| < Limit(cfg) + LastBatch(log)
  }

  /** wait_time granted every window, given the clock it read. */
  ghost predicate Granted(cfg: Config, log: seq<Action>) {
    forall i :: 0 <= i < |log| && log[i].Listened?
      ==> 0 < log[i].w == WaitTime(cfg.deadline, log[i].asked, cfg.packetWait)
  }

  ghost predicate Sound(cfg: Config, s: State) {
    && Tallied(cfg, s)
    && Shape(s.log)
    && Sealed(Limit(cfg), s.log)
    && Granted(cfg, s.log)
    && (!s.die ==> |Replies(s.log)| < Limit(cfg))
  }

  // ----- one action

  lemma RecordKeeps(cfg: Config, log: seq<Action>, a: Action)
    requires Shape(log) && Sealed(Limit(cfg), log) && Granted(cfg, log)
    requires MayFollow(log, a)
    requires a.Answered? || a.Shut? || |Replies(log)| < Limit(cfg)
    requires a.Listened? ==> 0 < a.w == WaitTime(cfg.deadline, a.asked, cfg.packetWait)
    ensures Shape(log + [a]) && Sealed(Limit(cfg), log + [a]) && Granted(cfg, log + [a])
  {
    hide MayFollow, Replies;
    var more := log + [a];
    assert more[..|log|] == log;
    assert forall i :: 0 <= i < |log| ==> more[..i] == log[..i];
  }

  lemma DupSeenGrows(rs: seq<Reply>, r: Reply)
    ensures DupSeen(rs + [r]) <==> DupSeen(rs) || (rs != [] && |rs| % U32 != 0 && Last(rs).mac != r.mac)
  {
    var more := rs + [r];
    assert forall k :: 0 < k < |rs| ==> (NeighboursDiffer(more, k) <==> NeighboursDiffer(rs, k));
    if rs != [] { assert NeighboursDiffer(more, |rs|) <==> Last(rs).mac != r.mac; }
  }

  lemma AnswerTallied(cfg: Config, s: State, r: Reply)
    requires Tallied(cfg, s)
    ensures Tallied(cfg, Counted(cfg, s.(stats := Update(s.stats, r.rtt)), r))
  {
    hide DupSeen, Collect, Update, Replies, Marks, LastProbe, Probes, Batches;
    var rs := Replies(s.log);
    LogGrows(s.log, Answered(r));
    DupSeenGrows(rs, r);
    CollectGrows(Rtts(rs), r.rtt);
    assert Rtts(rs + [r]) == Rtts(rs) + [r.rtt];
    assert rs == [] ==> s.recvd == 0;
  }

  lemma DyingKeeps(cfg: Config, s: State, die: bool)
    requires Sound(cfg, s)
    ensures Sound(cfg, s.(die := s.die || die))
  {
  }

  // ----- a window

  /** The replies in a batch: the frames that pass the filter, in order, timed against the last probe. */
  function Accepted(cfg: Config, sent: Timespec, batch: seq<Arrival>): seq<Reply>
    decreases |batch|
  {
    if batch == [] then []
    else
      var a, rest := batch[0], Accepted(cfg, sent, batch[1..]);
      if Accepts(cfg.filter, a.frame) then [Reply(SourceMac(a.frame), Seconds(a.at.t) - Seconds(sent))] + rest else rest
  }

  lemma ArrivalRecords(cfg: Config, s: State, a: Arrival)
    ensures var s' := OnArrival(cfg, s, a);
            var r := Reply(SourceMac(a.frame), Seconds(a.at.t) - Seconds(s.lastSent));
            && s'.log == (if Accepts(cfg.filter, a.frame) then s.log + [Answered(r)] else s.log)
            && Replies(s'.log) == (if Accepts(cfg.filter, a.frame) then Replies(s.log) + [r] else Replies(s.log))
            && s'.sent == s.sent && s'.lastSent == s.lastSent
            && Batches(s'.log) == Batches(s.log) && Probes(s'.log) == Probes(s.log)
            && (s.die || a.at.failed ==> s'.die)
  {
    hide Accepts, SourceMac, Seconds, Update, Replies, Marks, LastProbe, Probes, Batches;
    LogGrows(s.log, Answered(Reply(SourceMac(a.frame), Seconds(a.at.t) - Seconds(s.lastSent))));
  }

  /** A batch adds to the record exactly its accepted replies, and nothing else. */
  lemma {:induction false} DispatchRecords(cfg: Config, s: State, batch: seq<Arrival>)
    ensures var s' := Dispatch(cfg, s, batch);
            && Replies(s'.log) == Replies(s.log) + Accepted(cfg, s.lastSent, batch)
            && |s'.log| == |s.log| + |Accepted(cfg, s.lastSent, batch)| && s'.log[..|s.log|] == s.log
            && s'.sent == s.sent && s'.lastSent == s.lastSent && Batches(s'.log) == Batches(s.log)
    decreases |batch|
  {
    hide Accepts, OnArrival, Replies, Probes, Batches;
    if batch != [] {
      ArrivalRecords(cfg, s, batch[0]);
      DispatchRecords(cfg, OnArrival(cfg, s, batch[0]), batch[1..]);
    }
  }

  /** In a window that was opened after n replies: what the flag for silence compares is what the record says. */
  ghost predicate InWindow(log: seq<Action>, n: nat) {
    && log != [] && (Last(log).Listened? || Last(log).Dispatched? || Last(log).Answered?)
    && n <= |Replies(log)| && (QuietSince(log) <==> |Replies(log)| == n)
  }

  /** A window that is dispatching a batch. */
  ghost predicate InBatch(log: seq<Action>, n: nat) {
    InWindow(log, n) && !Last(log).Listened?
  }

  lemma OnArrivalKeeps(cfg: Config, s: State, a: Arrival, n: nat)
    requires Sound(cfg, s) && InBatch(s.log, n)
    ensures var s' := OnArrival(cfg, s, a);
            && Sound(cfg, s') && InBatch(s'.log, n)
            && |Replies(s'.log)| <= |Replies(s.log)| + 1
            && Probes(s'.log) == Probes(s.log) && Batches(s'.log) == Batches(s.log)
  {
    if Accepts(cfg.filter, a.frame) {
      OnReplyKeeps(cfg, s, a, Reply(SourceMac(a.frame), Seconds(a.at.t) - Seconds(s.lastSent)), n);
    }
  }

  lemma OnReplyKeeps(cfg: Config, s: State, a: Arrival, r: Reply, n: nat)
    requires Sound(cfg, s) && InBatch(s.log, n) && Accepts(cfg.filter, a.frame)
    requires r == Reply(SourceMac(a.frame), Seconds(a.at.t) - Seconds(s.lastSent))
    ensures var s' := OnArrival(cfg, s, a);
            && Sound(cfg, s') && InBatch(s'.log, n)
            && |Replies(s'.log)| == |Replies(s.log)| + 1
            && Probes(s'.log) == Probes(s.log) && Batches(s'.log) == Batches(s.log)
  {
    hide Shape, Sealed, Granted, DupSeen, Collect, Replies, Marks, LastProbe, Probes, Rtts, Batches, Update, Accepts,
      SourceMac, Seconds;
    AnswerTallied(cfg, s, r);
    RecordKeeps(cfg, s.log, Answered(r));
    LogGrows(s.log, Answered(r));
    Extended(s.log, Answered(r));
    if !OnArrival(cfg, s, a).die {
      assert |Replies(s.log)| < Limit(cfg) < U32;
    }
  }

  lemma {:induction false} DispatchKeeps(cfg: Config, s: State, batch: seq<Arrival>, n: nat)
    requires Sound(cfg, s) && InBatch(s.log, n)
    ensures var s' := Dispatch(cfg, s, batch);
            && Sound(cfg, s') && InBatch(s'.log, n)
            && |Replies(s'.log)| <= |Replies(s.log)| + |batch|
            && Probes(s'.log) == Probes(s.log) && Batches(s'.log) == Batches(s.log)
    decreases |batch|
  {
    hide Sound, InBatch, OnArrival, Replies, Probes, Batches;
    if batch != [] {
      OnArrivalKeeps(cfg, s, batch[0], n);
      DispatchKeeps(cfg, OnArrival(cfg, s, batch[0]), batch[1..], n);
    }
  }

  /** A batch is dispatched below the limit only, so that the excess is less than its size. */
  lemma OnReadyKeeps(cfg: Config, s: State, batch: seq<Arrival>, n: nat)
    requires Sound(cfg, s) && InWindow(s.log, n) && !s.die
    ensures var s' := OnReady(cfg, s, batch);
            Sound(cfg, s') && InWindow(s'.log, n) && Excess(cfg, s'.log) && Probes(s'.log) == Probes(s.log)
  {
    hide Shape, Sealed, Granted, DupSeen, Collect, Replies, Marks, LastProbe, Probes, Rtts, Batches;
    var a := Dispatched(|batch|);
    RecordKeeps(cfg, s.log, a);
    LogGrows(s.log, a);
    Extended(s.log, a);
    DispatchKeeps(cfg, s.(log := s.log + [a]), batch, n);
  }

  /** A timeout is reported as silence iff the window holds no reply. */
  lemma OnTimeoutKeeps(cfg: Config, s: State, n: nat)
    requires Sound(cfg, s) && InWindow(s.log, n) && !s.die
    ensures var s' := OnTimeout(cfg, s, n % U32);
            && Sound(cfg, s') && Replies(s'.log) == Replies(s.log) && Probes(s'.log) == Probes(s.log)
            && Batches(s'.log) == Batches(s.log) && MayFollow(s'.log, Shut(0))
    ensures OnTimeout(cfg, s, n % U32) != s <==> QuietSince(s.log)
  {
    hide Shape, Sealed, Granted, DupSeen, Collect, Replies, Marks, LastProbe, Probes, Rtts, Batches;
    assert |Replies(s.log)| < Limit(cfg) < U32;
    if s.recvd == n % U32 {
      RecordKeeps(cfg, s.log, Silent);
      LogGrows(s.log, Silent);
      Extended(s.log, Silent);
    }
  }

  /** Whatever select says, the invariant is kept and a window may close; it goes on only after data or EINTR. */
  lemma ReactKeeps(cfg: Config, s: State, n: nat, o: Outcome)
    requires Sound(cfg, s) && InWindow(s.log, n) && Excess(cfg, s.log) && !s.die
    ensures var s' := React(cfg, s, n % U32, o);
            && Sound(cfg, s') && Excess(cfg, s'.log) && Probes(s'.log) == Probes(s.log)
            && MayFollow(s'.log, Shut(0)) && (!Ends(o) ==> InWindow(s'.log, n))
  {
    hide Sound, Replies, Probes, Batches, OnReady, OnTimeout;
    match o
    case TimedOut => OnTimeoutKeeps(cfg, s, n);
    case Ready(batch) => OnReadyKeeps(cfg, s, batch, n);
    case Interrupted =>
    case Failed => DyingKeeps(cfg, s, true);
  }

  lemma {:induction false} TurnsKeep(cfg: Config, s: State, n: nat, end: Timespec, w: uint32, turns: seq<Turn>)
    requires Sound(cfg, s) && InWindow(s.log, n) && Excess(cfg, s.log)
    ensures var s' := Turns(cfg, s, n % U32, end, w, turns).s;
            Sound(cfg, s') && Excess(cfg, s'.log) && Probes(s'.log) == Probes(s.log) && MayFollow(s'.log, Shut(0))
    decreases |turns|
  {
    hide Sound, Excess, Replies, Probes, React, PlanTurn;
    if turns != [] {
      var t := turns[0];
      DyingKeeps(cfg, s, t.now.failed || t.signalled);
      if !Checked(s, t).die {
        ReactKeeps(cfg, Checked(s, t), n, t.outcome);
        if !PlanTurn(end, t.now.t, w).last && !Ends(t.outcome) {
          TurnsKeep(cfg, React(cfg, Checked(s, t), n % U32, t.outcome), n, end, w, turns[1..]);
        }
      }
    }
  }

  // ----- the whole run

  lemma ShutKeeps(cfg: Config, s: State, when: int)
    requires Sound(cfg, s) && Excess(cfg, s.log) && MayFollow(s.log, Shut(0))
    ensures var s' := s.(log := s.log + [Shut(when)]);
            Sound(cfg, s') && Excess(cfg, s'.log) && Probes(s'.log) == Probes(s.log) && Last(s'.log).Shut?
  {
    hide Shape, Sealed, Granted, DupSeen, Collect, Replies, Marks, LastProbe, Probes, Rtts, Batches;
    RecordKeeps(cfg, s.log, Shut(when));
    LogGrows(s.log, Shut(when));
  }

  lemma OpenedKeeps(cfg: Config, s: State, r: Round, w: uint32)
    requires Sound(cfg, s) && s.log != [] && Last(s.log).Probed?
    requires |Replies(s.log)| < Limit(cfg) && 0 < w == WaitTime(cfg.deadline, r.asked.t, cfg.packetWait)
    ensures var s1 := Opened(s, w, r.asked.t, r.start);
            && Sound(cfg, s1) && InWindow(s1.log, |Replies(s.log)|) && Excess(cfg, s1.log)
            && Probes(s1.log) == Probes(s.log) && s1.recvd == |Replies(s.log)| % U32
  {
    hide Shape, Sealed, Granted, DupSeen, Collect, Replies, Marks, LastProbe, Probes, Rtts, Batches, WaitTime;
    var a := Listened(w, r.asked.t, r.start.t);
    RecordKeeps(cfg, s.log, a);
    LogGrows(s.log, a);
    Extended(s.log, a);
  }

  lemma ListenKeeps(cfg: Config, s: State, r: Round, w: uint32)
    requires Sound(cfg, s) && s.log != [] && Last(s.log).Probed?
    requires |Replies(s.log)| < Limit(cfg) && 0 < w == WaitTime(cfg.deadline, r.asked.t, cfg.packetWait)
    ensures var x := Listen(cfg, s, w, r.asked.t, r.start, r.turns);
            && Sound(cfg, x.s) && Excess(cfg, x.s.log) && Probes(x.s.log) == Probes(s.log)
            && (x.Closed? ==> x.s.log != [] && Last(x.s.log).Shut?)
  {
    hide Sound, Excess, Replies, Probes, InWindow, Turns, EndTime, WaitTime, MayFollow;
    var n := |Replies(s.log)|;
    OpenedKeeps(cfg, s, r, w);
    var s1, end := Opened(s, w, r.asked.t, r.start), EndTime(r.start.t, w);
    TurnsKeep(cfg, s1, n, end, w, r.turns);
    var x := Turns(cfg, s1, n % U32, end, w, r.turns);
    if x.Closed? { ShutKeeps(cfg, x.s, x.at); }
  }

  lemma SendKeeps(cfg: Config, s: State, r: Round)
    requires Sound(cfg, s) && Excess(cfg, s.log) && !s.die && (s.log == [] || Last(s.log).Shut?)
    ensures var s' := Ask(cfg, Send(s, r), r);
            && Sound(cfg, s') && Excess(cfg, s'.log) && s'.log == s.log + [Probed(r.sentAt.t)]
            && Replies(s'.log) == Replies(s.log) && Probes(s'.log) == Probes(s.log) + 1
  {
    hide Shape, Sealed, Granted, DupSeen, Collect, Replies, Marks, LastProbe, Probes, Rtts, Batches;
    RecordKeeps(cfg, s.log, Probed(r.sentAt.t));
    LogGrows(s.log, Probed(r.sentAt.t));
  }

  lemma {:induction false} RoundsKeep(cfg: Config, s: State, c: nat, rounds: seq<Round>)
    requires Sound(cfg, s) && Excess(cfg, s.log) && (s.log == [] || Last(s.log).Shut?)
    requires Probes(s.log) == c <= cfg.maxCount
    ensures var s' := Rounds(cfg, s, c, rounds).s;
            Sound(cfg, s') && Excess(cfg, s'.log) && Probes(s'.log) <= cfg.maxCount
    decreases |rounds|
  {
    hide Shape, Sealed, Granted, DupSeen, Collect, Replies, Marks, LastProbe, Probes, Batches, Rtts, WaitTime, Listen,
      Excess;
    if c < cfg.maxCount && !s.die && rounds != [] && !rounds[0].signalled {
      var r := rounds[0];
      SendKeeps(cfg, s, r);
      var s1 := Ask(cfg, Send(s, r), r);
      var w := WaitTime(cfg.deadline, r.asked.t, cfg.packetWait);
      if w > 0 {
        ListenKeeps(cfg, s1, r, w);
        var l := Listen(cfg, s1, w, r.asked.t, r.start, r.turns);
        if l.Closed? { RoundsKeep(cfg, l.s, c + 1, rounds[1..]); }
      }
    }
  }

  /** The main invariant: after every run, finished or not, under every environment, each variable agrees with
      the record, windows are well formed and granted, and the limits on probes and replies hold. */
  lemma PingKeeps(cfg: Config, begin: Reading, rounds: seq<Round>)
    ensures var s := Ping(cfg, begin, rounds).s;
            && Sound(Armed(cfg, begin), s) && Excess(Armed(cfg, begin), s.log)
            && s.sent == Probes(s.log) <= EffectiveCount(cfg)
  {
    hide Rounds;
    RoundsKeep(Armed(cfg, begin), Start(cfg, begin), 0, rounds);
  }
}
