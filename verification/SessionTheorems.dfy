/** What the invariant of a run means for the person at the terminal: replies, duplicates, marks, statistics. */
module SessionTheorems {
  import opened Seqs
  import opened Clock
  import opened Ints
  import opened Arp
  import opened Statistics
  import opened Session
  import opened SessionInvariants
  import opened Endings
  import opened Deadline
  import opened Report

  // ----- duplicates

  /** Two accepted replies came from different hosts. */
  ghost predicate TwoHosts(rs: seq<Reply>) {
    exists i, j :: 0 <= i < j < |rs| && rs[i].mac != rs[j].mac
  }

  lemma {:induction false} SameNeighboursSameHost(rs: seq<Reply>, i: nat, j: nat)
    requires i <= j < |rs| && forall k :: 0 < k < |rs| ==> !NeighboursDiffer(rs, k)
    ensures rs[i].mac == rs[j].mac
  {
    if i < j {
      SameNeighboursSameHost(rs, i, j - 1);
      assert !NeighboursDiffer(rs, j);
    }
  }

  lemma DupSeenIsTwoHosts(rs: seq<Reply>)
    ensures DupSeen(rs) ==> TwoHosts(rs)
    ensures |rs| <= U32 ==> (DupSeen(rs) <==> TwoHosts(rs))
  {
    if DupSeen(rs) {
      var k :| 0 < k < |rs| && k % U32 != 0 && NeighboursDiffer(rs, k);
      assert rs[k - 1].mac != rs[k].mac;
    } else if |rs| <= U32 && TwoHosts(rs) {
      var i, j :| 0 <= i < j < |rs| && rs[i].mac != rs[j].mac;
      SameNeighboursSameHost(rs, i, j);
      assert false;
    }
  }

  /** Comparing neighbours only finds every duplicate among n replies, exactly as long as the 32-bit
      counter does not return to zero before the last of them. */
  lemma DupExactIff(n: nat)
    ensures (forall rs: seq<Reply> :: |rs| == n ==> (DupSeen(rs) <==> TwoHosts(rs))) <==> n <= 0x1_0000_0000
  {
    if n <= U32 {
      forall rs: seq<Reply> | |rs| == n
        ensures DupSeen(rs) <==> TwoHosts(rs)
      {
        DupSeenIsTwoHosts(rs);
      }
    } else {
      var a, b := Reply(ETH_NULL, 0.0), Reply(ETH_XMAS, 0.0);
      var rs := seq(n, i => if i < U32 then a else b);
      assert ETH_NULL[0] != ETH_XMAS[0];
      assert rs[0].mac != rs[U32].mac;
      assert forall k :: 0 < k < |rs| && NeighboursDiffer(rs, k) ==> k == U32;
      assert |rs| == n && TwoHosts(rs) && !DupSeen(rs);
    }
  }

  /** The exit code of every run: with -d it is 1 if two hosts answered and else 0; otherwise it is 0 if one did
      and else 1. */
  lemma ExitCodeMeans(cfg: Config, begin: Reading, rounds: seq<Round>)
    ensures var s := Ping(cfg, begin, rounds).s;
            var rs := Replies(s.log);
            && (cfg.findDup && |rs| <= 0x1_0000_0000 ==> ExitCode(cfg, s) == if TwoHosts(rs) then 1 else 0)
            && (cfg.findDup ==> ExitCode(cfg, s) == if s.dup then 1 else 0)
            && (!cfg.findDup ==> ExitCode(cfg, s) == if |rs| % 0x1_0000_0000 == 0 then 1 else 0)
            && (!cfg.findDup && |rs| < 0x1_0000_0000 ==> ExitCode(cfg, s) == if rs == [] then 1 else 0)
    ensures var s := Ping(cfg, begin, rounds).s;
            !s.die ==> |Replies(s.log)| < U32
  {
    hide Ping, DupSeen, TwoHosts, Shape, Sealed, Granted, Collect, Replies, Marks, LastProbe, Probes, Batches, Rtts;
    PingKeeps(cfg, begin, rounds);
    assert Limit(Armed(cfg, begin)) == Limit(cfg) < U32;
    DupSeenIsTwoHosts(Replies(Ping(cfg, begin, rounds).s.log));
  }

  // ----- runs of one window

  const EPOCH := Reading(Timespec(0, 0), false)

  /** The frames of all batches. */
  function Flat(batches: seq<seq<Arrival>>): seq<Arrival> {
    if batches == [] then [] else batches[0] + Flat(batches[1..])
  }

  /** Turns in which these batches are ready, at a clock that stands still. */
  function BatchTurns(batches: seq<seq<Arrival>>): seq<Turn> {
    if batches == [] then [] else [Turn(EPOCH, false, Ready(batches[0]), 0)] + BatchTurns(batches[1..])
  }

  /** One round, in whose window these batches arrive. */
  function BatchRounds(sentAt: Reading, batches: seq<seq<Arrival>>): seq<Round> {
    [Round(false, false, sentAt, EPOCH, EPOCH, BatchTurns(batches))]
  }

  lemma {:induction false} AcceptedSplit(cfg: Config, sent: Timespec, a: seq<Arrival>, b: seq<Arrival>)
    ensures Accepted(cfg, sent, a + b) == Accepted(cfg, sent, a) + Accepted(cfg, sent, b)
    decreases |a|
  {
    hide Accepts, SourceMac, Seconds;
    if a == [] {
      assert a + b == b;
    } else {
      assert (a + b)[1..] == a[1..] + b;
      AcceptedSplit(cfg, sent, a[1..], b);
    }
  }

  lemma {:induction false} SameFilter(a: Config, b: Config, sent: Timespec, batch: seq<Arrival>)
    requires a.filter == b.filter
    ensures Accepted(a, sent, batch) == Accepted(b, sent, batch)
    decreases |batch|
  {
    hide Accepts, SourceMac, Seconds;
    if batch != [] { SameFilter(a, b, sent, batch[1..]); }
  }

  /** Every prefix of these turns hears the replies in the frames of its batches. */
  lemma {:induction false} BatchesHeard(cfg: Config, sent: Timespec, batches: seq<seq<Arrival>>, n: nat)
    requires n <= |batches|
    ensures |BatchTurns(batches)| == |batches|
    ensures Heard(cfg, sent, BatchTurns(batches)[..n]) == Accepted(cfg, sent, Flat(batches[..n]))
    decreases |batches|
  {
    hide Accepted, Heard, HeardIn, Sizes, SizesIn;
    var turns := BatchTurns(batches);
    if n == 0 {
      if batches != [] { BatchesHeard(cfg, sent, batches[1..], 0); }
      assert turns[..0] == [] && batches[..0] == [];
      HeardNothing(cfg, sent);
      AcceptedNothing(cfg, sent);
    } else {
      BatchesHeard(cfg, sent, batches[1..], n - 1);
      HeardFirst(cfg, sent, turns, n - 1);
      HeardInBatch(cfg, sent, turns[0], batches[0]);
      assert turns[1..] == BatchTurns(batches[1..]);
      assert batches[..n][1..] == batches[1..][..n - 1];
      AcceptedSplit(cfg, sent, batches[0], Flat(batches[1..][..n - 1]));
    }
  }

  lemma AcceptedNothing(cfg: Config, sent: Timespec)
    ensures Accepted(cfg, sent, []) == []
  {
  }

  lemma HeardInBatch(cfg: Config, sent: Timespec, t: Turn, batch: seq<Arrival>)
    requires t.outcome == Session.Ready(batch)
    ensures HeardIn(cfg, sent, t) == Accepted(cfg, sent, batch)
  {
  }

  lemma {:induction false} FlatSplit(a: seq<seq<Arrival>>, b: seq<seq<Arrival>>)
    ensures Flat(a + b) == Flat(a) + Flat(b)
    decreases |a|
  {
    if a == [] {
      assert a + b == b;
    } else {
      assert (a + b)[1..] == a[1..] + b;
      FlatSplit(a[1..], b);
    }
  }

  lemma FlatOne(batch: seq<Arrival>)
    ensures Flat([batch]) == batch && Flat(Init([batch])) == []
  {
    assert [batch] == [batch] + [] && Flat([]) == [];
  }

  lemma {:induction false} AcceptedAtMost(cfg: Config, sent: Timespec, batch: seq<Arrival>)
    ensures |Accepted(cfg, sent, batch)| <= |batch|
    decreases |batch|
  {
    hide Accepts, SourceMac, Seconds;
    if batch != [] { AcceptedAtMost(cfg, sent, batch[1..]); }
  }

  /** Before the last batch the limit is not reached, whatever is accepted. */
  lemma BelowBeforeLast(cfg: Config, sent: Timespec, batches: seq<seq<Arrival>>, n: nat)
    requires n < |batches| && |Flat(Init(batches))| < Limit(cfg)
    ensures |Accepted(cfg, sent, Flat(batches[..n]))| < Limit(cfg)
  {
    hide Accepted;
    assert Init(batches) == batches[..n] + Init(batches)[n..];
    FlatSplit(batches[..n], Init(batches)[n..]);
    AcceptedAtMost(cfg, sent, Flat(batches[..n]));
  }

  lemma {:induction false} BatchTurnsGoOn(batches: seq<seq<Arrival>>, end: Timespec, w: uint32)
    requires !PlanTurn(end, EPOCH.t, w).last && CalmBatch(Flat(batches))
    ensures forall i :: 0 <= i < |BatchTurns(batches)| ==>
              GoesOn(end, w, BatchTurns(batches)[i]) && !Faulty(BatchTurns(batches)[i])
  {
    hide PlanTurn;
    if batches != [] {
      var rest := Flat(batches[1..]);
      assert forall i :: 0 <= i < |batches[0]| ==> Flat(batches)[i] == batches[0][i];
      assert forall i :: 0 <= i < |rest| ==> Flat(batches)[|batches[0]| + i] == rest[i];
      BatchTurnsGoOn(batches[1..], end, w);
    }
  }

  /** If the limit on replies is not reached before the last batch, all batches are dispatched, and the window is
      still open after them. */
  lemma BatchesDispatched(cfg: Config, s: State, had: uint32, end: Timespec, w: uint32, batches: seq<seq<Arrival>>)
    requires !PlanTurn(end, EPOCH.t, w).last && CalmBatch(Flat(batches)) && Counts(cfg, s) && !s.die
    requires Replies(s.log) == [] && batches != [] && |Flat(Init(batches))| < Limit(cfg)
    ensures var x := Turns(cfg, s, had, end, w, BatchTurns(batches));
            x.Open? && Replies(x.s.log) == Accepted(cfg, s.lastSent, Flat(batches))
  {
    hide Turns, Replies, Accepted, Heard, Sizes, Faulty, PlanTurn, Counts, BatchTurns, Flat;
    var turns := BatchTurns(batches);
    BatchTurnsGoOn(batches, end, w);
    var n := WindowRecords(cfg, s, had, end, w, turns);
    BatchesHeard(cfg, s.lastSent, batches, |batches|);
    assert turns[..|turns|] == turns && batches[..|batches|] == batches;
    if n < |turns| {
      BatchesHeard(cfg, s.lastSent, batches, n);
      BelowBeforeLast(cfg, s.lastSent, batches, n);
    }
  }

  lemma NoReplies()
    ensures Replies([]) == []
  {
  }

  /** The run of these batches records the replies in all their frames. */
  lemma BatchesRun(cfg: Config, sentAt: Reading, batches: seq<seq<Arrival>>)
    requires cfg.maxCount > 0 && cfg.packetWait > 0 && cfg.deadline < 0.0 && !sentAt.failed
    requires batches != [] && CalmBatch(Flat(batches)) && |Flat(Init(batches))| < Limit(cfg)
    ensures Replies(Ping(cfg, EPOCH, BatchRounds(sentAt, batches)).s.log) == Accepted(cfg, sentAt.t, Flat(batches))
  {
    hide Turns, Replies, Batches, Marks, Probes, LastProbe, Accepted, BatchTurns, CalmBatch, Flat;
    var rounds, armed, w := BatchRounds(sentAt, batches), Armed(cfg, EPOCH), cfg.packetWait;
    var r, s0, end := rounds[0], Start(cfg, EPOCH), EndTime(EPOCH.t, cfg.packetWait);
    var s1 := Ask(armed, Send(s0, r), r);
    var s2 := Opened(s1, w, EPOCH.t, EPOCH);
    assert !PlanTurn(end, EPOCH.t, w).last;
    NoReplies();
    LogGrows(s0.log, Probed(sentAt.t));
    LogGrows(s1.log, Listened(w, EPOCH.t, EPOCH.t));
    BatchesDispatched(armed, s2, s1.recvd, end, w, batches);
    var x := Turns(armed, s2, s1.recvd, end, w, r.turns);
    assert Ping(cfg, EPOCH, rounds) == Unfinished(x.s);
    SameFilter(armed, cfg, sentAt.t, Flat(batches));
  }

  // ----- a run in which a duplicate is missed

  lemma {:induction false} AllAccepted(cfg: Config, sent: Timespec, batch: seq<Arrival>)
    requires forall i :: 0 <= i < |batch| ==> Accepts(cfg.filter, batch[i].frame)
    ensures var rs := Accepted(cfg, sent, batch);
            |rs| == |batch| && forall i :: 0 <= i < |batch| ==> rs[i].mac == SourceMac(batch[i].frame)
    decreases |batch|
  {
    hide Accepts, SourceMac, Seconds;
    if batch != [] { AllAccepted(cfg, sent, batch[1..]); }
  }

  function LateArrival(flt: Filter, i: nat): (a: Arrival)
    ensures Accepts(flt, a.frame) && SourceMac(a.frame) == if i < U32 then ETH_NULL else ETH_XMAS
    ensures !a.at.failed
  {
    Arrival(EPOCH, PassingFrame(flt, READ_END, if i < U32 then ETH_NULL else ETH_XMAS))
  }

  /** n frames from one host, but for those after the 32-bit counter has wrapped, which another sends. */
  function LateDuplicate(flt: Filter, n: nat): (frames: seq<Arrival>)
    ensures |frames| == n && forall i :: 0 <= i < n ==> frames[i] == LateArrival(flt, i)
  {
    seq(n, i requires 0 <= i < n => LateArrival(flt, i))
  }

  /** For every n above 2^32, however these frames are split into batches of which the last one begins below the
      limit on replies, the run has n replies, from two hosts, and finds no duplicate. */
  lemma MissedDuplicate(cfg: Config, n: nat, batches: seq<seq<Arrival>>)
    requires cfg.maxCount > 0 && cfg.packetWait > 0 && cfg.deadline < 0.0 && n > U32
    requires batches != [] && Flat(batches) == LateDuplicate(cfg.filter, n) && |Flat(Init(batches))| < Limit(cfg)
    ensures var s := Ping(cfg, EPOCH, BatchRounds(EPOCH, batches)).s;
            |Replies(s.log)| == n && TwoHosts(Replies(s.log)) && !s.dup
  {
    hide Ping, Shape, Sealed, Granted, DupSeen, TwoHosts, Collect, Replies, Marks, LastProbe, Probes, Batches, Rtts,
      BatchRounds, Flat, Accepts, SourceMac, Accepted;
    var frames := LateDuplicate(cfg.filter, n);
    var rs := Replies(Ping(cfg, EPOCH, BatchRounds(EPOCH, batches)).s.log);
    BatchesRun(cfg, EPOCH, batches);
    AllAccepted(cfg, EPOCH.t, frames);
    PingKeeps(cfg, EPOCH, BatchRounds(EPOCH, batches));
    LateDifference(rs);
  }

  lemma LateDifference(rs: seq<Reply>)
    requires |rs| > U32 && forall i :: 0 <= i < |rs| ==> rs[i].mac == if i < U32 then ETH_NULL else ETH_XMAS
    ensures TwoHosts(rs) && !DupSeen(rs)
  {
    assert ETH_NULL[0] != ETH_XMAS[0];
    assert rs[0].mac != rs[U32].mac;
    assert forall k :: 0 < k < |rs| && NeighboursDiffer(rs, k) ==> k == U32;
  }

  function Singles(frames: seq<Arrival>): (batches: seq<seq<Arrival>>)
    ensures |batches| == |frames| && forall i :: 0 <= i < |batches| ==> |batches[i]| == 1
  {
    seq(|frames|, i requires 0 <= i < |frames| => [frames[i]])
  }

  lemma {:induction false} SinglesFlat(frames: seq<Arrival>)
    ensures Flat(Singles(frames)) == frames
    decreases |frames|
  {
    if frames != [] {
      assert Singles(frames)[1..] == Singles(frames[1..]);
      SinglesFlat(frames[1..]);
    }
  }

  /** Small batches are enough: without -C, 2^32 + 1 frames of which all but the last three come one at a time. */
  lemma MissedInSmallBatches(cfg: Config) returns (batches: seq<seq<Arrival>>)
    requires cfg.maxReplies == UINT_MAX
    ensures forall i :: 0 <= i < |batches| ==> |batches[i]| <= 3
    ensures batches != [] && Flat(batches) == LateDuplicate(cfg.filter, U32 + 1) && |Flat(Init(batches))| < Limit(cfg)
  {
    hide LateDuplicate, Singles;
    var frames, k := LateDuplicate(cfg.filter, U32 + 1), U32 - 2;
    var first, last := Singles(frames[..k]), frames[k..];
    batches := first + [last];
    Extended(first, last);
    SinglesFlat(frames[..k]);
    FlatSplit(first, [last]);
    FlatOne(last);
    assert frames == frames[..k] + last;
  }

  // ----- a run in which the reported minimum is wrong

  /** A second before the probe by a clock that has stepped back, and five seconds after it. */
  function BackwardFrames(flt: Filter): seq<Arrival> {
    var frame := PassingFrame(flt, READ_END, ETH_NULL);
    [Arrival(At(9, 0), frame), Arrival(At(15, 0), frame)]
  }

  /** When the clock steps back after a probe, its first round trip counts as no sample. */
  lemma WrongMinimum(cfg: Config)
    requires cfg.maxCount > 0 && cfg.packetWait > 0 && cfg.deadline < 0.0
    ensures var s := Ping(cfg, EPOCH, BatchRounds(At(10, 0), [BackwardFrames(cfg.filter)])).s;
            Rtts(Replies(s.log)) == [-1.0, 5.0] && s.stats.min == 5.0
  {
    hide Ping, Shape, Sealed, Granted, DupSeen, Collect, Replies, Marks, LastProbe, Probes, Batches, BatchRounds,
      Accepts, SourceMac, PassingFrame;
    var frames := BackwardFrames(cfg.filter);
    FlatOne(frames);
    BatchesRun(cfg, At(10, 0), [frames]);
    BothAccepted(cfg, At(10, 0).t, frames[0], frames[1]);
    PingKeeps(cfg, EPOCH, BatchRounds(At(10, 0), [frames]));
    TwoSamples(-1.0, 5.0);
  }

  lemma BothAccepted(cfg: Config, sent: Timespec, a: Arrival, b: Arrival)
    requires Accepts(cfg.filter, a.frame) && Accepts(cfg.filter, b.frame)
    ensures Accepted(cfg, sent, [a, b]) == [Reply(SourceMac(a.frame), Seconds(a.at.t) - Seconds(sent)),
                                            Reply(SourceMac(b.frame), Seconds(b.at.t) - Seconds(sent))]
  {
    hide Accepts, SourceMac, Seconds;
    AcceptedNothing(cfg, sent);
    assert [a, b][1..] == [b] && [b][1..] == [];
    assert Accepted(cfg, sent, [b]) == [Reply(SourceMac(b.frame), Seconds(b.at.t) - Seconds(sent))];
  }

  lemma TwoSamples(x: real, y: real)
    requires x < 0.0
    ensures Collect([x, y]).min == y
  {
    assert Init([x, y]) == [x] && Init([x]) == [];
  }

  // ----- limits

  /** -C and -c: the program goes on below the limit on replies. Every batch is dispatched below it, so that the
      replies exceed it by less than the last batch; once it is reached no batch is dispatched, no probe sent, no
      window opened and no silence reported. No more than `count` probes are sent; 3 if -d comes without -c. */
  lemma LimitsHold(cfg: Config, begin: Reading, rounds: seq<Round>, i: nat)
    ensures var s := Ping(cfg, begin, rounds).s;
            && (!s.die ==> |Replies(s.log)| < Limit(cfg))
            && |Replies(s.log)| < Limit(cfg) + LastBatch(s.log)
            && (i < |s.log| && s.log[i].Dispatched? ==> |Replies(s.log[..i])| < Limit(cfg))
            && (i < |s.log| && |Replies(s.log[..i])| >= Limit(cfg) ==> s.log[i].Answered? || s.log[i].Shut?)
            && s.sent == Probes(s.log)
            && s.sent <= (if cfg.findDup && cfg.maxCount == 0xffff_ffff then 3 else cfg.maxCount)
  {
    hide Ping, Tallied, Shape, Granted, Replies, Probes, LastBatch;
    PingKeeps(cfg, begin, rounds);
    assert Limit(Armed(cfg, begin)) == Limit(cfg);
  }

  // ----- the marks of -D

  function Count(s: string, c: char): nat {
    if s == "" then 0 else Count(Init(s), c) + if Last(s) == c then 1 else 0
  }

  function Silences(log: seq<Action>): nat {
    if log == [] then 0 else Silences(Init(log)) + if Last(log).Silent? then 1 else 0
  }

  function Windows(log: seq<Action>): nat {
    if log == [] then 0 else Windows(Init(log)) + if Last(log).Listened? then 1 else 0
  }

  /** Windows in which some reply was accepted, counted at the first one. */
  function AnsweredWindows(log: seq<Action>): nat {
    if log == [] then 0
    else AnsweredWindows(Init(log)) + if Last(log).Answered? && QuietSince(Init(log)) then 1 else 0
  }

  lemma CountGrows(s: string, d: char, c: char)
    ensures Count(s + [d], c) == Count(s, c) + if d == c then 1 else 0
  {
    Extended(s, d);
  }

  lemma {:induction false} MarksCounted(log: seq<Action>)
    ensures Count(Marks(log), '!') == |Replies(log)| && Count(Marks(log), '.') == Silences(log)
  {
    if log != [] {
      MarksCounted(Init(log));
      var before := Marks(Init(log));
      match Last(log)
      case Answered(_) =>
        CountGrows(before, '!', '!');
        CountGrows(before, '!', '.');
      case Silent =>
        CountGrows(before, '.', '!');
        CountGrows(before, '.', '.');
      case _ =>
        assert Marks(log) == before;
    }
  }

  lemma ShapeOfInit(log: seq<Action>)
    requires log != [] && Shape(log)
    ensures Shape(Init(log)) && MayFollow(Init(log), Last(log))
  {
    hide MayFollow;
    assert log[..|log| - 1] == Init(log);
    assert forall i :: 0 <= i < |log| - 1 ==> Init(log)[..i] == log[..i];
  }

  lemma {:induction false} WindowsAccounted(log: seq<Action>)
    requires Shape(log)
    ensures Silences(log) + AnsweredWindows(log) + (if QuietSince(log) then 1 else 0) <= Windows(log)
    ensures Windows(log) + (if log != [] && Last(log).Probed? then 1 else 0) <= Probes(log)
  {
    hide Shape;
    if log != [] {
      ShapeOfInit(log);
      WindowsAccounted(Init(log));
    }
  }

  lemma {:induction false} QuietBackToStart(log: seq<Action>) returns (k: nat)
    requires QuietSince(log)
    ensures k < |log| && log[k].Listened? && forall i :: k < i < |log| ==> log[i].Dispatched?
  {
    if Last(log).Listened? {
      k := |log| - 1;
    } else {
      k := QuietBackToStart(Init(log));
      assert forall i :: k < i < |log| - 1 ==> log[i] == Init(log)[i];
    }
  }

  lemma AfterProbe(log: seq<Action>, k: nat)
    requires Shape(log) && k < |log| && log[k].Listened?
    ensures k > 0 && log[k - 1].Probed?
  {
    assert MayFollow(log[..k], log[k]);
  }

  lemma AfterSilence(log: seq<Action>, i: nat)
    requires Shape(log) && i < |log| && log[i].Silent?
    ensures i + 1 < |log| ==> log[i + 1].Shut?
    ensures i + 2 < |log| ==> log[i + 2].Probed?
  {
    if i + 1 < |log| { assert MayFollow(log[..i + 1], log[i + 1]) && Last(log[..i + 1]) == log[i]; }
    if i + 2 < |log| { assert MayFollow(log[..i + 2], log[i + 2]) && Last(log[..i + 2]) == log[i + 1]; }
  }

  lemma BeforeSilence(log: seq<Action>, j: nat) returns (k: nat)
    requires Shape(log) && j < |log| && log[j].Silent?
    ensures k < j && log[k].Probed? && forall i :: k < i < j ==> log[i].Listened? || log[i].Dispatched?
  {
    assert MayFollow(log[..j], log[j]);
    k := QuietBackToStart(log[..j]);
    AfterProbe(log, k);
    k := k - 1;
  }

  /** Two marks with no probe between them are both replies: a window prints only '!'s, or one '.'. */
  lemma OneKindPerWindow(log: seq<Action>, i: nat, j: nat)
    requires Shape(log) && i < j < |log|
    requires (log[i].Answered? || log[i].Silent?) && (log[j].Answered? || log[j].Silent?)
    requires forall k :: i < k < j ==> !log[k].Probed?
    ensures log[i].Answered? && log[j].Answered?
  {
    hide Shape;
    if log[j].Silent? { var k := BeforeSilence(log, j); }
    if log[i].Silent? { AfterSilence(log, i); }
  }

  /** Output conservation: with -D every run prints one '!' for each accepted reply, and dots and answered
      windows together never outnumber the probes. */
  lemma MarksConserved(cfg: Config, begin: Reading, rounds: seq<Round>)
    requires cfg.dots
    ensures var s := Ping(cfg, begin, rounds).s;
            && Count(s.out, '!') == |Replies(s.log)|
            && Count(s.out, '.') + AnsweredWindows(s.log) <= Windows(s.log) <= s.sent
            && Shape(s.log)
  {
    PingKeeps(cfg, begin, rounds);
    var log := Ping(cfg, begin, rounds).s.log;
    MarksCounted(log);
    WindowsAccounted(log);
  }

  // ----- the closing report

  lemma {:induction false} NonNegativeReplies(log: seq<Action>)
    requires NoneNegative(log)
    ensures forall i :: 0 <= i < |Replies(log)| ==> Replies(log)[i].rtt >= 0.0
  {
    if log != [] {
      assert NoneNegative(Init(log)) by { assert forall i :: 0 <= i < |log| - 1 ==> Init(log)[i] == log[i]; }
      NonNegativeReplies(Init(log));
      assert Last(log).Answered? ==> Last(log).reply.rtt >= 0.0;
    }
  }

  /** The closing statistics of every steady run are sound: least, mean and greatest round trip, and the variance
      as the argument of sqrt. Its standard deviation is a value only if
      all round trips were equal or some differ by two seconds or more. */
  lemma ClosingReport(cfg: Config, begin: Reading, rounds: seq<Round>)
    requires Steady(cfg, begin, rounds)
    ensures var s := Ping(cfg, begin, rounds).s;
            var xs := Rtts(Replies(s.log));
            xs != [] && |xs| < U32 ==>
              && |xs| == s.recvd
              && Describes(s.stats, xs)
              && 0.0 <= s.stats.min <= Average(s.stats, s.recvd) <= s.stats.max
              && Average(s.stats, s.recvd) * |xs| as real == Sum(xs)
              && Radicand(s.stats, s.recvd) * |xs| as real == Spread(xs, Average(s.stats, s.recvd))
              && (s.stats.max - s.stats.min < 2.0 ==>
                    SqrtOf(Radicand(s.stats, s.recvd))
                    == if forall x, y :: x in xs && y in xs ==> x == y then Root(0.0) else Unassigned)
  {
    hide Ping, Replies, Sound, EndsTimely, Spread, Average, Radicand, SqrtOf, Sum, Describes, Collect, Steady;
    var s := Ping(cfg, begin, rounds).s;
    SteadyRunSamples(cfg, begin, rounds);
    var xs := Rtts(Replies(s.log));
    if xs != [] && |xs| < U32 { SamplesReport(xs, s); }
  }

  lemma SteadyRunSamples(cfg: Config, begin: Reading, rounds: seq<Round>)
    requires Steady(cfg, begin, rounds)
    ensures var s := Ping(cfg, begin, rounds).s;
            var rs := Replies(s.log);
            s.recvd == |rs| % U32 && s.stats == Collect(Rtts(rs)) && forall i :: 0 <= i < |rs| ==> rs[i].rtt >= 0.0
  {
    hide Shape, Sealed, Granted, DupSeen, Collect, Replies, Marks, LastProbe, Probes, Batches, Rtts, Rounds;
    PingKeeps(cfg, begin, rounds);
    RoundsTimely(Armed(cfg, begin), Start(cfg, begin), 0, Total(begin.t), rounds);
    NonNegativeReplies(Ping(cfg, begin, rounds).s.log);
  }

  lemma NonNegativeDescribed(xs: seq<real>)
    requires xs != [] && forall i :: 0 <= i < |xs| ==> xs[i] >= 0.0
    ensures Describes(Collect(xs), xs) && Collect(xs).min >= 0.0
  {
    hide Collect, Sum, SumSq;
    assert xs[0] in xs;
    CollectDescribesIff(xs);
  }

  lemma SamplesReport(xs: seq<real>, s: State)
    requires xs != [] && s.recvd == |xs| && s.stats == Collect(xs) && forall i :: 0 <= i < |xs| ==> xs[i] >= 0.0
    ensures Describes(s.stats, xs) && 0.0 <= s.stats.min <= Average(s.stats, s.recvd) <= s.stats.max
    ensures Average(s.stats, s.recvd) * |xs| as real == Sum(xs)
    ensures Radicand(s.stats, s.recvd) * |xs| as real == Spread(xs, Average(s.stats, s.recvd))
    ensures s.stats.max - s.stats.min < 2.0 ==>
              SqrtOf(Radicand(s.stats, s.recvd))
              == if forall x, y :: x in xs && y in xs ==> x == y then Root(0.0) else Unassigned
  {
    hide Average, Radicand, SqrtOf, Collect, Sum, SumSq, Spread, Describes;
    NonNegativeDescribed(xs);
    ReportSound(xs, s.stats);
    if s.stats.max - s.stats.min < 2.0 { DeviationUnassigned(xs, s.stats); }
  }
}
