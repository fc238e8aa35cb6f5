/** One run of arping as a function of what the environment does: clock readings, signals, select outcomes
    and captured frames. The methods of Arping are proved against these functions. */
module Session {
  import opened Seqs
  import opened Clock
  import opened Ints
  import opened Arp
  import opened Statistics

  const UINT_MAX: uint32 := 0xffff_ffff

  /** The options that a run depends on. The deadline is negative for none. */
  datatype Config = Config(filter: Filter, maxCount: uint32, maxReplies: uint32, packetWait: uint32,
                           deadline: real, findDup: bool, dots: bool)

  /** An accepted reply: the host it came from and the time since the last probe. */
  datatype Reply = Reply(mac: Mac, rtt: real)

  /** What a run does, as an observer records it. */
  datatype Action =
    | Probed(at: Timespec)     // a probe was sent, and its time taken
    | Listened(w: uint32, asked: Timespec, start: Timespec)  // wait_time, reading `asked`, granted w microseconds;
                               // ping_recv opened a window of them at its own reading, `start`
    | Dispatched(size: nat)    // a batch of frames was handed to the callback
    | Answered(reply: Reply)   // a reply was accepted
    | Silent                   // a window timed out without a reply
    | Shut(when: int)          // a window closed, at this time in nanoseconds

  /** The program's variables, and the record of what it did. */
  datatype State = State(sent: uint32, recvd: uint32, die: bool, lastSent: Timespec, lastMac: Mac, dup: bool,
                         stats: Stats, out: string, log: seq<Action>)

  // ----- the record

  function Replies(log: seq<Action>): seq<Reply> {
    if log == [] then []
    else Replies(Init(log)) + (match Last(log) case Answered(r) => [r] case _ => [])
  }

  function Probes(log: seq<Action>): nat {
    if log == [] then 0 else Probes(Init(log)) + if Last(log).Probed? then 1 else 0
  }

  /** When the last probe was sent; the variable starts out as zero. */
  function LastProbe(log: seq<Action>): Timespec {
    if log == [] then Timespec(0, 0) else if Last(log).Probed? then Last(log).at else LastProbe(Init(log))
  }

  /** The marks that -D prints for a record. */
  function Marks(log: seq<Action>): string {
    if log == [] then ""
    else Marks(Init(log)) + (match Last(log) case Answered(_) => "!" case Silent => "." case _ => "")
  }

  /** The sizes of the batches dispatched. */
  function Batches(log: seq<Action>): seq<nat> {
    if log == [] then []
    else Batches(Init(log)) + (match Last(log) case Dispatched(n) => [n] case _ => [])
  }

  function Rtts(rs: seq<Reply>): seq<real> {
    seq(|rs|, i requires 0 <= i < |rs| => rs[i].rtt)
  }

  lemma LogGrows(log: seq<Action>, a: Action)
    ensures Replies(log + [a]) == if a.Answered? then Replies(log) + [a.reply] else Replies(log)
    ensures Probes(log + [a]) == Probes(log) + if a.Probed? then 1 else 0
    ensures Batches(log + [a]) == if a.Dispatched? then Batches(log) + [a.size] else Batches(log)
    ensures LastProbe(log + [a]) == if a.Probed? then a.at else LastProbe(log)
    ensures Marks(log + [a])
         == if a.Answered? then Marks(log) + "!" else if a.Silent? then Marks(log) + "." else Marks(log)
  {
    Extended(log, a);
  }

  // ----- pingip_recv

  /** A frame handed over by the capture library, and the clock as the callback reads it. */
  datatype Arrival = Arrival(at: Reading, frame: Frame)

  /** What an accepted reply changes besides the statistics. */
  function Counted(cfg: Config, s: State, r: Reply): State {
    var recvd := (s.recvd + 1) % U32;
    s.(out := if cfg.dots then s.out + "!" else s.out,
       dup := s.dup || (s.recvd != 0 && s.lastMac != r.mac),
       lastMac := r.mac,
       recvd := recvd,
       die := s.die || recvd >= cfg.maxReplies,
       log := s.log + [Answered(r)])
  }

  function OnArrival(cfg: Config, s: State, a: Arrival): State {
    var s1 := s.(die := s.die || a.at.failed);
    if !Accepts(cfg.filter, a.frame) then s1
    else
      var rtt := Seconds(a.at.t) - Seconds(s.lastSent);
      Counted(cfg, s1.(stats := Update(s.stats, rtt)), Reply(SourceMac(a.frame), rtt))
  }

  /** The callback runs on every frame of the batch. */
  function Dispatch(cfg: Config, s: State, batch: seq<Arrival>): State
    decreases |batch|
  {
    if batch == [] then s else Dispatch(cfg, OnArrival(cfg, s, batch[0]), batch[1..])
  }

  /** pcap_dispatch with a batch that is ready. */
  function OnReady(cfg: Config, s: State, batch: seq<Arrival>): State {
    Dispatch(cfg, s.(log := s.log + [Dispatched(|batch|)]), batch)
  }

  // ----- ping_recv

  datatype Outcome = TimedOut | Ready(batch: seq<Arrival>) | Interrupted | Failed

  /** One turn of the receive loop: the clock it reads, whether SIGINT came before the check, what select
      said, and when (in nanoseconds) it said it. */
  datatype Turn = Turn(now: Reading, signalled: bool, outcome: Outcome, woke: int)

  datatype How = Killed | SelectFailed | Quiet | PastEnd

  /** A window is closed, at some time for some reason, or still open when the record of turns ends. */
  datatype Window = Closed(s: State, at: int, how: How) | Open(s: State)

  function OnTimeout(cfg: Config, s: State, had: uint32): State {
    if s.recvd == had then s.(out := if cfg.dots then s.out + "." else s.out, log := s.log + [Silent]) else s
  }

  /** What the program does on the outcome of select. */
  function React(cfg: Config, s: State, had: uint32, o: Outcome): State {
    match o
    case TimedOut => OnTimeout(cfg, s, had)
    case Ready(batch) => OnReady(cfg, s, batch)
    case Interrupted => s
    case Failed => s.(die := true)
  }

  /** A timeout or a failure of select ends the loop, whatever the time. */
  predicate Ends(o: Outcome) {
    o.TimedOut? || o.Failed?
  }

  function HowEnded(o: Outcome): How {
    match o
    case TimedOut => Quiet
    case Failed => SelectFailed
    case _ => PastEnd
  }

  /** The loop's check for a signal, after it has read the clock. */
  function Checked(s: State, t: Turn): State {
    s.(die := s.die || t.now.failed || t.signalled)
  }

  function Turns(cfg: Config, s: State, had: uint32, end: Timespec, w: uint32, turns: seq<Turn>): Window
    decreases |turns|
  {
    if turns == [] then Open(s)
    else
      var t := turns[0];
      var s1 := Checked(s, t);
      if s1.die then Closed(s1, Total(t.now.t), Killed)
      else
        var s2 := React(cfg, s1, had, t.outcome);
        if PlanTurn(end, t.now.t, w).last || Ends(t.outcome) then Closed(s2, t.woke, HowEnded(t.outcome))
        else Turns(cfg, s2, had, end, w, turns[1..])
  }

  /** A window is opened at ping_recv's own first reading of the clock. */
  function Opened(s: State, w: uint32, asked: Timespec, start: Reading): State {
    s.(die := s.die || start.failed, log := s.log + [Listened(w, asked, start.t)])
  }

  function Listen(cfg: Config, s: State, w: uint32, asked: Timespec, start: Reading, turns: seq<Turn>): Window {
    match Turns(cfg, Opened(s, w, asked, start), s.recvd, EndTime(start.t, w), w, turns)
    case Open(s1) => Open(s1)
    case Closed(s1, at, how) => Closed(s1.(log := s1.log + [Shut(at)]), at, how)
  }

  // ----- wait_time

  function WaitTime(deadline: real, now: Timespec, packetWait: uint32): (w: uint32)
    ensures w <= packetWait
  {
    if deadline < 0.0 then packetWait
    else
      var maxWait := deadline - Seconds(now);
      if maxWait < 0.0 then 0
      else if maxWait > (packetWait / MICROS) as real then packetWait
      else (maxWait * 1000000.0).Floor
  }

  // ----- the main loop

  /** One round: whether SIGINT came before the loop's check, whether a builder or libnet_write failed, the
      clock after sending, in wait_time and in ping_recv, and the turns of ping_recv. */
  datatype Round = Round(signalled: bool, sendFailed: bool, sentAt: Reading, asked: Reading, start: Reading,
                         turns: seq<Turn>)

  function Send(s: State, r: Round): State {
    s.(die := s.die || r.sendFailed || r.sentAt.failed, lastSent := r.sentAt.t, sent := (s.sent + 1) % U32,
       log := s.log + [Probed(r.sentAt.t)])
  }

  /** wait_time reads the clock only when there is a deadline. */
  function Ask(cfg: Config, s: State, r: Round): State {
    if cfg.deadline < 0.0 then s else s.(die := s.die || r.asked.failed)
  }

  datatype Run = Finished(s: State) | Unfinished(s: State)

  function Rounds(cfg: Config, s: State, c: nat, rounds: seq<Round>): Run
    decreases |rounds|
  {
    if c >= cfg.maxCount || s.die then Finished(s)
    else if rounds == [] then Unfinished(s)
    else if rounds[0].signalled then Finished(s.(die := true))
    else
      var r := rounds[0];
      var s1 := Ask(cfg, Send(s, r), r);
      var w := WaitTime(cfg.deadline, r.asked.t, cfg.packetWait);
      if w == 0 then Finished(s1)
      else
        match Listen(cfg, s1, w, r.asked.t, r.start, r.turns)
        case Open(s2) => Unfinished(s2)
        case Closed(s2, _, _) => Rounds(cfg, s2, c + 1, rounds[1..])
  }

  /** -d without -c sends three probes. */
  function EffectiveCount(cfg: Config): uint32 {
    if cfg.findDup && cfg.maxCount == UINT_MAX then 3 else cfg.maxCount
  }

  /** The configuration once the deadline has become an absolute time; zero is left as it is. */
  function Armed(cfg: Config, begin: Reading): Config {
    cfg.(maxCount := EffectiveCount(cfg),
         deadline := if cfg.deadline > 0.0 then cfg.deadline + Seconds(begin.t) else cfg.deadline)
  }

  function Start(cfg: Config, begin: Reading): State {
    State(0, 0, cfg.deadline > 0.0 && begin.failed, Timespec(0, 0), [0, 0, 0, 0, 0, 0], false, NO_STATS, "", [])
  }

  /** The run from the first clock reading on. */
  function Ping(cfg: Config, begin: Reading, rounds: seq<Round>): Run {
    Rounds(Armed(cfg, begin), Start(cfg, begin), 0, rounds)
  }

  function ExitCode(cfg: Config, s: State): int {
    if cfg.findDup then (if s.dup then 1 else 0) else (if s.recvd == 0 then 1 else 0)
  }
}
