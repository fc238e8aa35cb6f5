/** The program itself: the file-level variables of arping.c and the functions that update them in place.
    Each is proved to change them exactly as the session's functions say. */
module Program {
  import opened Clock
  import opened Ints
  import opened Arp
  import opened Statistics
  import opened Session

  class Arping {
    var cfg: Config
    var sent: uint32
    var recvd: uint32
    var die: bool
    var lastSent: Timespec
    var lastMac: Mac
    var dup: bool
    var statsMin: real
    var statsMax: real
    var statsTotal: real
    var statsTotalSq: real
    var out: string
    ghost var log: seq<Action>

    ghost function Snapshot(): State
      reads this
    {
      State(sent, recvd, die, lastSent, lastMac, dup, Stats(statsMin, statsMax, statsTotal, statsTotalSq), out, log)
    }

    constructor (cfg: Config)
      ensures this.cfg == cfg
      ensures Snapshot() == State(0, 0, false, Timespec(0, 0), [0, 0, 0, 0, 0, 0], false, NO_STATS, "", [])
    {
      this.cfg := cfg;
      sent, recvd, die, dup := 0, 0, false, false;
      lastSent, lastMac := Timespec(0, 0), [0, 0, 0, 0, 0, 0];
      statsMin, statsMax, statsTotal, statsTotalSq := -1.0, -1.0, 0.0, 0.0;
      out, log := "", [];
    }

    method SigInt()
      modifies `die
      ensures Snapshot() == old(Snapshot()).(die := true)
    {
      die := true;
    }

    method GetClock(r: Reading) returns (t: Timespec)
      modifies `die
      ensures t == r.t && Snapshot() == old(Snapshot()).(die := old(die) || r.failed)
    {
      if r.failed { SigInt(); }
      t := r.t;
    }

    method UpdateStats(sample: real)
      modifies `statsMin, `statsMax, `statsTotal, `statsTotalSq
      ensures Snapshot() == old(Snapshot()).(stats := Update(old(Snapshot()).stats, sample))
    {
      if statsMin < 0.0 || sample < statsMin {
        statsMin := sample;
      }
      if sample > statsMax {
        statsMax := sample;
      }
      statsTotal := statsTotal + sample;
      statsTotalSq := statsTotalSq + sample * sample;
    }

    /** The checks that pingip_recv makes before it counts a frame. */
    method Passes(f: Frame) returns (ok: bool)
      ensures ok == Accepts(cfg.filter, f)
    {
      var b := f.buf;
      if f.caplen < MIN_CAPLEN { return false; }
      if b[ARP_AT + 4] as int != ETH_ALEN { return false; }
      if b[ARP_AT + 5] != 4 { return false; }
      if U16(b, ARP_AT + 6) != ARPOP_REPLY { return false; }
      if U16(b, ARP_AT + 2) != ETHERTYPE_IP { return false; }
      if U16(b, ARP_AT) != ARPHRD_ETHER { return false; }
      if cfg.filter.addrMustBeSame {
        if b[ARP_AT + ARP_H..ARP_AT + ARP_H + ETH_ALEN] != cfg.filter.dstMac { return false; }
      }
      var ip := ARP_AT + b[ARP_AT + 4] as int + ARP_H;
      return b[ip..ip + 4] == cfg.filter.dstIp;
    }

    method PingIpRecv(a: Arrival)
      modifies this
      ensures cfg == old(cfg) && Snapshot() == OnArrival(cfg, old(Snapshot()), a)
    {
      hide Accepts, SourceMac, Seconds, Update;
      var arrival := GetClock(a.at);
      var ok := Passes(a.frame);
      if !ok { return; }
      var srcMac := SourceMac(a.frame);
      var rtt := Seconds(arrival) - Seconds(lastSent);
      UpdateStats(rtt);
      CountReply(Reply(srcMac, rtt));
    }

    /** The rest of pingip_recv: the mark, the duplicate check, the counter and its limit. */
    method CountReply(r: Reply)
      modifies `out, `dup, `lastMac, `recvd, `die, `log
      ensures Snapshot() == Counted(cfg, old(Snapshot()), r)
    {
      if cfg.dots { out := out + "!"; }
      if recvd != 0 {
        if lastMac != r.mac { dup := true; }
      }
      lastMac := r.mac;
      recvd := (recvd + 1) % U32;
      if recvd >= cfg.maxReplies { SigInt(); }
      log := log + [Answered(r)];
    }

    /** The capture library's loop over the callback. */
    method PcapDispatch(batch: seq<Arrival>)
      modifies this
      ensures cfg == old(cfg) && Snapshot() == OnReady(cfg, old(Snapshot()), batch)
    {
      log := log + [Dispatched(|batch|)];
      var i := 0;
      while i < |batch|
        invariant 0 <= i <= |batch| && cfg == old(cfg)
        invariant OnReady(cfg, old(Snapshot()), batch) == Dispatch(cfg, Snapshot(), batch[i..])
      {
        assert batch[i..][1..] == batch[i + 1..];
        PingIpRecv(batch[i]);
        i := i + 1;
      }
    }

    /** One turn's plan, computed in place as ping_recv does. */
    method PlanNow(end: Timespec, now: Timespec, w: uint32) returns (tv: Timeval, done: bool)
      ensures Plan(tv, done) == PlanTurn(end, now, w)
    {
      done := false;
      var ts := FixupTimespec(Timespec(end.sec - now.sec, end.nsec - now.nsec));
      if ts.sec < 0 {
        ts := Timespec(0, 1);
        done := true;
      }
      if ts.sec > w / MICROS || (ts.sec == w / MICROS && ts.nsec / 1000 > w % MICROS) {
        ts := Timespec(0, 1);
        done := true;
      }
      tv := Timeval(ts.sec, ts.nsec / 1000);
    }

    /** The switch on the outcome of select, and the dispatch after it. */
    method OnSelect(o: Outcome, had: uint32) returns (done: bool)
      modifies this
      ensures cfg == old(cfg) && Snapshot() == React(cfg, old(Snapshot()), had, o) && done == Ends(o)
    {
      hide OnReady;
      done := false;
      match o
      case TimedOut =>
        if recvd == had {
          if cfg.dots { out := out + "."; }
          log := log + [Silent];
        }
        done := true;
      case Failed =>
        done := true;
        SigInt();
      case Interrupted =>
      case Ready(batch) =>
        PcapDispatch(batch);
    }

    /** The body of the loop: it returns if the program is dying. `when` is the time at which the turn ends. */
    method TakeTurn(t: Turn, end: Timespec, w: uint32, had: uint32) returns (done: bool, ghost when: int)
      modifies this
      ensures cfg == old(cfg)
      ensures var s1 := Checked(old(Snapshot()), t);
              if s1.die then Snapshot() == s1 && done && when == Total(t.now.t)
              else && Snapshot() == React(cfg, s1, had, t.outcome) && when == t.woke
                   && done == (PlanTurn(end, t.now.t, w).last || Ends(t.outcome))
    {
      hide PlanTurn, React, Total;
      var now := GetClock(t.now);
      if t.signalled { SigInt(); }
      var tv, last := PlanNow(end, now, w);
      if die {
        return true, Total(t.now.t);
      }
      var ended := OnSelect(t.outcome, had);
      return last || ended, t.woke;
    }

    method PingRecv(w: uint32, asked: Timespec, start: Reading, turns: seq<Turn>) returns (done: bool)
      modifies this
      ensures cfg == old(cfg)
      ensures var x := Listen(cfg, old(Snapshot()), w, asked, start, turns); Snapshot() == x.s && done == x.Closed?
    {
      hide PlanTurn, React;
      var ts := GetClock(start);
      var endtime := FixupTimespec(Timespec(ts.sec + w / MICROS, ts.nsec + 1000 * (w % MICROS)));
      log := log + [Listened(w, asked, start.t)];
      var had := recvd;
      ghost var window := Turns(cfg, Snapshot(), had, endtime, w, turns);
      ghost var when := 0;
      var i := 0;
      done := false;
      while i < |turns| && !done
        invariant 0 <= i <= |turns| && cfg == old(cfg)
        invariant if done then window.Closed? && Snapshot() == window.s && when == window.at
                  else window == Turns(cfg, Snapshot(), had, endtime, w, turns[i..])
        decreases |turns| - i
      {
        assert turns[i..][1..] == turns[i + 1..];
        done, when := TakeTurn(turns[i], endtime, w, had);
        i := i + 1;
      }
      if done { log := log + [Shut(when)]; }
    }

    method PingIpSend(r: Round)
      modifies this
      ensures cfg == old(cfg) && Snapshot() == Send(old(Snapshot()), r)
    {
      if r.sendFailed { SigInt(); }
      lastSent := GetClock(r.sentAt);
      sent := (sent + 1) % U32;
      log := log + [Probed(r.sentAt.t)];
    }

    method WaitTimeNow(r: Round) returns (w: uint32)
      modifies `die
      ensures Snapshot() == Ask(cfg, old(Snapshot()), r) && w == WaitTime(cfg.deadline, r.asked.t, cfg.packetWait)
    {
      if cfg.deadline < 0.0 {
        return cfg.packetWait;
      }
      var ts := GetClock(r.asked);
      var maxWait := cfg.deadline - Seconds(ts);
      if maxWait < 0.0 {
        return 0;
      }
      if maxWait > (cfg.packetWait / MICROS) as real {
        return cfg.packetWait;
      }
      w := (maxWait * 1000000.0).Floor;
    }

    /** The main loop of arping_main when pinging an IP address, and the code it exits with. The run is
        unfinished when the environment's rounds end before the loop does. */
    method RunPings(begin: Reading, rounds: seq<Round>) returns (finished: bool, code: int)
      requires Snapshot() == State(0, 0, false, Timespec(0, 0), [0, 0, 0, 0, 0, 0], false, NO_STATS, "", [])
      modifies this
      ensures var x := Ping(old(cfg), begin, rounds);
              Snapshot() == x.s && finished == x.Finished? && (finished ==> code == ExitCode(old(cfg), x.s))
    {
      hide Listen, WaitTime, Seconds;
      ghost var given := cfg;
      if cfg.findDup && cfg.maxCount == UINT_MAX {
        cfg := cfg.(maxCount := 3);
      }
      if cfg.deadline > 0.0 {
        var ts := GetClock(begin);
        cfg := cfg.(deadline := cfg.deadline + Seconds(ts));
      }
      assert cfg == Armed(given, begin) && Snapshot() == Start(given, begin);
      ghost var run := Ping(given, begin, rounds);
      var c := 0;
      finished, code := false, 0;
      while c < cfg.maxCount && !die
        invariant 0 <= c <= |rounds| && cfg == Armed(given, begin)
        invariant run == Rounds(cfg, Snapshot(), c, rounds[c..])
        decreases |rounds| - c
      {
        if c == |rounds| { return; }
        var r := rounds[c];
        assert rounds[c..][1..] == rounds[c + 1..];
        if r.signalled {
          SigInt();
          break;
        }
        PingIpSend(r);
        var w := WaitTimeNow(r);
        if w == 0 {
          break;
        }
        var closed := PingRecv(w, r.asked.t, r.start, r.turns);
        if !closed { return; }
        c := c + 1;
      }
      finished, code := true, if cfg.findDup then (if dup then 1 else 0) else (if recvd == 0 then 1 else 0);
    }
  }
}
