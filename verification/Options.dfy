/** The options that choose between pinging an IP and pinging a MAC, and the check for conflicts among them. */
module Options {
  import opened Seqs

  datatype Mode = NoMode | PingMac | PingIp

  /** An option letter of the getopt switch; Other stands for those that touch neither mode nor conflict. */
  datatype Letter = B | LowerT | T | U | Other

  datatype Flags = Flags(mode: Mode, optB: bool, optT: bool, optU: bool, dstMac: bool)

  const NO_FLAGS := Flags(NoMode, false, false, false, false)

  /** One turn of the switch. */
  function Apply(f: Flags, o: Letter): Flags {
    match o
    case B => f.(optB := true)
    case LowerT => f.(dstMac := true, mode := PingIp)
    case T => f.(optT := true, mode := PingMac)
    case U => f.(optU := true, mode := PingIp)
    case Other => f
  }

  function Parsed(opts: seq<Letter>): Flags {
    if opts == [] then NO_FLAGS else Apply(Parsed(Init(opts)), Last(opts))
  }

  /** The two checks after getopt. */
  predicate Rejected(f: Flags) {
    || (f.mode.PingIp? && f.optT)
    || (f.mode.PingMac? && (f.optB || f.dstMac || f.optU))
    || (f.optT && f.optB)
  }

  /** The getopt loop. */
  method Parse(opts: seq<Letter>) returns (rejected: bool, mode: Mode)
    ensures rejected == Rejected(Parsed(opts)) && mode == Parsed(opts).mode
  {
    var optB, optT, optU, dstMac := false, false, false, false;
    mode := NoMode;
    for i := 0 to |opts|
      invariant Flags(mode, optB, optT, optU, dstMac) == Parsed(opts[..i])
    {
      Extended(opts[..i], opts[i]);
      assert opts[..i + 1] == opts[..i] + [opts[i]];
      match opts[i] {
        case B => optB := true;
        case LowerT =>
          dstMac := true;
          mode := PingIp;
        case T =>
          optT := true;
          mode := PingMac;
        case U =>
          optU := true;
          mode := PingIp;
        case Other =>
      }
    }
    assert opts[..|opts|] == opts;
    if (mode == PingIp && optT) || (mode == PingMac && (optB || dstMac || optU)) {
      return true, mode;
    }
    return optT && optB, mode;
  }

  /** The flags record exactly which letters occurred, and the mode which of t, T, U was the last. */
  lemma {:induction false} FlagsMean(opts: seq<Letter>)
    ensures var f := Parsed(opts);
            && (f.optB <==> B in opts) && (f.optT <==> T in opts)
            && (f.optU <==> U in opts) && (f.dstMac <==> LowerT in opts)
            && (f.mode.NoMode? <==> T !in opts && LowerT !in opts && U !in opts)
            && (f.mode.PingMac? ==> T in opts) && (f.mode.PingIp? ==> LowerT in opts || U in opts)
  {
    if opts != [] {
      FlagsMean(Init(opts));
      Members(opts);
    }
  }

  /** Conflict detection is order-independent: -T with any of -t, -U, -B is rejected, and nothing else is. */
  lemma RejectedIff(opts: seq<Letter>)
    ensures Rejected(Parsed(opts)) <==> T in opts && (LowerT in opts || U in opts || B in opts)
  {
    FlagsMean(opts);
  }

  /** Whether a command line is accepted, and the mode and the conflict flags of one that is, do not depend on the
      order of the options. */
  lemma AcceptedInAnyOrder(a: seq<Letter>, b: seq<Letter>)
    requires multiset(a) == multiset(b)
    ensures Rejected(Parsed(a)) == Rejected(Parsed(b))
    ensures !Rejected(Parsed(a)) ==> Parsed(a) == Parsed(b)
  {
    forall o: Letter
      ensures o in a <==> o in b
    {
      assert o in a <==> o in multiset(a);
      assert o in b <==> o in multiset(b);
    }
    FlagsMean(a);
    FlagsMean(b);
  }
}
