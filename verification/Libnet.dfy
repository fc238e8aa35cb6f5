/** The lifetime of a libnet context: libnet_init, libnet_destroy, libnet_clear_packet, and the
    re-initialisation that arping builds on them. */
module Libnet {
  import opened Seqs
  import opened Wrappers

  /** What malloc has handed out and free has taken back, and the descriptors given to close. */
  class Heap {
    ghost var live: set<object>
    ghost var frees: seq<object>
    var closed: seq<int>

    constructor ()
      ensures live == {} && frees == [] && closed == []
    {
      live, frees, closed := {}, [], [];
    }

    ghost method Allocated(o: object)
      modifies `live
      ensures live == old(live) + {o}
    {
      live := live + {o};
    }

    /** Only live memory may be freed. */
    method Free(o: object)
      requires o in live
      modifies `live, `frees
      ensures live == old(live) - {o} && frees == old(frees) + [o]
    {
      live, frees := live - {o}, frees + [o];
    }

    method Close(fd: int)
      modifies `closed
      ensures closed == old(closed) + [fd]
    {
      closed := closed + [fd];
    }

    /** Only live memory may be read. */
    method Read(p: Pblock) returns (next: Pblock?, buf: array?<int>)
      requires p in live
      ensures next == p.next && buf == p.buf
    {
      next, buf := p.next, p.buf;
    }
  }

  class Pblock {
    var buf: array?<int>
    var next: Pblock?
  }

  class Context {
    var fd: int
    var injectionType: int
    var device: array?<char>
    var protocolBlocks: Pblock?
    var pblockEnd: Pblock?
    var nPblocks: nat
    var totalSize: nat

    /** A fresh context: malloc, then memset. */
    constructor ()
      ensures fd == 0 && injectionType == 0 && device == null
      ensures protocolBlocks == null && pblockEnd == null && nPblocks == 0 && totalSize == 0
    {
      fd, injectionType, device, protocolBlocks, pblockEnd, nPblocks, totalSize := 0, 0, null, null, null, 0, 0;
    }
  }

  // ----- pblock lists

  /** The list that starts at p consists of these nodes, in this order: it ends, so it is acyclic. */
  ghost predicate IsList(p: Pblock?, nodes: seq<Pblock>)
    reads nodes
  {
    if nodes == [] then p == null else p == nodes[0] && IsList(nodes[0].next, nodes[1..])
  }

  /** What belongs to a node: its buffer, if it has one, and the node itself. */
  ghost function NodeOwned(p: Pblock): seq<object>
    reads p
  {
    if p.buf == null then [p as object] else [p.buf as object, p as object]
  }

  ghost function Owned(nodes: seq<Pblock>): seq<object>
    reads nodes
  {
    if nodes == [] then [] else NodeOwned(nodes[0]) + Owned(nodes[1..])
  }

  ghost predicate Distinct(s: seq<object>) {
    forall i, j :: 0 <= i < j < |s| ==> s[i] != s[j]
  }

  ghost function Elems(s: seq<object>): set<object> {
    set o | o in s
  }

  lemma ElemsSplit(a: seq<object>, b: seq<object>)
    ensures Elems(a + b) == Elems(a) + Elems(b)
  {
  }

  lemma DistinctSplit(a: seq<object>, b: seq<object>)
    requires Distinct(a + b)
    ensures Distinct(b) && forall o :: o in a ==> o !in b
  {
    forall i, j | 0 <= i < j < |b| ensures b[i] != b[j] {
      assert (a + b)[|a| + i] == b[i] && (a + b)[|a| + j] == b[j];
    }
    forall i, j | 0 <= i < |a| && 0 <= j < |b| ensures a[i] != b[j] {
      assert (a + b)[i] == a[i] && (a + b)[|a| + j] == b[j];
    }
  }

  /** The body of the loop: read the link, then free the buffer, then the node. */
  method FreeNode(p: Pblock, h: Heap) returns (next: Pblock?)
    requires Distinct(NodeOwned(p)) && Elems(NodeOwned(p)) <= h.live
    modifies h`live, h`frees
    ensures next == p.next
    ensures h.frees == old(h.frees) + NodeOwned(p) && h.live == old(h.live) - Elems(NodeOwned(p))
  {
    ghost var owned := NodeOwned(p);
    assert Last(owned) == p && p in h.live;
    var buf;
    next, buf := h.Read(p);
    if buf != null {
      assert owned[0] == buf as object != owned[1];
      h.Free(buf);
    }
    h.Free(p);
  }

  /** libnet_clear_packet. Every buffer and node is freed, once and in order; no freed node is read; only two
      fields of the context are reset, and no node is changed. */
  method ClearPacket(l: Context, h: Heap, ghost nodes: seq<Pblock>)
    requires IsList(l.protocolBlocks, nodes)
    requires Distinct(Owned(nodes)) && Elems(Owned(nodes)) <= h.live
    modifies l`protocolBlocks, l`totalSize, h`live, h`frees
    ensures l.protocolBlocks == null && l.totalSize == 0
    ensures h.frees == old(h.frees) + Owned(nodes)
    ensures h.live == old(h.live) - Elems(Owned(nodes))
  {
    hide Distinct, Elems, Owned, IsList, NodeOwned;
    var p := l.protocolBlocks;
    ghost var rest := nodes;
    while p != null
      invariant IsList(p, rest) && Distinct(Owned(rest)) && Elems(Owned(rest)) <= h.live
      invariant h.frees + Owned(rest) == old(h.frees) + Owned(nodes)
      invariant h.live - Elems(Owned(rest)) == old(h.live) - Elems(Owned(nodes))
      decreases |rest|
    {
      ListStep(p, rest);
      OwnedSplit(NodeOwned(p), Owned(rest[1..]), h.live);
      p := FreeNode(p, h);
      rest := rest[1..];
    }
    ListEnd(rest);
    NoElems();
    l.protocolBlocks := null;
    l.totalSize := 0;
  }

  lemma ListStep(p: Pblock, nodes: seq<Pblock>)
    requires IsList(p, nodes)
    ensures nodes != [] && nodes[0] == p && IsList(p.next, nodes[1..])
    ensures Owned(nodes) == NodeOwned(p) + Owned(nodes[1..])
  {
  }

  lemma ListEnd(nodes: seq<Pblock>)
    requires IsList(null, nodes)
    ensures nodes == [] && Owned(nodes) == []
  {
  }

  lemma NoElems()
    ensures Elems([]) == {}
  {
  }

  lemma OwnedSplit(a: seq<object>, b: seq<object>, live: set<object>)
    requires Distinct(a + b) && Elems(a + b) <= live
    ensures Distinct(a) && Distinct(b) && Elems(a) <= live && Elems(b) <= live - Elems(a)
    ensures live - Elems(a + b) == live - Elems(a) - Elems(b)
  {
    DistinctSplit(a, b);
    ElemsSplit(a, b);
    assert forall i, j :: 0 <= i < j < |a| ==> (a + b)[i] == a[i] && (a + b)[j] == a[j];
  }

  // ----- contexts

  /** What a context owns: its device name, its pblocks and itself, in the order libnet_destroy frees them. */
  ghost function Parts(l: Context, nodes: seq<Pblock>): seq<object>
    reads l, nodes
  {
    (if l.device == null then [] else [l.device as object]) + (Owned(nodes) + [l as object])
  }

  /** A context that may be destroyed: its list ends, and all it owns is live and distinct. */
  ghost predicate Whole(l: Context, nodes: seq<Pblock>, h: Heap)
    reads l, nodes, h
  {
    IsList(l.protocolBlocks, nodes) && Distinct(Parts(l, nodes)) && Elems(Parts(l, nodes)) <= h.live
  }

  method Destroy(l: Context?, h: Heap, ghost nodes: seq<Pblock>)
    requires l != null ==> Whole(l, nodes, h)
    modifies l, h
    ensures l == null ==> h.live == old(h.live) && h.frees == old(h.frees) && h.closed == old(h.closed)
    ensures l != null ==>
              && h.frees == old(h.frees) + old(Parts(l, nodes))
              && h.live == old(h.live) - old(Elems(Parts(l, nodes)))
              && h.closed == old(h.closed) + [old(l.fd)]
  {
    hide Distinct, Elems, IsList, Owned;
    if l != null {
      h.Close(l.fd);
      ghost var front: seq<object> := if l.device == null then [] else [l.device as object];
      OwnedSplit(front, Owned(nodes) + [l as object], h.live);
      OwnedSplit(Owned(nodes), [l as object], h.live - Elems(front));
      OneElem(l);
      NoElems();
      if l.device != null {
        OneElem(l.device);
        h.Free(l.device);
      }
      ClearPacket(l, h, nodes);
      h.Free(l);
    }
  }

  lemma OneElem(o: object)
    ensures Elems([o]) == {o} && Distinct([o])
  {
  }

  const LIBNET_LINK := 0
  const LIBNET_LINK_ADV := 8

  /** What malloc, strdup and the foreign calls of libnet_init do. `fd` is the descriptor that opening the link
      leaves in the context, whether it fails or not; a context starts with descriptor 0. */
  datatype Outcome = Outcome(mallocFails: bool, strdupFails: bool, selectFails: bool, openFails: bool, fd: int)

  predicate Fails(injectionType: int, o: Outcome) {
    o.mallocFails || o.openFails
    || ((injectionType == LIBNET_LINK || injectionType == LIBNET_LINK_ADV) && o.selectFails)
    || injectionType !in {0, 1, 2, 8, 9, 10}
  }

  /** The descriptor that a failed init closes: its own if the link was tried, else 0, which it never opened. */
  function ClosedOnFailure(injectionType: int, o: Outcome): seq<int> {
    if o.mallocFails then []
    else if injectionType in {1, 2, 9, 10} || (injectionType in {0, 8} && !o.selectFails) then [o.fd]
    else [0]
  }

  /** malloc, memset and strdup: a context that owns itself and its device name. */
  method Create(injectionType: int, device: Option<string>, h: Heap) returns (l: Context)
    modifies h`live
    ensures fresh(l) && l.fd == 0 && l.injectionType == injectionType && l.protocolBlocks == null
    ensures if device.None? then l.device == null
            else l.device != null && fresh(l.device) && l.device[..] == device.value
    ensures Distinct(Parts(l, [])) && h.live == old(h.live) + Elems(Parts(l, []))
    ensures fresh(Elems(Parts(l, [])))
  {
    l := new Context();
    l.injectionType := injectionType;
    h.Allocated(l);
    if device.Some? {
      var d := new char[|device.value|](i requires 0 <= i < |device.value| => device.value[i]);
      l.device := d;
      h.Allocated(d);
      assert Parts(l, []) == [d as object, l as object];
    } else {
      assert Parts(l, []) == [l as object];
    }
  }

  /** The switch on the injection type. */
  method Open(l: Context, o: Outcome) returns (bad: bool)
    requires !o.mallocFails && l.fd == 0
    modifies l`fd
    ensures bad == Fails(l.injectionType, o)
    ensures if bad then [l.fd] == ClosedOnFailure(l.injectionType, o) else l.fd == o.fd
  {
    var t := l.injectionType;
    if t == LIBNET_LINK || t == LIBNET_LINK_ADV {
      if o.selectFails {
        return true;
      }
      l.fd := o.fd;
      return o.openFails;
    }
    if t in {1, 2, 9, 10} {
      l.fd := o.fd;
      return o.openFails;
    }
    return true;
  }

  /** With LIBNET_LINK, as arping uses it: an attempt fails iff malloc, the choice of a device or opening it does. */
  lemma LinkFailsIff(o: Outcome)
    ensures Fails(0, o) <==> o.mallocFails || o.selectFails || o.openFails
  {
  }

  /** The context has a copy of this device name, if there is one and strdup did not fail. */
  ghost predicate Named(l: Context, device: Option<string>, strdupFails: bool)
    reads l, l.device
  {
    if device.None? || strdupFails then l.device == null else l.device != null && l.device[..] == device.value
  }

  /** libnet_init: a new context, or nothing left behind. */
  method LibnetInit(injectionType: int, device: Option<string>, h: Heap, o: Outcome) returns (l: Context?)
    modifies h
    ensures l == null <==> Fails(injectionType, o)
    ensures injectionType == 0 ==> (l == null <==> o.mallocFails || o.selectFails || o.openFails)
    ensures l == null ==> h.live == old(h.live) && h.closed == old(h.closed) + ClosedOnFailure(injectionType, o)
    ensures l != null ==>
              && fresh(l) && Whole(l, [], h) && l.fd == o.fd && l.injectionType == injectionType
              && Named(l, device, o.strdupFails) && (l.device != null ==> fresh(l.device))
              && h.live == old(h.live) + Elems(Parts(l, [])) && fresh(Elems(Parts(l, [])))
              && h.frees == old(h.frees) && h.closed == old(h.closed)
  {
    hide Distinct, Fails, ClosedOnFailure, Owned;
    LinkFailsIff(o);
    if o.mallocFails {
      MallocFailure(injectionType, o);
      return null;
    }
    l := Create(injectionType, if o.strdupFails then None else device, h);
    var bad := Open(l, o);
    ghost var parts := Parts(l, []);
    assert forall p :: p in Elems(parts) ==> p !in old(h.live);
    if bad {
      Destroy(l, h, []);
      l := null;
    }
  }

  lemma MallocFailure(injectionType: int, o: Outcome)
    requires o.mallocFails
    ensures Fails(injectionType, o) && ClosedOnFailure(injectionType, o) == []
  {
  }

  // ----- arping's one context

  /** One call of do_libnet_init by arping_main, and what the (at most two) attempts to open do. */
  datatype Call = Call(ifname: Option<string>, first: Outcome, second: Outcome)

  /** The descriptors that failed attempts of a call close. */
  function ClosedByFailures(c: Call): seq<int> {
    if !Fails(LIBNET_LINK, c.first) then []
    else ClosedOnFailure(LIBNET_LINK, c.first) +
         if c.ifname.None? && Fails(LIBNET_LINK, c.second) then ClosedOnFailure(LIBNET_LINK, c.second) else []
  }

  /** The descriptor that a call leaves in the current context, if it leaves one. */
  function LeftOpen(c: Call): seq<int> {
    if !Fails(LIBNET_LINK, c.first) then [c.first.fd]
    else if c.ifname.None? && !Fails(LIBNET_LINK, c.second) then [c.second.fd]
    else []
  }

  /** What the last of these calls leaves. */
  function LeftByLast(calls: seq<Call>): seq<int> {
    if calls == [] then [] else LeftOpen(Last(calls))
  }

  /** Every descriptor that these calls close, in order: each supersedes what the one before it left. */
  function ClosedBy(calls: seq<Call>): seq<int> {
    if calls == [] then []
    else ClosedBy(Init(calls)) + LeftByLast(Init(calls)) + ClosedByFailures(Last(calls))
  }

  /** Whether a call comes to its second attempt. */
  predicate TriesAgain(c: Call) {
    Fails(LIBNET_LINK, c.first) && c.ifname.None?
  }

  /** The attempts that a call makes to open. */
  function Tried(c: Call): seq<Outcome> {
    [c.first] + if TriesAgain(c) then [c.second] else []
  }

  /** The attempt comes to libnet_select_device, and that fails. */
  predicate FailsToSelect(o: Outcome) {
    !o.mallocFails && o.selectFails
  }

  /** What opening the link puts in the context; an attempt that does not come to it opens nothing. */
  function Opening(o: Outcome): multiset<int> {
    if o.mallocFails || o.selectFails then multiset{} else multiset{o.fd}
  }

  /** A context whose link was never opened is closed by the descriptor that memset left in it. */
  function Stray(o: Outcome): multiset<int> {
    if FailsToSelect(o) then multiset{0} else multiset{}
  }

  function OpenedIn(c: Call): multiset<int> {
    Opening(c.first) + if TriesAgain(c) then Opening(c.second) else multiset{}
  }

  function StraysIn(c: Call): multiset<int> {
    Stray(c.first) + if TriesAgain(c) then Stray(c.second) else multiset{}
  }

  /** Every descriptor that was opened in these calls. */
  function Opened(calls: seq<Call>): multiset<int> {
    if calls == [] then multiset{} else Opened(Init(calls)) + OpenedIn(Last(calls))
  }

  /** Every descriptor that these calls close though they have not opened it: always 0. */
  function Strays(calls: seq<Call>): multiset<int> {
    if calls == [] then multiset{} else Strays(Init(calls)) + StraysIn(Last(calls))
  }

  /** An attempt either keeps what it opened or closes that, or a stray. */
  lemma AttemptAccounted(o: Outcome)
    ensures if Fails(LIBNET_LINK, o) then multiset(ClosedOnFailure(LIBNET_LINK, o)) == Opening(o) + Stray(o)
            else Opening(o) == multiset{o.fd} && Stray(o) == multiset{}
  {
  }

  lemma CallAccounted(c: Call)
    ensures multiset(ClosedByFailures(c)) + multiset(LeftOpen(c)) == OpenedIn(c) + StraysIn(c)
  {
    hide Fails, ClosedOnFailure, Opening, Stray;
    AttemptAccounted(c.first);
    AttemptAccounted(c.second);
  }

  /** Over any sequence of calls, what is closed and what is still in use is what was opened, each once, and the
      strays. */
  lemma {:induction false} DescriptorsAccounted(calls: seq<Call>)
    ensures multiset(ClosedBy(calls)) + multiset(LeftByLast(calls)) == Opened(calls) + Strays(calls)
  {
    if calls != [] {
      hide LeftOpen, ClosedByFailures, OpenedIn, StraysIn, LeftByLast;
      DescriptorsAccounted(Init(calls));
      LastOfCalls(calls);
      var before, left := multiset(ClosedBy(Init(calls))), multiset(LeftByLast(Init(calls)));
      var c := Last(calls);
      CallAccounted(c);
      calc {
        multiset(ClosedBy(calls)) + multiset(LeftByLast(calls));
        before + left + (multiset(ClosedByFailures(c)) + multiset(LeftOpen(c)));
        (Opened(Init(calls)) + Strays(Init(calls))) + (OpenedIn(c) + StraysIn(c));
        Opened(calls) + Strays(calls);
      }
    }
  }

  lemma LastOfCalls(calls: seq<Call>)
    requires calls != []
    ensures LeftByLast(calls) == LeftOpen(Last(calls))
  {
  }

  /** No attempt of these calls fails at libnet_select_device. */
  ghost predicate SelectionSucceeds(calls: seq<Call>) {
    forall i :: 0 <= i < |calls| ==> forall o :: o in Tried(calls[i]) ==> !FailsToSelect(o)
  }

  lemma NoStraysInIff(c: Call)
    ensures StraysIn(c) == multiset{} <==> forall o :: o in Tried(c) ==> !FailsToSelect(o)
  {
    hide TriesAgain;
    assert Tried(c)[0] == c.first && (TriesAgain(c) ==> Tried(c)[1] == c.second);
    assert FailsToSelect(c.first) || (TriesAgain(c) && FailsToSelect(c.second)) ==> 0 in StraysIn(c);
  }

  lemma NothingAdded(a: multiset<int>, b: multiset<int>)
    ensures a + b == a <==> b == multiset{}
  {
    assert a + b - a == b;
  }

  lemma NoneInBoth(a: multiset<int>, b: multiset<int>)
    ensures a + b == multiset{} <==> a == multiset{} && b == multiset{}
  {
    assert a <= a + b && b <= a + b;
  }

  lemma {:induction false} NoStraysIff(calls: seq<Call>)
    ensures Strays(calls) == multiset{} <==> SelectionSucceeds(calls)
  {
    if calls != [] {
      hide StraysIn, Tried, FailsToSelect;
      NoStraysIff(Init(calls));
      NoStraysInIff(Last(calls));
      NoneInBoth(Strays(Init(calls)), StraysIn(Last(calls)));
      OneMoreSelection(calls);
    }
  }

  lemma OneMoreSelection(calls: seq<Call>)
    requires calls != []
    ensures SelectionSucceeds(calls)
       <==> SelectionSucceeds(Init(calls)) && forall o :: o in Tried(Last(calls)) ==> !FailsToSelect(o)
  {
    hide Tried, FailsToSelect;
    var init := Init(calls);
    assert calls == init + [Last(calls)];
    assert forall i :: 0 <= i < |init| ==> init[i] == calls[i];
    if SelectionSucceeds(calls) { assert calls[|init|] == Last(calls); }
  }

  /** Descriptors are conserved, each one opened being closed once or still in use and no other one being closed,
      exactly if no attempt fails at libnet_select_device. */
  lemma DescriptorsConservedIff(calls: seq<Call>)
    ensures multiset(ClosedBy(calls)) + multiset(LeftByLast(calls)) == Opened(calls)
       <==> SelectionSucceeds(calls)
  {
    hide ClosedBy, LeftByLast, Opened, Strays, SelectionSucceeds;
    DescriptorsAccounted(calls);
    NoStraysIff(calls);
    NothingAdded(Opened(calls), Strays(calls));
  }

  /** When no device can be selected, one call opens nothing and closes descriptor 0 twice. */
  lemma ClosedUnopened(fd: int)
    ensures var o := Outcome(false, false, true, false, fd);
            var calls := [Call(None, o, o)];
            ClosedBy(calls) == [0, 0] && LeftByLast(calls) == [] && Opened(calls) == multiset{}
  {
    var o := Outcome(false, false, true, false, fd);
    var calls := [Call(None, o, o)];
    assert Init(calls) == [];
    assert ClosedByFailures(calls[0]) == [0, 0] && LeftOpen(calls[0]) == [];
  }

  lemma NoCalls()
    ensures ClosedBy([]) == [] && LeftByLast([]) == []
  {
  }

  lemma OneMoreCall(calls: seq<Call>, i: nat)
    requires i < |calls|
    ensures ClosedBy(calls[..i + 1]) == ClosedBy(calls[..i]) + LeftByLast(calls[..i]) + ClosedByFailures(calls[i])
    ensures LeftByLast(calls[..i + 1]) == LeftOpen(calls[i])
  {
    hide LeftOpen, ClosedByFailures;
    assert calls[..i + 1] == calls[..i] + [calls[i]];
    Extended(calls[..i], calls[i]);
  }

  /** A call is its first attempt, and if that fails without a name, a call for "lo". */
  lemma CallUnfolds(ifname: Option<string>, first: Outcome, second: Outcome)
    ensures var c, again := Call(ifname, first, second), Call(Some("lo"), second, second);
            if !Fails(LIBNET_LINK, first) then ClosedByFailures(c) == [] && LeftOpen(c) == [first.fd]
            else
              && ClosedByFailures(c)
                 == ClosedOnFailure(LIBNET_LINK, first) + (if ifname.None? then ClosedByFailures(again) else [])
              && LeftOpen(c) == if ifname.None? then LeftOpen(again) else []
  {
    hide Fails, ClosedOnFailure;
  }

  class ContextOwner {
    var libnet: Context?
    /** The pblocks that have been built in the current context. */
    ghost var nodes: seq<Pblock>
    /** Every context that libnet_init returned, and every one that was destroyed after that. */
    ghost var created: seq<Context>
    ghost var destroyed: seq<Context>

    constructor ()
      ensures libnet == null && nodes == [] && created == [] && destroyed == []
    {
      libnet, nodes, created, destroyed := null, [], [], [];
    }

    ghost function Current(): seq<Context>
      reads this
    {
      if libnet == null then [] else [libnet]
    }

    /** The current context is whole, and all earlier ones, each once, have been destroyed. */
    ghost predicate Valid(h: Heap)
      reads this, h, nodes, libnet
    {
      && (libnet != null ==> Whole(libnet, nodes, h))
      && created == destroyed + Current()
      && forall i, j :: 0 <= i < j < |created| ==> created[i] != created[j]
    }

    ghost function Holds(): set<object>
      reads this, nodes, libnet
    {
      if libnet == null then {} else Elems(Parts(libnet, nodes))
    }

    ghost function CurrentFd(): seq<int>
      reads this, libnet
    {
      if libnet == null then [] else [libnet.fd]
    }

    /** Give up the current context, if there is one. */
    method DropCurrent(h: Heap)
      requires Valid(h)
      modifies this, libnet, h
      ensures Valid(h) && libnet == null && nodes == [] && Holds() == {} && CurrentFd() == []
      ensures h.live == old(h.live) - old(Holds()) && h.closed == old(h.closed) + old(CurrentFd())
      ensures created == old(created) == destroyed
    {
      hide Distinct, Owned, Elems, IsList;
      if libnet != null {
        Destroy(libnet, h, nodes);
        destroyed := destroyed + [libnet];
        libnet := null;
      }
      nodes := [];
    }

    /** libnet_init, when there is no current context; what it returns becomes the current one. */
    method Attempt(ifname: Option<string>, h: Heap, o: Outcome)
      requires Valid(h) && libnet == null && nodes == []
      modifies this, h
      ensures Valid(h) && nodes == [] && (libnet == null <==> Fails(LIBNET_LINK, o))
      ensures h.live == old(h.live) + Holds() && fresh(Holds()) && (libnet != null ==> fresh(libnet))
      ensures h.closed == old(h.closed) + if libnet == null then ClosedOnFailure(LIBNET_LINK, o) else []
      ensures CurrentFd() == (if libnet == null then [] else [o.fd]) && (libnet == null ==> Holds() == {})
      ensures destroyed == old(destroyed) && old(created) <= created
      ensures libnet != null ==> libnet.injectionType == 0 && Named(libnet, ifname, o.strdupFails)
    {
      hide Distinct, Fails, Owned, Elems, IsList, ClosedOnFailure, Parts, Whole;
      libnet := LibnetInit(LIBNET_LINK, ifname, h, o);
      if libnet != null {
        created := created + [libnet];
      }
    }

    /** do_libnet_init: the result tells whether the program exits. Nothing leaks: what is live afterwards is what
        was live before, less the superseded context, plus the new one. The descriptor of the superseded context
        is closed, and those of failed attempts. */
    method DoLibnetInit(ifname: Option<string>, recursive: bool, h: Heap, first: Outcome, second: Outcome)
      returns (exits: bool, ghost attempts: nat)
      requires Valid(h)
      modifies this, libnet, h
      ensures Valid(h) && nodes == []
      ensures h.live == old(h.live) - old(Holds()) + Holds()
      ensures h.closed == old(h.closed) + old(CurrentFd()) + ClosedByFailures(Call(ifname, first, second))
      ensures CurrentFd() == LeftOpen(Call(ifname, first, second))
      ensures old(created) <= created && old(created) <= destroyed
      ensures (libnet != null ==> fresh(libnet)) && fresh(Holds())
      ensures libnet == null <==> Fails(LIBNET_LINK, first) && (ifname.Some? || Fails(LIBNET_LINK, second))
      ensures exits <==> libnet == null && !(recursive && ifname.Some?)
      ensures 1 <= attempts <= if ifname.None? then 2 else 1
      ensures libnet != null ==>
                && libnet.injectionType == 0
                && if Fails(LIBNET_LINK, first) then Named(libnet, Some("lo"), second.strdupFails)
                   else Named(libnet, ifname, first.strdupFails)
      decreases ifname.None?
    {
      hide Fails, ClosedOnFailure, Valid, Holds, CurrentFd, Named, ClosedByFailures, LeftOpen;
      CallUnfolds(ifname, first, second);
      DropCurrent(h);
      Attempt(ifname, h, first);
      attempts := 1;
      if libnet != null {
        return false, attempts;
      }
      if ifname.None? {
        ghost var more;
        exits, more := DoLibnetInit(Some("lo"), true, h, second, second);
        attempts := attempts + more;
        if libnet != null {
          return false, attempts;
        }
      } else if recursive {
        return false, attempts;
      }
      return true, attempts;
    }

    /** Any sequence of initialisations, as arping_main makes them until one exits: at most one context is alive,
        all others have been destroyed once, and the program goes on only with a context. `made` calls are made,
        and they close what ClosedBy says. */
    method InitAll(calls: seq<Call>, h: Heap) returns (exits: bool, ghost made: nat)
      requires libnet == null && nodes == [] && created == [] && destroyed == []
      modifies this, h
      ensures Valid(h)
      ensures h.live == old(h.live) + Holds()
      ensures !exits && calls != [] ==> libnet != null
      ensures |created| <= |destroyed| + 1
      ensures made <= |calls| && (!exits ==> made == |calls|)
      ensures h.closed == old(h.closed) + ClosedBy(calls[..made]) && CurrentFd() == LeftByLast(calls[..made])
    {
      hide ClosedByFailures, LeftOpen, ClosedBy, LeftByLast, Fails, Valid, Holds, CurrentFd;
      NoCalls();
      NothingHeld(h);
      exits, made := false, 0;
      for i := 0 to |calls|
        invariant Valid(h) && !exits && made == i
        invariant h.closed == old(h.closed) + ClosedBy(calls[..i]) && CurrentFd() == LeftByLast(calls[..i])
        invariant h.live == old(h.live) + Holds()
        invariant i > 0 ==> libnet != null
        invariant (libnet != null ==> fresh(libnet)) && fresh(Holds()) && nodes == []
      {
        ghost var attempts;
        exits, attempts := DoLibnetInit(calls[i].ifname, false, h, calls[i].first, calls[i].second);
        made := i + 1;
        OneMoreCall(calls, i);
        if exits { break; }
      }
      assert calls[..|calls|] == calls;
      OneAlive(h);
    }

    lemma NothingHeld(h: Heap)
      requires libnet == null && nodes == [] && created == [] && destroyed == []
      ensures Valid(h) && Holds() == {} && CurrentFd() == []
    {
    }

    lemma OneAlive(h: Heap)
      requires Valid(h)
      ensures |created| <= |destroyed| + 1
    {
    }
  }
}
