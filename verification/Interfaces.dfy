/** arping_lookupdev: choosing the interface to ping from. */
module Interfaces {
  import opened Seqs
  import opened Wrappers

  /** A 32-bit unsigned integer as its bits, most significant first. */
  type Word = w: seq<bool> | |w| == 32 witness seq(32, _ => false)

  function Zero(): Word {
    seq(32, _ => false)
  }

  const IFNAMSIZ := 16

  /** A socket address: whether its family is AF_INET, and the 32 bits as loaded, in network byte order. */
  datatype Address = Address(inet: bool, bits: Word)

  /** One entry of getifaddrs. Missing pointers are None. */
  datatype Entry = Entry(up: bool, loopback: bool, pointToPoint: bool, name: Option<string>, addr: Option<Address>,
                         mask: Option<Address>)

  function And(a: Word, b: Word): Word {
    seq(32, i requires 0 <= i < 32 => a[i] && b[i])
  }

  /** The number that a run of bits denotes. */
  function Number(bits: seq<bool>): nat {
    if bits == [] then 0 else 2 * Number(Init(bits)) + if Last(bits) then 1 else 0
  }

  /** Where bit i is found when the four bytes are read in the other order. */
  function Mirrored(i: nat): (j: nat)
    requires i < 32
    ensures j < 32
  {
    8 * (3 - i / 8) + i % 8
  }

  function Swap(w: Word): Word {
    seq(32, i requires 0 <= i < 32 => w[Mirrored(i)])
  }

  /** ntohl on a machine of either byte order. */
  function ToHost(little: bool, w: Word): Word {
    if little then Swap(w) else w
  }

  /** The entries that the loop does not skip before it compares addresses. */
  predicate Eligible(e: Entry) {
    e.up && e.addr.Some? && e.mask.Some? && e.name.Some? && e.addr.value.inet && !e.loopback && !e.pointToPoint
  }

  predicate Matches(e: Entry, dst: Word) {
    Eligible(e) && And(e.addr.value.bits, e.mask.value.bits) == And(dst, e.mask.value.bits)
  }

  function HostMask(little: bool, e: Entry): Word {
    if e.mask.Some? then ToHost(little, e.mask.value.bits) else Zero()
  }

  function MaskOf(little: bool, e: Entry): nat {
    Number(HostMask(little, e))
  }

  function Cut(name: string): string {
    if |name| < IFNAMSIZ then name else name[..IFNAMSIZ - 1]
  }

  ghost predicate SomeMatch(list: seq<Entry>, dst: Word) {
    exists i :: 0 <= i < |list| && Matches(list[i], dst)
  }

  ghost predicate SomeMasked(little: bool, list: seq<Entry>, dst: Word) {
    exists i :: 0 <= i < |list| && Matches(list[i], dst) && MaskOf(little, list[i]) != 0
  }

  /** Entry k is the first matching one of greatest mask. */
  ghost predicate Best(little: bool, list: seq<Entry>, dst: Word, k: nat) {
    && k < |list| && Matches(list[k], dst)
    && (forall i :: 0 <= i < |list| && Matches(list[i], dst) ==> MaskOf(little, list[i]) <= MaskOf(little, list[k]))
    && (forall i :: 0 <= i < k && Matches(list[i], dst) ==> MaskOf(little, list[i]) < MaskOf(little, list[k]))
  }

  class Finder {
    /** The static result buffer. It keeps what an earlier call wrote. */
    var ifname: string

    /** The loop's checks on one entry. */
    method Considers(e: Entry, dst: Word) returns (ok: bool)
      ensures ok == Matches(e, dst)
    {
      if !e.up { return false; }
      if e.addr.None? || e.mask.None? || e.name.None? { return false; }
      if !e.addr.value.inet { return false; }
      if e.loopback || e.pointToPoint { return false; }
      var addr, mask := e.addr.value.bits, e.mask.value.bits;
      return And(addr, mask) == And(dst, mask);
    }

    /** The result names the first best match. It is NULL exactly when nothing matches or getifaddrs fails. When
        all matches have mask 0 the buffer is returned as it was. The ghost result tells which entry was chosen. */
    method LookupDev(little: bool, entries: Option<seq<Entry>>, dst: Word)
      returns (ret: Option<string>, ghost best: Option<nat>)
      modifies this
      ensures ret.Some? <==> entries.Some? && SomeMatch(entries.value, dst)
      ensures ret.Some? ==> ret.value == ifname
      ensures best.Some? <==> entries.Some? && SomeMasked(little, entries.value, dst)
      ensures best.Some? ==> Best(little, entries.value, dst, best.value)
                             && entries.value[best.value].name.Some?
                             && ifname == Cut(entries.value[best.value].name.value)
      ensures best.None? ==> ifname == old(ifname)
    {
      hide Matches, ToHost, Number;
      ret, best := None, None;
      if entries.None? {
        return;
      }
      var list := entries.value;
      var matchCount: nat := 0;
      var bestMask: Word := Zero();
      ZeroMask(little);
      var i := 0;
      while i < |list|
        invariant 0 <= i <= |list|
        invariant matchCount > 0 <==> SomeMatch(list[..i], dst)
        invariant forall k :: 0 <= k < i && Matches(list[k], dst) ==>
                    MaskOf(little, list[k]) <= Number(ToHost(little, bestMask))
        invariant if best.None? then Number(ToHost(little, bestMask)) == 0 && ifname == old(ifname)
                  else Number(ToHost(little, bestMask)) > 0 && Best(little, list[..i], dst, best.value)
                       && MaskOf(little, list[best.value]) == Number(ToHost(little, bestMask))
                       && list[best.value].name.Some? && ifname == Cut(list[best.value].name.value)
      {
        var cur := list[i];
        var ok := Considers(cur, dst);
        assert list[..i + 1] == list[..i] + [cur];
        if ok {
          MatchHas(cur, dst);
          matchCount := matchCount + 1;
          var mask := cur.mask.value.bits;
          if Number(ToHost(little, mask)) > Number(ToHost(little, bestMask)) {
            ifname := Cut(cur.name.value);
            bestMask := mask;
            best := Some(i);
          }
          assert SomeMatch(list[..i + 1], dst) by { assert list[..i + 1][i] == cur; }
        }
        i := i + 1;
      }
      assert list[..i] == list;
      if matchCount > 0 {
        ret := Some(ifname);
      }
    }
  }

  lemma MatchHas(e: Entry, dst: Word)
    requires Matches(e, dst)
    ensures e.mask.Some? && e.name.Some?
  {
  }

  // ----- what the tests on an entry mean

  /** An entry counts iff it is up, named, neither loopback nor point-to-point, an AF_INET address with a mask, and
      agrees with the target in every bit of that mask. */
  lemma MatchMeans(e: Entry, dst: Word)
    ensures Matches(e, dst)
       <==> && e.up && !e.loopback && !e.pointToPoint && e.name.Some? && e.mask.Some?
            && e.addr.Some? && e.addr.value.inet
            && forall i :: 0 <= i < 32 && e.mask.value.bits[i] ==> e.addr.value.bits[i] == dst[i]
  {
    if Eligible(e) {
      var a, m := e.addr.value.bits, e.mask.value.bits;
      assert forall i :: 0 <= i < 32 ==> And(a, m)[i] == (a[i] && m[i]) && And(dst, m)[i] == (dst[i] && m[i]);
    }
  }

  /** The name is returned whole if it fits the buffer with its terminator, and else its first 15 characters. */
  lemma CutMeans(name: string)
    ensures Cut(name) <= name && |Cut(name)| == if |name| < 16 then |name| else 15
  {
  }

  // ----- byte order

  /** A word as a machine loads it from four bytes in memory. */
  function Loaded(little: bool, b0: seq<bool>, b1: seq<bool>, b2: seq<bool>, b3: seq<bool>): Word
    requires |b0| == |b1| == |b2| == |b3| == 8
  {
    if little then b3 + b2 + b1 + b0 else b0 + b1 + b2 + b3
  }

  /** ntohl: whatever the machine, the first byte in memory becomes the most significant. */
  lemma NetworkOrder(little: bool, b0: seq<bool>, b1: seq<bool>, b2: seq<bool>, b3: seq<bool>)
    requires |b0| == |b1| == |b2| == |b3| == 8
    ensures ToHost(little, Loaded(little, b0, b1, b2, b3)) == b0 + b1 + b2 + b3
  {
    hide Swap;
    if little {
      var w := Loaded(little, b0, b1, b2, b3);
      SwapByte(w, 0);
      SwapByte(w, 1);
      SwapByte(w, 2);
      SwapByte(w, 3);
      assert w[24..32] == b0 && w[16..24] == b1 && w[8..16] == b2 && w[0..8] == b3;
      var r := Swap(w);
      assert r == r[0..8] + r[8..16] + r[16..24] + r[24..32];
    }
  }

  lemma SwapByte(w: Word, k: nat)
    requires k < 4
    ensures Swap(w)[8 * k..8 * k + 8] == w[24 - 8 * k..32 - 8 * k]
  {
    var from, to := w[24 - 8 * k..32 - 8 * k], Swap(w)[8 * k..8 * k + 8];
    forall i | 0 <= i < 8
      ensures to[i] == from[i]
    {
      var at := 8 * k + i;
      assert at / 8 == k && at % 8 == i;
      assert Swap(w)[at] == w[Mirrored(at)];
    }
  }

  /** Numbers compare by their first differing bit. */
  lemma {:induction false} FirstBitDecides(a: seq<bool>, b: seq<bool>, k: nat)
    requires |a| == |b| && k < |a| && a[..k] == b[..k] && !a[k] && b[k]
    ensures Number(a) < Number(b)
  {
    if k == |a| - 1 {
      assert Init(a) == Init(b);
    } else {
      assert Init(a)[..k] == a[..k] && Init(b)[..k] == b[..k];
      FirstBitDecides(Init(a), Init(b), k);
    }
  }

  lemma {:induction false} NoBits(bits: seq<bool>)
    requires forall i :: 0 <= i < |bits| ==> !bits[i]
    ensures Number(bits) == 0
  {
    if bits != [] { NoBits(Init(bits)); }
  }

  lemma ZeroMask(little: bool)
    ensures Number(ToHost(little, Zero())) == 0
  {
    NoBits(ToHost(little, Zero()));
  }

  lemma HostBit(little: bool, w: Word, i: nat) returns (k: nat)
    requires i < 32
    ensures k < 32 && ToHost(little, w)[k] == w[i]
  {
    k := if little then Mirrored(i) else i;
    assert Mirrored(Mirrored(i)) == i;
  }

  lemma NumberPositive(little: bool, w: Word)
    ensures Number(ToHost(little, w)) == 0 <==> w == Zero()
  {
    hide Number, ToHost;
    NoBits(Zero());
    if w == Zero() {
      ZeroMask(little);
    } else {
      var i :| 0 <= i < 32 && w[i];
      var k := HostBit(little, w, i);
      MoreBitsGreater(Zero(), ToHost(little, w), k);
    }
  }

  /** When the buffer is returned as it was: something matches, and every match has an all-zero mask. */
  lemma BufferKeptIff(little: bool, list: seq<Entry>, dst: Word)
    ensures SomeMatch(list, dst) && !SomeMasked(little, list, dst)
       <==> && SomeMatch(list, dst)
            && forall i :: 0 <= i < |list| && Matches(list[i], dst) ==> list[i].mask.value.bits == Zero()
  {
    hide Number, ToHost;
    forall i | 0 <= i < |list| && Matches(list[i], dst)
      ensures MaskOf(little, list[i]) == 0 <==> list[i].mask.value.bits == Zero()
    {
      NumberPositive(little, list[i].mask.value.bits);
    }
  }

  function Unmasked(addr: Word): Entry {
    Entry(true, false, false, Some("eth0"), Some(Address(true, addr)), Some(Address(true, Zero())))
  }

  /** An interface that is up and has mask 0 matches every target, and alone it leaves the buffer as it was. */
  lemma UnmaskedMatch(little: bool, addr: Word, dst: Word)
    ensures var list := [Unmasked(addr)];
            SomeMatch(list, dst) && !SomeMasked(little, list, dst)
  {
    hide Number, ToHost;
    var list := [Unmasked(addr)];
    assert Matches(list[0], dst);
    BufferKeptIff(little, list, dst);
  }

  lemma SwapTwice(w: Word)
    ensures Swap(Swap(w)) == w
  {
    assert forall i :: 0 <= i < 32 ==> Mirrored(Mirrored(i)) == i;
  }

  lemma SwapAnd(a: Word, b: Word)
    ensures Swap(And(a, b)) == And(Swap(a), Swap(b))
  {
  }

  /** Comparing addresses under a mask in network byte order is comparing them in host byte order. */
  lemma MatchInHostOrder(little: bool, addr: Word, mask: Word, dst: Word)
    ensures And(addr, mask) == And(dst, mask)
       <==> And(ToHost(little, addr), ToHost(little, mask)) == And(ToHost(little, dst), ToHost(little, mask))
  {
    hide Swap, And;
    SwapAnd(addr, mask);
    SwapAnd(dst, mask);
    SwapTwice(And(addr, mask));
    SwapTwice(And(dst, mask));
  }

  // ----- longest prefix match, section 5.1 of RFC 4632

  /** The contiguous mask of a prefix of p bits. */
  function PrefixMask(p: nat): Word {
    seq(32, i requires 0 <= i < 32 => i < p)
  }

  /** The first p bits agree. */
  predicate SamePrefix(a: Word, b: Word, p: nat)
    requires p <= 32
  {
    a[..p] == b[..p]
  }

  lemma MaskedIsPrefix(a: Word, b: Word, p: nat)
    requires p <= 32
    ensures And(a, PrefixMask(p)) == And(b, PrefixMask(p)) <==> SamePrefix(a, b, p)
  {
    var m := PrefixMask(p);
    assert forall i :: 0 <= i < p ==> And(a, m)[i] == a[i] && And(b, m)[i] == b[i];
    if SamePrefix(a, b, p) {
      assert forall i :: 0 <= i < p ==> a[i] == a[..p][i] == b[..p][i] == b[i];
    }
  }

  /** Adding bits makes a number greater. */
  lemma {:induction false} MoreBitsGreater(a: seq<bool>, b: seq<bool>, k: nat)
    requires |a| == |b| && forall i :: 0 <= i < |a| && a[i] ==> b[i]
    requires k < |a| ==> b[k] && !a[k]
    ensures Number(a) <= Number(b) && (k < |a| ==> Number(a) < Number(b))
  {
    if a != [] { MoreBitsGreater(Init(a), Init(b), k); }
  }

  /** Masks are ordered as the lengths of their prefixes. */
  lemma LongerIsGreater(p: nat, q: nat)
    requires p < q <= 32
    ensures Number(PrefixMask(p)) < Number(PrefixMask(q))
  {
    MoreBitsGreater(PrefixMask(p), PrefixMask(q), p);
  }

  /** The entry's mask is contiguous, of p bits. */
  ghost predicate HasPrefix(little: bool, e: Entry, p: nat) {
    p <= 32 && HostMask(little, e) == PrefixMask(p)
  }

  /** Interface selection is longest-prefix match, on either byte order: when all matching masks are contiguous,
      the chosen entry has the longest prefix, agrees with the target in all of it, and every address in its
      prefix is in the prefix of every other match. */
  lemma BestIsLongestPrefix(little: bool, list: seq<Entry>, dst: Word, k: nat, i: nat, p: nat, q: nat, x: Word)
    requires Best(little, list, dst, k) && i < |list| && Matches(list[i], dst)
    requires HasPrefix(little, list[k], p) && HasPrefix(little, list[i], q)
    ensures q <= p && (q == p ==> k <= i)
    ensures var a, b := ToHost(little, list[k].addr.value.bits), ToHost(little, list[i].addr.value.bits);
            SamePrefix(a, ToHost(little, dst), p) && (SamePrefix(x, a, p) ==> SamePrefix(x, b, q))
  {
    hide Swap, PrefixMask, SamePrefix, And, Number;
    var d := ToHost(little, dst);
    if p < q { LongerIsGreater(p, q); }
    MatchIsPrefix(little, list[k], dst, p);
    MatchIsPrefix(little, list[i], dst, q);
    SamePrefixAlong(x, ToHost(little, list[k].addr.value.bits), d, ToHost(little, list[i].addr.value.bits), p, q);
  }

  lemma MatchIsPrefix(little: bool, e: Entry, dst: Word, p: nat)
    requires Matches(e, dst) && HasPrefix(little, e, p)
    ensures SamePrefix(ToHost(little, e.addr.value.bits), ToHost(little, dst), p)
  {
    hide Swap, PrefixMask, SamePrefix, And;
    MatchInHostOrder(little, e.addr.value.bits, e.mask.value.bits, dst);
    MaskedIsPrefix(ToHost(little, e.addr.value.bits), ToHost(little, dst), p);
  }

  lemma SamePrefixAlong(x: Word, a: Word, d: Word, b: Word, p: nat, q: nat)
    requires q <= p <= 32 && SamePrefix(a, d, p) && SamePrefix(b, d, q)
    ensures SamePrefix(x, a, p) ==> SamePrefix(x, b, q)
  {
  }
}
