/** ARP frames: the probe that pingip_send lays out and the reply that pingip_recv accepts. */
module Arp {
  newtype byte = x: int | 0 <= x < 0x100

  type Mac = m: seq<byte> | |m| == 6 witness [0, 0, 0, 0, 0, 0]
  /** An IPv4 address as the four bytes that lie in memory, in network order. */
  type Ip = a: seq<byte> | |a| == 4 witness [0, 0, 0, 0]

  const ETH_ALEN := 6
  const ETH_H := 14
  const ARP_H := 8
  /** The bytes of transport header that this platform puts before a captured frame. */
  const SHIFT := 22
  const ARP_AT := SHIFT + ETH_H
  /** One past the last byte that the receiver looks at. */
  const READ_END := ARP_AT + ARP_H + ETH_ALEN + 4
  /** The shortest capture that the receiver does not turn down. */
  const MIN_CAPLEN := ETH_H + ARP_H + 2 * (ETH_ALEN + 4)

  const ETHERTYPE_IP := 0x0800
  const ETHERTYPE_ARP := 0x0806
  const ARPHRD_ETHER := 1
  const ARPOP_REQUEST := 1
  const ARPOP_REPLY := 2

  const ETH_NULL: Mac := [0, 0, 0, 0, 0, 0]
  const ETH_XMAS: Mac := [0xff, 0xff, 0xff, 0xff, 0xff, 0xff]

  /** A captured frame: how many bytes the capture holds, and the capture buffer, which may hold stale bytes
      after them. The buffer reaches over everything that the receiver reads. */
  datatype RawFrame = Frame(caplen: nat, buf: seq<byte>)
  type Frame = f: RawFrame | |f.buf| >= READ_END witness Frame(0, seq(READ_END, _ => 0))

  /** What the receiver checks replies against: the pinged address and, with -A, the sender's MAC. */
  datatype Filter = Filter(dstIp: Ip, addrMustBeSame: bool, dstMac: Mac)

  function U16(b: seq<byte>, at: nat): int
    requires at + 2 <= |b|
  {
    b[at] as int * 256 + b[at + 1] as int
  }

  function Be16(v: int): seq<byte>
    requires 0 <= v < 0x10000
  {
    [(v / 256) as byte, (v % 256) as byte]
  }

  /** The checks of pingip_recv for untagged frames, in its order. */
  predicate Accepts(flt: Filter, f: Frame) {
    if f.caplen < MIN_CAPLEN then false
    else if f.buf[ARP_AT + 4] as int != ETH_ALEN then false
    else if f.buf[ARP_AT + 5] != 4 then false
    else if U16(f.buf, ARP_AT + 6) != ARPOP_REPLY then false
    else if U16(f.buf, ARP_AT + 2) != ETHERTYPE_IP then false
    else if U16(f.buf, ARP_AT) != ARPHRD_ETHER then false
    else if flt.addrMustBeSame && f.buf[ARP_AT + ARP_H..ARP_AT + ARP_H + ETH_ALEN] != flt.dstMac then false
    else
      var ip := ARP_AT + f.buf[ARP_AT + 4] as int + ARP_H;
      f.buf[ip..ip + 4] == flt.dstIp
  }

  /** The source address in the Ethernet header, which identifies the replying host. */
  function SourceMac(f: Frame): Mac {
    f.buf[SHIFT + ETH_ALEN..SHIFT + 2 * ETH_ALEN]
  }

  // ----- RFC 826, "Packet format"

  /** The fields of an ARP packet for Ethernet and IPv4. */
  datatype Packet = Packet(hrd: int, pro: int, hln: byte, pln: byte, op: int, sha: Mac, spa: Ip, tha: Mac, tpa: Ip)

  predicate Encodable(p: Packet) {
    0 <= p.hrd < 0x10000 && 0 <= p.pro < 0x10000 && 0 <= p.op < 0x10000
  }

  function Encode(p: Packet): seq<byte>
    requires Encodable(p)
  {
    Be16(p.hrd) + Be16(p.pro) + [p.hln, p.pln] + Be16(p.op) + p.sha + p.spa + p.tha + p.tpa
  }

  /** The packet that pingip_send hands to the ARP builder. */
  function ProbePacket(srcMac: Mac, srcIp: Ip, dstIp: Ip, sendReply: bool, unsolicited: bool): (p: Packet)
    ensures Encodable(p)
  {
    Packet(ARPHRD_ETHER, ETHERTYPE_IP, ETH_ALEN as byte, 4, if sendReply then ARPOP_REPLY else ARPOP_REQUEST,
           srcMac, srcIp, if unsolicited then ETH_XMAS else ETH_NULL, dstIp)
  }

  /** A frame on the wire: Ethernet header, ARP packet, padding. */
  function Wire(to: Mac, from: Mac, p: Packet, padding: seq<byte>): seq<byte>
    requires Encodable(p)
  {
    to + from + Be16(ETHERTYPE_ARP) + Encode(p) + padding
  }

  /** The same frame as this platform's capture delivers it, behind its transport header. */
  function Captured(header: seq<byte>, wire: seq<byte>): Frame
    requires |header| == SHIFT && |wire| >= MIN_CAPLEN
  {
    Frame(SHIFT + |wire|, header + wire)
  }

  /** The frame that pingip_send has libnet write, with sixteen bytes of padding. */
  function ProbeWire(dstMac: Mac, srcMac: Mac, srcIp: Ip, dstIp: Ip, sendReply: bool, unsolicited: bool): seq<byte> {
    Wire(dstMac, srcMac, ProbePacket(srcMac, srcIp, dstIp, sendReply, unsolicited), seq(16, _ => 0 as byte))
  }

  /** The probe byte for byte: who sends it, whom it asks for, and as what. */
  lemma ProbeBytes(dstMac: Mac, srcMac: Mac, srcIp: Ip, dstIp: Ip, sendReply: bool, unsolicited: bool)
    ensures var w := ProbeWire(dstMac, srcMac, srcIp, dstIp, sendReply, unsolicited);
            var tha: byte := if unsolicited then 0xff else 0;
            && |w| == 58
            && w[..6] == dstMac && w[6..12] == srcMac && w[12..14] == [0x08, 0x06]
            && w[14..20] == [0, 1, 0x08, 0x00, 6, 4] && w[20..22] == [0, if sendReply then 2 else 1]
            && w[22..28] == srcMac && w[28..32] == srcIp
            && w[32..38] == [tha, tha, tha, tha, tha, tha] && w[38..42] == dstIp
            && forall i :: 42 <= i < 58 ==> w[i] == 0
  {
    var p := ProbePacket(srcMac, srcIp, dstIp, sendReply, unsolicited);
    var e := Encode(p);
    EncodedFields(p);
    assert e[..6] == [0, 1, 0x08, 0x00, 6, 4] && e[6..8] == [0, if sendReply then 2 else 1];
    WireBytes(dstMac, srcMac, p, seq(16, _ => 0 as byte));
  }

  lemma WireBytes(to: Mac, from: Mac, p: Packet, padding: seq<byte>)
    requires Encodable(p) && |Encode(p)| == 28
    ensures var w, e := Wire(to, from, p, padding), Encode(p);
            && |w| == 42 + |padding| && w[..6] == to && w[6..12] == from && w[12..14] == [0x08, 0x06]
            && w[14..20] == e[..6] && w[20..22] == e[6..8] && w[22..28] == e[8..14] && w[28..32] == e[14..18]
            && w[32..38] == e[18..24] && w[38..42] == e[24..28] && w[42..] == padding
  {
    hide Encode;
  }

  /** The verdict byte for byte: a reply for Ethernet and IPv4, from the pinged address, behind 22 other bytes. */
  lemma AcceptsIffBytes(flt: Filter, f: Frame)
    ensures Accepts(flt, f)
       <==> && f.caplen >= 42
            && f.buf[36..42] == [0, 1, 0x08, 0x00, 6, 4] && f.buf[42..44] == [0, 2]
            && (flt.addrMustBeSame ==> f.buf[44..50] == flt.dstMac)
            && f.buf[50..54] == flt.dstIp
    ensures SourceMac(f) == f.buf[28..34]
  {
    var b := f.buf;
    assert b[36..42] == [b[36], b[37], b[38], b[39], b[40], b[41]] && b[42..44] == [b[42], b[43]];
    assert U16(b, 36) == b[36] as int * 256 + b[37] as int && U16(b, 38) == b[38] as int * 256 + b[39] as int
        && U16(b, 42) == b[42] as int * 256 + b[43] as int;
  }

  lemma EncodedFields(p: Packet)
    requires Encodable(p)
    ensures var e := Encode(p);
            && |e| == 28 && U16(e, 0) == p.hrd && U16(e, 2) == p.pro && e[4] == p.hln && e[5] == p.pln
            && U16(e, 6) == p.op && e[8..14] == p.sha && e[14..18] == p.spa
            && e[18..24] == p.tha && e[24..28] == p.tpa
  {
  }

  /** Reading a captured packet finds the fields that were encoded. */
  lemma CapturedFields(header: seq<byte>, to: Mac, from: Mac, p: Packet, padding: seq<byte>)
    requires |header| == SHIFT && Encodable(p)
    ensures |Wire(to, from, p, padding)| == MIN_CAPLEN + |padding|
    ensures var b := Captured(header, Wire(to, from, p, padding)).buf;
            && b[SHIFT + ETH_ALEN..SHIFT + 2 * ETH_ALEN] == from
            && U16(b, ARP_AT) == p.hrd && U16(b, ARP_AT + 2) == p.pro
            && b[ARP_AT + 4] == p.hln && b[ARP_AT + 5] == p.pln && U16(b, ARP_AT + 6) == p.op
            && b[ARP_AT + 8..ARP_AT + 14] == p.sha && b[ARP_AT + 14..ARP_AT + 18] == p.spa
            && b[ARP_AT + 18..ARP_AT + 24] == p.tha && b[ARP_AT + 24..ARP_AT + 28] == p.tpa
  {
    hide Encode;
    EncodedFields(p);
  }

  /** Acceptance in terms of the packet's fields, for every packet, filter, header and padding. */
  lemma AcceptsIffReplyFromTarget(flt: Filter, header: seq<byte>, to: Mac, from: Mac, p: Packet, padding: seq<byte>)
    requires |header| == SHIFT && Encodable(p)
    ensures |Wire(to, from, p, padding)| == MIN_CAPLEN + |padding|
    ensures Accepts(flt, Captured(header, Wire(to, from, p, padding)))
       <==> && p.hrd == ARPHRD_ETHER && p.pro == ETHERTYPE_IP && p.hln == 6 && p.pln == 4 && p.op == ARPOP_REPLY
            && p.spa == flt.dstIp && (flt.addrMustBeSame ==> p.sha == flt.dstMac)
    ensures SourceMac(Captured(header, Wire(to, from, p, padding))) == from
  {
    hide U16, Be16, Encode, Wire;
    CapturedFields(header, to, from, p, padding);
  }

  /** A probe counts as a reply at a peer pinging its sender iff it was sent with -P, and then the peer
      recovers the sender's MAC. A peer that uses -A must also know that MAC already. */
  lemma ProbeRoundTrip(peer: Filter, header: seq<byte>, to: Mac, srcMac: Mac, srcIp: Ip, dstIp: Ip,
                       sendReply: bool, unsolicited: bool)
    requires |header| == SHIFT && peer.dstIp == srcIp
    ensures var wire := ProbeWire(to, srcMac, srcIp, dstIp, sendReply, unsolicited);
            && |wire| == MIN_CAPLEN + 16
            && (Accepts(peer, Captured(header, wire)) <==> sendReply && (peer.addrMustBeSame ==> srcMac == peer.dstMac))
            && SourceMac(Captured(header, wire)) == srcMac
  {
    var padding := seq(16, _ => 0 as byte);
    var p := ProbePacket(srcMac, srcIp, dstIp, sendReply, unsolicited);
    AcceptsIffReplyFromTarget(peer, header, to, srcMac, p, padding);
  }

  // ----- how much of the capture the verdict needs

  /** The verdict, and the MAC of an accepted frame, depend on nothing after the captured bytes. */
  ghost predicate DecidedByCapture(flt: Filter, caplen: nat) {
    forall f: Frame, g: Frame ::
      f.caplen == g.caplen == caplen && |f.buf| >= caplen && |g.buf| >= caplen && f.buf[..caplen] == g.buf[..caplen]
      ==> Accepts(flt, f) == Accepts(flt, g) && (Accepts(flt, f) ==> SourceMac(f) == SourceMac(g))
  }

  /** A frame from this host that passes every check of the filter, with no more bytes than are read. */
  function PassingFrame(flt: Filter, caplen: nat, from: Mac): (f: Frame)
    requires caplen >= MIN_CAPLEN
    ensures f.caplen == caplen && |f.buf| == READ_END && Accepts(flt, f) && SourceMac(f) == from
  {
    var p := Packet(ARPHRD_ETHER, ETHERTYPE_IP, 6, 4, ARPOP_REPLY, flt.dstMac, flt.dstIp, flt.dstMac, flt.dstIp);
    var wire := Wire(flt.dstMac, from, p, []);
    var header := seq(SHIFT, _ => 0 as byte);
    AcceptsIffReplyFromTarget(flt, header, flt.dstMac, from, p, []);
    var whole: Frame := Captured(header, wire);
    var f := Frame(caplen, whole.buf[..READ_END]);
    SamePrefixSameVerdict(flt, f, whole.(caplen := caplen));
    f
  }

  /** The length check was written for frames without the transport header: it makes the verdict a function
      of the captured bytes for every length but 42 to 53. */
  lemma DecidedByCaptureIff(flt: Filter, caplen: nat)
    ensures DecidedByCapture(flt, caplen) <==> caplen < 42 || caplen >= 54
  {
    if caplen >= READ_END {
      forall f: Frame, g: Frame |
        f.caplen == g.caplen == caplen && |f.buf| >= caplen && |g.buf| >= caplen && f.buf[..caplen] == g.buf[..caplen]
        ensures Accepts(flt, f) == Accepts(flt, g) && SourceMac(f) == SourceMac(g)
      {
        SamePrefixSameVerdict(flt, f, g);
      }
    } else if caplen >= MIN_CAPLEN {
      var f := PassingFrame(flt, caplen, flt.dstMac);
      var last := READ_END - 1;
      var g: Frame := f.(buf := f.buf[last := if f.buf[last] == 0 then 1 else 0]);
      var ip := READ_END - 4;
      assert g.buf[ip..ip + 4][3] != f.buf[ip..ip + 4][3] == flt.dstIp[3];
      assert !Accepts(flt, g);
      assert f.buf[..caplen] == g.buf[..caplen];
    }
  }

  lemma SamePrefixSameVerdict(flt: Filter, f: Frame, g: Frame)
    requires f.caplen == g.caplen && f.buf[..READ_END] == g.buf[..READ_END]
    ensures Accepts(flt, f) == Accepts(flt, g) && SourceMac(f) == SourceMac(g)
  {
    assert forall i :: 0 <= i < READ_END ==> f.buf[i] == f.buf[..READ_END][i] == g.buf[i];
    assert f.buf[ARP_AT + 8..ARP_AT + 14] == g.buf[ARP_AT + 8..ARP_AT + 14];
    assert f.buf[ARP_AT + 14..ARP_AT + 18] == g.buf[ARP_AT + 14..ARP_AT + 18];
    assert SourceMac(f) == SourceMac(g);
  }
}
