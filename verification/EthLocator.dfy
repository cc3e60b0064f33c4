/**
  Ethernet, VLAN, UDP and VXLAN face addresses (csrc/ethface/locator.c, csrc/ethface/locator.h,
  csrc/ethface/rxtable.c).  VXLAN is laid out as in section 5 of RFC 7348.

  Header buffers, to which the source appends part by part, are byte strings.
 */
module EthLocator {
  import opened Common
  import opened Chain
  import opened Tlv
  import M = Mbuf

  const ETHER_TYPE_NDN := 0x8624
  const ETHER_TYPE_IPV4 := 0x0800
  const ETHER_TYPE_IPV6 := 0x86DD
  const ETHER_TYPE_VLAN := 0x8100
  const IPPROTO_UDP := 17
  const IP_HOPLIMIT := 64
  const V4_IN_V6_PREFIX: Bytes := [0, 0, 0, 0, 0, 0, 0, 0, 0, 0, 0xFF, 0xFF]

  const ETHER_LEN := 14
  const VLAN_LEN := 4
  const IPV4_LEN := 20
  const IPV6_LEN := 40
  const UDP_LEN := 8
  const VXLAN_LEN := 8

  datatype Locator = Locator(
    local: Bytes, remote: Bytes, vlan: nat,
    localIP: Bytes, remoteIP: Bytes, localUDP: nat, remoteUDP: nat,
    vxlan: nat, innerLocal: Bytes, innerRemote: Bytes)

  predicate IsZero(b: Bytes) {
    forall i | 0 <= i < |b| :: b[i] == 0
  }

  predicate IsMulticast(mac: Bytes) {
    |mac| > 0 && mac[0] % 2 == 1
  }

  predicate IsV4(ip: Bytes) {
    V4_IN_V6_PREFIX <= ip
  }

  datatype Class = Class(etherType: nat, multicast: bool, udp: bool, v4: bool, vxlan: bool)

  function Classify(loc: Locator): (c: Class) {
    if IsZero(loc.local) then
      Class(0, false, false, false, false)
    else
      var udp, v4 := loc.remoteUDP != 0, IsV4(loc.remoteIP);
      Class(if !udp then ETHER_TYPE_NDN else if v4 then ETHER_TYPE_IPV4 else ETHER_TYPE_IPV6,
            IsMulticast(loc.remote), udp, v4, !IsZero(loc.innerRemote))
  }

  /** Sizes of the fields. */
  predicate Shape(loc: Locator) {
    && |loc.local| == |loc.remote| == |loc.innerLocal| == |loc.innerRemote| == 6
    && |loc.localIP| == |loc.remoteIP| == 16
    && loc.vlan < 0x10000 && loc.localUDP < 0x10000 && loc.remoteUDP < 0x10000 && loc.vxlan < 0x1_0000_0000
  }

  /** A locator as faces have it. */
  predicate Valid(loc: Locator) {
    var c := Classify(loc);
    && Shape(loc) && !IsZero(loc.local) && !IsMulticast(loc.local)
    && loc.vlan <= 0xFFF && loc.vxlan < 0x100_0000
    && (c.udp ==> !c.multicast && IsV4(loc.localIP) == IsV4(loc.remoteIP))
    && (c.vxlan ==> c.udp)
    && (!c.udp ==> IsZero(loc.localIP) && IsZero(loc.remoteIP))
  }

  /** Whether two faces may share a port. */
  predicate CanCoexist(a: Locator, b: Locator) {
    var ac, bc := Classify(a), Classify(b);
    if ac.etherType == 0 || bc.etherType == 0 then false
    else if ac.multicast != bc.multicast || ac.udp != bc.udp || ac.v4 != bc.v4 then true
    else if ac.multicast then false
    else if a.vlan != b.vlan then true
    else if !ac.udp then !(a.local == b.local && a.remote == b.remote)
    else if a.localIP != b.localIP || a.remoteIP != b.remoteIP then true
    else if !ac.vxlan && !bc.vxlan then a.localUDP != b.localUDP || a.remoteUDP != b.remoteUDP
    else if a.localUDP != b.localUDP && a.remoteUDP != b.remoteUDP then true
    else if ac.vxlan != bc.vxlan then false
    else a.vxlan != b.vxlan || a.innerLocal != b.innerLocal || a.innerRemote != b.innerRemote
  }

  // ------------------------------------------------------------------ headers

  function EtherHdr(src: Bytes, dst: Bytes, vid: nat, etherType: nat): (b: Bytes) {
    dst + src + ToBe(if vid == 0 then etherType else ETHER_TYPE_VLAN, 2)
  }

  function VlanHdr(vid: nat, etherType: nat): (b: Bytes) {
    ToBe(vid, 2) + ToBe(etherType, 2)
  }

  function EtherVlanHdr(src: Bytes, dst: Bytes, vid: nat, etherType: nat): (b: Bytes) {
    EtherHdr(src, dst, vid, etherType) + if vid != 0 then VlanHdr(vid, etherType) else []
  }

  /** Length and checksum are filled in for each packet. */
  function Ipv4Hdr(src: Bytes, dst: Bytes, length: nat, checksum: nat): (b: Bytes)
    requires |src| == |dst| == 16
  {
    [0x45, 0] + ToBe(length, 2) + [0, 0, 0x40, 0, IP_HOPLIMIT, IPPROTO_UDP] + ToBe(checksum, 2) + src[12..] + dst[12..]
  }

  function Ipv6Hdr(src: Bytes, dst: Bytes, length: nat): (b: Bytes)
    requires |src| == |dst| == 16
  {
    [0x60, 0, 0, 0] + ToBe(length, 2) + [IPPROTO_UDP, IP_HOPLIMIT] + src + dst
  }

  function UdpHdr(src: nat, dst: nat, length: nat, checksum: nat): (b: Bytes) {
    ToBe(src, 2) + ToBe(dst, 2) + ToBe(length, 2) + ToBe(checksum, 2)
  }

  function VxlanHdr(vni: nat): (b: Bytes) {
    [0x08, 0, 0, 0] + ToBe(vni * 256, 4)
  }

  // ------------------------------------------------------------------ matching

  datatype MatchFunc = Always | EtherUnicast | EtherMulticast | Udp | Vxlan

  datatype RxMatch = RxMatch(f: MatchFunc, len: nat, l2len: nat, l3matchOff: nat, l3matchLen: nat, udpOff: nat, buf: Bytes)

  function PrepareMatch(loc: Locator): (m: RxMatch)
    requires Shape(loc)
  {
    var c := Classify(loc);
    if c.etherType == 0 then
      RxMatch(Always, 0, 0, 0, 0, 0, [])
    else
      var l2 := EtherVlanHdr(loc.remote, loc.local, loc.vlan, c.etherType);
      if !c.udp then
        RxMatch(if c.multicast then EtherMulticast else EtherUnicast, |l2|, |l2|, 0, 0, 0, l2)
      else
        var l3 := l2 + if c.v4 then Ipv4Hdr(loc.remoteIP, loc.localIP, 0, 0) else Ipv6Hdr(loc.remoteIP, loc.localIP, 0);
        var addrs := if c.v4 then 8 else 32;
        var l4 := l3 + UdpHdr(loc.remoteUDP, loc.localUDP, 0, 0);
        if !c.vxlan then
          RxMatch(Udp, |l4|, |l2|, |l3| - addrs, addrs + 4, |l3|, l4)
        else
          var l5 := l4 + VxlanHdr(loc.vxlan) + EtherVlanHdr(loc.innerRemote, loc.innerLocal, 0, ETHER_TYPE_NDN);
          RxMatch(Vxlan, |l5|, |l2|, |l3| - addrs, addrs, |l3|, l5)
  }

  /** The bytes of a frame and of the template agree. */
  predicate Same(x: Bytes, buf: Bytes, at: nat, n: nat) {
    at + n <= |x| && at + n <= |buf| && x[at..at + n] == buf[at..at + n]
  }

  function Field(x: Bytes, at: nat, n: nat): (r: Bytes)
    ensures at + n <= |x| ==> |r| == n
  {
    if at + n <= |x| then x[at..at + n] else []
  }

  predicate MatchVlan(m: RxMatch, x: Bytes) {
    m.l2len != ETHER_LEN + VLAN_LEN
    || (Same(x, m.buf, ETHER_LEN + 2, 2) && Be(Field(x, ETHER_LEN, 2)) % 0x1000 == Be(Field(m.buf, ETHER_LEN, 2)))
  }

  predicate MatchEtherUnicast(m: RxMatch, x: Bytes) {
    Same(x, m.buf, 0, ETHER_LEN) && MatchVlan(m, x)
  }

  predicate MatchEtherMulticast(m: RxMatch, x: Bytes) {
    IsMulticast(x) && Same(x, m.buf, 12, 2) && MatchVlan(m, x)
  }

  predicate MatchUdp(m: RxMatch, x: Bytes) {
    MatchEtherUnicast(m, x) && Same(x, m.buf, m.l3matchOff, m.l3matchLen)
  }

  predicate MatchVxlan(m: RxMatch, x: Bytes) {
    && MatchUdp(m, x) && Same(x, m.buf, m.udpOff + 2, 2)
    && (var vni := Be(Field(x, m.udpOff + UDP_LEN + 4, 4)); vni - vni % 256 == Be(Field(m.buf, m.udpOff + UDP_LEN + 4, 4)))
    && Same(x, m.buf, m.udpOff + UDP_LEN + VXLAN_LEN, ETHER_LEN)
  }

  predicate Matches(m: RxMatch, x: Bytes) {
    |x| >= m.len && match m.f
      case Always => true
      case EtherUnicast => MatchEtherUnicast(m, x)
      case EtherMulticast => MatchEtherMulticast(m, x)
      case Udp => MatchUdp(m, x)
      case Vxlan => MatchVxlan(m, x)
  }

  // ------------------------------------------------------------------ what a matcher looks at

  function L2Len(loc: Locator): (n: nat) {
    ETHER_LEN + if loc.vlan == 0 then 0 else VLAN_LEN
  }

  function L3Len(loc: Locator): (n: nat) {
    if Classify(loc).v4 then IPV4_LEN else IPV6_LEN
  }

  /** VLAN tag and EtherType. */
  predicate TagMatches(loc: Locator, x: Bytes) {
    var et := Classify(loc).etherType;
    if loc.vlan == 0 then
      Field(x, 12, 2) == ToBe(et, 2)
    else
      Field(x, 12, 2) == ToBe(ETHER_TYPE_VLAN, 2) && Field(x, 16, 2) == ToBe(et, 2) && Be(Field(x, 14, 2)) % 0x1000 == loc.vlan
  }

  /** IP addresses, source first. */
  predicate AddressesMatch(loc: Locator, x: Bytes)
    requires Shape(loc)
  {
    var n := if Classify(loc).v4 then 4 else 16;
    var at := L2Len(loc) + L3Len(loc) - 2 * n;
    Field(x, at, n) == loc.remoteIP[16 - n..] && Field(x, at + n, n) == loc.localIP[16 - n..]
  }

  predicate InnerMatches(loc: Locator, x: Bytes) {
    var at := L2Len(loc) + L3Len(loc) + UDP_LEN;
    && Field(x, at + 4, 3) == ToBe(loc.vxlan, 3)
    && Field(x, at + 8, 6) == loc.innerLocal && Field(x, at + 14, 6) == loc.innerRemote
    && Field(x, at + 20, 2) == ToBe(ETHER_TYPE_NDN, 2)
  }

  /** What a frame must contain to belong to a locator, field by field. */
  predicate Belongs(loc: Locator, x: Bytes)
    requires Shape(loc)
  {
    var c := Classify(loc);
    var udp := L2Len(loc) + L3Len(loc);
    && TagMatches(loc, x)
    && (if c.multicast then IsMulticast(x) else Field(x, 0, 6) == loc.local && Field(x, 6, 6) == loc.remote)
    && (c.udp ==>
          && AddressesMatch(loc, x)
          && Field(x, udp + 2, 2) == ToBe(loc.localUDP, 2)
          && (if c.vxlan then InnerMatches(loc, x) else Field(x, udp, 2) == ToBe(loc.remoteUDP, 2)))
  }

  function HeaderLen(loc: Locator): (n: nat) {
    var c := Classify(loc);
    L2Len(loc) + (if c.udp then L3Len(loc) + UDP_LEN + (if c.vxlan then VXLAN_LEN + ETHER_LEN else 0) else 0)
  }

  lemma SameSplit(x: Bytes, buf: Bytes, at: nat, n: nat, k: nat)
    ensures Same(x, buf, at, n + k) <==> Same(x, buf, at, n) && Same(x, buf, at + n, k)
  {
    if at + n + k <= |x| && at + n + k <= |buf| {
      var a, b := x[at..at + n + k], buf[at..at + n + k];
      assert a == a[..n] + a[n..] && b == b[..n] + b[n..];
      assert a[..n] == x[at..at + n] && a[n..] == x[at + n..at + n + k];
      assert b[..n] == buf[at..at + n] && b[n..] == buf[at + n..at + n + k];
    }
  }

  lemma SameField(x: Bytes, buf: Bytes, at: nat, n: nat)
    requires at + n <= |x| && at + n <= |buf|
    ensures Same(x, buf, at, n) <==> Field(x, at, n) == Field(buf, at, n)
  {
  }

  /** The template starts with the link layer header. */
  ghost predicate HasL2(loc: Locator, buf: Bytes)
    requires Shape(loc)
  {
    var et := Classify(loc).etherType;
    && |buf| >= L2Len(loc) && Field(buf, 0, 6) == loc.local && Field(buf, 6, 6) == loc.remote
    && Field(buf, 12, 2) == ToBe(if loc.vlan == 0 then et else ETHER_TYPE_VLAN, 2)
    && (loc.vlan != 0 ==> Field(buf, 14, 2) == ToBe(loc.vlan, 2) && Field(buf, 16, 2) == ToBe(et, 2))
  }

  lemma TemplateL2(loc: Locator, rest: Bytes)
    requires Shape(loc)
    ensures HasL2(loc, EtherVlanHdr(loc.remote, loc.local, loc.vlan, Classify(loc).etherType) + rest)
    ensures |EtherVlanHdr(loc.remote, loc.local, loc.vlan, Classify(loc).etherType)| == L2Len(loc)
  {
    hide ToBe;
    var et := Classify(loc).etherType;
    var l2 := EtherVlanHdr(loc.remote, loc.local, loc.vlan, et);
    var outer := if loc.vlan == 0 then et else ETHER_TYPE_VLAN;
    var tag := if loc.vlan == 0 then [] else VlanHdr(loc.vlan, et);
    assert l2 + rest == [] + loc.local + (loc.remote + ToBe(outer, 2) + tag + rest);
    assert l2 + rest == loc.local + loc.remote + (ToBe(outer, 2) + tag + rest);
    assert l2 + rest == loc.local + loc.remote + ToBe(outer, 2) + (tag + rest);
    if loc.vlan != 0 {
      assert l2 + rest == loc.local + loc.remote + ToBe(outer, 2) + ToBe(loc.vlan, 2) + (ToBe(et, 2) + rest);
      assert l2 + rest == loc.local + loc.remote + ToBe(outer, 2) + ToBe(loc.vlan, 2) + ToBe(et, 2) + rest;
    }
  }

  lemma VlanBe(vid: nat)
    requires vid <= 0xFFF
    ensures Be(ToBe(vid, 2)) == vid
  {
    Powers();
    BeToBe(vid, 2);
  }

  /** The tag part of a match. */
  lemma TagIff(loc: Locator, m: RxMatch, x: Bytes)
    requires Valid(loc) && HasL2(loc, m.buf) && m.l2len == L2Len(loc) && |x| >= L2Len(loc)
    ensures Same(x, m.buf, 12, 2) && MatchVlan(m, x) <==> TagMatches(loc, x)
  {
    hide ToBe, Be;
    SameField(x, m.buf, 12, 2);
    if loc.vlan != 0 {
      SameField(x, m.buf, 16, 2);
      VlanBe(loc.vlan);
    }
  }

  lemma UnicastIff(loc: Locator, m: RxMatch, x: Bytes)
    requires Valid(loc) && HasL2(loc, m.buf) && m.l2len == L2Len(loc) && |x| >= L2Len(loc)
    ensures MatchEtherUnicast(m, x) <==> TagMatches(loc, x) && Field(x, 0, 6) == loc.local && Field(x, 6, 6) == loc.remote
  {
    hide ToBe, Be, MatchVlan, TagMatches;
    TagIff(loc, m, x);
    SameSplit(x, m.buf, 0, 12, 2);
    SameSplit(x, m.buf, 0, 6, 6);
    SameField(x, m.buf, 0, 6);
    SameField(x, m.buf, 6, 6);
  }

  /** The template continues with IP addresses and ports. */
  ghost predicate HasL4(loc: Locator, buf: Bytes)
    requires Shape(loc)
  {
    var n := if Classify(loc).v4 then 4 else 16;
    var udp := L2Len(loc) + L3Len(loc);
    && |buf| >= udp + UDP_LEN
    && Field(buf, udp - 2 * n, n) == loc.remoteIP[16 - n..] && Field(buf, udp - n, n) == loc.localIP[16 - n..]
    && Field(buf, udp, 2) == ToBe(loc.remoteUDP, 2) && Field(buf, udp + 2, 2) == ToBe(loc.localUDP, 2)
  }

  function L3Hdr(loc: Locator): (b: Bytes)
    requires Shape(loc)
  {
    if Classify(loc).v4 then Ipv4Hdr(loc.remoteIP, loc.localIP, 0, 0) else Ipv6Hdr(loc.remoteIP, loc.localIP, 0)
  }

  lemma TemplateL3(loc: Locator)
    requires Shape(loc)
    ensures var n := if Classify(loc).v4 then 4 else 16;
      && |L3Hdr(loc)| == L3Len(loc)
      && L3Hdr(loc)[L3Len(loc) - 2 * n..] == loc.remoteIP[16 - n..] + loc.localIP[16 - n..]
  {
    hide ToBe;
  }

  /** Where addresses and ports are in a frame with the given headers. */
  lemma L4Fields(l2: Bytes, fixed: Bytes, src: Bytes, dst: Bytes, p: Bytes, q: Bytes, rest: Bytes)
    ensures var buf := l2 + (fixed + (src + dst)) + (p + q + rest);
      var at := |l2| + |fixed|;
      && Field(buf, at, |src|) == src && Field(buf, at + |src|, |dst|) == dst
      && Field(buf, at + |src| + |dst|, |p|) == p && Field(buf, at + |src| + |dst| + |p|, |q|) == q
  {
    var buf := l2 + (fixed + (src + dst)) + (p + q + rest);
    assert buf == (l2 + fixed) + src + (dst + p + q + rest);
    assert buf == (l2 + fixed + src) + dst + (p + q + rest);
    assert buf == (l2 + fixed + src + dst) + p + (q + rest);
    assert buf == (l2 + fixed + src + dst + p) + q + rest;
  }

  lemma TemplateL4(loc: Locator, l2: Bytes, rest: Bytes)
    requires Shape(loc) && |l2| == L2Len(loc)
    ensures HasL4(loc, l2 + L3Hdr(loc) + UdpHdr(loc.remoteUDP, loc.localUDP, 0, 0) + rest)
  {
    hide ToBe, L3Hdr, Field, IsV4;
    TemplateL3(loc);
    var n := if Classify(loc).v4 then 4 else 16;
    var fixed, src, dst := L3Hdr(loc)[..L3Len(loc) - 2 * n], loc.remoteIP[16 - n..], loc.localIP[16 - n..];
    assert L3Hdr(loc) == fixed + (src + dst);
    var p, q, z := ToBe(loc.remoteUDP, 2), ToBe(loc.localUDP, 2), ToBe(0, 2) + ToBe(0, 2);
    L4Fields(l2, fixed, src, dst, p, q, z + rest);
    assert l2 + L3Hdr(loc) + UdpHdr(loc.remoteUDP, loc.localUDP, 0, 0) + rest == l2 + (fixed + (src + dst)) + (p + q + (z + rest));
  }

  /** The address and port part of a match. */
  lemma L4Iff(loc: Locator, m: RxMatch, x: Bytes)
    requires Valid(loc) && HasL4(loc, m.buf) && |x| >= L2Len(loc) + L3Len(loc) + UDP_LEN
    ensures var n := if Classify(loc).v4 then 4 else 16;
      var udp := L2Len(loc) + L3Len(loc);
      && (Same(x, m.buf, udp - 2 * n, 2 * n) <==> AddressesMatch(loc, x))
      && (Same(x, m.buf, udp - 2 * n, 2 * n + 4) <==>
            AddressesMatch(loc, x) && Field(x, udp, 2) == ToBe(loc.remoteUDP, 2) && Field(x, udp + 2, 2) == ToBe(loc.localUDP, 2))
      && (Same(x, m.buf, udp + 2, 2) <==> Field(x, udp + 2, 2) == ToBe(loc.localUDP, 2))
  {
    hide ToBe, Same, Field, IsV4;
    var n := if Classify(loc).v4 then 4 else 16;
    var udp := L2Len(loc) + L3Len(loc);
    SameSplit(x, m.buf, udp - 2 * n, n, n);
    SameSplit(x, m.buf, udp - 2 * n, 2 * n, 4);
    SameSplit(x, m.buf, udp, 2, 2);
    SameField(x, m.buf, udp - 2 * n, n);
    SameField(x, m.buf, udp - n, n);
    SameField(x, m.buf, udp, 2);
    SameField(x, m.buf, udp + 2, 2);
  }

  /** The template ends with the VXLAN and inner Ethernet headers. */
  ghost predicate HasInner(loc: Locator, buf: Bytes)
    requires Shape(loc)
  {
    var at := L2Len(loc) + L3Len(loc) + UDP_LEN;
    && |buf| >= at + VXLAN_LEN + ETHER_LEN
    && Field(buf, at + 4, 4) == ToBe(loc.vxlan * 256, 4)
    && Field(buf, at + 8, 6) == loc.innerLocal && Field(buf, at + 14, 6) == loc.innerRemote
    && Field(buf, at + 20, 2) == ToBe(ETHER_TYPE_NDN, 2)
  }

  lemma TemplateInner(loc: Locator, l4: Bytes, rest: Bytes)
    requires Shape(loc) && |l4| == L2Len(loc) + L3Len(loc) + UDP_LEN
    ensures HasInner(loc, l4 + VxlanHdr(loc.vxlan) + EtherVlanHdr(loc.innerRemote, loc.innerLocal, 0, ETHER_TYPE_NDN) + rest)
  {
    hide ToBe;
    var flags: Bytes := [0x08, 0, 0, 0];
    var vni, et := ToBe(loc.vxlan * 256, 4), ToBe(ETHER_TYPE_NDN, 2);
    var buf := l4 + VxlanHdr(loc.vxlan) + EtherVlanHdr(loc.innerRemote, loc.innerLocal, 0, ETHER_TYPE_NDN) + rest;
    assert buf == (l4 + flags) + vni + (loc.innerLocal + loc.innerRemote + et + rest);
    assert buf == (l4 + flags + vni) + loc.innerLocal + (loc.innerRemote + et + rest);
    assert buf == (l4 + flags + vni + loc.innerLocal) + loc.innerRemote + (et + rest);
    assert buf == (l4 + flags + vni + loc.innerLocal + loc.innerRemote) + et + rest;
  }

  lemma BeFour(b: Bytes)
    requires |b| == 4
    ensures Be(b) == Be(b[..3]) * 256 + b[3] && ToBe(Be(b[..3]), 3) == b[..3]
  {
    ToBeBe(b[..3]);
  }

  lemma BeShifted(vni: nat)
    requires vni < 0x100_0000
    ensures Be(ToBe(vni * 256, 4)) == vni * 256 && Be(ToBe(vni, 3)) == vni
  {
    Powers();
    assert Pow256(3) == 256 * Pow256(2);
    BeToBe(vni * 256, 4);
    BeToBe(vni, 3);
  }

  /** The VNI field, without its reserved byte. */
  lemma VniIff(b: Bytes, vni: nat)
    requires |b| == 4 && vni < 0x100_0000
    ensures Be(b) - Be(b) % 256 == Be(ToBe(vni * 256, 4)) <==> b[..3] == ToBe(vni, 3)
  {
    hide Be, ToBe;
    BeFour(b);
    BeShifted(vni);
    assert Be(b) - Be(b) % 256 == Be(b[..3]) * 256;
  }

  lemma EtherIff(x: Bytes, buf: Bytes, at: nat)
    requires at + ETHER_LEN <= |x| && at + ETHER_LEN <= |buf|
    ensures Same(x, buf, at, ETHER_LEN) <==>
      Field(x, at, 6) == Field(buf, at, 6) && Field(x, at + 6, 6) == Field(buf, at + 6, 6) && Field(x, at + 12, 2) == Field(buf, at + 12, 2)
  {
    hide Same, Field;
    SameSplit(x, buf, at, 12, 2);
    SameSplit(x, buf, at, 6, 6);
    SameField(x, buf, at, 6);
    SameField(x, buf, at + 6, 6);
    SameField(x, buf, at + 12, 2);
  }

  lemma FieldPrefix(x: Bytes, at: nat)
    requires at + 4 <= |x|
    ensures |Field(x, at, 4)| == 4 && Field(x, at, 4)[..3] == Field(x, at, 3)
  {
  }

  lemma InnerIff(loc: Locator, m: RxMatch, x: Bytes)
    requires Valid(loc) && HasInner(loc, m.buf) && m.udpOff == L2Len(loc) + L3Len(loc) && |x| >= m.udpOff + UDP_LEN + VXLAN_LEN + ETHER_LEN
    ensures var vni := Be(Field(x, m.udpOff + UDP_LEN + 4, 4));
      (vni - vni % 256 == Be(Field(m.buf, m.udpOff + UDP_LEN + 4, 4)) && Same(x, m.buf, m.udpOff + UDP_LEN + VXLAN_LEN, ETHER_LEN))
      <==> InnerMatches(loc, x)
  {
    hide ToBe, Be, Same, Field, IsV4, IsZero, IsMulticast;
    var at := m.udpOff + UDP_LEN;
    FieldPrefix(x, at + 4);
    VniIff(Field(x, at + 4, 4), loc.vxlan);
    EtherIff(x, m.buf, at + 8);
  }

  /** Shape of a prepared matcher. */
  lemma Prepared(loc: Locator)
    requires Valid(loc)
    ensures var m, c := PrepareMatch(loc), Classify(loc);
      && m.len == HeaderLen(loc) && |m.buf| == m.len && m.l2len == L2Len(loc) && HasL2(loc, m.buf)
      && (!c.udp ==> m.f == if c.multicast then EtherMulticast else EtherUnicast)
      && (c.udp ==>
            var n := if c.v4 then 4 else 16;
            HasL4(loc, m.buf) && m.udpOff == L2Len(loc) + L3Len(loc) && m.l3matchOff == m.udpOff - 2 * n
            && (if c.vxlan then m.f == Vxlan && m.l3matchLen == 2 * n && HasInner(loc, m.buf) else m.f == Udp && m.l3matchLen == 2 * n + 4))
  {
    hide ToBe, HasL2, HasL4, HasInner, EtherVlanHdr, UdpHdr, VxlanHdr, IsV4, IsZero, IsMulticast, Ipv4Hdr, Ipv6Hdr;
    var c := Classify(loc);
    var l2 := EtherVlanHdr(loc.remote, loc.local, loc.vlan, c.etherType);
    TemplateL2(loc, []);
    assert l2 + [] == l2;
    if c.udp {
      UdpLen(loc.remoteUDP, loc.localUDP);
      TemplateL3(loc);
      InnerLen(loc);
      var rest := if c.vxlan then VxlanHdr(loc.vxlan) + EtherVlanHdr(loc.innerRemote, loc.innerLocal, 0, ETHER_TYPE_NDN) else [];
      PreparedL4(loc, l2, L3Hdr(loc), UdpHdr(loc.remoteUDP, loc.localUDP, 0, 0), rest);
    }
  }

  /** The template of a UDP matcher, put together in either way. */
  lemma PreparedL4(loc: Locator, l2: Bytes, l3: Bytes, udp: Bytes, rest: Bytes)
    requires Shape(loc) && l2 == EtherVlanHdr(loc.remote, loc.local, loc.vlan, Classify(loc).etherType)
    requires l3 == L3Hdr(loc) && udp == UdpHdr(loc.remoteUDP, loc.localUDP, 0, 0)
    ensures HasL2(loc, l2 + l3 + udp + rest) && HasL4(loc, l2 + l3 + udp + rest) && l2 + l3 + udp + [] == l2 + l3 + udp
    ensures rest == VxlanHdr(loc.vxlan) + EtherVlanHdr(loc.innerRemote, loc.innerLocal, 0, ETHER_TYPE_NDN) ==>
      && HasInner(loc, l2 + l3 + udp + rest)
      && l2 + l3 + udp + rest == l2 + l3 + udp + VxlanHdr(loc.vxlan) + EtherVlanHdr(loc.innerRemote, loc.innerLocal, 0, ETHER_TYPE_NDN)
  {
    hide ToBe, HasL2, HasL4, HasInner, EtherVlanHdr, UdpHdr, VxlanHdr, IsV4, IsZero, IsMulticast, L3Hdr;
    TemplateL2(loc, l3 + udp + rest);
    assert l2 + (l3 + udp + rest) == l2 + l3 + udp + rest;
    TemplateL4(loc, l2, rest);
    var a, b := VxlanHdr(loc.vxlan), EtherVlanHdr(loc.innerRemote, loc.innerLocal, 0, ETHER_TYPE_NDN);
    UdpLen(loc.remoteUDP, loc.localUDP);
    TemplateL3(loc);
    TemplateInner(loc, l2 + l3 + udp, []);
    assert l2 + l3 + udp + a + b + [] == l2 + l3 + udp + a + b == l2 + l3 + udp + (a + b);
  }

  lemma UdpLen(src: nat, dst: nat)
    ensures |UdpHdr(src, dst, 0, 0)| == UDP_LEN
  {
  }

  lemma InnerLen(loc: Locator)
    requires Shape(loc)
    ensures |VxlanHdr(loc.vxlan)| == VXLAN_LEN && |EtherVlanHdr(loc.innerRemote, loc.innerLocal, 0, ETHER_TYPE_NDN)| == ETHER_LEN
  {
  }

  /** A prepared matcher accepts exactly the frames that belong to its locator. */
  lemma MatchesExactly(loc: Locator, x: Bytes)
    requires Valid(loc)
    ensures Matches(PrepareMatch(loc), x) <==> |x| >= HeaderLen(loc) && Belongs(loc, x)
  {
    hide ToBe, Be, HasL2, HasL4, HasInner, PrepareMatch, MatchEtherUnicast, MatchVlan, TagMatches, AddressesMatch, InnerMatches, Same, Field, IsV4;
    Prepared(loc);
    var m, c := PrepareMatch(loc), Classify(loc);
    if |x| >= HeaderLen(loc) {
      UnicastIff(loc, m, x);
      TagIff(loc, m, x);
      if c.udp {
        L4Iff(loc, m, x);
        if c.vxlan {
          InnerIff(loc, m, x);
        }
      }
    }
  }

  // ------------------------------------------------------------------ coexistence

  lemma ToBeDiffers(a: nat, b: nat, k: nat)
    requires a < Pow256(k) && b < Pow256(k) && a != b
    ensures ToBe(a, k) != ToBe(b, k)
  {
    BeToBe(a, k);
    BeToBe(b, k);
  }

  lemma EtherTypesDiffer(a: nat, b: nat)
    requires a < 0x10000 && b < 0x10000 && a != b
    ensures ToBe(a, 2) != ToBe(b, 2)
  {
    Powers();
    ToBeDiffers(a, b, 2);
  }

  /** Different EtherTypes or different VLANs cannot both match. */
  lemma TagsApart(a: Locator, b: Locator, x: Bytes)
    requires Valid(a) && Valid(b) && TagMatches(a, x) && TagMatches(b, x)
    ensures Classify(a).etherType == Classify(b).etherType && a.vlan == b.vlan
  {
    hide ToBe, Be, Field, IsV4;
    var s, t := Classify(a).etherType, Classify(b).etherType;
    if s != t {
      EtherTypesDiffer(s, t);
    }
    EtherTypesDiffer(s, ETHER_TYPE_VLAN);
    EtherTypesDiffer(t, ETHER_TYPE_VLAN);
  }

  /** Two addresses of one family with the same significant bytes are equal. */
  lemma SuffixTells(u: Bytes, v: Bytes)
    requires |u| == |v| == 16 && IsV4(u) == IsV4(v)
    ensures u[0..] == v[0..] ==> u == v
    ensures IsV4(u) && u[12..] == v[12..] ==> u == v
  {
    assert u == u[..12] + u[12..] && v == v[..12] + v[12..];
  }

  lemma AddressesApart(a: Locator, b: Locator, x: Bytes)
    requires Valid(a) && Valid(b) && Classify(a).udp && Classify(b).udp && Classify(a).v4 == Classify(b).v4 && a.vlan == b.vlan
    requires AddressesMatch(a, x) && AddressesMatch(b, x)
    ensures a.localIP == b.localIP && a.remoteIP == b.remoteIP
  {
    hide Field, IsV4, IsZero, IsMulticast;
    SuffixTells(a.localIP, b.localIP);
    SuffixTells(a.remoteIP, b.remoteIP);
  }

  lemma PortsApart(p: nat, q: nat)
    requires p < 0x10000 && q < 0x10000 && ToBe(p, 2) == ToBe(q, 2)
    ensures p == q
  {
    Powers();
    BeToBe(p, 2);
    BeToBe(q, 2);
  }

  lemma VnisApart(p: nat, q: nat)
    requires p < 0x100_0000 && q < 0x100_0000 && ToBe(p, 3) == ToBe(q, 3)
    ensures p == q
  {
    Powers();
    assert Pow256(3) == 256 * Pow256(2);
    BeToBe(p, 3);
    BeToBe(q, 3);
  }

  lemma FirstByte(x: Bytes, mac: Bytes)
    requires |mac| == 6 && Field(x, 0, 6) == mac
    ensures IsMulticast(x) == IsMulticast(mac)
  {
    assert x[0] == x[0..6][0];
  }

  /** No frame belongs to two locators that may coexist. */
  lemma CoexistDisjoint(a: Locator, b: Locator, x: Bytes)
    requires Valid(a) && Valid(b) && CanCoexist(a, b)
    ensures !(Matches(PrepareMatch(a), x) && Matches(PrepareMatch(b), x))
  {
    hide Matches, PrepareMatch, Field, ToBe, Be, IsV4, IsMulticast, IsZero, TagMatches, AddressesMatch;
    MatchesExactly(a, x);
    MatchesExactly(b, x);
    if Belongs(a, x) && Belongs(b, x) {
      TagsApart(a, b, x);
      if !Classify(a).multicast {
        FirstByte(x, a.local);
      }
      if !Classify(b).multicast {
        FirstByte(x, b.local);
      }
      SameClass(a, b);
      if Classify(a).udp {
        AddressesApart(a, b, x);
        PortsApart(a.localUDP, b.localUDP);
        if Classify(a).vxlan && Classify(b).vxlan {
          VnisApart(a.vxlan, b.vxlan);
        } else if !Classify(a).vxlan && !Classify(b).vxlan {
          PortsApart(a.remoteUDP, b.remoteUDP);
        }
      }
      assert false;
    }
  }

  /** The EtherType tells the class, up to multicast and VXLAN. */
  lemma SameClass(a: Locator, b: Locator)
    requires Valid(a) && Valid(b) && Classify(a).etherType == Classify(b).etherType
    ensures Classify(a).udp == Classify(b).udp && Classify(a).v4 == Classify(b).v4
  {
    if !Classify(a).udp {
      assert a.remoteIP[10] == 0 && b.remoteIP[10] == 0;
    }
  }

  // ------------------------------------------------------------------ the table of faces

  datatype Face = Face(id: nat, loc: Locator)

  ghost predicate ValidFaces(fs: seq<Face>) {
    forall i | 0 <= i < |fs| :: Valid(fs[i].loc)
  }

  ghost predicate AllCoexist(fs: seq<Face>) {
    forall i, j | 0 <= i < |fs| && 0 <= j < |fs| && i != j :: CanCoexist(fs[i].loc, fs[j].loc)
  }

  predicate Takes(f: Face, x: Bytes)
    requires Shape(f.loc)
  {
    Matches(PrepareMatch(f.loc), x)
  }

  /** The first face that takes a frame. */
  function FirstMatch(fs: seq<Face>, x: Bytes): (r: Option<Face>)
    requires forall i | 0 <= i < |fs| :: Shape(fs[i].loc)
    ensures r.Some? ==> exists i :: 0 <= i < |fs| && fs[i] == r.value && Takes(fs[i], x)
    ensures r.None? ==> forall i | 0 <= i < |fs| :: !Takes(fs[i], x)
  {
    if fs == [] then
      None
    else if Takes(fs[0], x) then
      Some(fs[0])
    else
      assert forall i | 0 < i < |fs| :: fs[i] == fs[1..][i - 1];
      FirstMatch(fs[1..], x)
  }

  /** A frame that matches strips its header. */
  method Match(match_: RxMatch, m: M.Mbuf) returns (ok: bool)
    requires m.Fits()
    modifies m
    ensures m.Fits() && ok == Matches(match_, old(m.Data()))
    ensures m.Data() == if ok then old(m.Data())[match_.len..] else old(m.Data())
  {
    hide MatchEtherUnicast, MatchEtherMulticast, MatchUdp, MatchVxlan;
    ok := m.len >= match_.len && Matches(match_, m.buf[m.off..m.off + m.len]);
    if ok {
      m.off := m.off + match_.len;
      m.len := m.len - match_.len;
    }
  }

  /** Give a frame to the first face that takes it. */
  method Accept(fs: seq<Face>, m: M.Mbuf) returns (port: Option<nat>)
    requires ValidFaces(fs) && m.Fits()
    modifies m
    ensures m.Fits()
    ensures var r := FirstMatch(fs, old(m.Data()));
      if r.None? then
        port == None && m.Data() == old(m.Data())
      else
        port == Some(r.value.id) && PrepareMatch(r.value.loc).len <= |old(m.Data())| && m.Data() == old(m.Data())[PrepareMatch(r.value.loc).len..]
  {
    hide PrepareMatch, Classify, Matches;
    ghost var x := m.Data();
    for i := 0 to |fs|
      invariant m.Fits() && m.Data() == x && FirstMatch(fs, x) == FirstMatch(fs[i..], x)
    {
      assert fs[i..][0] == fs[i] && fs[i..][1..] == fs[i + 1..];
      var ok := Match(PrepareMatch(fs[i].loc), m);
      if ok {
        LongEnough(PrepareMatch(fs[i].loc), x);
        return Some(fs[i].id);
      }
    }
    port := None;
  }

  lemma LongEnough(m: RxMatch, x: Bytes)
    requires Matches(m, x)
    ensures m.len <= |x|
  {
  }

  /** When all faces may coexist, at most one takes a frame. */
  lemma OnlyOne(fs: seq<Face>, x: Bytes, i: nat, j: nat)
    requires ValidFaces(fs) && AllCoexist(fs) && i < |fs| && j < |fs| && Takes(fs[i], x) && Takes(fs[j], x)
    ensures i == j
  {
    hide Classify, PrepareMatch, Matches, Shape, CanCoexist;
    ShapeOf(fs[i].loc);
    ShapeOf(fs[j].loc);
    if i != j {
      CoexistDisjoint(fs[i].loc, fs[j].loc, x);
    }
  }

  lemma ShapeOf(loc: Locator)
    requires Valid(loc)
    ensures Shape(loc)
  {
  }

  /** The answer does not depend on the order of the faces. */
  lemma OrderDoesNotMatter(fs: seq<Face>, gs: seq<Face>, x: Bytes)
    requires ValidFaces(fs) && ValidFaces(gs) && AllCoexist(fs) && multiset(fs) == multiset(gs)
    ensures FirstMatch(fs, x) == FirstMatch(gs, x)
  {
    hide Classify, PrepareMatch, Matches, CanCoexist, AllCoexist, Takes;
    assert forall f :: f in fs <==> f in multiset(fs);
    assert forall f :: f in gs <==> f in multiset(gs);
    var r, t := FirstMatch(fs, x), FirstMatch(gs, x);
    if r.Some? {
      assert r.value in gs;
      var k :| 0 <= k < |gs| && gs[k] == r.value;
      assert Takes(gs[k], x);
    }
    if t.Some? {
      assert t.value in fs;
      var j :| 0 <= j < |fs| && fs[j] == t.value && Takes(fs[j], x);
      var i :| 0 <= i < |fs| && fs[i] == r.value && Takes(fs[i], x);
      OnlyOne(fs, x, i, j);
    }
  }

  // ------------------------------------------------------------------ transmission

  const VXLAN_SRCPORT_BASE := 0xC000
  const VXLAN_SRCPORT_MASK := 0x3FFF

  /** The frame around a payload.  Checksums are given; the source port of VXLAN comes from a counter. */
  function Transmit(loc: Locator, payload: Bytes, checksum: nat, counter: nat): (x: Bytes)
    requires Shape(loc)
  {
    var c := Classify(loc);
    if c.etherType == 0 then
      payload
    else
      var l2 := EtherVlanHdr(loc.local, loc.remote, loc.vlan, c.etherType);
      if !c.udp then
        l2 + payload
      else
        var inner := if c.vxlan then VxlanHdr(loc.vxlan) + EtherVlanHdr(loc.innerLocal, loc.innerRemote, 0, ETHER_TYPE_NDN) else [];
        var src := if c.vxlan then VXLAN_SRCPORT_BASE + counter % (VXLAN_SRCPORT_MASK + 1) else loc.localUDP;
        var n := UDP_LEN + |inner| + |payload|;
        if c.v4 then
          l2 + Ipv4Hdr(loc.localIP, loc.remoteIP, IPV4_LEN + n, checksum) + UdpHdr(src, loc.remoteUDP, n, 0) + inner + payload
        else
          l2 + Ipv6Hdr(loc.localIP, loc.remoteIP, n) + UdpHdr(src, loc.remoteUDP, n, checksum) + inner + payload
  }

  /** The locator of the other end; a multicast group has the same one for every member. */
  predicate Mirrors(loc: Locator, peer: Locator) {
    var c, d := Classify(loc), Classify(peer);
    && loc.vlan == peer.vlan && loc.vxlan == peer.vxlan && c.udp == d.udp && c.vxlan == d.vxlan
    && if c.multicast then
      peer.remote == loc.remote
    else
      && peer.local == loc.remote && peer.remote == loc.local
      && peer.localIP == loc.remoteIP && peer.remoteIP == loc.localIP
      && peer.localUDP == loc.remoteUDP && peer.remoteUDP == loc.localUDP
      && peer.innerLocal == loc.innerRemote && peer.innerRemote == loc.innerLocal
  }

  lemma MirrorClass(loc: Locator, peer: Locator)
    requires Valid(loc) && Valid(peer) && Mirrors(loc, peer)
    ensures Classify(peer) == Classify(loc)
  {
    if !Classify(loc).udp {
      assert loc.remoteIP[10] == 0 && peer.remoteIP[10] == 0;
    }
  }

  /** A frame with the right link layer header has the right tag. */
  lemma TagThere(loc: Locator, x: Bytes)
    requires Valid(loc) && HasL2(loc, x)
    ensures TagMatches(loc, x)
  {
    hide ToBe, Be;
    VlanBe(loc.vlan);
  }

  lemma TxMulticast(loc: Locator, peer: Locator, payload: Bytes)
    requires Valid(loc) && Valid(peer) && Mirrors(loc, peer) && Classify(loc).multicast
    ensures var x := Transmit(loc, payload, 0, 0); |x| >= L2Len(peer) && Belongs(peer, x) && x[L2Len(peer)..] == payload
  {
    hide ToBe, Be, Field, EtherVlanHdr, IsV4, TagMatches;
    MirrorClass(loc, peer);
    // the frame as one of a unicast locator with the group as its own address
    var there := loc.(local := loc.remote, remote := loc.local);
    assert loc.remote[0] != 0;
    assert Classify(there).etherType == Classify(loc).etherType;
    TemplateL2(there, payload);
    var x := Transmit(loc, payload, 0, 0);
    FirstByte(x, loc.remote);
    TagSame(there, peer, x);
  }

  lemma TagSame(there: Locator, peer: Locator, x: Bytes)
    requires Shape(there) && Valid(peer) && HasL2(there, x) && there.vlan == peer.vlan && Classify(there).etherType == Classify(peer).etherType
    ensures TagMatches(peer, x)
  {
    hide ToBe, Be;
    VlanBe(peer.vlan);
  }

  lemma TxEther(loc: Locator, peer: Locator, payload: Bytes)
    requires Valid(loc) && Valid(peer) && Mirrors(loc, peer) && !Classify(loc).multicast && !Classify(loc).udp
    ensures var x := Transmit(loc, payload, 0, 0); |x| >= L2Len(peer) && Belongs(peer, x) && x[L2Len(peer)..] == payload
  {
    hide ToBe, Be, Field, EtherVlanHdr, IsV4, TagMatches, IsZero, IsMulticast;
    MirrorClass(loc, peer);
    TemplateL2(peer, payload);
    TagThere(peer, Transmit(loc, payload, 0, 0));
  }

  function TxL3(loc: Locator, n: nat, checksum: nat): (b: Bytes)
    requires Shape(loc)
  {
    if Classify(loc).v4 then Ipv4Hdr(loc.localIP, loc.remoteIP, IPV4_LEN + n, checksum) else Ipv6Hdr(loc.localIP, loc.remoteIP, n)
  }

  lemma TxL3Tail(loc: Locator, n: nat, checksum: nat)
    requires Shape(loc)
    ensures var k := if Classify(loc).v4 then 4 else 16; var b := TxL3(loc, n, checksum);
      |b| == L3Len(loc) && b[L3Len(loc) - 2 * k..] == loc.localIP[16 - k..] + loc.remoteIP[16 - k..]
  {
    hide ToBe;
  }

  /** Addresses and ports as the peer looks at them. */
  lemma TxL4(loc: Locator, l2: Bytes, n: nat, checksum: nat, src: nat, ulen: nat, cksum: nat, rest: Bytes)
    requires Shape(loc) && |l2| == L2Len(loc)
    ensures var x := l2 + TxL3(loc, n, checksum) + UdpHdr(src, loc.remoteUDP, ulen, cksum) + rest;
      var k := if Classify(loc).v4 then 4 else 16;
      var udp := L2Len(loc) + L3Len(loc);
      && |x| == udp + UDP_LEN + |rest| && x[udp + UDP_LEN..] == rest
      && Field(x, udp - 2 * k, k) == loc.localIP[16 - k..] && Field(x, udp - k, k) == loc.remoteIP[16 - k..]
      && Field(x, udp, 2) == ToBe(src, 2) && Field(x, udp + 2, 2) == ToBe(loc.remoteUDP, 2)
  {
    hide ToBe, TxL3, Field, IsV4;
    TxL3Tail(loc, n, checksum);
    var k := if Classify(loc).v4 then 4 else 16;
    var l3 := TxL3(loc, n, checksum);
    var fixed, a, b := l3[..L3Len(loc) - 2 * k], loc.localIP[16 - k..], loc.remoteIP[16 - k..];
    assert l3 == fixed + (a + b);
    var p, q, z := ToBe(src, 2), ToBe(loc.remoteUDP, 2), ToBe(ulen, 2) + ToBe(cksum, 2);
    L4Fields(l2, fixed, a, b, p, q, z + rest);
    assert l2 + l3 + UdpHdr(src, loc.remoteUDP, ulen, cksum) + rest == l2 + (fixed + (a + b)) + (p + q + (z + rest));
  }

  /** The parts of a UDP frame. */
  lemma UdpParts(loc: Locator, payload: Bytes, checksum: nat, counter: nat, l2: Bytes, inner: Bytes, src: nat, n: nat, cksum: nat)
    requires Valid(loc) && Classify(loc).udp
    requires l2 == EtherVlanHdr(loc.local, loc.remote, loc.vlan, Classify(loc).etherType)
    requires inner == if Classify(loc).vxlan then VxlanHdr(loc.vxlan) + EtherVlanHdr(loc.innerLocal, loc.innerRemote, 0, ETHER_TYPE_NDN) else []
    requires src == if Classify(loc).vxlan then VXLAN_SRCPORT_BASE + counter % (VXLAN_SRCPORT_MASK + 1) else loc.localUDP
    requires n == UDP_LEN + |inner| + |payload| && cksum == if Classify(loc).v4 then 0 else checksum
    ensures Transmit(loc, payload, checksum, counter) == l2 + TxL3(loc, n, checksum) + UdpHdr(src, loc.remoteUDP, n, cksum) + inner + payload
  {
    hide ToBe, EtherVlanHdr, UdpHdr, VxlanHdr, IsV4, IsZero, IsMulticast, Ipv4Hdr, Ipv6Hdr;
  }

  lemma Regroup(a: Bytes, b: Bytes, c: Bytes, d: Bytes, e: Bytes)
    ensures a + b + c + d + e == a + (b + c + d + e) == a + b + c + (d + e)
  {
  }

  lemma TxUdp(loc: Locator, peer: Locator, payload: Bytes, checksum: nat, counter: nat)
    requires Valid(loc) && Valid(peer) && Mirrors(loc, peer) && Classify(loc).udp
    ensures var x := Transmit(loc, payload, checksum, counter); |x| >= HeaderLen(peer) && Belongs(peer, x) && x[HeaderLen(peer)..] == payload
  {
    hide ToBe, Be, Field, EtherVlanHdr, UdpHdr, VxlanHdr, IsV4, IsZero, IsMulticast, TagMatches, HasL2, HasInner, Transmit, TxL3, InnerMatches, HeaderLen;
    MirrorClass(loc, peer);
    var c := Classify(loc);
    var l2 := EtherVlanHdr(loc.local, loc.remote, loc.vlan, c.etherType);
    var inner := if c.vxlan then VxlanHdr(loc.vxlan) + EtherVlanHdr(loc.innerLocal, loc.innerRemote, 0, ETHER_TYPE_NDN) else [];
    var src := if c.vxlan then VXLAN_SRCPORT_BASE + counter % (VXLAN_SRCPORT_MASK + 1) else loc.localUDP;
    var n := UDP_LEN + |inner| + |payload|;
    var cksum := if c.v4 then 0 else checksum;
    UdpParts(loc, payload, checksum, counter, l2, inner, src, n, cksum);
    var l3, udp := TxL3(loc, n, checksum), UdpHdr(src, loc.remoteUDP, n, cksum);
    var x := l2 + l3 + udp + inner + payload;
    Regroup(l2, l3, udp, inner, payload);
    TemplateL2(peer, l3 + udp + inner + payload);
    TagThere(peer, x);
    MacsThere(peer, x);
    TxL4(loc, l2, n, checksum, src, n, cksum, inner + payload);
    TxL3Tail(loc, n, checksum);
    UdpSize(src, loc.remoteUDP, n, cksum);
    TxInner(loc, peer, l2 + l3 + udp, inner, payload);
  }

  lemma UdpSize(src: nat, dst: nat, n: nat, cksum: nat)
    ensures |UdpHdr(src, dst, n, cksum)| == UDP_LEN
  {
  }

  lemma MacsThere(peer: Locator, x: Bytes)
    requires Shape(peer) && HasL2(peer, x)
    ensures Field(x, 0, 6) == peer.local && Field(x, 6, 6) == peer.remote
  {
  }

  lemma TxInner(loc: Locator, peer: Locator, l4: Bytes, inner: Bytes, payload: Bytes)
    requires Valid(loc) && Valid(peer) && Mirrors(loc, peer) && Classify(loc).udp && |l4| == L2Len(peer) + L3Len(peer) + UDP_LEN
    requires inner == if Classify(loc).vxlan then VxlanHdr(loc.vxlan) + EtherVlanHdr(loc.innerLocal, loc.innerRemote, 0, ETHER_TYPE_NDN) else []
    ensures var x := l4 + inner + payload; (Classify(peer).vxlan ==> InnerMatches(peer, x)) && |x| >= HeaderLen(peer) && x[HeaderLen(peer)..] == payload
  {
    hide ToBe, Be, Field, EtherVlanHdr, VxlanHdr, IsV4, IsZero, IsMulticast;
    MirrorClass(loc, peer);
    InnerLen(peer);
    if Classify(peer).vxlan {
      TemplateInner(peer, l4, payload);
      assert l4 + VxlanHdr(loc.vxlan) + EtherVlanHdr(loc.innerLocal, loc.innerRemote, 0, ETHER_TYPE_NDN) + payload == l4 + inner + payload;
      InnerThere(peer, l4 + inner + payload);
    }
  }

  lemma InnerThere(peer: Locator, x: Bytes)
    requires Valid(peer) && HasInner(peer, x)
    ensures InnerMatches(peer, x)
  {
    hide ToBe, Be, IsV4, IsZero, IsMulticast;
    var at := L2Len(peer) + L3Len(peer) + UDP_LEN;
    FieldPrefix(x, at + 4);
    VniThree(peer.vxlan);
  }

  lemma VniThree(vni: nat)
    ensures ToBe(vni * 256, 4)[..3] == ToBe(vni, 3)
  {
    assert vni * 256 / 256 == vni;
  }

  /** A transmitted frame is accepted at the other end, and stripping the header gives back the payload. */
  lemma TransmitAccepted(loc: Locator, peer: Locator, payload: Bytes, checksum: nat, counter: nat)
    requires Valid(loc) && Valid(peer) && Mirrors(loc, peer)
    ensures var x, m := Transmit(loc, payload, checksum, counter), PrepareMatch(peer);
      Matches(m, x) && m.len <= |x| && x[m.len..] == payload
  {
    hide Matches, PrepareMatch, Belongs, Transmit, HasL2, HasL4, HasInner, IsV4, IsZero, IsMulticast, Classify, L2Len;
    Prepared(peer);
    MirrorClass(loc, peer);
    var x := Transmit(loc, payload, checksum, counter);
    MatchesExactly(peer, x);
    if Classify(loc).udp {
      TxUdp(loc, peer, payload, checksum, counter);
    } else {
      NoChecksum(loc, payload, checksum, counter);
      if Classify(loc).multicast {
        TxMulticast(loc, peer, payload);
      } else {
        TxEther(loc, peer, payload);
      }
    }
  }

  lemma NoChecksum(loc: Locator, payload: Bytes, checksum: nat, counter: nat)
    requires Shape(loc) && !Classify(loc).udp
    ensures Transmit(loc, payload, checksum, counter) == Transmit(loc, payload, 0, 0)
  {
  }
}
