/** The packet classifier `decode` of libpcapcapture/packet.cpp and its global counters. */
module Decode {
  import opened Words
  import opened Text
  import opened Names
  import opened Tables
  import opened Checksum

  const ETH_LEN: nat := 14
  const ETHERTYPE_VLAN: u16 := 0x8100
  const ETH_P_IP: u16 := 0x0800

  type Frame = seq<u8>

  datatype Status =
    | Valid
    | NonIp
    | IpNotFull
    | IpVerFail
    | IpChksumFail
    | IpFrag
    | TcpNotFull
    | UdpNotFull
    | IcmpNotFull
    | Undefined
    | NonGtp
    | NonGprs

  // ---------- reading the frame ----------

  /** A 16-bit load on a little-endian host. */
  function Load16(pkt: Frame, at: nat): u16
    requires at + 2 <= |pkt|
  {
    var high: int := pkt[at + 1];
    pkt[at] + 0x100 * high
  }

  function Load32(pkt: Frame, at: nat): u32
    requires at + 4 <= |pkt|
  {
    FromOctets(pkt[at], pkt[at + 1], pkt[at + 2], pkt[at + 3])
  }

  /** A 16-bit field in network order. */
  function Net16(pkt: Frame, at: nat): u16
    requires at + 2 <= |pkt|
  {
    Swap16(Load16(pkt, at))
  }

  function EtherType(pkt: Frame): u16
    requires |pkt| >= ETH_LEN
  {
    Net16(pkt, 12)
  }

  /** Where the IP header starts. */
  function IpAt(pkt: Frame): nat
    requires |pkt| >= ETH_LEN
  {
    if EtherType(pkt) == ETHERTYPE_VLAN then 18 else ETH_LEN
  }

  /** The claimed IP header length in bytes. */
  function HeaderBytes(pkt: Frame): nat
    requires |pkt| >= 20
  {
    4 * (pkt[IpAt(pkt)] % 16)
  }

  function Protocol(pkt: Frame): u8
    requires |pkt| >= 50
  {
    pkt[IpAt(pkt) + 9]
  }

  /** Where the transport header starts. */
  function TransportAt(pkt: Frame): nat
    requires |pkt| >= 50
  {
    IpAt(pkt) + HeaderBytes(pkt)
  }

  /** The buffer is long enough for every field `decode` looks at. */
  predicate Readable(pkt: Frame) {
    && |pkt| >= 50
    && |pkt| >= TransportAt(pkt)
    && (Protocol(pkt) == IPPROTO_TCP ==> |pkt| >= TransportAt(pkt) + 14)
    && (Protocol(pkt) == IPPROTO_UDP ==> |pkt| >= TransportAt(pkt) + 4)
  }

  /** TCP, UDP and ICMP headers are checked for; other protocols have none as far as `decode` is concerned. */
  predicate HasTransport(pkt: Frame)
    requires |pkt| >= 50
  {
    Protocol(pkt) == IPPROTO_TCP || Protocol(pkt) == IPPROTO_UDP || Protocol(pkt) == IPPROTO_ICMP
  }

  /** The transport header length the packet claims. */
  function TransportBytes(pkt: Frame): nat
    requires Readable(pkt)
  {
    if Protocol(pkt) == IPPROTO_TCP then 4 * (pkt[TransportAt(pkt) + 12] / 16)
    else if HasTransport(pkt) then 8
    else 0
  }

  /** `n` words from `at` on as the host loads them. */
  function HostWords(pkt: Frame, at: nat, n: nat): (ws: seq<u16>)
    requires at + 2 * n <= |pkt|
    ensures |ws| == n
  {
    if n == 0 then [] else HostWords(pkt, at, n - 1) + [Load16(pkt, at + 2 * (n - 1))]
  }

  /** The same words in network order. */
  function NetWords(pkt: Frame, at: nat, n: nat): (ws: seq<u16>)
    requires at + 2 * n <= |pkt|
    ensures |ws| == n
  {
    if n == 0 then [] else NetWords(pkt, at, n - 1) + [Net16(pkt, at + 2 * (n - 1))]
  }

  lemma {:induction false} NetWordsSwap(pkt: Frame, at: nat, n: nat)
    requires at + 2 * n <= |pkt|
    ensures NetWords(pkt, at, n) == SwapAll(HostWords(pkt, at, n))
  {
    if n > 0 {
      NetWordsSwap(pkt, at, n - 1);
      var ws := HostWords(pkt, at, n);
      assert ws[..n - 1] == HostWords(pkt, at, n - 1);
    }
  }

  // ---------- the checks ----------

  /** `(int)len` for `uint32_t len = cap_len - eth_len`. */
  function SignedRest(pkt: Frame, capLen: u32): int
    requires |pkt| >= ETH_LEN
  {
    var len := (capLen - IpAt(pkt)) % U32;
    if len > INT_MAX then len - U32 else len
  }

  predicate HeaderChecks(pkt: Frame)
    requires Readable(pkt)
  {
    InternetChecksum(HostWords(pkt, IpAt(pkt), HeaderBytes(pkt) / 2)) == 0
  }

  /** The status is that of the last check that fails. */
  function StatusOf(pkt: Frame, capLen: u32): Status
    requires Readable(pkt)
  {
    var rest := SignedRest(pkt, capLen);
    if HasTransport(pkt) && rest < HeaderBytes(pkt) + TransportBytes(pkt) then
      (if Protocol(pkt) == IPPROTO_TCP then TcpNotFull
       else if Protocol(pkt) == IPPROTO_UDP then UdpNotFull
       else IcmpNotFull)
    else if !HeaderChecks(pkt) then IpChksumFail
    else if pkt[IpAt(pkt)] / 16 != 4 then IpVerFail
    else if rest < HeaderBytes(pkt) then IpNotFull
    else if EtherType(pkt) != ETHERTYPE_VLAN && EtherType(pkt) != ETH_P_IP then NonIp
    else Valid
  }

  /** A packet is valid exactly when it claims IP (or a VLAN tag), version 4, carries a correct header checksum in the
      sense of RFC 1071 on words in network order, and the headers it claims lie within the captured bytes, of which at
      most 2^31 - 1 may follow the link header: no wrap-around of the unsigned length lets a packet through. */
  lemma ValidIff(pkt: Frame, capLen: u32)
    requires Readable(pkt)
    ensures StatusOf(pkt, capLen) == Valid <==>
            && (EtherType(pkt) == ETHERTYPE_VLAN || EtherType(pkt) == ETH_P_IP)
            && pkt[IpAt(pkt)] / 16 == 4
            && InternetChecksum(NetWords(pkt, IpAt(pkt), HeaderBytes(pkt) / 2)) == 0
            && TransportAt(pkt) <= capLen
            && (pkt[IpAt(pkt) + 9] == 6 ==> TransportAt(pkt) + 4 * (pkt[TransportAt(pkt) + 12] / 16) <= capLen)
            && (pkt[IpAt(pkt) + 9] == 17 || pkt[IpAt(pkt) + 9] == 1 ==> TransportAt(pkt) + 8 <= capLen)
            && capLen - IpAt(pkt) <= 0x7FFF_FFFF
  {
    hide InternetChecksum, HostWords, NetWords;
    NetWordsSwap(pkt, IpAt(pkt), HeaderBytes(pkt) / 2);
    ByteOrderIndependence(HostWords(pkt, IpAt(pkt), HeaderBytes(pkt) / 2));
    RestFits(pkt, capLen, HeaderBytes(pkt));
    RestFits(pkt, capLen, HeaderBytes(pkt) + TransportBytes(pkt));
  }

  /** `n` bytes from `at` on were captured, and the captured rest is not so long that its length reads as negative. */
  predicate Captured(at: nat, n: nat, capLen: u32) {
    at + n <= capLen && capLen - at <= 0x7FFF_FFFF
  }

  /** Where the IP header lies and how long it claims to be, in the bytes of the frame. */
  lemma HeaderPlace(pkt: Frame)
    requires Readable(pkt)
    ensures IpAt(pkt) == if pkt[12] == 0x81 && pkt[13] == 0x00 then 18 else 14
    ensures HeaderBytes(pkt) == 4 * (pkt[IpAt(pkt)] % 16) && TransportAt(pkt) == IpAt(pkt) + HeaderBytes(pkt)
  {
    TypeBytes(pkt);
  }

  /** How much buffer `decode` needs. */
  lemma ReadableMeans(pkt: Frame)
    ensures Readable(pkt) <==>
            && |pkt| >= 50
            && var at := if pkt[12] == 0x81 && pkt[13] == 0x00 then 18 else 14;
               var header := 4 * (pkt[at] % 16);
               && |pkt| >= at + header
               && (pkt[at + 9] == 6 ==> |pkt| >= at + header + 14)
               && (pkt[at + 9] == 17 ==> |pkt| >= at + header + 4)
  {
    if |pkt| >= 50 {
      TypeBytes(pkt);
    }
  }

  /** A transport header that is cut off decides the status, whatever else is wrong: TCP's with the length it claims,
      UDP's and ICMP's with 8 bytes. */
  lemma CutTransport(pkt: Frame, capLen: u32)
    requires Readable(pkt)
    ensures var at, header := IpAt(pkt), HeaderBytes(pkt);
            var status := StatusOf(pkt, capLen);
            && (status == TcpNotFull <==>
                  pkt[at + 9] == 6 && !Captured(at, header + 4 * (pkt[at + header + 12] / 16), capLen))
            && (status == UdpNotFull <==> pkt[at + 9] == 17 && !Captured(at, header + 8, capLen))
            && (status == IcmpNotFull <==> pkt[at + 9] == 1 && !Captured(at, header + 8, capLen))
  {
    hide InternetChecksum, HostWords, EtherType, IpAt, HeaderBytes;
    RestFits(pkt, capLen, HeaderBytes(pkt) + TransportBytes(pkt));
  }

  /** When each other status arises: a wrong checksum outranks a wrong version, that a cut IP header, and that a foreign
      EtherType. The remaining statuses never arise. */
  lemma StatusMeans(pkt: Frame, capLen: u32)
    requires Readable(pkt)
    ensures var vlan, ip := pkt[12] == 0x81 && pkt[13] == 0x00, pkt[12] == 0x08 && pkt[13] == 0x00;
            var at, header := IpAt(pkt), HeaderBytes(pkt);
            var status := StatusOf(pkt, capLen);
            var whole := status != TcpNotFull && status != UdpNotFull && status != IcmpNotFull;
            var sound := InternetChecksum(NetWords(pkt, at, header / 2)) == 0;
            var four := pkt[at] / 16 == 4;
            var fits := Captured(at, header, capLen);
            && (status == IpChksumFail <==> whole && !sound)
            && (status == IpVerFail <==> whole && sound && !four)
            && (status == IpNotFull <==> whole && sound && four && !fits)
            && (status == NonIp <==> whole && sound && four && fits && !vlan && !ip)
            && (status == Valid <==> whole && sound && four && fits && (vlan || ip))
  {
    hide InternetChecksum, HostWords, NetWords, EtherType, IpAt, HeaderBytes;
    TypeBytes(pkt);
    NetWordsSwap(pkt, IpAt(pkt), HeaderBytes(pkt) / 2);
    ByteOrderIndependence(HostWords(pkt, IpAt(pkt), HeaderBytes(pkt) / 2));
    RestFits(pkt, capLen, HeaderBytes(pkt));
  }

  lemma TypeBytes(pkt: Frame)
    requires |pkt| >= ETH_LEN
    ensures EtherType(pkt) == ETHERTYPE_VLAN <==> pkt[12] == 0x81 && pkt[13] == 0x00
    ensures EtherType(pkt) == ETH_P_IP <==> pkt[12] == 0x08 && pkt[13] == 0x00
  {
    Net16Bytes(pkt, 12);
  }

  lemma Net16Bytes(pkt: Frame, at: nat)
    requires at + 2 <= |pkt|
    ensures Net16(pkt, at) == 0x100 * (pkt[at] as int) + pkt[at + 1]
  {
    LowByte(pkt[at], pkt[at + 1]);
  }

  /** A word in network order is the first byte high, the second low. */
  lemma {:induction false} NetWordsBytes(pkt: Frame, at: nat, n: nat, i: nat)
    requires at + 2 * n <= |pkt| && i < n
    ensures NetWords(pkt, at, n)[i] == 0x100 * (pkt[at + 2 * i] as int) + pkt[at + 2 * i + 1]
  {
    if i < n - 1 {
      NetWordsBytes(pkt, at, n - 1, i);
    } else {
      Net16Bytes(pkt, at + 2 * i);
    }
  }

  /** The signed remainder reaches a bound exactly when that many bytes were captured and the sign bit is clear. */
  lemma RestFits(pkt: Frame, capLen: u32, n: nat)
    requires |pkt| >= ETH_LEN
    ensures n <= SignedRest(pkt, capLen) <==> IpAt(pkt) + n <= capLen && capLen - IpAt(pkt) <= INT_MAX
  {
  }

  /** A header of no words does not check, so a valid packet claims at least one word of header. */
  lemma ValidHasHeader(pkt: Frame, capLen: u32)
    requires Readable(pkt) && StatusOf(pkt, capLen) == Valid
    ensures HeaderBytes(pkt) >= 4
  {
    if HeaderBytes(pkt) == 0 {
      assert HostWords(pkt, IpAt(pkt), 0) == [];
      assert OnesSum([]) == 0;
    }
  }

  // ---------- what a valid packet is decoded to ----------

  function FlowOf(pkt: Frame): Flow
    requires Readable(pkt)
  {
    var at := IpAt(pkt);
    var ports := Protocol(pkt) == IPPROTO_TCP || Protocol(pkt) == IPPROTO_UDP;
    Flow(Load32(pkt, at + 12), Load32(pkt, at + 16),
         if ports then Net16(pkt, TransportAt(pkt)) else 0,
         if ports then Net16(pkt, TransportAt(pkt) + 2) else 0)
  }

  /** The flow of a packet in the bytes of its frame: addresses as they lie in memory, ports for TCP and UDP only. */
  lemma FlowBytes(pkt: Frame)
    requires Readable(pkt)
    ensures var at, header := IpAt(pkt), HeaderBytes(pkt);
            var f := FlowOf(pkt);
            && f.sip == FromOctets(pkt[at + 12], pkt[at + 13], pkt[at + 14], pkt[at + 15])
            && f.dip == FromOctets(pkt[at + 16], pkt[at + 17], pkt[at + 18], pkt[at + 19])
            && (pkt[at + 9] == 6 || pkt[at + 9] == 17 ==>
                  && f.sport == 0x100 * (pkt[at + header] as int) + pkt[at + header + 1]
                  && f.dport == 0x100 * (pkt[at + header + 2] as int) + pkt[at + header + 3])
            && (pkt[at + 9] != 6 && pkt[at + 9] != 17 ==> f.sport == f.dport == 0)
  {
    hide Net16, FromOctets, IpAt, HeaderBytes;
    if Protocol(pkt) == IPPROTO_TCP || Protocol(pkt) == IPPROTO_UDP {
      Net16Bytes(pkt, TransportAt(pkt));
      Net16Bytes(pkt, TransportAt(pkt) + 2);
    }
  }

  /** Four bytes, printed as a dotted quad in the order they are stored. */
  function QuadAt(bytes: seq<u8>, at: nat): string
    requires at + 4 <= |bytes|
  {
    Join([ToString(bytes[at]), ToString(bytes[at + 1]), ToString(bytes[at + 2]), ToString(bytes[at + 3])], '.')
  }

  /** The addresses printed into names are the four address bytes of the header, in wire order. */
  lemma NamesShowAddresses(pkt: Frame)
    requires Readable(pkt)
    ensures var at := IpAt(pkt);
            && Source(FlowOf(pkt)) == QuadAt(pkt, at + 12)
            && Destination(FlowOf(pkt)) == QuadAt(pkt, at + 16)
  {
    hide Join, ToString, Swap32, FromOctets, Octet;
    var at := IpAt(pkt);
    WireOrder(pkt[at + 12], pkt[at + 13], pkt[at + 14], pkt[at + 15]);
    WireOrder(pkt[at + 16], pkt[at + 17], pkt[at + 18], pkt[at + 19]);
  }

  lemma WireOrder(a: u8, b: u8, c: u8, d: u8)
    ensures var x := Swap32(FromOctets(a, b, c, d));
            Octet(x, 3) == a && Octet(x, 2) == b && Octet(x, 1) == c && Octet(x, 0) == d
  {
    OctetsInverse(a, b, c, d);
    Swap32Reverses(FromOctets(a, b, c, d));
  }

  /** The ports printed into names are swapped once too often: a name shows a port number of the header exactly when
      the number's two bytes are equal. */
  lemma NamesShowPortsSwapped(pkt: Frame)
    requires Readable(pkt) && (Protocol(pkt) == IPPROTO_TCP || Protocol(pkt) == IPPROTO_UDP)
    ensures var port := Net16(pkt, TransportAt(pkt));
            SourcePort(FlowOf(pkt)) == ToString(port) <==> port / 0x100 == port % 0x100
    ensures var port := Net16(pkt, TransportAt(pkt) + 2);
            DestinationPort(FlowOf(pkt)) == ToString(port) <==> port / 0x100 == port % 0x100
  {
    hide ToString, Swap16, Net16;
    SwappedPortShown(Net16(pkt, TransportAt(pkt)));
    SwappedPortShown(Net16(pkt, TransportAt(pkt) + 2));
  }

  lemma SwappedPortShown(port: u16)
    ensures ToString(Swap16(port)) == ToString(port) <==> port / 0x100 == port % 0x100
  {
    hide ToString, Value;
    ValueToString(port);
    ValueToString(Swap16(port));
    if Swap16(port) == port {
      LowByte(port / 0x100, port % 0x100);
    }
  }

  /** `ipSize`: the captured length without an untagged link header, as unsigned 32-bit arithmetic gives it. */
  function IpSize(capLen: u32): u64 {
    (capLen - ETH_LEN) % U32
  }

  lemma IpSizeMeans(capLen: u32)
    ensures IpSize(capLen) == if capLen >= 14 then capLen - 14 else capLen + 0x1_0000_0000 - 14
  {
  }

  /** The published content of a valid packet ends with the capture exactly when the frame is untagged; behind a VLAN
      tag it runs four bytes past it. */
  lemma ContentEndsWithCapture(pkt: Frame, capLen: u32)
    requires Readable(pkt) && StatusOf(pkt, capLen) == Valid
    ensures IpAt(pkt) + IpSize(capLen) == capLen + (if EtherType(pkt) == ETHERTYPE_VLAN then 4 else 0)
  {
    hide StatusOf, InternetChecksum, NetWords, TransportBytes, HeaderBytes;
    ValidIff(pkt, capLen);
  }

  // ---------- a frame that shows the difference ----------

  /** An IPv4 header: 32 bytes of UDP from 10.0.0.1 to 10.0.0.2. */
  const HEADER: seq<u8> := [0x45, 0, 0, 0x20, 0, 0, 0, 0, 0x40, IPPROTO_UDP, 0x66, 0xCB, 10, 0, 0, 1, 10, 0, 0, 2]

  /** The datagram behind it, sent from port 1234. */
  const DATAGRAM: seq<u8> := [0x04, 0xD2, 0x16, 0x2E, 0, 12, 0, 0, 1, 2, 3, 4]

  /** An untagged frame with that packet, 46 bytes long, in a buffer of 50. */
  function UntaggedFrame(): Frame {
    seq(12, _ => 0) + [0x08, 0] + HEADER + DATAGRAM + [0, 0, 0, 0]
  }

  /** A VLAN-tagged frame with that packet, captured in full. */
  function TaggedFrame(): Frame {
    seq(12, _ => 0) + [0x81, 0, 0, 7, 0x08, 0] + HEADER + DATAGRAM
  }

  /** The words of that header as the host loads them. */
  const HEADER_WORDS: seq<u16> := [0x0045, 0x2000, 0, 0, 0x1140, 0xCB66, 0x000A, 0x0100, 0x000A, 0x0200]

  lemma HeaderWord(n: nat)
    requires n < 10
    ensures Load16(HEADER, 2 * n) == HEADER_WORDS[n]
  {
  }

  lemma {:induction false} HeaderLoads(pkt: Frame, at: nat, n: nat)
    requires n <= 10 && at + 20 <= |pkt| && pkt[at..at + 20] == HEADER
    ensures HostWords(pkt, at, n) == HEADER_WORDS[..n]
  {
    hide Load16;
    if n > 0 {
      HeaderLoads(pkt, at, n - 1);
      SameLoad(pkt, at, 2 * (n - 1));
      HeaderWord(n - 1);
    }
  }

  lemma SameLoad(pkt: Frame, at: nat, i: nat)
    requires i < 19 && at + 20 <= |pkt| && pkt[at..at + 20] == HEADER
    ensures Load16(pkt, at + i) == Load16(HEADER, i)
  {
    assert pkt[at + i] == pkt[at..at + 20][i] && pkt[at + i + 1] == pkt[at..at + 20][i + 1];
  }

  lemma HeaderSum(pkt: Frame, at: nat)
    requires at + 20 <= |pkt| && pkt[at..at + 20] == HEADER
    ensures InternetChecksum(HostWords(pkt, at, 10)) == 0
  {
    HeaderLoads(pkt, at, 10);
    var ws := HEADER_WORDS;
    assert ws[..10] == ws && OnesSum(ws[..0]) == 0;
    hide OnesSum, HostWords;
    OnesSumNext(ws, 0);
    OnesSumNext(ws, 1);
    OnesSumNext(ws, 2);
    OnesSumNext(ws, 3);
    OnesSumNext(ws, 4);
    OnesSumNext(ws, 5);
    OnesSumNext(ws, 6);
    OnesSumNext(ws, 7);
    OnesSumNext(ws, 8);
    OnesSumNext(ws, 9);
  }

  lemma TaggedFrameReads() returns (f: Frame)
    ensures f == TaggedFrame() && |f| == 50 && EtherType(f) == ETHERTYPE_VLAN && f[18] == 0x45 && f[27] == IPPROTO_UDP
    ensures f[18..38] == HEADER && Net16(f, 38) == 1234
  {
    f := TaggedFrame();
  }

  lemma TaggedFrameValid() returns (f: Frame)
    ensures f == TaggedFrame() && |f| == 50 && Readable(f) && EtherType(f) == ETHERTYPE_VLAN
    ensures TransportAt(f) == 38 && Net16(f, 38) == 1234 && Protocol(f) == IPPROTO_UDP
    ensures StatusOf(f, 50) == Valid
  {
    hide InternetChecksum, HostWords, TaggedFrame, Net16;
    f := TaggedFrameReads();
    HeaderSum(f, 18);
  }

  lemma PortText(port: u16)
    requires port == 1234
    ensures ToString(Swap16(port)) == "53764"
  {
    assert Swap16(port) == 53764;
    assert ToString(5) == "5" && ToString(53) == "53" && ToString(537) == "537" && ToString(5376) == "5376";
  }

  lemma UntaggedFrameReads() returns (f: Frame)
    ensures f == UntaggedFrame() && |f| == 50 && EtherType(f) == ETH_P_IP && f[14] == 0x45 && f[23] == IPPROTO_UDP
    ensures f[14..34] == HEADER && Net16(f, 34) == 1234
  {
    f := UntaggedFrame();
  }

  lemma UntaggedFrameValid() returns (f: Frame)
    ensures f == UntaggedFrame() && |f| == 50 && Readable(f) && EtherType(f) == ETH_P_IP
    ensures TransportAt(f) == 34 && Net16(f, 34) == 1234 && Protocol(f) == IPPROTO_UDP
    ensures StatusOf(f, 46) == Valid
  {
    hide InternetChecksum, HostWords, UntaggedFrame, Net16;
    f := UntaggedFrameReads();
    HeaderSum(f, 14);
  }

  /** The untagged frame is valid, and its names do not show the port it was sent from. */
  lemma UntaggedFrameMisread() returns (f: Frame)
    ensures f == UntaggedFrame() && Readable(f) && Protocol(f) == IPPROTO_UDP && StatusOf(f, 46) == Valid
    ensures EtherType(f) == ETH_P_IP && Net16(f, TransportAt(f)) == 1234
    ensures SourcePort(FlowOf(f)) == "53764"
  {
    hide StatusOf, UntaggedFrame, Net16, EtherType, Protocol, TransportAt, ToString, Swap16;
    f := UntaggedFrameValid();
    PortText(Net16(f, 34));
  }

  /** The tagged frame is valid, is published with four bytes from behind its capture, and its names do not show the
      port it was sent from. */
  lemma TaggedFrameMisread() returns (f: Frame)
    ensures f == TaggedFrame() && Readable(f) && Protocol(f) == IPPROTO_UDP && StatusOf(f, 50) == Valid
    ensures IpAt(f) + IpSize(50) == |f| + 4
    ensures Net16(f, TransportAt(f)) == 1234
    ensures SourcePort(FlowOf(f)) == "53764"
  {
    hide StatusOf, TaggedFrame, Net16, EtherType, Protocol, TransportAt, ToString, Swap16;
    f := TaggedFrameValid();
    PortText(Net16(f, 38));
  }

  // ---------- counters as functions of what was seen ----------

  datatype Observation = Observation(status: Status, capLen: u32, actLen: u32)

  function CountOf(seen: seq<Observation>, status: Status): nat {
    if seen == [] then 0 else CountOf(seen[..|seen| - 1], status) + if seen[|seen| - 1].status == status then 1 else 0
  }

  function CapBytes(seen: seq<Observation>): nat {
    if seen == [] then 0 else CapBytes(seen[..|seen| - 1]) + seen[|seen| - 1].capLen
  }

  function ActBytes(seen: seq<Observation>): nat {
    if seen == [] then 0 else ActBytes(seen[..|seen| - 1]) + seen[|seen| - 1].actLen
  }

  /** The observations of valid packets. */
  function ValidOnly(seen: seq<Observation>): seq<Observation> {
    if seen == [] then []
    else ValidOnly(seen[..|seen| - 1]) + if seen[|seen| - 1].status == Valid then [seen[|seen| - 1]] else []
  }

  lemma SeenAppend(seen: seq<Observation>, o: Observation)
    ensures CapBytes(seen + [o]) == CapBytes(seen) + o.capLen
    ensures ActBytes(seen + [o]) == ActBytes(seen) + o.actLen
    ensures ValidOnly(seen + [o]) == ValidOnly(seen) + if o.status == Valid then [o] else []
    ensures forall st :: CountOf(seen + [o], st) == CountOf(seen, st) + if o.status == st then 1 else 0
  {
    assert (seen + [o])[..|seen|] == seen;
  }

  /** Valid packets account for no more bytes than all packets. */
  lemma {:induction false} ValidBytesBounded(seen: seq<Observation>)
    ensures CapBytes(ValidOnly(seen)) <= CapBytes(seen) && ActBytes(ValidOnly(seen)) <= ActBytes(seen)
    ensures |ValidOnly(seen)| == CountOf(seen, Valid)
  {
    if seen != [] {
      var init, o := seen[..|seen| - 1], seen[|seen| - 1];
      ValidBytesBounded(init);
      SeenAppend(ValidOnly(init), o);
      assert ValidOnly(init) + [] == ValidOnly(init);
    }
  }

  // ---------- the statistics record ----------

  /** `struct PacketStat`, without the time stamps. Counters are 64 bits wide and wrap. */
  datatype PacketStat = PacketStat(
    totPktCnt: u64, totCapByteCnt: u64, totActByteCnt: u64,
    validPktCnt: u64, validCapByteCnt: u64, validActByteCnt: u64,
    nonIpCnt: u64, ipNotFullCnt: u64, ipVerFailCnt: u64, ipChksumFailCnt: u64, ipFragCnt: u64,
    tcpNotFullCnt: u64, udpNotFullCnt: u64, icmpNotFullCnt: u64, undefinedCnt: u64, nonGtpCnt: u64, nonGprsCnt: u64)

  function Cleared(): PacketStat { PacketStat(0, 0, 0, 0, 0, 0, 0, 0, 0, 0, 0, 0, 0, 0, 0, 0, 0) }

  const ALL_STATUSES: seq<Status> :=
    [Valid, NonIp, IpNotFull, IpVerFail, IpChksumFail, IpFrag,
     TcpNotFull, UdpNotFull, IcmpNotFull, Undefined, NonGtp, NonGprs]

  /** The counter kept for a status. */
  function Counter(stat: PacketStat, status: Status): u64 {
    match status
    case Valid => stat.validPktCnt
    case NonIp => stat.nonIpCnt
    case IpNotFull => stat.ipNotFullCnt
    case IpVerFail => stat.ipVerFailCnt
    case IpChksumFail => stat.ipChksumFailCnt
    case IpFrag => stat.ipFragCnt
    case TcpNotFull => stat.tcpNotFullCnt
    case UdpNotFull => stat.udpNotFullCnt
    case IcmpNotFull => stat.icmpNotFullCnt
    case Undefined => stat.undefinedCnt
    case NonGtp => stat.nonGtpCnt
    case NonGprs => stat.nonGprsCnt
  }

  function Wrap(n: nat): u64 { n % U64 }

  /** Up to 2^64 - 1 nothing is lost, and 2^64 further on the same is counted again. */
  lemma WrapPeriod(n: nat)
    ensures n < 0x1_0000_0000_0000_0000 ==> Wrap(n) == n
    ensures Wrap(n + 0x1_0000_0000_0000_0000) == Wrap(n)
  {
    WrapAdd(U64, n);
  }

  lemma WrapIsRemainder(n: nat)
    ensures Wrap(n) == n % 0x1_0000_0000_0000_0000
  {
  }

  lemma WrapAdd(x: nat, y: nat)
    ensures Wrap(Wrap(x) + y) == Wrap(x + y)
  {
    var q, z := x / U64, x % U64 + y;
    assert x + y == U64 * (q + z / U64) + z % U64;
  }

  /** Every counter is the function of the packets seen it is meant to be, modulo 2^64. */
  ghost predicate Counts(stat: PacketStat, seen: seq<Observation>) {
    && stat.totPktCnt == Wrap(|seen|)
    && stat.totCapByteCnt == Wrap(CapBytes(seen))
    && stat.totActByteCnt == Wrap(ActBytes(seen))
    && stat.validCapByteCnt == Wrap(CapBytes(ValidOnly(seen)))
    && stat.validActByteCnt == Wrap(ActBytes(ValidOnly(seen)))
    && (forall status :: Counter(stat, status) == Wrap(CountOf(seen, status)))
  }

  function SumCounters(stat: PacketStat, statuses: seq<Status>): nat {
    if statuses == [] then 0 else Counter(stat, statuses[0]) + SumCounters(stat, statuses[1..])
  }

  function SumCounts(seen: seq<Observation>, statuses: seq<Status>): nat {
    if statuses == [] then 0 else CountOf(seen, statuses[0]) + SumCounts(seen, statuses[1..])
  }

  function Occurrences(statuses: seq<Status>, status: Status): nat {
    if statuses == [] then 0 else (if statuses[0] == status then 1 else 0) + Occurrences(statuses[1..], status)
  }

  lemma {:induction false} SumCountsAppend(seen: seq<Observation>, o: Observation, statuses: seq<Status>)
    ensures SumCounts(seen + [o], statuses) == SumCounts(seen, statuses) + Occurrences(statuses, o.status)
  {
    if statuses != [] {
      SumCountsAppend(seen, o, statuses[1..]);
      SeenAppend(seen, o);
    }
  }

  lemma OccurrencesFrom(statuses: seq<Status>, i: nat, status: Status)
    requires i < |statuses|
    ensures Occurrences(statuses[i..], status) ==
            (if statuses[i] == status then 1 else 0) + Occurrences(statuses[i + 1..], status)
  {
    assert statuses[i..][1..] == statuses[i + 1..];
  }

  lemma {:induction false} OccurrencesOnce(statuses: seq<Status>, i: nat, k: nat)
    requires i <= k < |statuses|
    requires forall j :: 0 <= j < |statuses| && statuses[j] == statuses[k] ==> j == k
    ensures Occurrences(statuses[i..], statuses[k]) == 1
    decreases k - i
  {
    OccurrencesFrom(statuses, i, statuses[k]);
    if i < k {
      OccurrencesOnce(statuses, i + 1, k);
    } else {
      OccurrencesNone(statuses, i + 1, statuses[k]);
    }
  }

  lemma {:induction false} OccurrencesNone(statuses: seq<Status>, i: nat, status: Status)
    requires i <= |statuses| && forall j :: i <= j < |statuses| ==> statuses[j] != status
    ensures Occurrences(statuses[i..], status) == 0
    decreases |statuses| - i
  {
    if i < |statuses| {
      OccurrencesFrom(statuses, i, status);
      OccurrencesNone(statuses, i + 1, status);
    }
  }

  /** The position of a status in the list. */
  function PositionOf(status: Status): nat {
    match status
    case Valid => 0
    case NonIp => 1
    case IpNotFull => 2
    case IpVerFail => 3
    case IpChksumFail => 4
    case IpFrag => 5
    case TcpNotFull => 6
    case UdpNotFull => 7
    case IcmpNotFull => 8
    case Undefined => 9
    case NonGtp => 10
    case NonGprs => 11
  }

  lemma EachStatusOnce(status: Status)
    ensures Occurrences(ALL_STATUSES, status) == 1
  {
    hide Occurrences;
    var all := ALL_STATUSES;
    assert all[0..] == all;
    assert forall j :: 0 <= j < |all| ==> PositionOf(all[j]) == j;
    assert all[PositionOf(status)] == status;
    OccurrencesOnce(all, 0, PositionOf(status));
  }

  /** Every packet is counted under exactly one status. */
  lemma {:induction false} StatusesPartition(seen: seq<Observation>)
    ensures SumCounts(seen, ALL_STATUSES) == |seen|
  {
    hide SumCounts, Occurrences;
    if seen == [] {
      NothingCounted(ALL_STATUSES);
    } else {
      var n := |seen| - 1;
      StatusesPartition(seen[..n]);
      SumCountsAppend(seen[..n], seen[n], ALL_STATUSES);
      EachStatusOnce(seen[n].status);
      assert seen == seen[..n] + [seen[n]];
    }
  }

  lemma {:induction false} NothingCounted(statuses: seq<Status>)
    ensures SumCounts([], statuses) == 0
  {
    if statuses != [] {
      NothingCounted(statuses[1..]);
    }
  }

  lemma {:induction false} SumsWrapAlike(stat: PacketStat, seen: seq<Observation>, statuses: seq<Status>)
    requires Counts(stat, seen)
    ensures Wrap(SumCounters(stat, statuses)) == Wrap(SumCounts(seen, statuses))
  {
    hide Wrap, CountOf, Counter;
    if statuses != [] {
      var rest := statuses[1..];
      SumsWrapAlike(stat, seen, rest);
      WrapAdd(CountOf(seen, statuses[0]), SumCounters(stat, rest));
      WrapAdd(SumCounters(stat, rest), CountOf(seen, statuses[0]));
      WrapAdd(SumCounts(seen, rest), CountOf(seen, statuses[0]));
    }
  }

  lemma SumFrom(stat: PacketStat, statuses: seq<Status>, i: nat)
    requires i < |statuses|
    ensures SumCounters(stat, statuses[i..]) == Counter(stat, statuses[i]) + SumCounters(stat, statuses[i + 1..])
  {
    assert statuses[i..][1..] == statuses[i + 1..];
  }

  /** The status counters, added up. */
  function StatusTotal(stat: PacketStat): nat {
    stat.validPktCnt + stat.nonIpCnt + stat.ipNotFullCnt + stat.ipVerFailCnt + stat.ipChksumFailCnt + stat.ipFragCnt +
    stat.tcpNotFullCnt + stat.udpNotFullCnt + stat.icmpNotFullCnt + stat.undefinedCnt + stat.nonGtpCnt + stat.nonGprsCnt
  }

  lemma SumIsStatusTotal(stat: PacketStat)
    ensures SumCounters(stat, ALL_STATUSES) == StatusTotal(stat)
  {
    hide SumCounters, Counter;
    var all := ALL_STATUSES;
    assert all[0..] == all;
    SumFrom(stat, all, 0);
    SumFrom(stat, all, 1);
    SumFrom(stat, all, 2);
    SumFrom(stat, all, 3);
    SumFrom(stat, all, 4);
    SumFrom(stat, all, 5);
    LastSixSum(stat);
    FirstSixFields(stat);
  }

  lemma FirstSixFields(stat: PacketStat)
    ensures Counter(stat, Valid) == stat.validPktCnt && Counter(stat, NonIp) == stat.nonIpCnt
    ensures Counter(stat, IpNotFull) == stat.ipNotFullCnt && Counter(stat, IpVerFail) == stat.ipVerFailCnt
    ensures Counter(stat, IpChksumFail) == stat.ipChksumFailCnt && Counter(stat, IpFrag) == stat.ipFragCnt
  {
  }

  lemma LastSixFields(stat: PacketStat)
    ensures Counter(stat, TcpNotFull) == stat.tcpNotFullCnt && Counter(stat, UdpNotFull) == stat.udpNotFullCnt
    ensures Counter(stat, IcmpNotFull) == stat.icmpNotFullCnt && Counter(stat, Undefined) == stat.undefinedCnt
    ensures Counter(stat, NonGtp) == stat.nonGtpCnt && Counter(stat, NonGprs) == stat.nonGprsCnt
  {
  }

  lemma LastSixSum(stat: PacketStat)
    ensures SumCounters(stat, ALL_STATUSES[6..]) == stat.tcpNotFullCnt + stat.udpNotFullCnt + stat.icmpNotFullCnt +
                                                    stat.undefinedCnt + stat.nonGtpCnt + stat.nonGprsCnt
  {
    var all := ALL_STATUSES;
    assert SumCounters(stat, all[12..]) == 0;
    hide SumCounters, Counter;
    SumFrom(stat, all, 6);
    SumFrom(stat, all, 7);
    SumFrom(stat, all, 8);
    SumFrom(stat, all, 9);
    SumFrom(stat, all, 10);
    SumFrom(stat, all, 11);
    LastSixFields(stat);
  }

  /** Every field counts what its name says, as long as less than 2^64 has been counted. */
  lemma FieldsCount(stat: PacketStat, seen: seq<Observation>)
    requires Counts(stat, seen) && |seen| < 0x1_0000_0000_0000_0000
    ensures stat.totPktCnt == |seen|
    ensures stat.validPktCnt == CountOf(seen, Valid) && stat.nonIpCnt == CountOf(seen, NonIp)
    ensures stat.ipNotFullCnt == CountOf(seen, IpNotFull) && stat.ipVerFailCnt == CountOf(seen, IpVerFail)
    ensures stat.ipChksumFailCnt == CountOf(seen, IpChksumFail) && stat.ipFragCnt == CountOf(seen, IpFrag)
    ensures stat.tcpNotFullCnt == CountOf(seen, TcpNotFull) && stat.udpNotFullCnt == CountOf(seen, UdpNotFull)
    ensures stat.icmpNotFullCnt == CountOf(seen, IcmpNotFull) && stat.undefinedCnt == CountOf(seen, Undefined)
    ensures stat.nonGtpCnt == CountOf(seen, NonGtp) && stat.nonGprsCnt == CountOf(seen, NonGprs)
  {
    hide Wrap, CountOf, CapBytes, ActBytes, ValidOnly, Counter;
    WrapPeriod(|seen|);
    forall status ensures Counter(stat, status) == CountOf(seen, status) {
      CountBounded(seen, status);
      WrapPeriod(CountOf(seen, status));
    }
    FirstSixFields(stat);
    LastSixFields(stat);
  }

  lemma {:induction false} CountBounded(seen: seq<Observation>, status: Status)
    ensures CountOf(seen, status) <= |seen|
  {
    if seen != [] {
      CountBounded(seen[..|seen| - 1], status);
    }
  }

  /** Conservation: below 2^64 packets the total is the sum of the status counters, and in any case it is that sum
      modulo 2^64; while the byte totals have not wrapped they are exact, and valid bytes never exceed all bytes. */
  lemma CountersConserved(stat: PacketStat, seen: seq<Observation>)
    requires Counts(stat, seen)
    ensures stat.totPktCnt == StatusTotal(stat) % 0x1_0000_0000_0000_0000
    ensures |seen| < 0x1_0000_0000_0000_0000 ==> stat.totPktCnt == |seen| == StatusTotal(stat)
    ensures CapBytes(seen) < 0x1_0000_0000_0000_0000 ==>
              && stat.totCapByteCnt == CapBytes(seen)
              && stat.validCapByteCnt == CapBytes(ValidOnly(seen)) <= stat.totCapByteCnt
    ensures ActBytes(seen) < 0x1_0000_0000_0000_0000 ==>
              && stat.totActByteCnt == ActBytes(seen)
              && stat.validActByteCnt == ActBytes(ValidOnly(seen)) <= stat.totActByteCnt
  {
    hide Wrap, Counter, CountOf, CapBytes, ActBytes, ValidOnly, SumCounts, SumCounters, StatusTotal;
    StatusesPartition(seen);
    SumsWrapAlike(stat, seen, ALL_STATUSES);
    SumIsStatusTotal(stat);
    ValidBytesBounded(seen);
    WrapIsRemainder(StatusTotal(stat));
    if |seen| < 0x1_0000_0000_0000_0000 {
      WrapPeriod(|seen|);
      SameSums(stat, seen, ALL_STATUSES);
    }
    WrapPeriod(CapBytes(seen));
    WrapPeriod(CapBytes(ValidOnly(seen)));
    WrapPeriod(ActBytes(seen));
    WrapPeriod(ActBytes(ValidOnly(seen)));
  }

  lemma {:induction false} SameSums(stat: PacketStat, seen: seq<Observation>, statuses: seq<Status>)
    requires Counts(stat, seen) && |seen| < 0x1_0000_0000_0000_0000
    ensures SumCounters(stat, statuses) == SumCounts(seen, statuses)
  {
    hide Wrap, CountOf, CapBytes, ActBytes, ValidOnly;
    if statuses != [] {
      SameSums(stat, seen, statuses[1..]);
      CountBounded(seen, statuses[0]);
      WrapPeriod(CountOf(seen, statuses[0]));
    }
  }

  // ---------- the decoder ----------

  /** The totals are counted first, then the counter of the status. */
  function CountTotals(stat: PacketStat, capLen: u32, actLen: u32): PacketStat {
    stat.(totPktCnt := Wrap(stat.totPktCnt + 1),
          totCapByteCnt := Wrap(stat.totCapByteCnt + capLen),
          totActByteCnt := Wrap(stat.totActByteCnt + actLen))
  }

  /** The switch over the status. */
  function CountStatus(stat: PacketStat, status: Status, capLen: u32, actLen: u32): PacketStat {
    match status
    case Valid =>
      stat.(validPktCnt := Wrap(stat.validPktCnt + 1),
            validCapByteCnt := Wrap(stat.validCapByteCnt + capLen),
            validActByteCnt := Wrap(stat.validActByteCnt + actLen))
    case NonIp => stat.(nonIpCnt := Wrap(stat.nonIpCnt + 1))
    case IpNotFull => stat.(ipNotFullCnt := Wrap(stat.ipNotFullCnt + 1))
    case IpVerFail => stat.(ipVerFailCnt := Wrap(stat.ipVerFailCnt + 1))
    case IpChksumFail => stat.(ipChksumFailCnt := Wrap(stat.ipChksumFailCnt + 1))
    case IpFrag => stat.(ipFragCnt := Wrap(stat.ipFragCnt + 1))
    case TcpNotFull => stat.(tcpNotFullCnt := Wrap(stat.tcpNotFullCnt + 1))
    case UdpNotFull => stat.(udpNotFullCnt := Wrap(stat.udpNotFullCnt + 1))
    case IcmpNotFull => stat.(icmpNotFullCnt := Wrap(stat.icmpNotFullCnt + 1))
    case Undefined => stat.(undefinedCnt := Wrap(stat.undefinedCnt + 1))
    case NonGtp => stat.(nonGtpCnt := Wrap(stat.nonGtpCnt + 1))
    case NonGprs => stat.(nonGprsCnt := Wrap(stat.nonGprsCnt + 1))
  }

  lemma CounterStep(stat: PacketStat, status: Status, capLen: u32, actLen: u32, other: Status)
    ensures Counter(CountStatus(CountTotals(stat, capLen, actLen), status, capLen, actLen), other) ==
            if other == status then Wrap(Counter(stat, other) + 1) else Counter(stat, other)
  {
    hide Wrap;
  }

  /** One packet more keeps every counter exact. */
  lemma CountsStep(stat: PacketStat, seen: seq<Observation>, o: Observation)
    requires Counts(stat, seen)
    ensures Counts(CountStatus(CountTotals(stat, o.capLen, o.actLen), o.status, o.capLen, o.actLen), seen + [o])
  {
    hide Wrap, Counter, CountOf, CapBytes, ActBytes, ValidOnly;
    SeenAppend(seen, o);
    SeenAppend(ValidOnly(seen), o);
    assert ValidOnly(seen) + [] == ValidOnly(seen);
    WrapAdd(|seen|, 1);
    WrapAdd(CapBytes(seen), o.capLen);
    WrapAdd(ActBytes(seen), o.actLen);
    WrapAdd(CapBytes(ValidOnly(seen)), o.capLen);
    WrapAdd(ActBytes(ValidOnly(seen)), o.actLen);
    var stat' := CountStatus(CountTotals(stat, o.capLen, o.actLen), o.status, o.capLen, o.actLen);
    forall status ensures Counter(stat', status) == Wrap(CountOf(seen + [o], status)) {
      CounterStep(stat, o.status, o.capLen, o.actLen, status);
      WrapAdd(CountOf(seen, status), 1);
    }
  }

  lemma WrapZero()
    ensures Wrap(0) == 0
  {
  }

  lemma EmptySeen(seen: seq<Observation>)
    requires seen == []
    ensures CapBytes(seen) == 0 && ActBytes(seen) == 0 && ValidOnly(seen) == []
    ensures forall status :: CountOf(seen, status) == 0
  {
  }

  /** The cleared record counts nothing. */
  lemma NothingSeen(seen: seq<Observation>)
    requires seen == []
    ensures Counts(Cleared(), seen) && CountOf(seen, Valid) == 0
  {
    hide Wrap, CountOf, CapBytes, ActBytes, ValidOnly, Counter;
    WrapZero();
    EmptySeen(seen);
    EmptySeen(ValidOnly(seen));
    forall status ensures Counter(Cleared(), status) == 0 {
      ClearedCounter(status);
    }
  }

  lemma ClearedCounter(status: Status)
    ensures Counter(Cleared(), status) == 0
  {
  }

  /** The globals `packet_stat` and `seq_count`. */
  class Decoder {
    var packetStat: PacketStat
    var seqCount: u64

    /** What was decoded since the last reset, and how many valid packets came before it. */
    ghost var seen: seq<Observation>
    ghost var validBefore: nat

    ghost predicate Consistent()
      reads this
    {
      Counts(packetStat, seen) && seqCount == Wrap(validBefore + CountOf(seen, Valid))
    }

    constructor ()
      ensures Consistent() && seen == [] && validBefore == 0
    {
      hide Counts, CountOf, Wrap, Cleared;
      packetStat, seqCount := Cleared(), 0;
      seen, validBefore := [], 0;
      new;
      NothingSeen(seen);
      WrapZero();
    }

    /** `reset_stat` clears `packet_stat` but not `seq_count`. */
    method ResetStat()
      requires Consistent()
      modifies this
      ensures Consistent() && packetStat == Cleared() && seen == [] && seqCount == old(seqCount)
      ensures validBefore == old(validBefore + CountOf(seen, Valid))
    {
      hide Counts, Wrap, CountOf;
      validBefore := validBefore + CountOf(seen, Valid);
      seen := [];
      packetStat := Cleared();
      NothingSeen(seen);
    }

    /** The chain of checks, each overwriting the status of the one before. */
    method Classify(pkt: Frame, capLen: u32) returns (status: Status)
      requires Readable(pkt)
      ensures status == StatusOf(pkt, capLen)
    {
      hide InternetChecksum, HostWords;
      status := Valid;
      var ethLen := ETH_LEN;
      if Net16(pkt, 12) == ETHERTYPE_VLAN {
        ethLen := 18;
      } else if Net16(pkt, 12) != ETH_P_IP {
        status := NonIp;
      }
      var len: u32 := (capLen - ethLen) % U32;
      var intLen := if len > INT_MAX then len - U32 else len;
      var ipHl: nat, ipV: nat := pkt[ethLen] % 16, pkt[ethLen] / 16;
      if intLen < ipHl * 4 {
        status := IpNotFull;
      }
      if ipV != 4 {
        status := IpVerFail;
      }
      var header := HostWords(pkt, ethLen, ipHl * 2);
      var checksum := InChksumIp(header, ipHl * 4);
      assert header[..ipHl * 2] == header;
      if checksum != 0 {
        status := IpChksumFail;
      }
      if pkt[ethLen + 9] == IPPROTO_TCP {
        var doff: nat := pkt[ethLen + ipHl * 4 + 12] / 16;
        if intLen < ipHl * 4 + doff * 4 {
          status := TcpNotFull;
        }
      } else if pkt[ethLen + 9] == IPPROTO_UDP {
        if intLen < ipHl * 4 + 8 {
          status := UdpNotFull;
        }
      } else if pkt[ethLen + 9] == IPPROTO_ICMP {
        if intLen < ipHl * 4 + 8 {
          status := IcmpNotFull;
        }
      }
    }

    /** `decode`: classify, count, and fill in the tuple of a valid packet. */
    method Decode(pkt: Frame, capLen: u32, actLen: u32, p: Tuple) returns (status: Status)
      requires Consistent() && Readable(pkt)
      modifies this, p`flow, p`proto, p`pkt, p`flag, p`seqNo, p`size, p`ipSize
      ensures Consistent() && validBefore == old(validBefore)
      ensures status == StatusOf(pkt, capLen)
      ensures seen == old(seen) + [Observation(status, capLen, actLen)]
      ensures status == Valid && old(seqCount) + 1 < 0x1_0000_0000_0000_0000 ==>
                p.seqNo == seqCount == old(seqCount) + 1
      ensures |seen| < 0x1_0000_0000_0000_0000 ==> packetStat.totPktCnt == |seen| == StatusTotal(packetStat)
      ensures p.ipSize == IpSize(capLen) && p.flag == Load16(pkt, 48)
      ensures status == Valid ==>
                && p.seqNo == seqCount == Wrap(old(seqCount) + 1)
                && p.flow == FlowOf(pkt) && p.proto == Protocol(pkt)
                && p.size == Net16(pkt, IpAt(pkt) + 2) && p.pkt == pkt[IpAt(pkt)..]
      ensures status != Valid ==>
                && seqCount == old(seqCount) && p.seqNo == old(p.seqNo)
                && p.flow == old(p.flow) && p.proto == old(p.proto) && p.size == old(p.size) && p.pkt == old(p.pkt)
    {
      hide StatusOf, Counts, CountStatus, CountTotals, Wrap, CountOf, FlowOf, CapBytes, ActBytes, ValidOnly;
      p.ipSize := (capLen - ETH_LEN) % U32;
      packetStat := CountTotals(packetStat, capLen, actLen);
      p.flag := Load16(pkt, 48);
      status := Classify(pkt, capLen);
      packetStat := CountStatus(packetStat, status, capLen, actLen);
      ghost var o := Observation(status, capLen, actLen);
      CountsStep(old(packetStat), seen, o);
      SeenAppend(seen, o);
      WrapAdd(validBefore + CountOf(seen, Valid), 1);
      seen := seen + [o];
      CountersConserved(packetStat, seen);
      WrapPeriod(old(seqCount) + 1);
      if status != Valid {
        return;
      }
      seqCount := Wrap(seqCount + 1);
      p.seqNo := seqCount;
      AssignFields(pkt, p);
    }

    /** The last part of `decode`: addresses, ports, protocol, length and packet pointer. */
    method AssignFields(pkt: Frame, p: Tuple)
      requires Readable(pkt)
      modifies p`flow, p`proto, p`pkt, p`size
      ensures p.flow == FlowOf(pkt) && p.proto == Protocol(pkt)
      ensures p.size == Net16(pkt, IpAt(pkt) + 2) && p.pkt == pkt[IpAt(pkt)..]
    {
      var ipAt := IpAt(pkt);
      var sip, dip := Load32(pkt, ipAt + 12), Load32(pkt, ipAt + 16);
      p.proto := pkt[ipAt + 9];
      p.size := Net16(pkt, ipAt + 2);
      p.pkt := pkt[ipAt..];
      if pkt[ipAt + 9] == IPPROTO_TCP || pkt[ipAt + 9] == IPPROTO_UDP {
        var transportAt := ipAt + HeaderBytes(pkt);
        p.flow := Flow(sip, dip, Net16(pkt, transportAt), Net16(pkt, transportAt + 2));
      } else {
        p.flow := Flow(sip, dip, 0, 0);
      }
    }
  }
}
