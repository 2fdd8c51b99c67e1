/** The name codec of helper/NDNHelper.cpp: how names are printed and how they are taken apart again. */
module Names {
  import opened Words
  import opened Text

  /** A 4-tuple as `decode` leaves it: addresses in network order, ports already swapped once. */
  datatype Flow = Flow(sip: u32, dip: u32, sport: u16, dport: u16)

  const PREFIX_PRE_REQUEST := "/IP/pre"
  const PREFIX_REQUEST_DATA := "/IP"
  const PREFIX_TCP_PRE_REQUEST := "/IP/TCP/pre"
  const PREFIX_TCP_REQUEST_DATA := "/IP/TCP"

  /** How many packets ahead of an announcement are guessed. */
  const NUM_OF_GUEST: nat := 60

  // ---------- the names as lists of fields ----------

  /** The URI of an NDN name: every component behind a slash. */
  function Uri(components: seq<string>): string {
    Join([""] + components, '/')
  }

  /** Dotted quad of an address in host order. */
  function DottedQuad(ip: u32): string {
    Join([ToString(Octet(ip, 3)), ToString(Octet(ip, 2)), ToString(Octet(ip, 1)), ToString(Octet(ip, 0))], '.')
  }

  function Source(f: Flow): string { DottedQuad(Swap32(f.sip)) }

  /** The destination address of a flow as `inet_addr` is given it. */
  function Destination(f: Flow): string { DottedQuad(Swap32(f.dip)) }

  /** The ports as printed: the second swap undoes the one of `decode`. */
  function SourcePort(f: Flow): string { ToString(Swap16(f.sport)) }

  function DestinationPort(f: Flow): string { ToString(Swap16(f.dport)) }

  /** The last component of a TCP name. */
  function PacketId(f: Flow, num: int): string {
    Join([SourcePort(f), DestinationPort(f), IntToString(num)], '-')
  }

  function PreOther(f: Flow, uuid: string): string { Uri(["IP", "pre", Destination(f), Source(f), uuid]) }

  function DataOther(f: Flow, uuid: string): string { Uri(["IP", Source(f), Destination(f), uuid]) }

  function PreTcp(f: Flow, num: int): string { Uri(["IP", "TCP", "pre", Destination(f), Source(f), PacketId(f, num)]) }

  function DataTcp(f: Flow, num: int): string { Uri(["IP", "TCP", Source(f), Destination(f), PacketId(f, num)]) }

  /** The key of a 4-tuple in the sequence table. */
  function FlowKey(f: Flow): string {
    Join([Source(f), Destination(f), SourcePort(f), DestinationPort(f)], '/')
  }

  // ---------- what the printers write ----------

  /** The quad `buildName` assembles, octet by octet. */
  function PrintQuad(ip: u32): string {
    ToString(Octet(ip, 3)) + "." + ToString(Octet(ip, 2)) + "." + ToString(Octet(ip, 1)) + "." + ToString(Octet(ip, 0))
  }

  /** `NDNHelper::buildName`: the name and the last component. */
  function BuildName(f: Flow, kind: int, num: int, uid: string): (string, string) {
    var sourceIP := PrintQuad(Swap32(f.sip));
    var dstIP := PrintQuad(Swap32(f.dip));
    var uid' := ToString(Swap16(f.sport)) + "-" + ToString(Swap16(f.dport)) + "-" + IntToString(num);
    match kind
    case 1 => (PREFIX_PRE_REQUEST + "/" + dstIP + "/" + sourceIP + "/" + uid, uid)
    case 2 => (PREFIX_REQUEST_DATA + "/" + sourceIP + "/" + dstIP + "/" + uid, uid)
    case 3 => (PREFIX_TCP_PRE_REQUEST + "/" + dstIP + "/" + sourceIP + "/" + uid', uid')
    case 4 => (PREFIX_TCP_REQUEST_DATA + "/" + sourceIP + "/" + dstIP + "/" + uid', uid')
    case _ => ("", "")
  }

  /** `NDNHelper::build4TupleKey`. */
  function Build4TupleKey(f: Flow): string {
    PrintQuad(Swap32(f.sip)) + "/" + PrintQuad(Swap32(f.dip)) + "/" +
    ToString(Swap16(f.sport)) + "/" + ToString(Swap16(f.dport))
  }

  // ---------- what the parsers read ----------

  /** What `dealOnInterest` does with the name of a TCP announcement: the formal name. */
  function FormalTcpName(name: string): string
    requires |Split(name, '/')| >= 7
  {
    var fields := Split(name, '/');
    "/IP/TCP" + "/" + fields[5] + "/" + fields[4] + "/" + fields[6]
  }

  /** The guess names without their sequence number. */
  function GuessPrefix(name: string): string
    requires |Split(name, '/')| >= 7 && |Split(Split(name, '/')[6], '-')| >= 3
  {
    var fields := Split(name, '/');
    var uuidFields := Split(fields[6], '-');
    "/IP/TCP" + "/" + fields[5] + "/" + fields[4] + "/" + uuidFields[0] + "-" + uuidFields[1] + "-"
  }

  /** The sequence number of an announcement; None stands for `bad_lexical_cast`. */
  function AnnouncedNumber(name: string): Option<int>
    requires |Split(name, '/')| >= 7 && |Split(Split(name, '/')[6], '-')| >= 3
  {
    LexicalCastInt(Split(Split(name, '/')[6], '-')[2])
  }

  function FormalOtherName(name: string): string
    requires |Split(name, '/')| >= 6
  {
    var fields := Split(name, '/');
    "/IP" + "/" + fields[4] + "/" + fields[3] + "/" + fields[5]
  }

  // ---------- printers write the fields ----------

  lemma JoinThree(a: string, b: string, c: string, sep: char)
    ensures Join([a, b, c], sep) == a + [sep] + b + [sep] + c
  {
    JoinAppend([a], sep, b);
    JoinAppend([a, b], sep, c);
    assert [a] + [b] == [a, b] && [a, b] + [c] == [a, b, c];
  }

  lemma JoinFour(a: string, b: string, c: string, d: string, sep: char)
    ensures Join([a, b, c, d], sep) == a + [sep] + b + [sep] + c + [sep] + d
  {
    JoinThree(a, b, c, sep);
    JoinAppend([a, b, c], sep, d);
    assert [a, b, c] + [d] == [a, b, c, d];
  }

  lemma UriAppend(components: seq<string>, last: string)
    ensures Uri(components + [last]) == Uri(components) + "/" + last
  {
    JoinAppend([""] + components, '/', last);
    assert [""] + (components + [last]) == [""] + components + [last];
  }

  lemma UriUnder(components: seq<string>, a: string, b: string, c: string)
    ensures Uri(components + [a, b, c]) == Uri(components) + "/" + a + "/" + b + "/" + c
  {
    UriAppend(components, a);
    UriAppend(components + [a], b);
    UriAppend(components + [a] + [b], c);
    assert components + [a, b, c] == components + [a] + [b] + [c];
  }

  lemma Prefixes()
    ensures Uri(["IP"]) == PREFIX_REQUEST_DATA
    ensures Uri(["IP", "pre"]) == PREFIX_PRE_REQUEST
    ensures Uri(["IP", "TCP"]) == PREFIX_TCP_REQUEST_DATA
    ensures Uri(["IP", "TCP", "pre"]) == PREFIX_TCP_PRE_REQUEST
  {
    UriAppend([], "IP");
    assert Uri([]) == "";
    hide Join, Uri;
    assert [] + ["IP"] == ["IP"] && ["IP"] + ["pre"] == ["IP", "pre"] && ["IP"] + ["TCP"] == ["IP", "TCP"];
    assert ["IP", "TCP"] + ["pre"] == ["IP", "TCP", "pre"];
    UriAppend(["IP"], "pre");
    UriAppend(["IP"], "TCP");
    UriAppend(["IP", "TCP"], "pre");
  }

  lemma PrintedQuad(ip: u32)
    ensures PrintQuad(ip) == DottedQuad(ip)
  {
    JoinFour(ToString(Octet(ip, 3)), ToString(Octet(ip, 2)), ToString(Octet(ip, 1)), ToString(Octet(ip, 0)), '.');
  }

  lemma PrintedId(f: Flow, num: int)
    ensures ToString(Swap16(f.sport)) + "-" + ToString(Swap16(f.dport)) + "-" + IntToString(num) == PacketId(f, num)
  {
    JoinThree(SourcePort(f), DestinationPort(f), IntToString(num), '-');
  }

  /** `buildName` writes, for each kind, the URI of the documented components, and hands back the last of them. */
  lemma BuildNameWrites(f: Flow, num: int, uuid: string)
    ensures BuildName(f, 1, num, uuid) == (PreOther(f, uuid), uuid)
    ensures BuildName(f, 2, num, uuid) == (DataOther(f, uuid), uuid)
    ensures BuildName(f, 3, num, uuid) == (PreTcp(f, num), PacketId(f, num))
    ensures BuildName(f, 4, num, uuid) == (DataTcp(f, num), PacketId(f, num))
  {
    hide Uri, DottedQuad, PrintQuad, ToString, IntToString, PacketId, Join;
    PrintedQuad(Swap32(f.sip));
    PrintedQuad(Swap32(f.dip));
    PrintedId(f, num);
    Prefixes();
    UriOf(["IP", "pre", Destination(f), Source(f), uuid], ["IP", "pre"], Destination(f), Source(f), uuid);
    UriOf(["IP", Source(f), Destination(f), uuid], ["IP"], Source(f), Destination(f), uuid);
    var id := PacketId(f, num);
    UriOf(["IP", "TCP", "pre", Destination(f), Source(f), id], ["IP", "TCP", "pre"], Destination(f), Source(f), id);
    UriOf(["IP", "TCP", Source(f), Destination(f), id], ["IP", "TCP"], Source(f), Destination(f), id);
  }

  lemma UriOf(whole: seq<string>, components: seq<string>, a: string, b: string, c: string)
    requires whole == components + [a, b, c]
    ensures Uri(whole) == Uri(components) + "/" + a + "/" + b + "/" + c
  {
    UriUnder(components, a, b, c);
  }

  /** `build4TupleKey` writes the key. */
  /** Four bytes as a dotted quad, the first byte first. */
  function QuadOf(b: seq<u8>): string
    requires |b| == 4
  {
    ToString(b[0]) + "." + ToString(b[1]) + "." + ToString(b[2]) + "." + ToString(b[3])
  }

  /** The names and the key of a flow whose addresses lie in memory as the bytes `s` and `t`, spelled out. The ports are
      printed with their bytes exchanged. */
  lemma NamesSpelledOut(s: seq<u8>, t: seq<u8>, sport: u16, dport: u16, num: int, uuid: string)
    requires |s| == |t| == 4
    ensures var f := Flow(FromOctets(s[0], s[1], s[2], s[3]), FromOctets(t[0], t[1], t[2], t[3]), sport, dport);
            var p := ToString(sport / 256 + 256 * (sport % 256));
            var q := ToString(dport / 256 + 256 * (dport % 256));
            && BuildName(f, 1, num, uuid).0 == "/IP/pre/" + QuadOf(t) + "/" + QuadOf(s) + "/" + uuid
            && BuildName(f, 2, num, uuid).0 == "/IP/" + QuadOf(s) + "/" + QuadOf(t) + "/" + uuid
            && BuildName(f, 3, num, uuid).0 ==
               "/IP/TCP/pre/" + QuadOf(t) + "/" + QuadOf(s) + "/" + (p + "-" + q + "-" + IntToString(num))
            && BuildName(f, 4, num, uuid).0 ==
               "/IP/TCP/" + QuadOf(s) + "/" + QuadOf(t) + "/" + (p + "-" + q + "-" + IntToString(num))
            && Build4TupleKey(f) == QuadOf(s) + "/" + QuadOf(t) + "/" + p + "/" + q
  {
    hide ToString, IntToString, Swap32, FromOctets, PrintQuad, QuadOf;
    PrintedBytes(s);
    PrintedBytes(t);
    assert "/IP/pre" + "/" == "/IP/pre/" && "/IP" + "/" == "/IP/";
    assert "/IP/TCP/pre" + "/" == "/IP/TCP/pre/" && "/IP/TCP" + "/" == "/IP/TCP/";
  }

  lemma PrintedBytes(b: seq<u8>)
    requires |b| == 4
    ensures PrintQuad(Swap32(FromOctets(b[0], b[1], b[2], b[3]))) == QuadOf(b)
  {
    hide ToString;
    OctetsInverse(b[0], b[1], b[2], b[3]);
    Swap32Reverses(FromOctets(b[0], b[1], b[2], b[3]));
  }

  lemma Build4TupleKeyWrites(f: Flow)
    ensures Build4TupleKey(f) == FlowKey(f)
  {
    hide DottedQuad, PrintQuad, ToString, Join;
    PrintedQuad(Swap32(f.sip));
    PrintedQuad(Swap32(f.dip));
    JoinFour(Source(f), Destination(f), SourcePort(f), DestinationPort(f), '/');
  }

  // ---------- the fields read back ----------

  lemma QuadFields(ip: u32)
    ensures Split(DottedQuad(ip), '.') ==
            [ToString(Octet(ip, 3)), ToString(Octet(ip, 2)), ToString(Octet(ip, 1)), ToString(Octet(ip, 0))]
  {
    SplitJoin([ToString(Octet(ip, 3)), ToString(Octet(ip, 2)), ToString(Octet(ip, 1)), ToString(Octet(ip, 0))], '.');
  }

  lemma QuadInjective(a: u32, b: u32)
    requires DottedQuad(a) == DottedQuad(b)
    ensures a == b
  {
    QuadFields(a);
    QuadFields(b);
    forall k: nat | k < 4 ensures Octet(a, k) == Octet(b, k) {
      assert Split(DottedQuad(a), '.')[3 - k] == Split(DottedQuad(b), '.')[3 - k];
      ValueToString(Octet(a, k));
      ValueToString(Octet(b, k));
    }
    OctetsDetermine(a);
    OctetsDetermine(b);
  }

  /** Quads hold digits and dots only, so no separator and no keyword can be one. */
  lemma QuadShape(ip: u32)
    ensures '/' !in DottedQuad(ip) && '-' !in DottedQuad(ip)
    ensures DottedQuad(ip) != "pre" && DottedQuad(ip) != "TCP"
  {
    PrintedQuad(ip);
    assert DottedQuad(ip)[0] == ToString(Octet(ip, 3))[0];
    assert IsDigit(DottedQuad(ip)[0]);
    forall k: nat | k < 4 ensures '/' !in ToString(Octet(ip, k)) && '-' !in ToString(Octet(ip, k)) {
      DigitsLack(ToString(Octet(ip, k)), '/');
      DigitsLack(ToString(Octet(ip, k)), '-');
    }
  }

  lemma IdFields(f: Flow, num: int)
    ensures Split(PacketId(f, num), '-') == [SourcePort(f), DestinationPort(f)] + Split(IntToString(num), '-')
    ensures '/' !in PacketId(f, num)
  {
    var a, b, c := SourcePort(f), DestinationPort(f), IntToString(num);
    JoinThree(a, b, c, '-');
    SplitConcat(a + "-" + b, '-', c);
    SplitConcat(a, '-', b);
    SplitLast(a, '-');
    SplitLast(b, '-');
    if num < 0 { DigitsLack(ToString(-num), '/'); } else { DigitsLack(ToString(num), '/'); }
  }

  lemma UriFields(components: seq<string>)
    requires forall i :: 0 <= i < |components| ==> '/' !in components[i]
    ensures Split(Uri(components), '/') == [""] + components
  {
    SplitJoin([""] + components, '/');
  }

  lemma PreTcpFields(f: Flow, num: int)
    ensures Split(PreTcp(f, num), '/') == ["", "IP", "TCP", "pre", Destination(f), Source(f), PacketId(f, num)]
  {
    hide Split, Uri, DottedQuad, PacketId;
    QuadShape(Swap32(f.dip));
    QuadShape(Swap32(f.sip));
    IdFields(f, num);
    UriFields(["IP", "TCP", "pre", Destination(f), Source(f), PacketId(f, num)]);
  }

  lemma DataTcpFields(f: Flow, num: int)
    ensures Split(DataTcp(f, num), '/') == ["", "IP", "TCP", Source(f), Destination(f), PacketId(f, num)]
  {
    hide Split, Uri, DottedQuad, PacketId;
    QuadShape(Swap32(f.dip));
    QuadShape(Swap32(f.sip));
    IdFields(f, num);
    UriFields(["IP", "TCP", Source(f), Destination(f), PacketId(f, num)]);
  }

  lemma PreOtherFields(f: Flow, uuid: string)
    ensures Split(PreOther(f, uuid), '/') == ["", "IP", "pre", Destination(f), Source(f)] + Split(uuid, '/')
  {
    hide Split, Uri, DottedQuad;
    QuadShape(Swap32(f.dip));
    QuadShape(Swap32(f.sip));
    var init := ["IP", "pre", Destination(f), Source(f)];
    assert init + [uuid] == ["IP", "pre", Destination(f), Source(f), uuid];
    UriFields(init);
    UriAppend(init, uuid);
    SplitConcat(Uri(init), '/', uuid);
  }

  lemma DataOtherFields(f: Flow, uuid: string)
    ensures Split(DataOther(f, uuid), '/') == ["", "IP", Source(f), Destination(f)] + Split(uuid, '/')
  {
    hide Split, Uri, DottedQuad;
    QuadShape(Swap32(f.dip));
    QuadShape(Swap32(f.sip));
    var init := ["IP", Source(f), Destination(f)];
    assert init + [uuid] == ["IP", Source(f), Destination(f), uuid];
    UriFields(init);
    UriAppend(init, uuid);
    SplitConcat(Uri(init), '/', uuid);
  }

  lemma KeyFields(f: Flow)
    ensures Split(FlowKey(f), '/') == [Source(f), Destination(f), SourcePort(f), DestinationPort(f)]
  {
    hide Split, DottedQuad, ToString;
    QuadShape(Swap32(f.dip));
    QuadShape(Swap32(f.sip));
    DigitsLack(SourcePort(f), '/');
    DigitsLack(DestinationPort(f), '/');
    SplitJoin([Source(f), Destination(f), SourcePort(f), DestinationPort(f)], '/');
  }

  // ---------- injectivity ----------

  lemma Swap32Injective(x: u32, y: u32)
    requires Swap32(x) == Swap32(y)
    ensures x == y
  {
    Swap32Reverses(x);
    Swap32Reverses(y);
    OctetsDetermine(x);
    OctetsDetermine(y);
  }

  lemma PortFromText(p: u16, q: u16)
    requires ToString(Swap16(p)) == ToString(Swap16(q))
    ensures p == q
  {
    ValueToString(Swap16(p));
    ValueToString(Swap16(q));
    Swap16Involution(p);
    Swap16Involution(q);
  }

  lemma AddressFromText(a: u32, b: u32)
    requires DottedQuad(Swap32(a)) == DottedQuad(Swap32(b))
    ensures a == b
  {
    QuadInjective(Swap32(a), Swap32(b));
    Swap32Injective(a, b);
  }

  /** The byte swaps lose nothing: equal printed addresses and ports mean equal stored ones. */
  lemma FlowFromText(f: Flow, g: Flow)
    requires Source(f) == Source(g) && Destination(f) == Destination(g)
    requires SourcePort(f) == SourcePort(g) && DestinationPort(f) == DestinationPort(g)
    ensures f == g
  {
    hide DottedQuad, ToString;
    AddressFromText(f.sip, g.sip);
    AddressFromText(f.dip, g.dip);
    PortFromText(f.sport, g.sport);
    PortFromText(f.dport, g.dport);
  }

  lemma IdInjective(f: Flow, m: int, g: Flow, n: int)
    requires Source(f) == Source(g) && Destination(f) == Destination(g) && PacketId(f, m) == PacketId(g, n)
    ensures f == g && m == n
  {
    hide Split, DottedQuad, ToString, IntToString, PacketId;
    IdFields(f, m);
    IdFields(g, n);
    var a, b := Split(PacketId(f, m), '-'), Split(PacketId(g, n), '-');
    assert a[0] == b[0] && a[1] == b[1];
    assert a[2..] == Split(IntToString(m), '-') && b[2..] == Split(IntToString(n), '-');
    FlowFromText(f, g);
    SplitInjective(IntToString(m), IntToString(n), '-');
    IntToStringInjective(m, n);
  }

  lemma PreTcpInjective(f: Flow, m: int, g: Flow, n: int)
    ensures PreTcp(f, m) == PreTcp(g, n) <==> f == g && m == n
  {
    hide Split, Uri, DottedQuad, PacketId;
    if PreTcp(f, m) == PreTcp(g, n) {
      PreTcpFields(f, m);
      PreTcpFields(g, n);
      var a, b := Split(PreTcp(f, m), '/'), Split(PreTcp(g, n), '/');
      assert a[4] == b[4] && a[5] == b[5] && a[6] == b[6];
      IdInjective(f, m, g, n);
    }
  }

  lemma DataTcpInjective(f: Flow, m: int, g: Flow, n: int)
    ensures DataTcp(f, m) == DataTcp(g, n) <==> f == g && m == n
  {
    hide Split, Uri, DottedQuad, PacketId;
    if DataTcp(f, m) == DataTcp(g, n) {
      DataTcpFields(f, m);
      DataTcpFields(g, n);
      var a, b := Split(DataTcp(f, m), '/'), Split(DataTcp(g, n), '/');
      assert a[3] == b[3] && a[4] == b[4] && a[5] == b[5];
      IdInjective(f, m, g, n);
    }
  }

  /** Names of other protocols determine the two addresses and the UUID, not the ports. */
  lemma DataOtherInjective(f: Flow, u: string, g: Flow, w: string)
    ensures DataOther(f, u) == DataOther(g, w) <==> f.sip == g.sip && f.dip == g.dip && u == w
  {
    hide Split, Uri, DottedQuad;
    if DataOther(f, u) == DataOther(g, w) {
      DataOtherFields(f, u);
      DataOtherFields(g, w);
      var a, b := Split(DataOther(f, u), '/'), Split(DataOther(g, w), '/');
      assert a[2] == b[2] && a[3] == b[3];
      assert Split(u, '/') == a[4..] && Split(w, '/') == b[4..];
      SplitInjective(u, w, '/');
      AddressFromText(f.sip, g.sip);
      AddressFromText(f.dip, g.dip);
    }
  }

  lemma KeyInjective(f: Flow, g: Flow)
    ensures FlowKey(f) == FlowKey(g) <==> f == g
  {
    hide Split, DottedQuad, ToString, Join;
    if FlowKey(f) == FlowKey(g) {
      KeyFields(f);
      KeyFields(g);
      var a, b := Split(FlowKey(f), '/'), Split(FlowKey(g), '/');
      assert a[0] == b[0] && a[1] == b[1] && a[2] == b[2] && a[3] == b[3];
      FlowFromText(f, g);
    }
  }

  /** Two packets share a counter exactly when their data names agree up to the sequence number. */
  lemma KeyMeansSameNameStem(f: Flow, g: Flow)
    ensures FlowKey(f) == FlowKey(g) <==> exists m, n :: DataTcp(f, m) == DataTcp(g, n)
  {
    hide DataTcp, FlowKey;
    KeyInjective(f, g);
    if f == g {
      assert DataTcp(f, 0) == DataTcp(g, 0);
    } else {
      forall m, n ensures DataTcp(f, m) != DataTcp(g, n) {
        DataTcpInjective(f, m, g, n);
      }
    }
  }

  /** The four kinds of name never meet, whatever the flows, numbers and UUIDs. */
  lemma KindsDisjoint(f: Flow, u: string, g: Flow, w: string, h: Flow, m: int, k: Flow, n: int)
    ensures PreOther(f, u) != DataOther(g, w) && PreOther(f, u) != PreTcp(h, m) && PreOther(f, u) != DataTcp(k, n)
    ensures DataOther(g, w) != PreTcp(h, m) && DataOther(g, w) != DataTcp(k, n)
    ensures PreTcp(h, m) != DataTcp(k, n)
  {
    hide Split, Uri, DottedQuad, PacketId;
    PreOtherFields(f, u);
    DataOtherFields(g, w);
    PreTcpFields(h, m);
    DataTcpFields(k, n);
    QuadShape(Swap32(g.sip));
    QuadShape(Swap32(k.sip));
    var a, b := Split(PreOther(f, u), '/'), Split(DataOther(g, w), '/');
    var c, d := Split(PreTcp(h, m), '/'), Split(DataTcp(k, n), '/');
    assert "pre"[0] == 'p' && "TCP"[0] == 'T';
    assert a[2] != b[2] && a[2] != c[2] && b[2] != c[2] && c[3] != d[3];
  }

  // ---------- the receiver's translation ----------

  /** The last component of an announcement, taken apart at its dashes. */
  lemma AnnouncementFields(f: Flow, num: int)
    requires 0 <= num
    ensures |Split(PreTcp(f, num), '/')| == 7
    ensures Split(Split(PreTcp(f, num), '/')[6], '-') == [SourcePort(f), DestinationPort(f), ToString(num)]
  {
    hide Split, Uri, DottedQuad, PacketId, ToString;
    PreTcpFields(f, num);
    IdFields(f, num);
    DigitsLack(ToString(num), '-');
    SplitLast(ToString(num), '-');
  }

  /** Any TCP data name is its formal prefix, the printed ports, and the number. */
  lemma DataTcpPrinted(f: Flow, num: int)
    ensures DataTcp(f, num) == "/IP/TCP" + "/" + Source(f) + "/" + Destination(f) + "/" + PacketId(f, num)
    ensures DataTcp(f, num) ==
            "/IP/TCP" + "/" + Source(f) + "/" + Destination(f) + "/" +
            SourcePort(f) + "-" + DestinationPort(f) + "-" + IntToString(num)
  {
    hide Uri, DottedQuad, PacketId, ToString, IntToString, Join;
    Prefixes();
    var id := PacketId(f, num);
    UriOf(["IP", "TCP", Source(f), Destination(f), id], ["IP", "TCP"], Source(f), Destination(f), id);
    PrintedId(f, num);
  }

  /** A TCP announcement is translated into the data name of the very packet it announces, and its guesses into the
      data names of other packets of the same flow. */
  lemma TcpTranslation(f: Flow, num: int)
    requires 0 <= num <= INT_MAX
    ensures |Split(PreTcp(f, num), '/')| == 7 && |Split(Split(PreTcp(f, num), '/')[6], '-')| == 3
    ensures FormalTcpName(PreTcp(f, num)) == DataTcp(f, num)
    ensures AnnouncedNumber(PreTcp(f, num)) == Some(num)
    ensures forall i: int :: GuessPrefix(PreTcp(f, num)) + IntToString(i) == DataTcp(f, i)
  {
    hide Split, PreTcp, DataTcp, DottedQuad, PacketId, ToString, LexicalCastInt;
    AnnouncementFields(f, num);
    PreTcpFields(f, num);
    LexicalCastToString(num);
    DataTcpPrinted(f, num);
    forall i: int ensures GuessPrefix(PreTcp(f, num)) + IntToString(i) == DataTcp(f, i) {
      DataTcpPrinted(f, i);
    }
  }

  /** The announcement of a packet of another protocol is translated into its data name. */
  lemma OtherTranslation(f: Flow, uuid: string)
    requires '/' !in uuid
    ensures |Split(PreOther(f, uuid), '/')| == 6 && FormalOtherName(PreOther(f, uuid)) == DataOther(f, uuid)
  {
    hide Split, PreOther, Uri, DottedQuad, Join;
    PreOtherFields(f, uuid);
    SplitLast(uuid, '/');
    Prefixes();
    UriOf(["IP", Source(f), Destination(f), uuid], ["IP"], Source(f), Destination(f), uuid);
  }

  /** The field `dealOnData` reads as the address of a TCP data name is the flow's own destination. */
  lemma TcpDestination(f: Flow, num: int)
    ensures |Split(DataTcp(f, num), '/')| == 6 && Split(DataTcp(f, num), '/')[4] == Destination(f)
  {
    hide Split, DataTcp, Destination;
    DataTcpFields(f, num);
  }

  lemma OtherDestination(f: Flow, uuid: string)
    ensures |Split(DataOther(f, uuid), '/')| >= 5 && Split(DataOther(f, uuid), '/')[3] == Destination(f)
  {
    DataOtherFields(f, uuid);
  }

  /** `inet_addr` on plain dotted decimal, as a word in memory order; its octal and hexadecimal spellings, which the
      printer never writes, are None here. */
  function InetAddr(s: string): Option<u32> {
    var parts := Split(s, '.');
    if |parts| == 4 && PlainOctet(parts[0]) && PlainOctet(parts[1]) && PlainOctet(parts[2]) && PlainOctet(parts[3])
    then Some(FromOctets(Value(parts[0]), Value(parts[1]), Value(parts[2]), Value(parts[3])))
    else None
  }

  predicate PlainOctet(s: string) {
    s != "" && AllDigits(s) && (s[0] == '0' ==> |s| == 1) && Value(s) < 0x100
  }

  lemma {:induction false} NoLeadingZero(n: nat)
    ensures ToString(n)[0] == '0' ==> |ToString(n)| == 1
    ensures ToString(n)[0] == '0' ==> n == 0
  {
    if n >= 10 {
      NoLeadingZero(n / 10);
    }
  }

  /** The raw socket sends to the very address the packet carries: reading a flow's printed destination gives back the
      stored one. */
  lemma DestinationIsAddress(f: Flow)
    ensures InetAddr(Destination(f)) == Some(f.dip)
  {
    hide Split, ToString, Value, DottedQuad, Octet, FromOctets, Swap32;
    var ip := Swap32(f.dip);
    QuadFields(ip);
    forall k: nat | k < 4 ensures PlainOctet(ToString(Octet(ip, k))) && Value(ToString(Octet(ip, k))) == Octet(ip, k) {
      ValueToString(Octet(ip, k));
      NoLeadingZero(Octet(ip, k));
    }
    Swap32Reverses(f.dip);
    OctetsDetermine(f.dip);
  }

  // ---------- filter dispatch ----------

  /** The components of the name prefix `start` registers for names of one kind and one registered address. */
  function FilterComponents(kind: int, ip: string): seq<string> {
    match kind
    case 1 => ["IP", "pre", ip]
    case 2 => ["IP", ip]
    case 3 => ["IP", "TCP", "pre", ip]
    case _ => ["IP", "TCP", ip]
  }

  /** The name prefix `start` registers. */
  function FilterPrefix(kind: int, ip: string): string {
    match kind
    case 1 => PREFIX_PRE_REQUEST + "/" + ip
    case 2 => PREFIX_REQUEST_DATA + "/" + ip
    case 3 => PREFIX_TCP_PRE_REQUEST + "/" + ip
    case _ => PREFIX_TCP_REQUEST_DATA + "/" + ip
  }

  /** NDN prefix matching: component by component, not character by character. */
  predicate IsNamePrefix(prefix: string, name: string) {
    Split(prefix, '/') <= Split(name, '/')
  }

  lemma FilterFields(kind: int, ip: string)
    requires 1 <= kind <= 4 && '/' !in ip
    ensures Split(FilterPrefix(kind, ip), '/') == [""] + FilterComponents(kind, ip)
  {
    hide Split, Uri;
    Prefixes();
    UriFields(FilterComponents(kind, ip));
    var stem := FilterComponents(kind, ip)[..|FilterComponents(kind, ip)| - 1];
    UriAppend(stem, ip);
    assert FilterComponents(kind, ip) == stem + [ip];
    assert stem == match kind
      case 1 => ["IP", "pre"] case 2 => ["IP"] case 3 => ["IP", "TCP", "pre"] case _ => ["IP", "TCP"];
  }

  /** An announcement reaches the handler of its own kind at the gateway of its destination, and no other filter that
      `start` registers, whatever address (given as a quad) the filter is for. */
  lemma DispatchAnnouncement(kind: int, address: u32, f: Flow, num: int, uuid: string)
    requires 1 <= kind <= 4
    ensures IsNamePrefix(FilterPrefix(kind, DottedQuad(address)), PreTcp(f, num))
            <==> kind == 3 && DottedQuad(address) == Destination(f)
    ensures IsNamePrefix(FilterPrefix(kind, DottedQuad(address)), PreOther(f, uuid))
            <==> kind == 1 && DottedQuad(address) == Destination(f)
  {
    hide Split, FilterPrefix, PreTcp, PreOther, DottedQuad, PacketId;
    var ip := DottedQuad(address);
    QuadShape(address);
    QuadShape(Swap32(f.dip));
    FilterFields(kind, ip);
    PreTcpFields(f, num);
    PreOtherFields(f, uuid);
    var p, t, o := Split(FilterPrefix(kind, ip), '/'), Split(PreTcp(f, num), '/'), Split(PreOther(f, uuid), '/');
    assert "pre"[0] == 'p' && "TCP"[0] == 'T';
    if p <= t { assert p[2] == t[2] && (|p| > 3 ==> p[3] == t[3]) && (|p| > 4 ==> p[4] == t[4]); }
    if p <= o { assert p[2] == o[2] && (|p| > 3 ==> p[3] == o[3]); }
  }

  /** A request reaches its own kind of filter at the gateway its packets come from, and no other. */
  lemma DispatchRequest(kind: int, address: u32, f: Flow, num: int, uuid: string)
    requires 1 <= kind <= 4
    ensures IsNamePrefix(FilterPrefix(kind, DottedQuad(address)), DataTcp(f, num))
            <==> kind == 4 && DottedQuad(address) == Source(f)
    ensures IsNamePrefix(FilterPrefix(kind, DottedQuad(address)), DataOther(f, uuid))
            <==> kind == 2 && DottedQuad(address) == Source(f)
  {
    hide Split, FilterPrefix, DataTcp, DataOther, DottedQuad, PacketId;
    var ip := DottedQuad(address);
    QuadShape(address);
    QuadShape(Swap32(f.sip));
    FilterFields(kind, ip);
    DataTcpFields(f, num);
    DataOtherFields(f, uuid);
    var p, t, o := Split(FilterPrefix(kind, ip), '/'), Split(DataTcp(f, num), '/'), Split(DataOther(f, uuid), '/');
    assert "pre"[0] == 'p' && "TCP"[0] == 'T';
    if p <= t { assert p[2] == t[2] && (|p| > 3 ==> p[3] == t[3]); }
    if p <= o { assert p[2] == o[2]; }
  }

  /** A request that may be answered by longer names (`setDefaultCanBePrefix(true)`) is still answered by the very
      name it asks for: data names are never proper prefixes of one another. */
  lemma AnswerIsExact(f: Flow, m: int, u: string, g: Flow, n: int, w: string)
    requires '/' !in u && '/' !in w
    ensures IsNamePrefix(DataTcp(f, m), DataTcp(g, n)) <==> DataTcp(f, m) == DataTcp(g, n)
    ensures IsNamePrefix(DataOther(f, u), DataOther(g, w)) <==> DataOther(f, u) == DataOther(g, w)
    ensures !IsNamePrefix(DataTcp(f, m), DataOther(g, w)) && !IsNamePrefix(DataOther(f, u), DataTcp(g, n))
  {
    hide Split, DataTcp, DataOther, DottedQuad, PacketId;
    DataTcpFields(f, m);
    DataTcpFields(g, n);
    DataOtherFields(f, u);
    DataOtherFields(g, w);
    SplitLast(u, '/');
    SplitLast(w, '/');
    var a, b := Split(DataTcp(f, m), '/'), Split(DataTcp(g, n), '/');
    var c, d := Split(DataOther(f, u), '/'), Split(DataOther(g, w), '/');
    if a <= b { assert a == b; SplitInjective(DataTcp(f, m), DataTcp(g, n), '/'); }
    if c <= d { assert c == d; SplitInjective(DataOther(f, u), DataOther(g, w), '/'); }
    QuadShape(Swap32(f.sip));
    assert c[2] == Source(f) && b[2] == "TCP";
  }
}
