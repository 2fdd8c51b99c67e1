/** `print_tuple` and `read_tuple` of libpcapcapture/packet.cpp: the text form of a flow record. */
module TupleText {
  import opened Words
  import opened Text
  import opened Names
  import opened Tables

  // ---------- printing ----------

  /** `ip2a`: the bytes of an address in network order, lowest first. */
  function Ip2a(ip: u32): string {
    ToString(Octet(ip, 0)) + "." + ToString(Octet(ip, 1)) + "." + ToString(Octet(ip, 2)) + "." + ToString(Octet(ip, 3))
  }

  /** `%ld` applied to an unsigned 64-bit value. */
  function AsSigned(size: u64): int {
    if size >= U64 / 2 then size - U64 else size
  }

  /** `print_tuple`, format "%s(%u) <-> %s(%u) %u %ld\n". */
  function PrintTuple(flow: Flow, proto: u8, size: u64): string {
    Ip2a(flow.sip) + ("(" + (ToString(flow.sport) + (") <-> " +
    (Ip2a(flow.dip) + ("(" + (ToString(flow.dport) + (") " +
    (ToString(proto) + (" " + (IntToString(AsSigned(size)) + "\n"))))))))))
  }

  // ---------- scanning ----------

  /** An `sscanf` format: literal characters, white space (which matches any run of it), and unsigned conversions of a
      width. */
  datatype Format = End | Lit(c: char, rest: Format) | Space(rest: Format) | Num(width: Width, rest: Format)

  /** The targets of %hhu, %hu, %u and %lu. */
  datatype Width = Char | Short | Int | Long

  function Modulus(width: Width): (m: nat)
    ensures m > 0
  {
    match width
    case Char => 0x100
    case Short => 0x1_0000
    case Int => U32
    case Long => U64
  }

  predicate IsSpace(c: char) {
    c == ' ' || c == '\n' || c == '\t' || c == '\r' || c == '\U{0B}' || c == '\U{0C}'
  }

  function SkipSpace(s: string): string {
    if s != "" && IsSpace(s[0]) then SkipSpace(s[1..]) else s
  }

  /** The length of the leading run of digits. */
  function DigitRun(s: string): (n: nat)
    ensures n <= |s| && AllDigits(s[..n])
  {
    if s != "" && IsDigit(s[0]) then 1 + DigitRun(s[1..]) else 0
  }

  /** `strtoul` followed by the store into an unsigned field: a minus sign negates modulo 2^64, too large a number
      saturates, and the store keeps the low bits. */
  function Convert(negative: bool, digits: string, width: Width): (r: nat)
    requires AllDigits(digits)
    ensures r < Modulus(width)
  {
    var n := Value(digits);
    var long := if n >= U64 then U64 - 1 else if negative then (U64 - n) % U64 else n;
    long % Modulus(width)
  }

  /** The values `sscanf` assigns, in order, up to the first mismatch. */
  function Scan(format: Format, input: string): seq<nat>
    decreases format
  {
    match format
    case End => []
    case Lit(c, rest) => if input != "" && input[0] == c then Scan(rest, input[1..]) else []
    case Space(rest) => Scan(rest, SkipSpace(input))
    case Num(width, rest) =>
      var s := SkipSpace(input);
      var signed := s != "" && (s[0] == '-' || s[0] == '+');
      var digits := if signed then s[1..] else s;
      var n := DigitRun(digits);
      if n == 0 then []
      else [Convert(signed && s[0] == '-', digits[..n], width)] + Scan(rest, digits[n..])
  }

  function QuadFormat(rest: Format): Format {
    Num(Int, Lit('.', Num(Int, Lit('.', Num(Int, Lit('.', Num(Int, rest)))))))
  }

  /** The part after the arrow: "%u.%u.%u.%u(%hu) %hhu %lu". */
  function SecondHalf(): Format {
    QuadFormat(Lit('(', Num(Short, Lit(')', Space(Num(Char, Space(Num(Long, End))))))))
  }

  /** "%u.%u.%u.%u(%hu) <-> %u.%u.%u.%u(%hu) %hhu %lu" */
  function LineFormat(): Format {
    QuadFormat(Lit('(', Num(Short, Lit(')', Space(Lit('<', Lit('-', Lit('>', Space(SecondHalf())))))))))
  }

  /** `(d << 24) | (c << 16) | (b << 8) | a` on 32-bit words. */
  function Assemble(a: nat, b: nat, c: nat, d: nat): nat {
    BitOr(BitOr(BitOr(d * 0x100_0000 % U32, c * 0x1_0000 % U32), b * 0x100 % U32), a)
  }

  datatype Record = Record(sip: nat, dip: nat, sport: nat, dport: nat, proto: nat, size: nat)

  /** What `read_tuple` stores, when all twelve conversions succeed. */
  function ReadLine(line: string): Option<Record> {
    var v := Scan(LineFormat(), line);
    if |v| != 12 then None
    else Some(Record(Assemble(v[0], v[1], v[2], v[3]), Assemble(v[5], v[6], v[7], v[8]), v[4], v[9], v[10], v[11]))
  }

  // ---------- one directive at a time ----------

  predicate NoDigitNext(s: string) {
    s == "" || !IsDigit(s[0])
  }

  lemma {:induction false} DigitRunOf(digits: string, tail: string)
    requires AllDigits(digits) && NoDigitNext(tail)
    ensures DigitRun(digits + tail) == |digits|
  {
    if digits == "" {
      assert digits + tail == tail;
    } else {
      assert (digits + tail)[1..] == digits[1..] + tail;
      DigitRunOf(digits[1..], tail);
    }
  }

  lemma ScanLit(c: char, rest: Format, tail: string)
    ensures Scan(Lit(c, rest), [c] + tail) == Scan(rest, tail)
  {
    assert ([c] + tail)[1..] == tail;
  }

  lemma ScanSpace(rest: Format, tail: string)
    requires tail != "" && !IsSpace(tail[0])
    ensures Scan(Space(rest), " " + tail) == Scan(rest, tail)
  {
    var s := " " + tail;
    assert s[1..] == tail && SkipSpace(tail) == tail;
    assert SkipSpace(s) == SkipSpace(s[1..]);
  }

  lemma ScanNum(width: Width, rest: Format, n: nat, tail: string)
    requires n < U64 && NoDigitNext(tail)
    ensures Scan(Num(width, rest), ToString(n) + tail) == [n % Modulus(width)] + Scan(rest, tail)
  {
    var digits := ToString(n);
    var s := digits + tail;
    assert IsDigit(s[0]);
    assert SkipSpace(s) == s;
    DigitRunOf(digits, tail);
    assert s[..|digits|] == digits && s[|digits|..] == tail;
    ValueToString(n);
  }

  lemma ScanNegative(width: Width, rest: Format, n: nat, tail: string)
    requires 0 < n < U64 && NoDigitNext(tail)
    ensures Scan(Num(width, rest), "-" + ToString(n) + tail) == [(U64 - n) % Modulus(width)] + Scan(rest, tail)
  {
    hide ToString, Modulus, Value;
    var digits := ToString(n);
    var s := "-" + digits + tail;
    assert s[0] == '-' && s[1..] == digits + tail;
    assert SkipSpace(s) == s;
    DigitRunOf(digits, tail);
    assert s[1..][..|digits|] == digits && s[1..][|digits|..] == tail;
    ValueToString(n);
    assert (U64 - n) % U64 == U64 - n;
    assert Convert(true, digits, width) == (U64 - n) % Modulus(width);
  }

  lemma ScanOctet(x: u8, rest: Format, tail: string)
    requires NoDigitNext(tail)
    ensures Scan(Num(Int, rest), ToString(x) + tail) == [x] + Scan(rest, tail)
  {
    hide Scan, ToString;
    ScanNum(Int, rest, x, tail);
    SmallStays(x, Int);
  }

  lemma SmallStays(x: nat, width: Width)
    requires x < Modulus(width)
    ensures x % Modulus(width) == x
  {
  }

  lemma QuadApart(a: string, b: string, c: string, d: string, tail: string)
    ensures a + "." + b + "." + c + "." + d + tail == a + ("." + (b + ("." + (c + ("." + (d + tail))))))
  {
  }

  /** An address is scanned back octet by octet. */
  lemma ScanQuad(ip: u32, rest: Format, tail: string)
    requires NoDigitNext(tail)
    ensures Scan(QuadFormat(rest), Ip2a(ip) + tail) ==
            [Octet(ip, 0), Octet(ip, 1), Octet(ip, 2), Octet(ip, 3)] + Scan(rest, tail)
  {
    hide Scan, ToString, Octet;
    var a, b, c, d := Octet(ip, 0), Octet(ip, 1), Octet(ip, 2), Octet(ip, 3);
    QuadApart(ToString(a), ToString(b), ToString(c), ToString(d), tail);
    var t3 := ToString(d) + tail;
    var t2 := ToString(c) + ("." + t3);
    var t1 := ToString(b) + ("." + t2);
    var f3 := Num(Int, rest);
    var f2 := Num(Int, Lit('.', f3));
    var f1 := Num(Int, Lit('.', f2));
    ScanOctet(a, Lit('.', f1), "." + t1);
    ScanLit('.', f1, t1);
    ScanOctet(b, Lit('.', f2), "." + t2);
    ScanLit('.', f2, t2);
    ScanOctet(c, Lit('.', f3), "." + t3);
    ScanLit('.', f3, t3);
    ScanOctet(d, rest, tail);
  }

  /** The size is scanned back whatever it is: above 2^63 it was printed negative, and the scan undoes that. */
  lemma ScanSize(size: u64, tail: string)
    requires NoDigitNext(tail)
    ensures Scan(Num(Long, End), IntToString(AsSigned(size)) + tail) == [size]
  {
    hide Scan, ToString;
    ScanEnd(tail);
    if size >= U64 / 2 {
      ScanNegative(Long, End, U64 - size, tail);
    } else {
      ScanNum(Long, End, size, tail);
    }
  }

  lemma ScanEnd(tail: string)
    ensures Scan(End, tail) == []
  {
  }

  lemma ScanPort(x: u16, rest: Format, tail: string)
    requires NoDigitNext(tail)
    ensures Scan(Num(Short, rest), ToString(x) + tail) == [x] + Scan(rest, tail)
  {
    hide Scan, ToString;
    ScanNum(Short, rest, x, tail);
    SmallStays(x, Short);
  }

  lemma ScanProto(x: u8, rest: Format, tail: string)
    requires NoDigitNext(tail)
    ensures Scan(Num(Char, rest), ToString(x) + tail) == [x] + Scan(rest, tail)
  {
    hide Scan, ToString;
    ScanNum(Char, rest, x, tail);
    SmallStays(x, Char);
  }

  /** The second half of a line, from the destination address on. */
  lemma ScanSecondHalf(ip: u32, port: u16, proto: u8, size: u64)
    ensures Scan(SecondHalf(),
                 Ip2a(ip) + ("(" + (ToString(port) + (") " +
                 (ToString(proto) + (" " + (IntToString(AsSigned(size)) + "\n")))))))
            == [Octet(ip, 0), Octet(ip, 1), Octet(ip, 2), Octet(ip, 3), port, proto, size]
  {
    hide Scan, ToString, Octet, Ip2a, AsSigned, IntToString;
    var sizeText := IntToString(AsSigned(size)) + "\n";
    var protoText := ToString(proto) + (" " + sizeText);
    var portText := ToString(port) + (") " + protoText);
    var f2 := Num(Long, End);
    var f1 := Num(Char, Space(f2));
    var f0 := Num(Short, Lit(')', Space(f1)));
    ScanQuad(ip, Lit('(', f0), "(" + portText);
    ScanLit('(', f0, portText);
    ScanPort(port, Lit(')', Space(f1)), ") " + protoText);
    assert ") " + protoText == [')'] + (" " + protoText);
    ScanLit(')', Space(f1), " " + protoText);
    ScanSpace(f1, protoText);
    ScanProto(proto, Space(f2), " " + sizeText);
    SizeTextStart(size);
    ScanSpace(f2, sizeText);
    ScanSize(size, "\n");
  }

  lemma SizeTextStart(size: u64)
    ensures var s := IntToString(AsSigned(size)); s != "" && !IsSpace(s[0])
  {
  }

  lemma ScanLine(flow: Flow, proto: u8, size: u64)
    ensures Scan(LineFormat(), PrintTuple(flow, proto, size)) ==
            [Octet(flow.sip, 0), Octet(flow.sip, 1), Octet(flow.sip, 2), Octet(flow.sip, 3), flow.sport,
             Octet(flow.dip, 0), Octet(flow.dip, 1), Octet(flow.dip, 2), Octet(flow.dip, 3), flow.dport, proto, size]
  {
    hide Scan, ToString, Octet, Ip2a, AsSigned, IntToString, QuadFormat, SecondHalf;
    var half := Ip2a(flow.dip) + ("(" + (ToString(flow.dport) + (") " +
                (ToString(proto) + (" " + (IntToString(AsSigned(size)) + "\n"))))));
    var f3 := SecondHalf();
    var f2 := Lit('<', Lit('-', Lit('>', Space(f3))));
    var f1 := Num(Short, Lit(')', Space(f2)));
    var arrow := "<-> " + half;
    ScanQuad(flow.sip, Lit('(', f1), "(" + (ToString(flow.sport) + (") <-> " + half)));
    ScanLit('(', f1, ToString(flow.sport) + (") <-> " + half));
    ScanPort(flow.sport, Lit(')', Space(f2)), ") <-> " + half);
    assert ") <-> " + half == [')'] + (" " + arrow);
    ScanLit(')', Space(f2), " " + arrow);
    ScanSpace(f2, arrow);
    Ip2aStart(flow.dip);
    ScanArrow(f3, half);
    ScanSecondHalf(flow.dip, flow.dport, proto, size);
  }

  lemma Ip2aStart(ip: u32)
    ensures Ip2a(ip) != "" && IsDigit(Ip2a(ip)[0])
  {
  }

  lemma ScanArrow(rest: Format, half: string)
    requires half != "" && !IsSpace(half[0])
    ensures Scan(Lit('<', Lit('-', Lit('>', Space(rest)))), "<-> " + half) == Scan(rest, half)
  {
    hide Scan;
    assert "<-> " + half == ['<'] + (['-'] + (['>'] + (" " + half)));
    ScanLit('<', Lit('-', Lit('>', Space(rest))), ['-'] + (['>'] + (" " + half)));
    ScanLit('-', Lit('>', Space(rest)), ['>'] + (" " + half));
    ScanLit('>', Space(rest), " " + half);
    ScanSpace(rest, half);
  }

  /** The line, spelled out, for addresses that lie in memory as the bytes `s` and `t`. A size is printed as a signed
      64-bit number. */
  lemma PrintedLine(s: seq<u8>, t: seq<u8>, sport: u16, dport: u16, proto: u8, size: u64)
    requires |s| == |t| == 4
    ensures var f := Flow(FromOctets(s[0], s[1], s[2], s[3]), FromOctets(t[0], t[1], t[2], t[3]), sport, dport);
            var signed := if size < 0x8000_0000_0000_0000 then size else size - 0x1_0000_0000_0000_0000;
            PrintTuple(f, proto, size) ==
            QuadOf(s) + "(" + ToString(sport) + ") <-> " + QuadOf(t) + "(" + ToString(dport) + ") " +
            ToString(proto) + " " + IntToString(signed) + "\n"
  {
    hide ToString, IntToString, FromOctets, Octet;
    OctetsInverse(s[0], s[1], s[2], s[3]);
    OctetsInverse(t[0], t[1], t[2], t[3]);
    LineApart(QuadOf(s), ToString(sport), QuadOf(t), ToString(dport), ToString(proto), IntToString(AsSigned(size)));
  }

  lemma LineApart(a: string, b: string, c: string, d: string, e: string, f: string)
    ensures a + "(" + b + ") <-> " + c + "(" + d + ") " + e + " " + f + "\n" ==
            a + ("(" + (b + (") <-> " + (c + ("(" + (d + (") " + (e + (" " + (f + "\n"))))))))))
  {
  }

  /** A printed line ends with a newline and has no other. */
  lemma NewlineLast(flow: Flow, proto: u8, size: u64)
    ensures var line := PrintTuple(flow, proto, size);
            line != "" && line[|line| - 1] == '\n' && '\n' !in line[..|line| - 1]
  {
    hide ToString, IntToString, Octet;
    QuadLacksNewline(flow.sip);
    QuadLacksNewline(flow.dip);
    DigitsLack(ToString(flow.sport), '\n');
    DigitsLack(ToString(flow.dport), '\n');
    DigitsLack(ToString(proto), '\n');
    NumberLacksNewline(AsSigned(size));
    var tail := ToString(proto) + (" " + IntToString(AsSigned(size)));
    var body := Ip2a(flow.sip) + ("(" + (ToString(flow.sport) + (") <-> " +
                (Ip2a(flow.dip) + ("(" + (ToString(flow.dport) + (") " + tail)))))));
    assert PrintTuple(flow, proto, size) == body + "\n";
    assert '\n' !in tail;
  }

  lemma QuadLacksNewline(ip: u32)
    ensures '\n' !in Ip2a(ip)
  {
    hide ToString, Octet;
    DigitsLack(ToString(Octet(ip, 0)), '\n');
    DigitsLack(ToString(Octet(ip, 1)), '\n');
    DigitsLack(ToString(Octet(ip, 2)), '\n');
    DigitsLack(ToString(Octet(ip, 3)), '\n');
  }

  lemma NumberLacksNewline(n: int)
    ensures '\n' !in IntToString(n)
  {
    hide ToString;
    DigitsLack(ToString(if n < 0 then -n else n), '\n');
  }

  /** Or-ing four octets into place is adding them. */
  lemma AssembleOctets(a: u8, b: u8, c: u8, d: u8)
    ensures Assemble(a, b, c, d) == FromOctets(a, b, c, d)
  {
    hide BitOr, Pow2;
    Pow2Bytes();
    BitOrDisjoint(d, c * 0x1_0000, 24);
    BitOrDisjoint(d * 0x100 + c, b * 0x100, 16);
    BitOrDisjoint(d * 0x1_0000 + c * 0x100 + b, a, 8);
  }

  /** Reading a printed line restores both addresses, both ports, the protocol and the size exactly, for every record,
      sizes of 2^63 and above included. */
  lemma RoundTrip(flow: Flow, proto: u8, size: u64)
    ensures ReadLine(PrintTuple(flow, proto, size)) ==
            Some(Record(flow.sip, flow.dip, flow.sport, flow.dport, proto, size))
  {
    hide Scan, LineFormat, PrintTuple, Assemble, Octet;
    ScanLine(flow, proto, size);
    AssembleOctets(Octet(flow.sip, 0), Octet(flow.sip, 1), Octet(flow.sip, 2), Octet(flow.sip, 3));
    AssembleOctets(Octet(flow.dip, 0), Octet(flow.dip, 1), Octet(flow.dip, 2), Octet(flow.dip, 3));
    OctetsDetermine(flow.sip);
    OctetsDetermine(flow.dip);
  }

  // ---------- many lines ----------

  /** A flow record as it is printed. */
  datatype Entry = Entry(flow: Flow, proto: u8, size: u64)

  function PrintAll(entries: seq<Entry>): string {
    if entries == [] then ""
    else PrintTuple(entries[0].flow, entries[0].proto, entries[0].size) + PrintAll(entries[1..])
  }

  function RecordOf(e: Entry): Record {
    Record(e.flow.sip, e.flow.dip, e.flow.sport, e.flow.dport, e.proto, e.size)
  }

  /** Lines printed one after the other split back at the newlines, and each reads back as the record it was printed
      from. */
  lemma {:induction false} LinesSplitBack(entries: seq<Entry>)
    ensures var lines := Split(PrintAll(entries), '\n');
            && |lines| == |entries| + 1 && lines[|entries|] == ""
            && forall i :: 0 <= i < |entries| ==> ReadLine(lines[i] + "\n") == Some(RecordOf(entries[i]))
  {
    hide ReadLine, PrintTuple, Split;
    if entries == [] {
      SplitLast("", '\n');
    } else {
      var e := entries[0];
      var line := PrintTuple(e.flow, e.proto, e.size);
      NewlineLast(e.flow, e.proto, e.size);
      RoundTrip(e.flow, e.proto, e.size);
      var body := line[..|line| - 1];
      assert line == body + ['\n'];
      LinesSplitBack(entries[1..]);
      SplitConcat(body, '\n', PrintAll(entries[1..]));
      SplitLast(body, '\n');
      assert PrintAll(entries) == body + ['\n'] + PrintAll(entries[1..]);
    }
  }

  // ---------- storing through the pointer ----------

  /** The width of the `i`-th conversion. */
  function WidthAt(format: Format, i: nat): Option<Width> {
    match format
    case End => None
    case Lit(_, rest) => WidthAt(rest, i)
    case Space(rest) => WidthAt(rest, i)
    case Num(width, rest) => if i == 0 then Some(width) else WidthAt(rest, i - 1)
  }

  lemma {:induction false} ScanFits(format: Format, input: string, i: nat)
    requires i < |Scan(format, input)|
    ensures WidthAt(format, i).Some? && Scan(format, input)[i] < Modulus(WidthAt(format, i).value)
    decreases format
  {
    match format
    case End =>
    case Lit(c, rest) => ScanFits(rest, input[1..], i);
    case Space(rest) => ScanFits(rest, SkipSpace(input), i);
    case Num(width, rest) =>
      if i > 0 {
        var s := SkipSpace(input);
        var digits := if s != "" && (s[0] == '-' || s[0] == '+') then s[1..] else s;
        ScanFits(rest, digits[DigitRun(digits)..], i - 1);
      }
  }

  lemma {:induction false} BitOrBound(a: nat, b: nat, k: nat)
    requires a < Pow2(k) && b < Pow2(k)
    ensures BitOr(a, b) < Pow2(k)
    decreases k
  {
    if k > 0 {
      BitOrBound(a / 2, b / 2, k - 1);
    }
  }

  lemma AssembleBound(a: nat, b: nat, c: nat, d: nat)
    requires a < U32
    ensures Assemble(a, b, c, d) < U32
  {
    hide BitOr, Pow2;
    Pow2Bytes();
    BitOrBound(d * 0x100_0000 % U32, c * 0x1_0000 % U32, 32);
    BitOrBound(BitOr(d * 0x100_0000 % U32, c * 0x1_0000 % U32), b * 0x100 % U32, 32);
    BitOrBound(BitOr(BitOr(d * 0x100_0000 % U32, c * 0x1_0000 % U32), b * 0x100 % U32), a, 32);
  }

  lemma QuadWidths(rest: Format, i: nat)
    ensures WidthAt(QuadFormat(rest), i) == if i < 4 then Some(Int) else WidthAt(rest, i - 4)
  {
    var f3 := Num(Int, rest);
    var f2 := Num(Int, Lit('.', f3));
    var f1 := Num(Int, Lit('.', f2));
    if i > 0 {
      assert WidthAt(QuadFormat(rest), i) == WidthAt(f1, i - 1);
      if i > 1 {
        assert WidthAt(f1, i - 1) == WidthAt(f2, i - 2);
        if i > 2 {
          assert WidthAt(f2, i - 2) == WidthAt(f3, i - 3);
        }
      }
    }
  }

  /** The widths of the conversions after an address: a port, and what follows it. */
  lemma PortWidths(rest: Format, i: nat)
    ensures WidthAt(Lit('(', Num(Short, Lit(')', rest))), i) == if i == 0 then Some(Short) else WidthAt(rest, i - 1)
  {
    var port := Num(Short, Lit(')', rest));
    assert WidthAt(Lit('(', port), i) == WidthAt(port, i);
    if i > 0 {
      assert WidthAt(port, i) == WidthAt(Lit(')', rest), i - 1);
    }
  }

  lemma ArrowWidths(i: nat)
    ensures WidthAt(Space(Lit('<', Lit('-', Lit('>', Space(SecondHalf()))))), i) == WidthAt(SecondHalf(), i)
  {
    hide SecondHalf;
    var f3 := Space(SecondHalf());
    var f2 := Lit('>', f3);
    var f1 := Lit('-', f2);
    var f0 := Lit('<', f1);
    assert WidthAt(Space(f0), i) == WidthAt(f0, i) == WidthAt(f1, i);
    assert WidthAt(f1, i) == WidthAt(f2, i) == WidthAt(f3, i);
  }

  lemma WidthsOfLine(i: nat)
    requires i < 12
    ensures WidthAt(LineFormat(), i) ==
            Some(if i == 4 || i == 9 then Short else if i == 10 then Char else if i == 11 then Long else Int)
  {
    hide WidthAt, QuadFormat;
    var afterPort := Space(Num(Char, Space(Num(Long, End))));
    var afterArrow := Space(Lit('<', Lit('-', Lit('>', Space(SecondHalf())))));
    QuadWidths(Lit('(', Num(Short, Lit(')', afterArrow))), i);
    if i >= 4 {
      PortWidths(afterArrow, i - 4);
      if i >= 5 {
        ArrowWidths(i - 5);
        QuadWidths(Lit('(', Num(Short, Lit(')', afterPort))), i - 5);
        if i >= 9 {
          PortWidths(afterPort, i - 9);
          LastWidths();
        }
      }
    }
  }

  lemma LastWidths()
    ensures WidthAt(Space(Num(Char, Space(Num(Long, End)))), 0) == Some(Char)
    ensures WidthAt(Space(Num(Char, Space(Num(Long, End)))), 1) == Some(Long)
  {
  }

  /** A converted value, or what was there before. */
  function At(v: seq<nat>, i: nat, before: nat): nat {
    if i < |v| then v[i] else before
  }

  lemma AtFits(line: string, i: nat, before: nat, width: Width)
    requires WidthAt(LineFormat(), i) == Some(width) && before < Modulus(width)
    ensures At(Scan(LineFormat(), line), i, before) < Modulus(width)
  {
    hide Scan, WidthAt, LineFormat;
    if i < |Scan(LineFormat(), line)| {
      ScanFits(LineFormat(), line, i);
    }
  }

  /** What the record holds after reading any line. Conversions that fail leave the old field, and where they would have
      set one of the eight local octets, whatever that variable happened to hold: `garbage`. */
  function Stored(line: string, garbage: seq<u32>, before: Record): Record
    requires |garbage| == 8
  {
    var v := Scan(LineFormat(), line);
    Record(
      Assemble(At(v, 0, garbage[0]), At(v, 1, garbage[1]), At(v, 2, garbage[2]), At(v, 3, garbage[3])),
      Assemble(At(v, 5, garbage[4]), At(v, 6, garbage[5]), At(v, 7, garbage[6]), At(v, 8, garbage[7])),
      At(v, 4, before.sport), At(v, 9, before.dport), At(v, 10, before.proto), At(v, 11, before.size))
  }

  /** When all conversions succeed, nothing of the garbage or of the old record is left. */
  lemma StoredFully(line: string, garbage: seq<u32>, before: Record)
    requires |garbage| == 8
    ensures ReadLine(line).Some? ==> Stored(line, garbage, before) == ReadLine(line).value
  {
    hide Scan, LineFormat, Assemble;
  }

  /** What a conversion makes of its digits: they are taken modulo the width, a minus sign negates, and a value of 2^64
      or more becomes the greatest there is. */
  lemma ConvertMeans(negative: bool, digits: string, width: Width)
    requires AllDigits(digits)
    ensures var n, m, r := Value(digits), Modulus(width), Convert(negative, digits, width);
            && (n < 0x1_0000_0000_0000_0000 && !negative ==> r == n % m)
            && (n < 0x1_0000_0000_0000_0000 && negative ==> (r + n) % m == 0)
            && (n >= 0x1_0000_0000_0000_0000 ==> r == m - 1)
  {
    hide Value, Modulus;
    Negated(Value(digits), width);
  }

  lemma Negated(n: nat, width: Width)
    ensures n < U64 ==> ((U64 - n) % U64 % Modulus(width) + n) % Modulus(width) == 0
    ensures (U64 - 1) % Modulus(width) == Modulus(width) - 1
  {
    if n < U64 {
      match width
      case Char => NegatedChar(n);
      case Short => NegatedShort(n);
      case Int => NegatedInt(n);
      case Long => NegatedLong(n);
    }
  }

  lemma NegatedLong(n: nat)
    requires n < U64
    ensures ((U64 - n) % U64 % U64 + n) % U64 == 0
  {
  }

  lemma NegatedChar(n: nat)
    requires n < U64
    ensures ((U64 - n) % U64 % 0x100 + n) % 0x100 == 0
  {
  }

  lemma NegatedShort(n: nat)
    requires n < U64
    ensures ((U64 - n) % U64 % 0x1_0000 + n) % 0x1_0000 == 0
  {
  }

  lemma NegatedInt(n: nat)
    requires n < U64
    ensures ((U64 - n) % U64 % U32 + n) % U32 == 0
  {
  }

  /** A line that ends behind the first port sets the source and nothing else. */
  lemma CutLine(ip: u32, port: u16, garbage: seq<u32>, before: Record)
    requires |garbage| == 8
    ensures Stored(Ip2a(ip) + ("(" + ToString(port)), garbage, before) ==
            before.(sip := ip, dip := Assemble(garbage[4], garbage[5], garbage[6], garbage[7]), sport := port)
  {
    hide Scan, Assemble, Octet, ToString, SecondHalf, Ip2a;
    var rest := Lit(')', Space(Lit('<', Lit('-', Lit('>', Space(SecondHalf()))))));
    ScanQuad(ip, Lit('(', Num(Short, rest)), "(" + ToString(port));
    ScanLit('(', Num(Short, rest), ToString(port));
    assert ToString(port) + "" == ToString(port);
    ScanPort(port, rest, "");
    ScanNothing(rest);
    AssembleOctets(Octet(ip, 0), Octet(ip, 1), Octet(ip, 2), Octet(ip, 3));
    OctetsDetermine(ip);
  }

  lemma ScanNothing(rest: Format)
    requires rest.Lit?
    ensures Scan(rest, "") == []
  {
  }

  /** `read_tuple`, on any line. */
  method ReadTuple(line: string, garbage: seq<u32>, p: Tuple)
    requires |garbage| == 8
    modifies p`flow, p`proto, p`size
    ensures Record(p.flow.sip, p.flow.dip, p.flow.sport, p.flow.dport, p.proto, p.size) ==
            Stored(line, garbage, old(Record(p.flow.sip, p.flow.dip, p.flow.sport, p.flow.dport, p.proto, p.size)))
    ensures ReadLine(line).Some? ==>
              ReadLine(line) == Some(Record(p.flow.sip, p.flow.dip, p.flow.sport, p.flow.dport, p.proto, p.size))
  {
    hide Scan, LineFormat, Assemble, WidthAt;
    StoredFully(line, garbage, Record(p.flow.sip, p.flow.dip, p.flow.sport, p.flow.dport, p.proto, p.size));
    var v := Scan(LineFormat(), line);
    WidthsOfLine(0);
    WidthsOfLine(4);
    WidthsOfLine(5);
    WidthsOfLine(9);
    WidthsOfLine(10);
    WidthsOfLine(11);
    AtFits(line, 0, garbage[0], Int);
    AtFits(line, 4, p.flow.sport, Short);
    AtFits(line, 5, garbage[4], Int);
    AtFits(line, 9, p.flow.dport, Short);
    AtFits(line, 10, p.proto, Char);
    AtFits(line, 11, p.size, Long);
    AssembleBound(At(v, 0, garbage[0]), At(v, 1, garbage[1]), At(v, 2, garbage[2]), At(v, 3, garbage[3]));
    AssembleBound(At(v, 5, garbage[4]), At(v, 6, garbage[5]), At(v, 7, garbage[6]), At(v, 8, garbage[7]));
    var sip := Assemble(At(v, 0, garbage[0]), At(v, 1, garbage[1]), At(v, 2, garbage[2]), At(v, 3, garbage[3]));
    var dip := Assemble(At(v, 5, garbage[4]), At(v, 6, garbage[5]), At(v, 7, garbage[6]), At(v, 8, garbage[7]));
    p.flow := Flow(sip, dip, At(v, 4, p.flow.sport), At(v, 9, p.flow.dport));
    p.proto, p.size := At(v, 10, p.proto), At(v, 11, p.size);
  }
}
