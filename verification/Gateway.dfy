/** One gateway: `NDNHelper` and `LibPcapHelper`. What the classes hand to the NDN face and to the raw socket is kept
    in one trace, in order. */
module Gateway {
  import opened Words
  import opened Text
  import opened Names
  import opened Tables

  /** The largest packet number whose sixty successors still fit an `int`. */
  const MAX_SEQUENCE: int := INT_MAX - NUM_OF_GUEST

  /** An expressed Interest with the flags its answer is handled under. */
  datatype Expressed = Expressed(name: string, isPre: bool, isTCP: bool)

  datatype Data = Data(name: string, content: seq<u8>)

  /** A packet given to the raw socket, with the address it is sent to. */
  datatype Sent = Sent(content: seq<u8>, ip: string)

  /** One call out of the gateway. */
  datatype Effect = Express(interest: Expressed) | Put(data: Data) | Send(packet: Sent)

  /** The expressed Interests of a trace, in order. */
  function InterestsOf(trace: seq<Effect>): seq<Expressed> {
    if trace == [] then []
    else InterestsOf(trace[..|trace| - 1]) + if trace[|trace| - 1].Express? then [trace[|trace| - 1].interest] else []
  }

  lemma InterestsAppend(trace: seq<Effect>, e: Expressed)
    ensures InterestsOf(trace + [Express(e)]) == InterestsOf(trace) + [e]
  {
    assert (trace + [Express(e)])[..|trace|] == trace;
  }

  // ---------- receiving side: specification ----------

  /** The part of a gateway that announcements change: the guess table and the Interests expressed so far. */
  datatype Receiver = Receiver(table: set<string>, expressed: seq<Expressed>)

  /** The names an announcement handler takes apart have the fields it indexes. */
  predicate Readable(name: string, isPre: bool, isTCP: bool) {
    isPre ==>
      if isTCP then
        && |Split(name, '/')| >= 7
        && |Split(Split(name, '/')[6], '-')| >= 3
        && (AnnouncedNumber(name).Some? ==> AnnouncedNumber(name).value <= MAX_SEQUENCE)
      else |Split(name, '/')| >= 6
  }

  /** The names prefix + (from + 1), ..., prefix + (from + k): each not yet in the table is entered and requested. */
  function GuessAhead(r: Receiver, prefix: string, from: int, k: nat): Receiver {
    if k == 0 then r
    else
      var r' := GuessAhead(r, prefix, from, k - 1);
      var name := prefix + IntToString(from + k);
      if name in r'.table then r' else Receiver(r'.table + {name}, r'.expressed + [Expressed(name, false, true)])
  }

  function FormalRequest(r: Receiver, name: string): Receiver {
    Receiver(r.table - {name}, r.expressed + [Expressed(name, false, true)])
  }

  /** The whole effect of an incoming Interest. A number that does not parse stops the handler after the formal
      request. */
  function InterestEffect(r: Receiver, name: string, isPre: bool, isTCP: bool): Receiver
    requires Readable(name, isPre, isTCP)
  {
    if !isPre then r
    else if !isTCP then r.(expressed := r.expressed + [Expressed(FormalOtherName(name), false, false)])
    else
      match AnnouncedNumber(name)
      case None => FormalRequest(r, FormalTcpName(name))
      case Some(n) => GuessAhead(FormalRequest(r, FormalTcpName(name)), GuessPrefix(name), n, NUM_OF_GUEST)
  }

  /** What an incoming Data packet sends to the raw socket. */
  function DataEffect(data: Data, isPre: bool, isTCP: bool): seq<Effect>
    requires !isPre ==> |Split(data.name, '/')| >= if isTCP then 5 else 4
  {
    if isPre then [] else [Send(Sent(data.content, Split(data.name, '/')[if isTCP then 4 else 3]))]
  }

  /** An Interest at the filter for announcements of other protocols is answered by one request, for the name with its
      address fields exchanged, and guesses nothing; one at a filter for requests is answered by none. */
  lemma OtherAsked(r: Receiver, name: string, isTCP: bool)
    ensures Readable(name, true, false) ==>
              var fields := Split(name, '/');
              InterestEffect(r, name, true, false) ==
              Receiver(r.table,
                       r.expressed + [Expressed("/IP/" + fields[4] + "/" + fields[3] + "/" + fields[5], false, false)])
    ensures Readable(name, false, isTCP) && InterestEffect(r, name, false, isTCP) == r
  {
    hide Split;
    assert "/IP" + "/" == "/IP/";
  }

  /** The announcement of a packet of another protocol is answered by one request for it. */
  lemma OtherAskedOnce(r: Receiver, f: Flow, uuid: string)
    requires '/' !in uuid
    ensures Readable(PreOther(f, uuid), true, false)
    ensures InterestEffect(r, PreOther(f, uuid), true, false) ==
            Receiver(r.table, r.expressed + [Expressed(DataOther(f, uuid), false, false)])
  {
    hide PreOther, DataOther, Split, FormalOtherName;
    OtherTranslation(f, uuid);
  }

  /** Whatever follows, a TCP announcement is answered by the formal request first; when its number is none, by nothing
      else, and the name asked for leaves the table. */
  lemma TcpAskedFormally(r: Receiver, name: string)
    requires Readable(name, true, true)
    ensures var fields := Split(name, '/');
            var formal := "/IP/TCP/" + fields[5] + "/" + fields[4] + "/" + fields[6];
            var r' := InterestEffect(r, name, true, true);
            && r.expressed + [Expressed(formal, false, true)] <= r'.expressed
            && (AnnouncedNumber(name).None? ==>
                  r' == Receiver(r.table - {formal}, r.expressed + [Expressed(formal, false, true)]))
  {
    hide Split, AnnouncedNumber, GuessAhead, GuessPrefix;
    assert "/IP/TCP" + "/" == "/IP/TCP/";
    if AnnouncedNumber(name).Some? {
      var n := AnnouncedNumber(name).value;
      GuessLoopExtends(FormalRequest(r, FormalTcpName(name)), GuessPrefix(name), n, NUM_OF_GUEST);
    }
  }

  lemma {:induction false} GuessLoopExtends(r: Receiver, prefix: string, from: int, k: nat)
    ensures r.expressed <= GuessAhead(r, prefix, from, k).expressed
  {
    hide IntToString;
    if k > 0 {
      GuessLoopExtends(r, prefix, from, k - 1);
    }
  }

  /** Data that answers a request is sent to the destination of its flow; Data that answers a "pre" Interest is
      dropped. */
  lemma DataSentOnce(f: Flow, num: int, uuid: string, content: seq<u8>)
    ensures |Split(DataTcp(f, num), '/')| >= 5 && |Split(DataOther(f, uuid), '/')| >= 4
    ensures DataEffect(Data(DataTcp(f, num), content), false, true) == [Send(Sent(content, Destination(f)))]
    ensures DataEffect(Data(DataOther(f, uuid), content), false, false) == [Send(Sent(content, Destination(f)))]
    ensures forall data, isTCP :: DataEffect(data, true, isTCP) == []
  {
    hide Split, DataTcp, DataOther, Destination;
    TcpDestination(f, num);
    OtherDestination(f, uuid);
  }

  class NDNHelper {
    const prefixGuestTable: SetHelper
    var interestPacketNum: int
    var trace: seq<Effect>

    constructor (prefixGuestTable: SetHelper)
      ensures this.prefixGuestTable == prefixGuestTable
      ensures Valid() && trace == []
    {
      this.prefixGuestTable := prefixGuestTable;
      interestPacketNum, trace := 0, [];
    }

    ghost function State(): Receiver
      reads this, prefixGuestTable
    {
      Receiver(prefixGuestTable.s, InterestsOf(trace))
    }

    /** The `int` printed with each Interest counts them all, and wraps around. */
    ghost predicate Valid()
      reads this
    {
      interestPacketNum == AsInt(|InterestsOf(trace)|)
    }

    method ExpressInterest(name: string, isPre: bool := true, isTCP: bool := false)
      requires Valid()
      modifies this`interestPacketNum, this`trace
      ensures Valid()
      ensures trace == old(trace) + [Express(Expressed(name, isPre, isTCP))]
      ensures InterestsOf(trace) == InterestsOf(old(trace)) + [Expressed(name, isPre, isTCP)]
    {
      InterestsAppend(trace, Expressed(name, isPre, isTCP));
      AsIntSuccessor(|InterestsOf(trace)|);
      interestPacketNum := AsInt(interestPacketNum + 1);
      trace := trace + [Express(Expressed(name, isPre, isTCP))];
    }

    /** The content is the first `ipSize` bytes at the packet pointer. */
    method PutDataToCache(interestName: string, tuple: Tuple)
      requires Valid() && tuple.ipSize <= |tuple.pkt|
      modifies this`trace
      ensures Valid()
      ensures trace == old(trace) + [Put(Data(interestName, tuple.pkt[..tuple.ipSize]))]
    {
      var put := Put(Data(interestName, tuple.pkt[..tuple.ipSize]));
      assert (trace + [put])[..|trace|] == trace;
      trace := trace + [put];
    }

    method DealOnData(data: Data, isPre: bool, isTCP: bool)
      requires Valid()
      requires !isPre ==> |Split(data.name, '/')| >= if isTCP then 5 else 4
      modifies this`trace
      ensures Valid()
      ensures trace == old(trace) + DataEffect(data, isPre, isTCP)
      ensures isPre ==> trace == old(trace)
      ensures !isPre ==>
                trace == old(trace) + [Send(Sent(data.content, Split(data.name, '/')[if isTCP then 4 else 3]))]
    {
      if !isPre {
        var fields := Split(data.name, '/');
        var ip := fields[if isTCP then 4 else 3];
        assert (trace + [Send(Sent(data.content, ip))])[..|trace|] == trace;
        if isTCP {
          trace := trace + [Send(Sent(data.content, fields[4]))];
        } else {
          trace := trace + [Send(Sent(data.content, fields[3]))];
        }
      }
    }

    /** `completed` is false when the sequence number does not parse (`bad_lexical_cast` leaves the handler). */
    method DealOnInterest(name: string, isPre: bool, isTCP: bool) returns (completed: bool)
      requires Valid() && Readable(name, isPre, isTCP)
      modifies this`interestPacketNum, this`trace, prefixGuestTable
      ensures Valid()
      ensures old(trace) <= trace && forall i :: |old(trace)| <= i < |trace| ==> trace[i].Express?
      ensures State() == InterestEffect(old(State()), name, isPre, isTCP)
      ensures completed <==> (isPre && isTCP ==> AnnouncedNumber(name).Some?)
    {
      hide Split, IntToString, LexicalCastInt, InterestsOf;
      completed := true;
      if isPre {
        if isTCP {
          var nextName := "/IP/TCP";
          var fields := Split(name, '/');
          var sip, dip, uid := fields[4], fields[5], fields[6];
          nextName := nextName + "/" + dip;
          nextName := nextName + "/" + sip;
          var guessName := nextName;
          nextName := nextName + "/" + uid;
          ExpressInterest(nextName, false, true);
          var known := prefixGuestTable.Find(nextName);
          if known {
            var _ := prefixGuestTable.Erase(nextName);
          }
          ghost var formal := FormalRequest(old(State()), FormalTcpName(name));
          assert State() == formal;

          var uuidFields := Split(uid, '-');
          var number := LexicalCastInt(uuidFields[2]);
          if number.None? {
            return false;
          }
          var numOfSequence := number.value;
          guessName := guessName + ("/" + uuidFields[0] + "-" + uuidFields[1] + "-");
          assert guessName == GuessPrefix(name);
          var i := 0;
          while i < NUM_OF_GUEST
            invariant 0 <= i <= NUM_OF_GUEST
            invariant numOfSequence == number.value + i
            invariant Valid()
            invariant old(trace) <= trace && forall j :: |old(trace)| <= j < |trace| ==> trace[j].Express?
            invariant State() == GuessAhead(formal, guessName, number.value, i)
          {
            numOfSequence := numOfSequence + 1;
            var gName := guessName + IntToString(numOfSequence);
            var inserted := prefixGuestTable.SaveConcurrence(gName);
            if inserted {
              ExpressInterest(gName, false, true);
            }
            i := i + 1;
          }
        } else {
          var nextName := "/IP";
          var fields := Split(name, '/');
          var sip, dip, uid := fields[3], fields[4], fields[5];
          nextName := nextName + "/" + dip;
          nextName := nextName + "/" + sip;
          nextName := nextName + "/" + uid;
          ExpressInterest(nextName, false, false);
        }
      }
    }
  }

  // ---------- sending side: specification ----------

  /** A captured packet as a value: flow, protocol and the bytes that will be published. */
  datatype Packet = Packet(flow: Flow, proto: u8, bytes: seq<u8>)

  /** What distinguishes the names of packets: a sequence number, or a UUID for other protocols. */
  datatype Tag = Sequence(num: int) | Uuid(uuid: string)

  predicate Numbered(p: Packet) {
    p.proto == IPPROTO_TCP || p.proto == IPPROTO_UDP
  }

  function TagOf(counters: map<string, int>, p: Packet, uuid: string): Tag {
    if Numbered(p) then Sequence(NextIndex(counters, FlowKey(p.flow))) else Uuid(uuid)
  }

  function CountersAfter(counters: map<string, int>, p: Packet): map<string, int> {
    var key := FlowKey(p.flow);
    if Numbered(p) then counters[key := NextIndex(counters, key)] else counters
  }

  /** TCP (6) and UDP (17) packets of a 4-tuple share its counter; all others get the UUID and touch no counter. */
  lemma SharedCounter(counters: map<string, int>, p: Packet, uuid: string)
    ensures var key := FlowKey(p.flow);
            if p.proto == 6 || p.proto == 17 then
              && TagOf(counters, p, uuid) == Sequence(if key in counters then counters[key] + 1 else 1)
              && CountersAfter(counters, p) == counters[key := TagOf(counters, p, uuid).num]
            else TagOf(counters, p, uuid) == Uuid(uuid) && CountersAfter(counters, p) == counters
  {
  }

  function DataName(p: Packet, tag: Tag): string {
    match tag
    case Sequence(num) => DataTcp(p.flow, num)
    case Uuid(uuid) => DataOther(p.flow, uuid)
  }

  function PreName(p: Packet, tag: Tag): string {
    match tag
    case Sequence(num) => PreTcp(p.flow, num)
    case Uuid(uuid) => PreOther(p.flow, uuid)
  }

  /** The part of a gateway that capturing changes: the counters, and the calls made. */
  datatype Sender = Sender(counters: map<string, int>, trace: seq<Effect>)

  /** The whole effect of one captured packet: counted, published, and only then announced. */
  function DealEffect(s: Sender, p: Packet, uuid: string): Sender {
    var tag := TagOf(s.counters, p, uuid);
    Sender(CountersAfter(s.counters, p),
           s.trace + [Put(Data(DataName(p, tag), p.bytes)), Express(Expressed(PreName(p, tag), true, false))])
  }

  /** Packets at least this long are dropped by `handleRead`. */
  const SIZE_LIMIT: nat := 8600

  class LibPcapHelper {
    const sequenceTable: MapCacheHelper
    const ndnHelper: NDNHelper

    constructor (sequenceTable: MapCacheHelper, ndnHelper: NDNHelper)
      ensures this.sequenceTable == sequenceTable && this.ndnHelper == ndnHelper
    {
      this.sequenceTable := sequenceTable;
      this.ndnHelper := ndnHelper;
    }

    ghost function State(): Sender
      reads this, sequenceTable, ndnHelper`trace
    {
      Sender(sequenceTable.ipPacketCache, ndnHelper.trace)
    }

    ghost function PacketOf(tuple: Tuple): Packet
      requires tuple.ipSize <= |tuple.pkt|
      reads tuple
    {
      Packet(tuple.flow, tuple.proto, tuple.pkt[..tuple.ipSize])
    }

    /** The counter of the packet's 4-tuple can still be incremented as an `int`. */
    ghost predicate CanCount(flow: Flow)
      reads sequenceTable
    {
      var key := FlowKey(flow);
      key in sequenceTable.ipPacketCache ==> 0 <= sequenceTable.ipPacketCache[key] < INT_MAX
    }

    /** Number, publish and announce one decoded packet; `uuid` is the freshly drawn UUID. */
    method Deal(tuple: Tuple, uuid: string)
      requires ndnHelper.Valid() && tuple.ipSize <= |tuple.pkt|
      requires Numbered(PacketOf(tuple)) ==> CanCount(tuple.flow)
      modifies tuple`index, sequenceTable, ndnHelper`interestPacketNum, ndnHelper`trace
      ensures ndnHelper.Valid()
      ensures State() == DealEffect(old(State()), old(PacketOf(tuple)), uuid)
      ensures tuple.proto == 6 || tuple.proto == 17 ==>
                && tuple.index == NextIndex(old(sequenceTable.ipPacketCache), FlowKey(tuple.flow))
                && sequenceTable.ipPacketCache == old(sequenceTable.ipPacketCache)[FlowKey(tuple.flow) := tuple.index]
                && ndnHelper.trace == old(ndnHelper.trace) +
                   [Put(Data(DataTcp(tuple.flow, tuple.index), tuple.pkt[..tuple.ipSize])),
                    Express(Expressed(PreTcp(tuple.flow, tuple.index), true, false))]
      ensures tuple.proto != 6 && tuple.proto != 17 ==>
                && tuple.index == old(tuple.index)
                && sequenceTable.ipPacketCache == old(sequenceTable.ipPacketCache)
                && ndnHelper.trace == old(ndnHelper.trace) +
                   [Put(Data(DataOther(tuple.flow, uuid), tuple.pkt[..tuple.ipSize])),
                    Express(Expressed(PreOther(tuple.flow, uuid), true, false))]
    {
      hide FlowKey, Build4TupleKey, BuildName, PreTcp, DataTcp, PreOther, DataOther, InterestsOf;
      if tuple.proto == IPPROTO_TCP || tuple.proto == IPPROTO_UDP {
        var key := Build4TupleKey(tuple.flow);
        Build4TupleKeyWrites(tuple.flow);
        var res := sequenceTable.Get(key);
        if res.None? {
          tuple.index := 1;
          var saved := sequenceTable.Save(key, tuple.index);
          if !saved {
            return;
          }
          BuildNameWrites(tuple.flow, tuple.index, "");
          var dataName := BuildName(tuple.flow, 4, tuple.index, "");
          ndnHelper.PutDataToCache(dataName.0, tuple);
          var preName := BuildName(tuple.flow, 3, 1, "");
          ndnHelper.ExpressInterest(preName.0);
          return;
        } else {
          var counted := sequenceTable.GetAndIncreaseSequence(key, tuple);
          if !counted {
            return;
          }
          BuildNameWrites(tuple.flow, tuple.index, "");
          var dataName := BuildName(tuple.flow, 4, tuple.index, "");
          ndnHelper.PutDataToCache(dataName.0, tuple);
          var preName := BuildName(tuple.flow, 3, tuple.index, "");
          ndnHelper.ExpressInterest(preName.0, true);
          return;
        }
      } else {
        BuildNameWrites(tuple.flow, -1, uuid);
        var dataName := BuildName(tuple.flow, 2, -1, uuid);
        ndnHelper.PutDataToCache(dataName.0, tuple);
        var preName := BuildName(tuple.flow, 1, -1, uuid);
        ndnHelper.ExpressInterest(preName.0);
      }
    }

    /** One turn of the capture loop; `tuple` is null when no packet was read. `faulted` says that `deal` would copy
        more bytes than can be read at the packet pointer: C++ leaves that undefined, and nothing is promised of it. */
    method HandleRead(error: bool, tuple: Tuple?, uuid: string) returns (faulted: bool)
      requires ndnHelper.Valid()
      requires tuple != null && (tuple.proto == IPPROTO_TCP || tuple.proto == IPPROTO_UDP) ==> CanCount(tuple.flow)
      modifies (if tuple == null then {} else {tuple})`index, sequenceTable
      modifies ndnHelper`interestPacketNum, ndnHelper`trace
      ensures faulted <==> !error && tuple != null && |old(tuple.pkt)| < old(tuple.ipSize) < 8600
      ensures !faulted ==>
                && ndnHelper.Valid()
                && State() == if !error && tuple != null && old(tuple.ipSize) < 8600
                              then DealEffect(old(State()), old(PacketOf(tuple)), uuid) else old(State())
    {
      faulted := false;
      if error {
        return;
      }
      if tuple != null && tuple.ipSize < SIZE_LIMIT {
        if |tuple.pkt| < tuple.ipSize {
          return true;
        }
        Deal(tuple, uuid);
      }
    }
  }
}
