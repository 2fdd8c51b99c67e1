/** The tunnel as one transition system: a capturing gateway, a network that loses, reorders and duplicates
    announcements, and a receiving gateway. The steps are the effects the classes of module Gateway are proved to
    have. */
module Tunnel {
  import opened Words
  import opened Text
  import opened Names
  import opened Tables
  import opened Gateway
  import G = Guessing

  /** A captured packet with the tag `deal` gave it. */
  datatype Stamped = Stamped(packet: Packet, tag: Tag)

  /** How far `deal` has come with the latest packet; packets are dealt with one at a time. */
  datatype Stage = Idle | Assigned | Published

  /** The capturing gateway, and what it has put on the network; `captured` is history. */
  datatype Sending = Sending(
    counters: map<string, int>,
    captured: seq<Stamped>,
    stage: Stage,
    published: seq<Data>,
    announced: seq<string>)

  /** An expressed Interest and the published Data that answered it. */
  datatype Answered = Answered(request: nat, data: nat)

  /** The receiving gateway; `delivered` is the history of announcements delivered to it, by position, `arrivals` that
      of the TCP and UDP packets they announce, and `answers` that of the Data it received. */
  datatype Receiving = Receiving(
    receiver: Receiver,
    delivered: seq<nat>,
    arrivals: G.History,
    answers: seq<Answered>,
    sent: seq<Sent>)

  datatype State = State(tx: Sending, rx: Receiving)

  datatype Action =
    | Capture(packet: Packet, uuid: string)
    | Publish
    | Announce
    | Deliver(announcement: nat, kind: int, address: u32)
    | Answer(request: nat, data: nat)

  function IsPre(kind: int): bool { kind == 1 || kind == 3 }

  function IsTCP(kind: int): bool { kind == 3 || kind == 4 }

  function Init(): State {
    State(Sending(map[], [], Idle, [], []), Receiving(Receiver({}, []), [], [], [], []))
  }

  /** The network hands an announcement, any number of times, to a filter registered for `address` that matches it. */
  predicate Dispatched(tx: Sending, i: nat, kind: int, address: u32) {
    i < |tx.announced| && 1 <= kind <= 4 && IsNamePrefix(FilterPrefix(kind, DottedQuad(address)), tx.announced[i])
  }

  /** A requested name is answered by published Data whose name has it as a prefix, once per expressed Interest. */
  predicate Answerable(s: State, r: nat, d: nat) {
    && r < |s.rx.receiver.expressed|
    && (forall k :: 0 <= k < |s.rx.answers| ==> s.rx.answers[k].request != r)
    && d < |s.tx.published|
    && IsNamePrefix(s.rx.receiver.expressed[r].name, s.tx.published[d].name)
  }

  predicate DataReadable(e: Expressed, data: Data) {
    !e.isPre ==> |Split(data.name, '/')| >= if e.isTCP then 5 else 4
  }

  /** `deal` runs one packet at a time; counters must stay in the range whose guesses fit an `int`, and UUIDs are
      fresh. */
  predicate CanCapture(tx: Sending, p: Packet, uuid: string) {
    && tx.stage.Idle?
    && (Numbered(p) ==> NextIndex(tx.counters, FlowKey(p.flow)) <= MAX_SEQUENCE)
    && '/' !in uuid && (forall i :: 0 <= i < |tx.captured| ==> tx.captured[i].tag != Uuid(uuid))
  }

  predicate Enabled(s: State, a: Action) {
    match a
    case Capture(p, uuid) => CanCapture(s.tx, p, uuid)
    case Publish => s.tx.stage.Assigned? && s.tx.captured != []
    case Announce => s.tx.stage.Published? && s.tx.captured != []
    case Deliver(i, kind, address) =>
      Dispatched(s.tx, i, kind, address) && i < |s.tx.captured| && Readable(s.tx.announced[i], IsPre(kind), IsTCP(kind))
    case Answer(r, d) => Answerable(s, r, d) && DataReadable(s.rx.receiver.expressed[r], s.tx.published[d])
  }

  function CaptureStep(tx: Sending, p: Packet, uuid: string): Sending {
    tx.(counters := CountersAfter(tx.counters, p),
        captured := tx.captured + [Stamped(p, TagOf(tx.counters, p, uuid))],
        stage := Assigned)
  }

  function PublishStep(tx: Sending): Sending
    requires tx.captured != []
  {
    var last := tx.captured[|tx.captured| - 1];
    tx.(published := tx.published + [Data(DataName(last.packet, last.tag), last.packet.bytes)],
        stage := Stage.Published)
  }

  function AnnounceStep(tx: Sending): Sending
    requires tx.captured != []
  {
    var last := tx.captured[|tx.captured| - 1];
    tx.(announced := tx.announced + [PreName(last.packet, last.tag)], stage := Idle)
  }

  function DeliverStep(rx: Receiving, i: nat, name: string, c: Stamped, kind: int): Receiving
    requires Readable(name, IsPre(kind), IsTCP(kind))
  {
    rx.(receiver := InterestEffect(rx.receiver, name, IsPre(kind), IsTCP(kind)),
        delivered := rx.delivered + [i],
        arrivals := rx.arrivals + ItemsOf(c))
  }

  /** The packets given to the raw socket. */
  function SentIn(trace: seq<Effect>): seq<Sent> {
    if trace == [] then []
    else SentIn(trace[..|trace| - 1]) + if trace[|trace| - 1].Send? then [trace[|trace| - 1].packet] else []
  }

  lemma SentInOne(x: Sent)
    ensures SentIn([Send(x)]) == [x]
  {
    assert [Send(x)][..0] == [];
  }

  function AnswerStep(rx: Receiving, a: Answered, data: Data): Receiving
    requires a.request < |rx.receiver.expressed| && DataReadable(rx.receiver.expressed[a.request], data)
  {
    var e := rx.receiver.expressed[a.request];
    rx.(answers := rx.answers + [a], sent := rx.sent + SentIn(DataEffect(data, e.isPre, e.isTCP)))
  }

  function Apply(s: State, a: Action): State
    requires Enabled(s, a)
  {
    match a
    case Capture(p, uuid) => s.(tx := CaptureStep(s.tx, p, uuid))
    case Publish => s.(tx := PublishStep(s.tx))
    case Announce => s.(tx := AnnounceStep(s.tx))
    case Deliver(i, kind, address) => s.(rx := DeliverStep(s.rx, i, s.tx.announced[i], s.tx.captured[i], kind))
    case Answer(r, d) => s.(rx := AnswerStep(s.rx, Answered(r, d), s.tx.published[d]))
  }

  function ItemsOf(c: Stamped): seq<G.Item> {
    if c.tag.Sequence? then [G.Item(c.packet.flow, c.tag.num)] else []
  }

  /** The state a run ends in; None when some step of it is not possible. */
  function Run(actions: seq<Action>): Option<State> {
    if actions == [] then Some(Init())
    else
      var n := |actions| - 1;
      var before := Run(actions[..n]);
      if before.Some? && Enabled(before.value, actions[n]) then Some(Apply(before.value, actions[n])) else None
  }

  /** The three steps of the sender are the effect `deal` is proved to have, one call after the other. */
  lemma DealIsThreeSteps(tx: Sending, p: Packet, uuid: string, earlier: seq<Effect>)
    requires CanCapture(tx, p, uuid)
    ensures var tx1 := CaptureStep(tx, p, uuid);
            var tx2 := PublishStep(tx1);
            var tx3 := AnnounceStep(tx2);
            exists data, name ::
              && tx1.published == tx.published && tx1.announced == tx.announced
              && tx2.published == tx.published + [data] && tx2.announced == tx.announced
              && tx3.published == tx.published + [data] && tx3.announced == tx.announced + [name]
              && DealEffect(Sender(tx.counters, earlier), p, uuid)
                 == Sender(tx3.counters, earlier + [Put(data), Express(Expressed(name, true, false))])
  {
    hide PreName, DataName, FlowKey;
    var tag := TagOf(tx.counters, p, uuid);
    var tx3 := AnnounceStep(PublishStep(CaptureStep(tx, p, uuid)));
    assert tx3.published == tx.published + [Data(DataName(p, tag), p.bytes)];
    assert tx3.announced == tx.announced + [PreName(p, tag)];
  }

  // ---------- sender: numbering ----------

  /** The packet is TCP (6) or UDP (17), and of this flow. */
  predicate OfFlow(p: Packet, f: Flow) {
    (p.proto == 6 || p.proto == 17) && p.flow == f
  }

  /** How many TCP and UDP packets of a flow there are. */
  function CountFlow(c: seq<Stamped>, f: Flow): nat {
    if c == [] then 0
    else CountFlow(c[..|c| - 1], f) + if OfFlow(c[|c| - 1].packet, f) then 1 else 0
  }

  lemma {:induction false} CountFlowMonotone(c: seq<Stamped>, i: nat, j: nat, f: Flow)
    requires i <= j <= |c|
    ensures CountFlow(c[..i], f) <= CountFlow(c[..j], f)
    decreases j
  {
    if i < j {
      CountFlowMonotone(c, i, j - 1, f);
      assert c[..j][..j - 1] == c[..j - 1];
    }
  }

  /** The `i`-th captured packet, if TCP or UDP, carries its rank among the packets of its flow, counted from 1, and a
      UUID if not. */
  ghost predicate Ranked(c: seq<Stamped>) {
    forall i :: 0 <= i < |c| ==>
      && (c[i].packet.proto == 6 || c[i].packet.proto == 17 <==> c[i].tag.Sequence?)
      && (c[i].tag.Sequence? ==>
            && c[i].tag.num == CountFlow(c[..i + 1], c[i].packet.flow)
            && 1 <= c[i].tag.num <= MAX_SEQUENCE)
  }

  /** The counter of every 4-tuple is the number of its packets; unseen 4-tuples have none. */
  ghost predicate CountersExact(counters: map<string, int>, c: seq<Stamped>) {
    forall f: Flow ::
      && (FlowKey(f) in counters <==> CountFlow(c, f) > 0)
      && (FlowKey(f) in counters ==> counters[FlowKey(f)] == CountFlow(c, f))
  }

  ghost predicate UuidsDistinct(c: seq<Stamped>) {
    && (forall i :: 0 <= i < |c| && c[i].tag.Uuid? ==> '/' !in c[i].tag.uuid)
    && (forall i, j :: 0 <= i < j < |c| && c[i].tag.Uuid? ==> c[i].tag != c[j].tag)
  }

  /** Publications and announcements follow the captures in order; announcements never overtake publications. */
  ghost predicate LogsFollow(tx: Sending) {
    && (!tx.stage.Idle? ==> tx.captured != [])
    && |tx.published| == |tx.captured| - (if tx.stage.Assigned? then 1 else 0)
    && |tx.announced| == |tx.captured| - (if tx.stage.Idle? then 0 else 1)
    && (forall i :: 0 <= i < |tx.published| ==>
          tx.published[i] == Data(DataName(tx.captured[i].packet, tx.captured[i].tag), tx.captured[i].packet.bytes))
    && (forall i :: 0 <= i < |tx.announced| ==> tx.announced[i] == PreName(tx.captured[i].packet, tx.captured[i].tag))
  }

  ghost predicate SendingInv(tx: Sending) {
    Ranked(tx.captured) && CountersExact(tx.counters, tx.captured) && UuidsDistinct(tx.captured) && LogsFollow(tx)
  }

  lemma CountersStay(counters: map<string, int>, c: seq<Stamped>, p: Packet, tag: Tag)
    requires CountersExact(counters, c)
    ensures CountersExact(CountersAfter(counters, p), c + [Stamped(p, tag)])
    ensures NextIndex(counters, FlowKey(p.flow)) == CountFlow(c, p.flow) + 1
  {
    hide FlowKey;
    var c' := c + [Stamped(p, tag)];
    assert c'[..|c|] == c;
    var counters' := CountersAfter(counters, p);
    forall f: Flow
      ensures FlowKey(f) in counters' <==> CountFlow(c', f) > 0
      ensures FlowKey(f) in counters' ==> counters'[FlowKey(f)] == CountFlow(c', f)
    {
      KeyInjective(f, p.flow);
    }
  }

  lemma RanksStay(c: seq<Stamped>, p: Packet, tag: Tag)
    requires Ranked(c)
    requires Numbered(p) <==> tag.Sequence?
    requires tag.Sequence? ==> tag.num == CountFlow(c, p.flow) + 1 <= MAX_SEQUENCE
    ensures Ranked(c + [Stamped(p, tag)])
  {
    var c' := c + [Stamped(p, tag)];
    forall i | 0 <= i < |c'|
      ensures Numbered(c'[i].packet) <==> c'[i].tag.Sequence?
      ensures c'[i].tag.Sequence? ==>
                && c'[i].tag.num == CountFlow(c'[..i + 1], c'[i].packet.flow)
                && 1 <= c'[i].tag.num <= MAX_SEQUENCE
    {
      if i < |c| {
        assert c'[i] == c[i] && c'[..i + 1] == c[..i + 1];
      } else {
        assert c'[..i + 1] == c' && c'[..|c|] == c;
      }
    }
  }

  lemma CaptureKeepsSending(tx: Sending, p: Packet, uuid: string)
    requires SendingInv(tx) && CanCapture(tx, p, uuid)
    ensures SendingInv(CaptureStep(tx, p, uuid))
  {
    hide FlowKey, PreName, DataName, CountersExact, Ranked;
    CountersStay(tx.counters, tx.captured, p, TagOf(tx.counters, p, uuid));
    RanksStay(tx.captured, p, TagOf(tx.counters, p, uuid));
  }

  lemma PublishKeepsSending(tx: Sending)
    requires SendingInv(tx) && tx.stage.Assigned?
    ensures SendingInv(PublishStep(tx))
  {
    hide PreName, DataName, CountersExact, Ranked, UuidsDistinct;
  }

  lemma AnnounceKeepsSending(tx: Sending)
    requires SendingInv(tx) && tx.stage.Published?
    ensures SendingInv(AnnounceStep(tx))
  {
    hide PreName, DataName, CountersExact, Ranked, UuidsDistinct;
  }

  /** Every captured packet has a name of its own. */
  lemma DataNamesDistinct(c: seq<Stamped>, i: nat, j: nat)
    requires Ranked(c) && UuidsDistinct(c) && i < |c| && j < |c|
    ensures DataName(c[i].packet, c[i].tag) == DataName(c[j].packet, c[j].tag) <==> i == j
  {
    if i < j { EarlierNameDiffers(c, i, j); }
    if j < i { EarlierNameDiffers(c, j, i); }
  }

  lemma EarlierNameDiffers(c: seq<Stamped>, i: nat, j: nat)
    requires Ranked(c) && UuidsDistinct(c) && i < j < |c|
    ensures DataName(c[i].packet, c[i].tag) != DataName(c[j].packet, c[j].tag)
  {
    hide DataTcp, DataOther;
    var f, g := c[i].packet.flow, c[j].packet.flow;
    match (c[i].tag, c[j].tag)
    case (Sequence(m), Sequence(n)) =>
      DataTcpInjective(f, m, g, n);
      CountFlowMonotone(c, i + 1, j, f);
      assert c[..j + 1][..j] == c[..j];
    case (Uuid(u), Uuid(w)) =>
      DataOtherInjective(f, u, g, w);
    case (Sequence(m), Uuid(w)) =>
      KindsDisjoint(f, "", g, w, f, m, f, m);
    case (Uuid(u), Sequence(n)) =>
      KindsDisjoint(f, "", f, u, g, n, g, n);
  }

  // ---------- receiver: the string tables refine the protocol over items ----------

  function ItemName(m: G.Item): string { DataTcp(m.flow, m.num) }

  function NameSet(items: set<G.Item>): set<string> { set m | m in items :: ItemName(m) }

  function AsExpressed(r: G.Request): Expressed { Expressed(ItemName(r.item), false, true) }

  function AsExpressedAll(log: seq<G.Request>): seq<Expressed> {
    if log == [] then [] else AsExpressedAll(log[..|log| - 1]) + [AsExpressed(log[|log| - 1])]
  }

  /** The TCP requests among the expressed Interests. */
  function TcpOnly(e: seq<Expressed>): seq<Expressed> {
    if e == [] then [] else TcpOnly(e[..|e| - 1]) + if e[|e| - 1].isTCP then [e[|e| - 1]] else []
  }

  lemma NameSetMember(items: set<G.Item>, m: G.Item)
    ensures ItemName(m) in NameSet(items) <==> m in items
  {
    forall k: G.Item | k in items && ItemName(k) == ItemName(m) ensures k == m {
      DataTcpInjective(k.flow, k.num, m.flow, m.num);
    }
  }

  lemma NameSetMinus(items: set<G.Item>, m: G.Item)
    ensures NameSet(items - {m}) == NameSet(items) - {ItemName(m)}
  {
    forall k: G.Item | k in items && ItemName(k) == ItemName(m) ensures k == m {
      DataTcpInjective(k.flow, k.num, m.flow, m.num);
    }
  }

  lemma NameSetPlus(items: set<G.Item>, m: G.Item)
    ensures NameSet(items + {m}) == NameSet(items) + {ItemName(m)}
  {
  }

  lemma AsExpressedAppend(log: seq<G.Request>, r: G.Request)
    ensures AsExpressedAll(log + [r]) == AsExpressedAll(log) + [AsExpressed(r)]
  {
    assert (log + [r])[..|log|] == log;
  }

  lemma {:induction false} AsExpressedConcat(a: seq<G.Request>, b: seq<G.Request>)
    ensures AsExpressedAll(a + b) == AsExpressedAll(a) + AsExpressedAll(b)
  {
    hide AsExpressedAll;
    if b == [] {
      assert a + b == a;
      AsExpressedNone();
    } else {
      var init, x := b[..|b| - 1], b[|b| - 1];
      AsExpressedConcat(a, init);
      AsExpressedAppend(a + init, x);
      AsExpressedAppend(init, x);
      assert a + b == a + init + [x] && b == init + [x];
    }
  }

  lemma AsExpressedNone()
    ensures AsExpressedAll([]) == []
  {
  }

  lemma TcpOnlyAppend(e: seq<Expressed>, x: Expressed)
    ensures TcpOnly(e + [x]) == TcpOnly(e) + if x.isTCP then [x] else []
  {
    assert (e + [x])[..|e|] == e;
  }

  /** `k` rounds of the guess loop over strings are `k` rounds over items. */
  lemma {:induction false} GuessLoopRefines(r: Receiver, table: set<G.Item>, a: G.Item, prefix: string, k: nat)
    requires r.table == NameSet(table - {a})
    requires forall i: int :: prefix + IntToString(i) == DataTcp(a.flow, i)
    ensures var r' := GuessAhead(r, prefix, a.num, k);
            && r'.table == NameSet(table - {a} + G.Window(a, k))
            && TcpOnly(r'.expressed) == TcpOnly(r.expressed) + AsExpressedAll(G.NewGuesses(table, a, k))
  {
    hide DataTcp, IntToString, TcpOnly, AsExpressedAll, NameSet, G.Window;
    if k == 0 {
      NothingGuessed(table - {a}, a);
      AsExpressedNone();
    } else {
      GuessLoopRefines(r, table, a, prefix, k - 1);
      var r0 := GuessAhead(r, prefix, a.num, k - 1);
      var items := table - {a} + G.Window(a, k - 1);
      var m := G.Ahead(a, k);
      G.WindowStep(a, k);
      assert prefix + IntToString(a.num + k) == ItemName(m);
      NameSetMember(items, m);
      NameSetPlus(items, m);
      assert table - {a} + G.Window(a, k) == items + {m};
      TcpOnlyAppend(r0.expressed, Expressed(ItemName(m), false, true));
      AsExpressedAppend(G.NewGuesses(table, a, k - 1), G.Guess(m));
      assert m in table <==> m in items;
      if m in items {
        assert items + {m} == items;
        assert G.NewGuesses(table, a, k) == G.NewGuesses(table, a, k - 1);
      }
    }
  }

  lemma NothingGuessed(items: set<G.Item>, a: G.Item)
    ensures items + G.Window(a, 0) == items
  {
  }

  /** The handler of a TCP announcement is one step of the protocol over items. */
  lemma AnnouncementRefines(r: Receiver, table: set<G.Item>, a: G.Item)
    requires r.table == NameSet(table) && 0 <= a.num <= MAX_SEQUENCE
    ensures Readable(PreTcp(a.flow, a.num), true, true)
    ensures var r' := InterestEffect(r, PreTcp(a.flow, a.num), true, true);
            && r'.table == NameSet(G.TableStep(table, a))
            && TcpOnly(r'.expressed) == TcpOnly(r.expressed) + AsExpressedAll(G.LogStep(table, a))
  {
    hide PreTcp, DataTcp, IntToString, TcpOnly, AsExpressedAll, NameSet, G.Window, G.NewGuesses, GuessAhead,
         FormalTcpName, GuessPrefix, AnnouncedNumber, Split;
    var name := PreTcp(a.flow, a.num);
    TcpTranslation(a.flow, a.num);
    NameSetMinus(table, a);
    var formal := FormalRequest(r, FormalTcpName(name));
    GuessLoopRefines(formal, table, a, GuessPrefix(name), NUM_OF_GUEST);
    TcpOnlyAppend(r.expressed, Expressed(ItemName(a), false, true));
    var guesses := G.NewGuesses(table, a, NUM_OF_GUEST);
    AsExpressedConcat([G.Formal(a)], guesses);
    AsExpressedOne(G.Formal(a));
  }

  lemma AsExpressedOne(r: G.Request)
    ensures AsExpressedAll([r]) == [AsExpressed(r)]
  {
    AsExpressedAppend([], r);
    assert [] + [r] == [r];
  }

  // ---------- receiver invariant ----------

  /** Some captured packet is `m`, and its announcement is on the network. */
  ghost predicate Announced(tx: Sending, m: G.Item) {
    exists i :: 0 <= i < |tx.announced| && i < |tx.captured|
                && tx.captured[i].tag.Sequence?
                && m == G.Item(tx.captured[i].packet.flow, tx.captured[i].tag.num)
  }

  /** Only announced packets have arrived. */
  ghost predicate ArrivalsAnnounced(tx: Sending, arrivals: G.History) {
    forall m :: m in arrivals ==> Announced(tx, m)
  }

  ghost predicate Published(tx: Sending, name: string) {
    exists d :: 0 <= d < |tx.published| && tx.published[d].name == name
  }

  /** The requests of packets of other protocols among the expressed Interests. */
  function OtherOnly(e: seq<Expressed>): seq<Expressed> {
    if e == [] then [] else OtherOnly(e[..|e| - 1]) + if e[|e| - 1].isTCP then [] else [e[|e| - 1]]
  }

  /** One request for each delivered announcement of a packet of another protocol. */
  function OthersOf(c: seq<Stamped>, delivered: seq<nat>): seq<Expressed> {
    if delivered == [] then []
    else
      var i := delivered[|delivered| - 1];
      OthersOf(c, delivered[..|delivered| - 1]) + if i < |c| && c[i].tag.Uuid? then [Asks(c[i])] else []
  }

  /** Packets of other protocols are asked for once per delivered announcement, in that order, and never else. */
  ghost predicate OthersExact(tx: Sending, rx: Receiving) {
    && OtherOnly(rx.receiver.expressed) == OthersOf(tx.captured, rx.delivered)
    && forall i :: i in rx.delivered ==> i < |tx.announced| && i < |tx.captured|
  }

  lemma AnnouncedHere(tx: Sending, i: nat, m: G.Item)
    requires i < |tx.announced| && i < |tx.captured| && m in ItemsOf(tx.captured[i])
    ensures Announced(tx, m)
  {
  }

  lemma AnnouncedStays(tx: Sending, tx': Sending, m: G.Item)
    requires Announced(tx, m) && tx.captured <= tx'.captured && |tx.announced| <= |tx'.announced|
    ensures Announced(tx', m)
  {
    var i :| 0 <= i < |tx.announced| && i < |tx.captured| && tx.captured[i].tag.Sequence?
             && m == G.Item(tx.captured[i].packet.flow, tx.captured[i].tag.num);
    AnnouncedHere(tx', i, m);
  }

  ghost predicate Refines(rx: Receiving) {
    && rx.receiver.table == NameSet(G.Table(rx.arrivals))
    && TcpOnly(rx.receiver.expressed) == AsExpressedAll(G.Log(rx.arrivals))
  }

  /** What the receiver asks for: data names, under the flags that fit them. */
  ghost predicate AsksForData(e: Expressed) {
    && !e.isPre
    && if e.isTCP then exists m: G.Item :: e.name == ItemName(m)
       else exists f: Flow, u: string :: '/' !in u && e.name == DataOther(f, u)
  }

  ghost predicate AllAskForData(es: seq<Expressed>) {
    forall e :: e in es ==> AsksForData(e)
  }

  ghost predicate ReceivingInv(rx: Receiving) {
    Refines(rx) && AllAskForData(rx.receiver.expressed)
  }

  lemma {:induction false} GuessLoopAsksForData(r: Receiver, f: Flow, prefix: string, from: int, k: nat)
    requires AllAskForData(r.expressed)
    requires forall i: int :: prefix + IntToString(i) == DataTcp(f, i)
    ensures AllAskForData(GuessAhead(r, prefix, from, k).expressed)
  {
    hide DataTcp, IntToString;
    if k > 0 {
      GuessLoopAsksForData(r, f, prefix, from, k - 1);
      var m := G.Item(f, from + k);
      assert prefix + IntToString(from + k) == ItemName(m);
      assert AsksForData(Expressed(ItemName(m), false, true));
    }
  }

  /** An announcement only ever reaches the handler written for it, and that handler finds every field it indexes. */
  lemma DispatchIsSound(tx: Sending, i: nat, kind: int, address: u32)
    requires SendingInv(tx) && Dispatched(tx, i, kind, address)
    ensures i < |tx.captured| && kind == (if tx.captured[i].tag.Sequence? then 3 else 1)
    ensures DottedQuad(address) == Destination(tx.captured[i].packet.flow)
    ensures Readable(tx.announced[i], IsPre(kind), IsTCP(kind))
  {
    hide IsNamePrefix, FilterPrefix, PreTcp, PreOther, DottedQuad, Split, CountersExact, AnnouncedNumber;
    var c := tx.captured[i];
    match c.tag
    case Sequence(num) =>
      DispatchAnnouncement(kind, address, c.packet.flow, num, "");
      TcpTranslation(c.packet.flow, num);
    case Uuid(uuid) =>
      DispatchAnnouncement(kind, address, c.packet.flow, 0, uuid);
      OtherTranslation(c.packet.flow, uuid);
  }

  lemma TcpDeliveryKeepsReceiving(rx: Receiving, i: nat, c: Stamped)
    requires ReceivingInv(rx) && c.tag.Sequence? && 0 <= c.tag.num <= MAX_SEQUENCE
    ensures Readable(PreName(c.packet, c.tag), true, true)
    ensures ReceivingInv(DeliverStep(rx, i, PreName(c.packet, c.tag), c, 3))
  {
    hide PreTcp, DataTcp, Split, IntToString, NameSet, TcpOnly, AsExpressedAll, GuessAhead, G.LogStep, G.TableStep,
         FormalTcpName, GuessPrefix, AnnouncedNumber, AllAskForData;
    var a := G.Item(c.packet.flow, c.tag.num);
    var name := PreTcp(a.flow, a.num);
    AnnouncementRefines(rx.receiver, G.Table(rx.arrivals), a);
    assert (rx.arrivals + [a])[..|rx.arrivals|] == rx.arrivals;
    AsExpressedConcat(G.Log(rx.arrivals), G.LogStep(G.Table(rx.arrivals), a));
    TcpTranslation(a.flow, a.num);
    var formal := FormalRequest(rx.receiver, FormalTcpName(name));
    OneMoreAsks(rx.receiver.expressed, a);
    GuessLoopAsksForData(formal, a.flow, GuessPrefix(name), a.num, NUM_OF_GUEST);
  }

  lemma OneMoreAsks(es: seq<Expressed>, m: G.Item)
    requires AllAskForData(es)
    ensures AllAskForData(es + [Expressed(DataTcp(m.flow, m.num), false, true)])
  {
    hide DataTcp;
    assert AsksForData(Expressed(ItemName(m), false, true));
  }

  lemma OtherDeliveryKeepsReceiving(rx: Receiving, i: nat, c: Stamped)
    requires ReceivingInv(rx) && c.tag.Uuid? && '/' !in c.tag.uuid
    ensures Readable(PreName(c.packet, c.tag), true, false)
    ensures ReceivingInv(DeliverStep(rx, i, PreName(c.packet, c.tag), c, 1))
  {
    hide PreOther, DataOther, Split, FormalOtherName, NameSet, TcpOnly, AsExpressedAll, G.Table, G.Log;
    OtherTranslation(c.packet.flow, c.tag.uuid);
    TcpOnlyAppend(rx.receiver.expressed, Expressed(DataOther(c.packet.flow, c.tag.uuid), false, false));
    assert AsksForData(Expressed(DataOther(c.packet.flow, c.tag.uuid), false, false));
    assert rx.arrivals + [] == rx.arrivals;
  }

  lemma DeliverKeepsReceiving(s: State, i: nat, kind: int, address: u32)
    requires SendingInv(s.tx) && ReceivingInv(s.rx) && Enabled(s, Deliver(i, kind, address))
    ensures ReceivingInv(DeliverStep(s.rx, i, s.tx.announced[i], s.tx.captured[i], kind))
  {
    hide InterestEffect, PreName, DottedQuad, IsNamePrefix, FilterPrefix, Readable, ReceivingInv, CountersExact;
    DispatchIsSound(s.tx, i, kind, address);
    var c := s.tx.captured[i];
    if c.tag.Sequence? { TcpDeliveryKeepsReceiving(s.rx, i, c); } else { OtherDeliveryKeepsReceiving(s.rx, i, c); }
  }

  // ---------- re-injection ----------

  /** A re-injected packet is, byte for byte, a captured one, and goes to that packet's own destination. */
  ghost predicate Faithful(captured: seq<Stamped>, x: Sent) {
    exists i :: 0 <= i < |captured| && x == Sent(captured[i].packet.bytes, Destination(captured[i].packet.flow))
  }

  /** The same, with the address as the raw socket reads it. */
  ghost predicate ReachesDestination(captured: seq<Stamped>, x: Sent) {
    exists i :: 0 <= i < |captured| && x.content == captured[i].packet.bytes
                && InetAddr(x.ip) == Some(captured[i].packet.flow.dip)
  }

  lemma FaithfulReaches(captured: seq<Stamped>, x: Sent)
    requires Faithful(captured, x)
    ensures ReachesDestination(captured, x)
  {
    hide InetAddr, Destination;
    var i :| 0 <= i < |captured| && x == Sent(captured[i].packet.bytes, Destination(captured[i].packet.flow));
    DestinationIsAddress(captured[i].packet.flow);
  }

  /** The Interest that asks for a captured packet. */
  function Asks(c: Stamped): Expressed { Expressed(DataName(c.packet, c.tag), false, c.tag.Sequence?) }

  /** What is sent when a captured packet has been asked for. */
  function Reinjected(c: Stamped): Sent { Sent(c.packet.bytes, Destination(c.packet.flow)) }

  /** An answer brought the packet its Interest asked for, and that packet was sent. */
  ghost predicate AnswerExact(tx: Sending, expressed: seq<Expressed>, a: Answered, x: Sent) {
    && a.request < |expressed| && a.data < |tx.published| && a.data < |tx.captured|
    && expressed[a.request] == Asks(tx.captured[a.data])
    && x == Reinjected(tx.captured[a.data])
  }

  ghost predicate OneAnswerEach(answers: seq<Answered>) {
    forall j, k :: 0 <= j < k < |answers| ==> answers[j].request != answers[k].request
  }

  /** What has been sent are the answers, one for one. */
  ghost predicate AnswersExact(tx: Sending, rx: Receiving) {
    && |rx.sent| == |rx.answers|
    && OneAnswerEach(rx.answers)
    && forall k :: 0 <= k < |rx.answers| ==> AnswerExact(tx, rx.receiver.expressed, rx.answers[k], rx.sent[k])
  }

  lemma AnswersFaithful(tx: Sending, rx: Receiving)
    requires AnswersExact(tx, rx)
    ensures forall x :: x in rx.sent ==> Faithful(tx.captured, x)
  {
    hide DataName, Destination;
    forall k | 0 <= k < |rx.sent| ensures Faithful(tx.captured, rx.sent[k]) {
      assert AnswerExact(tx, rx.receiver.expressed, rx.answers[k], rx.sent[k]);
    }
  }

  lemma RequestedName(e: Expressed) returns (f: Flow, m: int, u: string)
    requires AsksForData(e)
    ensures '/' !in u && e.name == if e.isTCP then DataTcp(f, m) else DataOther(f, u)
  {
    if e.isTCP {
      var x: G.Item :| e.name == ItemName(x);
      f, m, u := x.flow, x.num, "";
    } else {
      f, u :| '/' !in u && e.name == DataOther(f, u);
      m := 0;
    }
  }

  /** Data only answers a request for its very name, and the handler finds the destination in it. */
  lemma AnswerIsSound(s: State, r: nat, d: nat)
    requires SendingInv(s.tx) && ReceivingInv(s.rx) && Answerable(s, r, d)
    ensures d < |s.tx.captured| && s.rx.receiver.expressed[r] == Asks(s.tx.captured[d])
    ensures s.rx.receiver.expressed[r].name == s.tx.published[d].name
    ensures DataReadable(s.rx.receiver.expressed[r], s.tx.published[d])
    ensures var e, c := s.rx.receiver.expressed[r], s.tx.captured[d];
            DataEffect(s.tx.published[d], e.isPre, e.isTCP) == [Send(Reinjected(c))]
    ensures SentIn([Send(Reinjected(s.tx.captured[d]))]) == [Reinjected(s.tx.captured[d])]
  {
    hide IsNamePrefix, DataTcp, DataOther, Destination, Split, CountersExact, Ranked, Refines, AsksForData;
    var e, c := s.rx.receiver.expressed[r], s.tx.captured[d];
    assert AsksForData(e);
    assert !e.isPre by { NotPre(e); }
    SentInOne(Reinjected(c));
    var g := c.packet.flow;
    var f, m, u := RequestedName(e);
    match c.tag
    case Sequence(n) =>
      AnswerIsExact(f, m, u, g, n, "");
      TcpDestination(g, n);
    case Uuid(w) =>
      AnswerIsExact(f, m, u, g, 0, w);
      OtherDestination(g, w);
  }

  lemma NotPre(e: Expressed)
    requires AsksForData(e)
    ensures !e.isPre
  {
  }

  // ---------- every run ----------

  ghost predicate Inv(s: State) {
    && SendingInv(s.tx) && ReceivingInv(s.rx)
    && ArrivalsAnnounced(s.tx, s.rx.arrivals) && OthersExact(s.tx, s.rx)
    && AnswersExact(s.tx, s.rx)
  }

  lemma SendingStep(s: State, a: Action)
    requires SendingInv(s.tx) && Enabled(s, a)
    ensures SendingInv(Apply(s, a).tx)
    ensures s.tx.captured <= Apply(s, a).tx.captured && |s.tx.announced| <= |Apply(s, a).tx.announced|
    ensures s.tx.published <= Apply(s, a).tx.published
  {
    hide SendingInv, PreName, DataName, FlowKey, IsNamePrefix, FilterPrefix, Readable, DeliverStep, AnswerStep,
         DataReadable, CanCapture;
    match a
    case Capture(p, uuid) => CaptureKeepsSending(s.tx, p, uuid);
    case Publish => PublishKeepsSending(s.tx);
    case Announce => AnnounceKeepsSending(s.tx);
    case _ =>
  }

  lemma ReceivingStep(s: State, a: Action)
    requires SendingInv(s.tx) && ReceivingInv(s.rx) && Enabled(s, a)
    ensures ReceivingInv(Apply(s, a).rx)
  {
    hide SendingInv, NameSet, TcpOnly, AsExpressedAll, G.Table, G.Log, AllAskForData, PreName, DataName, FlowKey,
         IsNamePrefix, FilterPrefix, Readable, DeliverStep, DataReadable, CanCapture,
         CaptureStep, PublishStep, AnnounceStep;
    if a.Deliver? {
      DeliverKeepsReceiving(s, a.announcement, a.kind, a.address);
    }
  }

  lemma ArrivalsStep(s: State, a: Action)
    requires ArrivalsAnnounced(s.tx, s.rx.arrivals) && SendingInv(s.tx) && Enabled(s, a)
    ensures ArrivalsAnnounced(Apply(s, a).tx, Apply(s, a).rx.arrivals)
  {
    hide Announced, SendingInv, PreName, DataName, FlowKey, IsNamePrefix, FilterPrefix, Readable, InterestEffect,
         DataReadable, CanCapture, DataEffect, SentIn, CountersAfter, TagOf, ItemsOf;
    var s' := Apply(s, a);
    SendingStep(s, a);
    forall m | m in s'.rx.arrivals ensures Announced(s'.tx, m) {
      if m in s.rx.arrivals {
        AnnouncedStays(s.tx, s'.tx, m);
      } else {
        AnnouncedHere(s.tx, a.announcement, m);
      }
    }
  }

  lemma ExpressedStep(s: State, a: Action)
    requires Enabled(s, a)
    ensures s.rx.receiver.expressed <= Apply(s, a).rx.receiver.expressed
    ensures !a.Deliver? ==> Apply(s, a).rx.receiver == s.rx.receiver
  {
    hide IsNamePrefix, FilterPrefix, Readable, InterestEffect, CaptureStep, PublishStep, AnnounceStep, CanCapture,
         DataEffect, SentIn, DataReadable;
    if a.Deliver? {
      InterestExtends(s.rx.receiver, s.tx.announced[a.announcement], IsPre(a.kind), IsTCP(a.kind));
    }
  }

  lemma InterestExtends(r: Receiver, name: string, isPre: bool, isTCP: bool)
    requires Readable(name, isPre, isTCP)
    ensures r.expressed <= InterestEffect(r, name, isPre, isTCP).expressed
  {
    hide Split, FormalTcpName, FormalOtherName, GuessPrefix, AnnouncedNumber, GuessAhead;
    if isPre && isTCP && AnnouncedNumber(name).Some? {
      var formal := FormalRequest(r, FormalTcpName(name));
      GuessLoopExtends(formal, GuessPrefix(name), AnnouncedNumber(name).value, NUM_OF_GUEST);
    }
  }

  lemma OtherOnlyAppend(e: seq<Expressed>, x: Expressed)
    ensures OtherOnly(e + [x]) == OtherOnly(e) + if x.isTCP then [] else [x]
  {
    assert (e + [x])[..|e|] == e;
  }

  lemma {:induction false} GuessLoopOthers(r: Receiver, prefix: string, from: int, k: nat)
    ensures OtherOnly(GuessAhead(r, prefix, from, k).expressed) == OtherOnly(r.expressed)
  {
    hide OtherOnly, IntToString;
    if k > 0 {
      GuessLoopOthers(r, prefix, from, k - 1);
      var before := GuessAhead(r, prefix, from, k - 1).expressed;
      OtherOnlyAppend(before, Expressed(prefix + IntToString(from + k), false, true));
    }
  }

  /** A delivered announcement adds the request for its packet, if of another protocol, and no other of that kind. */
  lemma OthersAsked(r: Receiver, p: Packet, tag: Tag)
    requires tag.Sequence? ==> 0 <= tag.num <= MAX_SEQUENCE
    requires tag.Uuid? ==> '/' !in tag.uuid
    ensures Readable(PreName(p, tag), true, tag.Sequence?)
    ensures OtherOnly(InterestEffect(r, PreName(p, tag), true, tag.Sequence?).expressed) ==
            OtherOnly(r.expressed) + if tag.Uuid? then [Asks(Stamped(p, tag))] else []
  {
    hide PreTcp, DataTcp, PreOther, DataOther, Split, FormalTcpName, GuessPrefix, AnnouncedNumber, GuessAhead,
         OtherOnly, InterestEffect;
    match tag
    case Sequence(num) =>
      TcpTranslation(p.flow, num);
      TcpEffect(r, PreTcp(p.flow, num), num);
      var formal := FormalRequest(r, FormalTcpName(PreTcp(p.flow, num)));
      OtherOnlyAppend(r.expressed, Expressed(FormalTcpName(PreTcp(p.flow, num)), false, true));
      GuessLoopOthers(formal, GuessPrefix(PreTcp(p.flow, num)), num, NUM_OF_GUEST);
    case Uuid(uuid) =>
      OtherAskedOnce(r, p.flow, uuid);
      OtherOnlyAppend(r.expressed, Asks(Stamped(p, tag)));
  }

  lemma TcpEffect(r: Receiver, name: string, num: int)
    requires Readable(name, true, true) && AnnouncedNumber(name) == Some(num)
    ensures InterestEffect(r, name, true, true) ==
            GuessAhead(FormalRequest(r, FormalTcpName(name)), GuessPrefix(name), num, NUM_OF_GUEST)
  {
    hide GuessAhead, FormalTcpName, GuessPrefix, AnnouncedNumber, Split;
  }

  /** Requests are for packets that keep their places while more are captured. */
  lemma {:induction false} OthersOfStays(c: seq<Stamped>, c': seq<Stamped>, delivered: seq<nat>)
    requires c <= c' && forall i :: i in delivered ==> i < |c|
    ensures OthersOf(c', delivered) == OthersOf(c, delivered)
  {
    hide Asks;
    if delivered != [] {
      var n := |delivered| - 1;
      assert forall i :: i in delivered[..n] ==> i in delivered;
      OthersOfStays(c, c', delivered[..n]);
      assert delivered[n] in delivered && c'[delivered[n]] == c[delivered[n]];
    }
  }

  lemma OthersStep(s: State, a: Action)
    requires OthersExact(s.tx, s.rx) && SendingInv(s.tx) && Enabled(s, a)
    ensures OthersExact(Apply(s, a).tx, Apply(s, a).rx)
  {
    hide SendingInv, PreName, DataName, FlowKey, IsNamePrefix, FilterPrefix, Readable, InterestEffect, DataReadable,
         CanCapture, DataEffect, SentIn, CountersAfter, TagOf, ItemsOf, OtherOnly, OthersOf;
    var s' := Apply(s, a);
    SendingStep(s, a);
    OthersOfStays(s.tx.captured, s'.tx.captured, s.rx.delivered);
    if a.Deliver? {
      OtherDelivered(s, a.announcement, a.kind, a.address);
    } else {
      ExpressedStep(s, a);
      assert s'.rx.delivered == s.rx.delivered;
    }
  }

  lemma OtherDelivered(s: State, i: nat, kind: int, address: u32)
    requires OthersExact(s.tx, s.rx) && SendingInv(s.tx) && Enabled(s, Deliver(i, kind, address))
    ensures OthersExact(s.tx, DeliverStep(s.rx, i, s.tx.announced[i], s.tx.captured[i], kind))
  {
    hide IsNamePrefix, FilterPrefix, Readable, InterestEffect, PreName, OtherOnly, CountersExact, Asks, DottedQuad,
         Destination;
    DispatchIsSound(s.tx, i, kind, address);
    var c := s.tx.captured[i];
    OthersAsked(s.rx.receiver, c.packet, c.tag);
    assert (s.rx.delivered + [i])[..|s.rx.delivered|] == s.rx.delivered;
  }

  /** An exact answer stays one while the logs grow. */
  lemma AnswerStays(tx: Sending, tx': Sending, es: seq<Expressed>, es': seq<Expressed>, a: Answered, x: Sent)
    requires AnswerExact(tx, es, a, x)
    requires es <= es' && tx.captured <= tx'.captured && tx.published <= tx'.published
    ensures AnswerExact(tx', es', a, x)
  {
    hide DataName, Destination;
    assert tx'.captured[a.data] == tx.captured[a.data] && es'[a.request] == es[a.request];
  }

  lemma AnswersStep(s: State, a: Action)
    requires AnswersExact(s.tx, s.rx) && SendingInv(s.tx) && ReceivingInv(s.rx) && Enabled(s, a)
    ensures AnswersExact(Apply(s, a).tx, Apply(s, a).rx)
  {
    hide SendingInv, ReceivingInv, PreName, DataName, FlowKey, IsNamePrefix, FilterPrefix, Readable, InterestEffect,
         CanCapture, DataEffect, SentIn, CountersAfter, TagOf, Destination, AnswerExact, Dispatched;
    var s' := Apply(s, a);
    SendingStep(s, a);
    ExpressedStep(s, a);
    if a.Answer? { NewAnswer(s, a.request, a.data); }
    forall k | 0 <= k < |s'.rx.answers|
      ensures |s'.rx.sent| == |s'.rx.answers|
      ensures AnswerExact(s'.tx, s'.rx.receiver.expressed, s'.rx.answers[k], s'.rx.sent[k])
    {
      if k < |s.rx.answers| {
        AnswerStays(s.tx, s'.tx, s.rx.receiver.expressed, s'.rx.receiver.expressed, s.rx.answers[k], s.rx.sent[k]);
      }
    }
  }

  lemma NewAnswer(s: State, r: nat, d: nat)
    requires SendingInv(s.tx) && ReceivingInv(s.rx) && Enabled(s, Answer(r, d))
    ensures d < |s.tx.captured|
    ensures Apply(s, Answer(r, d)).rx.sent == s.rx.sent + [Reinjected(s.tx.captured[d])]
    ensures AnswerExact(s.tx, s.rx.receiver.expressed, Answered(r, d), Reinjected(s.tx.captured[d]))
  {
    hide SendingInv, ReceivingInv, DataName, Destination, IsNamePrefix, DataEffect, SentIn, DataReadable;
    AnswerIsSound(s, r, d);
  }

  lemma {:induction false} EveryRunKeepsInv(actions: seq<Action>)
    requires Run(actions).Some?
    ensures Inv(Run(actions).value)
  {
    hide Enabled, Apply, SendingInv, ReceivingInv, ArrivalsAnnounced, OthersExact, AnswersExact;
    if actions == [] {
      InitInv();
    } else {
      var n := |actions| - 1;
      EveryRunKeepsInv(actions[..n]);
      var s := Run(actions[..n]).value;
      SendingStep(s, actions[n]);
      ReceivingStep(s, actions[n]);
      ArrivalsStep(s, actions[n]);
      OthersStep(s, actions[n]);
      AnswersStep(s, actions[n]);
    }
  }

  lemma InitInv()
    ensures Inv(Init())
  {
    hide FlowKey;
  }

  /** Main theorem: after any run, no two publications share a name, and everything re-injected is byte for byte a
      captured packet, sent to its own destination address. */
  lemma EndToEndSafety(actions: seq<Action>)
    requires Run(actions).Some?
    ensures var s := Run(actions).value;
            && (forall i, j :: 0 <= i < j < |s.tx.published| ==> s.tx.published[i].name != s.tx.published[j].name)
            && (forall x :: x in s.rx.sent ==> Faithful(s.tx.captured, x) && ReachesDestination(s.tx.captured, x))
  {
    hide Run, ReceivingInv, CountersExact, DataName, PreName, Destination, AnswersExact;
    EveryRunKeepsInv(actions);
    AnswersFaithful(Run(actions).value.tx, Run(actions).value.rx);
    forall x | x in Run(actions).value.rx.sent ensures ReachesDestination(Run(actions).value.tx.captured, x) {
      FaithfulReaches(Run(actions).value.tx.captured, x);
    }
    var tx := Run(actions).value.tx;
    forall i, j | 0 <= i < j < |tx.published| ensures tx.published[i].name != tx.published[j].name {
      DataNamesDistinct(tx.captured, i, j);
    }
  }

  /** After any run the packets of a 4-tuple are numbered 1, 2, ... in capture order and its counter is their number. */
  lemma SenderNumbering(actions: seq<Action>)
    requires Run(actions).Some?
    ensures var tx := Run(actions).value.tx;
            Ranked(tx.captured) && CountersExact(tx.counters, tx.captured)
  {
    hide Run, ReceivingInv;
    EveryRunKeepsInv(actions);
  }

  /** After any run each announcement, wherever the network delivers it, makes the receiver ask formally for the name of
      Data that is already published. */
  lemma PublishBeforeAnnounce(actions: seq<Action>, i: nat)
    requires Run(actions).Some? && i < |Run(actions).value.tx.announced|
    ensures var tx := Run(actions).value.tx;
            && i < |tx.published| && i < |tx.captured|
            && |Split(tx.announced[i], '/')| == (if tx.captured[i].tag.Sequence? then 7 else 6)
            && tx.published[i].name ==
               if tx.captured[i].tag.Sequence? then FormalTcpName(tx.announced[i]) else FormalOtherName(tx.announced[i])
  {
    hide Run, ReceivingInv, CountersExact, PreTcp, DataTcp, PreOther, DataOther, Split, FormalTcpName,
         FormalOtherName;
    EveryRunKeepsInv(actions);
    var c := Run(actions).value.tx.captured[i];
    match c.tag
    case Sequence(num) => TcpTranslation(c.packet.flow, num);
    case Uuid(uuid) => OtherTranslation(c.packet.flow, uuid);
  }

  /** The sequence number in an announcement is there and fits an `int`. */
  predicate NumberParses(name: string) {
    && |Split(name, '/')| >= 7 && |Split(Split(name, '/')[6], '-')| >= 3
    && AnnouncedNumber(name).Some?
  }

  /** After any run no handler the network can trigger meets a name it cannot take apart: the guards of Deliver and
      Answer beyond matching are always met. */
  lemma HandlersNeverFault(actions: seq<Action>)
    requires Run(actions).Some?
    ensures var s := Run(actions).value;
            && (forall i: nat, kind, address ::
                  Dispatched(s.tx, i, kind, address) ==>
                    && Enabled(s, Deliver(i, kind, address))
                    && (IsTCP(kind) ==> NumberParses(s.tx.announced[i])))
            && (forall r: nat, d: nat :: Answerable(s, r, d) ==> Enabled(s, Answer(r, d)))
  {
    hide Run, SendingInv, ReceivingInv, Readable, DataReadable, IsNamePrefix, FilterPrefix, DottedQuad, Destination,
         DataEffect, IsPre, NumberParses;
    EveryRunKeepsInv(actions);
    var s := Run(actions).value;
    forall i: nat, kind, address: u32 | Dispatched(s.tx, i, kind, address)
      ensures Enabled(s, Deliver(i, kind, address))
      ensures IsTCP(kind) ==> NumberParses(s.tx.announced[i])
    {
      DispatchIsSound(s.tx, i, kind, address);
      if IsTCP(kind) {
        AnnouncementParses(s.tx, i);
      }
    }
    forall r: nat, d: nat | Answerable(s, r, d) ensures Enabled(s, Answer(r, d)) {
      AnswerIsSound(s, r, d);
    }
  }

  lemma AnnouncementParses(tx: Sending, i: nat)
    requires SendingInv(tx) && i < |tx.announced| && i < |tx.captured| && tx.captured[i].tag.Sequence?
    ensures NumberParses(tx.announced[i]) && AnnouncedNumber(tx.announced[i]) == Some(tx.captured[i].tag.num)
  {
    hide CountersExact, PreTcp, Split, AnnouncedNumber;
    TcpTranslation(tx.captured[i].packet.flow, tx.captured[i].tag.num);
  }

  // ---------- the protocol theorems, over the strings of any run ----------

  lemma {:induction false} CountTcpOnly(e: seq<Expressed>, x: Expressed)
    requires x.isTCP
    ensures G.Count(e, x) == G.Count(TcpOnly(e), x)
  {
    if e != [] {
      var n := |e| - 1;
      CountTcpOnly(e[..n], x);
      G.CountConcat(TcpOnly(e[..n]), if e[n].isTCP then [e[n]] else [], x);
      assert [e[n]][..0] == [];
    }
  }

  lemma {:induction false} CountAsExpressed(log: seq<G.Request>, m: G.Item)
    ensures G.Count(AsExpressedAll(log), Expressed(ItemName(m), false, true)) ==
            G.Count(log, G.Formal(m)) + G.Count(log, G.Guess(m))
  {
    hide DataTcp;
    if log != [] {
      var n := |log| - 1;
      CountAsExpressed(log[..n], m);
      var all := AsExpressedAll(log[..n]);
      assert (all + [AsExpressed(log[n])])[..|all|] == all;
      DataTcpInjective(log[n].item.flow, log[n].item.num, m.flow, m.num);
    }
  }

  /** How often the receiver has expressed an Interest in a TCP data name. */
  function TimesRequested(rx: Receiving, m: G.Item): nat {
    G.Count(rx.receiver.expressed, Expressed(ItemName(m), false, true))
  }

  /** After any run, a packet's data name has been requested at most twice per arrival of its announcement, plus once;
      the guess table of strings is the one the history of arrivals determines. */
  lemma RequestsBounded(actions: seq<Action>, m: G.Item)
    requires Run(actions).Some?
    ensures var rx := Run(actions).value.rx;
            && TimesRequested(rx, m) == G.Requests(rx.arrivals, m)
            && TimesRequested(rx, m) <= 2 * G.Announcements(rx.arrivals, m) + 1
            && (ItemName(m) in rx.receiver.table <==> m in G.Table(rx.arrivals))
  {
    hide Run, SendingInv, ItemName, NameSet, G.Table, G.Log, G.Count, TcpOnly, AsExpressedAll, G.Erasures;
    EveryRunKeepsInv(actions);
    var rx := Run(actions).value.rx;
    CountTcpOnly(rx.receiver.expressed, Expressed(ItemName(m), false, true));
    CountAsExpressed(G.Log(rx.arrivals), m);
    G.RequestAccounting(rx.arrivals, m);
    NameSetMember(G.Table(rx.arrivals), m);
  }

  /** Only guesses run ahead of the sender: after any run, whatever has been asked for formally is published, TCP and
      UDP packets as well as those of other protocols, which are never guessed. */
  lemma FormalRequestsPublished(actions: seq<Action>)
    requires Run(actions).Some?
    ensures var s := Run(actions).value;
            && (forall m :: G.Formal(m) in G.Log(s.rx.arrivals) ==> Published(s.tx, ItemName(m)))
            && (forall e :: e in s.rx.receiver.expressed && !e.isTCP ==> Published(s.tx, e.name))
  {
    hide Run, SendingInv, ReceivingInv, DataTcp, G.Log, G.Table, G.Count, G.Erasures, Published, AnswersExact,
         Announced, OtherOnly, OthersOf;
    EveryRunKeepsInv(actions);
    var s := Run(actions).value;
    forall m | G.Formal(m) in G.Log(s.rx.arrivals) ensures Published(s.tx, ItemName(m)) {
      G.RequestAccounting(s.rx.arrivals, m);
      G.CountZero(G.Log(s.rx.arrivals), G.Formal(m));
      G.CountZero(s.rx.arrivals, m);
      AnnouncedIsPublished(s.tx, m);
    }
    forall e | e in s.rx.receiver.expressed && !e.isTCP ensures Published(s.tx, e.name) {
      OtherOnlyMember(s.rx.receiver.expressed, e);
      OthersOfPublished(s.tx, s.rx.delivered, e);
    }
  }

  lemma {:induction false} OtherOnlyMember(es: seq<Expressed>, e: Expressed)
    requires e in es && !e.isTCP
    ensures e in OtherOnly(es)
  {
    var n := |es| - 1;
    if es[n] != e {
      OtherOnlyMember(es[..n], e);
    }
  }

  lemma {:induction false} OthersOfPublished(tx: Sending, delivered: seq<nat>, e: Expressed)
    requires SendingInv(tx) && e in OthersOf(tx.captured, delivered)
    requires forall i :: i in delivered ==> i < |tx.announced| && i < |tx.captured|
    ensures Published(tx, e.name)
  {
    hide Ranked, CountersExact, UuidsDistinct, DataName, PreName;
    var n := |delivered| - 1;
    assert delivered[n] in delivered;
    assert forall i :: i in delivered[..n] ==> i in delivered;
    if e in OthersOf(tx.captured, delivered[..n]) {
      OthersOfPublished(tx, delivered[..n], e);
    } else {
      assert tx.published[delivered[n]].name == e.name;
    }
  }

  lemma {:induction false} CountOtherOnly(es: seq<Expressed>, x: Expressed)
    requires !x.isTCP
    ensures G.Count(es, x) == G.Count(OtherOnly(es), x)
  {
    if es != [] {
      var n := |es| - 1;
      CountOtherOnly(es[..n], x);
      G.CountConcat(OtherOnly(es[..n]), if es[n].isTCP then [] else [es[n]], x);
      assert [es[n]][..0] == [];
    }
  }

  lemma {:induction false} CountOthersOf(c: seq<Stamped>, delivered: seq<nat>, i: nat)
    requires Ranked(c) && UuidsDistinct(c) && i < |c| && c[i].tag.Uuid?
    requires forall k :: k in delivered ==> k < |c|
    ensures G.Count(OthersOf(c, delivered), Asks(c[i])) == G.Count(delivered, i)
  {
    hide Ranked, UuidsDistinct, DataName;
    if delivered != [] {
      var n := |delivered| - 1;
      var k := delivered[n];
      assert k in delivered;
      assert forall j :: j in delivered[..n] ==> j in delivered;
      CountOthersOf(c, delivered[..n], i);
      DataNamesDistinct(c, k, i);
      var last := if c[k].tag.Uuid? then [Asks(c[k])] else [];
      G.CountConcat(OthersOf(c, delivered[..n]), last, Asks(c[i]));
      assert [Asks(c[k])][..0] == [];
    }
  }

  /** After any run a packet of another protocol has been requested exactly as often as its announcement was
      delivered. */
  lemma OtherRequestsExact(actions: seq<Action>, i: nat)
    requires Run(actions).Some? && i < |Run(actions).value.tx.captured| && Run(actions).value.tx.captured[i].tag.Uuid?
    ensures var s := Run(actions).value;
            G.Count(s.rx.receiver.expressed, Asks(s.tx.captured[i])) == G.Count(s.rx.delivered, i)
  {
    hide Run, ReceivingInv, CountersExact, Ranked, UuidsDistinct, LogsFollow, DataName, OtherOnly, OthersOf, G.Count,
         AnswersExact, ArrivalsAnnounced;
    EveryRunKeepsInv(actions);
    var s := Run(actions).value;
    CountOtherOnly(s.rx.receiver.expressed, Asks(s.tx.captured[i]));
    CountOthersOf(s.tx.captured, s.rx.delivered, i);
  }

  /** A request that arrives at a gateway, at whichever of its filters it matches, is taken for what it is, and changes
      and causes nothing: the forwarder answers it from what was published. */
  lemma RequestsIgnored(r: Receiver, kind: int, address: u32, f: Flow, num: int, uuid: string)
    requires 1 <= kind <= 4
    ensures IsNamePrefix(FilterPrefix(kind, DottedQuad(address)), DataTcp(f, num)) ==>
              && IsTCP(kind)
              && Readable(DataTcp(f, num), IsPre(kind), IsTCP(kind))
              && InterestEffect(r, DataTcp(f, num), IsPre(kind), IsTCP(kind)) == r
    ensures IsNamePrefix(FilterPrefix(kind, DottedQuad(address)), DataOther(f, uuid)) ==>
              && !IsTCP(kind)
              && Readable(DataOther(f, uuid), IsPre(kind), IsTCP(kind))
              && InterestEffect(r, DataOther(f, uuid), IsPre(kind), IsTCP(kind)) == r
  {
    hide IsNamePrefix, FilterPrefix, DataTcp, DataOther, DottedQuad, Split;
    DispatchRequest(kind, address, f, num, uuid);
  }

  lemma AnnouncedIsPublished(tx: Sending, m: G.Item)
    requires SendingInv(tx) && Announced(tx, m)
    ensures Published(tx, ItemName(m))
  {
    hide CountersExact, Ranked, UuidsDistinct, DataTcp, PreName;
    var i :| 0 <= i < |tx.announced| && i < |tx.captured| && tx.captured[i].tag.Sequence?
             && m == G.Item(tx.captured[i].packet.flow, tx.captured[i].tag.num);
    assert tx.published[i].name == ItemName(m);
  }
}
