/** What runs of the tunnel deliver: how often, past which losses, and which histories of arrivals runs have. */
module Deliveries {
  import opened Words
  import opened Text
  import opened Names
  import opened Tables
  import opened Gateway
  import opened Tunnel
  import G = Guessing

  // ---------- copies ----------

  /** How many answers brought the `d`-th packet. */
  function Copies(answers: seq<Answered>, d: nat): nat {
    if answers == [] then 0
    else Copies(answers[..|answers| - 1], d) + if answers[|answers| - 1].data == d then 1 else 0
  }

  /** The Interests among the first `n` that equal `e`, by position. */
  function Positions(es: seq<Expressed>, e: Expressed, n: nat): set<nat>
    requires n <= |es|
  {
    set r: nat | r < n && es[r] == e
  }

  lemma {:induction false} PositionsCount(es: seq<Expressed>, e: Expressed, n: nat)
    requires n <= |es|
    ensures |Positions(es, e, n)| == G.Count(es[..n], e)
  {
    if n > 0 {
      PositionsCount(es, e, n - 1);
      assert es[..n][..n - 1] == es[..n - 1];
      var before := Positions(es, e, n - 1);
      assert Positions(es, e, n) == if es[n - 1] == e then before + {n - 1} else before;
    }
  }

  /** The Interests answered with the `d`-th packet. */
  function AnsweredWith(answers: seq<Answered>, d: nat): set<nat> {
    if answers == [] then {}
    else
      var last := answers[|answers| - 1];
      AnsweredWith(answers[..|answers| - 1], d) + if last.data == d then {last.request} else {}
  }

  lemma {:induction false} AnsweredMember(answers: seq<Answered>, d: nat, r: nat)
    requires r in AnsweredWith(answers, d)
    ensures Answered(r, d) in answers
  {
    var n := |answers| - 1;
    if answers[n] != Answered(r, d) {
      AnsweredMember(answers[..n], d, r);
    }
  }

  lemma {:induction false} CopiesCount(answers: seq<Answered>, d: nat)
    requires OneAnswerEach(answers)
    ensures |AnsweredWith(answers, d)| == Copies(answers, d)
  {
    if answers != [] {
      var n := |answers| - 1;
      CopiesCount(answers[..n], d);
      if answers[n].request in AnsweredWith(answers[..n], d) {
        AnsweredMember(answers[..n], d, answers[n].request);
      }
    }
  }

  lemma CopiesWithinRequests(tx: Sending, rx: Receiving, d: nat)
    requires AnswersExact(tx, rx) && d < |tx.captured|
    ensures Copies(rx.answers, d) <= G.Count(rx.receiver.expressed, Asks(tx.captured[d]))
  {
    hide G.Count, Copies, Asks, Reinjected;
    var es, e := rx.receiver.expressed, Asks(tx.captured[d]);
    CopiesCount(rx.answers, d);
    PositionsCount(es, e, |es|);
    assert es[..|es|] == es;
    forall r | r in AnsweredWith(rx.answers, d) ensures r in Positions(es, e, |es|) {
      AnsweredMember(rx.answers, d, r);
      var k :| 0 <= k < |rx.answers| && rx.answers[k] == Answered(r, d);
      assert AnswerExact(tx, es, rx.answers[k], rx.sent[k]);
    }
    SubsetSize(AnsweredWith(rx.answers, d), Positions(es, e, |es|));
  }

  lemma {:induction false} SubsetSize(a: set<nat>, b: set<nat>)
    requires a <= b
    ensures |a| <= |b|
  {
    if a != {} {
      var x :| x in a;
      SubsetSize(a - {x}, b - {x});
    }
  }

  /** After any run the packets sent are those the answers brought, one for one; a packet was sent no more often than
      it was asked for, and so, if TCP or UDP, at most twice per arrival of its announcement, plus once, and otherwise
      at most once per delivery of it. */
  lemma CopiesBounded(actions: seq<Action>, d: nat)
    requires Run(actions).Some? && d < |Run(actions).value.tx.captured|
    ensures var s := Run(actions).value;
            var c := s.tx.captured[d];
            && |s.rx.sent| == |s.rx.answers|
            && (forall k :: 0 <= k < |s.rx.answers| ==>
                  && s.rx.answers[k].data < |s.tx.captured|
                  && s.rx.sent[k] == Reinjected(s.tx.captured[s.rx.answers[k].data]))
            && Copies(s.rx.answers, d) <= G.Count(s.rx.receiver.expressed, Asks(c))
            && (c.tag.Sequence? ==>
                  Copies(s.rx.answers, d) <= 2 * G.Announcements(s.rx.arrivals, G.Item(c.packet.flow, c.tag.num)) + 1)
            && (c.tag.Uuid? ==> Copies(s.rx.answers, d) <= G.Count(s.rx.delivered, d))
  {
    hide Run, SendingInv, ReceivingInv, DataTcp, Reinjected, Copies, G.Count, G.Announcements, G.Requests;
    EveryRunKeepsInv(actions);
    var s := Run(actions).value;
    CopiesWithinRequests(s.tx, s.rx, d);
    forall k | 0 <= k < |s.rx.answers|
      ensures s.rx.answers[k].data < |s.tx.captured|
      ensures s.rx.sent[k] == Reinjected(s.tx.captured[s.rx.answers[k].data])
    {
      assert AnswerExact(s.tx, s.rx.receiver.expressed, s.rx.answers[k], s.rx.sent[k]);
    }
    var c := s.tx.captured[d];
    if c.tag.Sequence? {
      RequestsBounded(actions, G.Item(c.packet.flow, c.tag.num));
    } else {
      OtherRequestsExact(actions, d);
    }
  }

  /** After any run in which the arrived announcements of a flow leave gaps of at most 61, every captured packet of the
      flow from the least arrival to sixty past the greatest has had its data name requested. */
  lemma CapturedPacketsRequested(actions: seq<Action>, flow: Flow, least: int, greatest: int, i: nat)
    requires Run(actions).Some?
    requires var h := Run(actions).value.rx.arrivals;
             && G.Arrived(h, flow, least) && G.Arrived(h, flow, greatest)
             && (forall n :: G.Arrived(h, flow, n) ==> least <= n <= greatest)
             && G.GapsAtMost61(h, flow, greatest)
    requires i < |Run(actions).value.tx.captured|
    requires var c := Run(actions).value.tx.captured[i];
             c.packet.flow == flow && c.tag.Sequence? && least <= c.tag.num <= greatest + NUM_OF_GUEST
    ensures var s := Run(actions).value;
            Expressed(DataName(s.tx.captured[i].packet, s.tx.captured[i].tag), false, true) in s.rx.receiver.expressed
  {
    hide Run, Inv, G.Table, G.Log, G.Count, G.Arrived, G.GapsAtMost61, DataTcp;
    var s := Run(actions).value;
    G.LossTolerance(s.rx.arrivals, flow, least, greatest);
    var m := G.Item(flow, s.tx.captured[i].tag.num);
    assert G.Requested(s.rx.arrivals, m);
    RequestsBounded(actions, m);
    G.CountZero(G.Log(s.rx.arrivals), G.Formal(m));
    G.CountZero(G.Log(s.rx.arrivals), G.Guess(m));
    G.CountZero(s.rx.receiver.expressed, Expressed(ItemName(m), false, true));
  }

  /** The `d`-th packet has been sent on, or some request of it is still open and its answer sends it on. */
  ghost predicate SentOrNext(actions: seq<Action>, d: nat)
    requires Run(actions).Some? && d < |Run(actions).value.tx.captured|
  {
    var s := Run(actions).value;
    var x := Reinjected(s.tx.captured[d]);
    || (Copies(s.rx.answers, d) > 0 && x in s.rx.sent)
    || exists r :: SendsOn(actions, r, d, x)
  }

  ghost predicate SendsOn(actions: seq<Action>, r: nat, d: nat, x: Sent)
    requires Run(actions).Some?
  {
    var after := Run(actions + [Answer(r, d)]);
    after.Some? && after.value.rx.sent == Run(actions).value.rx.sent + [x]
  }

  lemma {:induction false} CopyExists(answers: seq<Answered>, k: nat)
    requires k < |answers|
    ensures Copies(answers, answers[k].data) > 0
  {
    var n := |answers| - 1;
    if k < n {
      CopyExists(answers[..n], k);
    }
  }

  /** The `r`-th Interest asks for the `d`-th packet and has not been answered. */
  predicate Open(tx: Sending, rx: Receiving, r: nat, d: nat) {
    && r < |rx.receiver.expressed| && d < |tx.captured|
    && rx.receiver.expressed[r] == Asks(tx.captured[d])
    && forall k :: 0 <= k < |rx.answers| ==> rx.answers[k].request != r
  }

  /** An open request for a published packet can be answered, and the answer is sent on. */
  lemma OneMoreAnswer(actions: seq<Action>, r: nat, d: nat)
    requires Run(actions).Some?
    requires var s := Run(actions).value; d < |s.tx.published| && Open(s.tx, s.rx, r, d)
    ensures var s, after := Run(actions).value, Run(actions + [Answer(r, d)]);
            && after.Some? && after.value.tx == s.tx
            && after.value.rx == s.rx.(answers := s.rx.answers + [Answered(r, d)],
                                       sent := s.rx.sent + [Reinjected(s.tx.captured[d])])
  {
    hide Run, ReceivingInv, CountersExact, Ranked, UuidsDistinct, DataName, Reinjected, IsNamePrefix, DataReadable,
         DataEffect, SentIn, PreName, AnswersExact, OthersExact;
    EveryRunKeepsInv(actions);
    var s := Run(actions).value;
    SameNamePrefix(s.tx.published[d].name);
    AnswerIsSound(s, r, d);
    RunExtends(actions, Answer(r, d));
  }

  /** A published packet that has been requested is sent on. */
  lemma RequestedIsSent(actions: seq<Action>, r: nat, d: nat)
    requires Run(actions).Some?
    requires var s := Run(actions).value;
             && d < |s.tx.published| && d < |s.tx.captured|
             && r < |s.rx.receiver.expressed| && s.rx.receiver.expressed[r] == Asks(s.tx.captured[d])
    ensures SentOrNext(actions, d)
  {
    hide Run, ReceivingInv, CountersExact, Ranked, UuidsDistinct, DataName, Reinjected, Copies, PreName;
    EveryRunKeepsInv(actions);
    var s := Run(actions).value;
    if k :| 0 <= k < |s.rx.answers| && s.rx.answers[k].request == r {
      AnswersItsPacket(s.tx, s.rx, k, d);
      CopyExists(s.rx.answers, k);
      assert s.rx.sent[k] == Reinjected(s.tx.captured[d]);
    } else {
      OneMoreAnswer(actions, r, d);
      assert SendsOn(actions, r, d, Reinjected(s.tx.captured[d]));
    }
  }

  /** A request for a packet is answered with no other. */
  lemma AnswersItsPacket(tx: Sending, rx: Receiving, k: nat, d: nat)
    requires SendingInv(tx) && AnswersExact(tx, rx) && k < |rx.answers| && d < |tx.captured|
    requires rx.answers[k].request < |rx.receiver.expressed|
    requires rx.receiver.expressed[rx.answers[k].request] == Asks(tx.captured[d])
    ensures rx.answers[k].data == d && rx.sent[k] == Reinjected(tx.captured[d])
  {
    hide CountersExact, Ranked, UuidsDistinct, DataName, Reinjected, PreName, LogsFollow;
    assert AnswerExact(tx, rx.receiver.expressed, rx.answers[k], rx.sent[k]);
    DataNamesDistinct(tx.captured, rx.answers[k].data, d);
  }

  /** What the guesses are for: under the same condition on gaps every published packet in range has been sent on or is
      one answer away from it, whether or not its own announcement ever arrived. */
  lemma GapsAreBridged(actions: seq<Action>, flow: Flow, least: int, greatest: int, i: nat)
    requires Run(actions).Some?
    requires var h := Run(actions).value.rx.arrivals;
             && G.Arrived(h, flow, least) && G.Arrived(h, flow, greatest)
             && (forall n :: G.Arrived(h, flow, n) ==> least <= n <= greatest)
             && G.GapsAtMost61(h, flow, greatest)
    requires i < |Run(actions).value.tx.published| && i < |Run(actions).value.tx.captured|
    requires var c := Run(actions).value.tx.captured[i];
             c.packet.flow == flow && c.tag.Sequence? && least <= c.tag.num <= greatest + NUM_OF_GUEST
    ensures SentOrNext(actions, i)
  {
    hide Run, G.Arrived, G.GapsAtMost61, DataName, SentOrNext;
    CapturedPacketsRequested(actions, flow, least, greatest, i);
    var s := Run(actions).value;
    var r :| 0 <= r < |s.rx.receiver.expressed| && s.rx.receiver.expressed[r] == Asks(s.tx.captured[i]);
    RequestedIsSent(actions, r, i);
  }

  // ---------- a loss-free exchange delivers ----------

  lemma RunExtends(actions: seq<Action>, a: Action)
    requires Run(actions).Some? && Enabled(Run(actions).value, a)
    ensures Run(actions + [a]) == Some(Apply(Run(actions).value, a))
  {
    hide Enabled, Apply;
    assert (actions + [a])[..|actions|] == actions;
  }

  /** The first Interest an announcement causes is the formal request for the packet it announces. */
  lemma FormalRequestFirst(r: Receiver, p: Packet, tag: Tag)
    requires tag.Sequence? ==> 0 <= tag.num <= MAX_SEQUENCE
    requires tag.Uuid? ==> '/' !in tag.uuid
    ensures Readable(PreName(p, tag), true, tag.Sequence?)
    ensures r.expressed + [Expressed(DataName(p, tag), false, tag.Sequence?)] <=
            InterestEffect(r, PreName(p, tag), true, tag.Sequence?).expressed
  {
    hide PreTcp, DataTcp, PreOther, DataOther, Split, FormalTcpName, FormalOtherName, GuessPrefix, AnnouncedNumber,
         GuessAhead;
    match tag
    case Sequence(num) =>
      var name := PreTcp(p.flow, num);
      TcpTranslation(p.flow, num);
      GuessLoopExtends(FormalRequest(r, FormalTcpName(name)), GuessPrefix(name), num, NUM_OF_GUEST);
    case Uuid(uuid) =>
      OtherTranslation(p.flow, uuid);
  }

  lemma AnnouncementDispatched(tx: Sending, i: nat, p: Packet, tag: Tag)
    requires i < |tx.announced| && tx.announced[i] == PreName(p, tag)
    ensures Dispatched(tx, i, if tag.Sequence? then 3 else 1, Swap32(p.flow.dip))
  {
    hide PreTcp, PreOther, IsNamePrefix, FilterPrefix;
    match tag
    case Sequence(num) => DispatchAnnouncement(3, Swap32(p.flow.dip), p.flow, num, "");
    case Uuid(uuid) => DispatchAnnouncement(1, Swap32(p.flow.dip), p.flow, 0, uuid);
  }

  /** After any run a packet can be captured exactly when `deal` is idle, its UUID is new and without a slash, and fewer
      than 2^31 - 61 TCP and UDP packets of its flow came before it, if it is one. */
  lemma CaptureIff(actions: seq<Action>, p: Packet, uuid: string)
    requires Run(actions).Some?
    ensures var tx := Run(actions).value.tx;
            Enabled(Run(actions).value, Capture(p, uuid)) <==>
            && tx.stage.Idle?
            && '/' !in uuid && (forall i :: 0 <= i < |tx.captured| ==> tx.captured[i].tag != Uuid(uuid))
            && (p.proto == 6 || p.proto == 17 ==> CountFlow(tx.captured, p.flow) < 0x7FFF_FFFF - 60)
  {
    hide Run, ReceivingInv, CountFlow, Ranked, UuidsDistinct, LogsFollow, FlowKey;
    EveryRunKeepsInv(actions);
    var tx := Run(actions).value.tx;
    CountersStay(tx.counters, tx.captured, p, TagOf(tx.counters, p, uuid));
  }

  /** What the sender's three steps leave behind for the latest packet. */
  lemma AfterDeal(tx: Sending, p: Packet, uuid: string)
    requires SendingInv(tx) && CanCapture(tx, p, uuid)
    ensures var tag := TagOf(tx.counters, p, uuid);
            var tx' := AnnounceStep(PublishStep(CaptureStep(tx, p, uuid)));
            && (tag.Sequence? ==> 0 <= tag.num <= MAX_SEQUENCE) && (tag.Uuid? ==> '/' !in tag.uuid)
            && |tx'.captured| == |tx'.announced| == |tx'.published| == |tx.captured| + 1
            && tx'.captured[|tx.captured|] == Stamped(p, tag)
            && tx'.announced[|tx.captured|] == PreName(p, tag)
            && tx'.published[|tx.captured|] == Data(DataName(p, tag), p.bytes)
  {
    hide PreName, DataName, FlowKey, Ranked, UuidsDistinct, CountersExact;
    CountersStay(tx.counters, tx.captured, p, TagOf(tx.counters, p, uuid));
  }

  /** Capture a packet, publish it and announce it. */
  function Dealt(p: Packet, uuid: string): seq<Action> {
    [Capture(p, uuid), Publish, Announce]
  }

  /** After `deal` of one packet more, it is captured, published and announced, and the receiver is as before. */
  lemma DealtRuns(actions: seq<Action>, p: Packet, uuid: string)
    requires Run(actions).Some? && CanCapture(Run(actions).value.tx, p, uuid)
    ensures var s := Run(actions).value;
            Run(actions + Dealt(p, uuid)) ==
            Some(State(AnnounceStep(PublishStep(CaptureStep(s.tx, p, uuid))), s.rx))
  {
    hide Run, CanCapture, PreName, DataName, TagOf, CountersAfter;
    var a1 := actions + [Capture(p, uuid)];
    var a2 := a1 + [Publish];
    RunExtends(actions, Capture(p, uuid));
    RunExtends(a1, Publish);
    RunExtends(a2, Announce);
    assert actions + Dealt(p, uuid) == a2 + [Announce];
  }

  /** An announcement on the network can be delivered, to the gateway its destination is registered at. */
  function Delivery(c: Stamped, i: nat): Action {
    Deliver(i, if c.tag.Sequence? then 3 else 1, Swap32(c.packet.flow.dip))
  }

  lemma DeliveryRuns(actions: seq<Action>, i: nat)
    requires Run(actions).Some? && i < |Run(actions).value.tx.announced|
    ensures i < |Run(actions).value.tx.captured|
    ensures var s, c := Run(actions).value, Run(actions).value.tx.captured[i];
            && Enabled(s, Delivery(c, i))
            && Run(actions + [Delivery(c, i)]) == Some(Apply(s, Delivery(c, i)))
            && Apply(s, Delivery(c, i)).tx == s.tx
            && Apply(s, Delivery(c, i)).rx.arrivals == s.rx.arrivals + ItemsOf(c)
  {
    hide Run, ReceivingInv, InterestEffect, Dispatched, PreName, DataName, Readable, CountersExact, Ranked,
         UuidsDistinct;
    EveryRunKeepsInv(actions);
    var s := Run(actions).value;
    var c := s.tx.captured[i];
    var d := Delivery(c, i);
    AnnouncementDispatched(s.tx, i, c.packet, c.tag);
    DispatchIsSound(s.tx, i, d.kind, d.address);
    RunExtends(actions, d);
  }

  /** The five steps of one packet: capture, publication, announcement, its delivery, and the answer to the formal
      request it causes. */
  function Exchange(s: State, p: Packet, uuid: string): seq<Action> {
    var n := |s.tx.captured|;
    Dealt(p, uuid) + [Delivery(Stamped(p, TagOf(s.tx.counters, p, uuid)), n), Answer(|s.rx.receiver.expressed|, n)]
  }

  /** From every reachable state, a packet that is captured, announced without loss and answered is re-injected, intact
      and at its own destination, by those five steps. */
  lemma LossFreeDelivery(actions: seq<Action>, p: Packet, uuid: string)
    requires Run(actions).Some? && CanCapture(Run(actions).value.tx, p, uuid)
    ensures var s := Run(actions).value;
            var after := Run(actions + Exchange(s, p, uuid));
            && after.Some?
            && after.value.rx.sent == s.rx.sent + [Sent(p.bytes, Destination(p.flow))]
  {
    hide Run, SendingInv, ReceivingInv, InterestEffect, Dispatched, IsNamePrefix, CanCapture, PreName, DataName,
         Destination, DataEffect, SentIn, TagOf, CountersAfter, Readable, DataReadable, FlowKey;
    EveryRunKeepsInv(actions);
    var s := Run(actions).value;
    var n, e := |s.tx.captured|, |s.rx.receiver.expressed|;
    var tag := TagOf(s.tx.counters, p, uuid);
    AfterDeal(s.tx, p, uuid);
    DealtRuns(actions, p, uuid);
    var a3 := actions + Dealt(p, uuid);
    FormalRequestFirst(Run(a3).value.rx.receiver, p, tag);
    var deliver := Delivery(Stamped(p, tag), n);
    DeliveryRuns(a3, n);
    var a4 := a3 + [deliver];
    EveryRunKeepsInv(a4);
    var s4 := Run(a4).value;
    assert s4.rx.receiver.expressed[e] == Expressed(DataName(p, tag), false, tag.Sequence?);
    SameNamePrefix(DataName(p, tag));
    AnswerIsSound(s4, e, n);
    RunExtends(a4, Answer(e, n));
    assert actions + Exchange(s, p, uuid) == a4 + [Answer(e, n)];
  }

  lemma SameNamePrefix(name: string)
    ensures IsNamePrefix(name, name)
  {
  }

  // ---------- the histories of arrivals that occur ----------

  /** Nothing but TCP and UDP has been captured, and `deal` is done with all of it. */
  ghost predicate AllNumbered(tx: Sending) {
    tx.stage.Idle? && forall i :: 0 <= i < |tx.captured| ==> tx.captured[i].tag.Sequence?
  }

  lemma {:induction false} PacketWithRank(c: seq<Stamped>, f: Flow, rank: int) returns (i: nat)
    requires 1 <= rank <= CountFlow(c, f)
    ensures i < |c| && Numbered(c[i].packet) && c[i].packet.flow == f && CountFlow(c[..i + 1], f) == rank
  {
    var n := |c| - 1;
    if rank == CountFlow(c, f) && rank > CountFlow(c[..n], f) {
      i := n;
      assert c[..n + 1] == c;
    } else {
      i := PacketWithRank(c[..n], f, rank);
      assert c[..n][..i + 1] == c[..i + 1];
    }
  }

  /** One more packet of a flow whose number is still in range. */
  lemma OneMoreNumbered(actions: seq<Action>, p: Packet)
    requires Run(actions).Some? && AllNumbered(Run(actions).value.tx) && Numbered(p)
    requires CountFlow(Run(actions).value.tx.captured, p.flow) < MAX_SEQUENCE
    ensures var s, after := Run(actions).value, Run(actions + Dealt(p, ""));
            && after.Some? && after.value.rx == s.rx && AllNumbered(after.value.tx)
            && CountFlow(after.value.tx.captured, p.flow) == CountFlow(s.tx.captured, p.flow) + 1
            && |after.value.tx.captured| == |s.tx.captured| + 1
  {
    hide Run, ReceivingInv, PreName, DataName, FlowKey, Ranked, UuidsDistinct, LogsFollow, CountersExact;
    EveryRunKeepsInv(actions);
    var tx := Run(actions).value.tx;
    CountersStay(tx.counters, tx.captured, p, TagOf(tx.counters, p, ""));
    DealtRuns(actions, p, "");
    assert (tx.captured + [Stamped(p, TagOf(tx.counters, p, ""))])[..|tx.captured|] == tx.captured;
  }

  /** Packets of a flow are captured until one of them is number `n`. */
  lemma {:induction false} CaptureUpTo(actions: seq<Action>, p: Packet, n: int) returns (more: seq<Action>)
    requires Run(actions).Some? && AllNumbered(Run(actions).value.tx) && Numbered(p) && n <= MAX_SEQUENCE
    ensures Run(more).Some? && AllNumbered(Run(more).value.tx) && Run(more).value.rx == Run(actions).value.rx
    ensures CountFlow(Run(more).value.tx.captured, p.flow) >= n
    decreases n - CountFlow(Run(actions).value.tx.captured, p.flow)
  {
    hide Run, AllNumbered, CountFlow, Numbered;
    more := actions;
    if CountFlow(Run(actions).value.tx.captured, p.flow) < n {
      OneMoreNumbered(actions, p);
      more := CaptureUpTo(actions + Dealt(p, ""), p, n);
    }
  }

  /** The packet that was given a number. */
  lemma NumberCaptured(actions: seq<Action>, m: G.Item) returns (d: nat)
    requires Run(actions).Some? && AllNumbered(Run(actions).value.tx)
    requires 1 <= m.num <= CountFlow(Run(actions).value.tx.captured, m.flow)
    ensures var tx := Run(actions).value.tx;
            d < |tx.captured| && d < |tx.published| && ItemsOf(tx.captured[d]) == [m]
  {
    hide Run, ReceivingInv, CountFlow, CountersExact, UuidsDistinct, PreName, DataName;
    EveryRunKeepsInv(actions);
    var tx := Run(actions).value.tx;
    d := PacketWithRank(tx.captured, m.flow, m.num);
  }

  /** A packet whose number has been given out can have its announcement delivered. */
  lemma DeliverNumber(actions: seq<Action>, m: G.Item) returns (a: Action)
    requires Run(actions).Some? && AllNumbered(Run(actions).value.tx)
    requires 1 <= m.num <= CountFlow(Run(actions).value.tx.captured, m.flow)
    ensures Run(actions + [a]).Some? && Run(actions + [a]).value.tx == Run(actions).value.tx
    ensures Run(actions + [a]).value.rx.arrivals == Run(actions).value.rx.arrivals + [m]
  {
    hide Run, ReceivingInv, CountFlow, CountersExact, UuidsDistinct, Enabled, Apply, PreName, DataName;
    EveryRunKeepsInv(actions);
    var i := NumberCaptured(actions, m);
    a := Delivery(Run(actions).value.tx.captured[i], i);
    DeliveryRuns(actions, i);
  }

  lemma OneMoreArrival(actions: seq<Action>, m: G.Item) returns (more: seq<Action>)
    requires Run(actions).Some? && AllNumbered(Run(actions).value.tx) && 1 <= m.num <= MAX_SEQUENCE
    ensures Run(more).Some? && AllNumbered(Run(more).value.tx)
    ensures Run(more).value.rx.arrivals == Run(actions).value.rx.arrivals + [m]
  {
    hide Run, AllNumbered, CountFlow;
    more := CaptureUpTo(actions, Packet(m.flow, IPPROTO_TCP, []), m.num);
    var a := DeliverNumber(more, m);
    more := more + [a];
  }

  lemma {:induction false} HistoryHappens(h: G.History) returns (actions: seq<Action>)
    requires forall m :: m in h ==> 1 <= m.num <= MAX_SEQUENCE
    ensures Run(actions).Some? && AllNumbered(Run(actions).value.tx) && Run(actions).value.rx.arrivals == h
  {
    hide Run, AllNumbered, CountFlow;
    if h == [] {
      actions := [];
      StartsEmpty(Flow(0, 0, 0, 0));
    } else {
      var n := |h| - 1;
      assert h[n] in h;
      actions := HistoryHappens(h[..n]);
      actions := OneMoreArrival(actions, h[n]);
      assert h == h[..n] + [h[n]];
    }
  }

  /** The histories of arrivals that runs have are exactly the sequences of announcements of numbers the sender gives
      out, in any order and any number of times each: what holds of all of them holds of all runs and conversely. */
  lemma ArrivalHistories(h: G.History)
    ensures (exists actions :: Run(actions).Some? && Run(actions).value.rx.arrivals == h)
            <==> forall m :: m in h ==> 1 <= m.num <= 0x7FFF_FFFF - 60
  {
    hide Run, SendingInv, ReceivingInv, Announced;
    if actions :| Run(actions).Some? && Run(actions).value.rx.arrivals == h {
      EveryRunKeepsInv(actions);
      forall m | m in h ensures 1 <= m.num <= MAX_SEQUENCE {
        AnnouncedInRange(Run(actions).value.tx, m);
      }
    }
    if forall m :: m in h ==> 1 <= m.num <= MAX_SEQUENCE {
      var actions := HistoryHappens(h);
    }
  }

  lemma AnnouncedInRange(tx: Sending, m: G.Item)
    requires SendingInv(tx) && Announced(tx, m)
    ensures 1 <= m.num <= MAX_SEQUENCE
  {
  }

  /** Runs reach the bound on requests for every packet but the first of its flow, which is only ever asked for
      formally. */
  lemma BoundReachedInRuns(m: G.Item, k: nat)
    requires 1 <= m.num <= MAX_SEQUENCE
    ensures (exists actions :: Run(actions).Some? && ReachesBound(Run(actions).value.rx, m, k)) <==> m.num >= 2
  {
    hide Run, TimesRequested;
    if m.num >= 2 {
      G.BoundIsReached(m, k);
      var actions := HistoryHappens(G.Alternating(m, k));
      RequestsBounded(actions, m);
      assert ReachesBound(Run(actions).value.rx, m, k);
    } else if actions :| Run(actions).Some? && ReachesBound(Run(actions).value.rx, m, k) {
      var h := Run(actions).value.rx.arrivals;
      ArrivalHistories(h);
      RequestsBounded(actions, m);
      G.FirstNeverGuessed(h, m);
    }
  }

  /** `m` has arrived `k` times and been requested once more than twice as often. */
  ghost predicate ReachesBound(rx: Receiving, m: G.Item, k: nat) {
    G.Announcements(rx.arrivals, m) == k && TimesRequested(rx, m) == 2 * k + 1
  }

  lemma {:induction false} AnsweredWithin(answers: seq<Answered>, k: nat)
    requires k < |answers|
    ensures answers[k].request in AnsweredWith(answers, answers[k].data)
  {
    var n := |answers| - 1;
    if k < n {
      AnsweredWithin(answers[..n], k);
    }
  }

  /** While a packet has been requested more often than sent, some request of it is open. */
  lemma OpenRequest(tx: Sending, rx: Receiving, d: nat) returns (r: nat)
    requires SendingInv(tx) && AnswersExact(tx, rx) && d < |tx.captured|
    requires Copies(rx.answers, d) < G.Count(rx.receiver.expressed, Asks(tx.captured[d]))
    ensures Open(tx, rx, r, d)
  {
    hide G.Count, Copies, Asks, Reinjected, SendingInv, AnswersExact, AnsweredWith, AnswerExact;
    var es, e := rx.receiver.expressed, Asks(tx.captured[d]);
    assert OneAnswerEach(rx.answers) by { OneAnswer(tx, rx); }
    CopiesCount(rx.answers, d);
    PositionsCount(es, e, |es|);
    assert es[..|es|] == es;
    if Positions(es, e, |es|) <= AnsweredWith(rx.answers, d) {
      SubsetSize(Positions(es, e, |es|), AnsweredWith(rx.answers, d));
      assert false;
    }
    r :| r in Positions(es, e, |es|) && r !in AnsweredWith(rx.answers, d);
    forall k: nat | k < |rx.answers| ensures rx.answers[k].request != r {
      if rx.answers[k].request == r {
        AnswersItsPacket(tx, rx, k, d);
        AnsweredWithin(rx.answers, k);
      }
    }
  }

  lemma OneAnswer(tx: Sending, rx: Receiving)
    requires AnswersExact(tx, rx)
    ensures OneAnswerEach(rx.answers)
  {
  }

  /** Any run can be continued so that every request of a published packet is answered. */
  lemma {:induction false} AnswerAll(actions: seq<Action>, d: nat) returns (more: seq<Action>)
    requires Run(actions).Some?
    requires d < |Run(actions).value.tx.published| && d < |Run(actions).value.tx.captured|
    ensures Run(more).Some? && Run(more).value.tx == Run(actions).value.tx
    ensures Run(more).value.rx.receiver == Run(actions).value.rx.receiver
    ensures Run(more).value.rx.arrivals == Run(actions).value.rx.arrivals
    ensures Copies(Run(more).value.rx.answers, d) ==
            G.Count(Run(more).value.rx.receiver.expressed, Asks(Run(more).value.tx.captured[d]))
    decreases G.Count(Run(actions).value.rx.receiver.expressed, Asks(Run(actions).value.tx.captured[d]))
              - Copies(Run(actions).value.rx.answers, d)
  {
    hide Run, SendingInv, ReceivingInv, AnswersExact, OthersExact, ArrivalsAnnounced, Asks, G.Count, Open,
         Reinjected;
    more := actions;
    EveryRunKeepsInv(actions);
    var s := Run(actions).value;
    CopiesWithinRequests(s.tx, s.rx, d);
    if Copies(s.rx.answers, d) < G.Count(s.rx.receiver.expressed, Asks(s.tx.captured[d])) {
      var r := OpenRequest(s.tx, s.rx, d);
      OneMoreAnswer(actions, r, d);
      assert (s.rx.answers + [Answered(r, d)])[..|s.rx.answers|] == s.rx.answers;
      more := AnswerAll(actions + [Answer(r, d)], d);
    }
  }

  /** `m` has arrived `k` times, and copies of its packet, the `d`-th, have been sent once more than twice as often. */
  ghost predicate CopiesReachBound(s: State, m: G.Item, k: nat, d: nat) {
    && d < |s.tx.captured| && ItemsOf(s.tx.captured[d]) == [m]
    && G.Announcements(s.rx.arrivals, m) == k
    && Copies(s.rx.answers, d) == 2 * k + 1
  }

  /** A packet numbered 2 or more can be captured, guessed and sent on as often as the bound allows. */
  lemma CopiesReach(m: G.Item, k: nat) returns (actions: seq<Action>, d: nat)
    requires 2 <= m.num <= MAX_SEQUENCE
    ensures Run(actions).Some? && CopiesReachBound(Run(actions).value, m, k, d)
  {
    hide Run, AllNumbered, CountFlow, Copies, TimesRequested, G.Announcements;
    G.BoundIsReached(m, k);
    actions := HistoryHappens(G.Alternating(m, k));
    actions := CaptureUpTo(actions, Packet(m.flow, IPPROTO_TCP, []), m.num);
    RequestsBounded(actions, m);
    d := NumberCaptured(actions, m);
    CountAsked(Run(actions).value.rx, Run(actions).value.tx.captured[d], m);
    actions := AnswerAll(actions, d);
  }

  lemma CountAsked(rx: Receiving, c: Stamped, m: G.Item)
    requires ItemsOf(c) == [m]
    ensures G.Count(rx.receiver.expressed, Asks(c)) == TimesRequested(rx, m)
  {
  }

  /** The bound on copies is exact, too: it is reached for every packet but the first of its flow. */
  lemma CopiesBoundReached(m: G.Item, k: nat)
    requires 1 <= m.num <= MAX_SEQUENCE
    ensures (exists actions, d: nat :: Run(actions).Some? && CopiesReachBound(Run(actions).value, m, k, d))
            <==> m.num >= 2
  {
    hide Run, Copies, TimesRequested, G.Announcements;
    if m.num >= 2 {
      var actions, d := CopiesReach(m, k);
    } else if actions: seq<Action>, d: nat :| Run(actions).Some? && CopiesReachBound(Run(actions).value, m, k, d) {
      var s := Run(actions).value;
      CopiesBounded(actions, d);
      CountAsked(s.rx, s.tx.captured[d], m);
      ArrivalHistories(s.rx.arrivals);
      RequestsBounded(actions, m);
      G.FirstNeverGuessed(s.rx.arrivals, m);
    }
  }

  /** Three captured packets of a flow, their announcements delivered once each in the order 2, 3, 1: the third is
      requested three times. */
  lemma ReorderedRunAsksThrice(p: Packet) returns (actions: seq<Action>)
    requires Numbered(p)
    ensures Run(actions).Some?
    ensures var s := Run(actions).value;
            && |s.tx.captured| == 3
            && s.rx.arrivals == [G.Item(p.flow, 2), G.Item(p.flow, 3), G.Item(p.flow, 1)]
            && TimesRequested(s.rx, G.Item(p.flow, 3)) == 3
  {
    StartsEmpty(p.flow);
    hide Run, AllNumbered, CountFlow, TimesRequested, Numbered;
    var deal := Dealt(p, "");
    OneMoreNumbered([], p);
    OneMoreNumbered([] + deal, p);
    OneMoreNumbered([] + deal + deal, p);
    actions := [] + deal + deal + deal;
    var a := DeliverNumber(actions, G.Item(p.flow, 2));
    actions := actions + [a];
    a := DeliverNumber(actions, G.Item(p.flow, 3));
    actions := actions + [a];
    a := DeliverNumber(actions, G.Item(p.flow, 1));
    actions := actions + [a];
    var m := G.Item(p.flow, 3);
    G.ReorderedThrice(m);
    assert Run(actions).value.rx.arrivals == [G.Ahead(m, -1), m, G.Ahead(m, -2)];
    RequestsBounded(actions, m);
  }

  lemma StartsEmpty(f: Flow)
    ensures Run([]) == Some(Init()) && AllNumbered(Init().tx)
    ensures CountFlow(Init().tx.captured, f) == 0 && Init().tx.captured == [] && Init().rx.arrivals == []
  {
  }
}
