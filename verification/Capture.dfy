/** From a frame on the wire to the published name and on to the raw socket of the far gateway:
    `readNextPacketAfterDecode` followed by `handleRead`, and the headers of what the tunnel re-injects. */
module Capture {
  import opened Words
  import opened Text
  import opened Names
  import opened Tables
  import opened Gateway
  import C = Checksum
  import D = Decode
  import T = Tunnel

  /** The packet `deal` is given for a frame: that of its header fields if it is valid, and an empty record if not. The
      bytes start behind the link header and are as many as if that had no VLAN tag. */
  function Decoded(pkt: D.Frame, capLen: u32): Packet
    requires D.Readable(pkt)
    requires D.StatusOf(pkt, capLen) == D.Valid ==> D.ETH_LEN <= capLen && D.IpAt(pkt) + capLen - D.ETH_LEN <= |pkt|
  {
    if D.StatusOf(pkt, capLen) == D.Valid then
      Packet(D.FlowOf(pkt), D.Protocol(pkt), pkt[D.IpAt(pkt)..D.IpAt(pkt) + capLen - D.ETH_LEN])
    else
      Packet(Flow(0, 0, 0, 0), 0, [])
  }

  /** `deal` reads past what there is: behind a VLAN tag, past a buffer that ends with the capture; without a valid
      header, through a null pointer. */
  predicate Overreads(pkt: D.Frame, capLen: u32)
    requires D.Readable(pkt)
  {
    && D.ETH_LEN <= capLen < D.ETH_LEN + SIZE_LIMIT
    && if D.StatusOf(pkt, capLen) == D.Valid
       then D.EtherType(pkt) == D.ETHERTYPE_VLAN && |pkt| < capLen + 4
       else D.ETH_LEN < capLen
  }

  /** `ipSize` against the size limit and against what can be read at the packet pointer. */
  lemma SizeChecks(pkt: D.Frame, capLen: u32)
    requires D.Readable(pkt)
    ensures D.IpSize(capLen) < SIZE_LIMIT <==> D.ETH_LEN <= capLen < D.ETH_LEN + SIZE_LIMIT
    ensures D.ETH_LEN <= capLen ==> D.IpSize(capLen) == capLen - D.ETH_LEN
    ensures var readable := if D.StatusOf(pkt, capLen) == D.Valid then |pkt[D.IpAt(pkt)..]| else 0;
            capLen <= |pkt| ==> (Overreads(pkt, capLen) <==> readable < D.IpSize(capLen) < SIZE_LIMIT)
  {
    hide D.StatusOf;
  }

  lemma PacketRead(pkt: D.Frame, capLen: u32)
    requires D.Readable(pkt) && capLen <= |pkt|
    requires D.ETH_LEN <= capLen < D.ETH_LEN + SIZE_LIMIT && !Overreads(pkt, capLen)
    ensures D.StatusOf(pkt, capLen) == D.Valid ==> D.IpAt(pkt) + capLen - D.ETH_LEN <= |pkt|
    ensures Decoded(pkt, capLen) ==
            if D.StatusOf(pkt, capLen) == D.Valid then
              Packet(D.FlowOf(pkt), D.Protocol(pkt), pkt[D.IpAt(pkt)..][..capLen - D.ETH_LEN])
            else Packet(Flow(0, 0, 0, 0), 0, [])
    ensures D.StatusOf(pkt, capLen) != D.Valid ==> capLen == D.ETH_LEN
  {
    hide D.StatusOf, D.FlowOf, D.Protocol;
  }

  /** One frame read from the interface, whatever its status: counted, and dealt with below the size limit. */
  method ReadFrame(decoder: D.Decoder, helper: LibPcapHelper, pkt: D.Frame, capLen: u32, actLen: u32, uuid: string)
    returns (faulted: bool)
    requires decoder.Consistent() && helper.ndnHelper.Valid()
    requires D.Readable(pkt) && capLen <= |pkt|
    requires D.StatusOf(pkt, capLen) == D.Valid ==> helper.CanCount(D.FlowOf(pkt))
    modifies decoder, helper.sequenceTable
    modifies helper.ndnHelper`interestPacketNum, helper.ndnHelper`trace
    ensures decoder.Consistent()
    ensures faulted <==> Overreads(pkt, capLen)
    ensures !faulted && D.ETH_LEN <= capLen < D.ETH_LEN + SIZE_LIMIT ==>
              && (D.StatusOf(pkt, capLen) == D.Valid ==> D.IpAt(pkt) + capLen - D.ETH_LEN <= |pkt|)
              && helper.State() == DealEffect(old(helper.State()), Decoded(pkt, capLen), uuid)
    ensures !faulted ==> helper.ndnHelper.Valid()
    ensures !faulted && !(D.ETH_LEN <= capLen < D.ETH_LEN + SIZE_LIMIT) ==> helper.State() == old(helper.State())
  {
    hide D.StatusOf, D.FlowOf, D.Protocol, D.Counts, D.CountOf, D.IpAt, D.IpSize, DealEffect, Overreads, FlowKey,
         InterestsOf, AsInt, D.Readable, Decoded;
    SizeChecks(pkt, capLen);
    var tuple := new Tuple();
    var status := decoder.Decode(pkt, capLen, actLen, tuple);
    faulted := helper.HandleRead(false, tuple, uuid);
    if !faulted && D.ETH_LEN <= capLen < D.ETH_LEN + SIZE_LIMIT {
      PacketRead(pkt, capLen);
      ghost var nothing: seq<u8> := [];
      assert nothing[..0] == nothing;
    }
  }

  /** It does happen: a full capture of the tagged frame, in a buffer that ends with it. */
  lemma TaggedFrameOverreads() returns (f: D.Frame)
    ensures f == D.TaggedFrame() && D.Readable(f) && |f| == 50 && D.StatusOf(f, 50) == D.Valid && Overreads(f, 50)
  {
    hide D.StatusOf, D.TaggedFrame, D.Readable, D.EtherType;
    f := D.TaggedFrameValid();
  }

  /** An untagged IP frame of nothing but zeros. */
  function ZeroFrame(): D.Frame {
    seq(12, _ => 0) + [0x08, 0] + seq(36, _ => 0)
  }

  lemma ZeroFrameReads() returns (f: D.Frame)
    ensures f == ZeroFrame() && |f| == 50 && D.EtherType(f) == D.ETH_P_IP && f[14] == 0 && f[23] == 0
  {
    f := ZeroFrame();
  }

  lemma NoHeaderFails(f: D.Frame, at: nat)
    requires at <= |f|
    ensures C.InternetChecksum(D.HostWords(f, at, 0)) != 0
  {
    assert D.HostWords(f, at, 0) == [] && C.OnesSum([]) == 0;
  }

  /** It happens to untagged frames as well: this one fails its checksum, and is dealt with all the same. */
  lemma ZeroFrameOverreads() returns (f: D.Frame)
    ensures f == ZeroFrame() && D.Readable(f) && D.EtherType(f) == D.ETH_P_IP
    ensures D.StatusOf(f, 50) == D.IpChksumFail && Overreads(f, 50)
  {
    hide C.InternetChecksum, D.HostWords, ZeroFrame;
    f := ZeroFrameReads();
    NoHeaderFails(f, 14);
  }

  // ---------- what is re-injected, by its own header ----------

  /** The least capture that holds an IP header's address fields. */
  const ADDRESSES_END: nat := 34

  /** The content holds a whole IP header, and `ip` is the destination written there. */
  predicate ShowsDestination(content: seq<u8>, ip: string) {
    |content| >= 20 && ip == D.QuadAt(content, 16)
  }

  /** Behind the link header of a valid frame, tagged or not, there is the destination its names show exactly when
      enough of the frame was captured. */
  lemma DestinationShownIff(pkt: D.Frame, capLen: u32)
    requires D.Readable(pkt) && D.StatusOf(pkt, capLen) == D.Valid
    requires D.ETH_LEN <= capLen && D.IpAt(pkt) + capLen - D.ETH_LEN <= |pkt|
    ensures var p := Decoded(pkt, capLen);
            ShowsDestination(p.bytes, Destination(p.flow)) <==> capLen >= ADDRESSES_END
  {
    hide D.StatusOf, D.FlowOf, Destination, Join, ToString, D.Protocol;
    D.NamesShowAddresses(pkt);
  }

  /** A packet decoded from a valid frame, tagged or not, in a buffer that holds its content. */
  ghost predicate FromFrame(p: Packet) {
    exists pkt: D.Frame, capLen: u32 :: IsDecoded(p, pkt, capLen)
  }

  ghost predicate IsDecoded(p: Packet, pkt: D.Frame, capLen: u32) {
    && D.Readable(pkt) && D.StatusOf(pkt, capLen) == D.Valid
    && D.ETH_LEN <= capLen && D.IpAt(pkt) + capLen - D.ETH_LEN <= |pkt|
    && p == Decoded(pkt, capLen)
  }

  lemma DecodedDestination(p: Packet)
    requires FromFrame(p)
    ensures ShowsDestination(p.bytes, Destination(p.flow)) <==> |p.bytes| >= 20
  {
    hide D.StatusOf, D.FlowOf, Destination, ShowsDestination, D.Protocol, D.Readable;
    var pkt: D.Frame, capLen: u32 :| IsDecoded(p, pkt, capLen);
    DestinationShownIff(pkt, capLen);
  }

  /** When everything captured came from valid frames, whatever is re-injected in any run is sent to the destination
      its own IP header names exactly when that header is there in full. */
  lemma SentWhereHeaderSays(actions: seq<T.Action>)
    requires T.Run(actions).Some?
    requires var captured := T.Run(actions).value.tx.captured;
             forall i :: 0 <= i < |captured| ==> FromFrame(captured[i].packet)
    ensures forall x :: x in T.Run(actions).value.rx.sent ==> (ShowsDestination(x.content, x.ip) <==> |x.content| >= 20)
  {
    hide T.Run, FromFrame, Destination, ShowsDestination, T.ReachesDestination;
    T.EndToEndSafety(actions);
    var s := T.Run(actions).value;
    forall x | x in s.rx.sent ensures ShowsDestination(x.content, x.ip) <==> |x.content| >= 20 {
      assert T.Faithful(s.tx.captured, x);
      var i :| 0 <= i < |s.tx.captured|
               && x == Sent(s.tx.captured[i].packet.bytes, Destination(s.tx.captured[i].packet.flow));
      DecodedDestination(s.tx.captured[i].packet);
    }
  }

  /** A frame that claims a header of one word and is captured no further. */
  function ShortFrame(): D.Frame {
    seq(12, _ => 0) + [0x08, 0, 0x41, 0, 0xBE, 0xFF] + seq(32, _ => 0)
  }

  lemma ShortFrameReads() returns (pkt: D.Frame)
    ensures pkt == ShortFrame() && |pkt| == 50 && D.EtherType(pkt) == D.ETH_P_IP && pkt[14] == 0x41 && pkt[23] == 0
    ensures D.Load16(pkt, 14) == 0x41 && D.Load16(pkt, 16) == 0xFFBE
  {
    pkt := ShortFrame();
  }

  lemma ShortSum(ws: seq<u16>)
    requires ws == [0x41, 0xFFBE]
    ensures C.InternetChecksum(ws) == 0
  {
    assert ws[..1] == [0x41] && ws[..1][..0] == [];
    assert C.OnesSum(ws[..1]) == 0x41;
  }

  /** Shorter captures occur: this frame is valid, but its content ends before the address fields its name is made
      of. */
  lemma ShortFrameValid() returns (pkt: D.Frame)
    ensures pkt == ShortFrame() && D.Readable(pkt) && D.StatusOf(pkt, 18) == D.Valid
    ensures D.EtherType(pkt) != D.ETHERTYPE_VLAN && |Decoded(pkt, 18).bytes| == 4
  {
    hide ShortFrame, D.Load16;
    pkt := ShortFrameReads();
    assert D.HostWords(pkt, 14, 1) == [0x41] && D.HostWords(pkt, 14, 2) == [0x41, 0xFFBE];
    ShortSum([0x41, 0xFFBE]);
  }
}
