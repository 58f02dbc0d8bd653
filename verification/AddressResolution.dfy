/** What single frames and exchanges of frames do. */
module AddressResolution {
  import opened Common
  import opened Datagrams
  import opened Checksums
  import opened InterfaceSpec
  import opened InterfaceProofs
  import opened DatagramOrder
  import Ip = IPv4Wire

  /** Everything of the source's own state, with the frames pushed so far. */
  predicate SameState(n: Interface, n': Interface) {
    n'.table == n.table && n'.outstanding == n.outstanding && n'.unsent == n.unsent && n'.log == n.log
  }

  lemma LastPushed(n: Interface, out: Out)
    ensures Push(n, out).log[|n.log|] == Emission(n.clock, out) && |Push(n, out).log| == |n.log| + 1
  {
  }

  // Draining adds frames, all of them with datagrams, and does nothing only if it can send nothing.
  lemma {:induction false} DrainLog(n: Interface, hop: IP)
    requires hop in n.table
    ensures var n' := Drain(n, hop);
            && n.log <= n'.log
            && (forall i | |n.log| <= i < |n'.log| :: n'.log[i].out.DataOut?)
            && (|n'.log| == |n.log| <==> Waiting(n, hop) == [] || !Sendable(Waiting(n, hop)[0]))
            && (|n'.log| == |n.log| ==> n' == n)
    decreases |Waiting(n, hop)|
  {
    hide Sendable;
    if Waiting(n, hop) != [] && Sendable(n.unsent[hop][0]) {
      var n1 := SendDatagram(n, n.unsent[hop][0], hop);
      DrainLog(n1.(unsent := n1.unsent[hop := n1.unsent[hop][1..]]), hop);
    }
  }

  /**
   A request heard leaves its sender in the table. If what waits for it can be sent, the reply to it is the
   last frame; if not, only datagrams are framed and no reply is sent.
   */
  lemma RequestIsAnswered(n: Interface, m: ArpMessage)
    requires m.opcode == Request
    ensures var n' := Heed(n, m);
            && m.senderIp in n'.table && (m.senderIp !in n.table ==> n'.table[m.senderIp] == Entry(m.senderEth, 0))
            && n'.eth == n.eth && n'.ip == n.ip
            && if AllSendable(Waiting(n, m.senderIp)) then
                 n'.log != [] && n'.log[|n'.log| - 1].out == ReplyOut(m.senderIp, m.senderEth)
               else
                 forall i | |n.log| <= i < |n'.log| :: n'.log[i].out.DataOut?
  {
    hide Drain, AllSendable, Waiting;
    var n1 := Learn(n, m.senderIp, m.senderEth);
    DrainHistory(n1, m.senderIp);
    DrainLog(n1, m.senderIp);
    DrainEmptiesIff(n1, m.senderIp);
    LearnWaits(n, m.senderIp, m.senderEth);
  }

  /** A mapping in the table is neither replaced nor refreshed: a message is learned exactly if its sender is not in it. */
  lemma LearnedIff(n: Interface, m: ArpMessage)
    ensures var n' := Heed(n, m);
            && m.senderIp in n'.table
            && n'.table[m.senderIp] == (if m.senderIp in n.table then n.table[m.senderIp] else Entry(m.senderEth, 0))
            && (n'.table[m.senderIp] == Entry(m.senderEth, 0) <==>
                  m.senderIp !in n.table || n.table[m.senderIp] == Entry(m.senderEth, 0))
            && forall ip | ip != m.senderIp ::
                 (ip in n'.table <==> ip in n.table) && (ip in n.table ==> n'.table[ip] == n.table[ip])
  {
    hide Heed;
    HeedTable(n, m);
  }

  /** Concretely: a peer that moves to another Ethernet address is still mapped to the old one. */
  lemma MovedPeerIsNotLearned(eth: Eth, ip: IP, before: Eth, later: Eth, peerIp: IP)
    ensures var n := NewInterface(eth, ip);
            var m, m' := ArpMessage(Reply, before, peerIp, eth, ip), ArpMessage(Reply, later, peerIp, eth, ip);
            var n' := Heed(Heed(n, m), m');
            peerIp in n'.table && n'.table[peerIp].eth == before
  {
    hide Heed;
    var n, m := NewInterface(eth, ip), ArpMessage(Reply, before, peerIp, eth, ip);
    LearnedIff(n, m);
    LearnedIff(Heed(n, m), ArpMessage(Reply, later, peerIp, eth, ip));
  }

  lemma LearnWaits(n: Interface, ip: IP, eth: Eth)
    ensures forall h: IP :: Waiting(Learn(n, ip, eth), h) == Waiting(n, h)
  {
  }

  /** A reply is learned; if what waits for its sender can be sent, it is, and the request is settled. */
  lemma ReplyIsLearned(n: Interface, m: ArpMessage)
    requires m.opcode == Reply && m.senderIp !in n.table
    ensures var n' := Heed(n, m);
            && m.senderIp in n'.table && n'.table[m.senderIp] == Entry(m.senderEth, 0)
            && (AllSendable(Waiting(n, m.senderIp)) <==> Waiting(n', m.senderIp) == [])
            && (Waiting(n', m.senderIp) == [] ==> m.senderIp !in n'.outstanding)
  {
    hide Drain, AllSendable, Waiting;
    DrainHistory(Learn(n, m.senderIp, m.senderEth), m.senderIp);
    HeedWaiting(n, m, m.senderIp);
    var n1 := Drain(Learn(n, m.senderIp, m.senderEth), m.senderIp);
    AnswerWaits(n1, m);
  }

  lemma AnswerWaits(n: Interface, m: ArpMessage)
    ensures forall h: IP :: Waiting(Answer(n, m), h) == Waiting(n, h)
  {
  }

  /**
   Address resolution between two interfaces: the request of `a` makes `b` learn `a` and reply, and the reply
   makes `a` learn `b` and frame everything that was submitted for it.
   */
  lemma ArpExchangeResolves(a: Interface, b: Interface, d: Datagram)
    requires Orderly(a) && b.ip !in a.table && b.ip !in a.outstanding
    requires AllSendable(Waiting(a, b.ip) + [d]) && AllSendable(Waiting(b, a.ip))
    ensures var a1 := Submit(a, d, b.ip);
            a1.log != [] && a1.log[|a1.log| - 1].out == RequestOut(b.ip) &&
            var request := Render(a.eth, a.ip, RequestOut(b.ip));
            var b1 := RecvFrame(b, request);
            a.ip in b1.table && (a.ip !in b.table ==> b1.table[a.ip] == Entry(a.eth, 0)) &&
            b1.log != [] && b1.log[|b1.log| - 1].out == ReplyOut(a.ip, a.eth) &&
            var reply := Render(b.eth, b.ip, ReplyOut(a.ip, a.eth));
            var a2 := RecvFrame(a1, reply);
            && b.ip in a2.table && a2.table[b.ip] == Entry(b.eth, 0) && b.ip !in a2.outstanding
            && Framed(a2.log, b.ip) == SubmittedTo(a2.submitted, b.ip)
  {
    hide Drain, Heed, Framed, SubmittedTo, Sendable, Waiting, AllSendable;
    var a1 := Submit(a, d, b.ip);
    SubmitOrderly(a, d, b.ip);
    SubmitMoves(a, d, b.ip, b.ip);
    LastPushed(Enqueue(a.(submitted := a.submitted + [Submission(d, b.ip)]), d, b.ip).(outstanding := a1.outstanding),
               RequestOut(b.ip));
    RequestIsAnswered(b, ArpMessage(Request, a.eth, a.ip, 0, b.ip));
    var r := ArpMessage(Reply, b.eth, b.ip, a.eth, a.ip);
    assert Waiting(a1, b.ip) == Waiting(a, b.ip) + [d];
    ReplyIsLearned(a1, r);
    HeedOrderlyIff(a1, r);
    AllFramed(Heed(a1, r), b.ip);
  }

  lemma AllFramed(n: Interface, hop: IP)
    requires Conserved(n) && Waiting(n, hop) == []
    ensures Framed(n.log, hop) == SubmittedTo(n.submitted, hop)
  {
    hide Framed, SubmittedTo;
    assert SubmittedTo(n.submitted, hop) == Framed(n.log, hop) + [];
  }

  lemma WellFormedIsSendable(d: Datagram)
    requires Ip.WellFormed(d)
    ensures Sendable(d)
  {
    hide Ip.HeaderBytes, Checksum, WordSum;
    assert PayloadLength(d.header) == |d.payload|;
  }

  // The datagram with the checksum that serializing fills in.
  function Sealed(d: Datagram): Datagram
    requires 5 <= d.header.hlen
  {
    d.(header := d.header.(cksum := Checksum(WordSum(Ip.HeaderBytes(d.header.(cksum := 0)), false) % TWO_32)))
  }

  /**
   From the bytes in a frame an interface delivers the datagram with a checksum that verifies filled in,
   exactly if its fields fit their places on the wire, and its total length is right or its header has no
   options.
   */
  lemma FrameDelivers(a: Interface, b: Interface, hop: IP, d: Datagram)
    requires Sendable(d)
    ensures var frame := Render(a.eth, a.ip, DataOut(hop, b.eth, d));
            && (Delivered(b, frame) == Some(Sealed(d)) <==> Ip.FitsWire(d))
            && Checksum(WordSum(Ip.HeaderBytes(Sealed(d).header), false) % TWO_32) == 0
            && RecvFrame(b, frame) == b
  {
    hide Ip.Parse, Ip.HeaderBytes, Checksum, WordSum, Ip.FitsWire;
    Ip.SerializedReadsBackIff(d);
  }

  /**
   A datagram for a resolved hop leaves as bytes in a frame. No interface but the one it is for delivers it.
   That one delivers the datagram with a checksum that verifies filled in, exactly if its fields fit their
   places on the wire, and its total length is right or its header has no options.
   */
  lemma ResolvedHopDelivers(a: Interface, b: Interface, c: Interface, d: Datagram)
    requires b.ip in a.table && a.table[b.ip].eth == b.eth && Sendable(d)
    requires c.eth != b.eth && b.eth != ETHERNET_BROADCAST
    ensures var a' := Submit(a, d, b.ip);
            && |a'.log| == |a.log| + 1 && a'.log[|a.log|].out == DataOut(b.ip, b.eth, d) &&
            var frame := Render(a.eth, a.ip, DataOut(b.ip, b.eth, d));
            && (Delivered(b, frame) == Some(Sealed(d)) <==> Ip.FitsWire(d))
            && Checksum(WordSum(Ip.HeaderBytes(Sealed(d).header), false) % TWO_32) == 0
            && Delivered(c, frame) == None
            && RecvFrame(b, frame) == b
  {
    hide Ip.Parse, Ip.HeaderBytes, Checksum, WordSum, Ip.FitsWire;
    LastPushed(a.(submitted := a.submitted + [Submission(d, b.ip)]), DataOut(b.ip, b.eth, d));
    FrameDelivers(a, b, b.ip, d);
  }

  /**
   A frame changes tables, queues or frames exactly if it is an ARP message to us, and its sender is new, or
   something can be sent to it, or nothing waits and it asks for us or settles a request. Where nothing waits
   for a live mapping that is: a request, or a new sender, or one with a request outstanding.
   */
  lemma FrameActsIff(n: Interface, f: Frame)
    ensures !SameState(n, RecvFrame(n, f)) <==>
              && AddressedTo(n.eth, n.ip, f)
              && var m, w := f.body.message.value, Waiting(n, f.body.message.value.senderIp);
                 || m.senderIp !in n.table
                 || (if w == [] then m.opcode.Request? || m.senderIp in n.outstanding else Sendable(w[0]))
    ensures NoneWaitIfKnown(n) ==>
              (!SameState(n, RecvFrame(n, f)) <==>
                 && AddressedTo(n.eth, n.ip, f)
                 && var m := f.body.message.value;
                    m.opcode.Request? || m.senderIp !in n.table || m.senderIp in n.outstanding)
  {
    hide Drain, Sendable;
    if Heeded(n, f) {
      var m := f.body.message.value;
      var n1 := Learn(n, m.senderIp, m.senderEth);
      DrainHistory(n1, m.senderIp);
      DrainLog(n1, m.senderIp);
      LearnWaits(n, m.senderIp, m.senderEth);
      AnswerActs(Drain(n1, m.senderIp), m);
    }
  }

  lemma AnswerActs(n: Interface, m: ArpMessage)
    ensures SameState(n, Answer(n, m)) <==> m.opcode.Reply? && m.senderIp !in n.outstanding
    ensures n.log <= Answer(n, m).log
  {
    if m.opcode.Request? {
      LastPushed(n, ReplyOut(m.senderIp, m.senderEth));
    } else if m.senderIp in n.outstanding {
      assert m.senderIp !in Answer(n, m).outstanding;
    } else {
      assert n.outstanding - {m.senderIp} == n.outstanding;
    }
  }

  /** Concretely: of two equal replies in a row, the second is silent. */
  lemma RepeatedReplyIsSilent(eth: Eth, ip: IP, peer: Eth, peerIp: IP)
    ensures var reply := Receiving(Frame(eth, peer, ArpBody(Some(ArpMessage(Reply, peer, peerIp, eth, ip)))));
            var n := NewInterface(eth, ip);
            !SameState(n, After(n, [reply])) && SameState(After(n, [reply]), After(n, [reply, reply]))
  {
    var m := ArpMessage(Reply, peer, peerIp, eth, ip);
    var n, reply := NewInterface(eth, ip), Receiving(Frame(eth, peer, ArpBody(Some(m))));
    var n1 := n.(table := map[peerIp := Entry(peer, 0)], heard := [Learned(peerIp, peer, 0)]);
    assert [reply][..0] == [] && [reply, reply][..1] == [reply];
    assert Apply(n, reply).outstanding == map[] && Apply(n, reply) == n1;
    FrameActsIff(n1, reply.frame);
  }

  /**
   Concretely: the default datagram announces no length and cannot be serialized. Sent to an unknown hop it
   waits; the reply to its request then throws, and the next datagram for that hop overtakes it.
   */
  lemma UnsendableIsOvertaken(eth: Eth, ip: IP, peer: Eth, hop: IP, good: Datagram)
    requires Ip.WellFormed(good)
    ensures var bad := Datagram(Ip.DefaultHeader(), []);
            var reply := Frame(eth, peer, ArpBody(Some(ArpMessage(Reply, peer, hop, eth, ip))));
            var n := NewInterface(eth, ip);
            var n1 := After(n, [Sending(bad, hop)]);
            var n3 := After(n, [Sending(bad, hop), Receiving(reply), Sending(good, hop)]);
            && RecvThrows(n1, reply)
            && SubmittedTo(n3.submitted, hop) == [bad, good] && Framed(n3.log, hop) == [good] && Waiting(n3, hop) == [bad]
  {
    hide Ip.HeaderBytes, Ip.Serialize, Framed, SubmittedTo;
    var bad := Datagram(Ip.DefaultHeader(), []);
    var reply := Frame(eth, peer, ArpBody(Some(ArpMessage(Reply, peer, hop, eth, ip))));
    DefaultIsUnsendable();
    WellFormedIsSendable(good);
    var n := NewInterface(eth, ip);
    var e1, e2, e3 := Sending(bad, hop), Receiving(reply), Sending(good, hop);
    assert [e1][..0] == [] && [e1, e2][..1] == [e1] && [e1, e2, e3][..2] == [e1, e2];
    var n1 := After(n, [e1]);
    assert After(n, [e1][..0]) == n;
    assert n1 == Apply(n, e1);
    assert n1.table == map[];
    SubmitMoves(n, bad, hop, hop);
    NothingYet(eth, ip, hop);
    assert Waiting(n1, hop) == [bad];
    assert bad in Waiting(n1, hop);
    var n2 := After(n, [e1, e2]);
    assert n2 == Heed(n1, reply.body.message.value);
    var k := HeedAccounts(n1, reply.body.message.value, hop);
    HeedTable(n1, reply.body.message.value);
    HeedWaiting(n1, reply.body.message.value, hop);
    assert k == 0;
    assert Framed(n1.log, hop) + [bad][..0] == Framed(n1.log, hop);
    SubmitMoves(n2, good, hop, hop);
    assert After(n, [e1, e2, e3]) == Submit(n2, good, hop);
  }

  lemma NothingYet(eth: Eth, ip: IP, hop: IP)
    ensures Accounts(NewInterface(eth, ip), hop, [], [], [])
  {
  }

  lemma DefaultIsUnsendable()
    ensures !Sendable(Datagram(Ip.DefaultHeader(), []))
  {
    assert PayloadLength(Ip.DefaultHeader()) == 65516;
  }

  /** Mappings live for 30000 ms and requests for 5000 ms, however the time is divided into ticks. */
  lemma {:induction false} LifetimesAreExact(n: Interface, ticks: seq<Event>, ip: IP)
    requires forall e | e in ticks :: e.Ticking?
    ensures ip in After(n, ticks).table <==>
              ip in n.table && (ticks == [] || n.table[ip].age + Elapsed(ticks) <= 30000)
    ensures ip in After(n, ticks).table ==>
              After(n, ticks).table[ip] == Entry(n.table[ip].eth, n.table[ip].age + Elapsed(ticks))
    ensures ip in After(n, ticks).outstanding <==>
              ip in n.outstanding && (ticks == [] || n.outstanding[ip] + Elapsed(ticks) <= 5000)
    ensures ip in After(n, ticks).outstanding ==> After(n, ticks).outstanding[ip] == n.outstanding[ip] + Elapsed(ticks)
  {
    if ticks != [] {
      assert ticks[|ticks| - 1].Ticking?;
      LifetimesAreExact(n, ticks[..|ticks| - 1], ip);
    }
  }
}
