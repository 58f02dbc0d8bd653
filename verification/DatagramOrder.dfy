/** Where every datagram given to the interface is: framed or waiting, and in which order. */
module DatagramOrder {
  import opened Common
  import opened Datagrams
  import opened InterfaceSpec
  import opened InterfaceProofs

  function Framed(log: seq<Emission>, hop: IP): seq<Datagram> {
    if log == [] then []
    else
      var n := |log| - 1;
      Framed(log[..n], hop) +
      if log[n].out.DataOut? && log[n].out.hop == hop then [log[n].out.dgram] else []
  }

  function SubmittedTo(s: seq<Submission>, hop: IP): seq<Datagram> {
    if s == [] then []
    else
      var n := |s| - 1;
      SubmittedTo(s[..n], hop) + if s[n].hop == hop then [s[n].dgram] else []
  }

  /** Per hop: every datagram submitted is framed or waits, and none is both. */
  ghost predicate Kept(n: Interface) {
    forall hop: IP ::
      multiset(SubmittedTo(n.submitted, hop)) == multiset(Framed(n.log, hop)) + multiset(Waiting(n, hop))
  }

  /** Per hop: what was submitted is what was framed, followed by what waits. */
  ghost predicate Conserved(n: Interface) {
    forall hop: IP :: SubmittedTo(n.submitted, hop) == Framed(n.log, hop) + Waiting(n, hop)
  }

  /** A hop with a live mapping has nothing waiting. */
  ghost predicate NoneWaitIfKnown(n: Interface) {
    forall ip | ip in n.table :: Waiting(n, ip) == []
  }

  ghost predicate Orderly(n: Interface) {
    Conserved(n) && NoneWaitIfKnown(n)
  }

  // Steps

  lemma FramedPush(log: seq<Emission>, e: Emission, hop: IP)
    ensures Framed(log + [e], hop) ==
            Framed(log, hop) + if e.out.DataOut? && e.out.hop == hop then [e.out.dgram] else []
  {
    assert (log + [e])[..|log|] == log;
  }

  lemma SubmittedPush(s: seq<Submission>, e: Submission, hop: IP)
    ensures SubmittedTo(s + [e], hop) == SubmittedTo(s, hop) + if e.hop == hop then [e.dgram] else []
  {
    assert (s + [e])[..|s|] == s;
  }

  // The three accounts of hop `h`: submitted, framed and waiting.
  predicate Accounts(n: Interface, h: IP, submitted: seq<Datagram>, framed: seq<Datagram>, waiting: seq<Datagram>) {
    SubmittedTo(n.submitted, h) == submitted && Framed(n.log, h) == framed && Waiting(n, h) == waiting
  }

  lemma SubmitMoves(n: Interface, d: Datagram, hop: IP, h: IP)
    requires !SendThrows(n, d, hop)
    ensures var more := if h == hop then [d] else [];
            var s, f, w := SubmittedTo(n.submitted, h), Framed(n.log, h), Waiting(n, h);
            Accounts(Submit(n, d, hop), h, s + more,
                     if hop in n.table then f + more else f, if hop in n.table then w else w + more)
  {
    hide Framed, SubmittedTo, Sendable;
    SubmittedPush(n.submitted, Submission(d, hop), h);
    if hop in n.table {
      FramedPush(n.log, Emission(n.clock, DataOut(hop, n.table[hop].eth, d)), h);
    } else if hop !in n.outstanding {
      FramedPush(n.log, Emission(n.clock, RequestOut(hop)), h);
    }
  }

  // One round of the drain loop: the front of the queue moves into a frame, and nothing is queued again.
  lemma DrainMoves(n: Interface, hop: IP, h: IP)
    requires hop in n.table && Waiting(n, hop) != [] && Sendable(Waiting(n, hop)[0])
    ensures var n1 := SendDatagram(n, n.unsent[hop][0], hop);
            var n' := n1.(unsent := n1.unsent[hop := n1.unsent[hop][1..]]);
            var s, f, w := SubmittedTo(n.submitted, h), Framed(n.log, h), Waiting(n, h);
            Accounts(n', h, s, if h == hop then f + [w[0]] else f, if h == hop then w[1..] else w)
  {
    hide Framed, SubmittedTo, Sendable;
    FramedPush(n.log, Emission(n.clock, DataOut(hop, n.table[hop].eth, n.unsent[hop][0])), h);
  }

  lemma AnswerMoves(n: Interface, m: ArpMessage, h: IP)
    ensures Accounts(Answer(n, m), h, SubmittedTo(n.submitted, h), Framed(n.log, h), Waiting(n, h))
  {
    hide Framed, SubmittedTo;
    FramedPush(n.log, Emission(n.clock, ReplyOut(m.senderIp, m.senderEth)), h);
  }

  lemma FrontSendable(w: seq<Datagram>)
    ensures AllSendable(w) <==> w == [] || (Sendable(w[0]) && AllSendable(w[1..]))
  {
    hide Sendable;
    assert w != [] ==> w == [w[0]] + w[1..];
  }

  lemma FrontMoves(f: seq<Datagram>, w: seq<Datagram>, j: nat)
    requires j < |w|
    ensures f + [w[0]] + w[1..][..j] == f + w[..j + 1] && w[1..][j..] == w[j + 1..]
  {
    assert [w[0]] + w[1..][..j] == w[..j + 1];
  }

  // Draining moves a prefix of the queue into frames: all of it exactly if all of it is sendable.
  lemma {:induction false} DrainAccounts(n: Interface, hop: IP, h: IP) returns (k: nat)
    requires hop in n.table
    ensures var s, f, w := SubmittedTo(n.submitted, h), Framed(n.log, h), Waiting(n, h);
            && k <= |w|
            && Accounts(Drain(n, hop), h, s, f + w[..k], w[k..])
            && (h != hop ==> k == 0)
            && (h == hop ==> (k == |w| <==> AllSendable(w)))
    decreases |Waiting(n, hop)|
  {
    hide Framed, SubmittedTo, Sendable, AllSendable;
    var w := Waiting(n, h);
    FrontSendable(Waiting(n, hop));
    k := 0;
    if Waiting(n, hop) != [] && Sendable(n.unsent[hop][0]) {
      DrainMoves(n, hop, h);
      var n1 := SendDatagram(n, n.unsent[hop][0], hop);
      var n' := n1.(unsent := n1.unsent[hop := n1.unsent[hop][1..]]);
      var j := DrainAccounts(n', hop, h);
      if h == hop {
        k := j + 1;
        FrontMoves(Framed(n.log, h), w, j);
      }
    }
    assert k == 0 ==> Framed(n.log, h) + w[..0] == Framed(n.log, h);
  }

  lemma DrainEmptiesIff(n: Interface, hop: IP)
    requires hop in n.table
    ensures Waiting(Drain(n, hop), hop) == [] <==> AllSendable(Waiting(n, hop))
    ensures forall h | h != hop :: Waiting(Drain(n, hop), h) == Waiting(n, h)
  {
    hide Drain, Sendable, Framed, SubmittedTo;
    var k := DrainAccounts(n, hop, hop);
    forall h | h != hop
      ensures Waiting(Drain(n, hop), h) == Waiting(n, h)
    {
      var j := DrainAccounts(n, hop, h);
    }
  }

  // What a heeded message does to the accounts.
  lemma HeedAccounts(n: Interface, m: ArpMessage, h: IP) returns (k: nat)
    ensures var s, f, w := SubmittedTo(n.submitted, h), Framed(n.log, h), Waiting(n, h);
            k <= |w| && Accounts(Heed(n, m), h, s, f + w[..k], w[k..])
  {
    hide Drain, Framed, SubmittedTo, Answer;
    var n1 := Learn(n, m.senderIp, m.senderEth);
    k := DrainAccounts(n1, m.senderIp, h);
    AnswerMoves(Drain(n1, m.senderIp), m, h);
  }

  // Nothing is lost or doubled

  lemma SubmitKeepsAll(n: Interface, d: Datagram, hop: IP)
    requires Kept(n)
    ensures Kept(Submit(n, d, hop))
  {
    hide Submit, Framed, SubmittedTo, SendThrows, Waiting;
    var n' := Submit(n, d, hop);
    if SendThrows(n, d, hop) {
      ThrowingSendIsIdle(n, d, hop);
    } else {
      forall h: IP
        ensures multiset(SubmittedTo(n'.submitted, h)) == multiset(Framed(n'.log, h)) + multiset(Waiting(n', h))
      {
        SubmitMoves(n, d, hop, h);
      }
    }
  }

  lemma HeedKeepsAll(n: Interface, m: ArpMessage)
    requires Kept(n)
    ensures Kept(Heed(n, m))
  {
    hide Heed, Framed, SubmittedTo, Waiting;
    var n' := Heed(n, m);
    forall h: IP
      ensures multiset(SubmittedTo(n'.submitted, h)) == multiset(Framed(n'.log, h)) + multiset(Waiting(n', h))
    {
      var k := HeedAccounts(n, m, h);
      assert Waiting(n, h) == Waiting(n, h)[..k] + Waiting(n, h)[k..];
    }
  }

  lemma TickKeepsAll(n: Interface, ms: nat)
    requires Kept(n)
    ensures Kept(Tick(n, ms))
  {
    hide Framed, SubmittedTo;
  }

  lemma ApplyKeepsAll(n: Interface, e: Event)
    requires Kept(n)
    ensures Kept(Apply(n, e))
  {
    hide Kept, Submit, Heed, Tick;
    match e {
      case Sending(d, hop) => SubmitKeepsAll(n, d, hop);
      case Receiving(f) =>
        if Heeded(n, f) {
          HeedKeepsAll(n, f.body.message.value);
        }
      case Ticking(ms) => TickKeepsAll(n, ms);
    }
  }

  lemma ThrowingSendIsIdle(n: Interface, d: Datagram, hop: IP)
    requires SendThrows(n, d, hop)
    ensures Submit(n, d, hop) == n
  {
  }

  /**
   In every run, exceptions included, and for every hop, the datagrams that `send_datagram` took are those
   framed and those waiting: none is lost and none is doubled.
   */
  lemma {:induction false} NoneIsLost(eth: Eth, ip: IP, events: seq<Event>)
    ensures Kept(After(NewInterface(eth, ip), events))
  {
    hide Apply;
    if events != [] {
      NoneIsLost(eth, ip, events[..|events| - 1]);
      ApplyKeepsAll(After(NewInterface(eth, ip), events[..|events| - 1]), events[|events| - 1]);
    }
  }

  // Order

  lemma SubmitOrderly(n: Interface, d: Datagram, hop: IP)
    requires Orderly(n)
    ensures Orderly(Submit(n, d, hop))
  {
    hide Framed, SubmittedTo, Sendable, Waiting;
    var n' := Submit(n, d, hop);
    if !SendThrows(n, d, hop) {
      SubmitTable(n, d, hop);
      forall h: IP
        ensures SubmittedTo(n'.submitted, h) == Framed(n'.log, h) + Waiting(n', h)
        ensures h in n'.table ==> Waiting(n', h) == []
      {
        SubmitMoves(n, d, hop, h);
        assert SubmittedTo(n.submitted, h) == Framed(n.log, h) + Waiting(n, h);
      }
    }
  }

  lemma SubmitTable(n: Interface, d: Datagram, hop: IP)
    ensures Submit(n, d, hop).table == n.table
  {
    hide Sendable;
  }

  lemma HeedTable(n: Interface, m: ArpMessage)
    ensures Heed(n, m).table == Learn(n, m.senderIp, m.senderEth).table
  {
    hide Drain;
    DrainHistory(Learn(n, m.senderIp, m.senderEth), m.senderIp);
  }

  lemma HeedWaiting(n: Interface, m: ArpMessage, h: IP)
    ensures h != m.senderIp ==> Waiting(Heed(n, m), h) == Waiting(n, h)
    ensures Waiting(Heed(n, m), m.senderIp) == [] <==> AllSendable(Waiting(n, m.senderIp))
  {
    hide Drain, Sendable, AllSendable;
    var n1 := Learn(n, m.senderIp, m.senderEth);
    DrainEmptiesIff(n1, m.senderIp);
    assert Waiting(n1, h) == Waiting(n, h) && Waiting(n1, m.senderIp) == Waiting(n, m.senderIp);
  }

  lemma HeedOrderlyIff(n: Interface, m: ArpMessage)
    requires Orderly(n)
    ensures Orderly(Heed(n, m)) <==> AllSendable(Waiting(n, m.senderIp))
  {
    hide Heed, Framed, SubmittedTo, Waiting, AllSendable;
    var n' := Heed(n, m);
    HeedTable(n, m);
    HeedWaiting(n, m, m.senderIp);
    HeedConserves(n, m);
    forall h | h != m.senderIp && h in n'.table
      ensures Waiting(n', h) == []
    {
      HeedWaiting(n, m, h);
    }
  }

  // A datagram goes out at once past a different one that waits for the same hop.
  ghost predicate Overtakes(n: Interface, e: Event) {
    && e.Sending? && e.hop in n.table && Sendable(e.dgram)
    && exists d | d in Waiting(n, e.hop) :: d != e.dgram
  }

  lemma {:induction false} SwapsIff(w: seq<Datagram>, d: Datagram)
    ensures w + [d] == [d] + w <==> forall x | x in w :: x == d
  {
    if w != [] {
      SwapsIff(w[1..], d);
      assert w == [w[0]] + w[1..];
      assert w + [d] == [w[0]] + (w[1..] + [d]);
      if w + [d] == [d] + w {
        assert (w + [d])[0] == d && (w + [d])[1..] == w[1..] + [d];
        assert ([d] + w)[1..] == w;
      }
      if forall x | x in w :: x == d {
        assert w[0] in w && w[0] == d;
        assert forall x | x in w[1..] :: x in w;
        assert [d] + w == [w[0]] + ([d] + w[1..]);
      }
    }
  }

  lemma SubmitConservedIff(n: Interface, d: Datagram, hop: IP)
    requires Conserved(n)
    ensures Conserved(Submit(n, d, hop)) <==> !Overtakes(n, Sending(d, hop))
  {
    hide Framed, SubmittedTo, Sendable, Submit, Waiting;
    var n', w := Submit(n, d, hop), Waiting(n, hop);
    if SendThrows(n, d, hop) {
      ThrowingSendIsIdle(n, d, hop);
    } else {
      forall h: IP
        ensures h != hop || hop !in n.table || w + [d] == [d] + w ==>
                  SubmittedTo(n'.submitted, h) == Framed(n'.log, h) + Waiting(n', h)
      {
        SubmitMoves(n, d, hop, h);
        var f, v := Framed(n.log, h), Waiting(n, h);
        assert SubmittedTo(n.submitted, h) == f + v;
        assert f + v + [d] == f + (v + [d]) && f + [d] + v == f + ([d] + v);
      }
      SubmitMoves(n, d, hop, hop);
      SwapsIff(w, d);
      var f := Framed(n.log, hop);
      assert SubmittedTo(n.submitted, hop) == f + w;
      assert f + w + [d] == f + (w + [d]) && f + [d] + w == f + ([d] + w);
      if f + (w + [d]) == f + ([d] + w) {
        assert w + [d] == (f + (w + [d]))[|f|..] && [d] + w == (f + ([d] + w))[|f|..];
      }
    }
  }

  lemma HeedConserves(n: Interface, m: ArpMessage)
    requires Conserved(n)
    ensures Conserved(Heed(n, m))
  {
    hide Heed, Framed, SubmittedTo, Waiting;
    var n' := Heed(n, m);
    forall h: IP
      ensures SubmittedTo(n'.submitted, h) == Framed(n'.log, h) + Waiting(n', h)
    {
      var k := HeedAccounts(n, m, h);
      var f, w := Framed(n.log, h), Waiting(n, h);
      assert SubmittedTo(n.submitted, h) == f + w;
      assert f + w == f + w[..k] + w[k..];
    }
  }

  lemma TickConserves(n: Interface, ms: nat)
    requires Conserved(n)
    ensures Conserved(Tick(n, ms))
  {
    hide Framed, SubmittedTo;
  }

  /**
   A call keeps the datagrams of every hop in order exactly if it does not send one past a different one that
   waits. A frame that arrives never breaks the order, even if it makes the call throw.
   */
  lemma ConservedIff(n: Interface, e: Event)
    requires Conserved(n)
    ensures Conserved(Apply(n, e)) <==> !Overtakes(n, e)
  {
    hide Conserved, Submit, Heed, Tick, Waiting, Sendable;
    match e {
      case Sending(d, hop) => SubmitConservedIff(n, d, hop);
      case Receiving(f) =>
        if Heeded(n, f) {
          HeedConserves(n, f.body.message.value);
        }
      case Ticking(ms) => TickConserves(n, ms);
    }
  }

  /** In a run the datagrams of every hop are in order in every state exactly if no call overtakes. */
  lemma {:induction false} InOrderIff(eth: Eth, ip: IP, events: seq<Event>)
    ensures (forall k | 0 <= k <= |events| :: Conserved(After(NewInterface(eth, ip), events[..k]))) <==>
            (forall k | 0 <= k < |events| :: !Overtakes(After(NewInterface(eth, ip), events[..k]), events[k]))
  {
    hide Apply, Overtakes, Conserved;
    var c := NewInterface(eth, ip);
    if events == [] {
      NothingWaits(eth, ip);
      assert events[..0] == [];
    } else {
      var n := |events| - 1;
      var before := events[..n];
      assert forall k | 0 <= k <= n :: before[..k] == events[..k];
      assert forall k | 0 <= k < n :: before[k] == events[k];
      InOrderIff(eth, ip, before);
      assert events[..|events|] == events && events[..n] == before;
      if Conserved(After(c, before)) {
        ConservedIff(After(c, before), events[n]);
      }
      assert After(c, events) == Apply(After(c, before), events[n]);
    }
  }

  /**
   A call leaves datagrams in order and none waiting for a live mapping exactly if it is not the arrival of an
   ARP message whose sender has a datagram waiting that does not serialize: that one throws half-way, and
   leaves the datagram waiting for the mapping just learned.
   */
  lemma OrderlyIff(n: Interface, e: Event)
    requires Orderly(n)
    ensures Orderly(Apply(n, e)) <==> !(e.Receiving? && RecvThrows(n, e.frame))
  {
    hide Submit, Heed, Framed, SubmittedTo, AllSendable, Waiting;
    match e {
      case Sending(d, hop) => SubmitOrderly(n, d, hop);
      case Receiving(f) =>
        if Heeded(n, f) {
          HeedOrderlyIff(n, f.body.message.value);
        }
      case Ticking(ms) => TickOrderly(n, ms);
    }
  }

  lemma TickOrderly(n: Interface, ms: nat)
    requires Orderly(n)
    ensures Orderly(Tick(n, ms))
  {
    hide Framed, SubmittedTo;
  }

  ghost predicate NeverThrowsReceiving(n: Interface, events: seq<Event>) {
    forall i | 0 <= i < |events| && events[i].Receiving? :: !RecvThrows(After(n, events[..i]), events[i].frame)
  }

  /**
   In every run in which `recv_frame` does not throw, and for every hop, the datagrams taken are those framed,
   in the same order, followed by those waiting: none is lost, doubled or overtaken, and nothing waits for a
   hop with a live mapping.
   */
  lemma DatagramsAreConserved(eth: Eth, ip: IP, events: seq<Event>)
    requires NeverThrowsReceiving(NewInterface(eth, ip), events)
    ensures Orderly(After(NewInterface(eth, ip), events))
  {
    hide After, Orderly, NeverThrowsReceiving;
    AlwaysOrderlyIff(eth, ip, events);
    assert events[..|events|] == events;
  }

  /** That holds in every state of a run exactly if `recv_frame` never throws in it. */
  lemma {:induction false} AlwaysOrderlyIff(eth: Eth, ip: IP, events: seq<Event>)
    ensures (forall k | 0 <= k <= |events| :: Orderly(After(NewInterface(eth, ip), events[..k]))) <==>
            NeverThrowsReceiving(NewInterface(eth, ip), events)
  {
    hide Apply, RecvThrows, Orderly;
    var c := NewInterface(eth, ip);
    if events == [] {
      NothingWaits(eth, ip);
      assert events[..0] == [];
    } else {
      var n := |events| - 1;
      var before := events[..n];
      assert forall k | 0 <= k <= n :: before[..k] == events[..k];
      assert forall k | 0 <= k < n :: before[k] == events[k];
      AlwaysOrderlyIff(eth, ip, before);
      assert events[..|events|] == events && events[..n] == before;
      if Orderly(After(c, before)) {
        OrderlyIff(After(c, before), events[n]);
      }
      assert After(c, events) == Apply(After(c, before), events[n]);
    }
  }

  // It does not throw while everything sent is sendable

  ghost predicate WaitingSendable(n: Interface) {
    forall hop: IP :: AllSendable(Waiting(n, hop))
  }

  lemma ApplyWaitingSendable(n: Interface, e: Event)
    requires WaitingSendable(n) && (e.Sending? ==> Sendable(e.dgram))
    ensures WaitingSendable(Apply(n, e))
  {
    hide Submit, Heed, Framed, SubmittedTo, Sendable, AgedTable, AgedRequests;
    forall h: IP
      ensures AllSendable(Waiting(Apply(n, e), h))
    {
      assert AllSendable(Waiting(n, h));
      if e.Sending? && !SendThrows(n, e.dgram, e.hop) {
        SubmitMoves(n, e.dgram, e.hop, h);
      } else if e.Receiving? && Heeded(n, e.frame) {
        var k := HeedAccounts(n, e.frame.body.message.value, h);
      }
    }
  }

  /** If every datagram given can be serialized, no run ever makes `recv_frame` throw. */
  lemma {:induction false} SendableNeverThrows(eth: Eth, ip: IP, events: seq<Event>)
    requires forall e | e in events && e.Sending? :: Sendable(e.dgram)
    ensures NeverThrowsReceiving(NewInterface(eth, ip), events)
    ensures WaitingSendable(After(NewInterface(eth, ip), events))
  {
    hide Apply, Sendable, Waiting;
    if events != [] {
      var n, c := |events| - 1, NewInterface(eth, ip);
      var before := events[..n];
      SendableNeverThrows(eth, ip, before);
      assert forall i | 0 <= i < n :: before[..i] == events[..i];
      ApplyWaitingSendable(After(c, before), events[n]);
    } else {
      NothingWaits(eth, ip);
    }
  }

  lemma NothingWaits(eth: Eth, ip: IP)
    ensures WaitingSendable(NewInterface(eth, ip)) && Orderly(NewInterface(eth, ip)) && Kept(NewInterface(eth, ip))
  {
  }
}
