/** What a frame does to a port, and where `route` stops when a datagram throws. */
module Interruption {
  import opened Datagrams
  import opened InterfaceSpec
  import opened RouterSpec
  import opened RouterProofs
  import Emissions
  import Ip = IPv4Wire

  /**
   A frame makes a port push exactly the frames its interface owes for it, once; a datagram joins the queue
   exactly if the frame is for us and its bytes parse as one. In particular a request is answered by exactly
   one frame where nothing waits for the asker.
   */
  lemma WhatAPortDoes(p: Port, f: Frame)
    ensures var p' := Receive(p, f);
            && p'.net.log == p.net.log + Emissions.At(p.net.clock, Emissions.Pushed(p.net, Receiving(f)))
            && p'.inbox == p.inbox +
                 (if (f.dst == p.net.eth || f.dst == ETHERNET_BROADCAST) && f.body.IPv4Body?
                     && Ip.Parse(f.body.bytes).result.NoError?
                  then [Ip.Parse(f.body.bytes).datagram] else [])
            && (Heeded(p.net, f) && f.body.message.value.opcode.Request? ==>
                  Waiting(p.net, f.body.message.value.senderIp) == [] ==> |p'.net.log| == |p.net.log| + 1)
            && (f.body.IPv4Body? ==> p'.net == p.net)
  {
    hide Ip.Parse, Heed, Sendable;
    Emissions.WhatIsPushed(p.net, Receiving(f));
  }

  // The queues of the ports from `k` up to but not including `i`, one after the other.
  function Between(ports: seq<Port>, k: nat, i: nat): seq<Datagram>
    requires k <= i <= |ports|
    decreases i - k
  {
    if k == i then [] else ports[k].inbox + Between(ports, k + 1, i)
  }

  /**
   The work stopped at the `j`-th datagram of port `i`: that is the first to throw; everything before it is
   handled and gone, it is in front with its TTL reduced, and everything behind it still waits.
   */
  ghost predicate StoppedAt(t: Table, ports: seq<Port>, ports': seq<Port>, k: nat, i: nat, j: nat) {
    && k <= i < |ports| == |ports'| && j < |ports[i].inbox|
    && var q := ports[i].inbox;
       var done := Between(ports, k, i) + q[..j];
       && Throws(ports, Decide(t, q[j])) && AllDeliverable(t, ports, done)
       && Handled(t, ports, ports', done)
       && ports'[i].inbox == [q[j].(header := q[j].header.(ttl := q[j].header.ttl - 1))] + q[j + 1..]
       && (forall p | k <= p < i :: ports'[p].inbox == [])
       && (forall p | 0 <= p < k || i < p < |ports| :: ports'[p].inbox == ports[p].inbox)
  }

  lemma ThrowsReduced(t: Table, ports: seq<Port>, d: Datagram)
    requires Throws(ports, Decide(t, d))
    ensures d.header.ttl > 1 && Decide(t, d).Forward?
    ensures Decide(t, d).dgram == d.(header := d.header.(ttl := d.header.ttl - 1))
  {
    hide Lookup, Sendable;
  }

  lemma FirstThrows(t: Table, ports: seq<Port>, i: nat)
    requires i < |ports| && ports[i].inbox != [] && Throws(ports, Decide(t, ports[i].inbox[0]))
    ensures StoppedAt(t, ports, DrainPort(t, ports, i).ports, i, i, 0)
  {
    hide Decide, Throws, Handled;
    var q := ports[i].inbox;
    ThrowsReduced(t, ports, q[0]);
    assert [] + q[..0] == [];
    var d := Decide(t, q[0]).dgram;
    assert q[0 := d] == [d] + q[1..];
    HandledNothing(t, ports);
    SameNets(t, ports, ports, DrainPort(t, ports, i).ports, []);
  }

  lemma {:induction false} DrainPortStops(t: Table, ports: seq<Port>, i: nat) returns (j: nat)
    requires i < |ports| && DrainPort(t, ports, i).Stopped?
    ensures StoppedAt(t, ports, DrainPort(t, ports, i).ports, i, i, j)
    decreases |ports[i].inbox|
  {
    hide Decide, Handled, Deliver, Throws, StoppedAt;
    var q := ports[i].inbox;
    if Throws(ports, Decide(t, q[0])) {
      FirstThrows(t, ports, i);
      j := 0;
    } else {
      var ports1 := Deliver(ports, Decide(t, q[0]));
      DeliverOne(t, ports, q[0]);
      var ports2 := WithInbox(ports1, i, q[1..]);
      SameNets(t, ports, ports1, ports2, [q[0]]);
      var j' := DrainPortStops(t, ports2, i);
      j := j' + 1;
      OneMore(t, ports, ports2, DrainPort(t, ports2, i).ports, i, j');
    }
  }

  lemma OneMore(t: Table, a: seq<Port>, b: seq<Port>, c: seq<Port>, i: nat, j: nat)
    requires i < |a| == |b| && a[i].inbox != [] && b[i].inbox == a[i].inbox[1..]
    requires !Throws(a, Decide(t, a[i].inbox[0])) && Handled(t, a, b, [a[i].inbox[0]])
    requires forall p | 0 <= p < |a| && p != i :: b[p].inbox == a[p].inbox
    requires StoppedAt(t, b, c, i, i, j)
    ensures StoppedAt(t, a, c, i, i, j + 1)
  {
    hide Decide, Throws, Handled;
    var q := a[i].inbox;
    assert [] + q[1..][..j] == q[1..][..j] && [] + q[..j + 1] == q[..j + 1];
    assert q[..j + 1] == [q[0]] + q[1..][..j];
    assert q[1..][j] == q[j + 1] && q[1..][j + 1..] == q[j + 2..];
    HandledTrans(t, a, b, c, [q[0]], q[1..][..j]);
    HandledTables(t, a, b, [q[0]]);
    SameThrows(t, a, b, q[1..][..j]);
    SameThrow(t, a, b, q[j + 1]);
  }

  lemma SameThrow(t: Table, a: seq<Port>, b: seq<Port>, d: Datagram)
    requires SameTables(a, b)
    ensures Throws(a, Decide(t, d)) <==> Throws(b, Decide(t, d))
  {
    hide Decide, Sendable;
  }

  lemma {:induction false} BetweenSame(a: seq<Port>, b: seq<Port>, k: nat, i: nat)
    requires k <= i <= |a| == |b| && forall p | k <= p < |a| :: a[p].inbox == b[p].inbox
    ensures Between(a, k, i) == Between(b, k, i)
    decreases i - k
  {
    if k < i {
      BetweenSame(a, b, k + 1, i);
    }
  }

  lemma PortBefore(t: Table, a: seq<Port>, b: seq<Port>, c: seq<Port>, k: nat, i: nat, j: nat)
    requires k < |a| == |b| && AllDeliverable(t, a, a[k].inbox) && Handled(t, a, b, a[k].inbox)
    requires b[k].inbox == [] && forall p | 0 <= p < |a| && p != k :: b[p].inbox == a[p].inbox
    requires StoppedAt(t, b, c, k + 1, i, j)
    ensures StoppedAt(t, a, c, k, i, j)
  {
    hide Decide, Throws, Handled, AllDeliverable;
    var q, rest := a[i].inbox, Between(a, k + 1, i) + a[i].inbox[..j];
    BetweenSame(a, b, k + 1, i);
    assert Between(a, k, i) + q[..j] == a[k].inbox + rest;
    HandledTrans(t, a, b, c, a[k].inbox, rest);
    HandledTables(t, a, b, a[k].inbox);
    SameThrows(t, a, b, rest);
    SameThrow(t, a, b, q[j]);
    DeliverableConcat(t, a, a[k].inbox, rest);
  }

  lemma DeliverableConcat(t: Table, ports: seq<Port>, x: seq<Datagram>, y: seq<Datagram>)
    requires AllDeliverable(t, ports, x) && AllDeliverable(t, ports, y)
    ensures AllDeliverable(t, ports, x + y)
  {
    hide Decide, Throws;
  }

  lemma {:induction false} RouteFromStops(t: Table, ports: seq<Port>, k: nat) returns (i: nat, j: nat)
    requires k <= |ports| && RouteFrom(t, ports, k).Stopped?
    ensures StoppedAt(t, ports, RouteFrom(t, ports, k).ports, k, i, j)
    decreases |ports| - k
  {
    hide DrainPort, Handled, Throws, Decide, StoppedAt, AllDeliverable;
    var r := DrainPort(t, ports, k);
    if r.Stopped? {
      i := k;
      j := DrainPortStops(t, ports, k);
    } else {
      DrainPortHandles(t, ports, k);
      i, j := RouteFromStops(t, r.ports, k + 1);
      PortBefore(t, ports, r.ports, RouteFrom(t, r.ports, k + 1).ports, k, i, j);
    }
  }

  /** If `route` stops, it stops at the first datagram, in the order of the ports and their queues, that throws. */
  lemma RouteStopsAtFirst(t: Table, ports: seq<Port>)
    requires RouteAll(t, ports).Stopped?
    ensures exists i: nat, j: nat :: StoppedAt(t, ports, RouteAll(t, ports).ports, 0, i, j)
  {
    hide RouteFrom, StoppedAt;
    var i, j := RouteFromStops(t, ports, 0);
  }
}
