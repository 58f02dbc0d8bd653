/** A datagram on its way through the router: from the bytes of one frame to the bytes of another. */
module Forwarding {
  import opened Common
  import opened Datagrams
  import opened Checksums
  import opened InterfaceSpec
  import opened AddressResolution
  import opened RouterSpec
  import opened RouterProofs
  import Ip = IPv4Wire

  // Frames are only added, and mappings stay.
  ghost predicate Grows(ports: seq<Port>, ports': seq<Port>) {
    SameTables(ports, ports') && forall p | 0 <= p < |ports| :: ports[p].net.log <= ports'[p].net.log
  }

  ghost predicate InLog(log: seq<Emission>, out: Out) {
    exists i :: 0 <= i < |log| && log[i].out == out
  }

  // If `d` is forwarded to a hop that is known, it is in a frame to that hop.
  ghost predicate Framed(t: Table, ports: seq<Port>, ports': seq<Port>, d: Datagram)
    requires Grows(ports, ports')
  {
    var decision := Decide(t, d);
    decision.Forward? && decision.port < |ports| && decision.hop in ports[decision.port].net.table ==>
      InLog(ports'[decision.port].net.log,
            DataOut(decision.hop, ports[decision.port].net.table[decision.hop].eth, decision.dgram))
  }

  lemma SubmitGrows(n: Interface, d: Datagram, hop: IP)
    requires !SendThrows(n, d, hop)
    ensures var n' := Submit(n, d, hop);
            n'.table == n.table && n.log <= n'.log && (hop in n.table ==> InLog(n'.log, DataOut(hop, n.table[hop].eth, d)))
  {
    hide Sendable;
    if hop in n.table {
      assert Submit(n, d, hop).log[|n.log|].out == DataOut(hop, n.table[hop].eth, d);
    }
  }

  lemma DeliverGrows(t: Table, ports: seq<Port>, d: Datagram)
    requires !Throws(ports, Decide(t, d))
    ensures Grows(ports, Deliver(ports, Decide(t, d))) && Framed(t, ports, Deliver(ports, Decide(t, d)), d)
  {
    hide Decide, Submit, Sendable, InLog;
    var decision := Decide(t, d);
    if decision.Forward? {
      SubmitGrows(ports[decision.port].net, decision.dgram, decision.hop);
    }
  }

  lemma InLogGrows(log: seq<Emission>, log': seq<Emission>, out: Out)
    requires InLog(log, out) && log <= log'
    ensures InLog(log', out)
  {
    var i :| 0 <= i < |log| && log[i].out == out;
    assert log'[i].out == out;
  }

  // What is framed stays framed, and what a later part of the work frames counts from the start.
  lemma FramedTrans(t: Table, a: seq<Port>, b: seq<Port>, c: seq<Port>, d: Datagram)
    requires Grows(a, b) && Grows(b, c) && (Framed(t, a, b, d) || Framed(t, b, c, d))
    ensures Grows(a, c) && Framed(t, a, c, d)
  {
    hide Decide, InLog;
    var decision := Decide(t, d);
    if decision.Forward? && decision.port < |a| && decision.hop in a[decision.port].net.table {
      var out := DataOut(decision.hop, a[decision.port].net.table[decision.hop].eth, decision.dgram);
      if InLog(b[decision.port].net.log, out) {
        InLogGrows(b[decision.port].net.log, c[decision.port].net.log, out);
      }
    }
  }

  lemma SameNetsGrow(t: Table, a: seq<Port>, b: seq<Port>, c: seq<Port>, d: Datagram)
    requires Grows(a, b) && Framed(t, a, b, d) && |c| == |b| && forall p | 0 <= p < |b| :: c[p].net == b[p].net
    ensures Grows(a, c) && Framed(t, a, c, d)
  {
    hide Decide, InLog;
  }

  lemma {:induction false} DrainPortFrames(t: Table, ports: seq<Port>, i: nat)
    requires i < |ports| && DrainPort(t, ports, i).Done?
    ensures var r := DrainPort(t, ports, i).ports;
            Grows(ports, r) && forall d | d in ports[i].inbox :: Framed(t, ports, r, d)
    decreases |ports[i].inbox|
  {
    hide Decide, Deliver, Throws, Framed;
    var q := ports[i].inbox;
    if q != [] {
      var ports1 := Deliver(ports, Decide(t, q[0]));
      DeliverGrows(t, ports, q[0]);
      var ports2 := WithInbox(ports1, i, q[1..]);
      SameNetsGrow(t, ports, ports1, ports2, q[0]);
      DrainPortFrames(t, ports2, i);
      var r := DrainPort(t, ports2, i).ports;
      forall d | d in q
        ensures Grows(ports, r) && Framed(t, ports, r, d)
      {
        assert d == q[0] || d in q[1..];
        FramedTrans(t, ports, ports2, r, d);
      }
      assert q[0] in q;
    }
  }

  lemma {:induction false} RouteFromFrames(t: Table, ports: seq<Port>, i: nat)
    requires i <= |ports| && RouteFrom(t, ports, i).Done?
    ensures var r := RouteFrom(t, ports, i).ports;
            Grows(ports, r) && forall d | d in Queued(ports, i) :: Framed(t, ports, r, d)
    decreases |ports| - i
  {
    hide DrainPort, Framed, Decide, AllDeliverable, Handled;
    if i < |ports| {
      DrainPortFrames(t, ports, i);
      DrainPortHandles(t, ports, i);
      var ports1 := DrainPort(t, ports, i).ports;
      QueuedSame(ports, ports1, i + 1);
      RouteFromFrames(t, ports1, i + 1);
      var r := RouteFrom(t, ports1, i + 1).ports;
      GrowsTrans(ports, ports1, r);
      forall d | d in Queued(ports, i)
        ensures Framed(t, ports, r, d)
      {
        assert d in ports[i].inbox || d in Queued(ports, i + 1);
        FramedTrans(t, ports, ports1, r, d);
      }
    }
  }

  lemma GrowsTrans(a: seq<Port>, b: seq<Port>, c: seq<Port>)
    requires Grows(a, b) && Grows(b, c)
    ensures Grows(a, c)
  {
  }

  lemma {:induction false} InboxIsQueued(ports: seq<Port>, i: nat, from: nat, d: Datagram)
    requires from <= i < |ports| && d in ports[i].inbox
    ensures d in Queued(ports, from)
    decreases i - from
  {
    if from < i {
      InboxIsQueued(ports, i, from + 1, d);
    }
  }

  // The bytes of a well-formed datagram in a frame to the interface put the datagram into its queue.
  lemma FrameIsQueued(p: Port, f: Frame, d: Datagram)
    requires Ip.WellFormed(d) && f.dst == p.net.eth && f.body == IPv4Body(Ip.HeaderBytes(d.header) + d.payload)
    ensures Receive(p, f).inbox == p.inbox + [d] && Receive(p, f).net == p.net
  {
    hide Ip.Parse, Ip.HeaderBytes;
    Ip.ParseIgnoresHeaderChecksum(d);
  }

  function Hopped(d: Datagram): Datagram
    requires d.header.ttl > 0
  {
    d.(header := d.header.(ttl := d.header.ttl - 1))
  }

  /**
   A well-formed datagram that arrives in a frame at port `i`, with a TTL above 1 and a longest matching route
   whose hop is known, leaves that route's port in a frame to the hop's Ethernet address, whatever else is
   queued. The interface there reads from its bytes the datagram with TTL reduced by one and a checksum that
   verifies.
   */
  lemma ForwardedOnTheWire(routes: seq<Route>, ports: seq<Port>, i: nat, f: Frame, d: Datagram, b: Interface)
    requires i < |ports| && UpTo32(routes)
    requires Ip.WellFormed(d) && f.dst == ports[i].net.eth && f.body == IPv4Body(Ip.HeaderBytes(d.header) + d.payload)
    requires d.header.ttl > 1 && Best(routes, d.header.dst).Some?
    requires var out := Best(routes, d.header.dst).value.out;
             var hop := if out.nextHop.Some? then out.nextHop.value else d.header.dst;
             out.interfaceNum < |ports| && hop in ports[out.interfaceNum].net.table
             && ports[out.interfaceNum].net.table[hop].eth == b.eth
    requires RouteAll(BuildTable(routes), ports[i := Receive(ports[i], f)]).Done?
    ensures var r := RouteAll(BuildTable(routes), ports[i := Receive(ports[i], f)]).ports;
            var out := Best(routes, d.header.dst).value.out;
            var hop := if out.nextHop.Some? then out.nextHop.value else d.header.dst;
            && InLog(r[out.interfaceNum].net.log, DataOut(hop, b.eth, Hopped(d)))
            && Sendable(Hopped(d))
            && Delivered(b, Render(r[out.interfaceNum].net.eth, r[out.interfaceNum].net.ip, DataOut(hop, b.eth, Hopped(d))))
               == Some(Sealed(Hopped(d)))
            && Checksum(WordSum(Ip.HeaderBytes(Sealed(Hopped(d)).header), false) % TWO_32) == 0
  {
    hide Best, BuildTable, RouteFrom, Receive, Delivered, Ip.HeaderBytes, Queued, Decide, InLog, Sendable, Sealed;
    var t, ports1 := BuildTable(routes), ports[i := Receive(ports[i], f)];
    FrameIsQueued(ports[i], f, d);
    InboxIsQueued(ports1, i, 0, d);
    RouteFromFrames(t, ports1, 0);
    DecideByLongestPrefix(routes, d);
    var r := RouteAll(t, ports1).ports;
    assert Framed(t, ports1, r, d);
    var out := Best(routes, d.header.dst).value.out;
    var hop := if out.nextHop.Some? then out.nextHop.value else d.header.dst;
    WellFormedFits(Hopped(d));
    FrameDelivers(r[out.interfaceNum].net, b, hop, Hopped(d));
  }

  lemma WellFormedFits(d: Datagram)
    requires Ip.WellFormed(d)
    ensures Sendable(d) && Ip.FitsWire(d)
  {
    hide Sendable;
    WellFormedIsSendable(d);
  }
}
