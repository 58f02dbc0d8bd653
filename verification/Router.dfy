/** The router object. */
module Routers {
  import opened Common
  import opened Datagrams
  import opened InterfaceSpec
  import opened Interfaces
  import opened DatagramOrder
  import opened RouterSpec
  import Spec = RouterSpec

  /** Beside each interface, the queue of datagrams it has received; `ports` is the value of both. */
  class Router {
    var interfaces: seq<NetworkInterface>
    var datagramsOut: seq<seq<Datagram>>
    var routingTable: Table
    ghost var ports: seq<Port>
    ghost var routes: seq<Spec.Route>

    /** The interfaces are different objects, and the table is the one built from the routes added so far. */
    ghost predicate Valid()
      reads this, interfaces
    {
      && routingTable == BuildTable(routes)
      && |ports| == |interfaces| == |datagramsOut|
      && (forall i | 0 <= i < |ports| ::
            interfaces[i].Valid() && ports[i] == Port(interfaces[i].Value(), datagramsOut[i]))
      && (forall i, j | 0 <= i < j < |interfaces| :: interfaces[i] != interfaces[j])
    }

    constructor ()
      ensures Valid() && ports == [] && routes == []
    {
      interfaces, datagramsOut, routingTable, ports, routes := [], [], map[], [], [];
    }

    method AddInterface(net: NetworkInterface) returns (n: nat)
      requires Valid() && net.Valid() && net !in interfaces
      modifies this`interfaces, this`datagramsOut, this`ports
      ensures Valid() && ports == old(ports) + [Port(net.Value(), [])]
      ensures n == |ports| - 1 && interfaces == old(interfaces) + [net]
    {
      ports := ports + [Port(net.Value(), [])];
      interfaces, datagramsOut := interfaces + [net], datagramsOut + [[]];
      n := |interfaces| - 1;
    }

    // A frame for one of the interfaces; a datagram in it waits for `route`.
    method RecvFrame(n: nat, frame: Frame) returns (ok: bool)
      requires Valid() && n < |interfaces|
      modifies this`datagramsOut, this`ports, interfaces[n]
      ensures Valid()
      ensures ok == !RecvThrows(old(ports)[n].net, frame)
      ensures ports == old(ports)[n := Receive(old(ports)[n], frame)]
    {
      hide BuildTable, NetworkInterface.Valid, InterfaceSpec.RecvFrame, Delivered, RecvThrows;
      var d;
      ok, d := interfaces[n].RecvFrame(frame);
      if d.Some? {
        datagramsOut := datagramsOut[n := datagramsOut[n] + [d.value]];
      }
      ports := ports[n := Receive(ports[n], frame)];
    }

    method AddRoute(prefix: IP, length: Byte, nextHop: Option<IP>, interfaceNum: nat)
      requires Valid()
      modifies this`routingTable, this`routes
      ensures Valid()
      ensures routes == old(routes) + [Spec.Route.Route(prefix, length, InterfaceOut(nextHop, interfaceNum))]
    {
      hide Masked, BuildTable, NetworkInterface.Valid;
      ghost var r := Spec.Route.Route(prefix, length, InterfaceOut(nextHop, interfaceNum));
      if length !in routingTable {
        routingTable := routingTable[length := map[]];
      }
      var key := Masked(prefix, length);
      if key !in routingTable[length] {
        routingTable := routingTable[length := routingTable[length][key := InterfaceOut(nextHop, interfaceNum)]];
      }
      assert routingTable == Spec.AddRoute(old(routingTable), r);
      BuildMore(routes, r);
      routes := routes + [r];
    }

    // Try the prefix lengths in descending order, as the reverse iteration over the ordered map does.
    method LongestMatch(dst: IP) returns (out: Option<InterfaceOut>)
      ensures out == Lookup(routingTable, dst, 255)
    {
      hide Masked;
      var length := 255;
      while true
        invariant 0 <= length <= 255
        invariant Lookup(routingTable, dst, 255) == Lookup(routingTable, dst, length)
        decreases length
      {
        if length in routingTable {
          var prefixes := routingTable[length];
          var key := Masked(dst, length);
          if key in prefixes {
            return Some(prefixes[key]);
          }
        }
        if length == 0 {
          return None;
        }
        length := length - 1;
      }
    }

    /** One datagram, by reference: `after` is what its place in the queue then holds. */
    method RouteOneDatagram(d: Datagram) returns (ok: bool, after: Datagram)
      requires Valid()
      modifies this`ports, interfaces
      ensures Valid() && datagramsOut == old(datagramsOut)
      ensures var decision := Decide(routingTable, d);
              && ok == !Throws(old(ports), decision)
              && ports == (if ok then Deliver(old(ports), decision) else old(ports))
              && after == if decision.Forward? then decision.dgram else d
    {
      hide Lookup, Submit, BuildTable, Sendable, NetworkInterface.Valid;
      after := d;
      var found := LongestMatch(d.header.dst);
      if found.None? || d.header.ttl <= 1 {
        return true, after;
      }
      after := d.(header := d.header.(ttl := d.header.ttl - 1));
      var out := found.value;
      if out.interfaceNum >= |interfaces| {
        return false, after;
      }
      var hop := if out.nextHop.Some? then out.nextHop.value else d.header.dst;
      ok := interfaces[out.interfaceNum].SendDatagram(after, hop);
      if ok {
        ports := Deliver(ports, Decide(routingTable, d));
      } else {
        ThrowingSendIsIdle(ports[out.interfaceNum].net, after, hop);
      }
    }

    // Route the queue of port `i`.
    method DrainPort(i: nat) returns (ok: bool)
      requires Valid() && i < |interfaces|
      modifies this`ports, this`datagramsOut, interfaces
      ensures Valid()
      ensures (if ok then Done(ports) else Stopped(ports)) == Spec.DrainPort(routingTable, old(ports), i)
    {
      hide Decide, BuildTable;
      while datagramsOut[i] != []
        invariant Valid() && |ports| == |old(ports)|
        invariant Spec.DrainPort(routingTable, ports, i) == Spec.DrainPort(routingTable, old(ports), i)
        decreases |datagramsOut[i]|
      {
        var q := datagramsOut[i];
        var after;
        DeliverKeepsInbox(ports, Decide(routingTable, q[0]), i);
        ok, after := RouteOneDatagram(q[0]);
        SetQueue(i, if ok then q[1..] else q[0 := after]);
        if !ok {
          return;
        }
      }
      ok := true;
    }

    method SetQueue(i: nat, q: seq<Datagram>)
      requires Valid() && i < |interfaces|
      modifies this`ports, this`datagramsOut
      ensures Valid() && ports == WithInbox(old(ports), i, q) && datagramsOut == old(datagramsOut)[i := q]
    {
      hide BuildTable, NetworkInterface.Valid;
      datagramsOut := datagramsOut[i := q];
      ports := WithInbox(ports, i, q);
    }

    method Route() returns (ok: bool)
      requires Valid()
      modifies this`ports, this`datagramsOut, interfaces
      ensures Valid()
      ensures (if ok then Done(ports) else Stopped(ports)) == RouteAll(routingTable, old(ports))
    {
      hide Spec.DrainPort, BuildTable;
      for i := 0 to |interfaces|
        invariant Valid() && |ports| == |old(ports)|
        invariant RouteFrom(routingTable, ports, i) == RouteAll(routingTable, old(ports))
      {
        ok := DrainPort(i);
        if !ok {
          return;
        }
      }
      ok := true;
    }
  }

  lemma BuildMore(routes: seq<Spec.Route>, r: Spec.Route)
    ensures BuildTable(routes + [r]) == Spec.AddRoute(BuildTable(routes), r)
  {
    assert (routes + [r])[..|routes|] == routes;
  }

  lemma DeliverKeepsInbox(ports: seq<Port>, decision: Decision, i: nat)
    requires i < |ports|
    ensures !Throws(ports, decision) ==> Deliver(ports, decision)[i].inbox == ports[i].inbox
  {
    hide Submit;
  }
}
