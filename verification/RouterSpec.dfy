/** Routing by longest prefix (section 5.2.4.3 of RFC 1812) and what happens to a routed datagram. */
module RouterSpec {
  import opened Common
  import opened Datagrams
  import opened InterfaceSpec

  // `None` as next hop: the network is attached directly.
  datatype InterfaceOut = InterfaceOut(nextHop: Option<IP>, interfaceNum: nat)

  datatype Route = Route(prefix: IP, length: Byte, out: InterfaceOut)

  type Table = map<Byte, map<IP, InterfaceOut>>

  // The number of bits after the first `length`.
  function Rest(length: Byte): (r: bv6)
    requires length <= 32
    ensures r <= 32
  {
    (32 - length) as bv6
  }

  function Down(a: bv32, s: bv6): bv32
    requires s <= 32
  {
    a >> s
  }

  function Mask(length: Byte): bv32 {
    if length == 0 || length > 32 then 0 else 0xffff_ffff << Rest(length)
  }

  function Masked(a: IP, length: Byte): IP {
    IP(a.bits & Mask(length))
  }

  function AddRoute(t: Table, r: Route): Table {
    var t1 := if r.length in t then t else t[r.length := map[]];
    var key := Masked(r.prefix, r.length);
    if key in t1[r.length] then t1 else t1[r.length := t1[r.length][key := r.out]]
  }

  function BuildTable(routes: seq<Route>): Table {
    if routes == [] then map[] else AddRoute(BuildTable(routes[..|routes| - 1]), routes[|routes| - 1])
  }

  function Find(t: Table, length: Byte, key: IP): Option<InterfaceOut> {
    if length in t && key in t[length] then Some(t[length][key]) else None
  }

  function Hit(t: Table, length: Byte, dst: IP): Option<InterfaceOut> {
    Find(t, length, Masked(dst, length))
  }

  // The first hit when the prefix lengths from `top` down to 0 are tried.
  function Lookup(t: Table, dst: IP, top: Byte): Option<InterfaceOut> {
    if Hit(t, top, dst).Some? then Hit(t, top, dst)
    else if top == 0 then None
    else Lookup(t, dst, top - 1)
  }

  /** The plain definition: the leading `length` bits of the address are those of the prefix. */
  predicate Matches(r: Route, dst: IP) {
    r.length <= 32 && Down(r.prefix.bits, Rest(r.length)) == Down(dst.bits, Rest(r.length))
  }

  // Among the matching routes the longest, and the earliest added among equals.
  function Best(routes: seq<Route>, dst: IP): Option<Route> {
    if routes == [] then None
    else
      var b, r := Best(routes[..|routes| - 1], dst), routes[|routes| - 1];
      if Matches(r, dst) && (b.None? || r.length > b.value.length) then Some(r) else b
  }

  // Forwarding

  /** A port: an interface and the datagrams it has received. */
  datatype Port = Port(net: Interface, inbox: seq<Datagram>)

  // A frame arrives: a datagram in it that the interface delivers joins the queue.
  function Receive(p: Port, frame: Frame): Port {
    var d := Delivered(p.net, frame);
    Port(RecvFrame(p.net, frame), if d.Some? then p.inbox + [d.value] else p.inbox)
  }

  datatype Decision = Drop | Forward(port: nat, dgram: Datagram, hop: IP)

  function Decide(t: Table, d: Datagram): Decision {
    match Lookup(t, d.header.dst, 255)
    case None => Drop
    case Some(out) =>
      if d.header.ttl <= 1 then
        Drop
      else
        Forward(out.interfaceNum, d.(header := d.header.(ttl := d.header.ttl - 1)),
                if out.nextHop.Some? then out.nextHop.value else d.header.dst)
  }

  // `at` throws for a port that does not exist, `send_datagram` for a datagram it cannot serialize.
  predicate Throws(ports: seq<Port>, decision: Decision) {
    && decision.Forward?
    && (decision.port >= |ports| || SendThrows(ports[decision.port].net, decision.dgram, decision.hop))
  }

  function Deliver(ports: seq<Port>, decision: Decision): (r: seq<Port>)
    requires !Throws(ports, decision)
    ensures |r| == |ports|
  {
    match decision
    case Drop => ports
    case Forward(port, d, hop) => ports[port := ports[port].(net := Submit(ports[port].net, d, hop))]
  }

  // How far `route` got: to the end, or to a datagram that throws.
  datatype Outcome = Done(ports: seq<Port>) | Stopped(ports: seq<Port>)

  function WithInbox(ports: seq<Port>, i: nat, inbox: seq<Datagram>): (r: seq<Port>)
    requires i < |ports|
    ensures |r| == |ports|
  {
    ports[i := ports[i].(inbox := inbox)]
  }

  // Route the queue of one port. The datagram that throws stays in front, its TTL already reduced.
  function DrainPort(t: Table, ports: seq<Port>, i: nat): (r: Outcome)
    requires i < |ports|
    ensures |r.ports| == |ports|
    decreases |ports[i].inbox|
  {
    var q := ports[i].inbox;
    if q == [] then
      Done(ports)
    else
      var decision := Decide(t, q[0]);
      if Throws(ports, decision) then
        Stopped(WithInbox(ports, i, q[0 := decision.dgram]))
      else
        DrainPort(t, WithInbox(Deliver(ports, decision), i, q[1..]), i)
  }

  function RouteFrom(t: Table, ports: seq<Port>, i: nat): (r: Outcome)
    requires i <= |ports|
    ensures |r.ports| == |ports|
    decreases |ports| - i
  {
    if i == |ports| then
      Done(ports)
    else
      var r := DrainPort(t, ports, i);
      if r.Done? then RouteFrom(t, r.ports, i + 1) else r
  }

  function RouteAll(t: Table, ports: seq<Port>): Outcome {
    RouteFrom(t, ports, 0)
  }
}
