/** The two-level table agrees with the plain longest-prefix match over the history of added routes. */
module RouterProofs {
  import opened Common
  import opened Datagrams
  import opened InterfaceSpec
  import opened RouterSpec

  function Up(a: bv32, s: bv6): bv32
    requires s <= 32
  {
    a << s
  }

  // Masking keeps the leading bits and clears the others.
  lemma MaskIsUpDown(a: bv32, s: bv6)
    requires s <= 32
    ensures a & (0xffff_ffff << s) == Up(Down(a, s), s)
  {
  }

  lemma DownUpDown(a: bv32, s: bv6)
    requires s <= 32
    ensures Down(Up(Down(a, s), s), s) == Down(a, s)
  {
  }

  lemma ClearedByLongShift(a: bv32)
    ensures Up(Down(a, 32), 32) == 0 && a & 0 == 0
  {
  }

  lemma MaskedIsUpDown(a: IP, length: Byte)
    requires length <= 32
    ensures Masked(a, length).bits == Up(Down(a.bits, Rest(length)), Rest(length))
  {
    hide Up, Down;
    if length == 0 {
      ClearedByLongShift(a.bits);
    } else {
      MaskIsUpDown(a.bits, Rest(length));
    }
  }

  lemma MaskedBeyond(a: IP, length: Byte)
    requires length > 32
    ensures Masked(a, length).bits == 0
  {
  }

  predicate SameKey(r: Route, dst: IP) {
    Masked(r.prefix, r.length) == Masked(dst, r.length)
  }

  /** Comparing masked addresses is comparing prefixes, up to 32 bits; beyond, the mask is empty. */
  lemma SameKeyIsMatch(r: Route, dst: IP)
    ensures r.length <= 32 ==> (SameKey(r, dst) <==> Matches(r, dst))
    ensures r.length > 32 ==> SameKey(r, dst) && !Matches(r, dst)
  {
    hide Masked, Up, Down, Rest;
    if r.length <= 32 {
      var s := Rest(r.length);
      MaskedIsUpDown(r.prefix, r.length);
      MaskedIsUpDown(dst, r.length);
      DownUpDown(r.prefix.bits, s);
      DownUpDown(dst.bits, s);
    } else {
      MaskedBeyond(r.prefix, r.length);
      MaskedBeyond(dst, r.length);
    }
  }

  // The first route added for a length and a masked prefix.
  function Earliest(routes: seq<Route>, length: Byte, key: IP): Option<InterfaceOut> {
    if routes == [] then None
    else
      var e, r := Earliest(routes[..|routes| - 1], length, key), routes[|routes| - 1];
      if e.Some? then e
      else if r.length == length && Masked(r.prefix, length) == key then Some(r.out)
      else None
  }

  lemma AddRouteFinds(t: Table, r: Route, length: Byte, key: IP)
    ensures Find(AddRoute(t, r), length, key) ==
            if Find(t, length, key).Some? then Find(t, length, key)
            else if r.length == length && Masked(r.prefix, length) == key then Some(r.out)
            else None
  {
    hide Masked;
  }

  lemma {:induction false} TableFindsEarliest(routes: seq<Route>, length: Byte, key: IP)
    ensures Find(BuildTable(routes), length, key) == Earliest(routes, length, key)
  {
    hide Masked, AddRoute;
    if routes != [] {
      TableFindsEarliest(routes[..|routes| - 1], length, key);
      AddRouteFinds(BuildTable(routes[..|routes| - 1]), routes[|routes| - 1], length, key);
    }
  }

  // Longest prefix by masked comparison, for any prefix length.
  function BestByMask(routes: seq<Route>, dst: IP): Option<Route> {
    if routes == [] then None
    else
      var b, r := BestByMask(routes[..|routes| - 1], dst), routes[|routes| - 1];
      if SameKey(r, dst) && (b.None? || r.length > b.value.length) then Some(r) else b
  }

  // No longer prefix has an entry, and the entry for this length is the best route's.
  ghost predicate Tops(routes: seq<Route>, dst: IP, b: Option<Route>) {
    && (forall l: Byte :: b.None? || l > b.value.length ==> Earliest(routes, l, Masked(dst, l)).None?)
    && (b.Some? ==> Earliest(routes, b.value.length, Masked(dst, b.value.length)) == Some(b.value.out))
  }

  lemma {:induction false} BestTops(routes: seq<Route>, dst: IP)
    ensures Tops(routes, dst, BestByMask(routes, dst))
  {
    hide Masked;
    if routes != [] {
      BestTops(routes[..|routes| - 1], dst);
    }
  }

  lemma {:induction false} LookupFromTop(t: Table, dst: IP, top: Byte, l: Byte)
    requires l <= top && Hit(t, l, dst).Some? && forall k: Byte | k > l :: Hit(t, k, dst).None?
    ensures Lookup(t, dst, top) == Hit(t, l, dst)
  {
    hide Hit;
    if l < top {
      LookupFromTop(t, dst, top - 1, l);
    }
  }

  lemma {:induction false} LookupNothing(t: Table, dst: IP, top: Byte)
    requires forall k: Byte :: Hit(t, k, dst).None?
    ensures Lookup(t, dst, top).None?
  {
    hide Hit;
    if top > 0 {
      LookupNothing(t, dst, top - 1);
    }
  }

  function OutOf(r: Option<Route>): Option<InterfaceOut> {
    if r.Some? then Some(r.value.out) else None
  }

  lemma LookupIsBestByMask(routes: seq<Route>, dst: IP)
    ensures Lookup(BuildTable(routes), dst, 255) == OutOf(BestByMask(routes, dst))
  {
    hide Lookup, BuildTable, BestByMask, Masked, Earliest, Find;
    var t, b := BuildTable(routes), BestByMask(routes, dst);
    forall k: Byte
      ensures Hit(t, k, dst) == Earliest(routes, k, Masked(dst, k))
    {
      TableFindsEarliest(routes, k, Masked(dst, k));
    }
    BestTops(routes, dst);
    if b.Some? {
      LookupFromTop(t, dst, 255, b.value.length);
    } else {
      LookupNothing(t, dst, 255);
    }
  }

  predicate UpTo32(routes: seq<Route>) {
    forall r | r in routes :: r.length <= 32
  }

  lemma {:induction false} MaskAgreesUpTo32(routes: seq<Route>, dst: IP)
    requires UpTo32(routes)
    ensures BestByMask(routes, dst) == Best(routes, dst)
  {
    hide SameKey, Matches;
    if routes != [] {
      MaskAgreesUpTo32(routes[..|routes| - 1], dst);
      SameKeyIsMatch(routes[|routes| - 1], dst);
    }
  }

  /** The best route is in the list and matches, and any other matching route is shorter or added later. */
  lemma {:induction false} BestIsLongest(routes: seq<Route>, dst: IP)
    ensures var b := Best(routes, dst);
            && (b.None? <==> forall r | r in routes :: !Matches(r, dst))
            && (b.Some? ==> exists i :: 0 <= i < |routes| && routes[i] == b.value && IsBest(routes, dst, i))
  {
    hide Matches;
    if routes != [] {
      var n := |routes| - 1;
      var before, r := routes[..n], routes[n];
      BestIsLongest(before, dst);
      assert forall x | x in routes :: x in before || x == r;
      assert forall x | x in before :: x in routes;
      var b := Best(before, dst);
      if Matches(r, dst) && (b.None? || r.length > b.value.length) {
        assert IsBest(routes, dst, n) by {
          NewBest(routes, dst);
        }
      } else if b.Some? {
        var i :| 0 <= i < n && before[i] == b.value && IsBest(before, dst, i);
        assert routes[i] == b.value && IsBest(routes, dst, i);
      }
    }
  }

  // Route `i` matches, no matching route is longer, and none as long was added before it.
  ghost predicate IsBest(routes: seq<Route>, dst: IP, i: nat) {
    && i < |routes| && Matches(routes[i], dst)
    && forall j | 0 <= j < |routes| && Matches(routes[j], dst) ::
         routes[j].length < routes[i].length || (routes[j].length == routes[i].length && i <= j)
  }

  lemma NewBest(routes: seq<Route>, dst: IP)
    requires routes != [] && Matches(routes[|routes| - 1], dst)
    requires var b, r := Best(routes[..|routes| - 1], dst), routes[|routes| - 1];
             if b.None? then forall x | x in routes[..|routes| - 1] :: !Matches(x, dst)
             else r.length > b.value.length
                  && exists i :: 0 <= i < |routes| - 1 && routes[i] == b.value && IsBest(routes[..|routes| - 1], dst, i)
    ensures IsBest(routes, dst, |routes| - 1)
  {
    hide Matches, Best;
    var n := |routes| - 1;
    var before := routes[..n];
    forall j | 0 <= j < n && Matches(routes[j], dst)
      ensures routes[j].length < routes[n].length
    {
      assert before[j] == routes[j] && before[j] in before;
    }
  }

  /**
   Refinement: with prefixes of at most 32 bits, looking a destination up in the table picks the interface of
   the longest matching route, the earliest added among equals.
   */
  lemma LookupIsLongestPrefix(routes: seq<Route>, dst: IP)
    requires UpTo32(routes)
    ensures Lookup(BuildTable(routes), dst, 255) == OutOf(Best(routes, dst))
  {
    hide Lookup, BuildTable, Best, BestByMask;
    LookupIsBestByMask(routes, dst);
    MaskAgreesUpTo32(routes, dst);
  }

  // The longest route of more than 32 bits, the earliest among equals.
  ghost predicate IsWidest(routes: seq<Route>, i: nat) {
    && i < |routes| && routes[i].length > 32
    && forall j | 0 <= j < |routes| ::
         routes[j].length < routes[i].length || (routes[j].length == routes[i].length && i <= j)
  }

  lemma {:induction false} WidestWins(routes: seq<Route>, dst: IP, i: nat)
    requires IsWidest(routes, i)
    ensures BestByMask(routes, dst) == Some(routes[i])
  {
    hide SameKey;
    var n := |routes| - 1;
    var before := routes[..n];
    SameKeyIsMatch(routes[n], dst);
    if i < n {
      assert before[i] == routes[i];
      WidestWins(before, dst, i);
    } else {
      ShorterByMask(before, dst, routes[n].length);
    }
  }

  lemma {:induction false} ShorterByMask(routes: seq<Route>, dst: IP, length: Byte)
    requires forall j | 0 <= j < |routes| :: routes[j].length < length
    ensures BestByMask(routes, dst).Some? ==> BestByMask(routes, dst).value.length < length
  {
    hide SameKey;
    if routes != [] {
      ShorterByMask(routes[..|routes| - 1], dst, length);
    }
  }

  lemma {:induction false} WidestExists(routes: seq<Route>) returns (i: nat)
    requires !UpTo32(routes)
    ensures IsWidest(routes, i)
  {
    var n := |routes| - 1;
    var before := routes[..n];
    i := n;
    if !UpTo32(before) {
      var k := WidestExists(before);
      assert before[k] == routes[k];
      if routes[n].length <= routes[k].length {
        i := k;
        assert forall j | 0 <= j < n :: before[j] == routes[j];
      } else {
        assert forall j | 0 <= j < n :: before[j] == routes[j] && routes[j].length <= routes[k].length;
      }
    } else {
      forall j | 0 <= j < n
        ensures routes[j].length <= 32
      {
        assert before[j] == routes[j] && before[j] in before;
      }
      assert routes[n].length > 32;
    }
  }

  /**
   For any routes at all, the table picks the interface of the longest matching route exactly if no route has
   more than 32 bits, or the widest of those happens to name the same interface.
   */
  lemma LookupIsLongestPrefixIff(routes: seq<Route>, dst: IP)
    ensures Lookup(BuildTable(routes), dst, 255) == OutOf(Best(routes, dst)) <==>
            forall i: nat | IsWidest(routes, i) :: Best(routes, dst).Some? && Best(routes, dst).value.out == routes[i].out
    ensures UpTo32(routes) <==> forall i: nat :: !IsWidest(routes, i)
  {
    hide Lookup, BuildTable, Best, BestByMask;
    if UpTo32(routes) {
      LookupIsLongestPrefix(routes, dst);
      assert forall i: nat :: !IsWidest(routes, i);
    } else {
      var i := WidestExists(routes);
      LookupIsBestByMask(routes, dst);
      WidestWins(routes, dst, i);
      assert forall k: nat | IsWidest(routes, k) :: k == i;
    }
  }

  /** Concretely: a route of 33 bits takes every destination away from an exact route of 32 bits. */
  lemma ThirtyThreeBitRouteWins(dst: IP, exact: InterfaceOut, rogue: InterfaceOut)
    requires exact != rogue
    ensures var routes := [Route(dst, 32, exact), Route(IP(0), 33, rogue)];
            Best(routes, dst).Some? && Best(routes, dst).value.out == exact
            && Lookup(BuildTable(routes), dst, 255) == Some(rogue)
  {
    hide Lookup, BuildTable, Matches, SameKey;
    var a, z := Route(dst, 32, exact), Route(IP(0), 33, rogue);
    var routes := [a, z];
    LookupIsBestByMask(routes, dst);
    assert routes[..1] == [a] && [a][..0] == [];
    SameKeyIsMatch(a, dst);
    SameKeyIsMatch(z, dst);
    assert Matches(a, dst) by {
      MatchesItself(a);
    }
    assert Best([a], dst) == Some(a) && BestByMask([a], dst) == Some(a);
  }

  /** Concretely: a route of 33 bits does no harm where it names the interface of the exact route. */
  lemma ThirtyThreeBitRouteAgrees(dst: IP, out: InterfaceOut)
    ensures var routes := [Route(dst, 32, out), Route(IP(0), 33, out)];
            !UpTo32(routes) && Lookup(BuildTable(routes), dst, 255) == OutOf(Best(routes, dst)) == Some(out)
  {
    hide Lookup, BuildTable, Matches, SameKey;
    var a, z := Route(dst, 32, out), Route(IP(0), 33, out);
    var routes := [a, z];
    assert z in routes && routes[1] == z;
    assert routes[..1] == [a] && [a][..0] == [];
    SameKeyIsMatch(z, dst);
    MatchesItself(a);
    assert Best([a], dst) == Some(a);
    LookupIsLongestPrefixIff(routes, dst);
  }

  lemma MatchesItself(r: Route)
    requires r.length <= 32
    ensures Matches(r, r.prefix)
  {
    hide Down, Rest;
  }

  /** A datagram goes out by the longest matching route with its TTL reduced, or is dropped. */
  lemma DecideByLongestPrefix(routes: seq<Route>, d: Datagram)
    requires UpTo32(routes)
    ensures var best := Best(routes, d.header.dst);
            Decide(BuildTable(routes), d) ==
            if best.None? || d.header.ttl <= 1 then
              Drop
            else
              Forward(best.value.out.interfaceNum, d.(header := d.header.(ttl := d.header.ttl - 1)),
                      if best.value.out.nextHop.Some? then best.value.out.nextHop.value else d.header.dst)
  {
    hide Lookup, BuildTable, Best;
    LookupIsLongestPrefix(routes, d.header.dst);
  }

  // Handling the queues

  function Queued(ports: seq<Port>, i: nat): seq<Datagram>
    requires i <= |ports|
    decreases |ports| - i
  {
    if i == |ports| then [] else ports[i].inbox + Queued(ports, i + 1)
  }

  // The datagrams among `ds` that are forwarded to port `p`, in order.
  function ForwardedTo(t: Table, ds: seq<Datagram>, p: nat): seq<Submission> {
    if ds == [] then []
    else
      var decision := Decide(t, ds[0]);
      (if decision.Forward? && decision.port == p then [Submission(decision.dgram, decision.hop)] else [])
      + ForwardedTo(t, ds[1..], p)
  }

  /** No datagram among `ds` is decided for a missing port, or for a known hop without having a serialization. */
  predicate AllDeliverable(t: Table, ports: seq<Port>, ds: seq<Datagram>) {
    forall d | d in ds :: !Throws(ports, Decide(t, d))
  }

  // Forwarding adds no mapping, so it does not change what throws.
  ghost predicate SameTables(ports: seq<Port>, ports': seq<Port>) {
    |ports'| == |ports| && forall p | 0 <= p < |ports| :: ports'[p].net.table == ports[p].net.table
  }

  lemma SameThrows(t: Table, ports: seq<Port>, ports': seq<Port>, ds: seq<Datagram>)
    requires SameTables(ports, ports')
    ensures AllDeliverable(t, ports, ds) <==> AllDeliverable(t, ports', ds)
  {
    hide Decide, Sendable;
    forall d | d in ds
      ensures Throws(ports, Decide(t, d)) <==> Throws(ports', Decide(t, d))
    {
    }
  }

  lemma {:induction false} ForwardedConcat(t: Table, a: seq<Datagram>, b: seq<Datagram>, p: nat)
    ensures ForwardedTo(t, a + b, p) == ForwardedTo(t, a, p) + ForwardedTo(t, b, p)
  {
    hide Decide;
    if a == [] {
      assert a + b == b;
    } else {
      assert (a + b)[1..] == a[1..] + b;
      ForwardedConcat(t, a[1..], b, p);
    }
  }

  lemma SubmitRecords(n: Interface, d: Datagram, hop: IP)
    requires !SendThrows(n, d, hop)
    ensures Submit(n, d, hop).submitted == n.submitted + [Submission(d, hop)]
    ensures Submit(n, d, hop).table == n.table
  {
    hide Sendable;
  }

  // The ports after handling `ds`: the submissions have grown, the tables are the same.
  ghost predicate Handled(t: Table, ports: seq<Port>, ports': seq<Port>, ds: seq<Datagram>) {
    && |ports'| == |ports|
    && SameTables(ports, ports')
    && forall p | 0 <= p < |ports| ::
         ports'[p].net.submitted == ports[p].net.submitted + ForwardedTo(t, ds, p)
  }

  lemma DeliverOne(t: Table, ports: seq<Port>, d: Datagram)
    requires !Throws(ports, Decide(t, d))
    ensures Handled(t, ports, Deliver(ports, Decide(t, d)), [d])
    ensures forall p | 0 <= p < |ports| :: Deliver(ports, Decide(t, d))[p].inbox == ports[p].inbox
  {
    hide Decide, Submit, Sendable;
    var decision := Decide(t, d);
    assert [d][1..] == [];
    assert forall p :: ForwardedTo(t, [d], p) ==
                       if decision.Forward? && decision.port == p
                       then [Submission(decision.dgram, decision.hop)] else [];
    if decision.Forward? {
      SubmitRecords(ports[decision.port].net, decision.dgram, decision.hop);
    }
  }

  lemma HandledTrans(t: Table, a: seq<Port>, b: seq<Port>, c: seq<Port>, x: seq<Datagram>, y: seq<Datagram>)
    requires Handled(t, a, b, x) && Handled(t, b, c, y)
    ensures Handled(t, a, c, x + y)
  {
    hide ForwardedTo;
    forall p | 0 <= p < |a|
      ensures c[p].net.submitted == a[p].net.submitted + ForwardedTo(t, x + y, p)
    {
      ForwardedConcat(t, x, y, p);
    }
  }

  lemma {:induction false} DrainPortHandles(t: Table, ports: seq<Port>, i: nat)
    requires i < |ports|
    ensures var r := DrainPort(t, ports, i);
            && (r.Done? <==> AllDeliverable(t, ports, ports[i].inbox))
            && (r.Done? ==> Handled(t, ports, r.ports, ports[i].inbox) && r.ports[i].inbox == []
                            && forall p | 0 <= p < |ports| && p != i :: r.ports[p].inbox == ports[p].inbox)
    decreases |ports[i].inbox|
  {
    hide Decide, Handled, Deliver, Throws;
    var q := ports[i].inbox;
    if q != [] {
      assert q == [q[0]] + q[1..];
      if Throws(ports, Decide(t, q[0])) {
        assert q[0] in q;
      } else {
        var ports1 := Deliver(ports, Decide(t, q[0]));
        DeliverOne(t, ports, q[0]);
        var ports2 := WithInbox(ports1, i, q[1..]);
        SameNets(t, ports, ports1, ports2, [q[0]]);
        HandledTables(t, ports, ports2, [q[0]]);
        SameThrows(t, ports, ports2, q[1..]);
        DrainPortHandles(t, ports2, i);
        var r := DrainPort(t, ports2, i);
        if r.Done? {
          HandledTrans(t, ports, ports2, r.ports, [q[0]], q[1..]);
        }
      }
    } else {
      HandledNothing(t, ports);
    }
  }

  lemma SameNets(t: Table, ports: seq<Port>, a: seq<Port>, b: seq<Port>, ds: seq<Datagram>)
    requires Handled(t, ports, a, ds) && |b| == |a| && forall p | 0 <= p < |a| :: b[p].net == a[p].net
    ensures Handled(t, ports, b, ds)
  {
  }

  lemma HandledTables(t: Table, ports: seq<Port>, ports': seq<Port>, ds: seq<Datagram>)
    requires Handled(t, ports, ports', ds)
    ensures SameTables(ports, ports')
  {
  }

  lemma HandledNothing(t: Table, ports: seq<Port>)
    ensures Handled(t, ports, ports, [])
  {
  }

  lemma {:induction false} QueuedSame(a: seq<Port>, b: seq<Port>, i: nat)
    requires i <= |a| == |b| && forall p | i <= p < |a| :: a[p].inbox == b[p].inbox
    ensures Queued(a, i) == Queued(b, i)
    decreases |a| - i
  {
    if i < |a| {
      QueuedSame(a, b, i + 1);
    }
  }

  lemma {:induction false} RouteFromHandles(t: Table, ports: seq<Port>, i: nat)
    requires i <= |ports|
    ensures var r := RouteFrom(t, ports, i);
            && (r.Done? <==> AllDeliverable(t, ports, Queued(ports, i)))
            && (r.Done? ==> Handled(t, ports, r.ports, Queued(ports, i))
                            && (forall p | 0 <= p < i :: r.ports[p].inbox == ports[p].inbox)
                            && (forall p | i <= p < |ports| :: r.ports[p].inbox == []))
    decreases |ports| - i
  {
    hide Handled, DrainPort, Throws, Decide;
    if i == |ports| {
      HandledNothing(t, ports);
    } else {
      DrainPortHandles(t, ports, i);
      var r := DrainPort(t, ports, i);
      if r.Done? {
        HandledTables(t, ports, r.ports, ports[i].inbox);
        SameThrows(t, ports, r.ports, Queued(ports, i + 1));
        QueuedSame(ports, r.ports, i + 1);
        RouteFromHandles(t, r.ports, i + 1);
        var r' := RouteFrom(t, r.ports, i + 1);
        if r'.Done? {
          HandledTrans(t, ports, r.ports, r'.ports, ports[i].inbox, Queued(ports, i + 1));
        }
      }
    }
  }

  /**
   `route` finishes exactly if every queued datagram is dropped, or has an existing port and, where the hop is
   known, a serialization. Then every queue is empty, and each port was given, once and in order, the
   datagrams decided for it.
   */
  lemma RouteHandlesEachOnce(t: Table, ports: seq<Port>)
    ensures var r := RouteAll(t, ports);
            && (r.Done? <==> AllDeliverable(t, ports, Queued(ports, 0)))
            && (r.Done? ==> forall p | 0 <= p < |ports| ::
                              && r.ports[p].inbox == []
                              && r.ports[p].net.submitted ==
                                 ports[p].net.submitted + ForwardedTo(t, Queued(ports, 0), p))
  {
    hide RouteFrom, Throws, Decide, ForwardedTo, Queued;
    RouteFromHandles(t, ports, 0);
  }
}
