/** What the interface keeps over every run, exceptions included: the rate limit and the freshness of mappings. */
module InterfaceProofs {
  import opened Common
  import opened Datagrams
  import opened InterfaceSpec

  // A mapping is learned only after the request that is still outstanding.
  ghost predicate Aged(n: Interface) {
    && (forall ip | ip in n.table :: n.table[ip].age <= ENTRY_EXPIRY)
    && (forall ip | ip in n.outstanding :: n.outstanding[ip] <= MSG_EXPIRY)
    && (forall ip | ip in n.table && ip in n.outstanding :: n.table[ip].age <= n.outstanding[ip])
  }

  // A request sent `since` milliseconds ago still keeps the next one away, or is old enough.
  predicate Covered(n: Interface, ip: IP, since: int) {
    || since > MSG_EXPIRY
    || (ip in n.outstanding && n.outstanding[ip] == since)
    || (ip in n.table && n.table[ip].age <= since)
  }

  ghost predicate RequestsCovered(n: Interface) {
    forall i | 0 <= i < |n.log| && n.log[i].out.RequestOut? :: Covered(n, n.log[i].out.ip, n.clock - n.log[i].time)
  }

  /** Two requests for the same address are more than 5000 ms apart. */
  ghost predicate RateLimited(log: seq<Emission>) {
    forall i, j | 0 <= i < j < |log| && log[i].out.RequestOut? && log[i].out == log[j].out ::
      log[j].time - log[i].time > MSG_EXPIRY
  }

  // Some ARP message heard at `time` named `eth` for `ip`.
  ghost predicate Heard(heard: seq<Learned>, ip: IP, eth: Eth, time: int) {
    exists i :: 0 <= i < |heard| && heard[i].ip == ip && heard[i].eth == eth && heard[i].time == time
  }

  ghost predicate TableHeard(n: Interface) {
    forall ip | ip in n.table :: Heard(n.heard, ip, n.table[ip].eth, n.clock - n.table[ip].age)
  }

  // A datagram was framed by a mapping heard at most 30000 ms before.
  ghost predicate FreshlyMapped(heard: seq<Learned>, e: Emission) {
    e.out.DataOut? ==>
      exists t: nat :: Heard(heard, e.out.hop, e.out.eth, t) && t <= e.time <= t + ENTRY_EXPIRY
  }

  ghost predicate AllFreshlyMapped(n: Interface) {
    forall e | e in n.log :: FreshlyMapped(n.heard, e)
  }

  ghost predicate Requested(log: seq<Emission>, ip: IP, time: int) {
    exists i :: 0 <= i < |log| && log[i].out == RequestOut(ip) && log[i].time == time
  }

  // An outstanding request was sent as long ago as its record says.
  ghost predicate OutstandingSent(n: Interface) {
    forall ip | ip in n.outstanding :: Requested(n.log, ip, n.clock - n.outstanding[ip])
  }

  // Everything about clocks and mappings.
  ghost predicate Timely(n: Interface) {
    && Aged(n)
    && OutstandingSent(n)
    && RequestsCovered(n)
    && RateLimited(n.log)
    && TableHeard(n)
    && AllFreshlyMapped(n)
  }

  /** Every datagram in a frame has a serialization. */
  ghost predicate FramesSendable(n: Interface) {
    forall e | e in n.log && e.out.DataOut? :: Sendable(e.out.dgram)
  }

  ghost predicate Inv(n: Interface) {
    Timely(n) && FramesSendable(n)
  }

  // Clocks and mappings

  // A frame other than a request, which uses the live mapping of its hop if it carries a datagram.
  predicate Harmless(n: Interface, out: Out) {
    out.ReplyOut? || (out.DataOut? && out.hop in n.table && out.eth == n.table[out.hop].eth)
  }

  lemma PushTimely(n: Interface, out: Out)
    requires Timely(n) && Harmless(n, out)
    ensures Timely(Push(n, out))
  {
    hide Heard, Requested, OutstandingSent;
    var n' := Push(n, out);
    OutstandingPush(n, Emission(n.clock, out), n.outstanding);
    forall e | e in n'.log
      ensures FreshlyMapped(n'.heard, e)
    {
      if e !in n.log && out.DataOut? {
        assert Heard(n.heard, out.hop, out.eth, n.clock - n.table[out.hop].age);
        HeardIsPast(n.heard, out.hop, out.eth, n.clock - n.table[out.hop].age);
      }
    }
  }

  lemma RequestedMore(log: seq<Emission>, e: Emission, ip: IP, time: int)
    ensures Requested(log, ip, time) ==> Requested(log + [e], ip, time)
    ensures e.out == RequestOut(ip) && e.time == time ==> Requested(log + [e], ip, time)
  {
    assert (log + [e])[|log|] == e;
    if Requested(log, ip, time) {
      var i :| 0 <= i < |log| && log[i].out == RequestOut(ip) && log[i].time == time;
      assert (log + [e])[i] == log[i];
    }
  }

  lemma OutstandingPush(n: Interface, e: Emission, outstanding: map<IP, nat>)
    requires OutstandingSent(n)
    requires forall ip | ip in outstanding ::
               (ip in n.outstanding && outstanding[ip] == n.outstanding[ip]) ||
               (e.out == RequestOut(ip) && e.time == n.clock - outstanding[ip])
    ensures OutstandingSent(n.(log := n.log + [e], outstanding := outstanding))
  {
    hide Requested;
    forall ip | ip in outstanding
      ensures Requested(n.log + [e], ip, n.clock - outstanding[ip])
    {
      RequestedMore(n.log, e, ip, n.clock - outstanding[ip]);
    }
  }

  lemma HeardIsPast(heard: seq<Learned>, ip: IP, eth: Eth, time: int)
    requires Heard(heard, ip, eth, time)
    ensures time >= 0
  {
  }

  // A request goes out only for an address without mapping and without outstanding request.
  lemma RequestTimely(n: Interface, hop: IP)
    requires Timely(n) && hop !in n.table && hop !in n.outstanding
    ensures Timely(AskFor(n, hop))
  {
    hide Heard, Requested, OutstandingSent;
    var n' := AskFor(n, hop);
    OutstandingPush(n, Emission(n.clock, RequestOut(hop)), n'.outstanding);
    forall e | e in n'.log
      ensures FreshlyMapped(n'.heard, e)
    {
      assert e in n.log || e == Emission(n.clock, RequestOut(hop));
    }
    forall i | 0 <= i < |n'.log| && n'.log[i].out.RequestOut?
      ensures Covered(n', n'.log[i].out.ip, n'.clock - n'.log[i].time)
    {
      if i < |n.log| {
        assert n'.log[i] == n.log[i];
        assert Covered(n, n.log[i].out.ip, n.clock - n.log[i].time);
      }
    }
    forall i, j | 0 <= i < j < |n'.log| && n'.log[i].out.RequestOut? && n'.log[i].out == n'.log[j].out
      ensures n'.log[j].time - n'.log[i].time > MSG_EXPIRY
    {
      assert n'.log[i] == n.log[i];
      if j < |n.log| {
        assert n'.log[j] == n.log[j];
      } else {
        assert Covered(n, n.log[i].out.ip, n.clock - n.log[i].time);
      }
    }
  }

  lemma UnsentTimely(n: Interface, unsent: map<IP, seq<Datagram>>, submitted: seq<Submission>)
    requires Timely(n)
    ensures Timely(n.(unsent := unsent, submitted := submitted))
  {
  }

  lemma HeardMore(heard: seq<Learned>, l: Learned, ip: IP, eth: Eth, time: int)
    requires Heard(heard, ip, eth, time)
    ensures Heard(heard + [l], ip, eth, time)
  {
    var i :| 0 <= i < |heard| && heard[i].ip == ip && heard[i].eth == eth && heard[i].time == time;
    assert (heard + [l])[i] == heard[i];
  }

  lemma FreshlyMappedMore(heard: seq<Learned>, l: Learned, e: Emission)
    requires FreshlyMapped(heard, e)
    ensures FreshlyMapped(heard + [l], e)
  {
    if e.out.DataOut? {
      var t: nat :| Heard(heard, e.out.hop, e.out.eth, t) && t <= e.time <= t + ENTRY_EXPIRY;
      HeardMore(heard, l, e.out.hop, e.out.eth, t);
    }
  }

  lemma LearnKeepsHeard(n: Interface, ip: IP, eth: Eth)
    requires TableHeard(n) && AllFreshlyMapped(n)
    ensures TableHeard(Learn(n, ip, eth)) && AllFreshlyMapped(Learn(n, ip, eth))
  {
    hide Heard, FreshlyMapped;
    var n' := Learn(n, ip, eth);
    var l := Learned(ip, eth, n.clock);
    forall e | e in n'.log
      ensures FreshlyMapped(n'.heard, e)
    {
      FreshlyMappedMore(n.heard, l, e);
    }
    forall a | a in n'.table
      ensures Heard(n'.heard, a, n'.table[a].eth, n'.clock - n'.table[a].age)
    {
      if a in n.table {
        HeardMore(n.heard, l, a, n.table[a].eth, n.clock - n.table[a].age);
      } else {
        JustHeard(n.heard, l);
      }
    }
  }

  lemma LearnTimely(n: Interface, ip: IP, eth: Eth)
    requires Timely(n)
    ensures Timely(Learn(n, ip, eth))
  {
    hide TableHeard, AllFreshlyMapped, Requested;
    var n' := Learn(n, ip, eth);
    LearnKeepsHeard(n, ip, eth);
    forall i | 0 <= i < |n'.log| && n'.log[i].out.RequestOut?
      ensures Covered(n', n'.log[i].out.ip, n'.clock - n'.log[i].time)
    {
      assert Covered(n, n.log[i].out.ip, n.clock - n.log[i].time);
    }
  }

  lemma JustHeard(heard: seq<Learned>, l: Learned)
    ensures Heard(heard + [l], l.ip, l.eth, l.time)
  {
    assert (heard + [l])[|heard|] == l;
  }

  // A reply erases the outstanding request early, but the mapping it brought is at least as recent.
  lemma AnswerTimely(n: Interface, m: ArpMessage)
    requires Timely(n) && m.senderIp in n.table
    ensures Timely(Answer(n, m))
  {
    hide Heard, FreshlyMapped, Requested;
    match m.opcode {
      case Request =>
        PushTimely(n, ReplyOut(m.senderIp, m.senderEth));
      case Reply =>
        var n' := Answer(n, m);
        forall i | 0 <= i < |n'.log| && n'.log[i].out.RequestOut?
          ensures Covered(n', n'.log[i].out.ip, n'.clock - n'.log[i].time)
        {
          assert Covered(n, n.log[i].out.ip, n.clock - n.log[i].time);
        }
    }
  }

  lemma TickTimely(n: Interface, ms: nat)
    requires Timely(n)
    ensures Timely(Tick(n, ms))
  {
    hide Heard, FreshlyMapped, Requested;
    var n' := Tick(n, ms);
    forall ip | ip in n'.outstanding
      ensures Requested(n'.log, ip, n'.clock - n'.outstanding[ip])
    {
      assert Requested(n.log, ip, n.clock - n.outstanding[ip]);
    }
    forall i | 0 <= i < |n'.log| && n'.log[i].out.RequestOut?
      ensures Covered(n', n'.log[i].out.ip, n'.clock - n'.log[i].time)
    {
      assert Covered(n, n.log[i].out.ip, n.clock - n.log[i].time);
    }
    forall ip | ip in n'.table
      ensures Heard(n'.heard, ip, n'.table[ip].eth, n'.clock - n'.table[ip].age)
    {
      assert Heard(n.heard, ip, n.table[ip].eth, n.clock - n.table[ip].age);
    }
  }

  // The operations

  lemma SubmitTimely(n: Interface, d: Datagram, hop: IP)
    requires Timely(n)
    ensures Timely(Submit(n, d, hop)) && Timely(SendDatagram(n, d, hop))
  {
    hide Timely, Sendable;
    if SendThrows(n, d, hop) {
    } else {
      var n0 := n.(submitted := n.submitted + [Submission(d, hop)]);
      UnsentTimely(n, n.unsent, n0.submitted);
      TransmitTimely(n, d, hop);
      TransmitTimely(n0, d, hop);
    }
  }

  lemma TransmitTimely(n: Interface, d: Datagram, hop: IP)
    requires Timely(n) && !SendThrows(n, d, hop)
    ensures Timely(SendDatagram(n, d, hop))
  {
    hide Timely, Sendable;
    if hop in n.table {
      PushTimely(n, DataOut(hop, n.table[hop].eth, d));
    } else {
      var n1 := Enqueue(n, d, hop);
      UnsentTimely(n, n1.unsent, n.submitted);
      if hop !in n.outstanding {
        RequestTimely(n1, hop);
      }
    }
  }

  lemma {:induction false} DrainTimely(n: Interface, hop: IP)
    requires hop in n.table && Timely(n)
    ensures var n' := Drain(n, hop);
            Timely(n') && n'.table == n.table && n'.outstanding == n.outstanding
            && n'.eth == n.eth && n'.ip == n.ip && n'.clock == n.clock && n'.submitted == n.submitted && n'.heard == n.heard
    decreases |Waiting(n, hop)|
  {
    hide Timely, Sendable;
    if Waiting(n, hop) != [] && Sendable(n.unsent[hop][0]) {
      var n1 := SendDatagram(n, n.unsent[hop][0], hop);
      SubmitTimely(n, n.unsent[hop][0], hop);
      UnsentTimely(n1, n1.unsent[hop := n1.unsent[hop][1..]], n1.submitted);
      DrainTimely(n1.(unsent := n1.unsent[hop := n1.unsent[hop][1..]]), hop);
    }
  }

  lemma HeedTimely(n: Interface, m: ArpMessage)
    requires Timely(n)
    ensures Timely(Heed(n, m))
  {
    hide Timely, Drain;
    LearnTimely(n, m.senderIp, m.senderEth);
    var n1 := Learn(n, m.senderIp, m.senderEth);
    DrainTimely(n1, m.senderIp);
    AnswerTimely(Drain(n1, m.senderIp), m);
  }

  lemma {:induction false} DrainSendable(n: Interface, hop: IP)
    requires hop in n.table && FramesSendable(n)
    ensures FramesSendable(Drain(n, hop))
    decreases |Waiting(n, hop)|
  {
    hide Sendable;
    if Waiting(n, hop) != [] && Sendable(n.unsent[hop][0]) {
      var n1 := SendDatagram(n, n.unsent[hop][0], hop);
      DrainSendable(n1.(unsent := n1.unsent[hop := n1.unsent[hop][1..]]), hop);
    }
  }

  lemma ApplySendable(n: Interface, e: Event)
    requires FramesSendable(n)
    ensures FramesSendable(Apply(n, e))
  {
    hide Sendable, Drain, AgedTable, AgedRequests;
    if e.Receiving? && Heeded(n, e.frame) {
      var m := e.frame.body.message.value;
      DrainSendable(Learn(n, m.senderIp, m.senderEth), m.senderIp);
    }
  }

  /** Every call, whether it returns or throws, keeps clocks, mappings and frames in order. */
  lemma ApplyKeeps(n: Interface, e: Event)
    requires Inv(n)
    ensures Inv(Apply(n, e))
  {
    hide Timely, FramesSendable, Submit, Heed;
    ApplySendable(n, e);
    match e {
      case Sending(d, hop) => SubmitTimely(n, d, hop);
      case Receiving(f) =>
        if Heeded(n, f) {
          HeedTimely(n, f.body.message.value);
        }
      case Ticking(ms) => TickTimely(n, ms);
    }
  }

  lemma {:induction false} RunKeeps(eth: Eth, ip: IP, events: seq<Event>)
    ensures Inv(After(NewInterface(eth, ip), events))
  {
    hide Apply;
    if events != [] {
      RunKeeps(eth, ip, events[..|events| - 1]);
      ApplyKeeps(After(NewInterface(eth, ip), events[..|events| - 1]), events[|events| - 1]);
    }
  }

  /** A datagram for an unknown hop leaves a request out that is at most 5000 ms old. */
  lemma UnknownHopIsAsked(n: Interface, d: Datagram, hop: IP)
    requires Inv(n) && hop !in n.table
    ensures var n' := Submit(n, d, hop);
            hop in n'.outstanding && n'.outstanding[hop] <= MSG_EXPIRY
            && Requested(n'.log, hop, n'.clock - n'.outstanding[hop])
  {
    hide RequestsCovered, RateLimited, TableHeard, AllFreshlyMapped, Requested;
    SubmitTimely(n, d, hop);
  }

  /** In every run, two ARP requests for one address are separated by strictly more than 5000 ms of ticks. */
  lemma RequestsAreRateLimited(eth: Eth, ip: IP, events: seq<Event>, i: nat, j: nat)
    requires var log := After(NewInterface(eth, ip), events).log;
             i < j < |log| && log[i].out.RequestOut? && log[j].out == log[i].out
    ensures var log := After(NewInterface(eth, ip), events).log;
            log[j].time - log[i].time > MSG_EXPIRY
  {
    hide After;
    RunKeeps(eth, ip, events);
  }

  /** In every run, a datagram is framed only by a mapping heard in the 30000 ms before. */
  lemma MappingsAreFresh(eth: Eth, ip: IP, events: seq<Event>, e: Emission)
    requires e in After(NewInterface(eth, ip), events).log && e.out.DataOut?
    ensures exists t: nat :: Heard(After(NewInterface(eth, ip), events).heard, e.out.hop, e.out.eth, t)
                             && t <= e.time <= t + ENTRY_EXPIRY
  {
    hide After, Heard;
    RunKeeps(eth, ip, events);
    assert FreshlyMapped(After(NewInterface(eth, ip), events).heard, e);
  }

  function Elapsed(events: seq<Event>): nat {
    if events == [] then 0
    else
      var n := |events| - 1;
      Elapsed(events[..n]) + if events[n].Ticking? then events[n].ms else 0
  }

  // The ARP messages heeded, with the time at which each arrived.
  function Hearings(eth: Eth, ip: IP, events: seq<Event>): seq<Learned> {
    if events == [] then []
    else
      var n := |events| - 1;
      var e := events[n];
      Hearings(eth, ip, events[..n]) +
      if e.Receiving? && AddressedTo(eth, ip, e.frame) then
        [Learned(e.frame.body.message.value.senderIp, e.frame.body.message.value.senderEth, Elapsed(events[..n]))]
      else []
  }

  // A parseable ARP message to this Ethernet address or to all, and to this IP address.
  predicate AddressedTo(eth: Eth, ip: IP, f: Frame) {
    && (f.dst == eth || f.dst == ETHERNET_BROADCAST)
    && f.body.ArpBody? && f.body.message.Some? && f.body.message.value.targetIp == ip
  }

  // The datagrams that `send_datagram` took: it throws for some while their hop is in the table.
  function Taken(n: Interface, events: seq<Event>): seq<Submission> {
    if events == [] then []
    else
      var k := |events| - 1;
      var e := events[k];
      Taken(n, events[..k]) +
      if e.Sending? && !SendThrows(After(n, events[..k]), e.dgram, e.hop) then [Submission(e.dgram, e.hop)] else []
  }

  lemma SubmitHistory(n: Interface, d: Datagram, hop: IP)
    ensures var n' := Submit(n, d, hop);
            && n'.eth == n.eth && n'.ip == n.ip && n'.clock == n.clock && n'.heard == n.heard
            && n'.submitted == n.submitted + if SendThrows(n, d, hop) then [] else [Submission(d, hop)]
  {
    hide Sendable;
  }

  lemma {:induction false} DrainHistory(n: Interface, hop: IP)
    requires hop in n.table
    ensures var n' := Drain(n, hop);
            && n'.eth == n.eth && n'.ip == n.ip && n'.clock == n.clock && n'.heard == n.heard
            && n'.submitted == n.submitted && n'.table == n.table && n'.outstanding == n.outstanding
    decreases |Waiting(n, hop)|
  {
    hide Sendable;
    if Waiting(n, hop) != [] && Sendable(n.unsent[hop][0]) {
      var n1 := SendDatagram(n, n.unsent[hop][0], hop);
      DrainHistory(n1.(unsent := n1.unsent[hop := n1.unsent[hop][1..]]), hop);
    }
  }

  lemma HeedHistory(n: Interface, m: ArpMessage)
    ensures var n' := Heed(n, m);
            && n'.eth == n.eth && n'.ip == n.ip && n'.clock == n.clock && n'.submitted == n.submitted
            && n'.heard == n.heard + [Learned(m.senderIp, m.senderEth, n.clock)]
  {
    hide Drain, Waiting;
    DrainHistory(Learn(n, m.senderIp, m.senderEth), m.senderIp);
  }

  lemma ApplyHistory(n: Interface, e: Event)
    ensures var n' := Apply(n, e);
            && n'.eth == n.eth && n'.ip == n.ip
            && n'.clock == n.clock + (if e.Ticking? then e.ms else 0)
            && n'.submitted == n.submitted +
                 (if e.Sending? && !SendThrows(n, e.dgram, e.hop) then [Submission(e.dgram, e.hop)] else [])
            && n'.heard == n.heard +
                 if e.Receiving? && AddressedTo(n.eth, n.ip, e.frame) then
                   [Learned(e.frame.body.message.value.senderIp, e.frame.body.message.value.senderEth, n.clock)]
                 else []
  {
    hide Heed, Submit, SendThrows, AgedTable, AgedRequests;
    match e {
      case Sending(d, hop) => SubmitHistory(n, d, hop);
      case Receiving(f) =>
        if Heeded(n, f) {
          HeedHistory(n, f.body.message.value);
        }
      case Ticking(ms) =>
    }
  }

  /**
   The recorded history is that of the run: the clock is the time of its ticks, the submissions are the sends
   that returned, and what was heard are the ARP messages to us, each at the time it arrived.
   */
  lemma {:induction false} HistoryIsTheRun(eth: Eth, ip: IP, events: seq<Event>)
    ensures var n := After(NewInterface(eth, ip), events);
            && n.eth == eth && n.ip == ip
            && n.clock == Elapsed(events)
            && n.submitted == Taken(NewInterface(eth, ip), events)
            && n.heard == Hearings(eth, ip, events)
  {
    hide Apply, SendThrows, AddressedTo;
    if events != [] {
      var before := events[..|events| - 1];
      HistoryIsTheRun(eth, ip, before);
      ApplyHistory(After(NewInterface(eth, ip), before), events[|events| - 1]);
    }
  }
}
