/** Exactly which frames every event pushes, and what is written on them. */
module Emissions {
  import opened Common
  import opened Datagrams
  import opened InterfaceSpec
  import opened InterfaceProofs
  import opened DatagramOrder
  import Ip = IPv4Wire

  /**
   What a frame says: it comes from us; a datagram goes to the address of its hop; a request goes to everyone,
   with our two addresses, the hop's IP address and an Ethernet address of zero; a reply goes to the asker,
   with our two addresses and the asker's.
   */
  predicate Written(f: Frame, eth: Eth, ip: IP, out: Out) {
    && f.src == eth
    && match out
       case DataOut(hop, hopEth, d) =>
         f.dst == hopEth && f.body.IPv4Body? && Ip.Serialize(d) == Some(f.body.bytes)
       case RequestOut(hop) =>
         && f.dst == 0xffff_ffff_ffff && f.body.ArpBody? && f.body.message.Some?
         && var m := f.body.message.value;
            && m.opcode == Request && m.senderEth == eth && m.senderIp == ip
            && m.targetEth == 0 && m.targetIp == hop
       case ReplyOut(askerIp, askerEth) =>
         && f.dst == askerEth && f.body.ArpBody? && f.body.message.Some?
         && var m := f.body.message.value;
            && m.opcode == Reply && m.senderEth == eth && m.senderIp == ip
            && m.targetEth == askerEth && m.targetIp == askerIp
  }

  /** A frame is written so exactly if it is the one rendered: nothing on it is left open. */
  lemma WrittenIsRendered(f: Frame, eth: Eth, ip: IP, out: Out)
    requires out.DataOut? ==> Sendable(out.dgram)
    ensures Written(f, eth, ip, out) <==> f == Render(eth, ip, out)
  {
    hide Ip.Serialize;
  }

  function DataTo(hop: IP, eth: Eth, ds: seq<Datagram>): seq<Out> {
    if ds == [] then [] else [DataOut(hop, eth, ds[0])] + DataTo(hop, eth, ds[1..])
  }

  // The datagrams in front of the first one that cannot be sent.
  function SendableFront(ds: seq<Datagram>): seq<Datagram> {
    if ds == [] || !Sendable(ds[0]) then [] else [ds[0]] + SendableFront(ds[1..])
  }

  /**
   A datagram goes into a frame if its hop is known; else a request does, unless one is outstanding. An ARP
   message to us frees what waits for its sender, up to a datagram that cannot be sent; if there is none, a
   request is then answered, once.
   */
  function Pushed(n: Interface, e: Event): seq<Out> {
    match e
    case Sending(d, hop) =>
      if hop in n.table then if Sendable(d) then [DataOut(hop, n.table[hop].eth, d)] else []
      else if hop in n.outstanding then [] else [RequestOut(hop)]
    case Receiving(f) =>
      if !AddressedTo(n.eth, n.ip, f) then
        []
      else
        var m, w := f.body.message.value, Waiting(n, f.body.message.value.senderIp);
        var eth := if m.senderIp in n.table then n.table[m.senderIp].eth else m.senderEth;
        DataTo(m.senderIp, eth, SendableFront(w)) +
        if AllSendable(w) && m.opcode == Request then [ReplyOut(m.senderIp, m.senderEth)] else []
    case Ticking(ms) => []
  }

  function At(time: nat, outs: seq<Out>): seq<Emission> {
    seq(|outs|, i requires 0 <= i < |outs| => Emission(time, outs[i]))
  }

  lemma {:induction false} DrainPushes(n: Interface, hop: IP)
    requires hop in n.table
    ensures Drain(n, hop).log == n.log + At(n.clock, DataTo(hop, n.table[hop].eth, SendableFront(Waiting(n, hop))))
    decreases |Waiting(n, hop)|
  {
    hide Sendable;
    if Waiting(n, hop) != [] && Sendable(n.unsent[hop][0]) {
      var w, eth := Waiting(n, hop), n.table[hop].eth;
      var n1 := SendDatagram(n, w[0], hop);
      DrainPushes(n1.(unsent := n1.unsent[hop := n1.unsent[hop][1..]]), hop);
      DataFront(hop, eth, w[0], SendableFront(w[1..]));
    }
  }

  lemma DataFront(hop: IP, eth: Eth, d: Datagram, ds: seq<Datagram>)
    ensures DataTo(hop, eth, [d] + ds) == [DataOut(hop, eth, d)] + DataTo(hop, eth, ds)
  {
    assert ([d] + ds)[1..] == ds;
  }

  lemma HeedPushes(n: Interface, m: ArpMessage)
    ensures var w := Waiting(n, m.senderIp);
            var eth := if m.senderIp in n.table then n.table[m.senderIp].eth else m.senderEth;
            Heed(n, m).log == n.log + At(n.clock, DataTo(m.senderIp, eth, SendableFront(w)) +
              if AllSendable(w) && m.opcode == Request then [ReplyOut(m.senderIp, m.senderEth)] else [])
  {
    hide Drain, AllSendable, SendableFront, DataTo;
    var n1 := Learn(n, m.senderIp, m.senderEth);
    DrainPushes(n1, m.senderIp);
    DrainHistory(n1, m.senderIp);
    DrainEmptiesIff(n1, m.senderIp);
  }

  /** Every event pushes exactly the frames it owes, at the time of the event. */
  lemma WhatIsPushed(n: Interface, e: Event)
    ensures Apply(n, e).log == n.log + At(n.clock, Pushed(n, e))
  {
    hide Heed, Sendable, AllSendable, SendableFront, DataTo;
    match e
    case Sending(d, hop) =>
    case Receiving(f) =>
      if Heeded(n, f) {
        HeedPushes(n, f.body.message.value);
      }
    case Ticking(ms) =>
  }

  // The frames of a whole run.
  function PushedBy(n: Interface, events: seq<Event>): seq<Emission> {
    if events == [] then []
    else
      var k := |events| - 1;
      var mid := After(n, events[..k]);
      PushedBy(n, events[..k]) + At(mid.clock, Pushed(mid, events[k]))
  }

  lemma {:induction false} FramesOfRun(n: Interface, events: seq<Event>)
    ensures After(n, events).log == n.log + PushedBy(n, events)
  {
    hide Apply, Pushed;
    if events != [] {
      var k := |events| - 1;
      FramesOfRun(n, events[..k]);
      WhatIsPushed(After(n, events[..k]), events[k]);
    }
  }
}
