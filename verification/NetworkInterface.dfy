/** The network interface object. */
module Interfaces {
  import opened Common
  import opened Datagrams
  import opened InterfaceSpec
  import opened Parsers
  import opened WireMethods
  import opened DatagramOrder
  import opened Emissions
  import Ip = IPv4Wire
  import Spec = InterfaceSpec

  // On every frame is written what the log says.
  ghost predicate Renders(frames: seq<Frame>, eth: Eth, ip: IP, log: seq<Emission>) {
    && |frames| == |log|
    && forall i | 0 <= i < |log| :: Written(frames[i], eth, ip, log[i].out)
  }

  lemma LearnedWaits(n: Interface, n': Interface, hop: IP)
    requires n'.unsent == n.unsent && hop in n'.table
    ensures Waiting(Drain(n', hop), hop) == [] <==> AllSendable(Waiting(n, hop))
  {
    DrainEmptiesIff(n', hop);
  }

  class NetworkInterface {
    const ethernetAddress: Eth
    const ipAddress: IP
    var framesOut: seq<Frame>
    var forwardingTable: map<IP, Entry>
    var outstandingMsg: map<IP, nat>
    var unsentDatagrams: map<IP, seq<Datagram>>
    ghost var clock: nat
    ghost var log: seq<Emission>
    ghost var heard: seq<Learned>
    ghost var submitted: seq<Submission>

    ghost predicate Valid()
      reads this
    {
      Renders(framesOut, ethernetAddress, ipAddress, log)
    }

    ghost function Value(): Interface
      reads this
    {
      Interface(ethernetAddress, ipAddress, forwardingTable, outstandingMsg, unsentDatagrams, clock, log, heard, submitted)
    }

    constructor (eth: Eth, ip: IP)
      ensures Valid() && Value() == NewInterface(eth, ip)
    {
      ethernetAddress, ipAddress := eth, ip;
      framesOut, forwardingTable, outstandingMsg, unsentDatagrams := [], map[], map[], map[];
      clock, log, heard, submitted := 0, [], [], [];
    }

    method PushFrame(frame: Frame, ghost out: Out)
      requires Valid() && Written(frame, ethernetAddress, ipAddress, out)
      modifies this`framesOut, this`log
      ensures Valid() && Value() == Push(old(Value()), out) && framesOut == old(framesOut) + [frame]
    {
      hide Written;
      framesOut := framesOut + [frame];
      log := log + [Emission(clock, out)];
    }

    // The body of `send_datagram`, also used to drain a queue; not `ok` when it throws.
    method Transmit(d: Datagram, nextHop: IP) returns (ok: bool)
      requires Valid()
      modifies this
      ensures Valid() && Value() == Spec.SendDatagram(old(Value()), d, nextHop) && old(framesOut) <= framesOut
      ensures ok == !SendThrows(old(Value()), d, nextHop)
    {
      hide Renders, Ip.Serialize;
      ok := true;
      if nextHop in forwardingTable {
        var eth := forwardingTable[nextHop].eth;
        var bytes := SerializeDatagram(d);
        if bytes.None? {
          return false;
        }
        PushFrame(Frame(eth, ethernetAddress, IPv4Body(bytes.value)), DataOut(nextHop, eth, d));
        return;
      }
      if nextHop !in unsentDatagrams {
        assert [] + [d] == [d];
        unsentDatagrams := unsentDatagrams[nextHop := [d]];
      } else {
        unsentDatagrams := unsentDatagrams[nextHop := unsentDatagrams[nextHop] + [d]];
      }
      if nextHop in outstandingMsg {
        return;
      }
      outstandingMsg := outstandingMsg[nextHop := 0];
      var msg := ArpMessage(Request, ethernetAddress, ipAddress, 0, nextHop);
      PushFrame(Frame(ETHERNET_BROADCAST, ethernetAddress, ArpBody(Some(msg))), RequestOut(nextHop));
    }

    method SendDatagram(d: Datagram, nextHop: IP) returns (ok: bool)
      requires Valid()
      modifies this
      ensures Valid() && Value() == Submit(old(Value()), d, nextHop) && old(framesOut) <= framesOut
      ensures ok == !SendThrows(old(Value()), d, nextHop)
    {
      hide Renders, Sendable;
      if !SendThrows(Value(), d, nextHop) {
        submitted := submitted + [Submission(d, nextHop)];
      }
      ok := Transmit(d, nextHop);
    }

    // Send everything that waits for a hop whose address is now known.
    method DrainQueue(hop: IP) returns (ok: bool)
      requires Valid() && hop in forwardingTable
      modifies this
      ensures Valid() && Value() == Drain(old(Value()), hop) && old(framesOut) <= framesOut
      ensures ok == (Waiting(Value(), hop) == [])
    {
      hide Renders, Sendable;
      if hop in unsentDatagrams {
        while unsentDatagrams[hop] != []
          invariant Valid() && hop in unsentDatagrams && hop in forwardingTable && old(framesOut) <= framesOut
          invariant Drain(Value(), hop) == Drain(old(Value()), hop)
          decreases |unsentDatagrams[hop]|
        {
          ok := Transmit(unsentDatagrams[hop][0], hop);
          if !ok {
            return;
          }
          unsentDatagrams := unsentDatagrams[hop := unsentDatagrams[hop][1..]];
        }
      }
      ok := true;
    }

    // Not `ok` when it throws: then draining stopped half-way.
    method RecvFrame(frame: Frame) returns (ok: bool, dgram: Option<Datagram>)
      requires Valid()
      modifies this
      ensures Valid() && Value() == Spec.RecvFrame(old(Value()), frame) && old(framesOut) <= framesOut
      ensures dgram == Delivered(old(Value()), frame)
      ensures ok == !RecvThrows(old(Value()), frame)
    {
      hide Renders, Drain, AllSendable, Ip.Parse;
      ok, dgram := true, None;
      if frame.dst != ethernetAddress && frame.dst != ETHERNET_BROADCAST {
        return;
      }
      match frame.body {
        case IPv4Body(bytes) =>
          var d, result := ParseDatagram(bytes);
          if result == NoError {
            dgram := Some(d);
          }
        case ArpBody(parsed) =>
          if parsed.None? || parsed.value.targetIp != ipAddress {
            return;
          }
          var msg := parsed.value;
          heard := heard + [Learned(msg.senderIp, msg.senderEth, clock)];
          if msg.senderIp !in forwardingTable {
            forwardingTable := forwardingTable[msg.senderIp := Entry(msg.senderEth, 0)];
          }
          LearnedWaits(old(Value()), Value(), msg.senderIp);
          ok := DrainQueue(msg.senderIp);
          if !ok {
            return;
          }
          if msg.opcode == Request {
            var reply := ArpMessage(Reply, ethernetAddress, ipAddress, msg.senderEth, msg.senderIp);
            PushFrame(Frame(msg.senderEth, ethernetAddress, ArpBody(Some(reply))), ReplyOut(msg.senderIp, msg.senderEth));
          } else {
            outstandingMsg := outstandingMsg - {msg.senderIp};
          }
        case OtherBody =>
      }
    }

    // Age every entry of the table by `ms`, dropping those that become too old.
    method AgeTable(ms: nat)
      modifies this`forwardingTable
      ensures forwardingTable == AgedTable(old(forwardingTable), ms)
    {
      ghost var t := forwardingTable;
      var left := forwardingTable.Keys;
      while left != {}
        invariant left <= t.Keys && left <= forwardingTable.Keys
        invariant forall ip :: ip in forwardingTable <==> ip in left || (ip in AgedTable(t, ms) && ip in t.Keys - left)
        invariant forall ip | ip in left :: forwardingTable[ip] == t[ip]
        invariant forall ip | ip in forwardingTable && ip !in left :: forwardingTable[ip] == AgedTable(t, ms)[ip]
        decreases |left|
      {
        var ip :| ip in left;
        var entry := forwardingTable[ip];
        if entry.age + ms > ENTRY_EXPIRY {
          forwardingTable := forwardingTable - {ip};
        } else {
          forwardingTable := forwardingTable[ip := Entry(entry.eth, entry.age + ms)];
        }
        left := left - {ip};
      }
      assert forwardingTable == AgedTable(t, ms);
    }

    method AgeRequests(ms: nat)
      modifies this`outstandingMsg
      ensures outstandingMsg == AgedRequests(old(outstandingMsg), ms)
    {
      ghost var o := outstandingMsg;
      var left := outstandingMsg.Keys;
      while left != {}
        invariant left <= o.Keys && left <= outstandingMsg.Keys
        invariant forall ip :: ip in outstandingMsg <==> ip in left || (ip in AgedRequests(o, ms) && ip in o.Keys - left)
        invariant forall ip | ip in left :: outstandingMsg[ip] == o[ip]
        invariant forall ip | ip in outstandingMsg && ip !in left :: outstandingMsg[ip] == AgedRequests(o, ms)[ip]
        decreases |left|
      {
        var ip :| ip in left;
        if outstandingMsg[ip] + ms > MSG_EXPIRY {
          outstandingMsg := outstandingMsg - {ip};
        } else {
          outstandingMsg := outstandingMsg[ip := outstandingMsg[ip] + ms];
        }
        left := left - {ip};
      }
      assert outstandingMsg == AgedRequests(o, ms);
    }

    method Tick(ms: nat)
      requires Valid()
      modifies this
      ensures Valid() && Value() == Spec.Tick(old(Value()), ms) && framesOut == old(framesOut)
    {
      hide Renders, AgedTable, AgedRequests;
      AgeTable(ms);
      AgeRequests(ms);
      clock := clock + ms;
    }
  }
}
