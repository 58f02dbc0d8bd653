/** The network interface: address resolution by ARP (RFC 826) and the datagrams that wait for it. */
module InterfaceSpec {
  import opened Common
  import opened Datagrams
  import Ip = IPv4Wire

  const MSG_EXPIRY: nat := 5000
  const ENTRY_EXPIRY: nat := 30000

  // A 48-bit Ethernet address.
  type Eth = n: int | 0 <= n < 0x1_0000_0000_0000

  const ETHERNET_BROADCAST: Eth := 0xffff_ffff_ffff

  datatype Opcode = Request | Reply

  datatype ArpMessage = ArpMessage(opcode: Opcode, senderEth: Eth, senderIp: IP, targetEth: Eth, targetIp: IP)

  // An ARP payload is what its parser sees; `None` does not parse.
  datatype Body = IPv4Body(bytes: seq<Byte>) | ArpBody(message: Option<ArpMessage>) | OtherBody

  datatype Frame = Frame(dst: Eth, src: Eth, body: Body)

  // What a pushed frame is for.
  datatype Out = DataOut(hop: IP, eth: Eth, dgram: Datagram) | RequestOut(ip: IP) | ReplyOut(ip: IP, eth: Eth)

  /** `serialize` throws unless the header announces the payload's length, version 4 and a possible header length. */
  predicate Sendable(d: Datagram) {
    Ip.Serialize(d).Some?
  }

  predicate AllSendable(ds: seq<Datagram>) {
    forall d | d in ds :: Sendable(d)
  }

  function Render(self: Eth, ip: IP, out: Out): Frame
    requires out.DataOut? ==> Sendable(out.dgram)
  {
    match out
    case DataOut(hop, eth, dgram) => Frame(eth, self, IPv4Body(Ip.Serialize(dgram).value))
    case RequestOut(target) =>
      Frame(ETHERNET_BROADCAST, self, ArpBody(Some(ArpMessage(Request, self, ip, 0, target))))
    case ReplyOut(target, eth) =>
      Frame(eth, self, ArpBody(Some(ArpMessage(Reply, self, ip, eth, target))))
  }

  datatype Entry = Entry(eth: Eth, age: nat)

  datatype Emission = Emission(time: nat, out: Out)

  datatype Learned = Learned(ip: IP, eth: Eth, time: nat)

  datatype Submission = Submission(dgram: Datagram, hop: IP)

  /**
   The three maps of the source, and a history: the clock is the sum of all ticks, `log` every frame pushed,
   `heard` every ARP message addressed to us, `submitted` every datagram that `send_datagram` took from outside.
   */
  datatype Interface = Interface(
    eth: Eth, ip: IP, table: map<IP, Entry>, outstanding: map<IP, nat>, unsent: map<IP, seq<Datagram>>,
    clock: nat, log: seq<Emission>, heard: seq<Learned>, submitted: seq<Submission>)

  function NewInterface(eth: Eth, ip: IP): Interface {
    Interface(eth, ip, map[], map[], map[], 0, [], [], [])
  }

  function Waiting(n: Interface, hop: IP): seq<Datagram> {
    if hop in n.unsent then n.unsent[hop] else []
  }

  function Push(n: Interface, out: Out): Interface {
    n.(log := n.log + [Emission(n.clock, out)])
  }

  function Enqueue(n: Interface, d: Datagram, hop: IP): Interface {
    n.(unsent := n.unsent[hop := Waiting(n, hop) + [d]])
  }

  function AskFor(n: Interface, hop: IP): Interface {
    if hop in n.outstanding then n else Push(n.(outstanding := n.outstanding[hop := 0]), RequestOut(hop))
  }

  // The exception leaves the interface as it was.
  predicate SendThrows(n: Interface, d: Datagram, hop: IP) {
    hop in n.table && !Sendable(d)
  }

  function SendDatagram(n: Interface, d: Datagram, hop: IP): Interface {
    if SendThrows(n, d, hop) then n
    else if hop in n.table then Push(n, DataOut(hop, n.table[hop].eth, d))
    else AskFor(Enqueue(n, d, hop), hop)
  }

  // A call from outside: recorded as a submission if it returns.
  function Submit(n: Interface, d: Datagram, hop: IP): Interface {
    if SendThrows(n, d, hop) then n
    else SendDatagram(n.(submitted := n.submitted + [Submission(d, hop)]), d, hop)
  }

  // An entry already in the table wins.
  function Learn(n: Interface, ip: IP, eth: Eth): Interface {
    var n1 := n.(heard := n.heard + [Learned(ip, eth, n.clock)]);
    if ip in n.table then n1 else n1.(table := n.table[ip := Entry(eth, 0)])
  }

  // Send the waiting datagrams of a hop that is in the table, front first, up to one that throws.
  function Drain(n: Interface, hop: IP): Interface
    requires hop in n.table
    decreases |Waiting(n, hop)|
  {
    if Waiting(n, hop) == [] || !Sendable(n.unsent[hop][0]) then
      n
    else
      var n1 := SendDatagram(n, n.unsent[hop][0], hop);
      Drain(n1.(unsent := n1.unsent[hop := n1.unsent[hop][1..]]), hop)
  }

  function Answer(n: Interface, m: ArpMessage): Interface {
    match m.opcode
    case Request => Push(n, ReplyOut(m.senderIp, m.senderEth))
    case Reply => n.(outstanding := n.outstanding - {m.senderIp})
  }

  // An exception while draining ends the call: no reply is sent and no request is erased.
  function Heed(n: Interface, m: ArpMessage): Interface {
    var n1 := Drain(Learn(n, m.senderIp, m.senderEth), m.senderIp);
    if Waiting(n1, m.senderIp) == [] then Answer(n1, m) else n1
  }

  predicate ForUs(n: Interface, f: Frame) {
    f.dst == n.eth || f.dst == ETHERNET_BROADCAST
  }

  predicate Heeded(n: Interface, f: Frame) {
    ForUs(n, f) && f.body.ArpBody? && f.body.message.Some? && f.body.message.value.targetIp == n.ip
  }

  function RecvFrame(n: Interface, f: Frame): Interface {
    if Heeded(n, f) then Heed(n, f.body.message.value) else n
  }

  predicate RecvThrows(n: Interface, f: Frame) {
    Heeded(n, f) && !AllSendable(Waiting(n, f.body.message.value.senderIp))
  }

  function Delivered(n: Interface, f: Frame): Option<Datagram> {
    if ForUs(n, f) && f.body.IPv4Body? && Ip.Parse(f.body.bytes).result.NoError? then
      Some(Ip.Parse(f.body.bytes).datagram)
    else
      None
  }

  function AgedTable(t: map<IP, Entry>, ms: nat): map<IP, Entry> {
    map ip | ip in t && t[ip].age + ms <= ENTRY_EXPIRY :: Entry(t[ip].eth, t[ip].age + ms)
  }

  function AgedRequests(o: map<IP, nat>, ms: nat): map<IP, nat> {
    map ip | ip in o && o[ip] + ms <= MSG_EXPIRY :: o[ip] + ms
  }

  function Tick(n: Interface, ms: nat): Interface {
    n.(table := AgedTable(n.table, ms), outstanding := AgedRequests(n.outstanding, ms), clock := n.clock + ms)
  }

  datatype Event = Sending(dgram: Datagram, hop: IP) | Receiving(frame: Frame) | Ticking(ms: nat)

  function Apply(n: Interface, e: Event): Interface {
    match e
    case Sending(d, hop) => Submit(n, d, hop)
    case Receiving(f) => RecvFrame(n, f)
    case Ticking(ms) => Tick(n, ms)
  }

  function After(n: Interface, events: seq<Event>): Interface {
    if events == [] then n else Apply(After(n, events[..|events| - 1]), events[|events| - 1])
  }
}
