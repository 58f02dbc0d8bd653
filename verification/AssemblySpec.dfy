/**
 Reassembly as a plain index-to-byte map.

 The bytes at indices below `First` are in the output stream; the bytes held back wait in `held`.
 No chunk list appears here: the list and its merging are proved to implement this map.
 */
module AssemblySpec {
  import opened Common
  import opened StreamSpec

  datatype Assembly = Assembly(output: Stream, held: map<nat, Byte>, eofAt: Option<nat>)

  function NewAssembly(capacity: nat): Assembly {
    Assembly(NewStream(capacity), map[], None)
  }

  function First(r: Assembly): nat {
    |r.output.written|
  }

  function WindowEnd(r: Assembly): nat {
    First(r) + Remaining(r.output)
  }

  function At(data: seq<Byte>, index: nat, i: nat): Byte
    requires index <= i < index + |data|
  {
    data[i - index]
  }

  // The bytes of a push that the window accepts. The end of the range is a size_t sum, which may wrap around.
  function Accepted(r: Assembly, data: seq<Byte>, index: U64): map<nat, Byte> {
    if (index + |data|) % TWO_64 >= First(r) && index < WindowEnd(r) then
      map i: nat | Max(index, First(r)) <= i < Min(index + |data|, WindowEnd(r)) :: At(data, index, i)
    else
      map[]
  }

  // The longest run of consecutive entries from `i`, below `limit`.
  function Run(m: map<nat, Byte>, i: nat, limit: nat): (s: seq<Byte>)
    ensures i <= limit ==> i + |s| <= limit
    ensures forall k | i <= k < i + |s| :: k in m && m[k] == s[k - i]
    ensures i + |s| < limit ==> i + |s| !in m
    decreases limit - i
  {
    if i < limit && i in m then [m[i]] + Run(m, i + 1, limit) else []
  }

  function From(m: map<nat, Byte>, i: nat): map<nat, Byte> {
    map k | k in m && i <= k :: m[k]
  }

  // A push that brings nothing new leaves the held bytes alone; otherwise its bytes win.
  function Merged(held: map<nat, Byte>, arrived: map<nat, Byte>): map<nat, Byte> {
    if arrived.Keys <= held.Keys then held else held + arrived
  }

  // Move the run that starts at the first missing index into the output stream.
  function Advance(r: Assembly): Assembly {
    var run := Run(r.held, First(r), WindowEnd(r));
    Assembly(Write(r.output, run), From(r.held, First(r) + |run|), r.eofAt)
  }

  function Finish(r: Assembly): Assembly {
    if r.eofAt.Some? && r.eofAt.value <= First(r) then r.(output := EndInput(r.output)) else r
  }

  // The state with the accepted bytes merged in, before any run is moved out.
  function Arrived(r: Assembly, data: seq<Byte>, index: U64, eof: bool): Assembly {
    Assembly(r.output, Merged(r.held, Accepted(r, data, index)), if eof then Some((index + |data|) % TWO_64) else r.eofAt)
  }

  function Push(r: Assembly, data: seq<Byte>, index: U64, eof: bool): Assembly {
    if r.output.ended then r else Finish(Advance(Arrived(r, data, index, eof)))
  }

  function Pop(r: Assembly, len: nat): Assembly {
    r.(output := StreamSpec.Pop(r.output, len))
  }

  ghost predicate HeldInWindow(r: Assembly) {
    forall k | k in r.held :: First(r) < k < WindowEnd(r)
  }

  /** Held bytes lie strictly inside the window; input has ended exactly when eof was seen and reached. */
  ghost predicate Inv(r: Assembly) {
    && HeldInWindow(r)
    && (r.output.ended <==> r.eofAt.Some? && r.eofAt.value <= First(r))
  }

  predicate Knows(r: Assembly, i: nat) {
    i < First(r) || i in r.held
  }

  lemma AdvanceShape(r: Assembly)
    ensures var run, r' := Run(r.held, First(r), WindowEnd(r)), Advance(r);
            && r'.output.written == r.output.written + run
            && First(r') == First(r) + |run|
            && WindowEnd(r') == WindowEnd(r)
  {
    var run := Run(r.held, First(r), WindowEnd(r));
    assert run[..|run|] == run;
  }

  // What a push has to keep before the run is moved out.
  ghost predicate Pending(r: Assembly) {
    && !r.output.ended
    && forall k | k in r.held :: First(r) <= k < WindowEnd(r)
  }

  lemma AdvanceKeeps(r: Assembly)
    requires Pending(r)
    ensures Inv(Finish(Advance(r)))
    ensures forall i: nat :: Knows(Finish(Advance(r)), i) <==> Knows(r, i)
  {
    AdvanceShape(r);
  }

  lemma ArrivedPending(r: Assembly, data: seq<Byte>, index: U64, eof: bool)
    requires Inv(r) && !r.output.ended
    ensures Pending(Arrived(r, data, index, eof))
    ensures forall i: nat :: Knows(Arrived(r, data, index, eof), i) <==> Knows(r, i) || i in Accepted(r, data, index)
  {
  }

  lemma PushKeepsInv(r: Assembly, data: seq<Byte>, index: U64, eof: bool)
    requires Inv(r)
    ensures Inv(Push(r, data, index, eof))
  {
    if !r.output.ended {
      ArrivedPending(r, data, index, eof);
      AdvanceKeeps(Arrived(r, data, index, eof));
    }
  }

  lemma PopKeepsInv(r: Assembly, len: nat)
    requires Inv(r)
    ensures Inv(Pop(r, len))
  {
  }

  lemma AcceptedIffInWindow(r: Assembly, data: seq<Byte>, index: U64, i: nat)
    requires index + |data| < TWO_64
    ensures i in Accepted(r, data, index) <==> index <= i < index + |data| && First(r) <= i < WindowEnd(r)
  {
    assert (index + |data|) % TWO_64 == index + |data|;
  }

  /** A push adds to the known indices exactly those of its bytes that the window accepts. */
  lemma PushKnows(r: Assembly, data: seq<Byte>, index: U64, eof: bool)
    requires Inv(r)
    ensures forall i: nat :: Knows(Push(r, data, index, eof), i) <==>
                             Knows(r, i) || (!r.output.ended && i in Accepted(r, data, index))
  {
    if !r.output.ended {
      ArrivedPending(r, data, index, eof);
      AdvanceKeeps(Arrived(r, data, index, eof));
    }
  }

  function KnownByte(r: Assembly, i: nat): Byte
    requires Knows(r, i)
  {
    if i < First(r) then r.output.written[i] else r.held[i]
  }

  lemma AdvanceKeepsBytes(r: Assembly, i: nat)
    requires Pending(r) && Knows(r, i)
    ensures Knows(Finish(Advance(r)), i) && KnownByte(Finish(Advance(r)), i) == KnownByte(r, i)
  {
    AdvanceShape(r);
    AdvanceKeeps(r);
  }

  /**
   A push with at least one new index in the window decides every byte it brings there, also those held
   already; one without leaves all bytes as they were.
   */
  lemma PushBytes(r: Assembly, data: seq<Byte>, index: U64, eof: bool, i: nat)
    requires Inv(r) && Knows(Push(r, data, index, eof), i)
    ensures var brought := if r.output.ended then map[] else Accepted(r, data, index);
            var news := exists k | k in brought :: !Knows(r, k);
            KnownByte(Push(r, data, index, eof), i) ==
            if Knows(r, i) && !(news && i in brought) then KnownByte(r, i)
            else if index <= i < index + |data| then data[i - index] else 0
  {
    if !r.output.ended {
      ArrivedPending(r, data, index, eof);
      AdvanceKeeps(Arrived(r, data, index, eof));
      AdvanceKeepsBytes(Arrived(r, data, index, eof), i);
      var brought := Accepted(r, data, index);
      assert brought.Keys <= r.held.Keys <==> !exists k | k in brought :: !Knows(r, k);
      assert i in brought ==> brought[i] == At(data, index, i);
    }
  }

  /** The held and the written bytes are bytes of `stream` at their own indices. */
  ghost predicate Agrees(r: Assembly, stream: seq<Byte>) {
    && r.output.written <= stream
    && forall k | k in r.held :: k < |stream| && r.held[k] == stream[k]
  }

  lemma AdvanceAgrees(r: Assembly, stream: seq<Byte>)
    requires Agrees(r, stream)
    ensures Agrees(Finish(Advance(r)), stream)
  {
    AdvanceShape(r);
    var run := Run(r.held, First(r), WindowEnd(r));
    forall i | First(r) <= i < First(r) + |run|
      ensures i < |stream| && (r.output.written + run)[i] == stream[i]
    {
      assert i in r.held;
    }
    if run != [] {
      assert First(r) + |run| - 1 in r.held;
    }
    assert r.output.written + run <= stream;
  }

  lemma ArrivedAgrees(r: Assembly, data: seq<Byte>, index: U64, eof: bool, stream: seq<Byte>)
    requires Agrees(r, stream)
    requires index + |data| <= |stream| && data == stream[index..index + |data|]
    ensures Agrees(Arrived(r, data, index, eof), stream)
  {
    var m := Accepted(r, data, index);
    forall i | i in m
      ensures i < |stream| && m[i] == stream[i]
    {
      assert m[i] == At(data, index, i);
    }
  }

  lemma PushAgrees(r: Assembly, data: seq<Byte>, index: U64, eof: bool, stream: seq<Byte>)
    requires Agrees(r, stream)
    requires index + |data| <= |stream| && data == stream[index..index + |data|]
    ensures Agrees(Push(r, data, index, eof), stream)
  {
    if !r.output.ended {
      ArrivedAgrees(r, data, index, eof, stream);
      AdvanceAgrees(Arrived(r, data, index, eof), stream);
    }
  }

  lemma {:induction false} IntervalSize(s: set<nat>, lo: nat, hi: nat)
    requires lo <= hi && forall k | k in s :: lo <= k < hi
    ensures |s| <= hi - lo
    decreases hi - lo
  {
    if lo == hi {
      assert s == {};
    } else {
      IntervalSize(s - {hi - 1}, lo, hi - 1);
    }
  }

  /** Buffered and unassembled bytes together never exceed the capacity. */
  lemma WithinCapacity(r: Assembly)
    requires Inv(r)
    ensures |Buffered(r.output)| + |r.held| <= r.output.capacity
  {
    IntervalSize(r.held.Keys, First(r), WindowEnd(r));
  }

  // Whole runs of pushes and reads.
  datatype Op = PushOp(data: seq<Byte>, index: U64, eof: bool) | ReadOp(len: nat)

  function Apply(r: Assembly, op: Op): Assembly {
    match op
    case PushOp(data, index, eof) => Push(r, data, index, eof)
    case ReadOp(len) => Pop(r, len)
  }

  function After(capacity: nat, ops: seq<Op>): Assembly {
    if ops == [] then NewAssembly(capacity) else Apply(After(capacity, ops[..|ops| - 1]), ops[|ops| - 1])
  }

  predicate Accepts(r: Assembly, op: Op, i: nat) {
    op.PushOp? && !r.output.ended && i in Accepted(r, op.data, op.index)
  }

  lemma ApplyKnows(r: Assembly, op: Op)
    requires Inv(r)
    ensures Inv(Apply(r, op))
    ensures forall i: nat :: Knows(Apply(r, op), i) <==> Knows(r, i) || Accepts(r, op, i)
  {
    match op {
      case PushOp(data, index, eof) =>
        PushKeepsInv(r, data, index, eof);
        PushKnows(r, data, index, eof);
      case ReadOp(len) =>
        PopKeepsInv(r, len);
    }
  }

  // Index `i` was inside the window when the `j`-th operation, a push, brought it.
  predicate AcceptedAt(capacity: nat, ops: seq<Op>, j: nat, i: nat) {
    j < |ops| && Accepts(After(capacity, ops[..j]), ops[j], i)
  }

  ghost predicate EverAccepted(capacity: nat, ops: seq<Op>, i: nat) {
    exists j: nat :: AcceptedAt(capacity, ops, j, i)
  }

  lemma EverAcceptedStep(capacity: nat, ops: seq<Op>, i: nat)
    requires ops != []
    ensures EverAccepted(capacity, ops, i) <==>
            EverAccepted(capacity, ops[..|ops| - 1], i) || AcceptedAt(capacity, ops, |ops| - 1, i)
  {
    hide After, Accepts;
    var before := ops[..|ops| - 1];
    forall j: nat | j < |before|
      ensures AcceptedAt(capacity, ops, j, i) == AcceptedAt(capacity, before, j, i)
    {
      assert before[..j] == ops[..j];
    }
  }

  /**
   After any run, a byte is known exactly if it was inside the window in some push on arrival, and the first
   index not written is the least one missing.
   */
  lemma {:induction false} KnowsWhatArrivedInWindow(capacity: nat, ops: seq<Op>)
    ensures Inv(After(capacity, ops))
    ensures forall i: nat :: Knows(After(capacity, ops), i) <==> EverAccepted(capacity, ops, i)
    ensures !Knows(After(capacity, ops), First(After(capacity, ops)))
  {
    if ops != [] {
      var before := ops[..|ops| - 1];
      KnowsWhatArrivedInWindow(capacity, before);
      ApplyKnows(After(capacity, before), ops[|ops| - 1]);
      forall i: nat
        ensures Knows(After(capacity, ops), i) <==> EverAccepted(capacity, ops, i)
      {
        EverAcceptedStep(capacity, ops, i);
      }
    }
  }

  // The `j`-th operation announces the end of the stream: a push with eof while input has not ended.
  predicate AnnouncesEnd(capacity: nat, ops: seq<Op>, j: nat) {
    j < |ops| && ops[j].PushOp? && ops[j].eof && !After(capacity, ops[..j]).output.ended
  }

  ghost predicate LastAnnounces(capacity: nat, ops: seq<Op>, j: nat) {
    AnnouncesEnd(capacity, ops, j) && forall k: nat | j < k :: !AnnouncesEnd(capacity, ops, k)
  }

  function EndOf(op: Op): U64
    requires op.PushOp?
  {
    (op.index + |op.data|) % TWO_64
  }

  lemma AnnouncesStep(capacity: nat, ops: seq<Op>, j: nat)
    requires ops != []
    ensures LastAnnounces(capacity, ops, j) <==>
            if AnnouncesEnd(capacity, ops, |ops| - 1) then j == |ops| - 1
            else LastAnnounces(capacity, ops[..|ops| - 1], j)
  {
    hide After;
    var before := ops[..|ops| - 1];
    forall k: nat | k < |before|
      ensures AnnouncesEnd(capacity, ops, k) == AnnouncesEnd(capacity, before, k)
    {
      assert before[..k] == ops[..k];
    }
  }

  lemma ApplyEofAt(r: Assembly, op: Op)
    ensures Apply(r, op).eofAt ==
            if op.PushOp? && op.eof && !r.output.ended then Some(EndOf(op)) else r.eofAt
  {
    hide Accepted, Merged, Run;
  }

  lemma {:induction false} EofAtIsAnnounced(capacity: nat, ops: seq<Op>)
    ensures After(capacity, ops).eofAt.Some? <==> exists j: nat :: LastAnnounces(capacity, ops, j)
    ensures forall j: nat | LastAnnounces(capacity, ops, j) :: After(capacity, ops).eofAt == Some(EndOf(ops[j]))
  {
    hide Apply, LastAnnounces;
    if ops == [] {
      assert forall j: nat :: !AnnouncesEnd(capacity, ops, j);
      NoneAnnounces(capacity);
    } else {
      var n := |ops| - 1;
      var before := ops[..n];
      EofAtIsAnnounced(capacity, before);
      ApplyEofAt(After(capacity, before), ops[n]);
      AnnouncesStep(capacity, ops, n);
      forall j: nat
        ensures LastAnnounces(capacity, ops, j) <==>
                if AnnouncesEnd(capacity, ops, n) then j == n else LastAnnounces(capacity, before, j)
      {
        AnnouncesStep(capacity, ops, j);
      }
      forall j: nat | LastAnnounces(capacity, ops, j)
        ensures j < |ops| && ops[j].PushOp? && After(capacity, ops).eofAt == Some(EndOf(ops[j]))
      {
        IsAnnounced(capacity, ops, j);
        if !AnnouncesEnd(capacity, ops, n) {
          IsAnnounced(capacity, before, j);
          assert before[j] == ops[j];
        }
      }
    }
  }

  lemma NoneAnnounces(capacity: nat)
    ensures forall j: nat :: !LastAnnounces(capacity, [], j)
  {
  }

  lemma IsAnnounced(capacity: nat, ops: seq<Op>, j: nat)
    requires LastAnnounces(capacity, ops, j)
    ensures j < |ops| && ops[j].PushOp?
  {
  }

  /**
   After any run, input has ended exactly if some push carried eof before the end, and every byte before the
   place the last such push gave is written.
   */
  lemma InputEndsWhenReached(capacity: nat, ops: seq<Op>)
    ensures After(capacity, ops).output.ended <==>
            exists j: nat :: LastAnnounces(capacity, ops, j) && EndOf(ops[j]) <= First(After(capacity, ops))
  {
    hide After, EndOf;
    KnowsWhatArrivedInWindow(capacity, ops);
    EofAtIsAnnounced(capacity, ops);
  }
}
