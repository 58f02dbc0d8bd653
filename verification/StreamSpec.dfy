/** The in-order byte stream as a value: a bounded queue of bytes with its whole history. */
module StreamSpec {
  import opened Common

  // `written` is everything ever accepted; the first `popped` bytes of it have left the buffer.
  datatype StreamState = StreamState(capacity: nat, written: seq<Byte>, popped: nat, ended: bool, error: bool)

  type Stream = s: StreamState | s.popped <= |s.written| <= s.popped + s.capacity
    witness StreamState(0, [], 0, false, false)

  function NewStream(capacity: nat): Stream {
    StreamState(capacity, [], 0, false, false)
  }

  function Buffered(s: Stream): seq<Byte> {
    s.written[s.popped..]
  }

  function Remaining(s: Stream): nat {
    s.capacity - |Buffered(s)|
  }

  predicate Eof(s: Stream) {
    s.ended && s.popped == |s.written|
  }

  function Write(s: Stream, data: seq<Byte>): Stream {
    s.(written := s.written + data[..Min(|data|, Remaining(s))])
  }

  function Peek(s: Stream, len: nat): seq<Byte> {
    Buffered(s)[..Min(len, |Buffered(s)|)]
  }

  function Pop(s: Stream, len: nat): Stream {
    s.(popped := s.popped + Min(len, |Buffered(s)|))
  }

  function EndInput(s: Stream): Stream {
    s.(ended := true)
  }

  function SetError(s: Stream): Stream {
    s.(error := true)
  }
}
