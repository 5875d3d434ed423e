/**
 Output of a connection: a byte queue kept in an array with free space on both
 sides, and the direct and event-driven writes that drain it. What the kernel
 answers to a write is a parameter.
 */
module Connection {
  import opened Bytes

  // ---------------------------------------------------------------- the stream of bytes

  /** The answer to a write: the bytes taken, try again, or another error. */
  datatype Outcome = Wrote(n: nat) | Again | Failed

  datatype Event = Send(msg: seq<byte>, outcome: Outcome) | Writable(outcome: Outcome)

  /** Bytes written, bytes waiting, whether the loop waits to write, and whether no write has failed. */
  datatype Stream = Stream(wire: seq<byte>, pending: seq<byte>, writing: bool, open: bool)

  /** The kernel takes no more than it is given. */
  predicate Possible(s: Stream, e: Event) {
    match e
    case Send(msg, outcome) => s.pending == [] && outcome.Wrote? ==> outcome.n <= |msg|
    case Writable(outcome) => s.pending != [] && outcome.Wrote? ==> outcome.n <= |s.pending|
  }

  /** The stream with bytes put behind the waiting ones. */
  function Queued(s: Stream, rest: seq<byte>): Stream {
    if rest == [] then s else s.(pending := s.pending + rest, writing := true)
  }

  /** What an event does to the stream, the waiting bytes aside when a write has failed. */
  function After(s: Stream, e: Event): Stream
    requires Possible(s, e)
  {
    match e
    case Send(msg, outcome) =>
      if s.pending != [] then Queued(s, msg)
      else
        (match outcome
         case Wrote(n) => Queued(s.(wire := s.wire + msg[..n]), msg[n..])
         case Again => Queued(s, msg)
         case Failed => s.(open := false))
    case Writable(outcome) =>
      if !s.open || s.pending == [] then s
      else
        (match outcome
         case Wrote(n) => s.(wire := s.wire + s.pending[..n], pending := s.pending[n..])
         case Again => s
         case Failed => s.(open := false))
  }

  /** A run up to the first hard error, of writes the kernel can answer so. */
  ghost predicate Runs(s: Stream, events: seq<Event>)
    decreases |events|
  {
    events == [] || (s.open && Possible(s, events[0]) && Runs(After(s, events[0]), events[1..]))
  }

  function Last(s: Stream, events: seq<Event>): Stream
    requires Runs(s, events)
    decreases |events|
  {
    if events == [] then s else Last(After(s, events[0]), events[1..])
  }

  /** All that was handed to Send. */
  function Sent(events: seq<Event>): seq<byte> {
    if events == [] then []
    else (if events[0].Send? then events[0].msg else []) + Sent(events[1..])
  }

  /** Waiting bytes are waited for. */
  predicate Served(s: Stream) {
    s.pending != [] ==> s.writing
  }

  lemma {:induction false} StepKeepsStream(s: Stream, e: Event)
    requires s.open && Possible(s, e) && Served(s)
    ensures var t := After(s, e);
      if t.open then Served(t) && t.wire + t.pending == s.wire + s.pending + (if e.Send? then e.msg else [])
      else t.wire == s.wire
  {
    match e
    case Send(msg, outcome) =>
      if s.pending == [] && outcome.Wrote? {
        assert msg[..outcome.n] + msg[outcome.n..] == msg;
      }
    case Writable(outcome) =>
      if s.pending != [] && outcome.Wrote? {
        assert s.pending[..outcome.n] + s.pending[outcome.n..] == s.pending;
      }
  }

  /**
   Until the first hard error, whatever the kernel takes of each write, the bytes
   written and those waiting are all that was sent, in order, and waiting bytes
   are waited for. Even at the error what was written is a prefix of what was sent.
   */
  lemma {:induction false} StreamIsKept(s: Stream, events: seq<Event>)
    requires Runs(s, events) && s.open && Served(s)
    ensures var t := Last(s, events);
      && (t.open ==> Served(t) && t.wire + t.pending == s.wire + s.pending + Sent(events))
      && t.wire <= s.wire + s.pending + Sent(events)
    decreases |events|
  {
    if events != [] {
      var e, more := events[0], events[1..];
      var t := After(s, e);
      var now := if e.Send? then e.msg else [];
      StepKeepsStream(s, e);
      assert s.wire + s.pending + now + Sent(more) == s.wire + s.pending + Sent(events);
      if t.open {
        StreamIsKept(t, more);
      } else {
        assert more == [];
      }
    }
  }

  /** How many bytes the kernel takes: of a message only if none wait before it. */
  function Took(s: Stream, e: Event): nat {
    match e
    case Send(_, Wrote(n)) => if s.pending == [] then n else 0
    case Writable(Wrote(n)) => if s.pending != [] then n else 0
    case _ => 0
  }

  function TookAll(s: Stream, events: seq<Event>): nat
    requires Runs(s, events)
    decreases |events|
  {
    if events == [] then 0 else Took(s, events[0]) + TookAll(After(s, events[0]), events[1..])
  }

  /** Exactly the bytes that the kernel takes go to the wire, each when it takes it. */
  lemma {:induction false} WireIsTaken(s: Stream, events: seq<Event>)
    requires Runs(s, events)
    ensures |Last(s, events).wire| == |s.wire| + TookAll(s, events)
    decreases |events|
  {
    if events != [] {
      WireIsTaken(After(s, events[0]), events[1..]);
    }
  }

  /** As many writes that take something as bytes wait leave none waiting. */
  lemma {:induction false} WritesDrain(s: Stream, events: seq<Event>)
    requires Runs(s, events) && s.open && Served(s) && |events| >= |s.pending|
    requires forall i :: 0 <= i < |events| ==>
      events[i].Writable? && events[i].outcome.Wrote? && events[i].outcome.n > 0
    ensures Last(s, events).pending == [] && Last(s, events).wire == s.wire + s.pending
    decreases |events|
  {
    if events != [] {
      var t := After(s, events[0]);
      StepKeepsStream(s, events[0]);
      WritesDrain(t, events[1..]);
    }
  }

  // ---------------------------------------------------------------- the buffer

  const PREPEND: nat := 8
  const INITIAL_SIZE: nat := 1024

  /** std::copy of a message into an array. */
  method CopyInto(message: seq<byte>, data: array<byte>, at: nat)
    requires at + |message| <= data.Length
    modifies data
    ensures data[..at] == old(data[..at]) && data[at..at + |message|] == message
    ensures data[at + |message|..] == old(data[at + |message|..])
  {
    ghost var was := data[..];
    for i := 0 to |message|
      invariant forall k :: 0 <= k < data.Length ==> data[k] == if at <= k < at + i then message[k - at] else was[k]
    {
      data[at + i] := message[i];
    }
  }

  /** std::copy of part of an array to a lower place in it; the two places may overlap. */
  method MoveDown(data: array<byte>, from: nat, to: nat, count: nat)
    requires to <= from && from + count <= data.Length
    modifies data
    ensures data[to..to + count] == old(data[from..from + count])
  {
    ghost var was := data[..];
    for i := 0 to count
      invariant forall k :: to <= k < to + i ==> data[k] == was[from + k - to]
      invariant forall k :: from + i <= k < data.Length ==> data[k] == was[k]
    {
      data[to + i] := data[from + i];
    }
  }

  class Buffer {
    var data: array<byte>
    var readIndex: nat
    var writeIndex: nat

    ghost predicate Valid()
      reads this
    {
      readIndex <= writeIndex <= data.Length
    }

    /** The readable bytes. */
    function Contents(): seq<byte>
      reads this, data
      requires Valid()
    {
      data[readIndex..writeIndex]
    }

    constructor ()
      ensures Valid() && fresh(data) && Contents() == [] && readIndex == PREPEND
    {
      data := new byte[INITIAL_SIZE](_ => 0);
      readIndex, writeIndex := PREPEND, PREPEND;
    }

    function ReadableBytes(): nat
      reads this
      requires Valid()
    {
      writeIndex - readIndex
    }

    function WriteableBytes(): nat
      reads this
      requires Valid()
    {
      data.Length - writeIndex
    }

    /** Makes room: moves the bytes to the front when that is enough, or grows the array. */
    method EnsureWriteableBytes(len: nat)
      requires Valid()
      modifies this, data
      ensures Valid() && (data == old(data) || fresh(data)) && data.Length >= old(data.Length)
      ensures Contents() == old(Contents()) && WriteableBytes() >= len
      ensures old(readIndex) >= PREPEND ==> readIndex >= PREPEND
    {
      if WriteableBytes() >= len {
        return;
      }
      if WriteableBytes() + readIndex >= PREPEND + len {
        var count := ReadableBytes();
        MoveDown(data, readIndex, PREPEND, count);
        writeIndex := PREPEND + count;
        readIndex := PREPEND;
      } else {
        var grown := new byte[writeIndex + len](_ => 0);
        CopyInto(data[..], grown, 0);
        forall k | readIndex <= k < writeIndex
          ensures grown[k] == data[k]
        {
          assert grown[0..data.Length][k] == data[..][k];
        }
        data := grown;
      }
    }

    method Append(message: seq<byte>)
      requires Valid()
      modifies this, data
      ensures Valid() && (data == old(data) || fresh(data)) && data.Length >= old(data.Length)
      ensures Contents() == old(Contents()) + message
      ensures old(readIndex) >= PREPEND ==> readIndex >= PREPEND
    {
      EnsureWriteableBytes(|message|);
      CopyInto(message, data, writeIndex);
      assert data[readIndex..writeIndex] == data[..writeIndex][readIndex..];
      writeIndex := writeIndex + |message|;
    }

    /** Puts a message in front, if there is room. */
    method AppendPrepend(message: seq<byte>)
      requires Valid()
      modifies this, data
      ensures Valid() && data == old(data)
      ensures Contents() == if |message| <= old(readIndex) then message + old(Contents()) else old(Contents())
    {
      if |message| > readIndex {
        return;
      }
      var start := readIndex - |message|;
      CopyInto(message, data, start);
      assert data[readIndex..writeIndex] == data[readIndex..][..writeIndex - readIndex];
      readIndex := start;
    }

    method RetrieveAll()
      requires Valid() && data.Length >= PREPEND
      modifies this
      ensures Valid() && data == old(data) && Contents() == [] && readIndex == PREPEND
    {
      writeIndex := PREPEND;
      readIndex := writeIndex;
    }

    /** Takes bytes from the front. A negative length gives bytes back that were taken before. */
    method Retrieve(len: int)
      requires Valid() && data.Length >= PREPEND && 0 <= readIndex + len && len <= ReadableBytes()
      modifies this
      ensures Valid() && data == old(data)
      ensures len >= 0 ==> Contents() == old(Contents())[len..] && (old(readIndex) >= PREPEND ==> readIndex >= PREPEND)
      ensures len < 0 && old(readIndex < writeIndex) ==> Contents() == old(data[readIndex + len..writeIndex])
    {
      if len + readIndex < writeIndex {
        readIndex := readIndex + len;
      } else {
        RetrieveAll();
      }
    }
  }

  // ---------------------------------------------------------------- the connection

  class TcpConnection {
    const sendBuf: Buffer
    var connected: bool
    var writeEnabled: bool
    var writeCallback: bool
    ghost var wire: seq<byte>

    ghost predicate Valid()
      reads this, sendBuf
    {
      sendBuf.Valid() && sendBuf.data.Length >= PREPEND && (writeCallback ==> sendBuf.readIndex >= PREPEND)
    }

    ghost function Value(): Stream
      reads this, sendBuf, sendBuf.data
      requires Valid()
    {
      Stream(wire, sendBuf.Contents(), writeEnabled, writeCallback)
    }

    constructor ()
      ensures Valid() && fresh(sendBuf) && fresh(sendBuf.data) && connected
      ensures Value() == Stream([], [], false, true)
    {
      sendBuf := new Buffer();
      connected, writeEnabled, writeCallback, wire := true, false, true, [];
    }

    method HandleClose()
      modifies this`connected
      ensures !connected
    {
      if connected {
        connected := false;
      }
    }

    /** The kernel's answer to the write, if there is one, is `outcome`. */
    method Send(msg: seq<byte>, outcome: Outcome)
      requires Valid() && Possible(Value(), Event.Send(msg, outcome))
      modifies this, sendBuf, sendBuf.data
      ensures Valid() && (sendBuf.data == old(sendBuf.data) || fresh(sendBuf.data))
      ensures Value() == After(old(Value()), Event.Send(msg, outcome))
      ensures |wire| == |old(wire)| + Took(old(Value()), Event.Send(msg, outcome))
    {
      var remaining, sendSize := |msg|, 0;
      if sendBuf.ReadableBytes() == 0 {
        match outcome {
          case Wrote(n) =>
            sendSize := n;
            remaining := remaining - n;
            wire := wire + msg[..n];
          case Again =>
            sendSize := 0;
          case Failed =>
            writeCallback := false;
            HandleClose();
            return;
        }
      }
      assert sendBuf.ReadableBytes() == 0 <==> old(Value()).pending == [];
      if remaining > 0 {
        sendBuf.Append(msg[sendSize..]);
        writeEnabled := true;
      }
    }

    /**
     The socket is writable and the callback is still set. After a hard error the
     code goes on and gives the byte before the waiting ones back to the buffer.
     */
    method WriteNonBlocking(outcome: Outcome)
      requires Valid() && writeCallback && Possible(Value(), Writable(outcome))
      modifies this, sendBuf
      ensures Valid() && sendBuf.data == old(sendBuf.data)
      ensures var expected := After(old(Value()), Writable(outcome));
        if writeCallback then Value() == expected
        else !expected.open && !connected && wire == expected.wire && writeEnabled == expected.writing
      ensures writeCallback <==> outcome != Failed || old(Value()).pending == []
      ensures |wire| == |old(wire)| + Took(old(Value()), Writable(outcome))
      ensures !writeCallback ==> sendBuf.Contents() == old(sendBuf.data[sendBuf.readIndex - 1..sendBuf.writeIndex])
    {
      var remaining := sendBuf.ReadableBytes();
      if remaining == 0 {
        return;
      }
      var sendSize: int := -1;
      match outcome {
        case Wrote(n) =>
          sendSize := n;
          wire := wire + sendBuf.Contents()[..n];
        case Again =>
          sendSize := 0;
        case Failed =>
          writeCallback := false;
          HandleClose();
      }
      sendBuf.Retrieve(sendSize);
    }

    /** The loop's write event; the callback does nothing once it is cleared. */
    method OnWritable(outcome: Outcome)
      requires Valid() && Possible(Value(), Writable(outcome))
      modifies this, sendBuf
      ensures Valid() && sendBuf.data == old(sendBuf.data)
      ensures writeCallback ==> Value() == After(old(Value()), Writable(outcome))
      ensures !writeCallback ==> wire == old(wire)
    {
      if writeCallback {
        WriteNonBlocking(outcome);
      }
    }
  }
}
