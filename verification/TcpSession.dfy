/**
 One forwarding session of the TCP reactor and its I/O steps: bounded writes and reads of the
 two ring buffers, backpressure and half-close.
 */
module TcpSession {
  import opened Common
  import opened TcpState
  import opened TcpKernel
  import opened TcpStop

  type Side = d: nat | d < 2

  const HUP_DEFER: nat := 100  // milliseconds

  // The epoll events that the dispatcher looks at.
  datatype Events = Events(output: bool, error: bool, hup: bool, rdhup: bool)
  const NO_EVENTS := Events(false, false, false, false)

  /** One end of a session: its socket, its epoll registration and its stream flags. */
  class EndpointState {
    const socket: Socket
    var token: nat
    var registered: bool
    var eof: bool
    var shutdown: bool
    var paused: bool
    var interest: Interest
    var deferred: nat  // time of the pending retry after an idle HUP, 0 for none

    // The flags agree with what really happened on the socket.
    ghost predicate Agrees()
      reads this, socket
    {
      && (eof <==> socket.peerClosed)
      && (shutdown <==> socket.writeShut)
      && socket.sendsAfterShut == 0
      && (registered ==> socket.armed == Some(Registration(token, interest)))
    }

    constructor (open: bool)
      ensures fresh(socket) && socket.open == open && socket.input == socket.output == []
      ensures Agrees() && token == 0 && deferred == 0
      ensures !registered && !eof && !shutdown && !paused
    {
      socket := new Socket(open);
      token, deferred := 0, 0;
      registered, eof, shutdown, paused, interest := false, false, false, false, NO_INTEREST;
    }
  }

  datatype Progress = Progress(received: nat, sent: nat, queued: nat, eof: bool, paused: bool, receiving: Attempts, sending: Attempts)

  // Bytes are left in the queue only if the kernel refused them, the budget of a step is spent, or
  // the stop is final; and the source was read until it refused, ended or filled its queue, or its
  // budget was spent, unless a drain has begun. A queue that was full may since have been sent from.
  ghost predicate Transferred(before: Progress, after: Progress, draining: bool, final: bool) {
    && (after.queued == 0 || after.sent == before.sent + BUFFER_LIMIT || final || Refused(before.sending, after.sending))
    && (after.eof || after.paused || draining || Refused(before.receiving, after.receiving)
        || after.received == before.received + BUFFER_LIMIT || before.sent < after.sent)
  }

  // A hang-up of side d on which no byte moved suspends that end until 100 ms after a time that is
  // at least `from`; nothing else suspends or resumes an end.
  ghost predicate HangupSuspends(idle: bool, was: (nat, nat), now: (nat, nat), d: Side, from: nat) {
    if !idle then now == was
    else if d == 0 then from + HUP_DEFER <= now.0 && now.1 == was.1
    else from + HUP_DEFER <= now.1 && now.0 == was.0
  }

  lemma HangupEarlier(idle: bool, was: (nat, nat), now: (nat, nat), d: Side, from: nat, earlier: nat)
    requires HangupSuspends(idle, was, now, d, from) && earlier <= from
    ensures HangupSuspends(idle, was, now, d, earlier)
  {
  }

  /** Queue(d) is filled from side d and sent to side 1 - d. */
  class Session {
    const id: nat
    const client: EndpointState
    const backend: EndpointState
    const fromClient: TcpPendingBuffer
    const fromBackend: TcpPendingBuffer
    var connecting: bool
    var lastIoTime: nat
    var sent: seq<nat>

    function End(d: Side): EndpointState {
      if d == 0 then client else backend
    }

    function Sock(d: Side): Socket {
      End(d).socket
    }

    function Queue(d: Side): TcpPendingBuffer {
      if d == 0 then fromClient else fromBackend
    }

    ghost function Footprint(): set<object> {
      {this, client, backend, client.socket, backend.socket, fromClient, fromBackend, fromClient.bytes, fromBackend.bytes}
    }

    lemma Members()
      ensures this in Footprint() && client in Footprint() && backend in Footprint()
      ensures client.socket in Footprint() && backend.socket in Footprint()
      ensures fromClient in Footprint() && fromBackend in Footprint()
      ensures fromClient.bytes in Footprint() && fromBackend.bytes in Footprint()
    {
    }

    ghost predicate Separate() {
      client != backend && client.socket != backend.socket
      && fromClient != fromBackend && fromClient.bytes != fromBackend.bytes
    }

    // Stream integrity of direction d: what was sent, then what is queued, is what was received.
    ghost predicate Stream(d: Side)
      reads this`sent, Queue(d), Queue(d).bytes, Sock(d)`input, Sock(1 - d)`output
    {
      && Queue(d).Valid()
      && Sock(1 - d).output + Queue(d).Contents() == Sock(d).input
      && |sent| == 2 && sent[d] == |Sock(1 - d).output|
    }

    // SHUT_WR of the destination implies EOF of source d and that everything was sent.
    ghost predicate HalfClosed(d: Side)
      reads End(d)`eof, End(1 - d)`shutdown, Queue(d)`size
    {
      End(1 - d).shutdown ==> End(d).eof && Queue(d).size == 0
    }

    // A full queue has paused its source.
    ghost predicate FullPauses(d: Side)
      reads End(d)`paused, Queue(d)`size
    {
      Queue(d).size == BUFFER_LIMIT ==> End(d).paused
    }

    // A session that is still connecting has not touched application bytes.
    ghost predicate Untouched(d: Side)
      reads End(d)`eof, End(d)`paused, Queue(d)`size
    {
      !End(d).eof && !End(d).paused && Queue(d).size == 0
    }

    ghost predicate Valid()
      reads this, client, backend, client.socket, backend.socket
      reads fromClient, fromBackend, fromClient.bytes, fromBackend.bytes
    {
      && Separate()
      && Stream(0) && Stream(1)
      && client.Agrees() && backend.Agrees()
      && HalfClosed(0) && HalfClosed(1)
      && FullPauses(0) && FullPauses(1)
      && (connecting ==> Untouched(0) && Untouched(1))
    }

    // Valid, and known to the reactor under this identity. Established sessions have tokens.
    ghost predicate Sound(id: nat, tokens: (nat, nat))
      reads Footprint()
    {
      && this.id == id && Valid()
      && client.token == tokens.0 && backend.token == tokens.1
      && (!connecting ==> tokens.0 != 0 && tokens.1 != 0)
    }

    lemma Pack(id: nat, tokens: (nat, nat))
      requires this.id == id && Valid() && client.token == tokens.0 && backend.token == tokens.1
      requires !connecting ==> tokens.0 != 0 && tokens.1 != 0
      ensures Sound(id, tokens)
    {
    }

    lemma Unpack(id: nat, tokens: (nat, nat))
      requires Sound(id, tokens)
      ensures this.id == id && Valid() && Separate() && client.token == tokens.0 && backend.token == tokens.1
      ensures !connecting ==> tokens.0 != 0 && tokens.1 != 0
    {
    }

    // Only a queue above the low-water mark keeps its source paused.
    ghost predicate Backpressure(d: Side)
      reads End(d)`paused, Queue(d)`size
    {
      End(d).paused ==> LOW_WATER < Queue(d).size
    }

    constructor (id: nat, now: nat)
      ensures Valid() && this.id == id && sent == [0, 0]
      ensures fresh(client) && fresh(backend) && fresh(client.socket) && fresh(backend.socket)
      ensures fresh(fromClient) && fresh(fromBackend) && fresh(fromClient.bytes) && fresh(fromBackend.bytes)
      ensures fresh(Footprint())
      ensures connecting && lastIoTime == now && client.socket.open && !backend.socket.open
      ensures client.token == backend.token == 0 && client.deferred == backend.deferred == 0
      ensures !client.registered && !backend.registered
    {
      hide RingSlice;
      hide TcpPendingBuffer.Valid;
      hide TcpPendingBuffer.Contents;
      this.id, connecting, lastIoTime, sent := id, true, now, [0, 0];
      client := new EndpointState(true);
      backend := new EndpointState(false);
      fromClient := new TcpPendingBuffer();
      fromBackend := new TcpPendingBuffer();
      new;
      assert Stream(0) && Stream(1);
      assert client.Agrees() && backend.Agrees() && Separate();
    }

    // send of at most `budget` bytes from the contiguous span: what is handed over is the front of
    // the queue.
    method SendSpan(kernel: Kernel, source: Side, budget: nat) returns (r: SendOutcome)
      requires Queue(source).Valid() && 0 < Queue(source).size && 0 < budget
      requires !Sock(1 - source).writeShut && Sock(1 - source).sendsAfterShut == 0
      modifies Sock(1 - source)`output, Sock(1 - source)`sendsAfterShut, Sock(1 - source)`sending
      modifies kernel`sends, kernel`faults
      ensures r.Sent? ==> r.n <= budget && r.n <= Queue(source).size
                          && Sock(1 - source).output == old(Sock(1 - source).output) + Queue(source).Contents()[..r.n]
      ensures !r.Sent? ==> Sock(1 - source).output == old(Sock(1 - source).output)
      ensures Sock(1 - source).sendsAfterShut == 0
      ensures Sock(1 - source).sending == Attempts(old(Sock(1 - source).sending.calls) + 1, r.SendAgain?)
      ensures |kernel.sends| < |old(kernel.sends)| || (r.SendAgain? && kernel.sends == old(kernel.sends))
      ensures match old(kernel.NextSend())
              case Sent(k) => r.Sent? && r.n <= k && (r.n == 0 <==> k == 0)
              case other => r == other
      ensures kernel.faults == old(kernel.faults) + if r.SendError? || r == Sent(0) then 1 else 0
    {
      hide RingSlice;
      var buffer := Queue(source);
      var size := Min(buffer.ReadableBytes(), budget);
      r := kernel.Send(Sock(1 - source), buffer.bytes, buffer.readOffset, size);
      if r.Sent? {
        RingFront(buffer.bytes[..], buffer.readOffset, buffer.size, r.n);
      }
    }

    // send once, at most `budget` bytes of the contiguous span; n bytes moved to the socket.
    method SendOnce(kernel: Kernel, source: Side, budget: nat) returns (n: nat, out: Outcome, again: bool)
      requires Separate() && Stream(source) && 0 < Queue(source).size && 0 < budget
      requires !Sock(1 - source).writeShut && Sock(1 - source).sendsAfterShut == 0
      modifies this`sent, this`lastIoTime, Queue(source)
      modifies Sock(1 - source)`output, Sock(1 - source)`sendsAfterShut, Sock(1 - source)`sending
      modifies kernel`sends, kernel`faults, kernel`now, kernel`ticks
      ensures Stream(source) && Sock(1 - source).sendsAfterShut == 0
      ensures sent == old(sent[source := sent[source] + n])
      ensures n <= budget && Queue(source).size == old(Queue(source).size) - n
      ensures |kernel.sends| < |old(kernel.sends)| || (!again && kernel.sends == old(kernel.sends))
      ensures old(kernel.now) <= kernel.now
      ensures if n == 0 then lastIoTime == old(lastIoTime) else old(kernel.now) <= lastIoTime == kernel.now
      ensures Sock(1 - source).sending.calls == old(Sock(1 - source).sending.calls) + 1
      ensures out.Ok? && !again ==> Sock(1 - source).sending.refused
      ensures !out.Ok? ==> n == 0 && out.Failed? && (out.operation == SendCall || out.operation == SendZero)
      ensures match old(kernel.NextSend())
              case SendError(e) => out == Failed(SendCall, e)
              case Sent(k) => if k == 0 then out == Failed(SendZero, EIO) else out.Ok? && again && 0 < n <= k
              case SendIntr => out.Ok? && again && n == 0
              case SendAgain => out.Ok? && !again && n == 0
      ensures kernel.faults == old(kernel.faults) + if out.Ok? then 0 else 1
    {
      hide RingSlice;
      hide TcpPendingBuffer.Contents;
      var r := SendSpan(kernel, source, budget);
      match r {
        case SendIntr => return 0, Ok, true;
        case SendAgain => return 0, Ok, false;
        case SendError(e) => return 0, Failed(SendCall, e), false;
        case Sent(k) =>
          if k == 0 {
            return 0, Failed(SendZero, EIO), false;
          }
          var consumed := Queue(source).ConsumeReadableBytes(k);
          sent := sent[source := sent[source] + k];
          lastIoTime := kernel.Now();
          return k, Ok, true;
      }
    }

    // One round of the send loop: the stop is polled before every send.
    method DrainStep(stop: StopControl, source: Side, budget: nat) returns (n: nat, out: Outcome, again: bool)
      requires stop.Valid() && Separate() && Stream(source) && 0 < Queue(source).size && 0 < budget
      requires !Sock(1 - source).writeShut && Sock(1 - source).sendsAfterShut == 0
      modifies this`sent, this`lastIoTime, Queue(source), stop
      modifies Sock(1 - source)`output, Sock(1 - source)`sendsAfterShut, Sock(1 - source)`sending
      modifies stop.kernel`sends, stop.kernel`faults, stop.kernel`now, stop.kernel`ticks, stop.kernel`codes, stop.kernel`signals, stop.kernel`stops
      ensures stop.Valid() && stop.Advanced()
      ensures Stream(source) && Sock(1 - source).sendsAfterShut == 0
      ensures sent == old(sent[source := sent[source] + n])
      ensures n <= budget && Queue(source).size == old(Queue(source).size) - n
      ensures |stop.kernel.sends| < |old(stop.kernel.sends)| || (!again && stop.kernel.sends == old(stop.kernel.sends))
      ensures if n == 0 then lastIoTime == old(lastIoTime) else old(stop.kernel.now) <= lastIoTime <= stop.kernel.now
      ensures old(Sock(1 - source).sending.calls) <= Sock(1 - source).sending.calls
      ensures out.Ok? && !again ==> stop.stopRequested || Refused(old(Sock(1 - source).sending), Sock(1 - source).sending)
      ensures !out.Ok? ==> n == 0 && (out.Failed? ==> out.operation == SendCall || out.operation == SendZero)
      ensures stop.kernel.faults == old(stop.kernel.faults) + if out.Ok? then 0 else 1
      ensures stop.stopRequested ==> n == 0 && stop.kernel.sends == old(stop.kernel.sends)
    {
      hide RingSlice;
      hide TcpPendingBuffer.Contents;
      var stopping, polled := stop.ConsumeStopSignals();
      if polled.Fatal? {
        return 0, Fatal, false;
      }
      if stop.stopRequested {
        return 0, Ok, false;
      }
      n, out, again := SendOnce(stop.kernel, source, budget);
    }

    // The send loop of writeBufferedDirection.
    method DrainQueue(stop: StopControl, source: Side, budget: nat) returns (left: nat, out: Outcome)
      requires stop.Valid() && Separate() && Stream(source)
      requires 0 < Queue(source).size ==> !Sock(1 - source).writeShut
      requires Sock(1 - source).sendsAfterShut == 0
      modifies this`sent, this`lastIoTime, Queue(source), stop
      modifies Sock(1 - source)`output, Sock(1 - source)`sendsAfterShut, Sock(1 - source)`sending
      modifies stop.kernel`sends, stop.kernel`faults, stop.kernel`now, stop.kernel`ticks, stop.kernel`codes,
               stop.kernel`signals, stop.kernel`faults, stop.kernel`stops
      ensures stop.Valid() && stop.Advanced()
      ensures Stream(source) && Sock(1 - source).sendsAfterShut == 0
      ensures left <= budget && sent == old(sent)[source := old(sent[source]) + budget - left]
      ensures Queue(source).size == old(Queue(source).size) - (budget - left)
      ensures if left == budget then lastIoTime == old(lastIoTime)
              else old(stop.kernel.now) <= lastIoTime <= stop.kernel.now
      ensures out.Ok? ==> Queue(source).size == 0 || left == 0 || stop.stopRequested
                          || Refused(old(Sock(1 - source).sending), Sock(1 - source).sending)
      ensures old(Sock(1 - source).sending.calls) <= Sock(1 - source).sending.calls
      ensures out.Failed? ==> out.operation == SendCall || out.operation == SendZero
      ensures stop.kernel.faults == old(stop.kernel.faults) + if out.Ok? then 0 else 1
    {
      hide RingSlice;
      hide TcpPendingBuffer.Contents;
      left, out := budget, Ok;
      var again := true;
      while again && 0 < Queue(source).size && 0 < left
        invariant stop.Valid() && stop.Advanced() && out.Ok? && stop.kernel.faults == old(stop.kernel.faults)
        invariant Stream(source) && Sock(1 - source).sendsAfterShut == 0
        invariant left <= budget && sent == old(sent)[source := old(sent[source]) + budget - left]
        invariant Queue(source).size == old(Queue(source).size) - (budget - left)
        invariant if left == budget then lastIoTime == old(lastIoTime)
                  else old(stop.kernel.now) <= lastIoTime <= stop.kernel.now
        invariant old(Sock(1 - source).sending.calls) <= Sock(1 - source).sending.calls
        invariant !again ==> stop.stopRequested || Refused(old(Sock(1 - source).sending), Sock(1 - source).sending)
        decreases |stop.kernel.sends|, again
      {
        var n;
        n, out, again := DrainStep(stop, source, left);
        left := left - n;
        if !out.Ok? {
          return;
        }
      }
    }

    // writeBufferedDirection: drain queue `source` within the budget, then lift the pause.
    method WriteBufferedDirection(stop: StopControl, source: Side, budget: nat)
      returns (left: nat, out: Outcome)
      requires stop.Valid() && Valid() && !connecting
      modifies this`sent, this`lastIoTime, End(source)`paused, Queue(source), stop
      modifies Sock(1 - source)`output, Sock(1 - source)`sendsAfterShut, Sock(1 - source)`sending
      modifies stop.kernel`sends, stop.kernel`faults, stop.kernel`now, stop.kernel`ticks, stop.kernel`codes,
               stop.kernel`signals, stop.kernel`faults, stop.kernel`stops
      ensures stop.Valid() && stop.Advanced() && Valid()
      ensures left <= budget && sent == old(sent)[source := old(sent[source]) + budget - left]
      ensures Queue(source).size == old(Queue(source).size) - (budget - left)
      ensures if left == budget then lastIoTime == old(lastIoTime)
              else old(stop.kernel.now) <= lastIoTime <= stop.kernel.now
      ensures out.Ok? ==> Queue(source).size == 0 || left == 0 || stop.stopRequested
                          || Refused(old(Sock(1 - source).sending), Sock(1 - source).sending)
      ensures old(Sock(1 - source).sending.calls) <= Sock(1 - source).sending.calls
      ensures out.Failed? ==> out.operation == SendCall || out.operation == SendZero
      ensures End(source).paused == if out.Ok? && !stop.draining
                                    then old(End(source).paused) && LOW_WATER < Queue(source).size
                                    else old(End(source).paused)
      ensures stop.kernel.faults == old(stop.kernel.faults) + if out.Ok? then 0 else 1
    {
      hide Refused;
      hide RingSlice;
      hide TcpPendingBuffer.Contents;
      left, out := DrainQueue(stop, source, budget);
      if out.Ok? && !stop.draining && End(source).paused && Queue(source).size <= LOW_WATER {
        End(source).paused := false;
      }
    }

    // recv into the contiguous free span: received bytes extend the stream and the queue alike.
    method ReceiveSpan(kernel: Kernel, source: Side, budget: nat) returns (r: RecvOutcome)
      requires Stream(source) && Queue(source).size < BUFFER_LIMIT && 0 < budget
      modifies Queue(source)`size, Queue(source).bytes, Sock(source)`input, Sock(source)`peerClosed, Sock(source)`receiving
      modifies kernel`arrivals, kernel`faults, kernel`recvsAfterStop
      ensures kernel.stops == 0 ==> kernel.recvsAfterStop == old(kernel.recvsAfterStop)
      ensures |kernel.arrivals| < |old(kernel.arrivals)| || (r.RecvAgain? && kernel.arrivals == old(kernel.arrivals))
      ensures Sock(source).receiving == Attempts(old(Sock(source).receiving.calls) + 1, r.RecvAgain?)
      ensures Stream(source) && old(Sock(source).input) <= Sock(source).input
      ensures |Sock(source).input| == |old(Sock(source).input)| + if r.Received? then r.n else 0
      ensures r.Received? ==> r.n <= budget
      ensures Sock(source).peerClosed <==> old(Sock(source).peerClosed) || r == Received(0)
      ensures match old(kernel.NextArrival())
              case NothingYet => r == RecvAgain
              case ArrivalIntr => r == RecvIntr
              case ArrivalError(e) => r == RecvError(e)
              case Data(bytes) => r.Received? && r.n <= |bytes| && (r.n == 0 <==> bytes == [])
      ensures kernel.faults == old(kernel.faults) + if r.RecvError? then 1 else 0
    {
      hide RingSlice;
      var buffer := Queue(source);
      var size := Min(buffer.WritableBytes(), budget);
      ghost var before := buffer.bytes[..];
      assert buffer.Contents() == buffer.QueuedIn(before);
      hide TcpPendingBuffer.Contents;
      r := kernel.Recv(Sock(source), buffer.bytes, buffer.WriteOffset(), size);
      if r.Received? {
        var committed := buffer.CommitWrittenBytes(r.n, before);
      }
    }

    // One recv of readSessionDirection, at most `budget` bytes.
    method RecvOnce(kernel: Kernel, source: Side, budget: nat) returns (n: nat, out: Outcome, again: bool)
      requires Separate() && Stream(source) && Queue(source).size < BUFFER_LIMIT && 0 < budget
      requires !End(source).eof && !End(source).paused && !Sock(source).peerClosed
      modifies this`lastIoTime, Queue(source)`size, Queue(source).bytes
      modifies Sock(source)`input, Sock(source)`peerClosed, Sock(source)`receiving, End(source)`eof, End(source)`paused
      modifies kernel`arrivals, kernel`faults, kernel`recvsAfterStop, kernel`now, kernel`ticks
      ensures kernel.stops == 0 ==> kernel.recvsAfterStop == old(kernel.recvsAfterStop)
      ensures Stream(source) && old(Sock(source).input) <= Sock(source).input
      ensures n <= budget && |Sock(source).input| == |old(Sock(source).input)| + n
      ensures Queue(source).size == old(Queue(source).size) + n <= BUFFER_LIMIT
      ensures |kernel.arrivals| < |old(kernel.arrivals)| || (!again && kernel.arrivals == old(kernel.arrivals))
      ensures old(kernel.now) <= kernel.now
      ensures if n == 0 then lastIoTime == old(lastIoTime) else old(kernel.now) <= lastIoTime == kernel.now
      ensures End(source).eof == Sock(source).peerClosed && (End(source).eof ==> n == 0)
      ensures End(source).paused <==> Queue(source).size == BUFFER_LIMIT
      ensures Sock(source).receiving.calls == old(Sock(source).receiving.calls) + 1
      ensures !again && out.Ok? ==> End(source).eof || Sock(source).receiving.refused
      ensures !out.Ok? ==> out.Failed? && out.operation == RecvCall
      ensures match old(kernel.NextArrival())
              case ArrivalError(e) => out == Failed(RecvCall, e)
              case Data(bytes) => out.Ok? && if bytes == [] then End(source).eof else again && 0 < n <= |bytes|
              case ArrivalIntr => out.Ok? && again && n == 0
              case NothingYet => out.Ok? && !again && n == 0
      ensures kernel.faults == old(kernel.faults) + if out.Ok? then 0 else 1
    {
      hide RingSlice;
      hide TcpPendingBuffer.Contents;
      var r := ReceiveSpan(kernel, source, budget);
      match r {
        case RecvIntr => return 0, Ok, true;
        case RecvAgain => return 0, Ok, false;
        case RecvError(e) => return 0, Failed(RecvCall, e), false;
        case Received(k) =>
          if k == 0 {
            End(source).eof := true;
            return 0, Ok, false;
          }
          lastIoTime := kernel.Now();
          if Queue(source).size == BUFFER_LIMIT {
            End(source).paused := true;
          }
          return k, Ok, true;
      }
    }

    // One round of the recv loop: the stop is polled before every receive, and ends the loop.
    method FillStep(stop: StopControl, source: Side, budget: nat) returns (n: nat, out: Outcome, again: bool)
      requires stop.Valid() && Separate() && Stream(source) && Queue(source).size < BUFFER_LIMIT && 0 < budget
      requires !End(source).eof && !End(source).paused && !Sock(source).peerClosed
      modifies this`lastIoTime, Queue(source)`size, Queue(source).bytes, stop
      modifies Sock(source)`input, Sock(source)`peerClosed, Sock(source)`receiving, End(source)`eof, End(source)`paused
      modifies stop.kernel`arrivals, stop.kernel`faults, stop.kernel`recvsAfterStop, stop.kernel`now, stop.kernel`ticks,
               stop.kernel`codes, stop.kernel`signals, stop.kernel`stops
      ensures stop.Valid() && stop.Advanced() && Stream(source) && old(Sock(source).input) <= Sock(source).input
      ensures n <= budget && |Sock(source).input| == |old(Sock(source).input)| + n
      ensures Queue(source).size == old(Queue(source).size) + n
      ensures |stop.kernel.arrivals| < |old(stop.kernel.arrivals)| || (!again && stop.kernel.arrivals == old(stop.kernel.arrivals))
      ensures if n == 0 then lastIoTime == old(lastIoTime) else old(stop.kernel.now) <= lastIoTime <= stop.kernel.now
      ensures End(source).eof == Sock(source).peerClosed && (End(source).eof ==> n == 0)
      ensures End(source).paused <==> Queue(source).size == BUFFER_LIMIT
      ensures old(Sock(source).receiving.calls) <= Sock(source).receiving.calls
      ensures !again && out.Ok? ==> End(source).eof || stop.draining || Refused(old(Sock(source).receiving), Sock(source).receiving)
      ensures old(stop.draining) ==> n == 0 && !End(source).eof
      ensures out.Failed? ==> out.operation == RecvCall
      ensures stop.kernel.faults == old(stop.kernel.faults) + if out.Ok? then 0 else 1
    {
      hide RingSlice;
      hide TcpPendingBuffer.Contents;
      var stopping, polled := stop.ConsumeStopSignals();
      if polled.Fatal? {
        return 0, Fatal, false;
      }
      if stopping {
        return 0, Ok, false;
      }
      n, out, again := RecvOnce(stop.kernel, source, budget);
    }

    // The recv loop of readSessionDirection.
    method FillQueue(stop: StopControl, source: Side) returns (out: Outcome)
      requires stop.Valid() && Separate() && Stream(source)
      requires (End(source).eof <==> Sock(source).peerClosed) && FullPauses(source)
      modifies this`lastIoTime, Queue(source)`size, Queue(source).bytes, stop
      modifies Sock(source)`input, Sock(source)`peerClosed, Sock(source)`receiving, End(source)`eof, End(source)`paused
      modifies stop.kernel`arrivals, stop.kernel`faults, stop.kernel`recvsAfterStop, stop.kernel`now, stop.kernel`ticks,
               stop.kernel`codes, stop.kernel`faults, stop.kernel`signals, stop.kernel`stops
      ensures stop.Valid() && stop.Advanced() && Stream(source)
      ensures End(source).eof <==> Sock(source).peerClosed
      ensures old(Sock(source).input) <= Sock(source).input
      ensures old(stop.draining) || old(End(source).eof) || old(End(source).paused) ==>
                Sock(source).input == old(Sock(source).input) && End(source).eof == old(End(source).eof)
      ensures End(source).paused <==> old(End(source).paused) || Queue(source).size == BUFFER_LIMIT
      ensures old(Queue(source).size) <= Queue(source).size
      ensures out.Ok? ==> End(source).eof || End(source).paused || stop.draining
                          || Refused(old(Sock(source).receiving), Sock(source).receiving)
                          || |Sock(source).input| == |old(Sock(source).input)| + BUFFER_LIMIT
      ensures if |Sock(source).input| == |old(Sock(source).input)| then lastIoTime == old(lastIoTime)
              else old(stop.kernel.now) <= lastIoTime <= stop.kernel.now
      ensures out.Failed? ==> out.operation == RecvCall
      ensures stop.kernel.faults == old(stop.kernel.faults) + if out.Ok? then 0 else 1
    {
      hide RingSlice;
      hide TcpPendingBuffer.Contents;
      var budget, again := BUFFER_LIMIT, true;
      out := Ok;
      while again && !End(source).eof && !End(source).paused && 0 < budget
        invariant stop.Valid() && stop.Advanced() && out.Ok? && Stream(source) && budget <= BUFFER_LIMIT
        invariant stop.kernel.faults == old(stop.kernel.faults)
        invariant End(source).eof <==> Sock(source).peerClosed
        invariant old(Sock(source).input) <= Sock(source).input
        invariant |Sock(source).input| == |old(Sock(source).input)| + BUFFER_LIMIT - budget
        invariant Queue(source).size == old(Queue(source).size) + BUFFER_LIMIT - budget
        invariant old(stop.draining) || old(End(source).eof) || old(End(source).paused) ==>
                    budget == BUFFER_LIMIT && End(source).eof == old(End(source).eof)
        invariant End(source).paused <==> old(End(source).paused) || Queue(source).size == BUFFER_LIMIT
        invariant if budget == BUFFER_LIMIT then lastIoTime == old(lastIoTime)
                  else old(stop.kernel.now) <= lastIoTime <= stop.kernel.now
        invariant old(Sock(source).receiving.calls) <= Sock(source).receiving.calls
        invariant !again ==> End(source).eof || stop.draining || Refused(old(Sock(source).receiving), Sock(source).receiving)
        decreases |stop.kernel.arrivals|, again
      {
        var n;
        n, out, again := FillStep(stop, source, budget);
        budget := budget - n;
        if !out.Ok? {
          return;
        }
      }
    }

    // readSessionDirection: fill queue `source` until it is full, dry, ended or stopped.
    method ReadSessionDirection(stop: StopControl, source: Side) returns (out: Outcome)
      requires stop.Valid() && Valid() && !connecting
      modifies this`lastIoTime, Queue(source)`size, Queue(source).bytes, stop
      modifies Sock(source)`input, Sock(source)`peerClosed, Sock(source)`receiving, End(source)`eof, End(source)`paused
      modifies stop.kernel`arrivals, stop.kernel`faults, stop.kernel`recvsAfterStop, stop.kernel`now, stop.kernel`ticks,
               stop.kernel`codes, stop.kernel`faults, stop.kernel`signals, stop.kernel`stops
      ensures stop.Valid() && stop.Advanced() && Valid()
      ensures old(Sock(source).input) <= Sock(source).input
      ensures old(stop.draining) || old(End(source).eof) || old(End(source).paused) ==>
                Sock(source).input == old(Sock(source).input) && End(source).eof == old(End(source).eof)
      ensures End(source).paused <==> old(End(source).paused) || Queue(source).size == BUFFER_LIMIT
      ensures old(Queue(source).size) <= Queue(source).size
      ensures out.Ok? ==> End(source).eof || End(source).paused || stop.draining
                          || Refused(old(Sock(source).receiving), Sock(source).receiving)
                          || |Sock(source).input| == |old(Sock(source).input)| + BUFFER_LIMIT
      ensures if |Sock(source).input| == |old(Sock(source).input)| then lastIoTime == old(lastIoTime)
              else old(stop.kernel.now) <= lastIoTime <= stop.kernel.now
      ensures out.Failed? ==> out.operation == RecvCall
      ensures stop.kernel.faults == old(stop.kernel.faults) + if out.Ok? then 0 else 1
    {
      hide Refused;
      hide RingSlice;
      hide TcpPendingBuffer.Contents;
      out := FillQueue(stop, source);
    }

    // One write pass over both directions.
    method WritePass(stop: StopControl, budgetC: nat, budgetB: nat) returns (leftC: nat, leftB: nat, out: Outcome)
      requires stop.Valid() && Valid() && !connecting
      modifies this`sent, this`lastIoTime, client`paused, backend`paused, fromClient, fromBackend, stop
      modifies client.socket`output, client.socket`sendsAfterShut, client.socket`sending
      modifies backend.socket`output, backend.socket`sendsAfterShut, backend.socket`sending
      modifies stop.kernel`sends, stop.kernel`faults, stop.kernel`now, stop.kernel`ticks, stop.kernel`codes,
               stop.kernel`signals, stop.kernel`faults, stop.kernel`stops
      ensures stop.Valid() && stop.Advanced() && Valid()
      ensures leftC <= budgetC && leftB <= budgetB
      ensures |sent| == 2 && sent[0] == old(sent[0]) + budgetC - leftC && sent[1] == old(sent[1]) + budgetB - leftB
      ensures fromClient.size == old(fromClient.size) - (budgetC - leftC)
      ensures fromBackend.size == old(fromBackend.size) - (budgetB - leftB)
      ensures out.Ok? ==> fromClient.size == 0 || leftC == 0 || stop.stopRequested
                          || Refused(old(backend.socket.sending), backend.socket.sending)
      ensures out.Ok? ==> fromBackend.size == 0 || leftB == 0 || stop.stopRequested
                          || Refused(old(client.socket.sending), client.socket.sending)
      ensures old(client.socket.sending.calls) <= client.socket.sending.calls
      ensures old(backend.socket.sending.calls) <= backend.socket.sending.calls
      ensures if leftC == budgetC && leftB == budgetB then lastIoTime == old(lastIoTime)
              else old(stop.kernel.now) <= lastIoTime <= stop.kernel.now
      ensures out.Ok? && !stop.draining ==>
                (client.paused <==> old(client.paused) && LOW_WATER < fromClient.size)
                && (backend.paused <==> old(backend.paused) && LOW_WATER < fromBackend.size)
      ensures out.Failed? ==> out.operation == SendCall || out.operation == SendZero
      ensures stop.kernel.faults == old(stop.kernel.faults) + if out.Ok? then 0 else 1
    {
      hide Refused;
      hide RingSlice;
      hide TcpPendingBuffer.Contents;
      leftB := budgetB;
      leftC, out := WriteBufferedDirection(stop, 0, budgetC);
      if out.Ok? {
        leftB, out := WriteBufferedDirection(stop, 1, budgetB);
      }
    }

    // One read pass over both directions; nothing is read once a stop was consumed.
    method ReadPass(stop: StopControl) returns (out: Outcome)
      requires stop.Valid() && Valid() && !connecting
      modifies this`lastIoTime, fromClient`size, fromClient.bytes, fromBackend`size, fromBackend.bytes, stop
      modifies client.socket`input, client.socket`peerClosed, client.socket`receiving, client`eof, client`paused
      modifies backend.socket`input, backend.socket`peerClosed, backend.socket`receiving, backend`eof, backend`paused
      modifies stop.kernel`arrivals, stop.kernel`faults, stop.kernel`recvsAfterStop, stop.kernel`now, stop.kernel`ticks,
               stop.kernel`codes, stop.kernel`faults, stop.kernel`signals, stop.kernel`stops
      ensures stop.Valid() && stop.Advanced() && Valid()
      ensures old(client.socket.input) <= client.socket.input && old(backend.socket.input) <= backend.socket.input
      ensures old(stop.draining) || old(client.eof) || old(client.paused) ==>
                client.socket.input == old(client.socket.input) && client.eof == old(client.eof)
      ensures old(stop.draining) || old(backend.eof) || old(backend.paused) ==>
                backend.socket.input == old(backend.socket.input) && backend.eof == old(backend.eof)
      ensures old(fromClient.size) <= fromClient.size && old(fromBackend.size) <= fromBackend.size
      ensures out.Ok? ==> client.eof || client.paused || stop.draining
                          || Refused(old(client.socket.receiving), client.socket.receiving)
                          || |client.socket.input| == |old(client.socket.input)| + BUFFER_LIMIT
      ensures out.Ok? ==> backend.eof || backend.paused || stop.draining
                          || Refused(old(backend.socket.receiving), backend.socket.receiving)
                          || |backend.socket.input| == |old(backend.socket.input)| + BUFFER_LIMIT
      ensures out.Ok? ==> (client.paused <==> old(client.paused) || fromClient.size == BUFFER_LIMIT)
                          && (backend.paused <==> old(backend.paused) || fromBackend.size == BUFFER_LIMIT)
      ensures if |client.socket.input| == |old(client.socket.input)| && |backend.socket.input| == |old(backend.socket.input)|
              then lastIoTime == old(lastIoTime) else old(stop.kernel.now) <= lastIoTime <= stop.kernel.now
      ensures out.Failed? ==> out.operation == RecvCall
      ensures stop.kernel.faults == old(stop.kernel.faults) + if out.Ok? then 0 else 1
    {
      hide Refused;
      hide RingSlice;
      hide TcpPendingBuffer.Contents;
      out := ReadSessionDirection(stop, 0);
      if out.Ok? {
        out := ReadSessionDirection(stop, 1);
      }
    }

    // SHUT_WR towards side 1 - source, once source has ended and its queue is empty. It ends as the
    // scripts say: in particular the session fails, although only a drain has begun, exactly if
    // the call is interrupted and a stop signal is waiting.
    method ShutdownDestination(stop: StopControl, source: Side) returns (out: Outcome)
      requires stop.Valid() && Valid() && !connecting && !stop.draining
      requires End(source).eof && Queue(source).size == 0 && !End(1 - source).shutdown
      modifies End(1 - source)`shutdown, Sock(1 - source)`writeShut, stop
      modifies stop.kernel`now, stop.kernel`ticks, stop.kernel`codes, stop.kernel`faults, stop.kernel`signals, stop.kernel`stops
      ensures stop.Valid() && stop.Advanced() && Valid()
      ensures out.Ok? <==> End(1 - source).shutdown
      ensures out.Ok? ==> !stop.draining
      ensures out == match ShutdownOf(old(stop.kernel.codes), old(stop.kernel.signals))
                     case ShutDone => Ok
                     case ShutError(code) => Failed(ShutdownCall, code)
                     case ShutInterrupted => Failed(ShutdownCall, EINTR)
                     case ShutBroken => Fatal
      ensures !out.Fatal? ==> (stop.draining <==> ShutdownOf(old(stop.kernel.codes), old(stop.kernel.signals)) == ShutInterrupted)
      ensures out.Failed? ==> (stop.draining <==> out.error == EINTR)
      ensures !out.Ok? ==> old(stop.kernel.faults) < stop.kernel.faults
    {
      hide RingSlice;
      hide TcpPendingBuffer.Contents;
      hide TcpPendingBuffer.Valid;
      var code;
      code, out := CallShutdown(stop, source);
      if !out.Ok? {
        return;
      }
      if code != 0 {
        return Failed(ShutdownCall, code);
      }
      End(1 - source).shutdown := true;
    }

    // The call, repeated while it is interrupted and no stop arrives.
    method CallShutdown(stop: StopControl, source: Side) returns (code: nat, out: Outcome)
      requires stop.Valid() && !stop.draining && !Sock(1 - source).writeShut
      modifies Sock(1 - source)`writeShut, stop
      modifies stop.kernel`now, stop.kernel`ticks, stop.kernel`codes, stop.kernel`faults, stop.kernel`signals, stop.kernel`stops
      ensures stop.Valid() && stop.Advanced() && !out.Failed?
      ensures Sock(1 - source).writeShut <==> out.Ok? && code == 0
      ensures match ShutdownOf(old(stop.kernel.codes), old(stop.kernel.signals))
              case ShutDone => out.Ok? && code == 0 && !stop.draining
              case ShutError(error) => out.Ok? && code == error && error != EINTR && error != 0 && !stop.draining
              case ShutInterrupted => out.Ok? && code == EINTR && stop.draining
              case ShutBroken => out.Fatal?
      ensures (out.Ok? && code == 0) || old(stop.kernel.faults) < stop.kernel.faults
    {
      out := Ok;
      code := stop.kernel.ShutdownWrite(Sock(1 - source));
      while code == EINTR
        invariant stop.Valid() && stop.Advanced() && !stop.draining && (code != 0 ==> old(stop.kernel.faults) < stop.kernel.faults)
        invariant Sock(1 - source).writeShut <==> code == 0
        invariant code == 0 ==> ShutdownOf(old(stop.kernel.codes), old(stop.kernel.signals)) == ShutDone
        invariant code != 0 ==> ShutdownOf(old(stop.kernel.codes), old(stop.kernel.signals))
                                == ShutdownOf([code] + stop.kernel.codes, stop.kernel.signals)
        decreases |stop.kernel.codes|, code == EINTR
      {
        var stopping, polled := stop.ConsumeStopSignals();
        if polled.Fatal? {
          return code, Fatal;
        }
        if stopping {
          return;
        }
        code := stop.kernel.ShutdownWrite(Sock(1 - source));
      }
    }

    // Both directions have passed on everything including the end of their stream.
    ghost predicate Complete()
      reads client`eof, client`shutdown, backend`eof, backend`shutdown
      reads fromClient`size, fromBackend`size
    {
      client.eof && backend.eof && client.shutdown && backend.shutdown && fromClient.size == 0 && fromBackend.size == 0
    }

    // Once SHUT_WR went to side 1 - d, that side has been sent exactly what side d ever sent.
    lemma ShutMeansDelivered(d: Side)
      requires Valid() && Sock(1 - d).writeShut
      ensures Sock(d).peerClosed && Sock(1 - d).output == Sock(d).input && Sock(1 - d).sendsAfterShut == 0
    {
      assert Queue(d).Contents() == [];
    }

    // A complete session delivered both byte streams.
    lemma CompleteDelivers()
      requires Valid() && Complete()
      ensures backend.socket.output == client.socket.input && client.socket.output == backend.socket.input
      ensures sent == [|client.socket.input|, |backend.socket.input|]
    {
      assert fromClient.Contents() == [] && fromBackend.Contents() == [];
    }

    // What holds between events of an established session: bounded pauses, no pending SHUT_WR.
    ghost predicate Settled()
      reads client`eof, client`paused, client`shutdown, backend`eof, backend`paused, backend`shutdown
      reads fromClient`size, fromBackend`size
    {
      && Backpressure(0) && Backpressure(1)
      && (client.eof && fromClient.size == 0 ==> backend.shutdown)
      && (backend.eof && fromBackend.size == 0 ==> client.shutdown)
    }

    // The half-close phase of advanceSessionIo.
    method ShutdownPass(stop: StopControl) returns (out: Outcome)
      requires stop.Valid() && Valid() && !connecting && !stop.draining
      modifies client`shutdown, backend`shutdown, client.socket`writeShut, backend.socket`writeShut, stop
      modifies stop.kernel`now, stop.kernel`ticks, stop.kernel`codes, stop.kernel`faults, stop.kernel`signals, stop.kernel`stops
      ensures stop.Valid() && stop.Advanced() && Valid()
      ensures old(client.shutdown) ==> client.shutdown
      ensures old(backend.shutdown) ==> backend.shutdown
      ensures out.Ok? ==> !stop.draining && (client.eof && fromClient.size == 0 <==> backend.shutdown)
                          && (backend.eof && fromBackend.size == 0 <==> client.shutdown)
      ensures out.Failed? ==> out.operation == ShutdownCall
      ensures !out.Ok? ==> old(stop.kernel.faults) < stop.kernel.faults
    {
      hide RingSlice;
      hide TcpPendingBuffer.Contents;
      out := Ok;
      if client.eof && fromClient.size == 0 && !backend.shutdown {
        out := ShutdownDestination(stop, 0);
      }
      if out.Ok? && backend.eof && fromBackend.size == 0 && !client.shutdown {
        out := ShutdownDestination(stop, 1);
      }
    }

    // What advanceSessionIo keeps, whatever it meets: streams only grow, flags only rise, and a
    // drain receives nothing and ends nothing.
    twostate predicate Forward(stop: StopControl)
      reads this, client, backend, client.socket, backend.socket, stop
    {
      && |old(sent)| == |sent| == 2 && old(sent[0]) <= sent[0] && old(sent[1]) <= sent[1]
      && old(client.socket.input) <= client.socket.input && old(backend.socket.input) <= backend.socket.input
      && (old(client.eof) ==> client.eof && client.socket.input == old(client.socket.input))
      && (old(backend.eof) ==> backend.eof && backend.socket.input == old(backend.socket.input))
      && (old(client.shutdown) ==> client.shutdown) && (old(backend.shutdown) ==> backend.shutdown)
      && (old(stop.draining) ==>
            client.socket.input == old(client.socket.input) && backend.socket.input == old(backend.socket.input)
            && client.eof == old(client.eof) && backend.eof == old(backend.eof)
            && client.shutdown == old(client.shutdown) && backend.shutdown == old(backend.shutdown))
      // only bytes that moved refresh the idle deadline
      && (lastIoTime != old(lastIoTime) ==>
            old(sent[0]) < sent[0] || old(sent[1]) < sent[1]
            || |old(client.socket.input)| < |client.socket.input| || |old(backend.socket.input)| < |backend.socket.input|)
    }

    lemma TwoCounters()
      requires Valid()
      ensures |sent| == 2
      ensures fromClient.size == |client.socket.input| - sent[0] && fromBackend.size == |backend.socket.input| - sent[1]
    {
      assert |backend.socket.output + fromClient.Contents()| == |client.socket.input|;
      assert |client.socket.output + fromBackend.Contents()| == |backend.socket.input|;
    }

    // Neither queue has grown.
    twostate predicate Ebbed()
      reads fromClient`size, fromBackend`size
    {
      fromClient.size <= old(fromClient.size) && fromBackend.size <= old(fromBackend.size)
    }

    // Bytes are left in queue d only if the kernel refused them or the budget is spent.
    twostate predicate Written(d: Side, budget: nat, stop: StopControl)
      reads this`sent, Queue(d)`size, Sock(1 - d)`sending, stop`stopRequested
    {
      && |old(sent)| == |sent| == 2 && old(Sock(1 - d).sending.calls) <= Sock(1 - d).sending.calls
      && (Queue(d).size == 0 || sent[d] == old(sent[d]) + budget || stop.stopRequested
          || Refused(old(Sock(1 - d).sending), Sock(1 - d).sending))
    }

    // Source d was read until it refused, ended or filled its queue, or its budget was spent. A
    // queue that was full may since have been sent from.
    twostate predicate Taken(d: Side, stop: StopControl)
      reads this`sent, End(d)`eof, End(d)`paused, Sock(d)`receiving, Sock(d)`input, stop`draining
    {
      && |old(sent)| == |sent| == 2
      && (End(d).eof || End(d).paused || stop.draining || Refused(old(Sock(d).receiving), Sock(d).receiving)
          || |Sock(d).input| == |old(Sock(d).input)| + BUFFER_LIMIT || old(sent[d]) < sent[d])
    }

    // How far direction d has come: what was received and sent, what is queued, and how often the
    // kernel was asked on either side.
    ghost function Position(d: Side): Progress
      reads this`sent, Queue(d)`size, End(d)`eof, End(d)`paused, Sock(d)`receiving, Sock(d)`input, Sock(1 - d)`sending
    {
      Progress(|Sock(d).input|, if |sent| == 2 then sent[d] else 0, Queue(d).size, End(d).eof, End(d).paused,
               Sock(d).receiving, Sock(1 - d).sending)
    }

    // A step moved what could be moved in direction d.
    twostate predicate WorkDone(d: Side, stop: StopControl)
      reads this`sent, Queue(d)`size, End(d)`eof, End(d)`paused, Sock(d)`receiving, Sock(d)`input, Sock(1 - d)`sending
      reads stop`stopRequested, stop`draining
    {
      Transferred(old(Position(d)), Position(d), stop.draining, stop.stopRequested)
    }

    // A queue that is only sent from does not grow.
    twostate lemma EbbsWithoutInput()
      requires old(Valid()) && Valid() && client.socket.input == old(client.socket.input) && backend.socket.input == old(backend.socket.input)
      requires |old(sent)| == |sent| == 2 && old(sent[0]) <= sent[0] && old(sent[1]) <= sent[1]
      ensures Ebbed()
    {
      hide RingSlice;
      assert |old(backend.socket.output + fromClient.Contents())| == |old(client.socket.input)|;
      assert |old(client.socket.output + fromBackend.Contents())| == |old(backend.socket.input)|;
      TwoCounters();
    }

    // The three passes of advanceSessionIo: write, read, write.
    method TransferPasses(stop: StopControl) returns (out: Outcome)
      requires stop.Valid() && Valid() && !connecting && |sent| == 2
      modifies this`sent, this`lastIoTime, fromClient, fromClient.bytes, fromBackend, fromBackend.bytes, stop
      modifies client`eof, client`paused, backend`eof, backend`paused
      modifies client.socket`input, client.socket`output, client.socket`peerClosed, client.socket`sendsAfterShut
      modifies client.socket`sending, client.socket`receiving
      modifies backend.socket`input, backend.socket`output, backend.socket`peerClosed, backend.socket`sendsAfterShut
      modifies backend.socket`sending, backend.socket`receiving
      modifies stop.kernel
      ensures stop.Valid() && stop.Advanced() && Valid() && Forward(stop)
      ensures out.Ok? && !stop.draining ==> Backpressure(0) && Backpressure(1)
      ensures out.Ok? ==> WorkDone(0, stop) && WorkDone(1, stop)
      ensures out.Failed? ==> out.operation == SendCall || out.operation == SendZero || out.operation == RecvCall
      ensures stop.kernel.faults == old(stop.kernel.faults) + if out.Ok? then 0 else 1
      ensures stop.kernel.thrown == old(stop.kernel.thrown)
    {
      hide Session.Valid;
      hide StopControl.Valid;
      var leftC, leftB;
      leftC, leftB, out := WritePass(stop, BUFFER_LIMIT, BUFFER_LIMIT);
      if out.Ok? {
        out := ReadAndWrite(stop, leftC, leftB);
      }
    }

    // The read pass and the second write pass, with what the first one left of the budgets.
    method ReadAndWrite(stop: StopControl, budgetC: nat, budgetB: nat) returns (out: Outcome)
      requires stop.Valid() && Valid() && !connecting && |sent| == 2
      requires !stop.draining ==> Backpressure(0) && Backpressure(1)
      modifies this`sent, this`lastIoTime, fromClient, fromClient.bytes, fromBackend, fromBackend.bytes, stop
      modifies client`eof, client`paused, backend`eof, backend`paused
      modifies client.socket`input, client.socket`output, client.socket`peerClosed, client.socket`sendsAfterShut
      modifies client.socket`sending, client.socket`receiving
      modifies backend.socket`input, backend.socket`output, backend.socket`peerClosed, backend.socket`sendsAfterShut
      modifies backend.socket`sending, backend.socket`receiving
      modifies stop.kernel
      ensures stop.Valid() && stop.Advanced() && Valid() && Forward(stop)
      ensures out.Ok? && !stop.draining ==> Backpressure(0) && Backpressure(1)
      ensures out.Ok? ==> Written(0, budgetC, stop) && Written(1, budgetB, stop) && Taken(0, stop) && Taken(1, stop)
      ensures out.Failed? ==> out.operation == SendCall || out.operation == SendZero || out.operation == RecvCall
      ensures stop.kernel.faults == old(stop.kernel.faults) + if out.Ok? then 0 else 1
      ensures stop.kernel.thrown == old(stop.kernel.thrown)
    {
      hide Refused;
      hide Session.Valid;
      hide StopControl.Valid;
      var leftC, leftB;
      out := ReadPass(stop);
      if out.Ok? {
        leftC, leftB, out := WritePass(stop, budgetC, budgetB);
      }
    }

    // The end of advanceSessionIo: half-close or, in a drain, check for empty queues.
    method EndStep(stop: StopControl) returns (done: bool, out: Outcome)
      requires stop.Valid() && Valid() && !connecting && (!stop.draining ==> Backpressure(0) && Backpressure(1))
      modifies client`shutdown, backend`shutdown, client.socket`writeShut, backend.socket`writeShut, stop
      modifies stop.kernel`now, stop.kernel`ticks, stop.kernel`codes, stop.kernel`faults, stop.kernel`signals, stop.kernel`stops
      ensures stop.Valid() && stop.Advanced() && Valid()
      ensures (old(client.shutdown) ==> client.shutdown) && (old(backend.shutdown) ==> backend.shutdown)
      ensures old(stop.draining) ==> client.shutdown == old(client.shutdown) && backend.shutdown == old(backend.shutdown)
      ensures out.Ok? && !stop.draining ==> Settled() && (done <==> Complete())
      ensures out.Ok? && stop.draining ==> old(stop.draining) && (done <==> fromClient.size == 0 && fromBackend.size == 0)
      ensures out.Failed? ==> out.operation == ShutdownCall
      ensures !out.Ok? ==> old(stop.kernel.faults) < stop.kernel.faults
    {
      hide Session.Valid;
      hide StopControl.Valid;
      out := Ok;
      if stop.draining {
        return fromClient.size == 0 && fromBackend.size == 0, Ok;
      }
      out := ShutdownPass(stop);
      done := client.eof && backend.eof && client.shutdown && backend.shutdown;
    }

    // Transfer; then half-close or, in a drain, check for empty queues. `done` asks the caller
    // to close the session.
    method AdvanceSessionIo(stop: StopControl) returns (done: bool, out: Outcome)
      requires stop.Valid() && Valid() && !connecting
      modifies this`sent, this`lastIoTime, fromClient, fromClient.bytes, fromBackend, fromBackend.bytes, stop
      modifies client`eof, client`paused, client`shutdown, backend`eof, backend`paused, backend`shutdown
      modifies client.socket`input, client.socket`output, client.socket`peerClosed, client.socket`writeShut, client.socket`sendsAfterShut
      modifies client.socket`sending, client.socket`receiving
      modifies backend.socket`input, backend.socket`output, backend.socket`peerClosed, backend.socket`writeShut, backend.socket`sendsAfterShut
      modifies backend.socket`sending, backend.socket`receiving
      modifies stop.kernel
      ensures stop.Valid() && stop.Advanced() && Valid() && Forward(stop)
      ensures old(stop.draining) ==> Ebbed()
      ensures out.Ok? && !stop.draining ==> Settled() && (done <==> Complete())
      ensures out.Ok? ==> WorkDone(0, stop) && WorkDone(1, stop)
      ensures out.Ok? && stop.draining ==> (done <==> fromClient.size == 0 && fromBackend.size == 0)
      ensures out.Failed? ==> out.operation == SendCall || out.operation == SendZero || out.operation == RecvCall
                              || out.operation == ShutdownCall
      ensures !out.Ok? ==> old(stop.kernel.faults) < stop.kernel.faults
      ensures stop.kernel.thrown == old(stop.kernel.thrown)
    {
      hide Session.Ebbed;
      hide Session.Settled;
      hide Session.Complete;
      hide Session.Backpressure;
      hide Session.Valid;
      hide StopControl.Valid;
      TwoCounters();
      done := false;
      out := TransferPasses(stop);
      if old(stop.draining) {
        EbbsWithoutInput();
      }
      if out.Ok? {
        done, out := EndStep(stop);
      }
    }

    // The epoll mask that side d needs now.
    function Wanted(d: Side, draining: bool): Interest
      reads this`connecting, End(d)`eof, End(d)`paused, Queue(1 - d)`size
    {
      if draining then Interest(false, 0 < Queue(1 - d).size, false)
      else if connecting then Interest(false, d == 1, d == 0)
      else Interest(!End(d).eof && !End(d).paused, 0 < Queue(1 - d).size, !End(d).eof && !End(d).paused)
    }

    // Side d waits for exactly what it needs, or a retry of the session is pending.
    ghost predicate Watched(d: Side, draining: bool)
      reads this`connecting, End(d)`eof, End(d)`paused, End(d)`registered, End(d)`interest, End(d)`deferred, Queue(1 - d)`size
    {
      if Wanted(d, draining) == NO_INTEREST then !End(d).registered
      else if End(d).registered then End(d).interest == Wanted(d, draining)
      else 0 < End(d).deferred
    }

    // What every surviving session satisfies between events outside a drain.
    ghost predicate Live()
      reads this`connecting, client, backend, fromClient`size, fromBackend`size
    {
      && Watched(0, false) && Watched(1, false)
      && (!connecting ==> Settled() && !Complete())
    }

    // The kernel's epoll set holds side d with the mask it needs.
    ghost predicate Armed(d: Side)
      reads this`connecting, End(d), Sock(d)`armed, Queue(1 - d)`size
    {
      Sock(d).armed == Some(Registration(End(d).token, Wanted(d, false)))
    }

    // No stranded session: some end is armed, or a retry is pending. A nonempty queue has its
    // destination armed for output and an open, unpaused source is armed for input, unless the
    // end is deferred; the armed mask is the one the kernel holds.
    lemma NeverStranded()
      requires Valid() && Live() && !connecting
      ensures exists d: Side :: 0 < End(d).deferred
                                || (End(d).registered && (End(d).interest.input || End(d).interest.output))
      ensures forall d: Side :: 0 < Queue(1 - d).size && End(d).deferred == 0 ==> Armed(d) && Wanted(d, false).output
      ensures forall d: Side :: !End(d).eof && !End(d).paused && End(d).deferred == 0 ==> Armed(d) && Wanted(d, false).input
      ensures forall d: Side :: End(d).registered ==>
                Sock(d).armed == Some(Registration(End(d).token, Interest(!End(d).eof && !End(d).paused, 0 < Queue(1 - d).size,
                                                                          !End(d).eof && !End(d).paused)))
      ensures forall d: Side :: End(d).paused ==> LOW_WATER < Queue(d).size
    {
      hide RingSlice;
      hide TcpPendingBuffer.Contents;
      if client.deferred == 0 && backend.deferred == 0 {
        if Wanted(0, false) != NO_INTEREST {
          assert End(0).registered;
        } else {
          assert End(1).registered;
        }
      } else {
        assert 0 < End(0).deferred || 0 < End(1).deferred;
      }
    }

    // While the backend connection is pending the backend end is armed for output alone, which is
    // how the connection is reported, and the client end for a hang-up alone, unless deferred.
    lemma ConnectingIsArmed()
      requires Valid() && Live() && connecting
      ensures backend.deferred == 0 ==> backend.socket.armed == Some(Registration(backend.token, Interest(false, true, false)))
      ensures client.deferred == 0 ==> client.socket.armed == Some(Registration(client.token, Interest(false, false, true)))
    {
      hide RingSlice;
      hide TcpPendingBuffer.Contents;
      assert Wanted(0, false) != NO_INTEREST && Wanted(1, false) != NO_INTEREST;
    }

    // In a drain an end is armed exactly when the queue towards it is not empty, for output alone,
    // unless deferred.
    lemma DrainingIsArmed(d: Side)
      requires Valid() && Watched(d, true)
      ensures Queue(1 - d).size == 0 ==> !End(d).registered
      ensures 0 < Queue(1 - d).size && End(d).deferred == 0 ==>
                Sock(d).armed == Some(Registration(End(d).token, Interest(false, true, false)))
    {
      hide RingSlice;
      hide TcpPendingBuffer.Contents;
      assert Wanted(d, true) == Interest(false, 0 < Queue(1 - d).size, false);
    }

    // removeEndpoint: leaves the epoll set; a failing DEL is only reported.
    method RemoveEndpoint(kernel: Kernel, d: Side)
      requires Valid()
      modifies End(d)`registered, End(d)`interest, Sock(d)`armed, kernel`codes
      ensures Valid() && !End(d).registered && End(d).interest == NO_INTEREST
      ensures |kernel.codes| <= |old(kernel.codes)|
      ensures Sock(d).armed == if old(End(d).registered && kernel.NextCode() == 0) then None else old(Sock(d).armed)
      ensures !old(End(d).registered) ==> kernel.codes == old(kernel.codes)
    {
      hide RingSlice;
      hide TcpPendingBuffer.Contents;
      if End(d).registered {
        var error := kernel.Disarm(Sock(d));
      }
      End(d).registered, End(d).interest := false, NO_INTEREST;
    }

    // epoll_ctl ADD or MOD of one end.
    method ArmEndpoint(kernel: Kernel, d: Side, mask: Interest) returns (out: Outcome)
      requires Valid()
      modifies End(d)`registered, End(d)`interest, Sock(d)`armed, kernel`codes, kernel`faults
      ensures Valid() && |kernel.codes| <= |old(kernel.codes)|
      ensures out.Ok? ==> End(d).registered && End(d).interest == mask
      ensures !out.Ok? ==> out.Failed? && out.operation == EpollCtl
      ensures kernel.faults == old(kernel.faults) + if out.Ok? then 0 else 1
    {
      hide RingSlice;
      hide TcpPendingBuffer.Contents;
      var code := kernel.Arm(Sock(d), End(d).token, mask);
      if code != 0 {
        return Failed(EpollCtl, code);
      }
      End(d).registered, End(d).interest := true, mask;
      out := Ok;
    }

    // One side of updateSessionInterests.
    method UpdateInterest(stop: StopControl, d: Side) returns (out: Outcome)
      requires stop.Valid() && Valid()
      modifies End(d)`registered, End(d)`interest, Sock(d)`armed, stop.kernel`codes, stop.kernel`faults, stop.kernel`now, stop.kernel`ticks
      ensures stop.Valid() && stop.Advanced() && Valid()
      ensures out.Ok? ==> Watched(d, stop.draining)
      ensures !out.Ok? ==> out.Failed? && out.operation == EpollCtl
      ensures stop.kernel.faults == old(stop.kernel.faults) + if out.Ok? then 0 else 1
      ensures Wanted(d, stop.draining) != NO_INTEREST && old(End(d).deferred <= stop.kernel.NextNow())
              && old(End(d).registered && End(d).interest == Wanted(d, stop.draining)) ==>
                out.Ok? && stop.kernel.codes == old(stop.kernel.codes)
    {
      hide Session.Valid;
      var now := stop.kernel.Now();
      var mask := Wanted(d, stop.draining);
      if now < End(d).deferred || mask == NO_INTEREST {
        RemoveEndpoint(stop.kernel, d);
        return Ok;
      }
      out := Ok;
      if !End(d).registered || End(d).interest != mask {
        out := ArmEndpoint(stop.kernel, d, mask);
      }
    }

    lemma EndsDiffer()
      requires Valid()
      ensures client != backend && client.socket != backend.socket
    {
    }

    // updateSessionInterests: afterwards both sides are watched.
    method UpdateSessionInterests(stop: StopControl) returns (out: Outcome)
      requires stop.Valid() && Valid()
      modifies client`registered, client`interest, client.socket`armed
      modifies backend`registered, backend`interest, backend.socket`armed
      modifies stop.kernel`codes, stop.kernel`faults, stop.kernel`now, stop.kernel`ticks
      ensures stop.Valid() && stop.Advanced() && Valid()
      ensures out.Ok? ==> Watched(0, stop.draining) && Watched(1, stop.draining)
      ensures !out.Ok? ==> out.Failed? && out.operation == EpollCtl
      ensures stop.kernel.faults == old(stop.kernel.faults) + if out.Ok? then 0 else 1
    {
      hide Session.Valid;
      hide StopControl.Valid;
      EndsDiffer();
      out := UpdateInterest(stop, 0);
      if out.Ok? {
        out := UpdateInterest(stop, 1);
      }
    }

    // The backend connection is established.
    method BecomeConnected(now: nat)
      requires Valid()
      modifies this`connecting, this`lastIoTime
      ensures Valid() && !connecting && lastIoTime == now
    {
      hide RingSlice;
      hide TcpPendingBuffer.Contents;
      connecting, lastIoTime := false, now;
    }

    // The events ask for SO_ERROR: an error is reported, or a pending connect has been decided.
    predicate Asked(d: Side, events: Events)
      reads this`connecting
    {
      events.error || (connecting && d == 1 && (events.output || events.hup))
    }

    // SO_ERROR of side d, which also decides a pending connect.
    method CheckSocketError(stop: StopControl, d: Side, events: Events) returns (out: Outcome)
      requires stop.Valid() && Valid()
      modifies this`connecting, this`lastIoTime, stop.kernel`codes, stop.kernel`faults, stop.kernel`now, stop.kernel`ticks
      ensures stop.Valid() && stop.Advanced() && Valid()
      ensures connecting ==> old(connecting) && lastIoTime == old(lastIoTime)
      ensures !old(connecting) ==> lastIoTime == old(lastIoTime)
      ensures old(connecting) && !connecting ==> old(stop.kernel.now) <= lastIoTime
      ensures old(connecting) ==> (!connecting <==> out.Ok? && d == 1 && (events.output || events.error || events.hup))
      ensures !out.Ok? ==> out.Failed? && (out.operation == SocketErrorCall || out.operation == SocketError)
      ensures stop.kernel.faults == old(stop.kernel.faults) + if out.Ok? then 0 else 1
      ensures !old(Asked(d, events)) ==> out.Ok? && stop.kernel.codes == old(stop.kernel.codes)
      ensures old(Asked(d, events)) ==>
                out == if old(stop.kernel.PeekCode(0)) != 0 then Failed(SocketErrorCall, old(stop.kernel.PeekCode(0)))
                       else if old(stop.kernel.PeekCode(1)) != 0 then Failed(SocketError, old(stop.kernel.PeekCode(1))) else Ok
    {
      hide Session.Valid;
      var connectingEvent := connecting && d == 1 && (events.output || events.error || events.hup);
      if connectingEvent || events.error {
        var code := stop.kernel.Call();
        if code != 0 {
          return Failed(SocketErrorCall, code);
        }
        var error := stop.kernel.Call();
        if error != 0 {
          return Failed(SocketError, error);
        }
        if connectingEvent {
          var now := stop.kernel.Now();
          BecomeConnected(now);
        }
      }
      out := Ok;
    }

    // An idle HUP cannot be masked: suspend the end and let the timer retry it.
    method DeferHangup(stop: StopControl, d: Side)
      requires stop.Valid() && Valid()
      modifies End(d)`registered, End(d)`interest, End(d)`deferred, Sock(d)`armed
      modifies stop.kernel`codes, stop.kernel`now, stop.kernel`ticks
      ensures stop.Valid() && stop.Advanced() && Valid()
      ensures !End(d).registered && old(stop.kernel.now) + HUP_DEFER <= End(d).deferred == stop.kernel.now + HUP_DEFER
    {
      hide RingSlice;
      hide TcpPendingBuffer.Contents;
      hide TcpPendingBuffer.Valid;
      var now := stop.kernel.Now();
      End(d).deferred := now + HUP_DEFER;
      RemoveEndpoint(stop.kernel, d);
    }

    // The end of a step: an idle HUP suspends side d, then both interests are recomputed.
    method Rearm(stop: StopControl, d: Side, idleHup: bool) returns (out: Outcome)
      requires stop.Valid() && Valid()
      modifies client`registered, client`interest, client`deferred, client.socket`armed
      modifies backend`registered, backend`interest, backend`deferred, backend.socket`armed
      modifies stop.kernel`codes, stop.kernel`faults, stop.kernel`now, stop.kernel`ticks
      ensures stop.Valid() && stop.Advanced() && Valid()
      ensures out.Ok? ==> Watched(0, stop.draining) && Watched(1, stop.draining)
      ensures !idleHup ==> client.deferred == old(client.deferred) && backend.deferred == old(backend.deferred)
      ensures idleHup ==> old(stop.kernel.now) + HUP_DEFER <= End(d).deferred && End(1 - d).deferred == old(End(1 - d).deferred)
      ensures !out.Ok? ==> out.Failed? && out.operation == EpollCtl
      ensures stop.kernel.faults == old(stop.kernel.faults) + if out.Ok? then 0 else 1
      ensures HangupSuspends(idleHup, old(Suspended()), Suspended(), d, old(stop.kernel.now))
    {
      hide Session.Valid;
      hide StopControl.Valid;
      EndsDiffer();
      if idleHup {
        DeferHangup(stop, d);
      }
      out := UpdateSessionInterests(stop);
    }

    // Until when the ends are suspended, 0 for not at all.
    ghost function Suspended(): (nat, nat)
      reads client`deferred, backend`deferred
    {
      (client.deferred, backend.deferred)
    }

    // No retry is overdue at time t.
    ghost predicate Punctual(t: nat)
      reads client`deferred, backend`deferred
    {
      (client.deferred == 0 || t < client.deferred) && (backend.deferred == 0 || t < backend.deferred)
    }

    // An established session that still has bytes to send.
    ghost predicate Waiting()
      reads this`connecting, fromClient`size, fromBackend`size
    {
      !connecting && (0 < fromClient.size || 0 < fromBackend.size)
    }

    // What a step leaves behind: `done` sessions are empty or complete; others stay live, or in
    // a drain still have bytes to send, and wait for it.
    ghost predicate Served(draining: bool, done: bool)
      reads this`connecting, client, backend, fromClient`size, fromBackend`size
    {
      if done then !connecting && (if draining then fromClient.size == 0 && fromBackend.size == 0 else Complete())
      else if draining then (connecting || Waiting()) && Watched(0, true) && Watched(1, true)
      else Live()
    }

    lemma StepIsServed(draining: bool)
      ensures !connecting && (if draining then fromClient.size == 0 && fromBackend.size == 0 else Complete()) ==> Served(draining, true)
      ensures Watched(0, draining) && Watched(1, draining)
              && (connecting || (if draining then 0 < fromClient.size || 0 < fromBackend.size else Settled() && !Complete())) ==>
                Served(draining, false)
    {
    }

    // Moves bytes if connected, defers an idle HUP of side d, recomputes the interests.
    method ServeSession(stop: StopControl, d: Side, events: Events) returns (done: bool, out: Outcome)
      requires stop.Valid() && Valid()
      modifies this`sent, this`lastIoTime, fromClient, fromClient.bytes, fromBackend, fromBackend.bytes, stop
      modifies client`eof, client`paused, client`shutdown, client`registered, client`interest, client`deferred
      modifies backend`eof, backend`paused, backend`shutdown, backend`registered, backend`interest, backend`deferred
      modifies client.socket, backend.socket, stop.kernel
      ensures stop.Valid() && stop.Advanced() && Valid() && Forward(stop)
      ensures out.Ok? ==> Served(stop.draining, done)
      ensures !events.hup && !events.rdhup ==> client.deferred == old(client.deferred) && backend.deferred == old(backend.deferred)
      ensures old(stop.draining) ==> Ebbed()
      ensures !out.Ok? ==> !done
      ensures !out.Ok? ==> old(stop.kernel.faults) < stop.kernel.faults
      ensures out.Ok? && !connecting ==> WorkDone(0, stop) && WorkDone(1, stop)
      ensures connecting == old(connecting)
      ensures out.Ok? && !done ==>
                HangupSuspends((events.hup || events.rdhup) && lastIoTime == old(lastIoTime), old(Suspended()), Suspended(), d, old(stop.kernel.now))
      ensures stop.kernel.thrown == old(stop.kernel.thrown)
    {
      hide HangupSuspends;
      hide Session.Served;
      hide Session.Watched;
      hide Session.Live;
      hide Session.Waiting;
      hide StopControl.Valid;
      hide Session.Valid;
      hide Transferred;
      hide Session.Settled;
      hide Session.Complete;
      TwoCounters();
      done, out := false, Ok;
      var before := lastIoTime;
      if !connecting {
        done, out := AdvanceSessionIo(stop);
        if !out.Ok? || done {
          StepIsServed(stop.draining);
          return done && out.Ok?, out;
        }
      }
      ghost var was, from := Suspended(), stop.kernel.now;
      var idleHup := (events.hup || events.rdhup) && lastIoTime == before;
      out := Rearm(stop, d, idleHup);
      HangupEarlier(idleHup, was, Suspended(), d, from, old(stop.kernel.now));
      StepIsServed(stop.draining);
    }

    // The retry test of processSessionDeadlines: clears every deferral that has run out.
    method RetryDeferred(now: nat) returns (retry: bool)
      requires Valid()
      modifies client`deferred, backend`deferred
      ensures Valid()
      ensures retry <==> (0 < old(client.deferred) <= now) || (0 < old(backend.deferred) <= now)
      ensures Punctual(now)
      ensures !retry ==> unchanged(client) && unchanged(backend)
      ensures client.deferred == if old(client.deferred) <= now then 0 else old(client.deferred)
      ensures backend.deferred == if old(backend.deferred) <= now then 0 else old(backend.deferred)
    {
      hide RingSlice;
      hide TcpPendingBuffer.Contents;
      retry := false;
      if client.deferred != 0 && client.deferred <= now {
        client.deferred, retry := 0, true;
      }
      if backend.deferred != 0 && backend.deferred <= now {
        backend.deferred, retry := 0, true;
      }
    }

    method ClearDeferral(d: Side)
      requires Valid()
      modifies End(d)`deferred
      ensures Valid() && End(d).deferred == 0
    {
      hide RingSlice;
      hide TcpPendingBuffer.Contents;
      End(d).deferred := 0;
    }

    // The same test in a drain, against the clock and without a verdict.
    method ExpireDeferred(stop: StopControl)
      requires stop.Valid() && Valid()
      modifies client`deferred, backend`deferred, stop.kernel`now, stop.kernel`ticks
      ensures stop.Valid() && stop.Advanced() && Valid()
      ensures client.deferred == 0 || client.deferred == old(client.deferred)
      ensures backend.deferred == 0 || backend.deferred == old(backend.deferred)
      ensures client.deferred == if old(client.deferred) <= old(stop.kernel.NextNow()) then 0 else old(client.deferred)
      ensures backend.deferred == if old(backend.deferred) <= stop.kernel.now then 0 else old(backend.deferred)
      ensures Punctual(old(stop.kernel.NextNow())) && old(stop.kernel.NextNow()) <= stop.kernel.now
    {
      hide Session.Valid;
      EndsDiffer();
      var t := stop.kernel.Now();
      if client.deferred <= t {
        ClearDeferral(0);
      }
      t := stop.kernel.Now();
      if backend.deferred <= t {
        ClearDeferral(1);
      }
    }

    // A session as acceptClientSessions creates it: connecting, nothing registered or deferred.
    ghost predicate Fresh()
      reads this`connecting, client, backend
    {
      connecting && !client.registered && !backend.registered && client.deferred == backend.deferred == 0
    }

    lemma ConnectingIsUntouched()
      requires Valid() && connecting
      ensures Untouched(0) && Untouched(1)
    {
    }

    // connect: 0 is an immediate connection, EINPROGRESS a pending one.
    method CallConnect(stop: StopControl) returns (out: Outcome)
      requires stop.Valid() && Valid()
      modifies this`connecting, this`lastIoTime, stop.kernel`codes, stop.kernel`faults, stop.kernel`now, stop.kernel`ticks
      ensures stop.Valid() && stop.Advanced() && Valid()
      ensures !out.Ok? ==> out.Failed? && out.operation == ConnectCall
      ensures stop.kernel.faults == old(stop.kernel.faults) + if out.Ok? then 0 else 1
      ensures match old(stop.kernel.NextCode())
              case 0 => out.Ok? && !connecting
              case code => (if code == EINPROGRESS then out.Ok? else out == Failed(ConnectCall, code)) && connecting == old(connecting)
    {
      hide Session.Valid;
      var code := stop.kernel.Connect();
      if code == 0 {
        var now := stop.kernel.Now();
        BecomeConnected(now);
      } else if code != EINPROGRESS {
        return Failed(ConnectCall, code);
      }
      out := Ok;
    }

    // connect and the first interests.
    method BeginConnect(stop: StopControl) returns (out: Outcome)
      requires stop.Valid() && Valid() && Fresh()
      modifies this`connecting, this`lastIoTime, client`registered, client`interest, client.socket`armed
      modifies backend`registered, backend`interest, backend.socket`armed
      modifies stop.kernel`codes, stop.kernel`faults, stop.kernel`now, stop.kernel`ticks
      ensures stop.Valid() && stop.Advanced() && Valid()
      ensures out.Ok? && !stop.draining ==> Live()
      ensures !out.Ok? ==> out.Failed? && (out.operation == ConnectCall || out.operation == EpollCtl)
      ensures stop.kernel.faults == old(stop.kernel.faults) + if out.Ok? then 0 else 1
    {
      hide Session.Valid;
      hide StopControl.Valid;
      ConnectingIsUntouched();
      out := CallConnect(stop);
      if out.Ok? {
        out := UpdateSessionInterests(stop);
      }
    }

    method SetToken(d: Side, token: nat)
      requires Valid() && Fresh()
      modifies End(d)`token
      ensures Valid() && Fresh() && End(d).token == token && connecting
    {
      hide RingSlice;
      hide TcpPendingBuffer.Contents;
      End(d).token := token;
    }

    method OpenBackend()
      requires Valid()
      modifies backend.socket`open
      ensures Valid() && backend.socket.open
    {
      hide RingSlice;
      hide TcpPendingBuffer.Contents;
      backend.socket.open := true;
    }
  }

  // An established session one end of which has sent nothing and closed.
  method HalfOpenSession() returns (s: Session)
    ensures fresh(s) && fresh(s.Footprint()) && s.Valid() && !s.connecting
    ensures s.client.eof && s.fromClient.size == 0 && !s.backend.shutdown
  {
    hide RingSlice;
    hide TcpPendingBuffer.Contents;
    s := new Session(1, 0);
    s.connecting, s.client.eof := false, true;
    s.client.socket.peerClosed := true;
  }

  // An instance: no call has failed for good, one was interrupted once and a stop signal waits. The
  // drain has just begun, and yet the session has failed.
  method InterruptedShutdown() returns (s: Session, stop: StopControl, out: Outcome)
    ensures out == Failed(ShutdownCall, EINTR) && stop.draining && s.client.eof && !s.backend.shutdown
  {
    hide Session.Valid;
    hide StopControl.Valid;
    s := HalfOpenSession();
    s.Members();
    var kernel := new Kernel([], [StopSignal], [], [], [EINTR]);
    stop := new StopControl(kernel, 1);
    StopWaits();
    out := s.ShutdownDestination(stop, 0);
  }

  lemma StopWaits()
    ensures ShutdownOf([EINTR], [StopSignal]) == ShutInterrupted
  {
    assert [StopSignal][1..] == [];
  }
}
