/**
 The kernel as the TCP reactor sees it. Every call consumes one outcome of a finite script
 (an exhausted script answers EAGAIN, success or "no time passed"), so a statement about all
 scripts is a statement about all runs. The ghost fields record what really happened on a
 socket: they are what the stream properties are stated about.
 */
module TcpKernel {
  import opened Common
  import opened TcpState

  // The epoll masks in use are sets of these three bits.
  datatype Interest = Interest(input: bool, output: bool, hangup: bool)
  const NO_INTEREST := Interest(false, false, false)

  datatype Registration = Registration(token: nat, interest: Interest)

  datatype SignalOutcome = StopSignal | NoSignal | SignalIntr | SignalError(signalError: nat)
  datatype SendOutcome = Sent(n: nat) | SendIntr | SendAgain | SendError(sendError: nat)
  datatype RecvOutcome = Received(n: nat) | RecvIntr | RecvAgain | RecvError(recvError: nat)
  datatype Arrival = Data(bytes: seq<Byte>) | ArrivalIntr | ArrivalError(arrivalError: nat)
                   | NothingYet

  const EINTR: nat := 4
  const EIO: nat := 5
  const EAGAIN: nat := 11
  const ENOMEM: nat := 12
  const ENFILE: nat := 23
  const EMFILE: nat := 24
  const ENONET: nat := 64
  const EPROTO: nat := 71
  const ENOPROTOOPT: nat := 92
  const EOPNOTSUPP: nat := 95
  const ENETDOWN: nat := 100
  const ENETUNREACH: nat := 101
  const ECONNABORTED: nat := 103
  const ENOBUFS: nat := 105
  const ETIMEDOUT: nat := 110
  const EHOSTDOWN: nat := 112
  const EHOSTUNREACH: nat := 113
  const EINPROGRESS: nat := 115

  // The calls made so far in one direction, and whether the last one answered EAGAIN.
  datatype Attempts = Attempts(calls: nat, refused: bool)

  // Tried again since `before`, until the kernel would take or give no more.
  ghost predicate Refused(before: Attempts, after: Attempts) {
    after.refused && before.calls < after.calls
  }

  class Socket {
    ghost var input: seq<Byte>      // everything recv has taken from this socket
    ghost var output: seq<Byte>     // everything send has handed to this socket
    ghost var peerClosed: bool      // recv has returned 0
    ghost var writeShut: bool       // SHUT_WR has succeeded
    ghost var sendsAfterShut: nat   // send calls made after that
    ghost var sending: Attempts
    ghost var receiving: Attempts
    ghost var armed: Option<Registration>  // its entry in the epoll set
    var open: bool

    constructor (open: bool)
      ensures input == output == [] && !peerClosed && !writeShut && sendsAfterShut == 0
      ensures armed == None && this.open == open
    {
      input, output, peerClosed, writeShut, sendsAfterShut := [], [], false, false, 0;
      sending, receiving := Attempts(0, false), Attempts(0, false);
      armed, this.open := None, open;
    }
  }

  class Kernel {
    var now: nat
    var ticks: seq<nat>             // time that passes before each clock read
    var signals: seq<SignalOutcome>
    var sends: seq<SendOutcome>
    var arrivals: seq<Arrival>
    var codes: seq<nat>             // results of the remaining calls, 0 or an errno

    ghost var stops: nat            // stop signals handed out so far
    ghost var recvsAfterStop: nat
    ghost var acceptsAfterStop: nat
    ghost var attempts: nat         // accept calls that were not interrupted
    ghost var clients: nat          // accepted so far
    ghost var acceptDry: bool       // the last accept found no client, or no resources for one
    ghost var noBackend: nat        // times the backend selector had none to offer
    ghost var listensAfterStop: nat // times the listener was armed again after a stop
    ghost var faults: nat           // calls that failed where the reactor cannot just go on
    ghost var thrown: nat           // of those, callbacks of closing a session

    constructor (ticks: seq<nat>, signals: seq<SignalOutcome>, sends: seq<SendOutcome>,
                 arrivals: seq<Arrival>, codes: seq<nat>)
      ensures Quiet() && stops == 0 && faults == thrown == 0 && this.signals == signals && this.codes == codes
    {
      now, this.ticks, this.signals, this.sends := 0, ticks, signals, sends;
      this.arrivals, this.codes := arrivals, codes;
      stops, recvsAfterStop, acceptsAfterStop, listensAfterStop := 0, 0, 0, 0;
      attempts, clients, noBackend, faults, thrown, acceptDry := 0, 0, 0, 0, 0, false;
    }

    // Nothing was received, accepted or listened for after the first stop signal.
    ghost predicate Quiet()
      reads this`recvsAfterStop, this`acceptsAfterStop, this`listensAfterStop
    {
      recvsAfterStop == 0 && acceptsAfterStop == 0 && listensAfterStop == 0
    }

    // The time the next clock read will show.
    function NextNow(): nat
      reads this`now, this`ticks
    {
      if ticks == [] then now else now + ticks[0]
    }

    method Now() returns (t: nat)
      modifies this`now, this`ticks
      ensures t == now == old(NextNow()) >= old(now)
    {
      if ticks != [] {
        now, ticks := now + ticks[0], ticks[1..];
      }
      t := now;
    }

    method ReadSignal() returns (r: SignalOutcome)
      modifies this`signals, this`stops, this`faults
      ensures |signals| < |old(signals)| || (r == NoSignal && signals == old(signals) == [])
      ensures old(signals) != [] ==> r == old(signals)[0] && signals == old(signals)[1..]
      ensures stops == old(stops) + if r == StopSignal then 1 else 0
      ensures faults == old(faults) + if r.SignalError? then 1 else 0
    {
      if signals == [] {
        return NoSignal;
      }
      r, signals := signals[0], signals[1..];
      if r == StopSignal {
        stops := stops + 1;
      }
      faults := faults + if r.SignalError? then 1 else 0;
    }

    // The result the next such call will have.
    function NextCode(): nat
      reads this`codes
    {
      if codes == [] then 0 else codes[0]
    }

    function PeekCode(k: nat): nat
      reads this`codes
    {
      if k < |codes| then codes[k] else 0
    }

    // A call whose result decides nothing by itself.
    method Code() returns (code: nat)
      modifies this`codes
      ensures code == old(NextCode())
      ensures |codes| < |old(codes)| || (code == 0 && codes == old(codes) == [])
      ensures old(codes) != [] ==> codes == old(codes)[1..]
    {
      if codes == [] {
        return 0;
      }
      code, codes := codes[0], codes[1..];
    }

    // The result of any other call: 0 or an errno.
    method Call() returns (code: nat)
      modifies this`codes, this`faults
      ensures |codes| < |old(codes)| || (code == 0 && codes == old(codes) == [])
      ensures old(codes) != [] ==> code == old(codes)[0] && codes == old(codes)[1..]
      ensures faults == old(faults) + if code == 0 then 0 else 1
    {
      code := Code();
      faults := faults + if code == 0 then 0 else 1;
    }

    // A callback of closing a session: 0, or the exception it throws.
    method Callback() returns (code: nat)
      modifies this`codes, this`faults, this`thrown
      ensures |codes| < |old(codes)| || (code == 0 && codes == old(codes) == [])
      ensures old(codes) != [] ==> code == old(codes)[0] && codes == old(codes)[1..]
      ensures faults == old(faults) + if code == 0 then 0 else 1
      ensures thrown == old(thrown) + if code == 0 then 0 else 1
    {
      code := Call();
      thrown := thrown + if code == 0 then 0 else 1;
    }

    function NextSend(): SendOutcome
      reads this`sends
    {
      if sends == [] then SendAgain else sends[0]
    }

    // send: hands a nonempty prefix of the span to the socket, or answers 0 or an error.
    method Send(socket: Socket, buffer: array<Byte>, offset: nat, length: nat)
      returns (r: SendOutcome)
      requires offset + length <= buffer.Length
      modifies this`sends, this`faults, socket`output, socket`sendsAfterShut, socket`sending
      ensures r == match old(NextSend()) case Sent(n) => Sent(Min(n, length)) case other => other
      ensures faults == old(faults) + if r.SendError? || r == Sent(0) then 1 else 0
      ensures r.Sent? ==> r.n <= length && socket.output == old(socket.output) + buffer[offset..offset + r.n]
      ensures !r.Sent? ==> socket.output == old(socket.output)
      ensures socket.sending == Attempts(old(socket.sending.calls) + 1, r.SendAgain?)
      ensures |sends| < |old(sends)| || (r.SendAgain? && sends == old(sends))
      ensures !socket.writeShut ==> socket.sendsAfterShut == old(socket.sendsAfterShut)
    {
      if socket.writeShut {
        socket.sendsAfterShut := socket.sendsAfterShut + 1;
      }
      if sends == [] {
        socket.sending := Attempts(socket.sending.calls + 1, true);
        return SendAgain;
      }
      r, sends := sends[0], sends[1..];
      faults := faults + if r.SendError? || (r.Sent? && Min(r.n, length) == 0) then 1 else 0;
      socket.sending := Attempts(socket.sending.calls + 1, r.SendAgain?);
      if r.Sent? {
        r := Sent(Min(r.n, length));
        socket.output := socket.output + buffer[offset..offset + r.n];
      }
    }

    function NextArrival(): Arrival
      reads this`arrivals
    {
      if arrivals == [] then NothingYet else arrivals[0]
    }

    // recv: fills a prefix of the span with the next bytes of the peer, 0 bytes meaning EOF.
    method Recv(socket: Socket, buffer: array<Byte>, offset: nat, length: nat)
      returns (r: RecvOutcome)
      requires offset + length <= buffer.Length && 0 < length
      modifies this`arrivals, this`faults, this`recvsAfterStop, socket`input, socket`peerClosed, socket`receiving, buffer
      ensures match old(NextArrival())
              case NothingYet => r == RecvAgain
              case ArrivalIntr => r == RecvIntr
              case ArrivalError(e) => r == RecvError(e)
              case Data(bytes) => r == Received(Min(|bytes|, length)) && buffer[offset..offset + r.n] == bytes[..r.n]
      ensures faults == old(faults) + if r.RecvError? then 1 else 0
      ensures stops == 0 ==> recvsAfterStop == old(recvsAfterStop)
      ensures |arrivals| < |old(arrivals)| || (r.RecvAgain? && arrivals == old(arrivals))
      ensures socket.receiving == Attempts(old(socket.receiving.calls) + 1, r.RecvAgain?)
      ensures r.Received? ==> r.n <= length
      ensures r.Received? ==> socket.input == old(socket.input) + buffer[offset..offset + r.n]
      ensures r.Received? ==> buffer[..] == old(buffer[..offset]) + buffer[offset..offset + r.n] + old(buffer[offset + r.n..])
      ensures !r.Received? ==> socket.input == old(socket.input) && buffer[..] == old(buffer[..])
      ensures socket.peerClosed <==> old(socket.peerClosed) || r == Received(0)
    {
      if 0 < stops {
        recvsAfterStop := recvsAfterStop + 1;
      }
      if arrivals == [] {
        socket.receiving := Attempts(socket.receiving.calls + 1, true);
        return RecvAgain;
      }
      var a := arrivals[0];
      arrivals := arrivals[1..];
      socket.receiving := Attempts(socket.receiving.calls + 1, a.NothingYet?);
      match a {
        case NothingYet => r := RecvAgain;
        case ArrivalIntr => r := RecvIntr;
        case ArrivalError(e) =>
          r, faults := RecvError(e), faults + 1;
        case Data(bytes) =>
          var n := Min(|bytes|, length);
          forall i | 0 <= i < n {
            buffer[offset + i] := bytes[i];
          }
          assert buffer[offset..offset + n] == bytes[..n];
          socket.input := socket.input + buffer[offset..offset + n];
          socket.peerClosed := socket.peerClosed || n == 0;
          r := Received(n);
      }
    }

    method ShutdownWrite(socket: Socket) returns (code: nat)
      modifies this`codes, this`faults, socket`writeShut
      ensures |codes| < |old(codes)| || (code == 0 && codes == old(codes) == [])
      ensures old(codes) != [] ==> code == old(codes)[0] && codes == old(codes)[1..]
      ensures socket.writeShut <==> old(socket.writeShut) || code == 0
      ensures faults == old(faults) + if code == 0 then 0 else 1
    {
      code := Call();
      if code == 0 {
        socket.writeShut := true;
      }
    }

    // epoll_ctl ADD or MOD of a session socket.
    method Arm(socket: Socket, token: nat, interest: Interest) returns (code: nat)
      modifies this`codes, this`faults, socket`armed
      ensures socket.armed == if code == 0 then Some(Registration(token, interest)) else old(socket.armed)
      ensures |codes| <= |old(codes)|
      ensures code == old(NextCode()) && faults == old(faults) + if code == 0 then 0 else 1
    {
      code := Call();
      if code == 0 {
        socket.armed := Some(Registration(token, interest));
      }
    }

    // epoll_ctl DEL of a session socket; ENOENT and EBADF are answered as success. A failure is only
    // reported.
    method Disarm(socket: Socket) returns (code: nat)
      modifies this`codes, socket`armed
      ensures socket.armed == if code == 0 then None else old(socket.armed)
      ensures |codes| <= |old(codes)|
      ensures code == old(NextCode())
      ensures codes == if old(codes) == [] then [] else old(codes)[1..]
    {
      code := Code();
      if code == 0 {
        socket.armed := None;
      }
    }

    // Results of accept4 that are no failure of the service.
    static predicate Tolerable(code: nat) {
      code in {0, EAGAIN, EINTR, ECONNABORTED, EPROTO, ENETDOWN, ENOPROTOOPT, EHOSTDOWN, ENONET, EHOSTUNREACH, EOPNOTSUPP,
               ENETUNREACH, EMFILE, ENFILE, ENOBUFS, ENOMEM}
    }

    // connect: EINPROGRESS is a connection that is still pending.
    method Connect() returns (code: nat)
      modifies this`codes, this`faults
      ensures code == old(NextCode()) && |codes| <= |old(codes)|
      ensures faults == old(faults) + if code == 0 || code == EINPROGRESS then 0 else 1
    {
      code := Code();
      faults := faults + if code == 0 || code == EINPROGRESS then 0 else 1;
    }

    // accept4 on the listener.
    method Accept() returns (code: nat)
      modifies this`codes, this`faults, this`acceptsAfterStop, this`clients, this`attempts, this`acceptDry
      ensures attempts == old(attempts) + if code == EINTR then 0 else 1
      ensures clients == old(clients) + if code == 0 then 1 else 0
      ensures stops == 0 ==> acceptsAfterStop == old(acceptsAfterStop)
      ensures |codes| < |old(codes)| || (code == 0 && codes == old(codes) == [])
      ensures code == old(NextCode()) && faults == old(faults) + if Tolerable(code) then 0 else 1
      ensures old(codes) != [] ==> codes == old(codes)[1..]
      ensures acceptDry == (code in {EAGAIN, EMFILE, ENFILE, ENOBUFS, ENOMEM})
    {
      if 0 < stops {
        acceptsAfterStop := acceptsAfterStop + 1;
      }
      code := Code();
      faults := faults + if Tolerable(code) then 0 else 1;
      clients := clients + if code == 0 then 1 else 0;
      acceptDry := code in {EAGAIN, EMFILE, ENFILE, ENOBUFS, ENOMEM};
      attempts := attempts + if code == EINTR then 0 else 1;
    }

    // The backend selector: 0 for a backend, 1 for none, anything else for an exception.
    method SelectBackend() returns (code: nat)
      modifies this`codes, this`faults, this`noBackend
      ensures |codes| <= |old(codes)|
      ensures noBackend == old(noBackend) + if code == 1 then 1 else 0
      ensures code == old(NextCode()) && faults == old(faults) + if code <= 1 then 0 else 1
    {
      code := Code();
      faults := faults + if code <= 1 then 0 else 1;
      noBackend := noBackend + if code == 1 then 1 else 0;
    }

    // epoll_ctl ADD of the listener.
    method ArmListener() returns (code: nat)
      modifies this`codes, this`faults, this`listensAfterStop
      ensures stops == 0 ==> listensAfterStop == old(listensAfterStop)
      ensures |codes| <= |old(codes)|
      ensures faults == old(faults) + if code == 0 then 0 else 1
    {
      if 0 < stops {
        listensAfterStop := listensAfterStop + 1;
      }
      code := Call();
    }
  }
}
