/**
 The UDP reactor (src/net/UdpReactor.cpp): flow creation and closing, expiry, forwarding in both
 directions, and the accounting of datagrams. System calls, the clock and every callback but the
 statistics one are finite scripts; a callback may throw wherever it is called.
 */
module UdpReactor {
  import opened Common
  import opened UdpFlows
  import opened Metrics

  const PAYLOAD_LIMIT: nat := 65507
  const RECEIVE_BUDGET: nat := 64
  const SEND_ATTEMPTS: nat := 4
  const NO_TOKEN: nat := 0
  const LISTENER: nat := 1
  const SIGNALS: nat := 2

  const EINTR: nat := 4
  const EIO: nat := 5
  const EBADF: nat := 9
  const EAGAIN: nat := 11
  const ENOMEM: nat := 12
  const EACCES: nat := 13
  const EINVAL: nat := 22
  const ENOTSOCK: nat := 88
  const EMSGSIZE: nat := 90
  const ENETUNREACH: nat := 101
  const ECONNRESET: nat := 104
  const ENOBUFS: nat := 105
  const ECONNREFUSED: nat := 111
  const EHOSTUNREACH: nat := 113

  predicate IsResourcePressure(e: nat) {
    e == EAGAIN || e == ENOBUFS || e == ENOMEM || e == EMSGSIZE
  }

  predicate IsSharedSocketError(e: nat) {
    IsResourcePressure(e) || e == ECONNREFUSED || e == ECONNRESET || e == ENETUNREACH || e == EHOSTUNREACH || e == EACCES
  }

  // The errors that end the service, at least when they come from the shared listener.
  predicate IsFatal(e: nat) {
    e == EBADF || e == ENOTSOCK || e == EINVAL || !IsSharedSocketError(e)
  }

  // An error of a socket that ends the service.
  predicate EndsService(e: nat, listener: bool) {
    e == EBADF || e == ENOTSOCK || e == EINVAL || (listener && !IsSharedSocketError(e))
  }

  // How a failed receive of a flow ends: an interrupted one is repeated, an empty socket is left
  // alone, a bad one ends the service, and but for a lack of resources the flow is closed.
  ghost predicate BackendError(e: nat, more: bool, ok: bool, alive: bool) {
    if e == EINTR || e == EAGAIN then ok && alive && (more <==> e == EINTR)
    else !more && (EndsService(e, false) ==> !ok) && (alive <==> EndsService(e, false) || IsResourcePressure(e))
  }

  // How EPOLLERR is handled, by the results of getsockopt and of SO_ERROR: a failed getsockopt ends
  // the service for the listener or a bad descriptor and closes the flow otherwise; a pending error
  // is treated like one of a call.
  ghost predicate SocketErrorEnds(failed: nat, code: nat, listener: bool, reports: bool, done: bool, ok: bool, alive: bool) {
    if failed != 0 then
      done && if listener || failed == EBADF || failed == ENOTSOCK then !ok && (alive || listener) else !alive
    else if !reports then !done && !ok
    else if code == 0 then !done && ok
    else
      (EndsService(code, listener) ==> done && !ok)
      && (!EndsService(code, listener) ==> (done <==> !listener && !IsResourcePressure(code)) && (done ==> !alive))
  }

  // What happens while one flow is closed: epoll removal, then three callbacks.
  datatype CloseOutcome = CloseOutcome(detachFails: bool, diagnosticThrows: bool, observationThrows: bool, flowThrows: bool)
  datatype CloseStep = ByDiagnostic | ByObservation | ByFlowEvent

  // The first failure of a close, which is the one that is kept.
  function FirstThrow(o: CloseOutcome): Option<CloseStep> {
    if o.detachFails && o.diagnosticThrows then Some(ByDiagnostic)
    else if o.observationThrows then Some(ByObservation)
    else if o.flowThrows then Some(ByFlowEvent)
    else None
  }

  function Noted(failures: seq<CloseStep>, failure: Option<CloseStep>): seq<CloseStep> {
    if failure.Some? then failures + [failure.value] else failures
  }

  // What is left of a script after n steps.
  function Skip<T>(script: seq<T>, n: nat): seq<T> {
    if n <= |script| then script[n..] else []
  }

  lemma SkipMore<T>(script: seq<T>, n: nat, k: nat)
    ensures Skip(Skip(script, n), k) == Skip(script, n + k)
    ensures Skip(script, 0) == script
  {
  }

  // The next n closes, and the next n set-up calls, succeed.
  ghost predicate Calm(closes: seq<CloseOutcome>, n: nat) {
    forall i :: 0 <= i < n && i < |closes| ==> FirstThrow(closes[i]) == None
  }

  ghost predicate Fine(codes: seq<nat>, n: nat) {
    forall i :: 0 <= i < n && i < |codes| ==> codes[i] == 0
  }

  lemma FineMore(codes: seq<nat>, n: nat, k: nat)
    ensures Fine(codes, n + k) <==> Fine(codes, n) && Fine(Skip(codes, n), k)
  {
    if n <= |codes| {
      forall i | n <= i < n + k && i < |codes|
        ensures codes[i] == Skip(codes, n)[i - n]
      {
      }
    }
  }

  lemma CalmMore(closes: seq<CloseOutcome>, n: nat)
    ensures Calm(closes, 0) && FirstThrow(CloseOutcome(false, false, false, false)) == None
    ensures Calm(closes, n + 1) <==> Calm(closes, n) && (n < |closes| ==> FirstThrow(closes[n]) == None)
    ensures forall k: nat :: k <= n && Calm(closes, n) ==> Calm(closes, k)
  {
  }

  lemma NotCalm(closes: seq<CloseOutcome>, k: nat, n: nat)
    requires !Calm(closes, k) && k <= n
    ensures !Calm(closes, n)
  {
  }

  // One of the two callbacks that announce a new flow throws.
  predicate AnnounceThrows(throws: seq<bool>) {
    (0 < |throws| && throws[0]) || (1 < |throws| && throws[1])
  }

  function Less(a: nat, n: nat): nat {
    if n <= a then a - n else 0
  }

  datatype Selection = SelectorThrows | NoBackend | Selected(backend: Endpoint)
  datatype Receive = ReceiveError(error: nat) | Received(size: nat, truncated: bool, key: Option<UdpFlowKey>)

  // A datagram that will be forwarded to a backend.
  predicate IsRequest(r: Receive) {
    r.Received? && !r.truncated && r.size <= PAYLOAD_LIMIT && r.key.Some?
  }

  // A datagram that will be forwarded to a client.
  predicate IsReply(r: Receive) {
    r.Received? && !r.truncated && r.size <= PAYLOAD_LIMIT
  }

  datatype Send = SendError(error: nat) | SentBytes(n: nat)
  // What up to `attempts` sends come to: those that are interrupted are repeated.
  ghost function AnswerOf(sends: seq<Send>, attempts: nat): Send {
    if attempts == 0 then SendError(EINTR)
    else if sends == [] then SendError(EAGAIN)
    else if sends[0] == SendError(EINTR) then AnswerOf(sends[1..], attempts - 1) else sends[0]
  }

  // They come to a submission exactly if one of them is one and all before it are interrupted.
  lemma {:induction false} AnswerIsSubmission(sends: seq<Send>, attempts: nat, size: nat)
    ensures AnswerOf(sends, attempts) == SentBytes(size) <==>
            exists k :: 0 <= k < attempts && k < |sends| && sends[k] == SentBytes(size) && forall j :: 0 <= j < k ==> sends[j] == SendError(EINTR)
    decreases attempts
  {
    if attempts > 0 && sends != [] && sends[0] == SendError(EINTR) {
      AnswerIsSubmission(sends[1..], attempts - 1, size);
      if k :| 0 <= k < attempts && k < |sends| && sends[k] == SentBytes(size) && forall j :: 0 <= j < k ==> sends[j] == SendError(EINTR) {
        assert sends[1..][k - 1] == SentBytes(size) && forall j :: 0 <= j < k - 1 ==> sends[1..][j] == sends[j + 1];
      }
      if k :| 0 <= k < attempts - 1 && k < |sends| - 1 && sends[1..][k] == SentBytes(size)
              && forall j :: 0 <= j < k ==> sends[1..][j] == SendError(EINTR) {
        assert sends[k + 1] == SentBytes(size) && forall j :: 1 <= j < k + 1 ==> sends[j] == sends[1..][j - 1];
      }
    }
  }

  // The kernel takes the datagram as a whole and sends it along the route, or nothing is sent.
  ghost predicate Sends(before: seq<Submission>, after: seq<Submission>, sends: seq<Send>, route: Route, size: nat) {
    after == if AnswerOf(sends, SEND_ATTEMPTS) == SentBytes(size) then before + [Submission(route, size)] else before
  }

  datatype Route = ToBackend(backend: Endpoint) | ToClient(client: Endpoint, localAddress: seq<nat>)
  datatype Submission = Submission(route: Route, size: nat)
  datatype Signal = StopSignal | NoSignal | SignalError
  datatype Wait = Interrupted | WaitError | Events(ready: seq<Ready>)
  datatype Ready = Ready(token: nat, error: bool, hangup: bool, input: bool)

  // An event that reports a hang-up of the listener.
  ghost predicate ListenerHangsUp(ready: seq<Ready>) {
    exists i :: 0 <= i < |ready| && ready[i].token == LISTENER && ready[i].hangup
  }

  class UdpHost {
    var now: nat
    var ticks: seq<nat>
    var closes: seq<CloseOutcome>
    var throws: seq<bool>          // the other callbacks, in the order of their calls
    var selections: seq<Selection>
    var codes: seq<nat>            // set-up calls: 0 or an errno
    var receives: seq<Receive>
    var sends: seq<Send>
    var signals: seq<Signal>
    var waits: seq<Wait>
    ghost var setupFailures: nat           // set-up calls that failed
    ghost var receiveCalls: nat
    ghost var sources: seq<nat>            // the tokens of the sockets received from, LISTENER for the listener
    ghost var dry: bool                    // the last receive returned an error other than EINTR
    ghost var submitted: seq<Submission>   // datagrams the kernel took completely
    ghost var failures: seq<CloseStep>     // of the closes so far, one for each that failed
    ghost var stops: nat                   // stop signals read so far
    ghost var thrown: nat                  // callbacks that threw and signal reads that failed, so far
    ghost var maintained: nat              // maintenance callbacks so far
    ghost var faults: nat                  // callbacks that threw and calls that failed for good, so far

    constructor (ticks: seq<nat>, closes: seq<CloseOutcome>, throws: seq<bool>, selections: seq<Selection>,
                 codes: seq<nat>, receives: seq<Receive>, sends: seq<Send>, signals: seq<Signal>, waits: seq<Wait>)
      ensures submitted == [] && faults == 0 && now == 0 && this.ticks == ticks && this.closes == closes && this.throws == throws
      ensures this.selections == selections && this.codes == codes
    {
      now, this.ticks, this.closes, this.throws, this.selections := 0, ticks, closes, throws, selections;
      this.codes, this.receives, this.sends, submitted, failures := codes, receives, sends, [], [];
      this.signals, this.waits, setupFailures, receiveCalls, dry, faults, stops, sources, thrown, maintained := signals, waits, 0, 0, false, 0, 0, [], 0, 0;
    }

    // The outcome of the next close.
    function NextClose(): CloseOutcome
      reads this`closes
    {
      if closes == [] then CloseOutcome(false, false, false, false) else closes[0]
    }

    function NextReceive(): Receive
      reads this`receives
    {
      if receives == [] then ReceiveError(EAGAIN) else receives[0]
    }

    // The time the next clock read will show.
    function NextNow(): nat
      reads this`now, this`ticks
    {
      if ticks == [] then now else now + ticks[0]
    }

    method Now() returns (t: nat)
      modifies this`now, this`ticks
      ensures ticks == Skip(old(ticks), 1)
      ensures t == now == old(NextNow()) >= old(now)
    {
      if ticks != [] {
        now, ticks := now + ticks[0], ticks[1..];
      }
      t := now;
    }

    method Close() returns (o: CloseOutcome)
      modifies this`closes, this`failures, this`faults, this`thrown
      ensures closes == Skip(old(closes), 1)
      ensures o == old(NextClose()) && failures == Noted(old(failures), FirstThrow(o))
      ensures faults == old(faults) + if FirstThrow(o) == None then 0 else 1
      ensures thrown == old(thrown) + if FirstThrow(o) == None then 0 else 1
    {
      o := NextClose();
      failures := Noted(failures, FirstThrow(o));
      faults, thrown := faults + (if FirstThrow(o) == None then 0 else 1), thrown + (if FirstThrow(o) == None then 0 else 1);
      if closes != [] {
        closes := closes[1..];
      }
    }

    // The next callback does not throw.
    predicate NextReportOk()
      reads this`throws
    {
      throws == [] || !throws[0]
    }

    // reportDiagnostic, reportObservation or a flow event; false when the callback throws.
    method Report() returns (ok: bool)
      modifies this`throws, this`faults, this`thrown
      ensures ok <==> old(NextReportOk())
      ensures throws == Skip(old(throws), 1)
      ensures faults == old(faults) + if ok then 0 else 1
      ensures thrown == old(thrown) + if ok then 0 else 1
    {
      ok := throws == [] || !throws[0];
      faults, thrown := faults + (if ok then 0 else 1), thrown + (if ok then 0 else 1);
      if throws != [] {
        throws := throws[1..];
      }
    }

    // The maintenance callback.
    method Maintain() returns (ok: bool)
      modifies this`throws, this`faults, this`thrown, this`maintained
      ensures maintained == old(maintained) + 1 && faults == old(faults) + (if ok then 0 else 1)
      ensures thrown == old(thrown) + if ok then 0 else 1
    {
      ok := Report();
      maintained := maintained + 1;
    }

    method Select() returns (s: Selection)
      modifies this`selections, this`faults, this`thrown
      ensures selections == Skip(old(selections), 1)
      ensures s == if old(selections) == [] then NoBackend else old(selections)[0]
      ensures faults == old(faults) + if s.SelectorThrows? then 1 else 0
      ensures thrown == old(thrown) + if s.SelectorThrows? then 1 else 0
    {
      if selections == [] {
        return NoBackend;
      }
      s, selections := selections[0], selections[1..];
      faults, thrown := faults + (if s.SelectorThrows? then 1 else 0), thrown + (if s.SelectorThrows? then 1 else 0);
    }

    method Code() returns (code: nat)
      modifies this`codes, this`setupFailures, this`faults
      ensures code == (if old(codes) == [] then 0 else old(codes)[0]) && codes == Skip(old(codes), 1)
      ensures setupFailures == old(setupFailures) + if code == 0 then 0 else 1
      ensures faults == old(faults) + if code != 0 && IsFatal(code) then 1 else 0
    {
      if codes == [] {
        return 0;
      }
      code, codes := codes[0], codes[1..];
      setupFailures := setupFailures + if code == 0 then 0 else 1;
      faults := faults + if code != 0 && IsFatal(code) then 1 else 0;
    }

    // The k-th result of a set-up call from now.
    function PeekCode(k: nat): nat
      reads this`codes
    {
      if k < |codes| then codes[k] else 0
    }

    // getsockopt for SO_ERROR, which must not fail on the listener: 0 or an errno.
    method ReadOption() returns (code: nat)
      modifies this`codes, this`setupFailures, this`faults
      ensures code == (if old(codes) == [] then 0 else old(codes)[0]) && codes == Skip(old(codes), 1)
      ensures setupFailures == old(setupFailures) + if code == 0 then 0 else 1
      ensures faults >= old(faults) && (code != 0 ==> faults > old(faults))
    {
      code := Code();
      faults := faults + if code == 0 then 0 else 1;
    }

    method Receive(token: nat) returns (r: Receive)
      modifies this`receives, this`receiveCalls, this`dry, this`faults, this`sources
      ensures r == old(NextReceive())
      ensures receiveCalls == old(receiveCalls) + 1 && dry == (r.ReceiveError? && r.error != EINTR)
      ensures faults == old(faults) + if r.ReceiveError? && r.error != EINTR && IsFatal(r.error) then 1 else 0
      ensures receives == Skip(old(receives), 1)
      ensures sources == old(sources) + [token]
    {
      r := ReceiveError(EAGAIN);
      if receives != [] {
        r, receives := receives[0], receives[1..];
      }
      sources := sources + [token];
      faults := faults + if r.ReceiveError? && r.error != EINTR && IsFatal(r.error) then 1 else 0;
      receiveCalls, dry := receiveCalls + 1, r.ReceiveError? && r.error != EINTR;
    }

    // The end of the script is a stop signal.
    method ReadSignal() returns (r: Signal)
      modifies this`signals, this`faults, this`thrown, this`stops
      ensures |signals| < |old(signals)| || r == StopSignal
      ensures old(signals) != [] ==> r == old(signals)[0]
      ensures |signals| <= |old(signals)|
      ensures faults == old(faults) + if r == SignalError then 1 else 0
      ensures stops == old(stops) + if r == StopSignal then 1 else 0
      ensures thrown == old(thrown) + if r == SignalError then 1 else 0
    {
      if signals == [] {
        stops := stops + 1;
        return StopSignal;
      }
      r, signals := signals[0], signals[1..];
      stops := stops + if r == StopSignal then 1 else 0;
      faults, thrown := faults + (if r == SignalError then 1 else 0), thrown + (if r == SignalError then 1 else 0);
    }

    method WaitForEvents() returns (w: Wait)
      modifies this`waits, this`faults
      ensures old(waits) != [] ==> w == old(waits)[0]
      ensures faults == old(faults) + if w.WaitError? || (w.Events? && ListenerHangsUp(w.ready)) then 1 else 0
      ensures waits == Skip(old(waits), 1)
    {
      if waits == [] {
        return Events([]);
      }
      w, waits := waits[0], waits[1..];
      faults := faults + if w.WaitError? || (w.Events? && ListenerHangsUp(w.ready)) then 1 else 0;
    }

    function NextSend(): Send
      reads this`sends
    {
      if sends == [] then SendError(EAGAIN) else sends[0]
    }

    method Send(route: Route, size: nat) returns (r: Send)
      modifies this`sends, this`submitted, this`faults
      ensures submitted == if r == SentBytes(size) then old(submitted) + [Submission(route, size)] else old(submitted)
      ensures r == old(NextSend()) && sends == Skip(old(sends), 1)
      ensures faults == old(faults) + if r.SendError? && r.error != EINTR && IsFatal(r.error) then 1 else 0
    {
      if sends == [] {
        return SendError(EAGAIN);
      }
      r, sends := sends[0], sends[1..];
      faults := faults + if r.SendError? && r.error != EINTR && IsFatal(r.error) then 1 else 0;
      if r == SentBytes(size) {
        submitted := submitted + [Submission(route, size)];
      }
    }
  }

  class UdpReactor {
    const host: UdpHost
    const metrics: MetricsCollector
    const maxFlows: nat
    const idleTimeout: nat
    var flows: map<nat, UdpFlow>
    var flowTokensByKey: map<UdpFlowKey, nat>
    var nextFlowToken: nat
    ghost var bound: map<nat, Binding>
    ghost var acquired: nat       // datagrams received from the listener or a backend
    ghost var handled: seq<Ready> // the events dispatched so far
    ghost var lost: nat           // of those, the ones that no event accounts for

    ghost function AsTable(): Table
      reads this`flows, this`flowTokensByKey, this`nextFlowToken, this`bound
    {
      Table(flows, flowTokensByKey, nextFlowToken, bound)
    }

    // Datagram and dropped events so far.
    ghost function Events(): nat
      requires metrics.Valid()
      reads metrics
    {
      Sum(metrics.exact)
    }

    // The events of one kind so far.
    ghost function Count(kind: StatKind): nat
      reads metrics
    {
      if |metrics.exact| == KINDS then metrics.exact[Slot(kind)] else 0
    }

    // Everything but the accounting; `d` is what the gauge may be ahead of the table. The gauge
    // never claims flows that are not there, and claims all of them while the limit allows it.
    ghost predicate Shape(d: int)
      reads this`flows, this`flowTokensByKey, this`nextFlowToken, this`bound, metrics, host`submitted
    {
      && TableOk(AsTable()) && |flows| <= maxFlows
      && metrics.Valid() && metrics.udp && metrics.sessionsActive <= |flows| + d
      && (maxFlows <= MAX_ACTIVE ==> metrics.sessionsActive == |flows| + d)
      && Forwarded(metrics.exact, host.submitted)
    }

    // At every step boundary every datagram acquired is accounted for by exactly one event, except
    // those counted as lost.
    ghost predicate Valid()
      reads this`flows, this`flowTokensByKey, this`nextFlowToken, this`bound, this`acquired, this`lost, metrics, host`submitted
    {
      Shape(0) && acquired == Events() + lost
    }

    constructor (host: UdpHost, metrics: MetricsCollector, maxFlows: nat, idleTimeout: nat)
      requires metrics.Valid() && metrics.udp && metrics.sessionsActive == 0 && host.submitted == []
      requires forall i :: 0 <= i < KINDS ==> metrics.exact[i] == 0
      requires 0 < maxFlows && 0 < idleTimeout
      ensures Valid() && flows == map[] && flowTokensByKey == map[] && nextFlowToken == FIRST_TOKEN && acquired == lost == 0
      ensures this.host == host && this.metrics == metrics && this.maxFlows == maxFlows && this.idleTimeout == idleTimeout
    {
      this.host, this.metrics, this.maxFlows, this.idleTimeout := host, metrics, maxFlows, idleTimeout;
      flows, flowTokensByKey, nextFlowToken, bound := map[], map[], FIRST_TOKEN, map[];
      acquired, lost, handled := 0, 0, [];
    }

    // The gauge is the number of flows whenever the limit lets the collector count them all.
    lemma GaugeIsExact()
      requires Valid()
      ensures maxFlows <= MAX_ACTIVE ==> metrics.sessionsActive == |flows|
      ensures metrics.sessionsActive <= |flows|
    {
    }

    // Every datagram ever received was taken by the kernel as a whole, counted as dropped, or is the
    // one that was lost.
    lemma EveryDatagram()
      requires Valid()
      ensures acquired == |host.submitted| + metrics.exact[Slot(Dropped)] + lost
    {
      hide Datagrams;
      hide Bytes;
      hide TableOk;
      EachIsOne(host.submitted);
    }

    // One statistics event that is not about the lifecycle of a flow.
    method Stat(kind: StatKind)
      requires metrics.Valid() && metrics.udp && kind != Created && kind != Closed
      modifies metrics
      ensures metrics.Valid() && metrics.sessionsActive == old(metrics.sessionsActive)
      ensures metrics.exact == Bumped(old(metrics.exact), kind, 1)
    {
      var ok := metrics.RecordStatEvent(kind, 1);
    }

    // closeFlow: both indexes first, then the descriptor and the reports.
    method CloseFlow(token: nat) returns (failure: Option<CloseStep>)
      requires Shape(0)
      modifies this`flows, this`flowTokensByKey, metrics, host`closes, host`faults, host`thrown, host`failures
      ensures Shape(0) && Events() == old(Events()) && Extends(old(AsTable()), AsTable())
      ensures token !in old(flows) ==> failure == None && AsTable() == old(AsTable()) && host.closes == old(host.closes)
      ensures token in old(flows) ==> AsTable() == Removed(old(AsTable()), token) && failure == FirstThrow(old(host.NextClose()))
      ensures token in old(flows) ==> |flows| == |old(flows)| - 1 && old(flows[token].key) !in flowTokensByKey
      ensures token in old(flows) ==> host.closes == Skip(old(host.closes), 1) && metrics.sessionsActive == Less(old(metrics.sessionsActive), 1)
      ensures host.failures == Noted(old(host.failures), failure)
      ensures host.faults == old(host.faults) + if failure == None then 0 else 1
      ensures Count(Failure) == old(Count(Failure)) + if token in old(flows) && old(host.NextClose()).detachFails then 1 else 0
      ensures Count(Timeout) == old(Count(Timeout))
      ensures Count(Rejected) == old(Count(Rejected))
      ensures host.thrown == old(host.thrown) + if failure == None then 0 else 1
    {
      hide TableOk;
      hide Extends;
      hide Forwarded;
      hide Sum;
      hide FirstThrow;
      ExtendsSelf(AsTable());
      if token !in flows {
        return None;
      }
      RemoveKeeps(AsTable(), token);
      flowTokensByKey, flows := flowTokensByKey - {flows[token].key}, flows - {token};
      failure := ReportClose();
    }

    // The reports of a close: each is attempted, the first failure is kept.
    method ReportClose() returns (failure: Option<CloseStep>)
      requires Shape(1)
      modifies metrics, host`closes, host`faults, host`thrown, host`failures
      ensures host.closes == Skip(old(host.closes), 1) && metrics.sessionsActive == Less(old(metrics.sessionsActive), 1)
      ensures Shape(0) && Events() == old(Events())
      ensures failure == FirstThrow(old(host.NextClose())) && host.failures == Noted(old(host.failures), failure)
      ensures host.faults == old(host.faults) + if failure == None then 0 else 1
      ensures Count(Failure) == old(Count(Failure)) + if old(host.NextClose()).detachFails then 1 else 0
      ensures Count(Timeout) == old(Count(Timeout))
      ensures Count(Rejected) == old(Count(Rejected))
      ensures host.thrown == old(host.thrown) + if failure == None then 0 else 1
    {
      hide TableOk;
      hide Forwarded;
      hide Sum;
      var o := host.Close();
      if o.detachFails {
        Neutral(metrics.exact, Failure, host.submitted);
        Stat(Failure);
      }
      failure := if o.detachFails && o.diagnosticThrows then Some(ByDiagnostic) else None;
      Neutral(metrics.exact, Closed, host.submitted);
      var ok := metrics.RecordStatEvent(Closed, 1);
      if o.observationThrows && failure == None {
        failure := Some(ByObservation);
      }
      if o.flowThrows && failure == None {
        failure := Some(ByFlowEvent);
      }
    }

    // closeAllFlows: it empties the table whichever callbacks fail, and the first failure of all
    // is kept.
    method CloseAllFlows() returns (failure: Option<CloseStep>)
      requires Shape(0)
      modifies this`flows, this`flowTokensByKey, metrics, host`closes, host`faults, host`thrown, host`failures
      ensures Shape(0) && Events() == old(Events()) && Extends(old(AsTable()), AsTable()) && flows == map[]
      ensures old(host.failures) <= host.failures
      ensures failure == if host.failures == old(host.failures) then None else Some(host.failures[|old(host.failures)|])
      ensures host.faults >= old(host.faults) && (failure == None <==> host.faults == old(host.faults))
      ensures host.thrown >= old(host.thrown) && (failure == None <==> host.thrown == old(host.thrown))
    {
      hide TableOk;
      hide Extends;
      hide Forwarded;
      hide Sum;
      hide FirstThrow;
      ExtendsSelf(AsTable());
      failure := None;
      while flows != map[]
        invariant Shape(0) && Events() == old(Events()) && Extends(old(AsTable()), AsTable())
        invariant old(host.failures) <= host.failures
        invariant host.thrown >= old(host.thrown) && (failure == None <==> host.thrown == old(host.thrown))
        invariant host.faults >= old(host.faults) && (failure == None <==> host.faults == old(host.faults))
        invariant failure == if host.failures == old(host.failures) then None else Some(host.failures[|old(host.failures)|])
        decreases |flows|
      {
        ghost var before := AsTable();
        NonEmpty(flows);
        var token :| token in flows;
        var step := CloseFlow(token);
        ExtendsTrans(old(AsTable()), before, AsTable());
        if failure == None {
          failure := step;
        }
      }
    }

    // n closes were made since the script was closes0 and the gauge active0, none of which failed.
    ghost predicate ClosedSince(closes0: seq<CloseOutcome>, active0: nat, n: nat)
      reads host`closes, metrics`sessionsActive
    {
      host.closes == Skip(closes0, n) && Calm(closes0, n) && metrics.sessionsActive == Less(active0, n)
    }

    lemma NothingClosed(closes0: seq<CloseOutcome>, active0: nat)
      requires host.closes == closes0 && metrics.sessionsActive == active0
      ensures ClosedSince(closes0, active0, 0)
    {
    }

    // One more close in such a sequence.
    method ExpireNext(token: nat, ghost closes0: seq<CloseOutcome>, ghost active0: nat, ghost n: nat) returns (ok: bool)
      requires Shape(0) && token in flows && ClosedSince(closes0, active0, n)
      modifies this`flows, this`flowTokensByKey, metrics, host`closes, host`faults, host`thrown, host`failures
      ensures Shape(0) && Events() == old(Events()) && AsTable() == Removed(old(AsTable()), token) && |flows| == |old(flows)| - 1
      ensures forall t: Table :: (Extends(t, old(AsTable())) ==> Extends(t, AsTable())) && (Shrunk(t, old(AsTable())) ==> Shrunk(t, AsTable()))
      ensures if ok then ClosedSince(closes0, active0, n + 1) else !Calm(closes0, n + 1)
      ensures ok <==> host.failures == old(host.failures)
      ensures host.faults == old(host.faults) + if ok then 0 else 1
      ensures host.thrown == old(host.thrown) + if ok then 0 else 1
    {
      hide TableOk;
      hide Extends;
      hide Shrunk;
      hide Forwarded;
      hide Sum;
      hide FirstThrow;
      SkipMore(closes0, n, 1);
      CalmMore(closes0, n);
      ok := Expire(token);
    }

    // expireIdleFlows: every flow that was due is closed, no other; a failing callback ends it, so
    // it succeeds exactly if none of the closes of the due flows fails.
    method ExpireIdleFlows() returns (ok: bool)
      requires Shape(0)
      modifies this`flows, this`flowTokensByKey, metrics, host`now, host`ticks, host`closes, host`faults, host`thrown, host`failures
      ensures Shape(0) && Events() == old(Events()) && Extends(old(AsTable()), AsTable()) && Shrunk(old(AsTable()), AsTable())
      ensures forall token :: token in old(flows) && !Expired(old(flows)[token], host.now, idleTimeout) ==> token in flows
      ensures ok ==> forall token :: token in flows ==> !Expired(flows[token], host.now, idleTimeout)
      ensures host.now == old(host.NextNow()) && host.ticks == Skip(old(host.ticks), 1)
      ensures ok <==> Calm(old(host.closes), |Due(old(flows), host.now, idleTimeout)|)
      ensures ok ==> var n := |Due(old(flows), host.now, idleTimeout)|;
                |flows| == |old(flows)| - n && ClosedSince(old(host.closes), old(metrics.sessionsActive), n)
      ensures !ok ==> host.failures != old(host.failures)
      ensures host.faults == old(host.faults) + if ok then 0 else 1
      ensures host.thrown == old(host.thrown) + if ok then 0 else 1
    {
      hide TableOk;
      hide Extends;
      hide Forwarded;
      hide Sum;
      hide FirstThrow;
      hide Due;
      hide Calm;
      hide ClosedSince;
      var time := host.Now();
      ExtendsSelf(AsTable());
      RemoveShrinks(AsTable(), NO_TOKEN);
      var pending := flows.Keys;
      NothingClosed(host.closes, metrics.sessionsActive);
      while pending != {}
        invariant Shape(0) && Events() == old(Events()) && Extends(old(AsTable()), AsTable()) && Shrunk(old(AsTable()), AsTable())
        invariant host.faults == old(host.faults) && host.thrown == old(host.thrown)
        invariant host.now == time && host.ticks == Skip(old(host.ticks), 1)
        invariant pending <= flows.Keys && host.failures == old(host.failures)
        invariant |flows| <= |old(flows)| && ClosedSince(old(host.closes), old(metrics.sessionsActive), |old(flows)| - |flows|)
        invariant forall token :: token in old(flows) && !Expired(old(flows)[token], time, idleTimeout) ==> token in flows
        invariant forall token :: token in flows && token !in pending ==> !Expired(flows[token], time, idleTimeout)
      {
        var token :| token in pending;
        pending := pending - {token};
        if Expired(flows[token], time, idleTimeout) {
          ok := ExpireNext(token, old(host.closes), old(metrics.sessionsActive), |old(flows)| - |flows|);
          if !ok {
            RemovedAreDue(old(flows), flows, time, idleTimeout);
            NotCalm(old(host.closes), |old(flows)| - |flows|, |Due(old(flows), time, idleTimeout)|);
            return;
          }
        }
      }
      RemovedAreDue(old(flows), flows, time, idleTimeout);
      SinceIsCalm(old(host.closes), old(metrics.sessionsActive), |old(flows)| - |flows|);
      ok := true;
    }

    lemma SinceIsCalm(closes0: seq<CloseOutcome>, active0: nat, n: nat)
      requires ClosedSince(closes0, active0, n)
      ensures Calm(closes0, n)
    {
    }

    // A flow whose idle time is over.
    method Expire(token: nat) returns (ok: bool)
      requires Shape(0) && token in flows
      modifies this`flows, this`flowTokensByKey, metrics, host`closes, host`faults, host`thrown, host`failures
      ensures Shape(0) && Events() == old(Events()) && AsTable() == Removed(old(AsTable()), token)
      ensures forall t: Table :: (Extends(t, old(AsTable())) ==> Extends(t, AsTable())) && (Shrunk(t, old(AsTable())) ==> Shrunk(t, AsTable()))
      ensures old(flows[token].key) !in flowTokensByKey
      ensures ok <==> FirstThrow(old(host.NextClose())) == None
      ensures host.closes == Skip(old(host.closes), 1) && metrics.sessionsActive == Less(old(metrics.sessionsActive), 1)
      ensures |flows| == |old(flows)| - 1
      ensures ok <==> host.failures == old(host.failures)
      ensures host.faults == old(host.faults) + if ok then 0 else 1
      ensures Count(Timeout) == old(Count(Timeout)) + 1
      ensures Count(Failure) == old(Count(Failure)) + if old(host.NextClose()).detachFails then 1 else 0
      ensures host.thrown == old(host.thrown) + if ok then 0 else 1
    {
      hide TableOk;
      hide Extends;
      hide Shrunk;
      hide Forwarded;
      hide Sum;
      hide FirstThrow;
      Neutral(metrics.exact, Timeout, host.submitted);
      Stat(Timeout);
      RemoveShrinks(AsTable(), token);
      var failure := CloseFlow(token);
      forall t: Table
        ensures Extends(t, old(AsTable())) ==> Extends(t, AsTable())
        ensures Shrunk(t, old(AsTable())) ==> Shrunk(t, AsTable())
      {
        if Extends(t, old(AsTable())) {
          ExtendsTrans(t, old(AsTable()), AsTable());
        }
        if Shrunk(t, old(AsTable())) {
          ShrunkTrans(t, old(AsTable()), AsTable());
        }
      }
      ok := failure == None;
    }

    // A creation that fails softly: an error event and a diagnostic.
    method SetupFailed() returns (ok: bool)
      requires Shape(0)
      modifies metrics, host`throws, host`faults, host`thrown
      ensures metrics.sessionsActive == old(metrics.sessionsActive)
      ensures Shape(0) && Events() == old(Events())
      ensures host.faults >= old(host.faults) && (!ok ==> host.faults > old(host.faults))
      ensures metrics.exact == Bumped(old(metrics.exact), Failure, 1) && (ok <==> old(host.NextReportOk()))
      ensures host.thrown >= old(host.thrown) && (ok ==> host.thrown == old(host.thrown))
    {
      hide TableOk;
      hide Forwarded;
      hide Sum;
      Neutral(metrics.exact, Failure, host.submitted);
      Stat(Failure);
      ok := host.Report();
    }

    // How the three steps come out: an allocation that fails is out of memory.
    ghost function RegisterCode(codes: seq<nat>): nat {
      if |codes| >= 1 && codes[0] != 0 then ENOMEM
      else if |codes| >= 2 && codes[1] != 0 then ENOMEM
      else if |codes| >= 3 then codes[2] else 0
    }

    // The two insertions and the epoll registration, each of which may fail; both indexes are
    // then what they were before.
    method FillIndexes(key: UdpFlowKey, token: nat, flow: UdpFlow) returns (code: nat)
      requires key == flow.key && key !in flowTokensByKey && token !in flows
      modifies this`flows, this`flowTokensByKey, host`codes, host`faults, host`setupFailures
      ensures code == 0 <==> Fine(old(host.codes), 3)
      ensures code == 0 ==> host.codes == Skip(old(host.codes), 3)
      ensures code == 0 ==> flows == old(flows)[token := flow] && flowTokensByKey == old(flowTokensByKey)[key := token]
      ensures old(host.setupFailures) <= host.setupFailures && (code != 0 ==> host.setupFailures > old(host.setupFailures))
      ensures code != 0 ==> flows == old(flows) && flowTokensByKey == old(flowTokensByKey)
      ensures host.faults >= old(host.faults) && (code == EBADF || code == EINVAL ==> host.faults > old(host.faults))
      ensures code == RegisterCode(old(host.codes))
    {
      RollbackIsExact(AsTable(), token, flow);
      SkipMore(host.codes, 1, 1);
      SkipMore(host.codes, 2, 1);
      code := host.Code();
      if code != 0 {
        return ENOMEM;
      }
      flowTokensByKey := flowTokensByKey[key := token];
      code := host.Code();
      if code != 0 {
        flowTokensByKey := flowTokensByKey - {key};
        return ENOMEM;
      }
      flows := flows[token := flow];
      code := host.Code();
      if code != 0 {
        flowTokensByKey, flows := flowTokensByKey - {key}, flows - {token};
      }
    }

    // registerFlowIndexesAndSocket: a transaction. Unless everything succeeds, the table is exactly
    // what it was; EBADF and EINVAL are fatal, other errors are not.
    method RegisterFlow(key: UdpFlowKey, token: nat, flow: UdpFlow) returns (done: bool, ok: bool)
      requires Shape(0) && key == flow.key && key !in flowTokensByKey && token !in flows
      modifies this`flows, this`flowTokensByKey, this`bound, metrics, host`codes, host`faults, host`thrown, host`setupFailures, host`throws
      ensures done ==> ok && AsTable() == Inserted(old(AsTable()), token, flow)
      ensures done ==> metrics.Valid() && metrics.sessionsActive == old(metrics.sessionsActive) && metrics.exact == old(metrics.exact)
      ensures done <==> Fine(old(host.codes), 3)
      ensures done ==> host.throws == old(host.throws) && host.codes == Skip(old(host.codes), 3)
      ensures old(host.setupFailures) <= host.setupFailures && (!done ==> host.setupFailures > old(host.setupFailures))
      ensures !done ==> metrics.sessionsActive == old(metrics.sessionsActive)
      ensures !done ==> Shape(0) && AsTable() == old(AsTable()) && Events() == old(Events())
      ensures host.faults >= old(host.faults) && (!ok ==> host.faults > old(host.faults))
      ensures !done ==> var code := RegisterCode(old(host.codes));
                if code == EBADF || code == EINVAL then !ok && metrics.exact == old(metrics.exact)
                else (ok <==> old(host.NextReportOk())) && metrics.exact == Bumped(old(metrics.exact), Failure, 1)
      ensures host.thrown >= old(host.thrown) && (ok ==> host.thrown == old(host.thrown))
    {
      hide TableOk;
      hide Forwarded;
      hide Sum;
      done := false;
      var code := FillIndexes(key, token, flow);
      if code == 0 {
        bound := bound[token := Binding(flow.key, flow.backend)];
        done, ok := true, true;
      } else if code == EBADF || code == EINVAL {
        ok := false;
      } else {
        ok := SetupFailed();
      }
    }

    // A number of set-up calls, up to the first that fails.
    method SetUp(calls: nat) returns (ready: bool, ok: bool)
      requires Shape(0)
      modifies metrics, host`codes, host`faults, host`thrown, host`setupFailures, host`throws
      ensures Shape(0) && Events() == old(Events()) && (ready ==> ok)
      ensures ready <==> Fine(old(host.codes), calls)
      ensures ready ==> host.codes == Skip(old(host.codes), calls) && host.throws == old(host.throws)
      ensures metrics.sessionsActive == old(metrics.sessionsActive)
      ensures old(host.setupFailures) <= host.setupFailures && (!ready ==> host.setupFailures > old(host.setupFailures))
      ensures host.faults >= old(host.faults) && (!ok ==> host.faults > old(host.faults))
      ensures metrics.exact == if ready then old(metrics.exact) else Bumped(old(metrics.exact), Failure, 1)
      ensures ok <==> ready || old(host.NextReportOk())
      ensures host.thrown >= old(host.thrown) && (ok ==> host.thrown == old(host.thrown))
    {
      hide TableOk;
      hide Forwarded;
      hide Sum;
      SkipMore(host.codes, 0, 0);
      for i := 0 to calls
        invariant Fine(old(host.codes), i) && host.codes == Skip(old(host.codes), i) && host.throws == old(host.throws)
        invariant metrics.exact == old(metrics.exact)
        invariant metrics.sessionsActive == old(metrics.sessionsActive)
        invariant host.faults >= old(host.faults) && host.thrown == old(host.thrown)
        invariant Shape(0) && Events() == old(Events()) && host.setupFailures == old(host.setupFailures)
      {
        SkipMore(old(host.codes), i, 1);
        var code := host.Code();
        if code != 0 {
          ok := SetupFailed();
          return false, ok;
        }
      }
      ready, ok := true, true;
    }

    // Everything about a new flow that only others want to know.
    method Announce() returns (ok: bool)
      requires Shape(-1) && 0 < |flows|
      modifies metrics, host`throws, host`faults, host`thrown
      ensures ok <==> !AnnounceThrows(old(host.throws))
      ensures ok ==> host.throws == Skip(old(host.throws), 2)
      ensures metrics.sessionsActive == Min(MAX_ACTIVE, old(metrics.sessionsActive) + 1)
      ensures Shape(0) && Events() == old(Events())
      ensures host.faults >= old(host.faults) && (!ok ==> host.faults > old(host.faults))
      ensures Count(Rejected) == old(Count(Rejected))
      ensures host.thrown >= old(host.thrown) && (ok ==> host.thrown == old(host.thrown))
    {
      hide TableOk;
      hide Forwarded;
      hide Sum;
      Neutral(metrics.exact, Created, host.submitted);
      var counted := metrics.RecordStatEvent(Created, 1);
      SkipMore(host.throws, 1, 1);
      ok := host.Report();
      if ok {
        ok := host.Report();
      }
    }

    // The token leads to a flow of the key, bound to the backend, and back.
    ghost predicate Installed(key: UdpFlowKey, backend: Endpoint, token: nat, time: nat)
      reads this`flows, this`flowTokensByKey
    {
      && key in flowTokensByKey && flowTokensByKey[key] == token && token != NO_TOKEN
      && token in flows && flows[token] == UdpFlow(key, backend, time)
    }

    // Everything createFlow does before it announces the new flow will succeed: the closes of the
    // due flows, room in the table, a backend, a token, and the eight set-up calls.
    ghost predicate CreationCommits()
      reads this`flows, this`nextFlowToken, host`now, host`ticks, host`closes, host`selections, host`codes
    {
      var due := |Due(flows, host.NextNow(), idleTimeout)|;
      Calm(host.closes, due) && |flows| - due < maxFlows
      && host.selections != [] && host.selections[0].Selected? && nextFlowToken != U64_MAX && Fine(host.codes, 8)
    }

    // createFlow for a key that has no flow. A token of 0 is a refusal; ok is false for an
    // exception. The new flow has a token never used before and is bound to its backend for life.
    // Key and token are in the indexes afterwards exactly if the creation committed; so a failed
    // creation leaves them behind exactly if a callback that announces the new flow throws.
    method CreateFlow(key: UdpFlowKey) returns (token: nat, ok: bool)
      requires Shape(0) && key !in flowTokensByKey
      modifies this`flows, this`flowTokensByKey, this`nextFlowToken, this`bound, metrics
      modifies host`now, host`ticks, host`closes, host`faults, host`thrown, host`failures, host`throws, host`selections
      modifies host`codes, host`setupFailures
      ensures Shape(0) && Events() == old(Events())
      ensures Extends(old(AsTable()), AsTable()) && ShrunkOrNew(old(AsTable()), AsTable(), key)
      ensures key in flowTokensByKey <==> old(CreationCommits())
      ensures token != NO_TOKEN <==> old(CreationCommits() && !AnnounceThrows(host.throws))
      ensures token != NO_TOKEN ==> ok && flowTokensByKey[key] == token
      ensures old(CreationCommits()) ==> (ok <==> !old(AnnounceThrows(host.throws))) && nextFlowToken == old(nextFlowToken) + 1
      ensures old(host.ticks) == [] ==> host.now == old(host.now)
      ensures !ok ==> (key in flowTokensByKey <==> old(CreationCommits() && AnnounceThrows(host.throws)))
      ensures old(CreationCommits()) ==> Installed(key, old(host.selections[0]).backend, flowTokensByKey[key], host.now)
                                         && old(nextFlowToken) == flowTokensByKey[key]
      ensures old(CreationCommits()) ==> var due := |Due(old(flows), old(host.NextNow()), idleTimeout)|;
                |flows| == |old(flows)| - due + 1 && host.closes == Skip(old(host.closes), due)
                && metrics.sessionsActive == Min(MAX_ACTIVE, Less(old(metrics.sessionsActive), due) + 1)
      ensures old(CreationCommits()) && old(metrics.sessionsActive) == |old(flows)| ==>
                (metrics.sessionsActive == |flows| <==> |flows| <= MAX_ACTIVE)
      ensures old(CreationCommits()) ==> host.ticks == Skip(old(host.ticks), 2) && host.selections == Skip(old(host.selections), 1)
                                         && host.codes == Skip(old(host.codes), 8)
      ensures token != NO_TOKEN ==> host.throws == Skip(old(host.throws), 2)
      ensures ok && token == NO_TOKEN ==>
                maxFlows <= |flows| || host.setupFailures > old(host.setupFailures)
                || old(host.selections) == [] || old(host.selections)[0] == NoBackend
      ensures host.faults >= old(host.faults) && (!ok ==> host.faults > old(host.faults) || nextFlowToken == U64_MAX)
      ensures host.thrown >= old(host.thrown) && (ok ==> host.thrown == old(host.thrown))
    {
      hide TableOk;
      hide Extends;
      hide Shrunk;
      hide ShrunkOrNew;
      hide Forwarded;
      hide Sum;
      hide Calm;
      hide Due;
      hide Fine;
      hide AnnounceThrows;
      SkipMore(host.ticks, 1, 1);
      ghost var start := AsTable();
      KeyStaysAbsent(start, start, key);
      ok := ExpireIdleFlows();
      KeyStaysAbsent(start, AsTable(), key);
      token := NO_TOKEN;
      if ok {
        token, ok := AdmitFlow(key, start);
      }
    }

    // createFlow once the idle flows are gone: room, backend, socket, flow.
    method AdmitFlow(key: UdpFlowKey, ghost start: Table) returns (token: nat, ok: bool)
      requires Shape(0) && key !in flowTokensByKey
      requires Shrunk(start, AsTable()) && Extends(start, AsTable())
      modifies this`flows, this`flowTokensByKey, this`nextFlowToken, this`bound, metrics
      modifies host`now, host`ticks, host`throws, host`faults, host`thrown, host`selections, host`codes, host`setupFailures
      ensures Shape(0) && Events() == old(Events())
      ensures Extends(start, AsTable()) && ShrunkOrNew(start, AsTable(), key)
      ensures key in flowTokensByKey <==> old(|flows| < maxFlows && host.selections != [] && host.selections[0].Selected?
                                              && nextFlowToken != U64_MAX && Fine(host.codes, 8))
      ensures key in flowTokensByKey ==> Installed(key, old(host.selections[0]).backend, old(nextFlowToken), host.now)
                                         && |flows| == |old(flows)| + 1
      ensures key in flowTokensByKey ==> nextFlowToken == old(nextFlowToken) + 1
      ensures old(host.ticks) == [] ==> host.now == old(host.now)
      ensures key in flowTokensByKey ==> (ok <==> !AnnounceThrows(old(host.throws))) && token == if ok then old(nextFlowToken) else NO_TOKEN
      ensures key in flowTokensByKey ==> metrics.sessionsActive == Min(MAX_ACTIVE, old(metrics.sessionsActive) + 1)
      ensures key in flowTokensByKey ==> host.ticks == Skip(old(host.ticks), 1) && host.selections == Skip(old(host.selections), 1)
                                         && host.codes == Skip(old(host.codes), 8)
      ensures token != NO_TOKEN ==> host.throws == Skip(old(host.throws), 2)
      ensures key !in flowTokensByKey ==> token == NO_TOKEN
      ensures ok && key !in flowTokensByKey ==>
                maxFlows <= |flows| || host.setupFailures > old(host.setupFailures)
                || old(host.selections) == [] || old(host.selections)[0] == NoBackend
      ensures host.faults >= old(host.faults) && (!ok ==> host.faults > old(host.faults) || nextFlowToken == U64_MAX)
      ensures Count(Rejected) == old(Count(Rejected)) + if old(|flows| >= maxFlows || host.selections == [] || host.selections[0] == NoBackend) then 1 else 0
      ensures old(|flows|) >= maxFlows ==> token == NO_TOKEN && (ok <==> old(host.NextReportOk()))
      ensures old(|flows|) < maxFlows && old(host.selections) != [] && old(host.selections)[0] == SelectorThrows ==> !ok
      ensures old(|flows| < maxFlows && (host.selections == [] || host.selections[0] == NoBackend)) ==> ok && token == NO_TOKEN
      ensures host.thrown >= old(host.thrown) && (ok ==> host.thrown == old(host.thrown))
    {
      hide TableOk;
      hide Extends;
      hide Shrunk;
      hide ShrunkOrNew;
      hide Forwarded;
      hide Sum;
      hide Fine;
      hide AnnounceThrows;
      hide Installed;
      token, ok := NO_TOKEN, false;
      KeyStaysAbsent(start, AsTable(), key);
      if |flows| >= maxFlows {
        Neutral(metrics.exact, Rejected, host.submitted);
        Stat(Rejected);
        ok := host.Report();
        return;
      }
      var selected := host.Select();
      match selected {
        case SelectorThrows =>
        case NoBackend =>
          Neutral(metrics.exact, Rejected, host.submitted);
          Stat(Rejected);
          ok := true;
        case Selected(backend) =>
          token, ok := ConnectFlow(key, backend, start);
      }
    }

    // The part of createFlow that opens a socket to the backend.
    method ConnectFlow(key: UdpFlowKey, backend: Endpoint, ghost start: Table) returns (token: nat, ok: bool)
      requires Shape(0) && key !in flowTokensByKey && |flows| < maxFlows
      requires Shrunk(start, AsTable()) && Extends(start, AsTable())
      modifies this`flows, this`flowTokensByKey, this`nextFlowToken, this`bound, metrics
      modifies host`now, host`ticks, host`throws, host`faults, host`thrown, host`codes, host`setupFailures
      ensures Shape(0) && Events() == old(Events())
      ensures Extends(start, AsTable()) && ShrunkOrNew(start, AsTable(), key)
      ensures key in flowTokensByKey <==> old(nextFlowToken != U64_MAX && Fine(host.codes, 8))
      ensures key in flowTokensByKey ==> Installed(key, backend, old(nextFlowToken), host.now) && |flows| == |old(flows)| + 1
      ensures key in flowTokensByKey ==> nextFlowToken == old(nextFlowToken) + 1
      ensures old(host.ticks) == [] ==> host.now == old(host.now)
      ensures key in flowTokensByKey ==> (ok <==> !AnnounceThrows(old(host.throws))) && token == if ok then old(nextFlowToken) else NO_TOKEN
      ensures key in flowTokensByKey ==> metrics.sessionsActive == Min(MAX_ACTIVE, old(metrics.sessionsActive) + 1)
      ensures key in flowTokensByKey ==> host.ticks == Skip(old(host.ticks), 1) && host.codes == Skip(old(host.codes), 8)
      ensures token != NO_TOKEN ==> host.throws == Skip(old(host.throws), 2)
      ensures key !in flowTokensByKey ==> token == NO_TOKEN && (ok ==> host.setupFailures > old(host.setupFailures))
      ensures host.faults >= old(host.faults) && (!ok ==> host.faults > old(host.faults) || nextFlowToken == U64_MAX)
      ensures Count(Rejected) == old(Count(Rejected))
      ensures host.thrown >= old(host.thrown) && (ok ==> host.thrown == old(host.thrown))
    {
      hide TableOk;
      hide Extends;
      hide Shrunk;
      hide ShrunkOrNew;
      hide Forwarded;
      hide Sum;
      hide Fine;
      KeyStaysAbsent(start, AsTable(), key);
      FineMore(host.codes, 3, 5);
      SkipMore(host.codes, 3, 5);
      token := NO_TOKEN;
      var ready;
      ready, ok := SetUp(3);   // socket, bind, connect
      if ready {
        token, ok := BuildFlow(key, backend, start);
      }
    }

    lemma KeyStaysAbsent(a: Table, b: Table, key: UdpFlowKey)
      requires Shrunk(a, b)
      ensures ShrunkOrNew(a, b, key)
      ensures key !in a.tokens ==> key !in b.tokens
    {
    }

    // The last part of createFlow: a flow that has its token is set up, indexed and announced.
    method InstallFlow(key: UdpFlowKey, taken: nat, flow: UdpFlow) returns (token: nat, ok: bool)
      requires Shape(0) && key == flow.key && key !in flowTokensByKey && taken !in flows && taken != NO_TOKEN && |flows| < maxFlows
      requires TableOk(Inserted(AsTable(), taken, flow)) && |Inserted(AsTable(), taken, flow).flows| == |flows| + 1
      modifies this`flows, this`flowTokensByKey, this`bound, metrics, host`throws, host`faults, host`thrown, host`codes, host`setupFailures
      ensures Shape(0) && Events() == old(Events())
      ensures key in flowTokensByKey <==> Fine(old(host.codes), 5)
      ensures AsTable() == if key in flowTokensByKey then Inserted(old(AsTable()), taken, flow) else old(AsTable())
      ensures key in flowTokensByKey ==> (ok <==> !AnnounceThrows(old(host.throws))) && token == if ok then taken else NO_TOKEN
      ensures key in flowTokensByKey ==> metrics.sessionsActive == Min(MAX_ACTIVE, old(metrics.sessionsActive) + 1)
      ensures key in flowTokensByKey ==> host.codes == Skip(old(host.codes), 5)
      ensures token != NO_TOKEN ==> host.throws == Skip(old(host.throws), 2)
      ensures key !in flowTokensByKey ==> token == NO_TOKEN && (ok ==> host.setupFailures > old(host.setupFailures))
      ensures old(host.setupFailures) <= host.setupFailures && Count(Rejected) == old(Count(Rejected))
      ensures host.faults >= old(host.faults) && (!ok ==> host.faults > old(host.faults))
      ensures host.thrown >= old(host.thrown) && (ok ==> host.thrown == old(host.thrown))
    {
      hide TableOk;
      hide Forwarded;
      hide Sum;
      hide Fine;
      hide AnnounceThrows;
      token := NO_TOKEN;
      FineMore(host.codes, 2, 3);
      SkipMore(host.codes, 2, 3);
      var done;
      done, ok := SetUp(2);   // allocation, injected epoll error
      if !done {
        return;
      }
      done, ok := RegisterFlow(key, taken, flow);
      if !done {
        return;
      }
      ok := Announce();
      token := if ok then taken else NO_TOKEN;
    }

    // The part of createFlow that takes a token.
    method BuildFlow(key: UdpFlowKey, backend: Endpoint, ghost start: Table) returns (token: nat, ok: bool)
      requires Shape(0) && key !in flowTokensByKey && |flows| < maxFlows
      requires Shrunk(start, AsTable()) && Extends(start, AsTable())
      modifies this`flows, this`flowTokensByKey, this`nextFlowToken, this`bound, metrics
      modifies host`now, host`ticks, host`throws, host`faults, host`thrown, host`codes, host`setupFailures
      ensures Shape(0) && Events() == old(Events())
      ensures Extends(start, AsTable()) && ShrunkOrNew(start, AsTable(), key)
      ensures key in flowTokensByKey <==> old(nextFlowToken != U64_MAX && Fine(host.codes, 5))
      ensures key in flowTokensByKey ==> Installed(key, backend, old(nextFlowToken), host.now) && |flows| == |old(flows)| + 1
      ensures key in flowTokensByKey ==> nextFlowToken == old(nextFlowToken) + 1
      ensures old(host.ticks) == [] ==> host.now == old(host.now)
      ensures key in flowTokensByKey ==> (ok <==> !AnnounceThrows(old(host.throws))) && token == if ok then old(nextFlowToken) else NO_TOKEN
      ensures key in flowTokensByKey ==> metrics.sessionsActive == Min(MAX_ACTIVE, old(metrics.sessionsActive) + 1)
      ensures key in flowTokensByKey ==> host.ticks == Skip(old(host.ticks), 1) && host.codes == Skip(old(host.codes), 5)
      ensures token != NO_TOKEN ==> host.throws == Skip(old(host.throws), 2)
      ensures key !in flowTokensByKey ==> token == NO_TOKEN && (ok ==> host.setupFailures > old(host.setupFailures))
      ensures old(host.setupFailures) <= host.setupFailures
      ensures host.faults >= old(host.faults) && (!ok ==> host.faults > old(host.faults) || nextFlowToken == U64_MAX)
      ensures Count(Rejected) == old(Count(Rejected))
      ensures host.thrown >= old(host.thrown) && (ok ==> host.thrown == old(host.thrown))
    {
      hide Fine;
      hide AnnounceThrows;
      hide TableOk;
      hide Extends;
      hide Shrunk;
      hide ShrunkOrNew;
      hide Forwarded;
      hide Sum;
      token := NO_TOKEN;
      ghost var before := AsTable();
      KeyStaysAbsent(start, before, key);
      if nextFlowToken == U64_MAX {
        return NO_TOKEN, false;
      }
      TakeFacts(start, before);
      var taken := nextFlowToken;
      nextFlowToken := nextFlowToken + 1;
      assert AsTable() == TokenTaken(before);
      var time := host.Now();
      var flow := UdpFlow(key, backend, time);
      NewFacts(start, before, flow);
      token, ok := InstallFlow(key, taken, flow);
    }

    lemma TakeFacts(start: Table, before: Table)
      requires TableOk(before) && before.next != U64_MAX && Extends(start, before)
      ensures TableOk(TokenTaken(before)) && Extends(start, TokenTaken(before))
      ensures before.next !in before.bound && before.next !in before.flows && before.next >= FIRST_TOKEN
    {
      TakeKeeps(before);
    }

    lemma NewFacts(start: Table, before: Table, flow: UdpFlow)
      requires TableOk(before) && before.next != U64_MAX && Shrunk(start, before) && Extends(start, before)
      requires flow.key !in before.tokens
      ensures var r := Inserted(TokenTaken(before), before.next, flow);
              TableOk(r) && Extends(start, r) && ShrunkOrNew(start, r, flow.key) && |r.flows| == |before.flows| + 1
      ensures ShrunkOrNew(start, TokenTaken(before), flow.key)
    {
      TakeKeeps(before);
      InsertKeeps(TokenTaken(before), before.next, flow);
      InsertExtends(before, flow);
      ExtendsTrans(start, before, Inserted(TokenTaken(before), before.next, flow));
      InsertCounts(TokenTaken(before), before.next, flow);
      NewFlow(start, before, flow);
    }

    // handleSocketError. Afterwards `alive` says whether the flow may still be used; a close it
    // causes is the only change to the table.
    method HandleSocketError(code: nat, listener: bool, token: nat) returns (alive: bool, ok: bool)
      requires Shape(0)
      modifies this`flows, this`flowTokensByKey, metrics, host`closes, host`faults, host`thrown, host`failures, host`throws
      ensures Shape(0) && Events() == old(Events()) && Extends(old(AsTable()), AsTable()) && Shrunk(old(AsTable()), AsTable())
      ensures listener || alive ==> AsTable() == old(AsTable())
      ensures ok && !listener && !IsResourcePressure(code) ==> token !in flows && !alive
      ensures host.faults >= old(host.faults) && (!ok ==> host.faults > old(host.faults) || IsFatal(code))
      ensures EndsService(code, listener) ==> !alive && !ok && AsTable() == old(AsTable()) && metrics.exact == old(metrics.exact)
      ensures !EndsService(code, listener) ==> (alive <==> listener || IsResourcePressure(code))
      ensures !EndsService(code, listener) && alive ==>
                (ok <==> old(host.NextReportOk()))
                && metrics.exact == if code == EAGAIN || code == EINTR then old(metrics.exact) else Bumped(old(metrics.exact), Failure, 1)
      ensures !EndsService(code, listener) && !alive ==>
                token !in flows && (ok <==> token !in old(flows) || FirstThrow(old(host.NextClose())) == None)
                && Count(Failure) == old(Count(Failure)) + (if code == EINTR then 0 else 1)
                     + (if token in old(flows) && old(host.NextClose()).detachFails then 1 else 0)
      ensures host.thrown >= old(host.thrown) && (ok ==> host.thrown == old(host.thrown))
      ensures listener ==>
                (alive <==> code in {EAGAIN, ENOBUFS, ENOMEM, EMSGSIZE, ECONNREFUSED, ECONNRESET, ENETUNREACH, EHOSTUNREACH, EACCES})
      ensures !listener ==> (alive <==> code in {EAGAIN, ENOBUFS, ENOMEM, EMSGSIZE})
    {
      hide TableOk;
      hide Extends;
      hide Shrunk;
      hide Forwarded;
      hide Sum;
      hide FirstThrow;
      ExtendsSelf(AsTable());
      RemoveShrinks(AsTable(), token);
      if code == EBADF || code == ENOTSOCK || code == EINVAL {
        return false, false;
      }
      if listener && !IsSharedSocketError(code) {
        return false, false;
      }
      if code != EAGAIN && code != EINTR {
        Neutral(metrics.exact, Failure, host.submitted);
        Stat(Failure);
      }
      if listener || IsResourcePressure(code) {
        ok := host.Report();
        return true, ok;
      }
      var failure := CloseFlow(token);
      alive, ok := false, failure == None;
    }

    lemma RoutesAre(flow: UdpFlow)
      ensures RouteOf(flow, true) == ToClient(flow.key.client, flow.key.localAddress) && RouteOf(flow, false) == ToBackend(flow.backend)
    {
    }

    // One send call; a datagram taken completely is counted at once.
    method TrySend(flow: UdpFlow, size: nat, reply: bool) returns (r: Send)
      requires Shape(0) && size <= PAYLOAD_LIMIT
      modifies metrics, host`sends, host`faults, host`submitted
      ensures Shape(0)
      ensures Events() == old(Events()) + if r == SentBytes(size) then 1 else 0
      ensures host.submitted == if r == SentBytes(size) then old(host.submitted) + [Submission(RouteOf(flow, reply), size)] else old(host.submitted)
      ensures r == old(host.NextSend()) && host.sends == Skip(old(host.sends), 1)
      ensures host.faults == old(host.faults) + if r.SendError? && r.error != EINTR && IsFatal(r.error) then 1 else 0
      ensures r != SentBytes(size) ==> metrics.exact == old(metrics.exact)
    {
      hide TableOk;
      hide Forwarded;
      hide Sum;
      ForwardStep(metrics.exact, host.submitted, flow, size, reply);
      r := host.Send(RouteOf(flow, reply), size);
      if r == SentBytes(size) {
        var ok := metrics.RecordStatEvent(if reply then BytesB2c else BytesC2b, size);
        ok := metrics.RecordStatEvent(if reply then DatagramB2c else DatagramC2b, 1);
      }
    }

    // A send that took only a part of the datagram, or an error: the datagram is dropped.
    method SendFailed(token: nat, r: Send, reply: bool) returns (ok: bool)
      requires Shape(0) && r != SendError(EINTR)
      modifies this`flows, this`flowTokensByKey, metrics, host`closes, host`faults, host`thrown, host`failures, host`throws
      ensures Shape(0) && Events() == old(Events()) + 1 && Extends(old(AsTable()), AsTable())
      ensures host.faults >= old(host.faults) && (!ok ==> host.faults > old(host.faults) || (r.SendError? && IsFatal(r.error)))
      ensures host.thrown >= old(host.thrown) && (ok ==> host.thrown == old(host.thrown))
      ensures match r
              case SentBytes(n) =>
                AsTable() == old(AsTable()) && (ok <==> old(host.NextReportOk())) && Count(Failure) == old(Count(Failure)) + 1
              case SendError(e) =>
                (EndsService(e, reply) ==> !ok)
                && (EndsService(e, reply) || reply || IsResourcePressure(e) ==> AsTable() == old(AsTable()))
                && (!EndsService(e, reply) && !reply && !IsResourcePressure(e) ==> token !in flows)
    {
      hide EndsService;
      hide IsFatal;
      hide TableOk;
      hide Extends;
      hide Shrunk;
      hide Forwarded;
      hide Sum;
      hide IsResourcePressure;
      ExtendsSelf(AsTable());
      if r.SentBytes? {
        Neutral(metrics.exact, Failure, host.submitted);
        Stat(Failure);
        ok := Drop();
      } else {
        Neutral(metrics.exact, Dropped, host.submitted);
        Stat(Dropped);
        var alive;
        alive, ok := HandleSocketError(r.error, reply, token);
      }
    }

    // sendFlowDatagram: whatever happens, also when it ends with an exception, the datagram gets
    // exactly one event. It goes to the bound backend, or to the client of the flow.
    method SendFlowDatagram(token: nat, size: nat, reply: bool) returns (ok: bool)
      requires Shape(0) && token in flows && size <= PAYLOAD_LIMIT
      modifies this`flows, this`flowTokensByKey, metrics
      modifies host`now, host`ticks, host`closes, host`faults, host`thrown, host`failures, host`throws, host`sends, host`submitted
      ensures Shape(0) && Events() == old(Events()) + 1 && Extends(old(AsTable()), AsTable())
      ensures reply ==> Sends(old(host.submitted), host.submitted, old(host.sends),
                              ToClient(old(flows[token]).key.client, old(flows[token]).key.localAddress), size)
      ensures !reply ==> Sends(old(host.submitted), host.submitted, old(host.sends), ToBackend(old(flows[token]).backend), size)
      ensures host.submitted != old(host.submitted) ==>
                flows == old(flows)[token := old(flows[token]).(lastSubmission := host.now)] && host.now == old(host.NextNow())
      ensures host.faults >= old(host.faults) && (!ok ==> host.faults > old(host.faults))
      ensures match AnswerOf(old(host.sends), SEND_ATTEMPTS)
              case SentBytes(n) => n != size ==>
                AsTable() == old(AsTable()) && (ok <==> old(host.NextReportOk()))
                && Count(Failure) == old(Count(Failure)) + 1
              case SendError(e) =>
                if e == EINTR then AsTable() == old(AsTable()) && (ok <==> old(host.NextReportOk()))
                else (EndsService(e, reply) ==> !ok)
                     && (EndsService(e, reply) || reply || IsResourcePressure(e) ==> AsTable() == old(AsTable()))
                     && (!EndsService(e, reply) && !reply && !IsResourcePressure(e) ==> token !in flows)
      ensures host.thrown >= old(host.thrown) && (ok ==> host.thrown == old(host.thrown))
    {
      hide IsFatal;
      hide EndsService;
      hide TableOk;
      hide Extends;
      hide Shrunk;
      hide Forwarded;
      hide Sum;
      hide RouteOf;
      hide IsResourcePressure;
      ExtendsSelf(AsTable());
      RoutesAre(flows[token]);
      for attempt := 0 to SEND_ATTEMPTS
        invariant Shape(0) && Events() == old(Events()) && AsTable() == old(AsTable()) && host.submitted == old(host.submitted)
        invariant host.faults >= old(host.faults) && host.thrown == old(host.thrown)
        invariant host.throws == old(host.throws) && metrics.exact == old(metrics.exact)
        invariant host.now == old(host.now) && host.ticks == old(host.ticks)
        invariant AnswerOf(host.sends, SEND_ATTEMPTS - attempt) == AnswerOf(old(host.sends), SEND_ATTEMPTS)
      {
        var r := TrySend(flows[token], size, reply);
        if r == SentBytes(size) {
          ok := Touch(token);
          return;
        }
        if r != SendError(EINTR) {
          ok := SendFailed(token, r, reply);
          return;
        }
      }
      ok := Drop();
    }

    // A datagram is given up, with a diagnostic.
    method Drop() returns (ok: bool)
      requires Shape(0)
      modifies metrics, host`throws, host`faults, host`thrown
      ensures Shape(0) && Events() == old(Events()) + 1
      ensures host.faults >= old(host.faults) && (!ok ==> host.faults > old(host.faults))
      ensures metrics.exact == Bumped(old(metrics.exact), Dropped, 1) && (ok <==> old(host.NextReportOk()))
      ensures host.thrown >= old(host.thrown) && (ok ==> host.thrown == old(host.thrown))
    {
      hide TableOk;
      hide Forwarded;
      hide Sum;
      Neutral(metrics.exact, Dropped, host.submitted);
      Stat(Dropped);
      ok := host.Report();
    }

    // A successful submission restarts the idle time.
    method Touch(token: nat) returns (ok: bool)
      requires Shape(0) && token in flows
      modifies this`flows, host`now, host`ticks, host`throws, host`faults, host`thrown
      ensures Shape(0) && Extends(old(AsTable()), AsTable()) && AsTable() == Touched(old(AsTable()), token, host.now) && host.now == old(host.NextNow())
      ensures host.faults >= old(host.faults) && (!ok ==> host.faults > old(host.faults))
      ensures ok <==> old(host.NextReportOk())
      ensures host.thrown >= old(host.thrown) && (ok ==> host.thrown == old(host.thrown))
    {
      hide TableOk;
      hide Extends;
      hide Forwarded;
      var time := host.Now();
      TouchKeeps(AsTable(), token, time);
      flows := flows[token := flows[token].(lastSubmission := time)];
      ok := host.Report();
    }

    // The one case in which a datagram for `key` will get no event: its flow is over its idle
    // time, and a callback of closing it throws.
    ghost predicate LosesDatagram(key: UdpFlowKey)
      reads this`flows, this`flowTokensByKey, this`nextFlowToken, this`bound, host`now, host`ticks, host`closes
    {
      FindsExpired(AsTable(), key, host.NextNow(), idleTimeout) && FirstThrow(host.NextClose()).Some?
    }

    // The flow of the key, if it has one.
    ghost predicate HasFlow(key: UdpFlowKey)
      reads this`flows, this`flowTokensByKey
    {
      key in flowTokensByKey && flowTokensByKey[key] in flows
    }

    ghost function FlowOf(key: UdpFlowKey): UdpFlow
      requires HasFlow(key)
      reads this`flows, this`flowTokensByKey
    {
      flows[flowTokensByKey[key]]
    }

    // A datagram for the key will find a flow that is not over its idle time.
    ghost predicate LiveFlow(key: UdpFlowKey)
      reads this`flows, this`flowTokensByKey, host`now, host`ticks
      ensures LiveFlow(key) ==> HasFlow(key)
    {
      HasFlow(key) && !Expired(FlowOf(key), host.NextNow(), idleTimeout)
    }

    // A flow for a key that has none; an exception counts the datagram as dropped.
    method CreateOrDrop(key: UdpFlowKey) returns (token: nat, ok: bool)
      requires Shape(0) && key !in flowTokensByKey
      modifies this`flows, this`flowTokensByKey, this`nextFlowToken, this`bound, metrics
      modifies host`now, host`ticks, host`closes, host`faults, host`thrown, host`failures, host`throws, host`selections
      modifies host`codes, host`setupFailures
      ensures Shape(0) && Extends(old(AsTable()), AsTable()) && Events() == old(Events()) + if ok then 0 else 1
      ensures token != NO_TOKEN <==> old(CreationCommits() && !AnnounceThrows(host.throws))
      ensures token != NO_TOKEN ==> ok && token in flows && flows[token].key == key
                                    && flows[token].backend == old(host.selections)[0].backend
      ensures ok && token == NO_TOKEN ==>
                maxFlows <= |flows| || host.setupFailures > old(host.setupFailures)
                || old(host.selections) == [] || old(host.selections)[0] == NoBackend
      ensures host.faults >= old(host.faults) && (!ok ==> host.faults > old(host.faults) || nextFlowToken == U64_MAX)
      ensures host.thrown >= old(host.thrown) && (ok ==> host.thrown == old(host.thrown))
    {
      hide UdpReactor.CreationCommits;
      hide AnnounceThrows;
      hide TableOk;
      hide Extends;
      hide ShrunkOrNew;
      hide Forwarded;
      hide Sum;
      token, ok := CreateFlow(key);
      if !ok {
        Neutral(metrics.exact, Dropped, host.submitted);
        Stat(Dropped);
      }
    }

    // resolveFlowTokenForDatagram. A live flow of the key is used as it is. Otherwise one is
    // created, and an exception of the creation counts the datagram as dropped; but an exception
    // of closing the expired flow comes before that and counts nothing.
    method ResolveFlowToken(key: UdpFlowKey) returns (token: nat, ok: bool)
      requires Shape(0)
      modifies this`flows, this`flowTokensByKey, this`nextFlowToken, this`bound, metrics
      modifies host`now, host`ticks, host`closes, host`faults, host`thrown, host`failures, host`throws, host`selections
      modifies host`codes, host`setupFailures
      ensures Shape(0) && Extends(old(AsTable()), AsTable())
      ensures ok ==> Events() == old(Events()) && (token != NO_TOKEN ==> token in flows && flows[token].key == key)
      ensures old(LosesDatagram(key)) ==> !ok && Events() == old(Events())
      ensures !old(LosesDatagram(key)) && !ok ==> Events() == old(Events()) + 1
      ensures key in old(flowTokensByKey) && !FindsExpired(old(AsTable()), key, old(host.NextNow()), idleTimeout) ==>
                ok && token == old(flowTokensByKey)[key] && AsTable() == old(AsTable())
      ensures host.faults >= old(host.faults) && (!ok ==> host.faults > old(host.faults) || nextFlowToken == U64_MAX)
      ensures old(LiveFlow(key)) ==> ok && token == old(flowTokensByKey)[key] && AsTable() == old(AsTable())
      ensures key !in old(flowTokensByKey) ==>
                (token != NO_TOKEN <==> old(CreationCommits() && !AnnounceThrows(host.throws)))
                && (token != NO_TOKEN ==> ok && token in flows && flows[token].backend == old(host.selections)[0].backend)
      ensures ok && token == NO_TOKEN ==>
                maxFlows <= |flows| || host.setupFailures > old(host.setupFailures)
                || old(host.selections) == [] || old(host.selections)[0] == NoBackend
      ensures host.thrown >= old(host.thrown) && (ok ==> host.thrown == old(host.thrown))
    {
      hide UdpReactor.CreationCommits;
      hide AnnounceThrows;
      hide TableOk;
      hide Extends;
      hide Shrunk;
      hide ShrunkOrNew;
      hide Forwarded;
      hide Sum;
      hide FirstThrow;
      ExtendsSelf(AsTable());
      token, ok := NO_TOKEN, true;
      if key in flowTokensByKey {
        token := flowTokensByKey[key];
        Inverse(AsTable(), token, key);
        var time := host.Now();
        if !Expired(flows[token], time, idleTimeout) {
          return;
        }
        ok := Expire(token);
        if !ok {
          return NO_TOKEN, false;
        }
      }
      ghost var middle := AsTable();
      token, ok := CreateOrDrop(key);
      ExtendsTrans(old(AsTable()), middle, AsTable());
    }

    // A datagram from a client with good metadata. It gets exactly one event, unless it is the one
    // case above.
    method ForwardRequest(key: UdpFlowKey, size: nat) returns (ok: bool)
      requires Shape(0) && acquired == Events() + lost + 1 && size <= PAYLOAD_LIMIT
      modifies this`flows, this`flowTokensByKey, this`nextFlowToken, this`bound, this`lost, metrics
      modifies host`now, host`ticks, host`closes, host`faults, host`thrown, host`failures, host`throws, host`selections
      modifies host`codes, host`setupFailures
      modifies host`sends, host`submitted
      ensures Valid() && Extends(old(AsTable()), AsTable())
      ensures lost == old(lost) + if old(LosesDatagram(key)) then 1 else 0
      ensures old(LosesDatagram(key)) ==> !ok
      ensures old(LiveFlow(key)) ==>
                Sends(old(host.submitted), host.submitted, old(host.sends), ToBackend(old(FlowOf(key)).backend), size)
      ensures key !in old(flowTokensByKey) ==>
                if old(CreationCommits() && !AnnounceThrows(host.throws))
                then Sends(old(host.submitted), host.submitted, old(host.sends), ToBackend(old(host.selections)[0].backend), size)
                else host.submitted == old(host.submitted)
      ensures host.faults >= old(host.faults) && (!ok ==> host.faults > old(host.faults) || nextFlowToken == U64_MAX)
      ensures AnswerOf(old(host.sends), SEND_ATTEMPTS) == SentBytes(size) && host.submitted == old(host.submitted) ==>
                !ok || maxFlows <= |flows| || host.setupFailures > old(host.setupFailures)
                || old(host.selections) == [] || old(host.selections)[0] == NoBackend
      ensures host.submitted == old(host.submitted) || (|host.submitted| == |old(host.submitted)| + 1 && old(host.submitted) <= host.submitted)
      ensures host.thrown >= old(host.thrown) && (ok ==> host.thrown == old(host.thrown))
    {
      hide UdpReactor.CreationCommits;
      hide AnnounceThrows;
      hide TableOk;
      hide Extends;
      hide Forwarded;
      hide Sum;
      hide FirstThrow;
      hide FindsExpired;
      ghost var loses := LosesDatagram(key);
      NoFlowZero();
      var token;
      token, ok := ResolveFlowToken(key);
      if !ok {
        lost := lost + if loses then 1 else 0;
        return;
      }
      if token != NO_TOKEN {
        ghost var middle := AsTable();
        ok := SendFlowDatagram(token, size, false);
        ExtendsTrans(old(AsTable()), middle, AsTable());
      } else {
        Neutral(metrics.exact, Dropped, host.submitted);
        Stat(Dropped);
      }
    }

    lemma NoFlowZero()
      requires Shape(0)
      ensures NO_TOKEN !in flows
    {
      assert forall t :: t in flows ==> FlowOk(AsTable(), t);
    }

    // handleListenerRead: up to 64 datagrams.
    method HandleListenerRead() returns (ok: bool)
      requires Valid()
      modifies this`flows, this`flowTokensByKey, this`nextFlowToken, this`bound, this`lost, this`acquired, metrics
      modifies host`now, host`ticks, host`closes, host`faults, host`thrown, host`failures, host`throws, host`selections
      modifies host`codes, host`setupFailures
      modifies host`sends, host`submitted, host`receives, host`receiveCalls, host`sources, host`dry
      ensures Valid() && Extends(old(AsTable()), AsTable())
      ensures ok ==> host.receiveCalls == old(host.receiveCalls) + RECEIVE_BUDGET || (host.dry && old(host.receiveCalls) < host.receiveCalls)
      ensures old(lost) <= lost <= old(lost) + 1 && (lost != old(lost) ==> !ok)
      ensures host.faults >= old(host.faults) && (!ok ==> host.faults > old(host.faults) || nextFlowToken == U64_MAX)
      ensures old(host.sources) <= host.sources && forall i :: |old(host.sources)| <= i < |host.sources| ==> host.sources[i] == LISTENER
      ensures host.thrown >= old(host.thrown) && (ok ==> host.thrown == old(host.thrown))
    {
      hide TableOk;
      hide Extends;
      hide Forwarded;
      hide Sum;
      hide FirstThrow;
      hide FindsExpired;
      ExtendsSelf(AsTable());
      for attempt := 0 to RECEIVE_BUDGET
        invariant Valid() && Extends(old(AsTable()), AsTable()) && lost == old(lost)
        invariant old(host.sources) <= host.sources && forall i :: |old(host.sources)| <= i < |host.sources| ==> host.sources[i] == LISTENER
        invariant host.faults >= old(host.faults) && host.thrown == old(host.thrown)
        invariant host.receiveCalls == old(host.receiveCalls) + attempt
      {
        ghost var middle := AsTable();
        var more;
        more, ok := ListenerStep();
        ExtendsTrans(old(AsTable()), middle, AsTable());
        if !more || !ok {
          return;
        }
      }
      ok := host.Report();
    }

    // A datagram from the listener: dropped if it is truncated, too long or without good metadata.
    method TakeDatagram(r: Receive) returns (ok: bool)
      requires Valid() && r.Received?
      modifies this`flows, this`flowTokensByKey, this`nextFlowToken, this`bound, this`lost, this`acquired, metrics
      modifies host`now, host`ticks, host`closes, host`faults, host`thrown, host`failures, host`throws, host`selections
      modifies host`codes, host`setupFailures
      modifies host`sends, host`submitted
      ensures Valid() && Extends(old(AsTable()), AsTable()) && acquired == old(acquired) + 1
      ensures lost == old(lost) + if IsRequest(r) && old(LosesDatagram(r.key.value)) then 1 else 0
      ensures lost != old(lost) ==> !ok
      ensures host.faults >= old(host.faults) && (!ok ==> host.faults > old(host.faults) || nextFlowToken == U64_MAX)
      ensures host.thrown >= old(host.thrown) && (ok ==> host.thrown == old(host.thrown))
      ensures IsRequest(r) && old(LiveFlow(r.key.value)) ==>
                Sends(old(host.submitted), host.submitted, old(host.sends), ToBackend(old(FlowOf(r.key.value)).backend), r.size)
      ensures IsRequest(r) && r.key.value !in old(flowTokensByKey) ==>
                if old(CreationCommits() && !AnnounceThrows(host.throws))
                then Sends(old(host.submitted), host.submitted, old(host.sends), ToBackend(old(host.selections)[0].backend), r.size)
                else host.submitted == old(host.submitted)
      ensures !IsRequest(r) ==> host.submitted == old(host.submitted) && AsTable() == old(AsTable()) && (ok <==> old(host.NextReportOk()))
    {
      hide Sends;
      hide UdpReactor.CreationCommits;
      hide AnnounceThrows;
      hide TableOk;
      hide Extends;
      hide Forwarded;
      hide Sum;
      hide FirstThrow;
      hide FindsExpired;
      ExtendsSelf(AsTable());
      acquired := acquired + 1;
      if r.truncated || r.size > PAYLOAD_LIMIT || r.key == None {
        ok := Drop();
      } else {
        ok := ForwardRequest(r.key.value, r.size);
      }
    }

    // One receive from the listener.
    method ListenerStep() returns (more: bool, ok: bool)
      requires Valid()
      modifies this`flows, this`flowTokensByKey, this`nextFlowToken, this`bound, this`lost, this`acquired, metrics
      modifies host`now, host`ticks, host`closes, host`faults, host`thrown, host`failures, host`throws, host`selections
      modifies host`codes, host`setupFailures
      modifies host`sends, host`submitted, host`receives, host`receiveCalls, host`sources, host`dry
      ensures Valid() && Extends(old(AsTable()), AsTable())
      ensures host.receiveCalls == old(host.receiveCalls) + 1 && (!more ==> host.dry)
      ensures lost == old(lost) + if old(IsRequest(host.NextReceive()) && LosesDatagram(host.NextReceive().key.value)) then 1 else 0
      ensures lost != old(lost) ==> !ok
      ensures host.faults >= old(host.faults) && (!ok ==> host.faults > old(host.faults) || nextFlowToken == U64_MAX)
      ensures var r := old(host.NextReceive()); acquired == old(acquired) + if r.Received? then 1 else 0
      ensures old(IsRequest(host.NextReceive()) && LiveFlow(host.NextReceive().key.value)) ==>
                Sends(old(host.submitted), host.submitted, old(host.sends),
                      ToBackend(old(FlowOf(host.NextReceive().key.value)).backend), old(host.NextReceive()).size)
      ensures old(IsRequest(host.NextReceive())) && old(host.NextReceive()).key.value !in old(flowTokensByKey) ==>
                if old(CreationCommits() && !AnnounceThrows(host.throws))
                then Sends(old(host.submitted), host.submitted, old(host.sends), ToBackend(old(host.selections)[0].backend), old(host.NextReceive()).size)
                else host.submitted == old(host.submitted)
      ensures !old(IsRequest(host.NextReceive())) ==> host.submitted == old(host.submitted)
      ensures host.sources == old(host.sources) + [LISTENER]
      ensures more <==> !(old(host.NextReceive()).ReceiveError? && old(host.NextReceive()).error != EINTR)
      ensures old(host.NextReceive()) == ReceiveError(EINTR) || old(host.NextReceive()) == ReceiveError(EAGAIN) ==>
                ok && metrics.exact == old(metrics.exact) && AsTable() == old(AsTable())
      ensures old(host.NextReceive()).ReceiveError? ==> var e := old(host.NextReceive()).error;
                e == EINTR || e == EAGAIN
                || (AsTable() == old(AsTable()) && metrics.exact == (if EndsService(e, true) then old(metrics.exact) else Bumped(old(metrics.exact), Failure, 1))
                    && (ok <==> !EndsService(e, true) && old(host.NextReportOk())))
      ensures host.thrown >= old(host.thrown) && (ok ==> host.thrown == old(host.thrown))
    {
      hide EndsService;
      hide Sends;
      hide UdpReactor.CreationCommits;
      hide AnnounceThrows;
      hide TableOk;
      hide Extends;
      hide Forwarded;
      hide Sum;
      hide FirstThrow;
      hide FindsExpired;
      hide IsSharedSocketError;
      ExtendsSelf(AsTable());
      more, ok := true, true;
      var r := host.Receive(LISTENER);
      match r {
        case ReceiveError(error) =>
          if error != EINTR {
            more := false;
            if error != EAGAIN {
              var alive;
              alive, ok := HandleSocketError(error, true, NO_TOKEN);
            }
          }
        case Received(size, truncated, key) =>
          ok := TakeDatagram(r);
      }
    }

    // handleBackendRead: up to 64 datagrams of one flow, which is looked up again each time.
    method HandleBackendRead(token: nat) returns (ok: bool)
      requires Valid()
      modifies this`flows, this`flowTokensByKey, this`acquired, metrics
      modifies host`now, host`ticks, host`closes, host`faults, host`thrown, host`failures, host`throws, host`sends
      modifies host`submitted, host`receives, host`receiveCalls, host`sources, host`dry
      ensures ok ==> host.receiveCalls == old(host.receiveCalls) + RECEIVE_BUDGET || token !in flows
                     || (host.dry && old(host.receiveCalls) < host.receiveCalls)
      ensures Valid() && Extends(old(AsTable()), AsTable())
      ensures host.faults >= old(host.faults) && (!ok ==> host.faults > old(host.faults))
      ensures old(host.sources) <= host.sources && forall i :: |old(host.sources)| <= i < |host.sources| ==> host.sources[i] == token
      ensures host.thrown >= old(host.thrown) && (ok ==> host.thrown == old(host.thrown))
    {
      hide TableOk;
      hide Extends;
      hide Forwarded;
      hide Sum;
      hide FirstThrow;
      ExtendsSelf(AsTable());
      for attempt := 0 to RECEIVE_BUDGET
        invariant Valid() && Extends(old(AsTable()), AsTable())
        invariant old(host.sources) <= host.sources && forall i :: |old(host.sources)| <= i < |host.sources| ==> host.sources[i] == token
        invariant host.faults >= old(host.faults) && host.thrown == old(host.thrown)
        invariant host.receiveCalls == old(host.receiveCalls) + attempt
      {
        ghost var middle := AsTable();
        var more;
        more, ok := BackendStep(token);
        ExtendsTrans(old(AsTable()), middle, AsTable());
        if !more || !ok {
          return;
        }
      }
      ok := host.Report();
    }

    // One receive from the socket of a flow, which expires first if its idle time is over.
    method BackendStep(token: nat) returns (more: bool, ok: bool)
      requires Valid()
      modifies this`flows, this`flowTokensByKey, this`acquired, metrics
      modifies host`now, host`ticks, host`closes, host`faults, host`thrown, host`failures, host`throws, host`sends
      modifies host`submitted, host`receives, host`receiveCalls, host`sources, host`dry
      ensures Valid() && Extends(old(AsTable()), AsTable())
      ensures more ==> host.receiveCalls == old(host.receiveCalls) + 1
      ensures ok && !more ==> token !in flows || (host.dry && host.receiveCalls == old(host.receiveCalls) + 1)
      ensures host.faults >= old(host.faults) && (!ok ==> host.faults > old(host.faults))
      ensures host.sources == old(host.sources) || host.sources == old(host.sources) + [token]
      ensures token !in old(flows) ==> ok && !more && AsTable() == old(AsTable()) && host.submitted == old(host.submitted)
      ensures token in old(flows) && Expired(old(flows[token]), old(host.NextNow()), idleTimeout) ==>
                !more && token !in flows && Count(Timeout) == old(Count(Timeout)) + 1 && host.submitted == old(host.submitted)
                && (ok <==> FirstThrow(old(host.NextClose())) == None)
      ensures token in old(flows) && !Expired(old(flows[token]), old(host.NextNow()), idleTimeout) && IsReply(old(host.NextReceive())) ==>
                more && acquired == old(acquired) + 1
                && Sends(old(host.submitted), host.submitted, old(host.sends),
                         ToClient(old(flows[token]).key.client, old(flows[token]).key.localAddress), old(host.NextReceive()).size)
      ensures token in old(flows) && !Expired(old(flows[token]), old(host.NextNow()), idleTimeout) && !IsReply(old(host.NextReceive())) ==>
                host.submitted == old(host.submitted) && acquired == old(acquired) + if old(host.NextReceive()).Received? then 1 else 0
      ensures token in old(flows) && !Expired(old(flows[token]), old(host.NextNow()), idleTimeout) && old(host.NextReceive()).ReceiveError? ==>
                BackendError(old(host.NextReceive()).error, more, ok, token in flows)
      ensures host.thrown >= old(host.thrown) && (ok ==> host.thrown == old(host.thrown))
    {
      hide BackendError;
      hide Sends;
      hide IsFatal;
      hide TableOk;
      hide Extends;
      hide Shrunk;
      hide Forwarded;
      hide Sum;
      hide FirstThrow;
      hide IsResourcePressure;
      ExtendsSelf(AsTable());
      more, ok := false, true;
      if token !in flows {
        return;
      }
      var time := host.Now();
      if Expired(flows[token], time, idleTimeout) {
        ok := Expire(token);
        return;
      }
      more, ok := ReceiveReply(token);
    }

    // One receive from the socket of a flow.
    method ReceiveReply(token: nat) returns (more: bool, ok: bool)
      requires Valid() && token in flows
      modifies this`flows, this`flowTokensByKey, this`acquired, metrics
      modifies host`now, host`ticks, host`closes, host`faults, host`thrown, host`failures, host`throws, host`sends
      modifies host`submitted, host`receives, host`receiveCalls, host`sources, host`dry
      ensures Valid() && Extends(old(AsTable()), AsTable())
      ensures host.receiveCalls == old(host.receiveCalls) + 1 && host.sources == old(host.sources) + [token]
      ensures ok && !more ==> token !in flows || host.dry
      ensures host.faults >= old(host.faults) && (!ok ==> host.faults > old(host.faults))
      ensures acquired == old(acquired) + if old(host.NextReceive()).Received? then 1 else 0
      ensures IsReply(old(host.NextReceive())) ==>
                more && Sends(old(host.submitted), host.submitted, old(host.sends),
                              ToClient(old(flows[token]).key.client, old(flows[token]).key.localAddress), old(host.NextReceive()).size)
      ensures !IsReply(old(host.NextReceive())) ==> host.submitted == old(host.submitted)
      ensures old(host.NextReceive()).ReceiveError? ==> BackendError(old(host.NextReceive()).error, more, ok, token in flows)
      ensures host.thrown >= old(host.thrown) && (ok ==> host.thrown == old(host.thrown))
    {
      hide EndsService;
      hide Sends;
      hide IsFatal;
      hide TableOk;
      hide Extends;
      hide Shrunk;
      hide Forwarded;
      hide Sum;
      hide FirstThrow;
      hide IsResourcePressure;
      ExtendsSelf(AsTable());
      more, ok := false, true;
      var r := host.Receive(token);
      match r {
        case ReceiveError(error) =>
          if error == EINTR {
            more := true;
          } else if error != EAGAIN {
            var alive;
            alive, ok := HandleSocketError(error, false, token);
          }
        case Received(size, truncated, _) =>
          more := true;
          acquired := acquired + 1;
          if truncated || size > PAYLOAD_LIMIT {
            ok := Drop();
          } else {
            ok := SendFlowDatagram(token, size, true);
          }
      }
    }

    // dispatchFlowEvent. A token without a flow is a stale event and changes nothing.
    method DispatchFlowEvent(e: Ready) returns (ok: bool)
      requires Valid()
      modifies this`flows, this`flowTokensByKey, this`nextFlowToken, this`bound, this`lost, this`acquired, this`handled, metrics
      modifies host`now, host`ticks, host`closes, host`faults, host`thrown, host`failures, host`throws, host`selections
      modifies host`codes, host`setupFailures
      modifies host`sends, host`submitted, host`receives, host`receiveCalls, host`sources, host`dry
      ensures Valid() && Extends(old(AsTable()), AsTable())
      ensures handled == old(handled) + [e]
      ensures old(lost) <= lost <= old(lost) + 1 && (lost != old(lost) ==> !ok)
      ensures ok && e.input && !e.error && !e.hangup && (e.token == LISTENER || (e.token in flows && e.token != SIGNALS)) ==>
                old(host.receiveCalls) < host.receiveCalls
      ensures e.token != LISTENER && e.token !in old(flows) ==> AsTable() == old(AsTable()) && acquired == old(acquired)
      ensures host.faults >= old(host.faults) && (!ok ==> host.faults > old(host.faults) || nextFlowToken == U64_MAX
                                                            || (e.token == LISTENER && e.hangup))
      ensures host.thrown >= old(host.thrown) && (ok ==> host.thrown == old(host.thrown))
      ensures e.token == SIGNALS ==> ok && AsTable() == old(AsTable()) && host.throws == old(host.throws) && host.receiveCalls == old(host.receiveCalls)
      ensures e.token != LISTENER && e.token != SIGNALS && e.token !in old(flows) ==>
                (ok <==> old(host.NextReportOk())) && host.receiveCalls == old(host.receiveCalls)
      ensures !e.input || e.hangup ==> host.receiveCalls == old(host.receiveCalls) && acquired == old(acquired)
      ensures old(host.sources) <= host.sources && forall i :: |old(host.sources)| <= i < |host.sources| ==> host.sources[i] == e.token
      ensures e.token != LISTENER ==> nextFlowToken == old(nextFlowToken) && bound == old(bound) && lost == old(lost)
      ensures e.token != LISTENER && e.token != SIGNALS && e.token in old(flows) && Expired(old(flows)[e.token], old(host.NextNow()), idleTimeout) ==>
                e.token !in flows && host.receiveCalls == old(host.receiveCalls)
      ensures e.token != LISTENER && e.token != SIGNALS && e.token in old(flows) && !Expired(old(flows)[e.token], old(host.NextNow()), idleTimeout)
              && !e.error ==>
                (e.hangup ==> e.token !in flows) && (!e.hangup && !e.input ==> ok && AsTable() == old(AsTable()))
      ensures e.token == LISTENER && e.hangup ==> !ok
      ensures e.error && (e.token == LISTENER || (e.token in old(flows) && e.token != SIGNALS)) && old(host.PeekCode(0)) != 0 ==>
                host.receiveCalls == old(host.receiveCalls) && (e.token == LISTENER ==> !ok)
    {
      hide SocketErrorEnds;
      hide Expired;
      hide EndsService;
      hide TableOk;
      hide Extends;
      hide Forwarded;
      hide Sum;
      hide FirstThrow;
      ExtendsSelf(AsTable());
      ok, handled := true, handled + [e];
      if e.token == SIGNALS {
        return;
      }
      var listener := e.token == LISTENER;
      if !listener && e.token !in flows {
        ok := host.Report();
        return;
      }
      var done;
      done, ok := BeforeRead(e, listener);
      if done || !ok || !e.input {
        return;
      }
      ghost var middle := AsTable();
      if listener {
        ok := HandleListenerRead();
      } else {
        ok := HandleBackendRead(e.token);
      }
      ExtendsTrans(old(AsTable()), middle, AsTable());
    }

    // Expiry, socket errors and hang-ups come before any read.
    method BeforeRead(e: Ready, listener: bool) returns (done: bool, ok: bool)
      requires Valid() && (listener || e.token in flows)
      modifies this`flows, this`flowTokensByKey, metrics
      modifies host`now, host`ticks, host`closes, host`faults, host`thrown, host`failures, host`throws, host`codes, host`setupFailures
      ensures ok && !e.error && !e.hangup ==> (done <==> !listener && e.token !in flows)
      ensures Valid() && Extends(old(AsTable()), AsTable())
      ensures host.faults >= old(host.faults) && (!ok ==> host.faults > old(host.faults) || (listener && e.hangup))
      ensures host.thrown >= old(host.thrown) && (ok ==> host.thrown == old(host.thrown))
      ensures !listener && Expired(old(flows)[e.token], old(host.NextNow()), idleTimeout) ==>
                done && e.token !in flows && Count(Timeout) == old(Count(Timeout)) + 1 && (ok <==> FirstThrow(old(host.NextClose())) == None)
      ensures (listener || !Expired(old(flows)[e.token], old(host.NextNow()), idleTimeout)) && !e.error && !e.hangup ==>
                !done && ok && AsTable() == old(AsTable()) && metrics.exact == old(metrics.exact)
      ensures (listener || !Expired(old(flows)[e.token], old(host.NextNow()), idleTimeout)) && !e.error && e.hangup ==>
                done && if listener then !ok && AsTable() == old(AsTable())
                        else e.token !in flows && (ok <==> FirstThrow(old(host.NextClose())) == None)
                             && Count(Failure) == old(Count(Failure)) + 1 + if old(host.NextClose()).detachFails then 1 else 0
      ensures (listener || !Expired(old(flows)[e.token], old(host.NextNow()), idleTimeout)) && e.error && !e.hangup ==>
                SocketErrorEnds(old(host.PeekCode(0)), old(host.PeekCode(1)), listener, old(host.NextReportOk()), done, ok, e.token in flows)
      ensures e.hangup && ok ==> done
      ensures !done && ok ==> AsTable() == old(AsTable())
      ensures listener && e.hangup ==> !ok
      ensures e.error && old(host.PeekCode(0)) != 0 ==> done && (listener ==> !ok)
    {
      hide EndsService;
      hide IsResourcePressure;
      hide TableOk;
      hide Extends;
      hide Shrunk;
      hide Forwarded;
      hide Sum;
      hide FirstThrow;
      ExtendsSelf(AsTable());
      done, ok := true, true;
      if !listener {
        var time := host.Now();
        if Expired(flows[e.token], time, idleTimeout) {
          ok := Expire(e.token);
          return;
        }
      }
      if e.error {
        done, ok := SocketError(e.token, listener);
        if done || !ok {
          return;
        }
      }
      done := e.hangup;
      if e.hangup {
        if listener {
          return true, false;
        }
        ghost var middle := AsTable();
        Neutral(metrics.exact, Failure, host.submitted);
        Stat(Failure);
        var failure := CloseFlow(e.token);
        ExtendsTrans(old(AsTable()), middle, AsTable());
        ok := failure == None;
      }
    }

    // SO_ERROR of a backend socket could not be read.
    method OptionFailed(token: nat, error: nat) returns (ok: bool)
      requires Valid() && token in flows
      modifies this`flows, this`flowTokensByKey, metrics, host`closes, host`faults, host`thrown, host`failures
      ensures Valid() && Extends(old(AsTable()), AsTable()) && token !in flows
      ensures host.faults == old(host.faults) + (if ok then 0 else 1) && host.thrown == old(host.thrown) + if ok then 0 else 1
      ensures ok <==> FirstThrow(old(host.NextClose())) == None
      ensures Count(Failure) == old(Count(Failure)) + (if error == EAGAIN || error == EINTR then 0 else 1)
                                + if old(host.NextClose()).detachFails then 1 else 0
    {
      hide TableOk;
      hide Extends;
      hide Shrunk;
      hide Forwarded;
      hide Sum;
      hide FirstThrow;
      if error != EAGAIN && error != EINTR {
        Neutral(metrics.exact, Failure, host.submitted);
        Stat(Failure);
      }
      var failure := CloseFlow(token);
      ok := failure == None;
    }

    // EPOLLERR: SO_ERROR is read and handled.
    method SocketError(token: nat, listener: bool) returns (done: bool, ok: bool)
      requires Valid() && (listener || token in flows)
      modifies this`flows, this`flowTokensByKey, metrics, host`closes, host`faults, host`thrown, host`failures
      modifies host`throws, host`codes, host`setupFailures
      ensures Valid() && Extends(old(AsTable()), AsTable())
      ensures host.faults >= old(host.faults) && (!ok ==> host.faults > old(host.faults))
      ensures host.thrown >= old(host.thrown) && (ok ==> host.thrown == old(host.thrown))
      ensures SocketErrorEnds(old(host.PeekCode(0)), old(host.PeekCode(1)), listener, old(host.NextReportOk()), done, ok, token in flows)
      ensures listener || !done ==> AsTable() == old(AsTable())
      ensures old(host.PeekCode(0)) != 0 && !listener && old(host.PeekCode(0)) != EBADF && old(host.PeekCode(0)) != ENOTSOCK ==>
                (ok <==> token !in old(flows) || FirstThrow(old(host.NextClose())) == None)
                && Count(Failure) == old(Count(Failure)) + (if old(host.PeekCode(0)) == EAGAIN || old(host.PeekCode(0)) == EINTR then 0 else 1)
                     + (if token in old(flows) && old(host.NextClose()).detachFails then 1 else 0)
    {
      hide EndsService;
      hide IsResourcePressure;
      hide TableOk;
      hide Extends;
      hide Shrunk;
      hide Forwarded;
      hide Sum;
      hide FirstThrow;
      ExtendsSelf(AsTable());
      var failed := host.ReadOption();
      if failed != 0 {
        if listener || failed == EBADF || failed == ENOTSOCK {
          return true, false;
        }
        ok := OptionFailed(token, failed);
        return true, ok;
      }
      var code := host.Code();
      done := false;
      ok := host.Report();
      if ok && code != 0 {
        var alive;
        alive, ok := HandleSocketError(code, listener, token);
        done := !alive;
      }
    }

    // The ready events of one wait, until a stop signal or an exception.
    method DispatchAll(ready: seq<Ready>) returns (stopped: bool, ok: bool)
      requires Valid()
      modifies this`flows, this`flowTokensByKey, this`nextFlowToken, this`bound, this`lost, this`acquired, this`handled, metrics, host
      ensures Valid() && Extends(old(AsTable()), AsTable()) && |host.signals| <= |old(host.signals)|
      ensures !stopped ==> handled == old(handled) + ready
      ensures old(lost) <= lost <= old(lost) + 1 && (lost != old(lost) ==> !ok)
      ensures host.faults >= old(host.faults) && (!ok ==> host.faults > old(host.faults) || nextFlowToken == U64_MAX
                                                            || ListenerHangsUp(ready))
      ensures stopped && ok ==> host.stops > old(host.stops)
      ensures host.stops >= old(host.stops)
      ensures host.thrown >= old(host.thrown) && (ok ==> host.thrown == old(host.thrown))
      ensures !stopped ==> host.stops == old(host.stops)
      ensures host.maintained == old(host.maintained)
      ensures host.waits == old(host.waits)
    {
      hide UdpReactor.Valid;
      hide TableOk;
      hide Extends;
      hide Forwarded;
      hide Sum;
      hide FirstThrow;
      ExtendsSelf(AsTable());
      for i := 0 to |ready|
        invariant Valid() && Extends(old(AsTable()), AsTable()) && |host.signals| <= |old(host.signals)| && lost == old(lost)
        invariant host.faults >= old(host.faults) && host.thrown == old(host.thrown) && host.stops == old(host.stops)
        invariant host.waits == old(host.waits)
        invariant host.maintained == old(host.maintained)
        invariant handled == old(handled) + ready[..i]
      {
        var signal := host.ReadSignal();
        if signal != NoSignal {
          return true, signal == StopSignal;
        }
        ghost var middle := AsTable();
        ok := DispatchFlowEvent(ready[i]);
        ExtendsTrans(old(AsTable()), middle, AsTable());
        if !ok {
          return true, false;
        }
      }
      stopped, ok := false, true;
    }

    // expireIdleFlows between two datagrams.
    method ExpireNow() returns (ok: bool)
      requires Valid()
      modifies this`flows, this`flowTokensByKey, metrics, host`now, host`ticks, host`closes, host`faults, host`thrown, host`failures
      ensures Valid() && Extends(old(AsTable()), AsTable())
      ensures ok ==> forall token :: token in flows ==> !Expired(flows[token], host.now, idleTimeout)
      ensures forall token :: token in old(flows) && !Expired(old(flows)[token], host.now, idleTimeout) ==> token in flows
      ensures host.faults == old(host.faults) + (if ok then 0 else 1) && host.thrown == old(host.thrown) + if ok then 0 else 1
    {
      hide TableOk;
      hide Extends;
      hide Shrunk;
      hide Forwarded;
      hide Sum;
      hide FirstThrow;
      ok := ExpireIdleFlows();
    }

    // One pass of the loop after its first signal check.
    method Pass() returns (stopped: bool, ok: bool)
      requires Valid()
      modifies this`flows, this`flowTokensByKey, this`nextFlowToken, this`bound, this`lost, this`acquired, this`handled, metrics, host
      ensures Valid() && Extends(old(AsTable()), AsTable()) && |host.signals| <= |old(host.signals)|
      ensures !stopped && old(host.waits) != [] && old(host.waits)[0].Events? ==> handled == old(handled) + old(host.waits)[0].ready
      ensures old(lost) <= lost <= old(lost) + 1 && (lost != old(lost) ==> !ok)
      ensures host.faults >= old(host.faults) && (!ok ==> host.faults > old(host.faults) || nextFlowToken == U64_MAX)
      ensures stopped && ok ==> host.stops > old(host.stops)
      ensures host.stops >= old(host.stops)
      ensures host.thrown >= old(host.thrown) && (ok ==> host.thrown == old(host.thrown))
      ensures !stopped ==> host.stops == old(host.stops) && host.waits == Skip(old(host.waits), 1)
      ensures ok ==> host.waits == Skip(old(host.waits), 1)
      ensures !stopped && old(host.waits) != [] && old(host.waits)[0].Events? ==> host.maintained == old(host.maintained) + 1
    {
      hide UdpReactor.Valid;
      hide TableOk;
      hide Extends;
      hide Shrunk;
      hide Forwarded;
      hide Sum;
      hide FirstThrow;
      ok := ExpireNow();
      if !ok {
        return true, false;
      }
      var wait := host.WaitForEvents();
      if wait.Interrupted? {
        return false, true;
      }
      if wait.WaitError? {
        return true, false;
      }
      var signal := host.ReadSignal();
      if signal != NoSignal {
        return true, signal == StopSignal;
      }
      ghost var middle := AsTable();
      stopped, ok := AfterWait(wait.ready);
      ExtendsTrans(old(AsTable()), middle, AsTable());
    }

    method AfterWait(ready: seq<Ready>) returns (stopped: bool, ok: bool)
      requires Valid()
      modifies this`flows, this`flowTokensByKey, this`nextFlowToken, this`bound, this`lost, this`acquired, this`handled, metrics, host
      ensures Valid() && Extends(old(AsTable()), AsTable()) && |host.signals| <= |old(host.signals)|
      ensures !stopped ==> handled == old(handled) + ready
      ensures old(lost) <= lost <= old(lost) + 1 && (lost != old(lost) ==> !ok)
      ensures host.faults >= old(host.faults) && (!ok ==> host.faults > old(host.faults) || nextFlowToken == U64_MAX
                                                            || ListenerHangsUp(ready))
      ensures stopped && ok ==> host.stops > old(host.stops)
      ensures host.stops >= old(host.stops)
      ensures host.thrown >= old(host.thrown) && (ok ==> host.thrown == old(host.thrown))
      ensures !stopped ==> host.stops == old(host.stops) && host.maintained == old(host.maintained) + 1
      ensures host.waits == old(host.waits)
    {
      hide UdpReactor.Valid;
      hide TableOk;
      hide Extends;
      hide Shrunk;
      hide Forwarded;
      hide Sum;
      hide FirstThrow;
      ok := ExpireNow();
      if ok {
        ok := host.Maintain();
      }
      if !ok {
        return true, false;
      }
      ghost var middle := AsTable();
      stopped, ok := DispatchAll(ready);
      ExtendsTrans(old(AsTable()), middle, AsTable());
    }

    // runUdpEventLoop.
    method RunUdpEventLoop() returns (ok: bool)
      requires Valid()
      modifies this`flows, this`flowTokensByKey, this`nextFlowToken, this`bound, this`lost, this`acquired, this`handled, metrics, host
      ensures Valid() && Extends(old(AsTable()), AsTable())
      ensures old(lost) <= lost <= old(lost) + 1 && (lost != old(lost) ==> !ok)
      ensures host.faults >= old(host.faults) && (!ok ==> host.faults > old(host.faults) || nextFlowToken == U64_MAX)
      ensures ok ==> host.stops > old(host.stops)
      ensures host.thrown >= old(host.thrown) && (ok ==> host.thrown == old(host.thrown))
      ensures ok && |old(host.signals)| > 0 && old(host.signals)[0] == NoSignal && old(host.waits) != [] ==> |host.waits| < |old(host.waits)|
    {
      hide TableOk;
      hide Extends;
      hide Forwarded;
      hide Sum;
      hide FirstThrow;
      ExtendsSelf(AsTable());
      ok := host.Report();     // the ready callback
      var stopped := !ok;
      ghost var first := true;
      while !stopped
        invariant Valid() && Extends(old(AsTable()), AsTable())
        invariant old(lost) <= lost <= old(lost) + 1 && (lost != old(lost) ==> !ok)
        invariant !stopped ==> ok
        invariant first ==> host.signals == old(host.signals) && host.waits == old(host.waits) && (stopped ==> !ok)
        invariant !first && ok && old(host.waits) != [] ==> |host.waits| < |old(host.waits)|
        invariant host.thrown >= old(host.thrown) && (ok ==> host.thrown == old(host.thrown))
        invariant host.faults >= old(host.faults) && host.stops >= old(host.stops)
        invariant !ok ==> host.faults > old(host.faults) || nextFlowToken == U64_MAX
        invariant stopped && ok ==> host.stops > old(host.stops)
        decreases if stopped then 0 else 1 + |host.signals|
      {
        var signal := host.ReadSignal();
        if signal != NoSignal {
          return signal == StopSignal;
        }
        ghost var middle := AsTable();
        stopped, ok := Pass();
        first := false;
        ExtendsTrans(old(AsTable()), middle, AsTable());
        if !ok {
          return;
        }
      }
    }
  }

  // runUdpReactor, with its destructor: every run, however it ends, closes every flow it created,
  // and accounts for every datagram but at most one, whose loss ended it.
  method RunUdpReactor(reactor: UdpReactor) returns (ok: bool)
    requires reactor.Valid() && reactor.flows == map[]
    modifies reactor, reactor.metrics, reactor.host
    ensures reactor.Valid() && reactor.flows == map[] && reactor.metrics.sessionsActive == 0
    ensures reactor.metrics.exact[Slot(Created)] == reactor.metrics.exact[Slot(Closed)]
    ensures reactor.lost <= old(reactor.lost) + 1 && (ok ==> reactor.lost == old(reactor.lost))
    ensures reactor.acquired == reactor.Events() + reactor.lost
    ensures Extends(old(reactor.AsTable()), reactor.AsTable())
    ensures !ok ==> reactor.host.faults > old(reactor.host.faults) || reactor.nextFlowToken == U64_MAX
    ensures ok ==> reactor.host.stops > old(reactor.host.stops)
    ensures reactor.host.thrown >= old(reactor.host.thrown) && (ok ==> reactor.host.thrown == old(reactor.host.thrown))
  {
    hide TableOk;
    hide Extends;
    hide Forwarded;
    hide Sum;
    hide FirstThrow;
    ok := reactor.RunUdpEventLoop();
    ghost var middle := reactor.AsTable();
    var failure := reactor.CloseAllFlows();
    ExtendsTrans(old(reactor.AsTable()), middle, reactor.AsTable());
    ok := ok && failure == None;
  }

  // A reactor at its start, with nothing scripted to happen.
  method Fresh(maxFlows: nat, idleTimeout: nat) returns (r: UdpReactor)
    requires 0 < maxFlows && 0 < idleTimeout
    ensures fresh(r) && fresh(r.host) && fresh(r.metrics) && r.Valid() && r.maxFlows == maxFlows && r.idleTimeout == idleTimeout
    ensures r.flows == map[] && r.flowTokensByKey == map[] && r.nextFlowToken == FIRST_TOKEN && r.lost == 0
    ensures r.metrics.sessionsActive == 0 && r.host.now == 0 && r.host.ticks == [] && r.host.closes == []
    ensures r.host.throws == [] && r.host.selections == [] && r.host.codes == []
  {
    var host := new UdpHost([], [], [], [], [], [], [], [], []);
    var metrics := new MetricsCollector(true);
    r := new UdpReactor(host, metrics, maxFlows, idleTimeout);
  }

  // A creation that fails and leaves its flow behind: everything succeeds but the observation
  // callback that announces the flow. The caller counts the datagram as dropped.
  method FailedCreationLeavesFlow(key: UdpFlowKey, backend: Endpoint) returns (r: UdpReactor, ok: bool)
    ensures fresh(r) && r.Valid() && !ok
    ensures key in r.flowTokensByKey && r.flowTokensByKey[key] in r.flows && |r.flows| == 1
  {
    hide TableOk;
    hide Extends;
    hide ShrunkOrNew;
    hide Forwarded;
    hide Sum;
    r := Fresh(1, 1);
    r.host.selections, r.host.throws := [Selected(backend)], [true];
    NoneDue(r.flows, r.host.NextNow(), 1);
    var token;
    token, ok := r.CreateFlow(key);
  }

  // The case in which a datagram is lost does occur: its flow went idle a moment ago, before the
  // loop came to expire it, and the flow callback of closing it throws.
  method LossHappens(key: UdpFlowKey, backend: Endpoint, timeout: nat, size: nat) returns (r: UdpReactor, ok: bool)
    requires 0 < timeout && size <= PAYLOAD_LIMIT
    ensures fresh(r) && r.Valid() && !ok
    ensures r.lost == 1 && r.acquired == r.Events() + 1
  {
    hide TableOk;
    hide Extends;
    hide ShrunkOrNew;
    hide Forwarded;
    hide Sum;
    hide Due;
    r := Fresh(1, timeout);
    r.host.selections := [Selected(backend)];
    NoneDue(r.flows, r.host.NextNow(), timeout);
    var token;
    token, ok := r.CreateFlow(key);
    r.host.ticks, r.host.closes := [timeout], [CloseOutcome(false, false, false, true)];
    ok := Lose(r, key, size);
  }

  // One datagram received in that state.
  method Lose(r: UdpReactor, key: UdpFlowKey, size: nat) returns (ok: bool)
    requires r.Valid() && r.LosesDatagram(key) && size <= PAYLOAD_LIMIT
    modifies r, r.host, r.metrics
    ensures r.Valid() && !ok && r.lost == old(r.lost) + 1
  {
    hide TableOk;
    hide Extends;
    hide Forwarded;
    hide Sum;
    hide FindsExpired;
    hide FirstThrow;
    r.host.receives := [Received(size, false, Some(key))];
    var more;
    more, ok := r.ListenerStep();
  }

  // With a limit of more than 1024 flows the gauge need not be their number: the 1025th creation
  // is refused by the collector, and the reactor does not look.
  method GaugeFallsBehind(limit: nat, backend: Endpoint) returns (r: UdpReactor)
    requires MAX_ACTIVE < limit
    ensures fresh(r) && r.Valid() && r.maxFlows == limit
    ensures |r.flows| == MAX_ACTIVE + 1 && r.metrics.sessionsActive == MAX_ACTIVE
  {
    hide TableOk;
    hide Forwarded;
    hide Sum;
    r := Fresh(limit, 1);
    r.host.selections := seq(MAX_ACTIVE + 1, _ => Selected(backend));
    for i := 0 to MAX_ACTIVE + 1
      invariant fresh(r) && fresh(r.host) && fresh(r.metrics) && r.maxFlows == limit && Filled(r, backend, i)
    {
      FillOne(r, backend, i);
    }
  }

  // The state of that run after i creations.
  ghost predicate Filled(r: UdpReactor, backend: Endpoint, i: nat)
    requires i <= MAX_ACTIVE + 1
    reads r, r.host, r.metrics
  {
    && r.Valid() && r.idleTimeout == 1
    && |r.flows| == i && r.metrics.sessionsActive == Min(MAX_ACTIVE, i) && r.nextFlowToken == FIRST_TOKEN + i
    && |r.host.selections| == MAX_ACTIVE + 1 - i && (forall j :: 0 <= j < |r.host.selections| ==> r.host.selections[j] == Selected(backend))
    && r.host.now == 0 && r.host.ticks == [] && r.host.closes == [] && r.host.throws == [] && r.host.codes == []
    && (forall k :: k in r.flowTokensByKey ==> k.client.port < i)
    && forall t :: t in r.flows ==> r.flows[t].lastSubmission == 0
  }

  method FillOne(r: UdpReactor, backend: Endpoint, i: nat)
    requires i <= MAX_ACTIVE < r.maxFlows && Filled(r, backend, i)
    modifies r, r.host, r.metrics
    ensures Filled(r, backend, i + 1)
  {
    hide TableOk;
    hide Extends;
    hide Forwarded;
    hide Sum;
    hide Due;
    var key := UdpFlowKey(Endpoint([10, 0, 0, 1], i), [10, 0, 0, 2]);
    NoneDue(r.flows, 0, 1);
    var token, ok := r.CreateFlow(key);
    forall t | t in r.flows
      ensures r.flows[t].lastSubmission == 0
    {
      Inverse(r.AsTable(), t, r.flows[t].key);
    }
  }

  lemma NoneDue(flows: map<nat, UdpFlow>, now: nat, timeout: nat)
    requires forall t :: t in flows ==> !Expired(flows[t], now, timeout)
    ensures Due(flows, now, timeout) == {}
  {
  }

  lemma NonEmpty(m: map<nat, UdpFlow>)
    requires m != map[]
    ensures exists token :: token in m
  {
  }

  // The datagram and dropped events among exact sums.
  ghost function Sum(exact: seq<nat>): nat
    requires |exact| == KINDS
  {
    exact[Slot(DatagramC2b)] + exact[Slot(DatagramB2c)] + exact[Slot(Dropped)]
  }

  // Datagram events and byte counts are exactly those of the datagrams the kernel took.
  ghost predicate Forwarded(exact: seq<nat>, submitted: seq<Submission>) {
    && |exact| == KINDS
    && exact[Slot(DatagramC2b)] == Datagrams(submitted, true) && exact[Slot(BytesC2b)] == Bytes(submitted, true)
    && exact[Slot(DatagramB2c)] == Datagrams(submitted, false) && exact[Slot(BytesB2c)] == Bytes(submitted, false)
  }

  ghost function Datagrams(submitted: seq<Submission>, request: bool): nat {
    if submitted == [] then 0
    else Datagrams(submitted[..|submitted| - 1], request) + if submitted[|submitted| - 1].route.ToBackend? == request then 1 else 0
  }

  ghost function Bytes(submitted: seq<Submission>, request: bool): nat {
    if submitted == [] then 0
    else
      var last := submitted[|submitted| - 1];
      Bytes(submitted[..|submitted| - 1], request) + if last.route.ToBackend? == request then last.size else 0
  }

  lemma {:induction false} EachIsOne(submitted: seq<Submission>)
    ensures Datagrams(submitted, true) + Datagrams(submitted, false) == |submitted|
  {
    if submitted != [] {
      EachIsOne(submitted[..|submitted| - 1]);
    }
  }

  ghost function Bumped(exact: seq<nat>, kind: StatKind, amount: nat): seq<nat>
  {
    if |exact| == KINDS then exact[Slot(kind) := exact[Slot(kind)] + amount] else exact
  }

  // Events of the other kinds touch neither account.
  lemma Neutral(exact: seq<nat>, kind: StatKind, submitted: seq<Submission>)
    requires |exact| == KINDS
    requires kind != DatagramC2b && kind != DatagramB2c && kind != BytesC2b && kind != BytesB2c
    ensures Sum(Bumped(exact, kind, 1)) == Sum(exact) + if kind == Dropped then 1 else 0
    ensures Forwarded(exact, submitted) ==> Forwarded(Bumped(exact, kind, 1), submitted)
  {
  }

  function RouteOf(flow: UdpFlow, reply: bool): Route {
    if reply then ToClient(flow.key.client, flow.key.localAddress) else ToBackend(flow.backend)
  }

  // One more datagram taken by the kernel.
  lemma ForwardStep(exact: seq<nat>, submitted: seq<Submission>, flow: UdpFlow, size: nat, reply: bool)
    requires Forwarded(exact, submitted)
    ensures var (bytes, datagram) := if reply then (BytesB2c, DatagramB2c) else (BytesC2b, DatagramC2b);
            var after := Bumped(Bumped(exact, bytes, size), datagram, 1);
            Forwarded(after, submitted + [Submission(RouteOf(flow, reply), size)]) && Sum(after) == Sum(exact) + 1
  {
    hide Datagrams;
    hide Bytes;
    SubmittedExtends(submitted, Submission(RouteOf(flow, reply), size), true);
    SubmittedExtends(submitted, Submission(RouteOf(flow, reply), size), false);
  }

  lemma SubmittedExtends(submitted: seq<Submission>, s: Submission, request: bool)
    ensures Datagrams(submitted + [s], request) == Datagrams(submitted, request) + if s.route.ToBackend? == request then 1 else 0
    ensures Bytes(submitted + [s], request) == Bytes(submitted, request) + if s.route.ToBackend? == request then s.size else 0
  {
    assert (submitted + [s])[..|submitted + [s]| - 1] == submitted;
  }
}
