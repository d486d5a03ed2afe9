/**
 The TCP reactor: the session table, the token table that names live session ends, event
 dispatch, deadline scan, accept, and the two-stage stop.
 */
module TcpReactor {
  import opened Common
  import opened TcpState
  import opened TcpKernel
  import opened TcpStop
  import opened TcpSession

  // One termination notice, with what was still queued and whether both streams were complete.
  datatype Closing = Closing(id: nat, reason: CloseReason, error: nat, queued: nat, complete: bool)

  ghost function ClosingOf(s: Session, reason: CloseReason, error: nat): Closing
    reads s, s.client, s.backend, s.fromClient`size, s.fromBackend`size
  {
    Closing(s.id, reason, error, s.fromClient.size + s.fromBackend.size, s.Complete())
  }

  predicate TimedOut(reason: CloseReason) {
    reason == ConnectTimeout || reason == IdleTimeout
  }

  // How many of the DEL calls for the registered ends will fail.
  function DelFailures(client: bool, backend: bool, codes: seq<nat>): nat {
    var second := if client then 1 else 0;
    (if client && 0 < |codes| && codes[0] != 0 then 1 else 0)
    + if backend && second < |codes| && codes[second] != 0 then 1 else 0
  }

  // How a session stands with the deadline scan: connecting or established, over its deadline, and
  // with no retry overdue.
  datatype Standing = Standing(connecting: bool, due: bool, punctual: bool)

  // The scan closes a session as timed out only if it is over its deadline, and for any other
  // reason only after a retry that was overdue.
  predicate NoticeFits(reason: CloseReason, s: Standing) {
    if TimedOut(reason) then s.due && (reason == ConnectTimeout <==> s.connecting) else !s.due && !s.punctual
  }

  ghost predicate Noticed(before: seq<Closing>, after: seq<Closing>, standings: map<nat, Standing>) {
    before <= after
    && forall i :: |before| <= i < |after| ==> after[i].id in standings && NoticeFits(after[i].reason, standings[after[i].id])
  }

  lemma NoticedNone(a: seq<Closing>, standings: map<nat, Standing>)
    ensures Noticed(a, a, standings)
  {
  }

  // A deadline scan that still has to look at the sessions `rest`: those stand as they did, the
  // others have neither deadline nor retry overdue, and who had neither is still there.
  ghost predicate Scanned(before: map<nat, Standing>, now: map<nat, Standing>, rest: set<nat>, ok: bool) {
    && now.Keys <= before.Keys
    && (ok ==> rest <= now.Keys && forall k :: k in rest ==> now[k] == before[k])
    && (ok ==> forall k :: k in now && k !in rest ==> !before[k].due && now[k].punctual)
    && forall k :: k in before && !before[k].due && before[k].punctual ==> k in now
  }

  lemma ScannedNone(before: map<nat, Standing>)
    ensures Scanned(before, before, before.Keys, true)
  {
  }

  lemma ScannedNext(before: map<nat, Standing>, middle: map<nat, Standing>, now: map<nat, Standing>, rest: set<nat>, id: nat, ok: bool)
    requires Scanned(before, middle, rest, true) && id in rest
    requires now.Keys <= middle.Keys && forall k :: k in middle && k != id ==> k in now && now[k] == middle[k]
    requires id in now ==> !middle[id].due && (ok ==> now[id].punctual)
    requires !middle[id].due && middle[id].punctual ==> id in now
    ensures Scanned(before, now, rest - {id}, ok)
  {
  }

  lemma StillThere(before: map<nat, Standing>, now: map<nat, Standing>, rest: set<nat>, id: nat)
    requires Scanned(before, now, rest, true) && id in rest
    ensures id in now && id in before && now[id] == before[id]
  {
  }

  // One more session was scanned, which stood as it did at the start.
  lemma OneNotice(a: seq<Closing>, b: seq<Closing>, c: seq<Closing>, before: map<nat, Standing>, now: map<nat, Standing>, id: nat)
    requires Noticed(a, b, before) && Noticed(b, c, now) && id in before && id in now && before[id] == now[id]
    requires forall i :: |b| <= i < |c| ==> c[i].id == id
    ensures Noticed(a, c, before)
  {
  }

  // What closes sessions in a drain: nothing left to send, a connection that was still pending, a
  // failed call, or the stop becoming final.
  ghost predicate DrainNoticed(before: seq<Closing>, after: seq<Closing>, faulty: bool, final: bool) {
    before <= after
    && forall i :: |before| <= i < |after| ==>
         after[i].reason == StopDrained || after[i].reason == StopConnecting || (faulty && after[i].reason.Failure?)
         || (final && (after[i].reason == StopDeadline || after[i].reason == StopForced))
  }

  lemma DrainNoticedMore(a: seq<Closing>, b: seq<Closing>, c: seq<Closing>, p: bool, q: bool, r: bool, s: bool)
    requires DrainNoticed(a, b, p, q) && DrainNoticed(b, c, r, s)
    ensures DrainNoticed(a, c, p || r, q || s)
  {
  }

  lemma DrainNoticedNone(a: seq<Closing>)
    ensures forall p, q :: DrainNoticed(a, a, p, q)
  {
  }

  datatype AcceptClass = Accepted | NoClient | Interrupted | Transient | Exhausted | Unexpected

  // How acceptClientSessions treats the errno of accept4.
  function ClassifyAccept(code: nat): AcceptClass {
    if code == 0 then Accepted
    else if code == EAGAIN then NoClient
    else if code == EINTR then Interrupted
    else if code in {ECONNABORTED, EPROTO, ENETDOWN, ENOPROTOOPT, EHOSTDOWN, ENONET, EHOSTUNREACH, EOPNOTSUPP, ENETUNREACH}
    then Transient
    else if code in {EMFILE, ENFILE, ENOBUFS, ENOMEM} then Exhausted
    else Unexpected
  }

  datatype Wait = Ready(events: seq<(nat, Events)>) | WaitIntr | WaitError
  ghost function TokensOf(events: seq<(nat, Events)>): (r: seq<nat>)
    ensures |r| == |events| && forall i :: 0 <= i < |r| ==> r[i] == events[i].0
  {
    seq(|events|, i requires 0 <= i < |events| => events[i].0)
  }

  // An event that reports an error or a hang-up of the listener.
  ghost predicate ListenerFails(events: seq<(nat, Events)>) {
    exists i :: 0 <= i < |events| && events[i].0 == LISTENER_TOKEN && (events[i].1.error || events[i].1.hup)
  }

  ghost predicate AnyFails(waits: seq<Wait>) {
    exists i :: 0 <= i < |waits| && (waits[i].WaitError? || (waits[i].Ready? && ListenerFails(waits[i].events)))
  }

  lemma FailsAt(waits: seq<Wait>, i: nat)
    requires i < |waits|
    ensures waits[i].WaitError? || (waits[i].Ready? && ListenerFails(waits[i].events)) ==> AnyFails(waits)
  {
  }

  // The tokens of all events of all waits, in order.
  ghost function AllTokens(waits: seq<Wait>): seq<nat> {
    if waits == [] then []
    else
      var last := waits[|waits| - 1];
      AllTokens(waits[..|waits| - 1]) + if last.Ready? then TokensOf(last.events) else []
  }

  datatype Verdict = Continue | Return | Throw

  // No session has more queued than before, in either direction, and none is new.
  ghost predicate Below(now: map<nat, (nat, nat)>, before: map<nat, (nat, nat)>) {
    forall k :: k in now ==> k in before && now[k].0 <= before[k].0 && now[k].1 <= before[k].1
  }

  lemma BelowTrans(a: map<nat, (nat, nat)>, b: map<nat, (nat, nat)>, c: map<nat, (nat, nat)>)
    requires Below(a, b) && Below(b, c)
    ensures Below(a, c)
  {
  }

  lemma BelowSelf(a: map<nat, (nat, nat)>)
    ensures Below(a, a) && Below(map[], a)
  {
  }

  const ACCEPT_BATCH: nat := 64
  const LISTENER_BACKOFF: nat := 100
  const LISTENER_TOKEN: nat := 1
  const SIGNAL_TOKEN: nat := 2

  ghost predicate IsLive(s: Session)
    reads s.Footprint()
  {
    s.Live()
  }

  function Tok(tokens: (nat, nat), d: Side): nat {
    if d == 0 then tokens.0 else tokens.1
  }

  // Sessions own disjoint objects.
  ghost predicate Disjoint(sessions: map<nat, Session>, objects: set<object>) {
    && (forall id :: id in sessions ==> sessions[id].Footprint() <= objects)
    && (forall a, b :: a in sessions && b in sessions && a != b ==> sessions[a].Footprint() !! sessions[b].Footprint())
  }

  lemma OwnedBy(sessions: map<nat, Session>, objects: set<object>, id: nat)
    requires Disjoint(sessions, objects) && id in sessions
    ensures sessions[id].Footprint() <= objects
  {
  }

  lemma DisjointRemove(sessions: map<nat, Session>, objects: set<object>, id: nat)
    requires Disjoint(sessions, objects) && id in sessions
    ensures Disjoint(sessions - {id}, objects) && sessions[id].Footprint() <= objects
    ensures forall b :: b in sessions - {id} ==> sessions[b].Footprint() !! sessions[id].Footprint()
    ensures forall b :: b in sessions - {id} ==> sessions[b].Footprint() !! {}
  {
    hide Session.Footprint;
  }

  // Identity: every token entry names a live session end carrying it, and conversely.
  ghost predicate Named(entries: map<nat, Target>, wired: map<nat, (nat, nat)>) {
    && (forall t :: t in entries ==>
          entries[t].side < 2 && entries[t].sessionId in wired && Tok(wired[entries[t].sessionId], entries[t].side) == t)
    && (forall id, d: Side :: id in wired && Tok(wired[id], d) != 0 ==>
          Tok(wired[id], d) in entries && entries[Tok(wired[id], d)] == Target(id, d))
  }

  // Retiring both tokens of a session keeps every other token naming its own session end.
  lemma NamedRemove(entries: map<nat, Target>, wired: map<nat, (nat, nat)>, id: nat)
    requires Named(entries, wired) && id in wired
    ensures Named(entries - {wired[id].0, wired[id].1}, wired - {id})
  {
    var left, others := entries - {wired[id].0, wired[id].1}, wired - {id};
    forall t | t in left
      ensures left[t].sessionId in others && Tok(others[left[t].sessionId], left[t].side) == t
    {
      assert Tok(wired[entries[t].sessionId], entries[t].side) == t;
    }
    forall k, d: Side | k in others && Tok(others[k], d) != 0
      ensures Tok(others[k], d) in left && left[Tok(others[k], d)] == Target(k, d)
    {
      assert entries[Tok(wired[k], d)] == Target(k, d);
      assert Tok(wired[id], 0) != 0 ==> entries[Tok(wired[id], 0)] == Target(id, 0);
      assert Tok(wired[id], 1) != 0 ==> entries[Tok(wired[id], 1)] == Target(id, 1);
    }
  }

  // A session without tokens changes nothing for the others.
  lemma NamedEmpty(entries: map<nat, Target>, wired: map<nat, (nat, nat)>, id: nat)
    requires Named(entries, wired) && id !in wired
    ensures Named(entries, wired[id := (0, 0)])
  {
    var others := wired[id := (0, 0)];
    forall t | t in entries
      ensures entries[t].sessionId in others && Tok(others[entries[t].sessionId], entries[t].side) == t
    {
      assert Tok(wired[entries[t].sessionId], entries[t].side) == t;
    }
  }

  // A fresh token names exactly the end it was registered for.
  lemma NamedAdd(entries: map<nat, Target>, wired: map<nat, (nat, nat)>, id: nat, d: Side, token: nat)
    requires Named(entries, wired) && id in wired && 0 !in entries && token !in entries && token != 0 && Tok(wired[id], d) == 0
    ensures var pair := if d == 0 then (token, wired[id].1) else (wired[id].0, token);
            Named(entries[token := Target(id, d)], wired[id := pair])
  {
    var pair := if d == 0 then (token, wired[id].1) else (wired[id].0, token);
    var more, others := entries[token := Target(id, d)], wired[id := pair];
    forall t | t in more
      ensures more[t].sessionId in others && more[t].side < 2 && Tok(others[more[t].sessionId], more[t].side) == t
    {
      if t == token {
        assert more[t] == Target(id, d);
      } else {
        assert more[t] == entries[t];
        assert Tok(wired[more[t].sessionId], more[t].side) == t;
      }
    }
    forall k, e: Side | k in others && Tok(others[k], e) != 0
      ensures Tok(others[k], e) in more && more[Tok(others[k], e)] == Target(k, e)
    {
      if (k, e) != (id, d) {
        assert Tok(others[k], e) == Tok(wired[k], e);
      }
    }
  }

  lemma SmallerMap<V>(m: map<nat, V>, id: nat)
    requires id in m
    ensures |m - {id}| == |m| - 1 && (m - {id}).Keys == m.Keys - {id}
  {
    var rest := m - {id};
    assert m.Keys == rest.Keys + {id};
  }

  lemma DropTwo<V>(m: map<nat, V>, a: nat, b: nat)
    ensures m - {a} - {b} == m - {a, b}
  {
  }

  // A clean reason is only ever reported for a session that earned it, and the errno of the failed
  // call, if there was one.
  ghost predicate Honest(c: Closing) {
    (c.reason == StopDrained ==> c.queued == 0) && (c.reason == Drained ==> c.complete)
    && (!c.reason.Failure? ==> c.error == if TimedOut(c.reason) then ETIMEDOUT else 0)
  }

  // The first failure wins: `first` unless it is None, else the first nonzero result.
  function FirstOf(first: Option<nat>, results: seq<nat>): Option<nat> {
    if results == [] then first
    else
      var before := FirstOf(first, results[..|results| - 1]);
      if before.Some? then before
      else if results[|results| - 1] != 0 then Some(results[|results| - 1]) else None
  }

  // With nothing before, FirstOf is the first nonzero result, and None only if all succeeded.
  lemma {:induction false} FirstOfIsFirst(results: seq<nat>)
    ensures FirstOf(None, results) == None <==> forall i :: 0 <= i < |results| ==> results[i] == 0
    ensures FirstOf(None, results).Some? ==>
              exists i :: 0 <= i < |results| && results[i] == FirstOf(None, results).value != 0
                          && forall j :: 0 <= j < i ==> results[j] == 0
  {
    if results != [] {
      var last := |results| - 1;
      FirstOfIsFirst(results[..last]);
      if FirstOf(None, results[..last]).Some? {
        var i :| 0 <= i < last && results[..last][i] == FirstOf(None, results[..last]).value != 0
                 && forall j :: 0 <= j < i ==> results[..last][j] == 0;
        assert results[i] == FirstOf(None, results).value;
        assert forall j :: 0 <= j < i ==> results[j] == results[..last][j];
      } else {
        assert forall i :: 0 <= i < last ==> results[i] == results[..last][i];
      }
    }
  }

  lemma EmptyResults()
    ensures FirstOf(None, []) == None
  {
  }

  // A failure that is already there stays; otherwise the later results decide.
  lemma {:induction false} FirstOfFrom(first: Option<nat>, results: seq<nat>)
    ensures FirstOf(first, results) == if first.Some? then first else FirstOf(None, results)
    decreases |results|
  {
    if results != [] {
      FirstOfFrom(first, results[..|results| - 1]);
    }
  }

  lemma {:induction false} FirstOfAppend(first: Option<nat>, a: seq<nat>, b: seq<nat>)
    ensures FirstOf(first, a + b) == FirstOf(FirstOf(first, a), b)
    decreases |b|
  {
    if b == [] {
      assert a + b == a;
    } else {
      var last := |b| - 1;
      FirstOfAppend(first, a, b[..last]);
      assert (a + b)[..|a + b| - 1] == a + b[..last];
    }
  }

  class TcpReactor {
    const kernel: Kernel
    const stop: StopControl
    const tokens: EndpointTokens
    const maxSessions: nat
    const connectTimeout: nat
    const idleTimeout: nat
    var sessions: map<nat, Session>
    var nextSessionId: nat
    var listenerRetryTime: nat
    ghost var wired: map<nat, (nat, nat)>   // the tokens of both ends of each session, 0 for none
    ghost var objects: set<object>          // everything any session ever owned
    ghost var closings: seq<Closing>
    ghost var handled: seq<nat>             // the tokens of the events dispatched so far
    ghost var overCapacity: nat             // clients accepted while the table was full
    ghost var handledAfterStop: nat         // of the events, those after the stop had become final
    ghost var scans: nat                    // deadline scans so far
    ghost var maintained: nat               // maintenance callbacks that returned

    // The three tables agree about which sessions exist.
    ghost predicate Table()
      reads this`sessions, this`wired, this`nextSessionId, tokens
    {
      && tokens.Valid() && |sessions| <= maxSessions
      && (forall id :: id in sessions ==> id < nextSessionId)
      && Named(tokens.entries, wired)
    }

    ghost predicate Apart()
      reads this`sessions, this`objects
    {
      Disjoint(sessions, objects)
      && this !in objects && tokens !in objects && stop !in objects && kernel !in objects
    }

    ghost predicate AllSound()
      reads this`sessions, this`wired, this`objects, objects
    {
      Apart() && wired.Keys == sessions.Keys && forall id :: id in sessions ==> sessions[id].Sound(id, wired[id])
    }

    // Sessions whose objects were not touched stay sound.
    twostate lemma KeepsSound(touched: set<object>)
      requires old(Apart()) && old(wired.Keys == sessions.Keys) && old(AllSound())
      requires Apart() && wired.Keys == sessions.Keys
      requires forall b :: b in sessions ==> b in old(sessions) && sessions[b] == old(sessions[b]) && wired[b] == old(wired[b])
      requires forall b :: b in sessions ==> sessions[b].Footprint() !! touched
      requires forall o: object :: o in old(objects) && o !in touched ==> unchanged(o)
      ensures AllSound()
    {
      hide Session.Footprint;
      hide Session.Sound;
      forall b | b in sessions
        ensures sessions[b].Sound(b, wired[b])
      {
        assert old(sessions[b].Sound(b, wired[b]));
      }
    }

    // The objects of one session, if it exists.
    ghost function Parts(id: nat): set<object>
      reads this`sessions
    {
      if id in sessions then sessions[id].Footprint() else {}
    }

    // The objects behind a token, if it resolves.
    ghost function PartsOf(token: nat): set<object>
      reads this`sessions, tokens`entries
    {
      if token in tokens.entries then Parts(tokens.entries[token].sessionId) else {}
    }

    // Both tokens of every session are registered.
    ghost predicate AllWired()
      reads this`wired
    {
      forall id :: id in wired ==> wired[id].0 != 0 && wired[id].1 != 0
    }

    ghost predicate Valid()
      reads this, tokens, stop, kernel, objects
    {
      && stop.kernel == kernel && stop.Valid()
      && wired.Keys == sessions.Keys && Table() && Apart() && AllSound()
      && (forall c :: c in closings ==> Honest(c))
    }

    constructor (kernel: Kernel, maxSessions: nat, connectTimeout: nat, idleTimeout: nat, drainTimeout: nat)
      requires kernel.stops == 0 && kernel.Quiet()
      ensures Valid() && sessions == map[] && closings == [] && this.kernel == kernel
      ensures nextSessionId == 1 && listenerRetryTime == overCapacity == handledAfterStop == scans == maintained == 0 && handled == []
      ensures !stop.draining && !stop.stopRequested && tokens.entries == map[]
      ensures fresh(stop) && fresh(tokens) && objects == {}
      ensures this.maxSessions == maxSessions && stop.drainTimeout == drainTimeout
      ensures this.connectTimeout == connectTimeout && this.idleTimeout == idleTimeout
    {
      this.kernel, this.maxSessions, this.connectTimeout, this.idleTimeout := kernel, maxSessions, connectTimeout, idleTimeout;
      stop := new StopControl(kernel, drainTimeout);
      tokens := new EndpointTokens();
      sessions, nextSessionId, listenerRetryTime := map[], 1, 0;
      wired, objects, closings, handled, overCapacity := map[], {}, [], [], 0;
      handledAfterStop, scans, maintained := 0, 0, 0;
    }

    // Moves the session out of the table and retires both of its tokens.
    method RemoveFromTable(id: nat)
      requires Table() && id in sessions && wired.Keys == sessions.Keys
      requires sessions[id].client.token == wired[id].0 && sessions[id].backend.token == wired[id].1
      modifies this`sessions, this`wired, tokens
      ensures Table() && wired.Keys == sessions.Keys
      ensures sessions == old(sessions) - {id} && wired == old(wired) - {id}
      ensures tokens.entries == old(tokens.entries) - {old(wired[id].0), old(wired[id].1)}
      ensures tokens.nextToken == old(tokens.nextToken)
    {
      hide Named;
      NamedRemove(tokens.entries, wired, id);
      SmallerMap(sessions, id);
      var s := sessions[id];
      sessions := sessions - {id};
      wired := wired - {id};
      DropTwo(tokens.entries, s.client.token, s.backend.token);
      tokens.UnregisterEndpoint(s.client.token);
      tokens.UnregisterEndpoint(s.backend.token);
    }

    // Attempts `count` notifications whatever fails, keeping the first failure.
    method Notify(count: nat, first: Option<nat>) returns (failure: Option<nat>, ghost results: seq<nat>)
      modifies kernel`codes, kernel`faults, kernel`thrown
      ensures |results| == count && failure == FirstOf(first, results)
      ensures |kernel.codes| <= |old(kernel.codes)|
      ensures kernel.faults >= old(kernel.faults)
      ensures first == None ==> (failure == None <==> kernel.faults == old(kernel.faults))
      ensures kernel.thrown >= old(kernel.thrown)
      ensures first == None ==> (failure == None <==> kernel.thrown == old(kernel.thrown))
    {
      failure, results := first, [];
      for i := 0 to count
        invariant |results| == i && failure == FirstOf(first, results)
        invariant |kernel.codes| <= |old(kernel.codes)| && kernel.faults >= old(kernel.faults)
        invariant first == None ==> (failure == None <==> kernel.faults == old(kernel.faults))
        invariant first == None ==> (failure == None <==> kernel.thrown == old(kernel.thrown))
        invariant kernel.thrown >= old(kernel.thrown)
      {
        var code := kernel.Callback();
        assert (results + [code])[..i] == results;
        results := results + [code];
        if failure.None? && code != 0 {
          failure := Some(code);
        }
      }
    }

    // Leaves the epoll set on both ends and closes both fds; counts failing DELs.
    method DetachSession(s: Session) returns (failing: nat)
      requires s.Separate() && stop.kernel == kernel && stop.Valid()
      modifies s.client`registered, s.client`interest, s.client.socket`armed, s.client.socket`open
      modifies s.backend`registered, s.backend`interest, s.backend.socket`armed, s.backend.socket`open
      modifies kernel`codes
      ensures stop.Valid() && failing <= 2 && |kernel.codes| <= |old(kernel.codes)|
      ensures !s.client.registered && !s.backend.registered && !s.client.socket.open && !s.backend.socket.open
      ensures failing == DelFailures(old(s.client.registered), old(s.backend.registered), old(kernel.codes))
      ensures !old(s.client.registered) ==> s.client.socket.armed == old(s.client.socket.armed)
      ensures !old(s.backend.registered) ==> s.backend.socket.armed == old(s.backend.socket.armed)
    {
      hide StopControl.Valid;
      failing := 0;
      if s.client.registered {
        var code := kernel.Disarm(s.client.socket);
        failing := if code != 0 then 1 else 0;
      }
      s.client.registered, s.client.interest, s.client.socket.open := false, NO_INTEREST, false;
      if s.backend.registered {
        var code := kernel.Disarm(s.backend.socket);
        failing := failing + if code != 0 then 1 else 0;
      }
      s.backend.registered, s.backend.interest, s.backend.socket.open := false, NO_INTEREST, false;
    }

    // No session of the table shares an object with s.
    ghost predicate Loose(s: Session)
      reads this`sessions, this`objects
    {
      s.Separate() && s.Footprint() <= objects && forall b :: b in sessions ==> sessions[b].Footprint() !! s.Footprint()
    }

    // The first half of closeSession: no table knows the session any more.
    method ForgetSession(id: nat)
      requires Valid() && id in sessions
      modifies this`sessions, this`wired, tokens
      ensures Valid() && Loose(old(sessions[id]))
      ensures sessions == old(sessions) - {id} && wired == old(wired) - {id}
      ensures tokens.entries == old(tokens.entries) - {old(wired[id].0), old(wired[id].1)}
      ensures tokens.nextToken == old(tokens.nextToken)
    {
      hide Session.Footprint;
      hide Session.Sound;
      hide Session.Valid;
      hide Named;
      hide StopControl.Valid;
      hide Disjoint;
      var s := sessions[id];
      s.Unpack(id, wired[id]);
      DisjointRemove(sessions, objects, id);
      RemoveFromTable(id);
      KeepsSound({});
    }

    // The second half: release the fds, then attempt every notification.
    method ReleaseAndNotify(s: Session) returns (failure: Option<nat>, ghost results: seq<nat>)
      requires Valid() && Loose(s)
      modifies kernel`codes, kernel`faults, kernel`thrown, s.Footprint()
      ensures Valid() && |kernel.codes| <= |old(kernel.codes)|
      ensures failure == FirstOf(None, results) && 3 <= |results| <= 7
      ensures kernel.faults >= old(kernel.faults) && (failure == None <==> kernel.faults == old(kernel.faults))
      ensures |results| == 3 + 2 * DelFailures(old(s.client.registered), old(s.backend.registered), old(kernel.codes))
      ensures kernel.thrown >= old(kernel.thrown) && (failure == None <==> kernel.thrown == old(kernel.thrown))
    {
      hide DelFailures;
      hide Session.Footprint;
      hide Session.Sound;
      hide Named;
      hide StopControl.Valid;
      hide FirstOf;
      s.Members();
      var failing := DetachSession(s);
      failure, results := Notify(2 * failing + 3, None);
      KeepsSound(s.Footprint());
    }

    // Every session is live: armed, or waiting for a retry.
    ghost predicate AllLive()
      reads this`sessions, this`objects, objects
    {
      Apart() && forall b :: b in sessions ==> IsLive(sessions[b])
    }

    // Every session but the one being handled is live.
    ghost predicate LiveBut(id: nat)
      reads this`sessions, this`objects, objects
    {
      Apart() && forall b :: b in sessions && b != id ==> IsLive(sessions[b])
    }

    lemma NotInTable(id: nat)
      requires Apart() && id !in sessions
      ensures LiveBut(id) ==> AllLive() && sessions - {id} == sessions
    {
    }

    // After session `id` left the table, the remaining sessions are as live as before.
    twostate lemma KeepsLive(id: nat)
      requires old(Apart()) && Apart() && id in old(sessions) && sessions == old(sessions) - {id}
      requires forall o: object :: o in old(objects) && o !in old(sessions[id].Footprint()) ==> unchanged(o)
      ensures old(LiveBut(id)) ==> AllLive()
    {
      hide Session.Footprint;
      hide IsLive;
      hide Disjoint;
      forall b | b in sessions
        ensures old(LiveBut(id)) ==> IsLive(sessions[b])
      {
        OwnedBy(old(sessions), old(objects), b);
        DisjointRemove(old(sessions), old(objects), id);
        assert old(LiveBut(id)) ==> old(IsLive(sessions[b]));
      }
    }

    // closeSession: the tables forget the session before any notification can fail; every
    // notification is attempted, and the first failure is returned to be rethrown.
    method CloseSession(id: nat, reason: CloseReason, error: nat)
      returns (failure: Option<nat>, ghost results: seq<nat>)
      requires Valid()
      requires id in sessions ==> Honest(ClosingOf(sessions[id], reason, error))
      modifies this`sessions, this`wired, this`closings, tokens, kernel`codes, kernel`faults, kernel`thrown
      modifies if id in sessions then sessions[id].Footprint() else {}
      ensures Valid() && |kernel.codes| <= |old(kernel.codes)|
      ensures sessions == old(sessions) - {id} && wired == old(wired) - {id}
      ensures id in old(sessions) ==> tokens.entries == old(tokens.entries) - {old(wired[id].0), old(wired[id].1)}
      ensures id in old(sessions) ==> closings == old(closings) + [old(ClosingOf(sessions[id], reason, error))]
      ensures id !in old(sessions) ==> tokens.entries == old(tokens.entries) && closings == old(closings) && failure == None
      ensures tokens.nextToken == old(tokens.nextToken)
      ensures failure == FirstOf(None, results) && (id in old(sessions) ==> 3 <= |results| <= 7)
      ensures old(LiveBut(id)) ==> AllLive()
      ensures kernel.faults >= old(kernel.faults) && (failure == None <==> kernel.faults == old(kernel.faults))
      ensures kernel.thrown >= old(kernel.thrown) && (failure == None <==> kernel.thrown == old(kernel.thrown))
    {
      hide Session.Footprint;
      hide Session.Complete;
      hide Honest;
      hide FirstOf;
      hide TcpReactor.Table;
      hide TcpReactor.Loose;
      hide TcpReactor.AllSound;
      hide TcpReactor.LiveBut;
      hide TcpReactor.AllLive;
      hide Disjoint;
      hide StopControl.Valid;
      if id !in sessions {
        NotInTable(id);
        EmptyResults();
        return None, [];
      }
      Owned(id);
      var s := sessions[id];
      ghost var closing := ClosingOf(s, reason, error);
      ForgetSession(id);
      closings := closings + [closing];
      failure, results := ReleaseAndNotify(s);
      KeepsLive(id);
    }

    lemma Owned(id: nat)
      requires Apart() && id in sessions
      ensures sessions[id].Footprint() <= objects
      ensures forall b :: b in sessions && b != id ==> sessions[b].Footprint() !! sessions[id].Footprint()
    {
      hide Session.Footprint;
    }

    lemma PartsWithin(id: nat)
      requires Apart()
      ensures Parts(id) <= objects
    {
      hide Session.Footprint;
    }

    // No part of another session is among those of session id.
    lemma Strangers(id: nat)
      requires Apart() && id in sessions
      ensures forall k :: k in sessions && k != id ==>
                sessions[k] !in Parts(id) && sessions[k].fromClient !in Parts(id) && sessions[k].fromBackend !in Parts(id)
                && sessions[k].client !in Parts(id) && sessions[k].backend !in Parts(id)
    {
      forall k | k in sessions && k != id
        ensures sessions[k] !in Parts(id) && sessions[k].fromClient !in Parts(id) && sessions[k].fromBackend !in Parts(id)
        ensures sessions[k].client !in Parts(id) && sessions[k].backend !in Parts(id)
      {
        sessions[k].Members();
      }
    }

    lemma ValidOwned(id: nat)
      requires Valid() && id in sessions
      ensures sessions[id].Footprint() <= objects && Apart() && stop.kernel == kernel
      ensures forall b :: b in sessions && b != id ==> sessions[b].Footprint() !! sessions[id].Footprint()
    {
      Owned(id);
    }

    lemma ValidParts(id: nat)
      requires Valid()
      ensures Parts(id) <= objects && stop.kernel == kernel
    {
      PartsWithin(id);
    }

    lemma PartsOfWithin(token: nat)
      requires Apart()
      ensures PartsOf(token) <= objects
    {
      if token in tokens.entries {
        PartsWithin(tokens.entries[token].sessionId);
      }
    }

    // Without sessions no token resolves.
    lemma NothingNamed()
      requires Valid() && sessions == map[]
      ensures tokens.entries == map[]
    {
    }

    // closeAllSessions: ends with empty tables whichever callbacks fail, keeping the first failure.
    method CloseAllSessions(reason: CloseReason) returns (failure: Option<nat>, ghost results: seq<nat>)
      requires Valid() && reason != Drained && reason != StopDrained && !reason.Failure? && !TimedOut(reason)
      modifies this`sessions, this`wired, this`closings, tokens, kernel`codes, kernel`faults, kernel`thrown, objects
      ensures Valid() && sessions == map[] && tokens.entries == map[] && |kernel.codes| <= |old(kernel.codes)|
      ensures tokens.nextToken == old(tokens.nextToken)
      ensures failure == FirstOf(None, results)
      ensures old(closings) <= closings && |closings| == |old(closings)| + |old(sessions)|
      ensures forall i :: |old(closings)| <= i < |closings| ==> closings[i].reason == reason
      ensures kernel.faults >= old(kernel.faults) && (failure == None <==> kernel.faults == old(kernel.faults))
      ensures kernel.thrown >= old(kernel.thrown) && (failure == None <==> kernel.thrown == old(kernel.thrown))
    {
      hide Session.Footprint;
      hide Session.Complete;
      hide ClosingOf;
      hide Disjoint;
      hide FirstOf;
      hide TcpReactor.Table;
      hide TcpReactor.AllSound;
      hide StopControl.Valid;
      failure, results := None, [];
      EmptyResults();
      while |sessions| != 0
        invariant Valid() && failure == FirstOf(None, results) && |kernel.codes| <= |old(kernel.codes)|
        invariant kernel.faults >= old(kernel.faults) && (failure == None <==> kernel.faults == old(kernel.faults))
        invariant kernel.thrown >= old(kernel.thrown) && (failure == None <==> kernel.thrown == old(kernel.thrown))
        invariant tokens.nextToken == old(tokens.nextToken)
        invariant old(closings) <= closings && |closings| + |sessions| == |old(closings)| + |old(sessions)|
        invariant forall i :: |old(closings)| <= i < |closings| ==> closings[i].reason == reason
        decreases |sessions|
      {
        var id := AnySession();
        ghost var more;
        failure, more := CloseNext(id, reason, failure);
        FirstOfAppend(None, results, more);
        results := results + more;
      }
      NothingNamed();
    }

    // One iteration of closeAllSessions, after `failure` of the earlier ones.
    method CloseNext(id: nat, reason: CloseReason, failure: Option<nat>)
      returns (kept: Option<nat>, ghost results: seq<nat>)
      requires Valid() && id in sessions && reason != Drained && reason != StopDrained && !reason.Failure? && !TimedOut(reason)
      modifies this`sessions, this`wired, this`closings, tokens, kernel`codes, kernel`faults, kernel`thrown, objects
      ensures Valid() && |sessions| == |old(sessions)| - 1 && kept == FirstOf(failure, results)
      ensures |kernel.codes| <= |old(kernel.codes)| && tokens.nextToken == old(tokens.nextToken)
      ensures |closings| == |old(closings)| + 1 && old(closings) <= closings && closings[|old(closings)|].reason == reason
      ensures kernel.faults >= old(kernel.faults) && (failure.Some? ==> kept == failure)
      ensures failure == None ==> (kept == None <==> kernel.faults == old(kernel.faults))
      ensures kernel.thrown >= old(kernel.thrown)
      ensures failure == None ==> (kept == None <==> kernel.thrown == old(kernel.thrown))
    {
      hide Session.Footprint;
      hide Session.Complete;
      hide FirstOf;
      hide Disjoint;
      hide TcpReactor.Table;
      hide TcpReactor.AllSound;
      hide StopControl.Valid;
      Owned(id);
      SmallerMap(sessions, id);
      kept, results := CloseSession(id, reason, 0);
      FirstOfFrom(failure, results);
      if failure.Some? {
        kept := failure;
      }
    }

    method AnySession() returns (id: nat)
      requires |sessions| != 0
      ensures id in sessions
    {
      assert sessions.Keys != {};
      id :| id in sessions;
    }

    lemma SoundAt(id: nat)
      requires Apart() && wired.Keys == sessions.Keys && AllSound() && id in sessions
      ensures sessions[id].Sound(id, wired[id])
    {
    }

    // When one session, sound again, was touched, the others stay sound and live.
    twostate lemma KeepsOthers(id: nat)
      requires old(Apart()) && old(wired.Keys == sessions.Keys) && old(AllSound())
      requires Apart() && sessions == old(sessions) && wired.Keys == sessions.Keys && objects == old(objects) && id in sessions
      requires forall b :: b in wired && b != id ==> wired[b] == old(wired[b])
      requires sessions[id].Sound(id, wired[id])
      requires forall b :: b in sessions && b != id ==> sessions[b].Footprint() !! sessions[id].Footprint()
      requires forall o: object :: o in old(objects) && o !in sessions[id].Footprint() ==> unchanged(o)
      ensures AllSound()
      ensures old(LiveBut(id)) ==> LiveBut(id)
    {
      hide Session.Footprint;
      hide Session.Sound;
      hide IsLive;
      hide Disjoint;
      forall b | b in sessions && b != id
        ensures sessions[b].Sound(b, wired[b]) && (old(LiveBut(id)) ==> IsLive(sessions[b]))
      {
        OwnedBy(sessions, objects, b);
        assert old(sessions[b].Sound(b, wired[b]));
        assert old(LiveBut(id)) ==> old(IsLive(sessions[b]));
      }
    }

    // SO_ERROR for one session in place.
    method CheckInTable(id: nat, d: Side, events: Events) returns (out: Outcome)
      requires Valid() && id in sessions && AllWired()
      modifies kernel`codes, kernel`faults, kernel`now, kernel`ticks, (sessions[id] as Session)`connecting
      modifies (sessions[id] as Session)`lastIoTime
      ensures Valid() && stop.Advanced() && (sessions[id].connecting ==> old(sessions[id].connecting))
      ensures sessions[id].Ebbed()
      ensures old(LiveBut(id)) ==> LiveBut(id)
      ensures kernel.faults == old(kernel.faults) + if out.Ok? then 0 else 1
      ensures old(sessions[id].Asked(d, events)) ==>
                (old(kernel.PeekCode(0)) != 0 ==> out == Failed(SocketErrorCall, old(kernel.PeekCode(0))))
                && (old(kernel.PeekCode(0)) == 0 && old(kernel.PeekCode(1)) != 0 ==> out == Failed(SocketError, old(kernel.PeekCode(1))))
      ensures !old(sessions[id].Asked(d, events)) ==> out.Ok?
      ensures sessions[id].Suspended() == old(sessions[id].Suspended())
      ensures !old(sessions[id].connecting) ==> sessions[id].lastIoTime == old(sessions[id].lastIoTime)
    {
      hide Session.Asked;
      hide Session.Footprint;
      hide Session.Sound;
      hide Session.Valid;
      hide TcpReactor.LiveBut;
      hide TcpReactor.AllLive;
      hide Disjoint;
      hide TcpReactor.Table;
      hide TcpReactor.AllSound;
      hide StopControl.Valid;
      var s := sessions[id];
      SoundAt(id);
      s.Unpack(id, wired[id]);
      s.Members();
      Owned(id);
      out := s.CheckSocketError(stop, d, events);
      s.Pack(id, wired[id]);
      KeepsOthers(id);
    }

    // Serves one session in place; every other session stays sound and live.
    method ServeInTable(id: nat, d: Side, events: Events) returns (done: bool, out: Outcome)
      requires Valid() && id in sessions && AllWired()
      modifies stop, kernel, sessions[id].Footprint()
      ensures Valid() && stop.Advanced() && (sessions[id].connecting ==> old(sessions[id].connecting))
      ensures out.Ok? ==> sessions[id].Served(stop.draining, done)
      ensures old(stop.draining) ==> sessions[id].Ebbed()
      ensures !out.Ok? ==> !done
      ensures old(LiveBut(id)) ==> LiveBut(id)
      ensures !out.Ok? ==> old(kernel.faults) < kernel.faults
      ensures out.Ok? && !sessions[id].connecting ==> sessions[id].WorkDone(0, stop) && sessions[id].WorkDone(1, stop)
      ensures out.Ok? && !done ==>
                HangupSuspends((events.hup || events.rdhup) && sessions[id].lastIoTime == old(sessions[id].lastIoTime),
                               old(sessions[id].Suspended()), sessions[id].Suspended(), d, old(kernel.now))
      ensures kernel.thrown == old(kernel.thrown)
    {
      hide HangupSuspends;
      hide Session.Footprint;
      hide Session.Sound;
      hide Session.Valid;
      hide Session.Forward;
      hide Session.Served;
      hide Transferred;
      hide TcpReactor.LiveBut;
      hide TcpReactor.AllLive;
      hide Disjoint;
      hide TcpReactor.Table;
      hide TcpReactor.AllSound;
      hide StopControl.Valid;
      var s := sessions[id];
      SoundAt(id);
      s.Unpack(id, wired[id]);
      s.Members();
      Owned(id);
      done, out := s.ServeSession(stop, d, events);
      s.Pack(id, wired[id]);
      KeepsOthers(id);
    }

    // The part of dispatchEndpointEvent that may throw a SessionFailure.
    method CheckAndServe(id: nat, d: Side, events: Events) returns (done: bool, out: Outcome)
      requires Valid() && id in sessions && AllWired()
      modifies stop, kernel, sessions[id].Footprint()
      ensures Valid() && stop.Advanced() && (sessions[id].connecting ==> old(sessions[id].connecting))
      ensures out.Ok? ==> sessions[id].Served(stop.draining, done)
      ensures old(stop.draining) ==> sessions[id].Ebbed()
      ensures !out.Ok? ==> !done
      ensures old(LiveBut(id)) ==> LiveBut(id)
      ensures !out.Ok? ==> old(kernel.faults) < kernel.faults
      ensures out.Ok? && !sessions[id].connecting ==> sessions[id].WorkDone(0, stop) && sessions[id].WorkDone(1, stop)
      ensures old(sessions[id].Asked(d, events)) ==>
                (old(kernel.PeekCode(0)) != 0 ==> out == Failed(SocketErrorCall, old(kernel.PeekCode(0))))
                && (old(kernel.PeekCode(0)) == 0 && old(kernel.PeekCode(1)) != 0 ==> out == Failed(SocketError, old(kernel.PeekCode(1))))
      ensures out.Ok? && !done && !old(sessions[id].connecting) ==>
                HangupSuspends((events.hup || events.rdhup) && sessions[id].lastIoTime == old(sessions[id].lastIoTime),
                               old(sessions[id].Suspended()), sessions[id].Suspended(), d, old(kernel.now))
      ensures kernel.thrown == old(kernel.thrown)
    {
      hide Session.Asked;
      hide Transferred;
      hide Session.Footprint;
      hide Session.Served;
      hide TcpReactor.LiveBut;
      hide TcpReactor.AllLive;
      hide Disjoint;
      hide TcpReactor.Table;
      hide TcpReactor.AllSound;
      hide StopControl.Valid;
      Owned(id);
      sessions[id].Members();
      done := false;
      out := CheckInTable(id, d, events);
      if out.Ok? {
        done, out := ServeInTable(id, d, events);
      }
    }

    // Sessions only disappear, and with them only their own tokens.
    twostate predicate Shrunk()
      reads this`sessions, this`objects, tokens
    {
      && objects == old(objects) && tokens.nextToken == old(tokens.nextToken)
      && (forall k :: k in sessions ==> k in old(sessions) && sessions[k] == old(sessions[k]))
      && (forall t :: t in tokens.entries ==> t in old(tokens.entries))
    }

    // The reason reported for a session that advanceSessionIo declared done.
    function DoneReason(): CloseReason
      reads stop
    {
      if stop.stopRequested then stop.stopReason else if stop.draining then StopDrained else Drained
    }

    // What a finished session earned is what its close reason claims.
    lemma DoneIsHonest(id: nat)
      requires stop.Valid() && id in sessions && sessions[id].Served(stop.draining, true)
      ensures Honest(ClosingOf(sessions[id], DoneReason(), 0))
      ensures !TimedOut(DoneReason()) && DoneReason() != StopConnecting && !DoneReason().Failure?
    {
    }

    // After the session was served: close it if it is done or failed, otherwise it is live too.
    method FinishStep(id: nat, done: bool, result: Outcome) returns (out: Outcome)
      requires Valid() && AllWired() && id in sessions
      requires result.Ok? ==> sessions[id].Served(stop.draining, done)
      requires !stop.draining ==> LiveBut(id)
      modifies this`sessions, this`wired, this`closings, tokens, kernel`codes, kernel`faults, kernel`thrown, Parts(id)
      ensures Valid() && AllWired() && Shrunk() && !out.Failed? && |kernel.codes| <= |old(kernel.codes)|
      ensures out.Ok? && !stop.draining ==> AllLive()
      ensures result.Ok? && !done ==> out.Ok? && sessions == old(sessions)
      ensures forall t :: result.Ok? && !done && old(sessions[id].Punctual(t)) ==> sessions[id].Punctual(t)
      ensures id in sessions ==> sessions[id] == old(sessions[id]) && sessions[id].Ebbed()
      ensures result.Fatal? ==> out.Fatal?
      ensures result.Ok? && !done && stop.draining && !old(sessions[id].connecting) ==> sessions[id].Waiting()
      ensures sessions == old(sessions) || sessions == old(sessions) - {id}
      ensures (result.Ok? && done) || result.Failed? ==> sessions == old(sessions) - {id}
      ensures result.Ok? && done ==> closings == old(closings) + [old(ClosingOf(sessions[id], DoneReason(), 0))]
      ensures result.Failed? ==>
                closings == old(closings) + [old(ClosingOf(sessions[id], Failure(result.operation), result.error))]
      ensures !out.Ok? ==> result.Fatal? || old(kernel.faults) < kernel.faults
      ensures kernel.faults >= old(kernel.faults)
      ensures result.Fatal? || (result.Ok? && !done) ==> sessions == old(sessions) && closings == old(closings)
      ensures closings == old(closings) || (|closings| == |old(closings)| + 1 && old(closings) <= closings)
      ensures closings != old(closings) ==> var c := closings[|old(closings)|];
                c.id == id && !TimedOut(c.reason) && c.reason != StopConnecting && (c.reason.Failure? <==> result.Failed?)
                && (c.reason.Failure? || c.reason == DoneReason())
      ensures result.Ok? && !done ==>
                sessions[id].Position(0) == old(sessions[id].Position(0)) && sessions[id].Position(1) == old(sessions[id].Position(1))
                && sessions[id].connecting == old(sessions[id].connecting)
      ensures result.Ok? && !done ==>
                sessions[id].Suspended() == old(sessions[id].Suspended()) && sessions[id].lastIoTime == old(sessions[id].lastIoTime)
      ensures out.Ok? ==> kernel.thrown == old(kernel.thrown)
    {
      hide Session.Footprint;
      hide Session.Served;
      hide Session.Complete;
      hide Disjoint;
      hide TcpReactor.Table;
      hide TcpReactor.AllSound;
      hide TcpReactor.LiveBut;
      hide TcpReactor.AllLive;
      hide StopControl.Valid;
      Owned(id);
      KnowsItself(id);
      if result.Fatal? {
        return Fatal;
      }
      if result.Ok? && !done {
        ServedIsLive(id);
        ServedWaits(id);
        return Ok;
      }
      if result.Ok? {
        DoneIsHonest(id);
      }
      var failure, results := CloseSession(id, if result.Ok? then DoneReason() else Failure(result.operation),
                                           if result.Ok? then 0 else result.error);
      out := if failure.Some? then Fatal else Ok;
    }

    lemma ServedWaits(id: nat)
      requires id in sessions && sessions[id].Served(stop.draining, false)
      ensures stop.draining && !sessions[id].connecting ==> sessions[id].Waiting()
    {
    }

    lemma ServedIsLive(id: nat)
      requires Apart() && id in sessions && sessions[id].Served(stop.draining, false)
      ensures !stop.draining && LiveBut(id) ==> AllLive()
    {
      hide Session.Footprint;
      hide Disjoint;
    }

    lemma TokenTarget(token: nat)
      requires Valid() && token in tokens.entries
      ensures tokens.entries[token].side < 2 && tokens.entries[token].sessionId in sessions
    {
    }

    lemma AllLiveBut(id: nat)
      ensures AllLive() ==> LiveBut(id)
    {
    }

    // The token names an end of a session that is still connecting.
    ghost predicate ConnectingEnd(token: nat)
      reads this`sessions, tokens`entries
      reads if token in tokens.entries && tokens.entries[token].sessionId in sessions
            then {sessions[tokens.entries[token].sessionId]} else {}
    {
      token in tokens.entries && tokens.entries[token].sessionId in sessions
      && sessions[tokens.entries[token].sessionId].connecting
    }

    // dispatchEndpointEvent: a token that no longer resolves is ignored; otherwise the lookup of
    // its session succeeds and that session is served, closed or failed.
    method DispatchEndpointEvent(token: nat, events: Events) returns (out: Outcome)
      requires Valid() && AllWired() && (!stop.draining ==> AllLive())
      modifies this`sessions, this`wired, this`closings, tokens, stop, kernel, PartsOf(token)
      ensures Valid() && AllWired() && Shrunk() && stop.Advanced() && !out.Failed?
      ensures out.Ok? && !stop.draining ==> AllLive()
      ensures out.Ok? && old(stop.draining) && token in old(tokens.entries) ==>
                var id := old(tokens.entries[token].sessionId); id in sessions ==> sessions[id].Waiting()
      ensures old(stop.draining) && token in old(tokens.entries) ==>
                var id := old(tokens.entries[token].sessionId); id in sessions ==> id in old(sessions) && sessions[id] == old(sessions[id]) && sessions[id].Ebbed()
      ensures token !in old(tokens.entries) ==> out.Ok? && sessions == old(sessions) && closings == old(closings)
      ensures forall k :: k in old(sessions) && k !in sessions ==>
                token in old(tokens.entries) && k == old(tokens.entries[token].sessionId)
      ensures !out.Ok? ==> old(kernel.faults) < kernel.faults
      ensures closings == old(closings) || (|closings| == |old(closings)| + 1 && old(closings) <= closings)
      ensures closings != old(closings) ==> token in old(tokens.entries) && var c := closings[|old(closings)|];
                c.id == old(tokens.entries[token].sessionId) && !TimedOut(c.reason)
                && (c.reason.Failure? ==> old(kernel.faults) < kernel.faults)
                && (c.reason.Failure? || c.reason == StopConnecting || c.reason == DoneReason())
                && (c.reason == StopConnecting ==> old(stop.draining && ConnectingEnd(token)))
      ensures sessions == if closings == old(closings) then old(sessions) else old(sessions) - {closings[|old(closings)|].id}
      ensures out.Ok? && token in old(tokens.entries) ==>
                var id := old(tokens.entries[token].sessionId);
                id in sessions && !sessions[id].connecting ==> sessions[id].WorkDone(0, stop) && sessions[id].WorkDone(1, stop)
      ensures out.Ok? && token in old(tokens.entries) ==>
                var id, side := old(tokens.entries[token].sessionId), old(tokens.entries[token].side);
                id in sessions && !old(ConnectingEnd(token)) ==>
                  HangupSuspends((events.hup || events.rdhup) && sessions[id].lastIoTime == old(sessions[tokens.entries[token].sessionId].lastIoTime),
                                 old(sessions[tokens.entries[token].sessionId].Suspended()), sessions[id].Suspended(), side, old(kernel.now))
      ensures out.Ok? ==> kernel.thrown == old(kernel.thrown)
    {
      hide HangupSuspends;
      hide Transferred;
      hide TcpReactor.Valid;
      hide Session.Footprint;
      hide Session.Served;
      hide Session.Complete;
      hide Disjoint;
      hide TcpReactor.Table;
      hide TcpReactor.AllSound;
      hide TcpReactor.LiveBut;
      hide TcpReactor.AllLive;
      hide StopControl.Valid;
      if token !in tokens.entries {
        return Ok;
      }
      TokenTarget(token);
      var id, side := tokens.entries[token].sessionId, tokens.entries[token].side;
      ValidOwned(id);
      AllLiveBut(id);
      KnowsItself(id);
      if stop.draining && sessions[id].connecting {
        var failure, results := CloseSession(id, StopConnecting, 0);
        return if failure.Some? then Fatal else Ok;
      }
      var done, result := CheckAndServe(id, side, events);
      out := FinishStep(id, done, result);
    }

    // Nothing changed at all.
    twostate lemma KeepsAll()
      requires old(Apart()) && Apart() && sessions == old(sessions) && objects == old(objects)
      requires forall o: object :: o in old(objects) ==> unchanged(o)
      ensures old(AllLive()) ==> AllLive()
    {
      hide Session.Footprint;
      hide IsLive;
      hide Disjoint;
      forall b | b in sessions
        ensures old(AllLive()) ==> IsLive(sessions[b])
      {
        OwnedBy(sessions, objects, b);
        assert old(AllLive()) ==> old(IsLive(sessions[b]));
      }
    }

    // The retry part of processSessionDeadlines, for one session.
    method RetryInTable(id: nat, now: nat) returns (retry: bool, done: bool, out: Outcome)
      requires Valid() && id in sessions && AllWired()
      modifies stop, kernel, sessions[id].Footprint()
      ensures Valid() && stop.Advanced()
      ensures out.Ok? && retry ==> sessions[id].Served(stop.draining, done)
      ensures sessions[id].Punctual(now)
      ensures !out.Ok? || !retry ==> !done
      ensures !retry ==> out.Ok? && stop.draining == old(stop.draining)
      ensures old(LiveBut(id)) ==> LiveBut(id)
      ensures !out.Ok? ==> old(kernel.faults) < kernel.faults
      ensures retry <==> !old(sessions[id].Punctual(now))
      ensures !retry ==> forall o: object :: o in old(sessions[id].Footprint()) ==> unchanged(o)
      ensures out.Ok? && retry && !sessions[id].connecting ==> sessions[id].WorkDone(0, stop) && sessions[id].WorkDone(1, stop)
      ensures kernel.thrown == old(kernel.thrown)
    {
      hide Session.Footprint;
      hide Session.Sound;
      hide Session.Valid;
      hide Session.Forward;
      hide Session.Served;
      hide Transferred;
      hide IsLive;
      hide Disjoint;
      hide TcpReactor.Table;
      hide TcpReactor.AllSound;
      hide TcpReactor.LiveBut;
      hide StopControl.Valid;
      var s := sessions[id];
      SoundAt(id);
      s.Unpack(id, wired[id]);
      s.Members();
      Owned(id);
      done, out := false, Ok;
      retry := s.RetryDeferred(now);
      if retry {
        done, out := s.ServeSession(stop, 0, NO_EVENTS);
      }
      s.Pack(id, wired[id]);
      KeepsOthers(id);
    }

    // Idle and connect deadlines: a session is due when its last byte (or its creation) is old.
    predicate Due(s: Session, now: nat)
      reads s`connecting, s`lastIoTime
    {
      now - s.lastIoTime >= if s.connecting then connectTimeout else idleTimeout
    }

    // The deadline in plain terms.
    lemma DueMeans(s: Session, now: nat)
      ensures s.connecting ==> (Due(s, now) <==> s.lastIoTime + connectTimeout <= now)
      ensures !s.connecting ==> (Due(s, now) <==> s.lastIoTime + idleTimeout <= now)
    {
    }

    ghost function Standings(now: nat): map<nat, Standing>
      reads *
    {
      map id | id in sessions :: Standing(sessions[id].connecting, Due(sessions[id], now), sessions[id].Punctual(now))
    }

    lemma StandingsAre(now: nat)
      ensures Standings(now).Keys == sessions.Keys
      ensures forall k :: k in sessions ==>
                Standings(now)[k] == Standing(sessions[k].connecting, Due(sessions[k], now), sessions[k].Punctual(now))
    {
      hide TcpReactor.Due;
      hide Session.Punctual;
    }

    lemma StandingsCover(now: nat)
      ensures Standings(now).Keys == sessions.Keys
    {
    }

    lemma KnowsItself(id: nat)
      requires Valid() && id in sessions
      ensures sessions[id].id == id
    {
      hide Session.Valid;
      assert sessions[id].Sound(id, wired[id]);
    }

    // One session of processSessionDeadlines.
    method CheckDeadline(id: nat, now: nat) returns (out: Outcome)
      requires Valid() && AllWired() && AllLive() && !stop.draining && id in sessions
      modifies this`sessions, this`wired, this`closings, tokens, stop, kernel, Parts(id)
      ensures Valid() && AllWired() && Shrunk() && stop.Advanced() && !out.Failed?
      ensures out.Ok? && !stop.draining ==> AllLive()
      ensures forall k :: k in old(sessions) && k != id ==> k in sessions
      ensures out.Ok? && id in sessions ==> sessions[id].Punctual(now)
      ensures old(Due(sessions[id], now)) ==>
                id !in sessions && closings == old(closings) +
                  [old(ClosingOf(sessions[id], if sessions[id].connecting then ConnectTimeout else IdleTimeout, ETIMEDOUT))]
      ensures !out.Ok? ==> old(kernel.faults) < kernel.faults
      ensures !old(Due(sessions[id], now)) && old(sessions[id].Punctual(now)) ==>
                out.Ok? && sessions == old(sessions) && closings == old(closings)
                && forall o: object :: o in old(sessions[id].Footprint()) ==> unchanged(o)
      ensures closings == old(closings) || (|closings| == |old(closings)| + 1 && old(closings) <= closings)
      ensures closings != old(closings) ==> var c := closings[|old(closings)|];
                c.id == id && NoticeFits(c.reason, old(Standing(sessions[id].connecting, Due(sessions[id], now), sessions[id].Punctual(now))))
      ensures out.Ok? && !old(sessions[id].Punctual(now)) && id in sessions && !sessions[id].connecting ==>
                sessions[id].WorkDone(0, stop) && sessions[id].WorkDone(1, stop)
      ensures out.Ok? ==> kernel.thrown == old(kernel.thrown)
    {
      hide Transferred;
      hide Session.Footprint;
      hide Session.Served;
      hide Session.Complete;
      hide Disjoint;
      hide TcpReactor.Table;
      hide TcpReactor.AllSound;
      hide TcpReactor.LiveBut;
      hide TcpReactor.AllLive;
      hide StopControl.Valid;
      hide TcpReactor.Valid;
      ValidOwned(id);
      AllLiveBut(id);
      KnowsItself(id);
      if Due(sessions[id], now) {
        var reason := if sessions[id].connecting then ConnectTimeout else IdleTimeout;
        var failure, results := CloseSession(id, reason, ETIMEDOUT);
        return if failure.Some? then Fatal else Ok;
      }
      var retry, done, result := RetryInTable(id, now);
      out := Ok;
      if !retry {
        KeepsAll();
      } else {
        out := FinishStep(id, done, result);
      }
    }

    // Checking one session leaves the deadlines of the others alone.
    method ScanAlone(id: nat, now: nat) returns (out: Outcome)
      requires Valid() && AllWired() && AllLive() && !stop.draining && id in sessions
      modifies this`sessions, this`wired, this`closings, tokens, stop, kernel, Parts(id)
      ensures Valid() && AllWired() && Shrunk() && stop.Advanced() && !out.Failed?
      ensures out.Ok? && !stop.draining ==> AllLive()
      ensures !out.Ok? ==> old(kernel.faults) < kernel.faults
      ensures forall k :: k in old(sessions) && k != id ==>
                k in sessions && Due(sessions[k], now) == old(Due(sessions[k], now)) && sessions[k].connecting == old(sessions[k].connecting)
                && sessions[k].Punctual(now) == old(sessions[k].Punctual(now))
      ensures out.Ok? && id in sessions ==> sessions[id].Punctual(now)
      ensures old(Due(sessions[id], now)) ==> id !in sessions
      ensures !old(Due(sessions[id], now)) && old(sessions[id].Punctual(now)) ==> out.Ok? && id in sessions
      ensures closings == old(closings) || (|closings| == |old(closings)| + 1 && old(closings) <= closings)
      ensures closings != old(closings) ==> var c := closings[|old(closings)|];
                c.id == id && NoticeFits(c.reason, old(Standing(sessions[id].connecting, Due(sessions[id], now), sessions[id].Punctual(now))))
      ensures out.Ok? ==> kernel.thrown == old(kernel.thrown)
    {
      hide Session.Footprint;
      hide Disjoint;
      hide TcpReactor.Table;
      hide TcpReactor.AllSound;
      hide TcpReactor.AllLive;
      hide TcpReactor.Parts;
      hide StopControl.Valid;
      hide Session.Punctual;
      hide TcpReactor.Due;
      hide NoticeFits;
      Strangers(id);
      out := CheckDeadline(id, now);
    }

    // The same, in terms of how the sessions stand.
    method ScanOne(id: nat, now: nat) returns (out: Outcome)
      requires Valid() && AllWired() && AllLive() && !stop.draining && id in sessions
      modifies this`sessions, this`wired, this`closings, tokens, stop, kernel, Parts(id)
      ensures Valid() && AllWired() && Shrunk() && stop.Advanced() && !out.Failed?
      ensures out.Ok? && !stop.draining ==> AllLive()
      ensures !out.Ok? ==> old(kernel.faults) < kernel.faults
      ensures Standings(now).Keys <= old(Standings(now)).Keys && id in old(Standings(now))
      ensures forall k :: k in old(Standings(now)) && k != id ==> k in Standings(now) && Standings(now)[k] == old(Standings(now))[k]
      ensures id in Standings(now) ==> !old(Standings(now)[id]).due && (out.Ok? ==> Standings(now)[id].punctual)
      ensures !old(Standings(now)[id]).due && old(Standings(now)[id]).punctual ==> out.Ok? && id in Standings(now)
      ensures Noticed(old(closings), closings, old(Standings(now)))
      ensures old(closings) <= closings && forall i :: |old(closings)| <= i < |closings| ==> closings[i].id == id
      ensures out.Ok? ==> kernel.thrown == old(kernel.thrown)
    {
      hide Session.Footprint;
      hide Disjoint;
      hide TcpReactor.Apart;
      hide TcpReactor.Table;
      hide TcpReactor.AllSound;
      hide TcpReactor.AllLive;
      hide TcpReactor.AllWired;
      hide TcpReactor.Parts;
      hide TcpReactor.Valid;
      hide StopControl.Valid;
      hide Session.Punctual;
      hide TcpReactor.Due;
      hide TcpReactor.Standings;
      hide NoticeFits;
      StandingsAre(now);
      out := ScanAlone(id, now);
      StandingsAre(now);
    }

    // One round of the scan.
    method ScanNext(id: nat, now: nat, ghost before: map<nat, Standing>, ghost rest: set<nat>, ghost start: seq<Closing>)
      returns (out: Outcome)
      requires Valid() && AllWired() && AllLive() && !stop.draining && id in sessions && id in rest
      requires Scanned(before, Standings(now), rest, true) && Noticed(start, closings, before)
      modifies this`sessions, this`wired, this`closings, tokens, stop, kernel, Parts(id)
      ensures Valid() && AllWired() && Shrunk() && stop.Advanced() && !out.Failed?
      ensures out.Ok? && !stop.draining ==> AllLive()
      ensures !out.Ok? ==> old(kernel.faults) < kernel.faults
      ensures Scanned(before, Standings(now), rest - {id}, out.Ok?) && Noticed(start, closings, before)
      ensures out.Ok? ==> kernel.thrown == old(kernel.thrown)
    {
      hide Session.Footprint;
      hide Disjoint;
      hide TcpReactor.Apart;
      hide TcpReactor.Table;
      hide TcpReactor.AllSound;
      hide TcpReactor.AllLive;
      hide TcpReactor.AllWired;
      hide TcpReactor.Parts;
      hide TcpReactor.Valid;
      hide StopControl.Valid;
      hide TcpReactor.Standings;
      hide Scanned;
      hide Noticed;
      ghost var middle, noticed := Standings(now), closings;
      StillThere(before, middle, rest, id);
      out := ScanOne(id, now);
      OneNotice(start, noticed, closings, before, middle, id);
      ScannedNext(before, middle, Standings(now), rest, id, out.Ok?);
    }

    // The scan of processSessionDeadlines: every session is looked up once, although some close
    // meanwhile.
    method ScanDeadlines(now: nat) returns (out: Outcome)
      requires Valid() && AllWired() && (!stop.draining ==> AllLive())
      modifies this`sessions, this`wired, this`closings, tokens, stop, kernel, objects
      ensures Valid() && AllWired() && Shrunk() && stop.Advanced() && !out.Failed?
      ensures out.Ok? && !stop.draining ==> AllLive()
      ensures !out.Ok? ==> old(kernel.faults) < kernel.faults
      ensures out.Ok? && !stop.draining && !stop.stopRequested ==> Scanned(old(Standings(now)), Standings(now), {}, true)
      ensures exists rest :: Scanned(old(Standings(now)), Standings(now), rest, out.Ok?)
      ensures Noticed(old(closings), closings, old(Standings(now)))
      ensures out.Ok? ==> kernel.thrown == old(kernel.thrown)
    {
      hide Scanned;
      hide Session.Footprint;
      hide Disjoint;
      hide TcpReactor.Table;
      hide TcpReactor.AllSound;
      hide TcpReactor.AllLive;
      hide StopControl.Valid;
      hide TcpReactor.Parts;
      hide TcpReactor.Valid;
      hide TcpReactor.AllWired;
      hide TcpReactor.Standings;
      hide Noticed;
      out := Ok;
      ghost var before := Standings(now);
      StandingsCover(now);
      NoticedNone(closings, before);
      ScannedNone(before);
      var rest := sessions.Keys;
      while rest != {} && out.Ok?
        invariant Valid() && AllWired() && Shrunk() && stop.Advanced() && !out.Failed?
        invariant !out.Ok? ==> old(kernel.faults) < kernel.faults
        invariant out.Ok? ==> kernel.thrown == old(kernel.thrown)
        invariant out.Ok? && !stop.draining ==> AllLive()
        invariant Scanned(before, Standings(now), rest, out.Ok?)
        invariant Noticed(old(closings), closings, before)
        decreases rest, out.Ok?
      {
        if stop.draining || stop.stopRequested {
          return;
        }
        var id :| id in rest;
        StillThere(before, Standings(now), rest, id);
        StandingsCover(now);
        ValidParts(id);
        out := ScanNext(id, now, before, rest, old(closings));
        rest := rest - {id};
      }
    }

    // The clock and the listener are no part of it.
    twostate lemma StandingsStay(now: nat)
      requires old(Apart()) && sessions == old(sessions)
      requires forall k :: k in sessions ==> unchanged(sessions[k]) && unchanged(sessions[k].client) && unchanged(sessions[k].backend)
      ensures Standings(now) == old(Standings(now))
    {
    }

    // processSessionDeadlines: the backed-off listener first, then every session. No session that
    // was overdue survives, and no retry that was, of a session or of the listener, is still pending.
    method ProcessSessionDeadlines() returns (out: Outcome)
      requires Valid() && AllWired() && (!stop.draining ==> AllLive())
      modifies this`sessions, this`wired, this`closings, this`scans, tokens, stop, kernel, objects
      ensures Valid() && AllWired() && Shrunk() && stop.Advanced() && !out.Failed?
      ensures out.Ok? && !stop.draining && !stop.stopRequested ==> !stop.listenerDeferred || old(kernel.NextNow()) < listenerRetryTime
      ensures old(stop.draining) ==> Below(Levels(), old(Levels()))
      ensures out.Ok? && !stop.draining ==> AllLive()
      ensures !out.Ok? ==> old(kernel.faults) < kernel.faults
      ensures var before, now := old(Standings(kernel.NextNow())), Standings(old(kernel.NextNow()));
              now.Keys == sessions.Keys <= before.Keys == old(sessions.Keys)
              && (out.Ok? && !stop.draining && !stop.stopRequested ==> forall k :: k in now ==> !before[k].due && now[k].punctual)
              && (forall k :: k in before && !before[k].due && before[k].punctual ==> k in now)
              && Noticed(old(closings), closings, before)
      ensures scans == old(scans) + if old(stop.draining || stop.stopRequested) then 0 else 1
      ensures out.Ok? ==> kernel.thrown == old(kernel.thrown)
    {
      hide Noticed;
      hide TcpReactor.Standings;
      hide TcpReactor.Due;
      hide Session.Punctual;
      hide Session.Footprint;
      hide Disjoint;
      hide TcpReactor.Table;
      hide TcpReactor.AllSound;
      hide TcpReactor.AllLive;
      hide StopControl.Valid;
      out := Ok;
      ghost var time := kernel.NextNow();
      StandingsCover(time);
      NoticedNone(closings, Standings(time));
      if stop.draining || stop.stopRequested {
        return;
      }
      scans := scans + 1;
      var now;
      now, out := stop.ReadTimer(listenerRetryTime);
      StandingsStay(now);
      if out.Ok? {
        out := ScanDeadlines(now);
        StandingsCover(now);
      }
    }

    // consumeStopSignals as the reactor calls it: no session is touched.
    method PollStop() returns (stopping: bool, out: Outcome)
      requires Valid()
      modifies stop, kernel`now, kernel`ticks, kernel`codes, kernel`faults, kernel`signals, kernel`stops
      ensures Valid() && stop.Advanced() && !out.Failed?
      ensures out.Ok? ==> stopping == (stop.draining || stop.stopRequested)
      ensures out.Ok? && old(kernel.signals) != [] && old(kernel.signals[0]) == StopSignal ==> stop.draining
      ensures out.Ok? && stop.draining && stop.drainDeadline <= old(kernel.now) ==> stop.stopRequested
      ensures old(AllLive()) ==> AllLive()
      ensures Levels() == old(Levels())
      ensures kernel.faults == old(kernel.faults) + if out.Ok? then 0 else 1
      ensures !old(stop.draining) && PollOf(old(kernel.signals), false).NoStop? ==>
                out.Ok? && !stopping && kernel.codes == old(kernel.codes)
      ensures out.Ok? ==> stopping == stop.draining
      ensures !old(stop.draining) && PollOf(old(kernel.signals), false).Breaks? ==> out.Fatal?
    {
      hide Session.Footprint;
      hide Session.Sound;
      hide IsLive;
      hide Disjoint;
      hide TcpReactor.Table;
      hide StopControl.Valid;
      stopping, out := stop.ConsumeStopSignals();
      KeepsAll();
      KeepsSound({});
    }

    // The deferral test of advanceStopDrain, for one session.
    method ExpireInTable(id: nat)
      requires Valid() && id in sessions
      modifies sessions[id].client`deferred, sessions[id].backend`deferred, kernel`now, kernel`ticks
      ensures Valid() && stop.Advanced()
      ensures sessions[id].Punctual(old(kernel.NextNow()))
    {
      hide Session.Footprint;
      hide Session.Sound;
      hide Session.Valid;
      hide Disjoint;
      hide TcpReactor.Table;
      hide TcpReactor.AllSound;
      hide TcpReactor.LiveBut;
      hide StopControl.Valid;
      var s := sessions[id];
      SoundAt(id);
      s.Unpack(id, wired[id]);
      s.Members();
      Owned(id);
      s.ExpireDeferred(stop);
      s.Pack(id, wired[id]);
      KeepsOthers(id);
    }

    lemma StopReasons()
      requires Valid() && stop.draining
      ensures DoneReason() == StopDrained || (stop.stopRequested && (DoneReason() == StopDeadline || DoneReason() == StopForced))
    {
    }

    // An established session is served once more.
    method DrainEstablished(id: nat) returns (out: Outcome)
      requires Valid() && AllWired() && stop.draining && id in sessions && !sessions[id].connecting
      modifies this`sessions, this`wired, this`closings, tokens, stop, kernel, Parts(id)
      ensures Valid() && AllWired() && Shrunk() && stop.Advanced() && !out.Failed?
      ensures forall k :: k in old(sessions) && k != id ==> k in sessions
      ensures id in sessions ==> sessions[id] == old(sessions[id]) && sessions[id].Ebbed()
      ensures out.Ok? && id in sessions ==> sessions[id].Waiting()
      ensures !out.Ok? ==> old(kernel.faults) < kernel.faults
      ensures DrainNoticed(old(closings), closings, old(kernel.faults) < kernel.faults, stop.stopRequested)
      ensures forall i :: |old(closings)| <= i < |closings| ==> closings[i].id == id && closings[i].reason != StopConnecting
      ensures sessions == if closings == old(closings) then old(sessions) else old(sessions) - {id}
      ensures out.Ok? && id in sessions ==> sessions[id].Punctual(old(kernel.NextNow()))
      ensures out.Ok? ==> kernel.thrown == old(kernel.thrown)
    {
      hide Session.Waiting;
      hide Session.Punctual;
      hide Session.Footprint;
      hide Session.Complete;
      hide Disjoint;
      hide TcpReactor.Table;
      hide TcpReactor.AllSound;
      hide TcpReactor.LiveBut;
      hide TcpReactor.AllLive;
      hide StopControl.Valid;
      hide TcpReactor.Valid;
      ValidOwned(id);
      sessions[id].Members();
      ExpireInTable(id);
      NamesItself(id);
      out := DispatchEndpointEvent(sessions[id].client.token, NO_EVENTS);
      StopReasons();
    }

    // One session of advanceStopDrain.
    method DrainSession(id: nat) returns (out: Outcome)
      requires Valid() && AllWired() && stop.draining && id in sessions
      modifies this`sessions, this`wired, this`closings, tokens, stop, kernel, Parts(id)
      ensures Valid() && AllWired() && Shrunk() && stop.Advanced() && !out.Failed?
      ensures forall k :: k in old(sessions) && k != id ==> k in sessions
      ensures id in sessions ==> sessions[id] == old(sessions[id]) && sessions[id].Ebbed()
      ensures old(sessions[id].connecting) ==> id !in sessions
      ensures out.Ok? && id in sessions ==> sessions[id].Waiting()
      ensures !out.Ok? ==> old(kernel.faults) < kernel.faults
      ensures DrainNoticed(old(closings), closings, old(kernel.faults) < kernel.faults, stop.stopRequested)
      ensures forall i :: |old(closings)| <= i < |closings| ==> closings[i].id == id && (closings[i].reason == StopConnecting ==> old(sessions[id].connecting))
      ensures sessions == if closings == old(closings) then old(sessions) else old(sessions) - {id}
      ensures out.Ok? && id in sessions ==> sessions[id].Punctual(old(kernel.NextNow()))
      ensures out.Ok? ==> kernel.thrown == old(kernel.thrown)
    {
      hide Session.Footprint;
      hide Session.Complete;
      hide Disjoint;
      hide TcpReactor.Table;
      hide TcpReactor.AllSound;
      hide TcpReactor.LiveBut;
      hide TcpReactor.AllLive;
      hide StopControl.Valid;
      hide TcpReactor.Valid;
      ValidOwned(id);
      KnowsItself(id);
      if sessions[id].connecting {
        var failure, results := CloseSession(id, StopConnecting, 0);
        return if failure.Some? then Fatal else Ok;
      }
      out := DrainEstablished(id);
    }

    // The token of a wired session end resolves to that end.
    lemma NamesItself(id: nat)
      requires Valid() && AllWired() && id in sessions
      ensures sessions[id].client.token in tokens.entries
      ensures tokens.entries[sessions[id].client.token] == Target(id, 0)
    {
      hide Session.Valid;
      assert sessions[id].Sound(id, wired[id]) && Tok(wired[id], 0) == sessions[id].client.token;
    }

    // One round of advanceStopDrain: the stop is polled first, and becoming final ends the drain.
    method DrainOne(id: nat) returns (out: Outcome)
      requires Valid() && AllWired() && stop.draining && id in sessions
      modifies this`sessions, this`wired, this`closings, tokens, stop, kernel, Parts(id)
      ensures Valid() && AllWired() && Shrunk() && stop.Advanced() && !out.Failed?
      ensures forall k :: k in old(sessions) && k != id ==> k in sessions && sessions[k].Waiting() == old(sessions[k].Waiting())
      ensures Below(Levels(), old(Levels()))
      ensures out.Ok? && !stop.stopRequested && id in sessions ==> sessions[id].Waiting()
      ensures !out.Ok? ==> old(kernel.faults) < kernel.faults
      ensures DrainNoticed(old(closings), closings, old(kernel.faults) < kernel.faults, stop.stopRequested)
      ensures out.Ok? ==> kernel.thrown == old(kernel.thrown)
    {
      hide DrainNoticed;
      hide Below;
      hide TcpReactor.Levels;
      hide Session.Footprint;
      hide Session.Waiting;
      hide Disjoint;
      hide TcpReactor.Table;
      hide TcpReactor.AllSound;
      hide TcpReactor.AllLive;
      hide TcpReactor.Parts;
      hide StopControl.Valid;
      hide TcpReactor.Valid;
      hide TcpReactor.AllWired;
      ValidOwned(id);
      Strangers(id);
      BelowSelf(Levels());
      DrainNoticedNone(closings);
      var stopping;
      stopping, out := PollStop();
      if !out.Ok? || stop.stopRequested {
        return;
      }
      out := DrainAlone(id);
    }

    // A drained session leaves the others alone.
    method DrainAlone(id: nat) returns (out: Outcome)
      requires Valid() && AllWired() && stop.draining && id in sessions
      modifies this`sessions, this`wired, this`closings, tokens, stop, kernel, Parts(id)
      ensures Valid() && AllWired() && Shrunk() && stop.Advanced() && !out.Failed?
      ensures forall k :: k in old(sessions) && k != id ==> k in sessions
      ensures Below(Levels(), old(Levels()))
      ensures out.Ok? && id in sessions ==> sessions[id].Waiting()
      ensures !out.Ok? ==> old(kernel.faults) < kernel.faults
      ensures DrainNoticed(old(closings), closings, old(kernel.faults) < kernel.faults, stop.stopRequested)
      ensures out.Ok? ==> kernel.thrown == old(kernel.thrown)
    {
      hide DrainNoticed;
      hide Below;
      hide Session.Footprint;
      hide Session.Waiting;
      hide Disjoint;
      hide TcpReactor.Table;
      hide TcpReactor.AllSound;
      hide TcpReactor.AllLive;
      hide TcpReactor.Parts;
      hide StopControl.Valid;
      hide TcpReactor.Valid;
      hide TcpReactor.AllWired;
      ValidOwned(id);
      Strangers(id);
      ghost var before := Levels();
      out := DrainSession(id);
      forall k | k in sessions
        ensures k in before && sessions[k].fromClient.size <= before[k].0 && sessions[k].fromBackend.size <= before[k].1
      {
        assert sessions[k] == old(sessions[k]);
      }
      BelowIs(before);
    }

    lemma BelowIs(before: map<nat, (nat, nat)>)
      requires forall k :: k in sessions ==>
                 k in before && sessions[k].fromClient.size <= before[k].0 && sessions[k].fromBackend.size <= before[k].1
      ensures Below(Levels(), before)
    {
    }

    // advanceStopDrain: each session is polled once unless the stop became final.
    method AdvanceStopDrain() returns (out: Outcome)
      requires Valid() && AllWired() && stop.draining
      modifies this`sessions, this`wired, this`closings, tokens, stop, kernel, objects
      ensures Valid() && AllWired() && Shrunk() && stop.Advanced() && !out.Failed?
      ensures Below(Levels(), old(Levels()))
      ensures out.Ok? && !stop.stopRequested ==> forall k :: k in sessions ==> sessions[k].Waiting()
      ensures !out.Ok? ==> old(kernel.faults) < kernel.faults
      ensures DrainNoticed(old(closings), closings, old(kernel.faults) < kernel.faults, stop.stopRequested)
      ensures out.Ok? ==> kernel.thrown == old(kernel.thrown)
    {
      hide DrainNoticed;
      hide Below;
      hide TcpReactor.Levels;
      hide Session.Footprint;
      hide Disjoint;
      hide TcpReactor.Table;
      hide TcpReactor.AllSound;
      hide TcpReactor.AllLive;
      hide StopControl.Valid;
      hide TcpReactor.Parts;
      hide TcpReactor.Valid;
      hide TcpReactor.AllWired;
      hide Session.Waiting;
      BelowSelf(Levels());
      DrainNoticedNone(closings);
      out := Ok;
      var rest := sessions.Keys;
      while rest != {} && out.Ok?
        invariant Valid() && AllWired() && Shrunk() && stop.Advanced() && !out.Failed?
        invariant !out.Ok? ==> old(kernel.faults) < kernel.faults
        invariant out.Ok? ==> kernel.thrown == old(kernel.thrown)
        invariant out.Ok? ==> rest <= sessions.Keys
        invariant out.Ok? ==> forall k :: k in sessions && k !in rest ==> sessions[k].Waiting()
        invariant Below(Levels(), old(Levels()))
        invariant DrainNoticed(old(closings), closings, old(kernel.faults) < kernel.faults, stop.stopRequested)
        decreases rest, out.Ok?
      {
        var id :| id in rest;
        rest := rest - {id};
        ValidParts(id);
        ghost var before, noticed, faults, final := Levels(), closings, kernel.faults, stop.stopRequested;
        out := DrainOne(id);
        DrainNoticedMore(old(closings), noticed, closings, old(kernel.faults) < faults, final, faults < kernel.faults, stop.stopRequested);
        BelowTrans(Levels(), before, old(Levels()));
        if stop.stopRequested {
          return;
        }
      }
    }

    lemma DisjointAdd(id: nat, s: Session)
      requires Apart() && id !in sessions && s.Footprint() !! objects
      ensures Disjoint(sessions[id := s], objects + s.Footprint())
    {
      hide Session.Footprint;
    }

    // A session that shares nothing with the table enters it under the next id.
    method EnterTable(s: Session)
      requires Valid() && |sessions| < maxSessions && s.Sound(nextSessionId, (0, 0))
      requires s.Footprint() !! objects && s.Footprint() !! {this, tokens, stop, kernel}
      modifies this`sessions, this`wired, this`objects, this`nextSessionId
      ensures Valid() && nextSessionId == old(nextSessionId) + 1
      ensures sessions == old(sessions)[old(nextSessionId) := s] && wired == old(wired)[old(nextSessionId) := (0, 0)]
      ensures objects == old(objects) + s.Footprint()
      ensures old(nextSessionId) !in old(sessions)
      ensures old(AllLive()) ==> LiveBut(old(nextSessionId))
    {
      hide Session.Footprint;
      hide Session.Sound;
      hide Disjoint;
      hide Named;
      hide TcpReactor.Table;
      hide StopControl.Valid;
      hide IsLive;
      hide Honest;
      hide TcpReactor.AllSound;
      hide TcpReactor.LiveBut;
      hide TcpReactor.AllLive;
      var id := nextSessionId;
      TableWith(id, s);
      DisjointAdd(id, s);
      sessions, wired := sessions[id := s], wired[id := (0, 0)];
      objects, nextSessionId := objects + s.Footprint(), id + 1;
      TableIs();
      KeepsOlder(id);
    }

    // What the table will be with a new session that has no token yet.
    lemma TableWith(id: nat, s: Session)
      requires Table() && wired.Keys == sessions.Keys && |sessions| < maxSessions && id == nextSessionId
      ensures tokens.Valid() && id !in sessions && |sessions[id := s]| <= maxSessions
      ensures forall k :: k in sessions ==> k < id + 1
      ensures Named(tokens.entries, wired[id := (0, 0)])
    {
      hide Named;
      NamedEmpty(tokens.entries, wired, id);
    }

    lemma TableIs()
      requires tokens.Valid() && |sessions| <= maxSessions && (forall k :: k in sessions ==> k < nextSessionId)
      requires Named(tokens.entries, wired)
      ensures Table()
    {
    }

    // The sessions that were there before stay sound and live.
    twostate lemma KeepsOlder(id: nat)
      requires old(Apart()) && old(wired.Keys == sessions.Keys) && old(AllSound())
      requires Apart() && wired.Keys == sessions.Keys && old(objects) <= objects
      requires id !in old(sessions) && id in sessions && sessions[id].Sound(id, wired[id])
      requires forall b :: b in sessions && b != id ==> b in old(sessions) && sessions[b] == old(sessions[b]) && wired[b] == old(wired[b])
      requires forall o: object :: o in old(objects) ==> unchanged(o)
      ensures AllSound() && (old(AllLive()) ==> LiveBut(id))
    {
      hide Session.Footprint;
      hide Session.Sound;
      hide Disjoint;
      hide IsLive;
      forall b | b in sessions && b != id
        ensures sessions[b].Sound(b, wired[b]) && (old(AllLive()) ==> IsLive(sessions[b]))
      {
        OwnedBy(old(sessions), old(objects), b);
        assert old(sessions[b].Sound(b, wired[b]));
        assert old(AllLive()) ==> old(IsLive(sessions[b]));
      }
    }

    // A new connecting session enters the table, with no token yet.
    method CreateSession() returns (id: nat)
      requires Valid() && |sessions| < maxSessions
      modifies this`sessions, this`wired, this`objects, this`nextSessionId, kernel`now, kernel`ticks
      ensures Valid() && stop.Advanced() && id == old(nextSessionId) && nextSessionId == id + 1
      ensures id !in old(sessions) && id in sessions && sessions == old(sessions)[id := sessions[id]]
      ensures wired == old(wired)[id := (0, 0)] && sessions[id].Fresh() && fresh(sessions[id].Footprint())
      ensures objects == old(objects) + sessions[id].Footprint()
      ensures old(AllLive()) ==> LiveBut(id)
    {
      hide Session.Footprint;
      hide Session.Sound;
      hide Session.Valid;
      hide TcpReactor.Table;
      hide TcpReactor.AllSound;
      hide TcpReactor.AllLive;
      hide TcpReactor.LiveBut;
      hide Disjoint;
      id := nextSessionId;
      var now := kernel.Now();
      var s := new Session(id, now);
      s.Pack(id, (0, 0));
      EnterTable(s);
    }

    // A token that was issued before and did not resolve then never resolves again.
    twostate predicate Retired()
      reads tokens
    {
      && old(tokens.nextToken) <= tokens.nextToken
      && forall t :: t in tokens.entries && t < old(tokens.nextToken) ==> t in old(tokens.entries)
    }

    // The token of one end enters the token table; the session follows.
    method WireTable(id: nat, d: Side) returns (token: nat, ok: bool)
      requires Table() && wired.Keys == sessions.Keys && id in sessions && Tok(wired[id], d) == 0
      modifies this`wired, tokens
      ensures Retired()
      ensures Table() && wired.Keys == sessions.Keys
      ensures ok <==> old(tokens.nextToken) < U64_MAX
      ensures ok ==> token == old(tokens.nextToken) != 0 && tokens.nextToken == token + 1
      ensures wired == if ok then old(wired)[id := if d == 0 then (token, old(wired[id].1)) else (old(wired[id].0), token)]
                       else old(wired)
      ensures !ok ==> tokens.nextToken == U64_MAX
    {
      hide Named;
      token, ok := tokens.RegisterEndpoint(id, d);
      if ok {
        NamedAdd(old(tokens.entries), wired, id, d, token);
        wired := wired[id := if d == 0 then (token, wired[id].1) else (wired[id].0, token)];
      }
    }

    // registerEndpoint for side d of session id; false is the overflow of the token space.
    method WireEnd(id: nat, d: Side) returns (ok: bool)
      requires Valid() && id in sessions && Tok(wired[id], d) == 0 && sessions[id].Fresh()
      modifies this`wired, tokens, sessions[id].Footprint()
      ensures Retired()
      ensures Valid() && id in wired && sessions[id].Fresh()
      ensures ok <==> old(tokens.nextToken) < U64_MAX
      ensures ok ==> Tok(wired[id], d) == old(tokens.nextToken) != 0 && tokens.nextToken == old(tokens.nextToken) + 1
                     && wired == old(wired)[id := wired[id]] && Tok(wired[id], 1 - d) == old(Tok(wired[id], 1 - d))
      ensures !ok ==> wired == old(wired)
      ensures old(LiveBut(id)) ==> LiveBut(id)
      ensures !ok ==> tokens.nextToken == U64_MAX
    {
      hide Session.Footprint;
      hide Session.Sound;
      hide Session.Valid;
      hide Session.Fresh;
      hide Disjoint;
      hide TcpReactor.Table;
      hide TcpReactor.AllSound;
      hide TcpReactor.LiveBut;
      hide StopControl.Valid;
      var s := sessions[id];
      SoundAt(id);
      s.Unpack(id, wired[id]);
      s.Members();
      Owned(id);
      var token;
      token, ok := WireTable(id, d);
      if ok {
        s.SetToken(d, token);
      }
      s.Pack(id, wired[id]);
      KeepsOthers(id);
    }

    // socket() for the backend end; a nonzero result is its errno.
    method OpenInTable(id: nat) returns (code: nat)
      requires Valid() && id in sessions && sessions[id].Fresh()
      modifies kernel`codes, kernel`faults, sessions[id].backend.socket`open
      ensures Valid() && sessions[id].Fresh() && |kernel.codes| <= |old(kernel.codes)|
      ensures old(LiveBut(id)) ==> LiveBut(id)
      ensures kernel.faults == old(kernel.faults) + if code == 0 then 0 else 1
      ensures sessions[id].backend.socket.open <==> code == 0 || old(sessions[id].backend.socket.open)
      ensures code == old(kernel.NextCode())
    {
      hide Session.Footprint;
      hide Session.Sound;
      hide Session.Valid;
      hide Disjoint;
      hide TcpReactor.Table;
      hide TcpReactor.AllSound;
      hide TcpReactor.LiveBut;
      hide StopControl.Valid;
      var s := sessions[id];
      SoundAt(id);
      s.Unpack(id, wired[id]);
      s.Members();
      Owned(id);
      code := kernel.Call();
      if code == 0 {
        s.OpenBackend();
      }
      s.Pack(id, wired[id]);
      KeepsOthers(id);
    }

    // The backend socket and the registration of both ends.
    method WireSession(id: nat) returns (out: Outcome)
      requires Valid() && id in sessions && wired[id] == (0, 0) && sessions[id].Fresh()
      modifies this`wired, tokens, kernel`codes, kernel`faults, sessions[id].Footprint()
      ensures Retired()
      ensures Valid() && id in wired && sessions[id].Fresh() && |kernel.codes| <= |old(kernel.codes)|
      ensures wired == old(wired)[id := wired[id]]
      ensures out.Ok? ==> wired[id].0 != 0 && wired[id].1 != 0
      ensures out.Failed? ==> out.operation == BackendSocket
      ensures old(LiveBut(id)) ==> LiveBut(id)
      ensures kernel.faults == old(kernel.faults) + if out.Failed? then 1 else 0
      ensures out.Fatal? ==> tokens.nextToken == U64_MAX
      ensures old(kernel.NextCode()) != 0 ==> out == Failed(BackendSocket, old(kernel.NextCode()))
    {
      hide Session.Footprint;
      hide Session.Fresh;
      hide Disjoint;
      hide TcpReactor.Table;
      hide TcpReactor.AllSound;
      hide TcpReactor.LiveBut;
      hide StopControl.Valid;
      sessions[id].Members();
      Owned(id);
      var code := OpenInTable(id);
      if code != 0 {
        return Failed(BackendSocket, code);
      }
      var ok := WireEnd(id, 0);
      if ok {
        ok := WireEnd(id, 1);
      }
      out := if ok then Ok else Fatal;
    }

    // Connects and arms a wired session.
    method ConnectInTable(id: nat) returns (out: Outcome)
      requires Valid() && id in sessions && sessions[id].Fresh() && wired[id].0 != 0 && wired[id].1 != 0
      modifies kernel`codes, kernel`faults, kernel`now, kernel`ticks, sessions[id].Footprint()
      ensures Valid() && stop.Advanced() && !out.Fatal?
      ensures old(LiveBut(id)) ==> LiveBut(id) && (out.Ok? && !stop.draining ==> AllLive())
      ensures kernel.faults == old(kernel.faults) + if out.Ok? then 0 else 1
    {
      hide Session.Footprint;
      hide Session.Sound;
      hide Session.Valid;
      hide Session.Live;
      hide Disjoint;
      hide TcpReactor.Table;
      hide TcpReactor.AllSound;
      hide TcpReactor.LiveBut;
      hide TcpReactor.AllLive;
      hide StopControl.Valid;
      var s := sessions[id];
      SoundAt(id);
      s.Unpack(id, wired[id]);
      s.Members();
      Owned(id);
      out := s.BeginConnect(stop);
      s.Pack(id, wired[id]);
      KeepsOthers(id);
      if out.Ok? && !stop.draining {
        LiveTogether(id);
      }
    }

    lemma LiveTogether(id: nat)
      requires id in sessions && sessions[id].Live()
      ensures LiveBut(id) ==> AllLive()
    {
    }

    // An accepted client: capacity, backend choice, a new session and its connect.
    method AdmitClient() returns (out: Outcome)
      requires Valid() && AllWired() && AllLive() && !stop.draining
      modifies this`sessions, this`wired, this`closings, this`objects, this`nextSessionId, this`overCapacity, tokens
      modifies kernel`codes, kernel`faults, kernel`thrown, kernel`now, kernel`ticks, kernel`noBackend
      ensures Retired()
      ensures Valid() && stop.Advanced() && !out.Failed?
      ensures old(objects) <= objects && fresh(objects - old(objects))
      ensures out.Ok? ==> AllWired() && AllLive()
      ensures old(nextSessionId) <= nextSessionId && |sessions| <= |old(sessions)| + nextSessionId - old(nextSessionId)
      ensures overCapacity == old(overCapacity) + if |old(sessions)| >= maxSessions then 1 else 0
      ensures out.Ok? ==> Unserved() == old(Unserved()) - 1
      ensures |old(sessions)| >= maxSessions ==> sessions == old(sessions)
      ensures forall k :: k in old(sessions) ==> k in sessions && sessions[k] == old(sessions[k])
      ensures old(kernel.faults) <= kernel.faults
      ensures !out.Ok? ==> tokens.nextToken == U64_MAX || old(kernel.faults) + 1 < kernel.faults
                           || (1 < old(kernel.NextCode()) && old(kernel.faults) < kernel.faults)
      ensures out.Ok? && |old(sessions)| < maxSessions && old(kernel.NextCode()) != 1 ==>
                Started(old(closings), kernel.faults - old(kernel.faults), old(nextSessionId))
      ensures out.Ok? ==> kernel.thrown == old(kernel.thrown)
    {
      hide Session.Footprint;
      hide Session.Fresh;
      hide Disjoint;
      hide TcpReactor.Table;
      hide TcpReactor.AllSound;
      hide TcpReactor.AllLive;
      hide StopControl.Valid;
      out := Ok;
      if |sessions| >= maxSessions {
        overCapacity := overCapacity + 1;
        return;
      }
      var selected := kernel.SelectBackend();
      if selected != 0 {
        return if selected == 1 then Ok else Fatal;
      }
      out := StartOrDrop();
    }

    // The close of a session that failed to start.
    method DropFailed(id: nat, operation: Operation, error: nat) returns (out: Outcome)
      requires Valid() && LiveBut(id) && id in sessions
      modifies this`sessions, this`wired, this`closings, tokens, kernel`codes, kernel`faults, kernel`thrown, sessions[id].Footprint()
      ensures Valid() && AllLive() && tokens.nextToken == old(tokens.nextToken) && !out.Failed?
      ensures |kernel.codes| <= |old(kernel.codes)|
      ensures sessions == old(sessions) - {id} && wired == old(wired) - {id}
      ensures tokens.entries == old(tokens.entries) - {old(wired[id].0), old(wired[id].1)}
      ensures kernel.faults >= old(kernel.faults) && (out.Ok? <==> kernel.faults == old(kernel.faults))
      ensures |closings| == |old(closings)| + 1 && old(closings) <= closings
      ensures closings[|old(closings)|].id == id && closings[|old(closings)|].reason == Failure(operation)
      ensures out.Ok? ==> kernel.thrown == old(kernel.thrown)
    {
      hide Session.Footprint;
      hide Disjoint;
      hide TcpReactor.Table;
      hide TcpReactor.AllSound;
      hide TcpReactor.LiveBut;
      hide TcpReactor.AllLive;
      hide TcpReactor.Valid;
      KnowsItself(id);
      ValidOwned(id);
      FailureIsHonest(id, operation, error);
      var failure, results := CloseSession(id, Failure(operation), error);
      out := if failure.Some? then Fatal else Ok;
    }

    // Without a fault the new session is in the table; with one, that of starting it, it was closed
    // again for that failure.
    ghost predicate Started(before: seq<Closing>, faults: int, id: nat)
      reads this`sessions, this`closings
    {
      if faults == 0 then id in sessions && closings == before
      else faults == 1 && id !in sessions && |closings| == |before| + 1 && before <= closings
           && closings[|before|].id == id && closings[|before|].reason.Failure?
    }

    // A session that fails to start is closed again, which does not end the service unless a
    // callback of closing it fails.
    method StartOrDrop() returns (out: Outcome)
      requires Valid() && AllWired() && AllLive() && !stop.draining && |sessions| < maxSessions
      modifies this`sessions, this`wired, this`closings, this`objects, this`nextSessionId, tokens, kernel`codes
      modifies kernel`faults, kernel`thrown, kernel`now, kernel`ticks
      ensures Retired() && nextSessionId == old(nextSessionId) + 1
      ensures |sessions| <= |old(sessions)| + 1
      ensures Valid() && stop.Advanced() && !out.Failed?
      ensures old(objects) <= objects && fresh(objects - old(objects))
      ensures out.Ok? ==> AllWired() && AllLive()
      ensures forall k :: k in old(sessions) ==> k in sessions && sessions[k] == old(sessions[k])
      ensures out.Ok? ==> Started(old(closings), kernel.faults - old(kernel.faults), old(nextSessionId))
      ensures !out.Ok? ==> tokens.nextToken == U64_MAX || old(kernel.faults) + 1 < kernel.faults
      ensures out.Ok? ==> kernel.thrown == old(kernel.thrown)
    {
      hide Session.Footprint;
      hide ClosingOf;
      hide Disjoint;
      hide TcpReactor.Table;
      hide TcpReactor.AllSound;
      hide TcpReactor.LiveBut;
      hide TcpReactor.AllLive;
      hide StopControl.Valid;
      hide TcpReactor.Valid;
      hide Honest;
      var id;
      id, out := StartSession();
      if out.Failed? {
        out := DropFailed(id, out.operation, out.error);
      }
    }

    lemma FailureIsHonest(id: nat, operation: Operation, error: nat)
      requires id in sessions
      ensures Honest(ClosingOf(sessions[id], Failure(operation), error))
    {
    }

    // Session creation and connectSessionBackend; a failed session is still in the table.
    method StartSession() returns (id: nat, out: Outcome)
      requires Valid() && AllLive() && !stop.draining && |sessions| < maxSessions
      modifies this`sessions, this`wired, this`objects, this`nextSessionId, tokens, kernel`codes, kernel`faults, kernel`now, kernel`ticks
      ensures Retired() && nextSessionId == old(nextSessionId) + 1
      ensures Valid() && stop.Advanced()
      ensures id == old(nextSessionId) && id !in old(sessions) && id in sessions && sessions == old(sessions)[id := sessions[id]]
      ensures objects == old(objects) + sessions[id].Footprint() && fresh(sessions[id].Footprint())
      ensures LiveBut(id) && wired == old(wired)[id := wired[id]]
      ensures out.Ok? ==> wired[id].0 != 0 && wired[id].1 != 0 && AllLive()
      ensures kernel.faults == old(kernel.faults) + if out.Failed? then 1 else 0
      ensures out.Fatal? ==> tokens.nextToken == U64_MAX
    {
      hide Session.Footprint;
      hide Session.Fresh;
      hide Disjoint;
      hide TcpReactor.Table;
      hide TcpReactor.AllSound;
      hide TcpReactor.LiveBut;
      hide TcpReactor.AllLive;
      hide StopControl.Valid;
      hide TcpReactor.Valid;
      id := CreateSession();
      ValidOwned(id);
      out := WireAndConnect(id);
    }

    // connectSessionBackend.
    method WireAndConnect(id: nat) returns (out: Outcome)
      requires Valid() && id in sessions && wired[id] == (0, 0) && sessions[id].Fresh() && !stop.draining && LiveBut(id)
      modifies this`wired, tokens, kernel`codes, kernel`faults, kernel`now, kernel`ticks, sessions[id].Footprint()
      ensures Retired()
      ensures Valid() && stop.Advanced() && LiveBut(id) && id in wired && wired == old(wired)[id := wired[id]]
      ensures out.Ok? ==> wired[id].0 != 0 && wired[id].1 != 0 && AllLive()
      ensures kernel.faults == old(kernel.faults) + if out.Failed? then 1 else 0
      ensures out.Fatal? ==> tokens.nextToken == U64_MAX
    {
      hide Session.Footprint;
      hide Session.Fresh;
      hide Disjoint;
      hide TcpReactor.Table;
      hide TcpReactor.AllSound;
      hide TcpReactor.LiveBut;
      hide TcpReactor.AllLive;
      hide StopControl.Valid;
      Owned(id);
      out := WireSession(id);
      if out.Ok? {
        out := ConnectInTable(id);
      }
    }

    lemma NobodyYet()
      requires Valid() && sessions == map[]
      ensures Steady()
    {
    }

    // What holds between any two events: sound tables, wired sessions and, outside a drain, no
    // stranded session.
    ghost predicate Steady()
      reads this, tokens, stop, kernel, objects
    {
      Valid() && AllWired() && (!stop.draining ==> AllLive())
    }

    // Objects are only ever added, and they are new; retired tokens stay retired.
    twostate predicate Grown()
      reads this`objects, tokens
    {
      old(objects) <= objects && fresh(objects - old(objects)) && Retired()
    }

    // Clients accepted so far, less those that got a session, found the table full, or found no
    // backend; up to a constant.
    ghost function Unserved(): int
      reads this`nextSessionId, this`overCapacity, kernel`clients, kernel`noBackend
    {
      kernel.clients - nextSessionId - overCapacity - kernel.noBackend
    }

    // What every session has queued in both directions.
    ghost function Levels(): map<nat, (nat, nat)>
      reads *
    {
      map id | id in sessions :: (sessions[id].fromClient.size, sessions[id].fromBackend.size)
    }

    lemma NoLevels()
      requires sessions == map[]
      ensures Levels() == map[]
    {
    }

    // The accept backoff: the listener leaves the epoll set for 100 ms.
    method BackOff() returns (out: Outcome)
      requires Steady() && !stop.draining
      modifies this`listenerRetryTime, stop, kernel`codes, kernel`faults, kernel`now, kernel`ticks
      ensures Steady() && stop.Moved() && !out.Failed? && stop.draining == old(stop.draining)
      ensures kernel.faults == old(kernel.faults) + if out.Ok? then 0 else 1
      ensures out.Ok? ==> stop.listenerDeferred && listenerRetryTime == kernel.now + LISTENER_BACKOFF
      ensures !out.Ok? ==> listenerRetryTime == old(listenerRetryTime)
    {
      hide Disjoint;
      hide TcpReactor.Table;
      hide TcpReactor.AllSound;
      hide TcpReactor.AllLive;
      hide StopControl.Valid;
      var now;
      now, out := stop.DeferListener();
      if out.Ok? {
        listenerRetryTime := now + LISTENER_BACKOFF;
      }
    }

    // The call accept4, which must not happen once a stop was consumed.
    method AcceptOnce() returns (kind: AcceptClass)
      requires Steady() && !stop.draining
      modifies kernel`codes, kernel`faults, kernel`acceptsAfterStop, kernel`clients, kernel`attempts, kernel`acceptDry
      ensures Steady() && kernel.acceptsAfterStop == old(kernel.acceptsAfterStop)
      ensures kernel.attempts == old(kernel.attempts) + if kind == Interrupted then 0 else 1
      ensures kernel.clients == old(kernel.clients) + if kind == Accepted then 1 else 0
      ensures |kernel.codes| < |old(kernel.codes)| || (kind == Accepted && kernel.codes == old(kernel.codes))
      ensures kernel.faults == old(kernel.faults) + if kind == Unexpected then 1 else 0
      ensures kernel.codes == if old(kernel.codes) == [] then [] else old(kernel.codes)[1..]
      ensures var code := old(kernel.NextCode());
              (code == 0 <==> kind == Accepted) && (code == EAGAIN <==> kind == NoClient) && (code == EINTR <==> kind == Interrupted)
              && (code in {ECONNABORTED, EPROTO, ENETDOWN, ENOPROTOOPT, EHOSTDOWN, ENONET, EHOSTUNREACH, EOPNOTSUPP, ENETUNREACH}
                  <==> kind == Transient)
              && (code in {EMFILE, ENFILE, ENOBUFS, ENOMEM} <==> kind == Exhausted)
      ensures kernel.acceptDry == (kind == NoClient || kind == Exhausted)
    {
      hide Disjoint;
      hide TcpReactor.Table;
      hide TcpReactor.AllSound;
      hide TcpReactor.AllLive;
      var code := kernel.Accept();
      kind := ClassifyAccept(code);
    }

    // The attempt itself, by the result of accept4.
    method AcceptAttempt() returns (more: bool, counted: bool, out: Outcome)
      requires Steady() && !stop.draining
      modifies this`sessions, this`wired, this`closings, this`objects, this`nextSessionId, this`listenerRetryTime, this`overCapacity
      modifies tokens, stop, kernel, objects
      ensures Valid() && stop.Moved() && !out.Failed? && Grown()
      ensures out.Ok? ==> Steady() && Unserved() == old(Unserved())
      ensures kernel.attempts <= old(kernel.attempts) + 1 && (more ==> out.Ok? && kernel.attempts == old(kernel.attempts) + if counted then 1 else 0)
      ensures more && !counted ==> |kernel.codes| < |old(kernel.codes)|
      ensures |kernel.codes| <= |old(kernel.codes)|
      ensures old(nextSessionId) <= nextSessionId && |sessions| <= |old(sessions)| + nextSessionId - old(nextSessionId)
      ensures overCapacity != old(overCapacity) ==> maxSessions <= |old(sessions)|
      ensures forall k :: k in old(sessions) ==> k in sessions && sessions[k] == old(sessions[k])
      ensures !out.Ok? ==> old(kernel.faults) < kernel.faults || tokens.nextToken == U64_MAX
      ensures out.Ok? && !more ==> stop.draining || (kernel.acceptDry && kernel.attempts == old(kernel.attempts) + 1)
      ensures var code := old(kernel.NextCode());
                && kernel.clients == old(kernel.clients) + (if code == 0 then 1 else 0)
                && (code == 0 ==>
                      if out.Ok? then more && counted
                      else tokens.nextToken == U64_MAX || old(kernel.faults) + 1 < kernel.faults || 1 < old(kernel.PeekCode(1)))
                && (code != 0 ==> sessions == old(sessions))
                && (code == EAGAIN ==> out.Ok? && !more)
                && (code == EINTR ==> out.Ok? && more && !counted)
                && (code in {ECONNABORTED, EPROTO, ENETDOWN, ENOPROTOOPT, EHOSTDOWN, ENONET, EHOSTUNREACH, EOPNOTSUPP, ENETUNREACH}
                    ==> out.Ok? && more && counted)
                && (code in {EMFILE, ENFILE, ENOBUFS, ENOMEM} ==> !more && (out.Ok? ==> stop.listenerDeferred))
                && (!Kernel.Tolerable(code) ==> out.Fatal?)
      ensures out.Ok? ==> kernel.thrown == old(kernel.thrown)
    {
      hide Session.Footprint;
      hide Disjoint;
      hide ClassifyAccept;
      hide TcpReactor.Table;
      hide TcpReactor.AllSound;
      hide TcpReactor.AllLive;
      hide StopControl.Valid;
      more, counted, out := false, true, Ok;
      var kind := AcceptOnce();
      match kind {
        case NoClient =>
        case Interrupted => more, counted := true, false;
        case Transient => more := true;
        case Exhausted =>
          out := BackOff();
        case Unexpected =>
          out := Fatal;
        case Accepted =>
          out := AdmitClient();
          more := out.Ok?;
      }
    }

    // One attempt of acceptClientSessions. `more` asks for another one; an interrupted call does not
    // count as an attempt.
    method AcceptStep() returns (more: bool, counted: bool, out: Outcome)
      requires Steady()
      modifies this`sessions, this`wired, this`closings, this`objects, this`nextSessionId, this`listenerRetryTime, this`overCapacity
      modifies tokens, stop, kernel, objects
      ensures Valid() && stop.Moved() && !out.Failed? && Grown()
      ensures out.Ok? ==> Steady() && Unserved() == old(Unserved())
      ensures kernel.attempts <= old(kernel.attempts) + 1 && (more ==> out.Ok? && kernel.attempts == old(kernel.attempts) + if counted then 1 else 0)
      ensures more && !counted ==> |kernel.codes| < |old(kernel.codes)|
      ensures |kernel.codes| <= |old(kernel.codes)|
      ensures old(nextSessionId) <= nextSessionId && |sessions| <= |old(sessions)| + nextSessionId - old(nextSessionId)
      ensures overCapacity != old(overCapacity) ==> maxSessions <= |old(sessions)|
      ensures old(stop.draining) ==> sessions == old(sessions)
      ensures forall k :: k in old(sessions) ==> k in sessions && sessions[k] == old(sessions[k])
      ensures !out.Ok? ==> old(kernel.faults) < kernel.faults || tokens.nextToken == U64_MAX
      ensures out.Ok? && !more ==> stop.draining || (kernel.acceptDry && kernel.attempts == old(kernel.attempts) + 1)
      ensures !old(stop.draining) && PollOf(old(kernel.signals), false).NoStop? ==> var code := old(kernel.NextCode());
                && kernel.clients == old(kernel.clients) + (if code == 0 then 1 else 0)
                && (code == 0 ==>
                      if out.Ok? then more && counted
                      else tokens.nextToken == U64_MAX || old(kernel.faults) + 1 < kernel.faults || 1 < old(kernel.PeekCode(1)))
                && (code != 0 ==> sessions == old(sessions))
                && (code == EAGAIN ==> out.Ok? && !more)
                && (code == EINTR ==> out.Ok? && more && !counted)
                && (code in {ECONNABORTED, EPROTO, ENETDOWN, ENOPROTOOPT, EHOSTDOWN, ENONET, EHOSTUNREACH, EOPNOTSUPP, ENETUNREACH}
                    ==> out.Ok? && more && counted)
                && (code in {EMFILE, ENFILE, ENOBUFS, ENOMEM} ==> !more && (out.Ok? ==> stop.listenerDeferred))
                && (!Kernel.Tolerable(code) ==> out.Fatal?)
      ensures out.Ok? ==> kernel.thrown == old(kernel.thrown)
    {
      hide Session.Footprint;
      hide Disjoint;
      hide ClassifyAccept;
      hide TcpReactor.Table;
      hide TcpReactor.AllSound;
      hide TcpReactor.AllLive;
      hide StopControl.Valid;
      more, counted := false, true;
      var stopping;
      stopping, out := PollStop();
      if !out.Ok? || stopping {
        return;
      }
      more, counted, out := AcceptAttempt();
    }

    // acceptClientSessions: at most 64 attempts, none of them after a stop signal. Every client it
    // accepts gets a session, unless the table is full or no backend is offered.
    method AcceptClientSessions() returns (out: Outcome)
      requires Steady()
      modifies this`sessions, this`wired, this`closings, this`objects, this`nextSessionId, this`listenerRetryTime, this`overCapacity
      modifies tokens, stop, kernel, objects
      ensures Valid() && stop.Moved() && !out.Failed? && Grown()
      ensures out.Ok? ==> Steady()
      ensures out.Ok? ==> Unserved() == old(Unserved())
      ensures kernel.attempts - old(kernel.attempts) <= ACCEPT_BATCH
      ensures overCapacity != old(overCapacity) ==> maxSessions <= |old(sessions)| + nextSessionId - old(nextSessionId)
      ensures old(stop.draining) ==> sessions == old(sessions)
      ensures forall k :: k in old(sessions) ==> k in sessions && sessions[k] == old(sessions[k])
      ensures !out.Ok? ==> old(kernel.faults) < kernel.faults || tokens.nextToken == U64_MAX
      ensures out.Ok? ==> stop.draining || kernel.attempts == old(kernel.attempts) + ACCEPT_BATCH
                          || (kernel.acceptDry && old(kernel.attempts) < kernel.attempts)
      ensures out.Ok? ==> kernel.thrown == old(kernel.thrown)
    {
      hide Session.Footprint;
      hide Disjoint;
      hide TcpReactor.Table;
      hide TcpReactor.AllSound;
      hide TcpReactor.AllLive;
      hide TcpReactor.Valid;
      hide TcpReactor.Steady;
      hide StopControl.Valid;
      SteadyParts();
      out := Ok;
      var attempt, more := 0, true;
      while more && attempt < ACCEPT_BATCH
        invariant Valid() && stop.Moved() && !out.Failed? && Grown() && attempt <= ACCEPT_BATCH && (more ==> out.Ok?)
        invariant !out.Ok? ==> old(kernel.faults) < kernel.faults || tokens.nextToken == U64_MAX
        invariant out.Ok? ==> kernel.thrown == old(kernel.thrown)
        invariant out.Ok? ==> Steady() && Unserved() == old(Unserved())
        invariant kernel.attempts - old(kernel.attempts) <= ACCEPT_BATCH
        invariant more ==> kernel.attempts - old(kernel.attempts) == attempt
        invariant out.Ok? && !more ==> stop.draining || (kernel.acceptDry && old(kernel.attempts) < kernel.attempts)
        invariant old(nextSessionId) <= nextSessionId && |sessions| <= |old(sessions)| + nextSessionId - old(nextSessionId)
        invariant overCapacity != old(overCapacity) ==> maxSessions <= |old(sessions)| + nextSessionId - old(nextSessionId)
        invariant old(stop.draining) ==> sessions == old(sessions)
        invariant forall k :: k in old(sessions) ==> k in sessions && sessions[k] == old(sessions[k])
        decreases more, ACCEPT_BATCH - attempt, |kernel.codes|
      {
        var counted;
        more, counted, out := AcceptStep();
        attempt := attempt + if more && counted then 1 else 0;
      }
    }

    lemma SteadyParts()
      requires Steady()
      ensures Valid() && stop.kernel == kernel
    {
    }

    // Remembers the event.
    ghost method Handle(token: nat)
      requires Steady()
      modifies this`handled, this`handledAfterStop
      ensures Steady() && handled == old(handled) + [token] && Levels() == old(Levels())
      ensures handledAfterStop == old(handledAfterStop) + if stop.stopRequested then 1 else 0
    {
      hide Session.Footprint;
      hide Disjoint;
      hide TcpReactor.Table;
      hide TcpReactor.AllSound;
      hide TcpReactor.AllLive;
      hide StopControl.Valid;
      handled, handledAfterStop := handled + [token], handledAfterStop + if stop.stopRequested then 1 else 0;
    }

    // dispatchEndpointEvent, seen from all sessions: in a drain no queue grows.
    method DispatchToEnd(token: nat, events: Events) returns (out: Outcome)
      requires Steady()
      modifies this`sessions, this`wired, this`closings, tokens, stop, kernel, PartsOf(token)
      ensures Valid() && stop.Moved() && !out.Failed? && Shrunk()
      ensures out.Ok? ==> Steady()
      ensures out.Ok? && old(stop.draining) && token in old(tokens.entries) ==>
                var id := old(tokens.entries[token].sessionId); id in sessions ==> sessions[id].Waiting()
      ensures old(stop.draining) ==> Below(Levels(), old(Levels()))
      ensures !out.Ok? ==> old(kernel.faults) < kernel.faults
      ensures out.Ok? ==> kernel.thrown == old(kernel.thrown)
    {
      hide Session.Footprint;
      hide Session.Waiting;
      hide Disjoint;
      hide TcpReactor.Table;
      hide TcpReactor.AllSound;
      hide TcpReactor.AllLive;
      hide StopControl.Valid;
      hide TcpReactor.Parts;
      StrangersOf(token);
      out := DispatchEndpointEvent(token, events);
    }

    lemma StrangersOf(token: nat)
      requires Apart()
      ensures forall k :: k in sessions && !(token in tokens.entries && tokens.entries[token].sessionId == k) ==>
                sessions[k].fromClient !in PartsOf(token) && sessions[k].fromBackend !in PartsOf(token)
    {
      if token in tokens.entries && tokens.entries[token].sessionId in sessions {
        Strangers(tokens.entries[token].sessionId);
      }
    }

    // One ready event: the listener, the signalfd, or a session end.
    method DispatchReadyEvent(token: nat, events: Events) returns (out: Outcome)
      requires Steady()
      modifies this`sessions, this`wired, this`closings, this`objects, this`nextSessionId, this`listenerRetryTime
      modifies this`overCapacity, this`handled, this`handledAfterStop
      modifies tokens, stop, kernel, objects
      ensures Valid() && stop.Moved() && !out.Failed? && Grown()
      ensures out.Ok? ==> Steady() && handled == old(handled) + [token]
      ensures out.Ok? && old(stop.draining) && token in old(tokens.entries) && token != LISTENER_TOKEN && token != SIGNAL_TOKEN ==>
                var id := old(tokens.entries[token].sessionId); id in sessions ==> sessions[id].Waiting()
      ensures old(stop.draining) ==> Below(Levels(), old(Levels()))
      ensures !out.Ok? ==> old(kernel.faults) < kernel.faults || tokens.nextToken == U64_MAX
                              || (token == LISTENER_TOKEN && (events.error || events.hup))
      ensures token == LISTENER_TOKEN && out.Ok? && old(listenerRetryTime) <= old(kernel.NextNow()) ==>
                stop.draining || old(kernel.attempts) < kernel.attempts
      ensures token == LISTENER_TOKEN && !old(stop.draining) && (events.error || events.hup) ==> out.Fatal?
      ensures token == LISTENER_TOKEN && old(kernel.NextNow()) < old(listenerRetryTime) ==> kernel.attempts == old(kernel.attempts)
      ensures handledAfterStop == old(handledAfterStop) + if old(stop.stopRequested) then 1 else 0
      ensures out.Ok? ==> kernel.thrown == old(kernel.thrown)
    {
      hide Below;
      hide TcpReactor.Levels;
      hide Disjoint;
      hide TcpReactor.Table;
      hide TcpReactor.AllSound;
      hide TcpReactor.AllLive;
      hide StopControl.Valid;
      BelowSelf(Levels());
      out := Ok;
      Handle(token);
      if token == LISTENER_TOKEN {
        if stop.draining {
          return;
        }
        if events.error || events.hup {
          return Fatal;
        }
        var now := ReadClock();
        if listenerRetryTime <= now {
          out := AcceptClientSessions();
        }
      } else if token != SIGNAL_TOKEN {
        PartsOfWithin(token);
        out := DispatchToEnd(token, events);
      }
    }

    method ReadClock() returns (now: nat)
      requires Steady()
      modifies kernel`now, kernel`ticks
      ensures Steady() && stop.Advanced() && now == kernel.now == old(kernel.NextNow())
      ensures Levels() == old(Levels())
    {
      hide Disjoint;
      hide TcpReactor.Table;
      hide TcpReactor.AllSound;
      hide TcpReactor.AllLive;
      now := kernel.Now();
    }

    // dispatchTcpReadyEvents: the stop is polled before every event and ends the batch.
    method DispatchTcpReadyEvents(events: seq<(nat, Events)>) returns (out: Outcome)
      requires Steady()
      modifies this`sessions, this`wired, this`closings, this`objects, this`nextSessionId, this`listenerRetryTime
      modifies this`overCapacity, this`handled, this`handledAfterStop
      modifies tokens, stop, kernel, objects
      ensures Valid() && stop.Moved() && !out.Failed? && Grown()
      ensures out.Ok? ==> Steady()
      ensures out.Ok? && !stop.stopRequested ==> handled == old(handled) + TokensOf(events)
      ensures old(stop.draining) ==> Below(Levels(), old(Levels()))
      ensures !out.Ok? ==> old(kernel.faults) < kernel.faults || tokens.nextToken == U64_MAX || ListenerFails(events)
      ensures handledAfterStop == old(handledAfterStop)
      ensures events != [] && !old(stop.draining) && PollOf(old(kernel.signals), false).Breaks? ==> out.Fatal?
      ensures out.Ok? ==> kernel.thrown == old(kernel.thrown)
    {
      hide Below;
      hide TcpReactor.Levels;
      hide Disjoint;
      hide TcpReactor.Table;
      hide TcpReactor.AllSound;
      hide TcpReactor.AllLive;
      hide StopControl.Valid;
      BelowSelf(Levels());
      out := Ok;
      for i := 0 to |events|
        invariant handled == old(handled) + TokensOf(events)[..i]
        invariant handledAfterStop == old(handledAfterStop)
        invariant kernel.thrown == old(kernel.thrown)
        invariant i > 0 ==> old(stop.draining) || !PollOf(old(kernel.signals), false).Breaks?
        invariant i == 0 ==> kernel.signals == old(kernel.signals) && stop.draining == old(stop.draining)
        invariant Steady() && stop.Moved() && out.Ok? && Grown()
        invariant old(stop.draining) ==> Below(Levels(), old(Levels()))
      {
        var stopping;
        stopping, out := PollStop();
        if !out.Ok? || stop.stopRequested {
          return;
        }
        ghost var before := Levels();
        out := DispatchReadyEvent(events[i].0, events[i].1);
        if old(stop.draining) {
          BelowTrans(Levels(), before, old(Levels()));
        }
        if !out.Ok? {
          return;
        }
      }
    }

    // A drain pass, which may end the service, or the deadline scan.
    method DrainOrScan() returns (verdict: Verdict)
      requires Steady() && !stop.stopRequested
      modifies this`sessions, this`wired, this`closings, this`scans, tokens, stop, kernel, objects
      ensures Valid() && stop.Advanced() && Grown() && objects == old(objects)
      ensures verdict == Continue ==> Steady()
      ensures verdict == Return ==> stop.draining && sessions == map[] && tokens.entries == map[]
      ensures old(stop.draining) ==> Below(Levels(), old(Levels()))
      ensures verdict == Throw ==> old(kernel.faults) < kernel.faults
      ensures verdict == Continue && stop.draining && old(stop.draining) && !stop.stopRequested ==>
                sessions != map[] && forall k :: k in sessions ==> sessions[k].Waiting()
      ensures verdict == Continue && !stop.draining ==> scans == old(scans) + 1
      ensures verdict != Throw ==> kernel.thrown == old(kernel.thrown)
    {
      hide Session.Waiting;
      hide Scanned;
      hide NoticeFits;
      hide TcpReactor.ConnectingEnd;
      hide DrainNoticed;
      hide Noticed;
      hide TcpReactor.Standings;
      hide Below;
      hide TcpReactor.Levels;
      hide Disjoint;
      hide TcpReactor.Table;
      hide TcpReactor.AllSound;
      hide TcpReactor.AllLive;
      hide StopControl.Valid;
      var out;
      if stop.draining {
        out := AdvanceStopDrain();
        if out.Ok? && sessions == map[] {
          NothingNamed();
          return Return;
        }
      } else {
        out := ProcessSessionDeadlines();
      }
      verdict := if out.Ok? then Continue else Throw;
    }

    // The part of an iteration before the wait: final stop, drain pass, or deadline scan.
    method PrepareWait() returns (verdict: Verdict)
      requires Steady()
      modifies this`sessions, this`wired, this`closings, this`scans, tokens, stop, kernel, objects
      ensures Valid() && stop.Advanced() && Grown() && objects == old(objects)
      ensures verdict == Continue ==> Steady()
      ensures verdict == Return ==> stop.draining && sessions == map[] && tokens.entries == map[]
      ensures old(stop.draining) ==> Below(Levels(), old(Levels()))
      ensures verdict == Throw ==> old(kernel.faults) < kernel.faults
      ensures verdict == Continue && stop.draining && old(stop.draining) && !stop.stopRequested ==>
                sessions != map[] && forall k :: k in sessions ==> sessions[k].Waiting()
      ensures verdict == Continue && !stop.draining ==> scans == old(scans) + 1
      ensures !old(stop.draining) && PollOf(old(kernel.signals), false).Breaks? ==> verdict == Throw
      ensures verdict != Throw ==> kernel.thrown == old(kernel.thrown)
    {
      hide Session.Waiting;
      hide Scanned;
      hide NoticeFits;
      hide TcpReactor.ConnectingEnd;
      hide DrainNoticed;
      hide Noticed;
      hide TcpReactor.Standings;
      hide Below;
      hide TcpReactor.Levels;
      hide Disjoint;
      hide TcpReactor.Table;
      hide TcpReactor.AllSound;
      hide TcpReactor.AllLive;
      hide StopControl.Valid;
      BelowSelf(Levels());
      var stopping, out := PollStop();
      if !out.Ok? {
        return Throw;
      }
      if stop.stopRequested {
        FinalStop();
        var failure, results := CloseAllSessions(stop.stopReason);
        NoLevels();
        return if failure.Some? then Throw else Return;
      }
      ghost var before := Levels();
      verdict := DrainOrScan();
      if old(stop.draining) {
        BelowTrans(Levels(), before, old(Levels()));
      }
    }

    lemma FinalStop()
      requires stop.Valid() && stop.stopRequested
      ensures stop.draining && (stop.stopReason == StopDeadline || stop.stopReason == StopForced)
    {
    }

    // The part after the wait: poll, deadlines and maintenance unless draining, then the batch.
    method HandleReady(events: seq<(nat, Events)>) returns (out: Outcome)
      requires Steady()
      modifies this`sessions, this`wired, this`closings, this`objects, this`nextSessionId, this`listenerRetryTime
      modifies this`overCapacity, this`handled, this`handledAfterStop, this`scans, this`maintained
      modifies tokens, stop, kernel, objects
      ensures Valid() && stop.Moved() && !out.Failed? && Grown()
      ensures out.Ok? ==> Steady()
      ensures out.Ok? && !stop.stopRequested ==> handled == old(handled) + TokensOf(events)
      ensures old(stop.draining) ==> Below(Levels(), old(Levels()))
      ensures !out.Ok? ==> old(kernel.faults) < kernel.faults || tokens.nextToken == U64_MAX || ListenerFails(events)
      ensures out.Ok? && !stop.draining ==> scans == old(scans) + 1 && maintained == old(maintained) + 1
      ensures handledAfterStop == old(handledAfterStop)
      ensures !old(stop.draining) && PollOf(old(kernel.signals), false).Breaks? ==> out.Fatal?
      ensures out.Ok? ==> kernel.thrown == old(kernel.thrown)
    {
      hide DrainNoticed;
      hide Noticed;
      hide TcpReactor.Standings;
      hide Below;
      hide TcpReactor.Levels;
      hide Disjoint;
      hide TcpReactor.Table;
      hide TcpReactor.AllSound;
      hide TcpReactor.AllLive;
      hide StopControl.Valid;
      BelowSelf(Levels());
      var stopping;
      stopping, out := PollStop();
      if !out.Ok? || stop.stopRequested {
        return;
      }
      if !stop.draining {
        out := ProcessSessionDeadlines();
        if out.Ok? && !stop.draining {
          out := Maintain();
        }
        if !out.Ok? {
          return;
        }
      }
      out := DispatchTcpReadyEvents(events);
    }

    // The maintenance callback; a failure of it ends the service.
    method Maintain() returns (out: Outcome)
      requires Steady()
      modifies this`maintained, kernel`codes, kernel`faults
      ensures Steady() && stop.Advanced() && !out.Failed?
      ensures Levels() == old(Levels())
      ensures kernel.faults == old(kernel.faults) + if out.Ok? then 0 else 1
      ensures maintained == old(maintained) + if out.Ok? then 1 else 0
    {
      hide Disjoint;
      hide TcpReactor.Table;
      hide TcpReactor.AllSound;
      hide TcpReactor.AllLive;
      var code := kernel.Call();
      out := if code == 0 then Ok else Fatal;
      maintained := maintained + if code == 0 then 1 else 0;
    }

    // One pass of the event loop.
    method RunOneWait(wait: Wait) returns (verdict: Verdict)
      requires Steady()
      modifies this`sessions, this`wired, this`closings, this`objects, this`nextSessionId, this`listenerRetryTime
      modifies this`overCapacity, this`handled, this`handledAfterStop, this`scans, this`maintained
      modifies tokens, stop, kernel, objects
      ensures Valid() && stop.Moved() && Grown()
      ensures verdict == Continue ==> Steady()
      ensures verdict == Continue && !stop.stopRequested ==> handled == old(handled) + if wait.Ready? then TokensOf(wait.events) else []
      ensures verdict == Return ==> stop.draining && sessions == map[] && tokens.entries == map[]
      ensures old(stop.draining) ==> Below(Levels(), old(Levels()))
      ensures verdict == Throw ==> old(kernel.faults) < kernel.faults || tokens.nextToken == U64_MAX
                                   || wait.WaitError? || (wait.Ready? && ListenerFails(wait.events))
      ensures verdict == Continue && !stop.draining ==>
                scans == old(scans) + (if wait.Ready? then 2 else 1) && maintained == old(maintained) + if wait.Ready? then 1 else 0
      ensures handledAfterStop == old(handledAfterStop)
      ensures verdict != Throw ==> kernel.thrown == old(kernel.thrown)
    {
      hide AnyFails;
      hide ListenerFails;
      hide Below;
      hide TcpReactor.Levels;
      hide Disjoint;
      hide TcpReactor.Table;
      hide TcpReactor.AllSound;
      hide TcpReactor.AllLive;
      hide StopControl.Valid;
      verdict := PrepareWait();
      if verdict != Continue {
        return;
      }
      match wait {
        case WaitIntr =>
        case WaitError => return Throw;
        case Ready(events) =>
          ghost var before := Levels();
          var out := HandleReady(events);
          if old(stop.draining) {
            BelowTrans(Levels(), before, old(Levels()));
          }
          verdict := if out.Ok? then Continue else Throw;
      }
    }

    // runTcpEventLoop over any finite sequence of waits. Return is the regular exit; Continue
    // means that the waits ran out with the reactor still in service.
    method RunTcpEventLoop(waits: seq<Wait>) returns (verdict: Verdict)
      requires Steady()
      modifies this`sessions, this`wired, this`closings, this`objects, this`nextSessionId, this`listenerRetryTime
      modifies this`overCapacity, this`handled, this`handledAfterStop, this`scans, this`maintained
      modifies tokens, stop, kernel, objects
      ensures Valid() && stop.Moved() && Grown()
      ensures verdict == Continue ==> Steady()
      ensures verdict == Continue && !stop.stopRequested ==> handled == old(handled) + AllTokens(waits)
      ensures verdict == Return ==> stop.draining && sessions == map[] && tokens.entries == map[]
      ensures old(stop.draining) ==> Below(Levels(), old(Levels()))
      ensures verdict == Throw ==> old(kernel.faults) < kernel.faults || tokens.nextToken == U64_MAX || AnyFails(waits)
      ensures handledAfterStop == old(handledAfterStop)
      ensures verdict == Continue && !stop.draining ==> |waits| <= scans - old(scans) <= 2 * |waits|
      ensures verdict != Throw ==> kernel.thrown == old(kernel.thrown)
    {
      hide AnyFails;
      hide ListenerFails;
      hide Below;
      hide TcpReactor.Levels;
      hide Disjoint;
      hide TcpReactor.Table;
      hide TcpReactor.AllSound;
      hide TcpReactor.AllLive;
      hide StopControl.Valid;
      BelowSelf(Levels());
      for i := 0 to |waits|
        invariant handledAfterStop == old(handledAfterStop)
        invariant kernel.thrown == old(kernel.thrown)
        invariant !stop.draining ==> i <= scans - old(scans) <= 2 * i
        invariant Steady() && stop.Moved() && Grown()
        invariant !stop.stopRequested ==> handled == old(handled) + AllTokens(waits[..i])
        invariant old(stop.draining) ==> Below(Levels(), old(Levels()))
      {
        assert waits[..i + 1][..i] == waits[..i];
        ghost var before := Levels();
        FailsAt(waits, i);
        verdict := RunOneWait(waits[i]);
        if old(stop.draining) {
          BelowTrans(Levels(), before, old(Levels()));
        }
        if verdict != Continue {
          return;
        }
      }
      assert waits[..|waits|] == waits;
      verdict := Continue;
    }
  }

  const INT_MAX: nat := 0x7FFF_FFFF

  // runTcpReactor: a whole run, including the destructor that closes what an exception left.
  method RunTcpReactor(kernel: Kernel, waits: seq<Wait>, maxSessions: nat, connectTimeout: nat, idleTimeout: nat,
                       drainTimeout: nat) returns (verdict: Verdict, reactor: TcpReactor?)
    requires kernel.stops == 0 && kernel.Quiet()
    modifies kernel
    ensures kernel.Quiet()
    ensures reactor == null <==> drainTimeout == 0 || drainTimeout > INT_MAX
    ensures reactor == null ==> verdict == Throw && kernel.stops == 0
    ensures reactor != null ==> reactor.kernel == kernel && reactor.Valid() && |reactor.sessions| <= maxSessions
    ensures reactor != null && verdict != Continue ==> reactor.sessions == map[] && reactor.tokens.entries == map[]
    ensures reactor != null && verdict == Continue ==> reactor.Steady()
    ensures reactor != null ==> forall c :: c in reactor.closings ==> Honest(c)
    ensures verdict == Return ==> kernel.thrown == old(kernel.thrown)
    ensures reactor != null ==> reactor.maxSessions == maxSessions && reactor.stop.drainTimeout == drainTimeout
                                && reactor.connectTimeout == connectTimeout && reactor.idleTimeout == idleTimeout
    ensures verdict == Return ==> 1 <= kernel.stops <= 2
    ensures reactor != null && verdict == Throw ==>
              old(kernel.faults) < kernel.faults || reactor.tokens.nextToken == U64_MAX || AnyFails(waits)
  {
    hide Disjoint;
    hide TcpReactor.AllSound;
    hide TcpReactor.AllLive;
    hide Named;
    if drainTimeout == 0 || drainTimeout > INT_MAX {
      return Throw, null;
    }
    reactor := new TcpReactor(kernel, maxSessions, connectTimeout, idleTimeout, drainTimeout);
    reactor.NobodyYet();
    verdict := reactor.RunTcpEventLoop(waits);
    if verdict == Throw {
      var failure, results := reactor.CloseAllSessions(ServiceError);
    }
  }
}
