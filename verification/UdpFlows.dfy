/**
 The flow table of the UDP reactor as a value: two indexes that are inverse to each other, tokens
 that are never reused, and bindings that never change.
 */
module UdpFlows {
  import opened Common

  datatype Endpoint = Endpoint(address: seq<nat>, port: nat)
  datatype UdpFlowKey = UdpFlowKey(client: Endpoint, localAddress: seq<nat>)
  datatype UdpFlow = UdpFlow(key: UdpFlowKey, backend: Endpoint, lastSubmission: nat)

  // What a token stands for, for ever.
  datatype Binding = Binding(key: UdpFlowKey, backend: Endpoint)

  const FIRST_TOKEN: nat := 3   // 1 is the listener, 2 the signal descriptor

  predicate Expired(flow: UdpFlow, now: nat, timeout: nat) {
    flow.lastSubmission + timeout <= now
  }

  datatype Table = Table(flows: map<nat, UdpFlow>, tokens: map<UdpFlowKey, nat>, next: nat, bound: map<nat, Binding>)

  // Entry t of the token index and the entry of its key lead to each other.
  ghost predicate FlowOk(t: Table, token: nat)
    requires token in t.flows
  {
    && FIRST_TOKEN <= token < t.next
    && t.flows[token].key in t.tokens && t.tokens[t.flows[token].key] == token
    && token in t.bound && t.bound[token] == Binding(t.flows[token].key, t.flows[token].backend)
  }

  ghost predicate KeyOk(t: Table, key: UdpFlowKey)
    requires key in t.tokens
  {
    t.tokens[key] in t.flows && t.flows[t.tokens[key]].key == key
  }

  ghost predicate TableOk(t: Table) {
    && FIRST_TOKEN <= t.next <= U64_MAX
    && (forall token :: token in t.flows ==> FlowOk(t, token))
    && (forall key :: key in t.tokens ==> KeyOk(t, key))
    && forall token :: token in t.bound ==> token < t.next
  }

  // Bindings are only added, and the token counter only moves up.
  ghost predicate Extends(a: Table, b: Table) {
    && a.next <= b.next
    && (forall token :: token in a.bound ==> token in b.bound && b.bound[token] == a.bound[token])
    && forall token :: token in b.bound && token !in a.bound ==> a.next <= token
  }

  lemma ExtendsTrans(a: Table, b: Table, c: Table)
    requires Extends(a, b) && Extends(b, c)
    ensures Extends(a, c)
  {
  }

  lemma ExtendsSelf(a: Table)
    ensures Extends(a, a)
  {
  }

  // The two indexes are inverse to each other, so they have equally many entries.
  lemma Inverse(t: Table, token: nat, key: UdpFlowKey)
    requires TableOk(t)
    ensures token in t.flows && t.flows[token].key == key <==> key in t.tokens && t.tokens[key] == token
    ensures 0 !in t.flows && 1 !in t.flows && 2 !in t.flows
  {
    if token in t.flows && t.flows[token].key == key {
      assert FlowOk(t, token);
    }
    if key in t.tokens && t.tokens[key] == token {
      assert KeyOk(t, key);
    }
    assert forall u :: u in t.flows ==> FlowOk(t, u);
  }

  function Removed(t: Table, token: nat): Table
    requires token in t.flows
  {
    t.(flows := t.flows - {token}, tokens := t.tokens - {t.flows[token].key})
  }

  lemma RemoveKeeps(t: Table, token: nat)
    requires TableOk(t) && token in t.flows
    ensures TableOk(Removed(t, token)) && Extends(t, Removed(t, token))
    ensures |Removed(t, token).flows| == |t.flows| - 1
    ensures t.flows[token].key !in Removed(t, token).tokens
  {
    var r := Removed(t, token);
    assert FlowOk(t, token);
    forall other | other in r.flows
      ensures FlowOk(r, other)
    {
      assert FlowOk(t, other);
    }
    forall key | key in r.tokens
      ensures KeyOk(r, key)
    {
      assert KeyOk(t, key);
    }
    assert t.flows.Keys == r.flows.Keys + {token};
    MapSize(t.flows);
    MapSize(r.flows);
  }

  lemma MapSize<V>(m: map<nat, V>)
    ensures |m| == |m.Keys|
  {
  }

  // A token is taken from the counter whether or not its flow comes into being.
  function TokenTaken(t: Table): Table {
    t.(next := t.next + 1)
  }

  lemma TakeKeeps(t: Table)
    requires TableOk(t) && t.next < U64_MAX
    ensures TableOk(TokenTaken(t)) && Extends(t, TokenTaken(t)) && t.next !in t.bound && t.next !in t.flows
  {
    var r := TokenTaken(t);
    forall token | token in r.flows
      ensures FlowOk(r, token) && token != t.next
    {
      assert FlowOk(t, token);
    }
    assert forall key :: key in r.tokens ==> KeyOk(t, key);
  }

  function Inserted(t: Table, token: nat, flow: UdpFlow): Table {
    t.(flows := t.flows[token := flow], tokens := t.tokens[flow.key := token],
       bound := t.bound[token := Binding(flow.key, flow.backend)])
  }

  // The transaction of a new flow, whose token was just taken.
  lemma InsertKeeps(t: Table, token: nat, flow: UdpFlow)
    requires TableOk(t) && token !in t.flows && token !in t.bound && FIRST_TOKEN <= token < t.next && flow.key !in t.tokens
    ensures TableOk(Inserted(t, token, flow))
  {
    var r := Inserted(t, token, flow);
    forall other | other in r.flows
      ensures FlowOk(r, other)
    {
      if other != token {
        assert FlowOk(t, other);
      }
    }
    forall key | key in r.tokens
      ensures KeyOk(r, key)
    {
      if key != flow.key {
        assert KeyOk(t, key);
      }
    }
  }

  lemma InsertExtends(t: Table, flow: UdpFlow)
    requires TableOk(t)
    ensures Extends(t, Inserted(TokenTaken(t), t.next, flow))
  {
  }

  lemma InsertCounts(t: Table, token: nat, flow: UdpFlow)
    requires token !in t.flows
    ensures |Inserted(t, token, flow).flows| == |t.flows| + 1
  {
    var r := Inserted(t, token, flow);
    assert r.flows.Keys == t.flows.Keys + {token};
    MapSize(t.flows);
    MapSize(r.flows);
  }

  // Undoing the insertion, or the half of it that was done, leaves the table as it was.
  lemma RollbackIsExact(t: Table, token: nat, flow: UdpFlow)
    requires token !in t.flows && flow.key !in t.tokens
    ensures t.flows[token := flow] - {token} == t.flows
    ensures t.tokens[flow.key := token] - {flow.key} == t.tokens
  {
  }

  function Touched(t: Table, token: nat, now: nat): Table
    requires token in t.flows
  {
    t.(flows := t.flows[token := t.flows[token].(lastSubmission := now)])
  }

  lemma TouchKeeps(t: Table, token: nat, now: nat)
    requires TableOk(t) && token in t.flows
    ensures TableOk(Touched(t, token, now)) && Extends(t, Touched(t, token, now))
    ensures |Touched(t, token, now).flows| == |t.flows|
  {
    var r := Touched(t, token, now);
    forall other | other in r.flows
      ensures FlowOk(r, other)
    {
      assert FlowOk(t, other);
    }
    forall key | key in r.tokens
      ensures KeyOk(r, key)
    {
      assert KeyOk(t, key);
    }
    assert r.flows.Keys == t.flows.Keys;
    MapSize(t.flows);
    MapSize(r.flows);
  }

  // Flows were only closed.
  ghost predicate Shrunk(a: Table, b: Table) {
    && b.next == a.next && b.bound == a.bound
    && (forall token :: token in b.flows ==> token in a.flows && b.flows[token] == a.flows[token])
    && forall key :: key in b.tokens ==> key in a.tokens && b.tokens[key] == a.tokens[key]
  }

  lemma ShrunkTrans(a: Table, b: Table, c: Table)
    requires Shrunk(a, b) && Shrunk(b, c)
    ensures Shrunk(a, c)
  {
  }

  lemma RemoveShrinks(t: Table, token: nat)
    ensures Shrunk(t, t)
    ensures token in t.flows ==> Shrunk(t, Removed(t, token))
  {
  }

  // Flows were only closed, except for at most one new one, which is for `key`.
  ghost predicate ShrunkOrNew(a: Table, b: Table, key: UdpFlowKey) {
    && (forall token :: token in b.flows ==>
          (token in a.flows && b.flows[token] == a.flows[token]) || (b.flows[token].key == key && a.next <= token))
    && forall k :: k in b.tokens && k != key ==> k in a.tokens && b.tokens[k] == a.tokens[k]
  }

  lemma NewFlow(a: Table, t: Table, flow: UdpFlow)
    requires Shrunk(a, t)
    ensures ShrunkOrNew(a, TokenTaken(t), flow.key)
    ensures ShrunkOrNew(a, Inserted(TokenTaken(t), t.next, flow), flow.key)
    ensures ShrunkOrNew(a, t, flow.key)
  {
  }

  // A datagram for `key` finds its own flow over its idle time while it is being resolved.
  predicate FindsExpired(t: Table, key: UdpFlowKey, now: nat, timeout: nat) {
    key in t.tokens && t.tokens[key] in t.flows && Expired(t.flows[t.tokens[key]], now, timeout)
  }

  // The flows whose idle time is over.
  ghost function Due(flows: map<nat, UdpFlow>, now: nat, timeout: nat): set<nat> {
    set token | token in flows && Expired(flows[token], now, timeout)
  }

  // While flows that are due are removed, at most all of them have been, and exactly all of them
  // once none is left.
  lemma RemovedAreDue(before: map<nat, UdpFlow>, after: map<nat, UdpFlow>, now: nat, timeout: nat)
    requires after.Keys <= before.Keys
    requires forall token :: token in before && !Expired(before[token], now, timeout) ==> token in after
    ensures |before| - |after| <= |Due(before, now, timeout)|
    ensures (forall token :: token in after ==> !Expired(before[token], now, timeout)) ==>
              |before| - |after| == |Due(before, now, timeout)|
  {
    var removed := before.Keys - after.Keys;
    assert before.Keys == after.Keys + removed;
    MapSize(before);
    MapSize(after);
    assert removed <= Due(before, now, timeout);
    SubsetSize(removed, Due(before, now, timeout));
    if forall token :: token in after ==> !Expired(before[token], now, timeout) {
      assert removed == Due(before, now, timeout);
    }
  }

  lemma SubsetSize(a: set<nat>, b: set<nat>)
    requires a <= b
    ensures |a| <= |b|
  {
    assert b == a + (b - a);
  }
}
