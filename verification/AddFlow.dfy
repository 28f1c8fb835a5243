/** add_flow of forward.c: from a message to a stored flow. */
module AddFlow {
  import opened Words
  import opened FlowKeys
  import opened LinearTable
  import opened Chain

  /** Flows with wildcards are below the highest priority. */
  ghost predicate LowWildcards(s: set<Flow>) {
    forall f :: f in s && !Exact(f.key) ==> f.priority < MAX_PRIORITY
  }

  /** The entry for a message. */
  method NewEntry(from: Match, priority: nat, idle: nat, hard: nat, now: nat, actions: seq<Action>)
    returns (flow: Flow)
    requires priority <= MAX_PRIORITY
    ensures fresh(flow) && flow.Ok() && Extracted(from, flow.key) && Sensible(flow.key.wildcards, flow.key.head)
    ensures flow.priority == if flow.key.wildcards == Zeros(32) then 65535 else priority
    ensures flow.idleTimeout == idle && flow.hardTimeout == hard && flow.initTime == flow.used == now
    ensures flow.actions == actions
  {
    var key := ExtractMatch(from);
    flow := new Flow(key, priority, idle, hard, now, actions);
  }

  /** Its insertion. */
  method Store(c: Chain, flow: Flow) returns (error: int)
    requires c.Valid() && flow.Ok() && flow !in c.Stored()
    modifies c.hash.sub0`nFlows, c.hash.sub0.buckets, c.hash.sub1`nFlows, c.hash.sub1.buckets
    modifies c.linear`flows, c.linear`iterFlows, c.linear`nFlows, c.linear`nextSerial, flow`serial
    ensures c.Valid() && (error == 0 || error == -105)
    ensures if error == 0 then flow in c.Stored() else c.Stored() == old(c.Stored())
    ensures c.Stored() <= old(c.Stored()) + {flow}
    ensures forall f :: f in old(c.Stored()) - c.Stored() ==> Rival(f, flow)
    ensures error == 0 && Exact(flow.key) && LowWildcards(old(c.Stored())) ==>
              c.Found(flow.key) == flow && c.Best(flow.key, flow)
  {
    ghost var low := Exact(flow.key) && LowWildcards(c.Stored());
    if low {
      c.InsertedIsFound(flow);
    }
    error := c.Insert(flow);
    if low && error == 0 {
      c.LookupIsBest(flow.key);
    }
  }

  /** add_flow, for actions that passed validation: whatever the message says, the entry fits the invariants of the
      tables. If wildcarded entries stay below the highest priority, then a new exact flow is at once the best match
      of its own packets and the one that is found for them. */
  method AddFlow(c: Chain, from: Match, priority: nat, idle: nat, hard: nat, now: nat, actions: seq<Action>)
    returns (error: int, flow: Flow)
    requires c.Valid() && priority <= MAX_PRIORITY
    modifies c.hash.sub0`nFlows, c.hash.sub0.buckets, c.hash.sub1`nFlows, c.hash.sub1.buckets
    modifies c.linear`flows, c.linear`iterFlows, c.linear`nFlows, c.linear`nextSerial
    ensures c.Valid() && fresh(flow) && flow.Ok() && (error == 0 || error == -105)
    ensures Extracted(from, flow.key) && Sensible(flow.key.wildcards, flow.key.head)
    ensures flow.priority == if flow.key.wildcards == Zeros(32) then 65535 else priority
    ensures flow.idleTimeout == idle && flow.hardTimeout == hard && flow.initTime == flow.used == now
    ensures flow.actions == actions
    ensures if error == 0 then flow in c.Stored() else c.Stored() == old(c.Stored())
    ensures c.Stored() <= old(c.Stored()) + {flow}
    ensures forall f :: f in old(c.Stored()) - c.Stored() ==> Rival(f, flow)
    ensures error == 0 && Exact(flow.key) && LowWildcards(old(c.Stored())) ==>
              c.Found(flow.key) == flow && c.Best(flow.key, flow)
  {
    flow := NewEntry(from, priority, idle, hard, now, actions);
    assert c.Valid() == old(c.Valid());
    error := Store(c, flow);
  }
}
