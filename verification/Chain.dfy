/** chain.c: the two-way exact-match table followed by the linear table. */
module Chain {
  import opened Arith
  import opened Words
  import opened FlowKeys
  import opened LinearTable
  import opened HashTable
  import opened Hash2Table

  const ENOBUFS := 105
  const TABLE_LINEAR_MAX_FLOWS := 100
  const TABLE_HASH_MAX_FLOWS := 65536

  lemma TableSize()
    ensures TABLE_HASH_MAX_FLOWS == Pow2(16)
  {
    assert Pow2(4) == 16;
    assert Pow2(8) == 256 by { Pow2Double(4); }
    Pow2Double(8);
  }

  /** An entry that an insertion of `flow` may evict: one of its kind, or an exact entry with its head. */
  predicate Rival(f: Flow, flow: Flow) {
    Same(f, flow) || (Exact(f.key) && KeysEqual(f.key, flow.key))
  }

  predicate SameLabels(a: Key, b: Key) { a.mpls1 == b.mpls1 && a.mpls2 == b.mpls2 }

  method NewHash2() returns (h: Hash2)
    ensures h.Valid() && h.Flows() == {}
    ensures h.sub0.buckets.Length == h.sub1.buckets.Length == TABLE_HASH_MAX_FLOWS
    ensures h.sub0.crc.poly == FromNat(0x1EDC6F41, 32) && h.sub1.crc.poly == FromNat(0x741B8CD7, 32)
    ensures fresh(h.sub0) && fresh(h.sub0.buckets) && fresh(h.sub1) && fresh(h.sub1.buckets)
  {
    TableSize();
    h := new Hash2(FromNat(0x1EDC6F41, 32), TABLE_HASH_MAX_FLOWS, FromNat(0x741B8CD7, 32), TABLE_HASH_MAX_FLOWS);
  }

  class Chain {
    const hash: Hash2
    const linear: Linear
    // n_lookup and n_matched of the two tables
    var hashLookups: nat
    var hashMatches: nat
    var linearLookups: nat
    var linearMatches: nat

    /** chain_create, without a hardware table */
    constructor ()
      ensures Valid() && Stored() == {} && linear.flows == []
      ensures hash.sub0.buckets.Length == hash.sub1.buckets.Length == 65536 && linear.maxFlows == 100
      ensures hash.sub0.crc.poly == FromNat(0x1EDC6F41, 32) && hash.sub1.crc.poly == FromNat(0x741B8CD7, 32)
      ensures fresh(hash.sub0) && fresh(hash.sub0.buckets) && fresh(hash.sub1) && fresh(hash.sub1.buckets)
              && fresh(linear)
      ensures hashLookups == hashMatches == linearLookups == linearMatches == 0
    {
      var h := NewHash2();
      hash := h;
      linear := new Linear(TABLE_LINEAR_MAX_FLOWS);
      hashLookups, hashMatches, linearLookups, linearMatches := 0, 0, 0, 0;
    }

    ghost predicate Valid()
      reads hash.sub0`nFlows, hash.sub0.buckets, hash.sub0.crc.table
      reads hash.sub1`nFlows, hash.sub1.buckets, hash.sub1.crc.table
      reads linear, linear.flows`serial, linear.iterFlows`serial
    {
      hash.Valid() && linear.Valid() && hash.Flows() !! Members(linear.flows)
    }

    ghost function Stored(): set<Flow>
      reads hash.sub0.buckets, hash.sub1.buckets, linear`flows
    {
      hash.Flows() + Members(linear.flows)
    }

    ghost function Found(key: Key): Flow?
      requires hash.sub0.buckets.Length > 0 && hash.sub1.buckets.Length > 0
      reads hash.sub0.buckets, hash.sub1.buckets, linear
    {
      if hash.Find(key) != null then hash.Find(key) else linear.FirstMatch(key)
    }

    /** The tables in turn; `inHash` tells which one answered. */
    method Search(key: Key) returns (f: Flow?, inHash: bool)
      requires Valid()
      ensures f == Found(key) && inHash == (hash.Find(key) != null)
    {
      f := hash.Lookup(key);
      inHash := f != null;
      if f == null {
        f := linear.Lookup(key);
      }
    }

    /** chain_lookup */
    method Lookup(key: Key) returns (f: Flow?)
      requires Valid() && Exact(key)
      modifies this`hashLookups, this`hashMatches, this`linearLookups, this`linearMatches
      ensures f == old(Found(key))
      ensures hashLookups == old(hashLookups) + 1
      ensures hashMatches == old(hashMatches) + if old(hash.Find(key)) != null then 1 else 0
      ensures linearLookups == old(linearLookups) + if old(hash.Find(key)) != null then 0 else 1
      ensures linearMatches == old(linearMatches) + if old(hash.Find(key)) == null && f != null then 1 else 0
    {
      var inHash;
      f, inHash := Search(key);
      hashLookups := hashLookups + 1;
      if inHash {
        hashMatches := hashMatches + 1;
        return;
      }
      linearLookups := linearLookups + 1;
      if f != null {
        linearMatches := linearMatches + 1;
      }
    }

    /** The matching rule: some stored flow of highest priority among those the packet matches, or none. */
    ghost predicate Best(key: Key, r: Flow?)
      reads hash.sub0.buckets, hash.sub1.buckets, linear`flows
    {
      if r == null then forall f :: f in Stored() ==> !Matches1(key, f.key)
      else r in Stored() && Matches1(key, r.key)
           && forall f :: f in Stored() && Matches1(key, f.key) ==> f.priority <= r.priority
    }

    /** chain_lookup follows the matching rule exactly when the hash tables do not answer with a flow of other
        MPLS labels, which flow_keys_equal does not compare. */
    lemma LookupIsBest(key: Key)
      requires Valid() && key.head.pad == 0
      ensures Best(key, Found(key)) <==> hash.Find(key) == null || SameLabels(key, hash.Find(key).key)
    {
      var h := hash.Find(key);
      if h != null {
        hash.FlowIsExact(h);
        ExactMatch(key, h.key);
        forall f | f in Stored() ensures f.priority <= MAX_PRIORITY { StoredOk(f); }
      } else {
        hash.FindIsComplete(key);
        linear.FirstMatchIsBest(key);
      }
    }

    /** So it follows the rule for every packet whose labels all exact entries with its head have. */
    lemma SameLabelsSuffice(key: Key)
      requires Valid() && key.head.pad == 0
      requires forall f :: f in hash.Flows() && KeysEqual(f.key, key) ==> SameLabels(key, f.key)
      ensures Best(key, Found(key))
    {
      var h := hash.Find(key);
      assert h != null ==> h in hash.Flows() && KeysEqual(h.key, key);
      LookupIsBest(key);
    }

    lemma StoredOk(f: Flow)
      requires Valid() && f in Stored()
      ensures f.Ok()
    {
      if f in hash.Flows() { hash.FlowIsExact(f); }
    }

    /** chain_insert: 0, or -ENOBUFS if neither table takes the flow. */
    method Insert(flow: Flow) returns (error: int)
      requires Valid() && flow.Ok() && flow !in Stored()
      modifies hash.sub0`nFlows, hash.sub0.buckets, hash.sub1`nFlows, hash.sub1.buckets
      modifies linear`flows, linear`iterFlows, linear`nFlows, linear`nextSerial, flow`serial
      ensures Valid() && error == if old(hash.Fits(flow)) || old(linear.Takes(flow)) then 0 else -105
      ensures old(hash.Fits(flow)) <==>
                flow.key.wildcards == Zeros(32)
                && old(var f, g := hash.sub0.buckets[hash.sub0.Slot(flow.key.head)],
                                   hash.sub1.buckets[hash.sub1.Slot(flow.key.head)];
                       f == null || f.key.head == flow.key.head || g == null || g.key.head == flow.key.head)
      ensures error != 0 ==> Stored() == old(Stored())
      ensures error == 0 ==> flow in Stored()
      ensures error == 0 && Exact(flow.key) ==>
                (Found(flow.key) == flow <==> old(hash.Fits(flow)) || !old(linear.Shadows(flow)))
      ensures old(hash.Fits(flow)) ==>
                hash.Find(flow.key) == flow && Took(old(hash.Flows()), hash.Flows(), flow)
                    && linear.flows == old(linear.flows)
      ensures !old(hash.Fits(flow)) ==>
                hash.Flows() == old(hash.Flows()) && Supplanted(old(linear.flows), linear.flows, flow)
                && (error == 0 ==> flow in linear.flows)
      ensures Stored() <= old(Stored()) + {flow}
      ensures forall f :: f in old(Stored()) - Stored() ==> Rival(f, flow)
    {
      var r := hash.Insert(flow);
      if r != 0 {
        return 0;
      }
      r := linear.Insert(flow);
      if r != 0 {
        return 0;
      }
      return -ENOBUFS;
    }

    /** After a successful insertion of an exact flow, its key finds it, if wildcarded entries stay below the
        highest priority. */
    lemma InsertedIsFound(flow: Flow)
      requires Valid() && flow.Ok() && Exact(flow.key)
      requires forall f :: f in Stored() && !Exact(f.key) ==> f.priority < MAX_PRIORITY
      ensures !linear.Shadows(flow)
    {
      forall k | 0 <= k < |linear.flows| && !Exact(linear.flows[k].key)
        ensures linear.flows[k].priority < MAX_PRIORITY
      {
        assert linear.flows[k] in Stored();
      }
      linear.NeverShadowed(flow);
    }

    /** The loop of chain_modify, table by table. */
    method ModifyTables(key: Key, priority: nat, strict: bool, actions: seq<Action>)
      returns (count: nat, ghost h0: set<Flow>, ghost h1: set<Flow>)
      requires Valid() && WellFormed(key)
      modifies hash.Flows()`actions, Members(linear.flows)`actions
      ensures Valid() && Stored() == old(Stored()) && count == |h0| + |h1|
      ensures h0 == Hit(hash.Flows(), key, priority, strict) && h1 == Hit(Members(linear.flows), key, priority, strict)
      ensures forall f :: f in hash.Flows() ==> f.actions == if f in h0 then actions else old(f.actions)
      ensures forall f :: f in Members(linear.flows) ==> f.actions == if f in h1 then actions else old(f.actions)
    {
      var c0, c1;
      c0, h0 := hash.Modify(key, priority, strict, actions);
      c1, h1 := linear.Modify(key, priority, strict, actions);
      count := c0 + c1;
    }

    /** chain_modify: every flow the description covers, and no other, gets the new actions. */
    method Modify(key: Key, priority: nat, strict: bool, actions: seq<Action>)
      returns (count: nat, ghost hit: set<Flow>)
      requires Valid() && WellFormed(key)
      modifies hash.Flows()`actions, Members(linear.flows)`actions
      ensures Valid() && Stored() == old(Stored())
      ensures hit == Hit(Stored(), key, priority, strict) && count == |hit|
      ensures forall f :: f in hit <==> f in Stored() && MatchesDesc(f.key, key, strict)
                                        && (strict ==> f.priority == priority)
      ensures forall f :: f in Stored() ==> f.actions == if f in hit then actions else old(f.actions)
    {
      ghost var h0, h1;
      HitUnion(hash.Flows(), Members(linear.flows), key, priority, strict);
      count, h0, h1 := ModifyTables(key, priority, strict, actions);
      Union(hash.Flows(), Members(linear.flows), h0, h1);
      hit := h0 + h1;
    }

    /** chain_delete */
    method Delete(key: Key, outPort: OutPort, priority: nat, strict: bool) returns (count: nat, ghost gone: set<Flow>)
      requires Valid()
      modifies hash.sub0`nFlows, hash.sub0.buckets, hash.sub1`nFlows, hash.sub1.buckets
      modifies linear`flows, linear`iterFlows, linear`nFlows
      ensures Valid()
      ensures gone == old(Picked(hash.Flows(), key, outPort, strict)) + old(linear.Picked(key, outPort, priority,
              strict))
      ensures forall f :: f in gone <==>
                          f in old(Stored()) && old(f.OutputsTo(outPort))
                          && if f in old(hash.Flows()) && key.wildcards == Zeros(32) then f.key.head == key.head
                             else MatchesDesc(f.key, key, strict)
                                  && (strict && f in old(linear.flows) ==> f.priority == priority)
      ensures Stored() == old(Stored()) - gone && count == |gone|
    {
      ghost var s0, s1 := hash.Flows(), Members(linear.flows);
      ghost var p0 := Picked(s0, key, outPort, strict);
      ghost var p1 := linear.Picked(key, outPort, priority, strict);
      var c0, g0 := hash.Delete(key, outPort, strict);
      assert g0 == p0 && linear.Picked(key, outPort, priority, strict) == p1;
      var c1, g1 := linear.Delete(key, outPort, priority, strict);
      Union(s0, s1, p0, p1);
      count, gone := c0 + c1, p0 + p1;
    }

    lemma EverythingPicked(key: Key, outPort: OutPort, priority: nat)
      requires Valid() && WellFormed(key) && outPort.number == 0xffff && forall i :: 10 <= i < 32 ==> key.wildcards[i]
      ensures Picked(hash.Flows(), key, outPort, false) == hash.Flows()
      ensures linear.Picked(key, outPort, priority, false) == Members(linear.flows)
    {
      assert key.wildcards[10];
      forall f | f in Stored() ensures MatchesDesc(f.key, key, false) {
        EverythingMatches(f.key, key);
      }
    }

    /** Deletion for the match with every wildcard: nothing is left, and no packet finds anything. */
    method DeleteAll(key: Key, outPort: OutPort, priority: nat) returns (count: nat)
      requires Valid() && WellFormed(key) && outPort.number == 0xffff && forall i :: 10 <= i < 32 ==> key.wildcards[i]
      modifies hash.sub0`nFlows, hash.sub0.buckets, hash.sub1`nFlows, hash.sub1.buckets
      modifies linear`flows, linear`iterFlows, linear`nFlows
      ensures Valid() && Stored() == {} && count == |old(Stored())|
    {
      ghost var gone;
      EverythingPicked(key, outPort, priority);
      count, gone := Delete(key, outPort, priority, false);
    }

    /** The loop of chain_timeout, table by table. */
    method TimeoutTables(now: nat, hz: nat) returns (count: nat, ghost g0: set<Flow>, ghost g1: set<Flow>)
      requires Valid()
      modifies hash.sub0`nFlows, hash.sub0.buckets, hash.sub1`nFlows, hash.sub1.buckets
      modifies linear`flows, linear`iterFlows, linear`nFlows
      ensures Valid() && count == |g0| + |g1|
      ensures g0 == old(ExpiredIn(hash.Flows(), now, hz)) && hash.Flows() == old(hash.Flows()) - g0
      ensures g1 == old(ExpiredIn(Members(linear.flows), now, hz))
      ensures Members(linear.flows) == old(Members(linear.flows)) - g1
    {
      ghost var s1 := Members(linear.flows);
      ghost var p1 := ExpiredIn(s1, now, hz);
      var c0, c1;
      c0, g0 := hash.Timeout(now, hz);
      assert ExpiredIn(s1, now, hz) == p1;
      c1, g1 := linear.Timeout(now, hz);
      count := c0 + c1;
    }

    /** chain_timeout */
    method Timeout(now: nat, hz: nat) returns (count: nat, ghost gone: set<Flow>)
      requires Valid()
      modifies hash.sub0`nFlows, hash.sub0.buckets, hash.sub1`nFlows, hash.sub1.buckets
      modifies linear`flows, linear`iterFlows, linear`nFlows
      ensures Valid()
      ensures gone == old(ExpiredIn(Stored(), now, hz))
      ensures forall f :: f in gone <==>
                          f in old(Stored()) && ((f.idleTimeout > 0 && now > old(f.used) + f.idleTimeout * hz)
                                                 || (f.hardTimeout > 0 && now > f.initTime + f.hardTimeout * hz))
      ensures Stored() == old(Stored()) - gone && count == |gone|
    {
      ghost var g0, g1, s0, s1 := {}, {}, hash.Flows(), Members(linear.flows);
      ExpiredUnion(s0, s1, now, hz);
      ExpiredMeans(Stored(), now, hz);
      count, g0, g1 := TimeoutTables(now, hz);
      Union(s0, s1, g0, g1);
      gone := g0 + g1;
    }
  }
}
