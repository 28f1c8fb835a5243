/** table-hash.c: the double-hashing table built from two hash tables with different polynomials. */
module Hash2Table {
  import opened Arith
  import opened Words
  import opened FlowKeys
  import opened LinearTable
  import opened HashTable

  lemma TookUnion(s0: set<Flow>, t0: set<Flow>, s1: set<Flow>, t1: set<Flow>, flow: Flow)
    requires Took(s0, t0, flow) || s0 == t0
    requires Took(s1, t1, flow) || s1 == t1
    ensures Took(s0 + s1, t0 + t1, flow)
  {
    forall f | f in (s0 + s1) - (t0 + t1) ensures Exact(f.key) && KeysEqual(f.key, flow.key) {
      assert f in s0 - t0 || f in s1 - t1;
    }
  }

  lemma Union<T>(s0: set<T>, s1: set<T>, g0: set<T>, g1: set<T>)
    requires s0 !! s1 && g0 <= s0 && g1 <= s1
    ensures (s0 - g0) + (s1 - g1) == (s0 + s1) - (g0 + g1) && s0 - g0 !! s1 - g1 && |g0 + g1| == |g0| + |g1|
  {
    assert g0 !! g1;
  }

  lemma PickedUnion(s: set<Flow>, t: set<Flow>, key: Key, outPort: OutPort, strict: bool)
    ensures Picked(s + t, key, outPort, strict) == Picked(s, key, outPort, strict) + Picked(t, key, outPort, strict)
  {
  }

  lemma HitUnion(s: set<Flow>, t: set<Flow>, key: Key, priority: nat, strict: bool)
    ensures Hit(s + t, key, priority, strict) == Hit(s, key, priority, strict) + Hit(t, key, priority, strict)
    ensures Hit(s, key, priority, strict) <= s && Hit(t, key, priority, strict) <= t
  {
  }

  class Hash2 {
    const sub0: Hash
    const sub1: Hash

    constructor (poly0: Word, buckets0: nat, poly1: Word, buckets1: nat)
      requires (exists k :: buckets0 == Pow2(k)) && exists k :: buckets1 == Pow2(k)
      ensures Valid() && Flows() == {} && sub0.buckets.Length == buckets0 && sub1.buckets.Length == buckets1
      ensures sub0.crc.poly == poly0 && sub1.crc.poly == poly1
      ensures fresh(sub0) && fresh(sub0.buckets) && fresh(sub1) && fresh(sub1.buckets)
    {
      sub0 := new Hash(poly0, buckets0);
      sub1 := new Hash(poly1, buckets1);
    }

    ghost predicate Valid()
      reads sub0`nFlows, sub0.buckets, sub0.crc.table, sub1`nFlows, sub1.buckets, sub1.crc.table
    {
      && sub0.Valid() && sub1.Valid() && sub0 != sub1 && sub0.buckets != sub1.buckets
      && sub0.Flows() !! sub1.Flows()
    }

    ghost function Flows(): set<Flow>
      reads sub0.buckets, sub1.buckets
    {
      sub0.Flows() + sub1.Flows()
    }

    ghost function Find(key: Key): Flow?
      requires sub0.buckets.Length > 0 && sub1.buckets.Length > 0
      reads sub0.buckets, sub1.buckets
    {
      if sub0.Find(key) != null then sub0.Find(key) else sub1.Find(key)
    }

    /** table_hash2_lookup */
    method Lookup(key: Key) returns (f: Flow?)
      requires Valid()
      ensures f == Find(key)
    {
      f := sub0.Lookup(key);
      if f == null {
        f := sub1.Lookup(key);
      }
    }

    lemma FlowIsExact(f: Flow)
      requires Valid() && f in Flows()
      ensures f.Ok() && Exact(f.key)
    {
      if f in sub0.Flows() { sub0.FlowIsExact(f); } else { sub1.FlowIsExact(f); }
    }

    /** What a failed search says about every stored flow. */
    lemma FindIsComplete(key: Key)
      requires Valid() && key.head.pad == 0 && Find(key) == null
      ensures forall f :: f in Flows() ==> !KeysEqual(f.key, key) && !Matches1(key, f.key)
    {
      sub0.FindIsComplete(key);
      sub1.FindIsComplete(key);
      forall f | f in Flows() ensures !KeysEqual(f.key, key) && !Matches1(key, f.key) {
        FlowIsExact(f);
        ExactMatch(key, f.key);
      }
    }

    ghost predicate Fits(flow: Flow)
      requires sub0.buckets.Length > 0 && sub1.buckets.Length > 0
      reads sub0.buckets, sub1.buckets
    {
      Exact(flow.key) && (sub0.Accepts(flow) || sub1.Accepts(flow))
    }

    /** table_hash2_insert */
    method Insert(flow: Flow) returns (r: int)
      requires Valid() && flow.Ok() && flow !in Flows()
      modifies sub0`nFlows, sub0.buckets, sub1`nFlows, sub1.buckets
      ensures Valid() && r == if old(Fits(flow)) then 1 else 0
      ensures r == 1 <==> flow.key.wildcards == Zeros(32)
                          && old(var f, g := sub0.buckets[sub0.Slot(flow.key.head)],
                                             sub1.buckets[sub1.Slot(flow.key.head)];
                                 f == null || f.key.head == flow.key.head || g == null || g.key.head == flow.key.head)
      ensures r == 0 ==> Flows() == old(Flows()) && (Exact(flow.key) ==> Find(flow.key) == null)
      ensures r == 1 ==> Find(flow.key) == flow && flow in Flows()
      ensures Took(old(Flows()), Flows(), flow)
    {
      ghost var s0, s1 := sub0.Flows(), sub1.Flows();
      r := sub0.Insert(flow);
      if r == 0 {
        r := sub1.Insert(flow);
      }
      TookUnion(s0, sub0.Flows(), s1, sub1.Flows(), flow);
    }

    /** table_hash2_delete */
    method Delete(key: Key, outPort: OutPort, strict: bool) returns (count: nat, ghost gone: set<Flow>)
      requires Valid()
      modifies sub0`nFlows, sub0.buckets, sub1`nFlows, sub1.buckets
      ensures Valid()
      ensures gone == old(Picked(Flows(), key, outPort, strict))
      ensures Flows() == old(Flows()) - gone && count == |gone|
    {
      ghost var s0, s1 := sub0.Flows(), sub1.Flows();
      ghost var p0, p1 := Picked(s0, key, outPort, strict), Picked(s1, key, outPort, strict);
      PickedUnion(s0, s1, key, outPort, strict);
      var c0, g0 := sub0.Delete(key, outPort, strict);
      assert g0 == p0 && Picked(s1, key, outPort, strict) == p1;
      var c1, g1 := sub1.Delete(key, outPort, strict);
      Union(s0, s1, p0, p1);
      count, gone := c0 + c1, p0 + p1;
    }

    /** table_hash2_timeout */
    method Timeout(now: nat, hz: nat) returns (count: nat, ghost gone: set<Flow>)
      requires Valid()
      modifies sub0`nFlows, sub0.buckets, sub1`nFlows, sub1.buckets
      ensures Valid()
      ensures gone == old(ExpiredIn(Flows(), now, hz))
      ensures Flows() == old(Flows()) - gone && count == |gone|
    {
      ghost var g0, g1, s0, s1 := {}, {}, sub0.Flows(), sub1.Flows();
      var c0, c1;
      ExpiredUnion(s0, s1, now, hz);
      c0, g0 := sub0.Timeout(now, hz);
      c1, g1 := sub1.Timeout(now, hz);
      Union(s0, s1, g0, g1);
      count, gone := c0 + c1, g0 + g1;
    }

    /** Both subtables in turn. */
    method ModifyTables(key: Key, priority: nat, strict: bool, actions: seq<Action>)
      returns (count: nat, ghost h0: set<Flow>, ghost h1: set<Flow>)
      requires Valid() && WellFormed(key)
      modifies Flows()`actions
      ensures Valid() && count == |h0| + |h1|
      ensures h0 == Hit(sub0.Flows(), key, priority, strict) && h1 == Hit(sub1.Flows(), key, priority, strict)
      ensures forall f :: f in sub0.Flows() ==> f.actions == if f in h0 then actions else old(f.actions)
      ensures forall f :: f in sub1.Flows() ==> f.actions == if f in h1 then actions else old(f.actions)
    {
      var c0, c1;
      c0, h0 := sub0.Modify(key, priority, strict, actions);
      c1, h1 := sub1.Modify(key, priority, strict, actions);
      count := c0 + c1;
    }

    /** table_hash2_modify */
    method Modify(key: Key, priority: nat, strict: bool, actions: seq<Action>)
      returns (count: nat, ghost hit: set<Flow>)
      requires Valid() && WellFormed(key)
      modifies Flows()`actions
      ensures Valid()
      ensures hit == Hit(Flows(), key, priority, strict)
      ensures forall f :: f in Flows() ==> f.actions == if f in hit then actions else old(f.actions)
      ensures count == |hit|
    {
      ghost var h0, h1;
      HitUnion(sub0.Flows(), sub1.Flows(), key, priority, strict);
      count, h0, h1 := ModifyTables(key, priority, strict, actions);
      Union(sub0.Flows(), sub1.Flows(), h0, h1);
      hit := h0 + h1;
    }
  }
}
