/** table-hash.c: exact-match tables, one flow a bucket, and the two-way table built from two of them. */
module HashTable {
  import opened Arith
  import opened Words
  import opened C = Crc
  import opened FlowKeys
  import opened LinearTable

  /** Number of occupied buckets. */
  ghost function Live(s: seq<Flow?>): nat {
    if s == [] then 0 else Live(s[..|s| - 1]) + if s[|s| - 1] == null then 0 else 1
  }

  lemma {:induction false} LiveUpdate(s: seq<Flow?>, i: nat, f: Flow?)
    requires i < |s|
    ensures Live(s[i := f]) == Live(s) - (if s[i] == null then 0 else 1) + (if f == null then 0 else 1)
  {
    var t := s[i := f];
    if i == |s| - 1 {
      assert t[..|s| - 1] == s[..|s| - 1];
    } else {
      assert t[..|s| - 1] == s[..|s| - 1][i := f];
      LiveUpdate(s[..|s| - 1], i, f);
    }
  }

  lemma {:induction false} LiveIsSize(s: seq<Flow?>)
    requires forall i, j :: 0 <= i < j < |s| && s[i] != null ==> s[i] != s[j]
    ensures Live(s) == |FlowsIn(s)|
  {
    if s != [] {
      var r, f := s[..|s| - 1], s[|s| - 1];
      LiveIsSize(r);
      assert s == r + [f];
      if f == null {
        assert FlowsIn(s) == FlowsIn(r);
      } else {
        assert FlowsIn(s) == FlowsIn(r) + {f} && f !in FlowsIn(r);
      }
    }
  }

  /** The buckets with the flows of `gone` taken out. */
  ghost predicate Cleared(s: seq<Flow?>, t: seq<Flow?>, gone: set<Flow>) {
    |t| == |s| && forall i :: 0 <= i < |s| ==> t[i] == if s[i] in gone then null else s[i]
  }

  /** What table_hash_delete removes: for an exact key every flow with that head, whatever its labels;
      otherwise every flow the key describes. The priority is ignored. */
  ghost predicate Picks(f: Flow, key: Key, outPort: OutPort, strict: bool)
    reads f`actions
  {
    (if Exact(key) then KeysEqual(f.key, key) else MatchesDesc(f.key, key, strict)) && f.OutputsTo(outPort)
  }

  ghost function Picked(s: set<Flow>, key: Key, outPort: OutPort, strict: bool): set<Flow>
    reads s`actions
  {
    set f | f in s && Picks(f, key, outPort, strict)
  }

  function FlowsIn(s: seq<Flow?>): set<Flow> { set f: Flow | f in s }

  lemma ClearedFlows(s: seq<Flow?>, t: seq<Flow?>, gone: set<Flow>)
    requires Cleared(s, t, gone)
    ensures FlowsIn(t) == FlowsIn(s) - gone
  {
    forall f | f in FlowsIn(s) - gone ensures f in FlowsIn(t) {
      var i :| 0 <= i < |s| && s[i] == f;
      assert t[i] == f;
    }
  }

  /** From `s` to `t` at most `flow` is new, and only exact entries with its head are gone. */
  ghost predicate Took(s: set<Flow>, t: set<Flow>, flow: Flow) {
    t <= s + {flow} && forall f :: f in s - t ==> Exact(f.key) && KeysEqual(f.key, flow.key)
  }

  class Hash {
    const crc: C.Table
    const buckets: array<Flow?>
    var nFlows: nat

    /** table_hash_create */
    constructor (polynomial: Word, nBuckets: nat)
      requires exists k :: nBuckets == Pow2(k)
      ensures Valid() && fresh(buckets) && fresh(crc.table) && buckets.Length == nBuckets && crc.poly == polynomial
      ensures forall i :: 0 <= i < buckets.Length ==> buckets[i] == null
    {
      crc := new C.Table(polynomial);
      buckets := new Flow?[nBuckets](_ => null);
      nFlows := 0;
      new;
      NoneLive(buckets[..]);
    }

    static lemma {:induction false} NoneLive(s: seq<Flow?>)
      requires forall i :: 0 <= i < |s| ==> s[i] == null
      ensures Live(s) == 0
    {
      if s != [] { NoneLive(s[..|s| - 1]); }
    }

    /** The bucket of a key: its CRC masked to the number of buckets, a power of two (see MaskIsModulo). */
    ghost function Slot(h: Head): (i: nat)
      requires buckets.Length > 0
      ensures i < buckets.Length
    {
      Val(Crc32(crc.poly, HeadBytes(h))) % buckets.Length
    }

    ghost predicate BucketOk(i: nat)
      requires i < buckets.Length
      reads buckets
    {
      var f := buckets[i];
      f != null ==> f.Ok() && Exact(f.key) && Slot(f.key.head) == i
    }

    ghost predicate Valid()
      reads this`nFlows, buckets, crc.table
    {
      && crc.Valid() && buckets.Length > 0 && nFlows == Live(buckets[..])
      && forall i {:trigger BucketOk(i)} :: 0 <= i < buckets.Length ==> BucketOk(i)
    }

    ghost function Flows(): set<Flow>
      reads buckets
    {
      FlowsIn(buckets[..])
    }

    /** The stored flow with the head of `key`, if any. */
    ghost function Find(key: Key): Flow?
      requires buckets.Length > 0
      reads buckets
    {
      var f := buckets[Slot(key.head)];
      if f != null && KeysEqual(f.key, key) then f else null
    }

    /** No flow with that head hides in another bucket. */
    lemma FindIsComplete(key: Key)
      requires Valid()
      ensures forall f :: f in Flows() && KeysEqual(f.key, key) ==> f == Find(key)
    {
      forall f | f in Flows() && KeysEqual(f.key, key) ensures f == Find(key) {
        var i :| 0 <= i < buckets.Length && buckets[i] == f;
        assert BucketOk(i);
      }
    }

    lemma FlowIsExact(f: Flow)
      requires Valid() && f in Flows()
      ensures f.Ok() && Exact(f.key) && buckets[Slot(f.key.head)] == f
    {
      var i :| 0 <= i < buckets.Length && buckets[i] == f;
      assert BucketOk(i);
    }

    method FindBucket(key: Key) returns (i: nat)
      requires Valid()
      ensures i == Slot(key.head)
    {
      var c := crc.Calculate(HeadBytes(key.head));
      i := Val(c) % buckets.Length;
    }

    method Lookup(key: Key) returns (f: Flow?)
      requires Valid()
      ensures f == Find(key)
    {
      var i := FindBucket(key);
      f := buckets[i];
      if !(f != null && KeysEqual(f.key, key)) {
        f := null;
      }
    }

    /** The bucket of `flow` is free or taken by its own key. */
    ghost predicate Accepts(flow: Flow)
      requires buckets.Length > 0
      reads buckets
    {
      buckets[Slot(flow.key.head)] == null || Find(flow.key) != null
    }

    /** The body of table_hash_insert: refuses wildcards and buckets taken by another key. */
    method Place(flow: Flow) returns (r: int)
      requires Valid() && flow.Ok()
      modifies this`nFlows, buckets
      ensures Valid()
      ensures r == if Exact(flow.key) && old(Accepts(flow)) then 1 else 0
      ensures buckets[..] == if r == 1 then old(buckets[..])[Slot(flow.key.head) := flow] else old(buckets[..])
    {
      if flow.key.wildcards != Zeros(32) {
        return 0;
      }
      var i := FindBucket(flow.key);
      LiveUpdate(buckets[..], i, flow);
      if buckets[i] == null {
        nFlows := nFlows + 1;
        Put(i, flow);
        r := 1;
      } else {
        var oldFlow := buckets[i];
        if KeysEqual(oldFlow.key, flow.key) {
          Put(i, flow);
          r := 1;
        } else {
          r := 0;
        }
      }
    }

    /** What an insertion means for the stored flows. */
    twostate lemma Gained(flow: Flow)
      requires old(Valid()) && Valid() && buckets.Length > 0 && old(allocated(flow))
      requires buckets[..] == old(buckets[..])[Slot(flow.key.head) := flow] && old(Accepts(flow))
      ensures flow in Flows() && Find(flow.key) == flow
      ensures Took(old(Flows()), Flows(), flow)
    {
      var i := Slot(flow.key.head);
      UpdateMembers(old(buckets[..]), i, flow);
      forall f | f in old(Flows()) && f !in Flows() ensures Exact(f.key) && KeysEqual(f.key, flow.key) {
        assert old(BucketOk(i)) && f == old(buckets[i]);
      }
    }

    /** table_hash_insert */
    method Insert(flow: Flow) returns (r: int)
      requires Valid() && flow.Ok()
      modifies this`nFlows, buckets
      ensures Valid()
      ensures r == if Exact(flow.key) && old(Accepts(flow)) then 1 else 0
      ensures r == 1 <==> flow.key.wildcards == Zeros(32)
                          && old(var f := buckets[Slot(flow.key.head)]; f == null || f.key.head == flow.key.head)
      ensures r == 0 ==> Flows() == old(Flows()) && Find(flow.key) == old(Find(flow.key))
      ensures r == 1 ==> flow in Flows() && Find(flow.key) == flow
      ensures Took(old(Flows()), Flows(), flow)
    {
      r := Place(flow);
      if r == 1 {
        Gained(flow);
      }
    }

    /** A bucket gets a flow, or is emptied. */
    method Put(i: nat, flow: Flow?)
      requires i < buckets.Length && forall k {:trigger BucketOk(k)} :: 0 <= k < buckets.Length ==> BucketOk(k)
      requires flow != null ==> flow.Ok() && Exact(flow.key) && Slot(flow.key.head) == i
      modifies buckets
      ensures forall k {:trigger BucketOk(k)} :: 0 <= k < buckets.Length ==> BucketOk(k)
      ensures buckets[..] == old(buckets[..])[i := flow]
    {
      buckets[i] := flow;
      forall k | 0 <= k < buckets.Length ensures BucketOk(k) {
        assert old(BucketOk(k));
      }
    }

    /** do_delete on one bucket. */
    method Clear(i: nat)
      requires i < buckets.Length && buckets[i] != null
      requires forall k {:trigger BucketOk(k)} :: 0 <= k < buckets.Length ==> BucketOk(k)
      modifies buckets
      ensures forall k {:trigger BucketOk(k)} :: 0 <= k < buckets.Length ==> BucketOk(k)
      ensures buckets[..] == old(buckets[..])[i := null] && Live(buckets[..]) == old(Live(buckets[..])) - 1
    {
      LiveUpdate(buckets[..], i, null);
      Put(i, null);
    }

    method PickedBy(f: Flow, key: Key, outPort: OutPort, strict: bool) returns (picked: bool)
      ensures picked == Picks(f, key, outPort, strict)
    {
      var has := f.HasOutPort(outPort);
      picked := (if Exact(key) then KeysEqual(f.key, key) else MatchesDesc(f.key, key, strict)) && has;
    }

    /** The loop over all buckets. */
    method DeleteSweep(key: Key, outPort: OutPort, strict: bool, ghost gone: set<Flow>) returns (count: nat)
      requires !Exact(key) && forall k {:trigger BucketOk(k)} :: 0 <= k < buckets.Length ==> BucketOk(k)
      requires forall f: Flow :: f in buckets[..] ==> (f in gone <==> Picks(f, key, outPort, strict))
      modifies buckets
      ensures forall k {:trigger BucketOk(k)} :: 0 <= k < buckets.Length ==> BucketOk(k)
      ensures Cleared(old(buckets[..]), buckets[..], gone) && Live(buckets[..]) + count == old(Live(buckets[..]))
    {
      count := 0;
      var i := 0;
      ghost var all := buckets[..];
      while i < buckets.Length
        invariant 0 <= i <= buckets.Length
        invariant forall k {:trigger BucketOk(k)} :: 0 <= k < buckets.Length ==> BucketOk(k)
        invariant Cleared(all[..i], buckets[..i], gone) && buckets[i..] == all[i..]
        invariant Live(buckets[..]) + count == Live(all)
      {
        var flow := buckets[i];
        assert flow == buckets[i..][0] == all[i..][0] == all[i];
        ghost var before := buckets[..];
        if flow != null {
          var picked := PickedBy(flow, key, outPort, strict);
          if picked {
            Clear(i);
            count := count + 1;
          }
        }
        ClearedStep(all, before, buckets[..], gone, i);
        i := i + 1;
      }
      assert all[..i] == all && buckets[..i] == buckets[..];
    }

    static lemma ClearedStep(all: seq<Flow?>, s: seq<Flow?>, t: seq<Flow?>, gone: set<Flow>, i: nat)
      requires |s| == |all| && i < |all| && Cleared(all[..i], s[..i], gone) && s[i..] == all[i..]
      requires if all[i] in gone then t == s[i := null] else t == s
      ensures Cleared(all[..i + 1], t[..i + 1], gone) && t[i + 1..] == all[i + 1..]
    {
      assert s[i] == s[i..][0] == all[i..][0] == all[i];
      assert t[i + 1..] == s[i..][1..] && all[i + 1..] == all[i..][1..];
      forall k | 0 <= k < i ensures t[..i + 1][k] == if all[k] in gone then null else all[k] {
        assert s[..i][k] == t[k] && all[..i][k] == all[k];
      }
    }

    /** The one bucket an exact key can be in. */
    method DeleteExact(i: nat, key: Key, outPort: OutPort, ghost gone: set<Flow>) returns (count: nat)
      requires i < buckets.Length && forall k {:trigger BucketOk(k)} :: 0 <= k < buckets.Length ==> BucketOk(k)
      requires forall k :: 0 <= k < buckets.Length && buckets[k] in gone ==> k == i
      requires buckets[i] in gone <==>
               buckets[i] != null && KeysEqual(buckets[i].key, key) && buckets[i].OutputsTo(outPort)
      modifies buckets
      ensures forall k {:trigger BucketOk(k)} :: 0 <= k < buckets.Length ==> BucketOk(k)
      ensures Cleared(old(buckets[..]), buckets[..], gone) && Live(buckets[..]) + count == old(Live(buckets[..]))
    {
      count := 0;
      var flow := buckets[i];
      if flow != null && KeysEqual(flow.key, key) {
        var has := flow.HasOutPort(outPort);
        if has {
          Clear(i);
          count := 1;
        }
      }
    }

    method DeletePicked(key: Key, outPort: OutPort, strict: bool, ghost gone: set<Flow>) returns (count: nat)
      requires Valid() && gone == Picked(Flows(), key, outPort, strict)
      modifies buckets
      ensures forall k {:trigger BucketOk(k)} :: 0 <= k < buckets.Length ==> BucketOk(k)
      ensures Cleared(old(buckets[..]), buckets[..], gone) && Live(buckets[..]) + count == old(Live(buckets[..]))
    {
      if key.wildcards == Zeros(32) {
        var i := FindBucket(key);
        OnlyInSlot(key, outPort, strict, gone);
        count := DeleteExact(i, key, outPort, gone);
      } else {
        assert forall f: Flow :: f in buckets[..] ==> f in Flows();
        count := DeleteSweep(key, outPort, strict, gone);
      }
    }

    /** The body of table_hash_delete. */
    method DeleteBody(key: Key, outPort: OutPort, strict: bool) returns (count: nat, ghost gone: set<Flow>)
      requires Valid()
      modifies this`nFlows, buckets
      ensures Valid()
      ensures gone == old(Picked(Flows(), key, outPort, strict))
      ensures Cleared(old(buckets[..]), buckets[..], gone) && count == old(nFlows) - nFlows
    {
      gone := Picked(Flows(), key, outPort, strict);
      count := DeletePicked(key, outPort, strict, gone);
      nFlows := nFlows - count;
    }

    lemma OnlyInSlot(key: Key, outPort: OutPort, strict: bool, gone: set<Flow>)
      requires Valid() && Exact(key)
      requires gone == Picked(Flows(), key, outPort, strict)
      ensures forall i :: 0 <= i < buckets.Length && buckets[i] in gone ==> i == Slot(key.head)
      ensures var f := buckets[Slot(key.head)];
              f in gone <==> f != null && KeysEqual(f.key, key) && f.OutputsTo(outPort)
    {
      forall i | 0 <= i < buckets.Length && buckets[i] in gone ensures i == Slot(key.head) {
        assert BucketOk(i) && Picks(buckets[i], key, outPort, strict);
      }
      var f := buckets[Slot(key.head)];
      if f != null {
        assert f in Flows();
        assert f in gone <==> Picks(f, key, outPort, strict);
      }
    }

    method TimeoutSweep(now: nat, hz: nat, ghost gone: set<Flow>) returns (count: nat)
      requires forall k {:trigger BucketOk(k)} :: 0 <= k < buckets.Length ==> BucketOk(k)
      requires forall f: Flow :: f in buckets[..] ==> (f in gone <==> f.Expired(now, hz))
      modifies buckets
      ensures forall k {:trigger BucketOk(k)} :: 0 <= k < buckets.Length ==> BucketOk(k)
      ensures Cleared(old(buckets[..]), buckets[..], gone) && Live(buckets[..]) + count == old(Live(buckets[..]))
    {
      count := 0;
      var i := 0;
      ghost var all := buckets[..];
      while i < buckets.Length
        invariant 0 <= i <= buckets.Length
        invariant forall k {:trigger BucketOk(k)} :: 0 <= k < buckets.Length ==> BucketOk(k)
        invariant Cleared(all[..i], buckets[..i], gone) && buckets[i..] == all[i..]
        invariant Live(buckets[..]) + count == Live(all)
      {
        var flow := buckets[i];
        assert flow == buckets[i..][0] == all[i..][0] == all[i];
        ghost var before := buckets[..];
        if flow != null && flow.Expired(now, hz) {
          Clear(i);
          count := count + 1;
        }
        ClearedStep(all, before, buckets[..], gone, i);
        i := i + 1;
      }
      assert all[..i] == all && buckets[..i] == buckets[..];
    }

    /** The body of table_hash_timeout. */
    method TimeoutBody(now: nat, hz: nat) returns (count: nat, ghost gone: set<Flow>)
      requires Valid()
      modifies this`nFlows, buckets
      ensures Valid()
      ensures gone == old(ExpiredIn(Flows(), now, hz))
      ensures Cleared(old(buckets[..]), buckets[..], gone) && count == old(nFlows) - nFlows
    {
      gone := ExpiredIn(Flows(), now, hz);
      count := TimeoutSweep(now, hz, gone);
      nFlows := nFlows - count;
    }

    /** table_hash_delete */
    method Delete(key: Key, outPort: OutPort, strict: bool) returns (count: nat, ghost gone: set<Flow>)
      requires Valid()
      modifies this`nFlows, buckets
      ensures Valid()
      ensures gone == old(Picked(Flows(), key, outPort, strict))
      ensures forall f :: f in gone <==> f in old(Flows()) && old(f.OutputsTo(outPort))
                                         && (if key.wildcards == Zeros(32) then f.key.head == key.head
                                             else MatchesDesc(f.key, key, strict))
      ensures Flows() == old(Flows()) - gone && count == |gone|
    {
      Census();
      count, gone := DeleteBody(key, outPort, strict);
      ClearedFlows(old(buckets[..]), buckets[..], gone);
      Census();
    }

    /** table_hash_timeout */
    method Timeout(now: nat, hz: nat) returns (count: nat, ghost gone: set<Flow>)
      requires Valid()
      modifies this`nFlows, buckets
      ensures Valid()
      ensures gone == old(ExpiredIn(Flows(), now, hz))
      ensures forall f :: f in gone <==>
                          f in old(Flows()) && ((f.idleTimeout > 0 && now > old(f.used) + f.idleTimeout * hz)
                                                || (f.hardTimeout > 0 && now > f.initTime + f.hardTimeout * hz))
      ensures Flows() == old(Flows()) - gone && count == |gone|
    {
      Census();
      ExpiredMeans(Flows(), now, hz);
      count, gone := TimeoutBody(now, hz);
      ClearedFlows(old(buckets[..]), buckets[..], gone);
      Census();
    }

    /** n_flows counts the stored flows. */
    lemma Census()
      requires Valid()
      ensures nFlows == |Flows()|
    {
      DistinctFlows();
      LiveIsSize(buckets[..]);
    }

    lemma HitsInSlot(key: Key, priority: nat, strict: bool)
      requires Valid() && Exact(key) && WellFormed(key)
      ensures forall f :: f in Flows() && Hits(f, key, priority, strict) ==> f == buckets[Slot(key.head)]
    {
      forall f | f in Flows() && Hits(f, key, priority, strict) ensures f == buckets[Slot(key.head)] {
        var i :| 0 <= i < buckets.Length && buckets[i] == f;
        assert BucketOk(i);
        ExactMatch(f.key, key);
      }
    }

    lemma DistinctFlows()
      requires Valid()
      ensures forall i, j :: 0 <= i < j < buckets.Length && buckets[i] != null ==> buckets[i] != buckets[j]
    {
      forall i, j | 0 <= i < j < buckets.Length && buckets[i] != null ensures buckets[i] != buckets[j] {
        assert BucketOk(i) && BucketOk(j);
      }
    }

    /** One more bucket. */
    static lemma HitStep(all: seq<Flow?>, i: nat, hit: set<Flow>)
      requires i < |all| && forall k :: 0 <= k < i && all[k] != null ==> all[k] != all[i]
      ensures |FlowsIn(all[..i + 1]) * hit| == |FlowsIn(all[..i]) * hit| + if all[i] in hit then 1 else 0
    {
      assert all[..i + 1] == all[..i] + [all[i]];
      if all[i] in hit {
        assert FlowsIn(all[..i + 1]) * hit == FlowsIn(all[..i]) * hit + {all[i]};
      } else {
        assert FlowsIn(all[..i + 1]) * hit == FlowsIn(all[..i]) * hit;
      }
    }

    /** The loop over all buckets. */
    method ModifySweep(key: Key, priority: nat, strict: bool, actions: seq<Action>, ghost hit: set<Flow>)
      returns (count: nat)
      requires forall i, j :: 0 <= i < j < buckets.Length && buckets[i] != null ==> buckets[i] != buckets[j]
      requires forall k :: 0 <= k < buckets.Length && buckets[k] != null ==>
                 (buckets[k] in hit <==> Hits(buckets[k], key, priority, strict))
      modifies Flows()`actions
      ensures forall k :: 0 <= k < buckets.Length && buckets[k] != null ==>
                buckets[k].actions == if buckets[k] in hit then actions else old(buckets[k].actions)
      ensures count == |Flows() * hit|
    {
      count := 0;
      var i := 0;
      ghost var all := buckets[..];
      assert FlowsIn(all[..0]) * hit == {};
      while i < buckets.Length
        invariant 0 <= i <= buckets.Length && count == |FlowsIn(all[..i]) * hit|
        invariant forall k :: 0 <= k < buckets.Length && buckets[k] != null ==>
                    buckets[k].actions == if k < i && buckets[k] in hit then actions else old(buckets[k].actions)
      {
        var flow := buckets[i];
        HitStep(all, i, hit);
        if flow != null && MatchesDesc(flow.key, key, strict) && (!strict || flow.priority == priority) {
          assert flow in buckets[..];
          flow.actions := actions;
          count := count + 1;
        }
        i := i + 1;
      }
      assert all[..i] == buckets[..];
    }

    method ModifyExact(i: nat, key: Key, priority: nat, strict: bool, actions: seq<Action>, ghost hit: set<Flow>)
      returns (count: nat)
      requires i < buckets.Length && hit == Hit(Flows(), key, priority, strict)
      requires forall f :: f in hit ==> f == buckets[i]
      modifies Flows()`actions
      ensures forall f :: f in Flows() ==> f.actions == if f in hit then actions else old(f.actions)
      ensures count == |hit|
    {
      var flow := buckets[i];
      if flow != null && MatchesDesc(flow.key, key, strict) && (!strict || flow.priority == priority) {
        assert flow in buckets[..];
        assert hit == {flow};
        flow.actions := actions;
        return 1;
      }
      assert hit == {};
      return 0;
    }

    /** table_hash_modify */
    method Modify(key: Key, priority: nat, strict: bool, actions: seq<Action>)
      returns (count: nat, ghost hit: set<Flow>)
      requires Valid() && WellFormed(key)
      modifies Flows()`actions
      ensures Valid()
      ensures hit == Hit(Flows(), key, priority, strict)
      ensures forall f :: f in hit <==> f in Flows() && MatchesDesc(f.key, key, strict)
                                        && (strict ==> f.priority == priority)
      ensures forall f :: f in Flows() ==> f.actions == if f in hit then actions else old(f.actions)
      ensures count == |hit|
    {
      hit := Hit(Flows(), key, priority, strict);
      if key.wildcards == Zeros(32) {
        var i := FindBucket(key);
        HitsInSlot(key, priority, strict);
        count := ModifyExact(i, key, priority, strict, actions, hit);
      } else {
        DistinctFlows();
        assert forall k :: 0 <= k < buckets.Length && buckets[k] != null ==> buckets[k] in Flows();
        count := ModifySweep(key, priority, strict, actions, hit);
        assert Flows() * hit == hit;
      }
    }
  }
}
