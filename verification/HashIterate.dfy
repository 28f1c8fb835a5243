/** table-hash.c: iteration over the double-hashing table that stops when the callback fails and can be resumed. */
module HashIterate {
  import opened FlowKeys
  import opened LinearTable
  import opened HashTable
  import opened Hash2Table

  /** `bucket` is private[0], with -1 for the largest unsigned number, and `table` is private[1]. */
  datatype Position = Position(bucket: int, table: nat)

  /** What an iteration visits in one bucket. */
  ghost function Visit(f: Flow?, wanted: set<Flow>): seq<Flow> { if f in wanted then [f] else [] }

  /** The flows of some buckets that an iteration visits, in order. */
  ghost function Matching(s: seq<Flow?>, wanted: set<Flow>): seq<Flow> {
    if s == [] then [] else Matching(s[..|s| - 1], wanted) + Visit(s[|s| - 1], wanted)
  }

  lemma {:induction false} MatchingFirst(s: seq<Flow?>, wanted: set<Flow>)
    requires s != []
    ensures Matching(s, wanted) == Visit(s[0], wanted) + Matching(s[1..], wanted)
  {
    if |s| > 1 {
      var r := s[..|s| - 1];
      MatchingFirst(r, wanted);
      assert r[1..] == s[1..][..|s| - 2];
    }
  }

  predicate Distinct(m: seq<Flow>) {
    forall i, j :: 0 <= i < j < |m| ==> m[i] != m[j]
  }

  /** Every wanted flow is visited, and no flow twice. */
  lemma {:induction false} MatchingIsExact(s: seq<Flow?>, wanted: set<Flow>)
    requires forall i, j :: 0 <= i < j < |s| && s[i] != null ==> s[i] != s[j]
    ensures forall f :: f in Matching(s, wanted) ==> f in FlowsIn(s) && f in wanted
    ensures forall f :: f in FlowsIn(s) && f in wanted ==> f in Matching(s, wanted)
    ensures Distinct(Matching(s, wanted))
  {
    if s != [] {
      var r, f := s[..|s| - 1], s[|s| - 1];
      MatchingIsExact(r, wanted);
      assert s == r + [f];
      assert FlowsIn(s) == FlowsIn(r) + if f == null then {} else {f};
      assert f !in Matching(r, wanted);
    }
  }

  /** The flows of a table that an iteration with wildcards looks for. */
  ghost function Wanted(s: set<Flow>, key: Key, outPort: OutPort): set<Flow>
    reads s`actions
  {
    set f | f in s && Matches1(f.key, key) && f.OutputsTo(outPort)
  }

  /** What is left to visit in one table. */
  ghost function Left(h: Hash, key: Key, outPort: OutPort, bucket: int): seq<Flow>
    requires h.buckets.Length > 0 && bucket >= -1
    reads h.buckets, h.Flows()`actions
  {
    if bucket == -1 || bucket >= h.buckets.Length then []
    else if Exact(key) then
      var f := h.Find(key);
      if f != null && f.OutputsTo(outPort) then [f] else []
    else
      Matching(h.buckets[bucket..], Wanted(h.Flows(), key, outPort))
  }

  /** table_hash_iterate for a key without wildcards. */
  method IterateExact(h: Hash, key: Key, outPort: OutPort, bucket: int, quota: nat)
    returns (now: int, visited: seq<Flow>, error: bool)
    requires h.Valid() && Exact(key) && 0 <= bucket < h.buckets.Length
    ensures now >= -1 && |visited| <= quota && (error ==> |visited| == quota)
    ensures !error ==> visited == old(Left(h, key, outPort, bucket))
    ensures error ==>
              && visited + Left(h, key, outPort, now) == old(Left(h, key, outPort, bucket))
              && Left(h, key, outPort, now) != []
  {
    var f := h.Lookup(key);
    if f == null {
      return bucket, [], false;
    }
    var has := f.HasOutPort(outPort);
    if !has {
      return bucket, [], false;
    }
    if quota == 0 {
      return bucket, [], true;
    }
    return -1, [f], false;
  }

  /** table_hash_iterate with a callback that fails after `quota` flows. */
  method Iterate(h: Hash, key: Key, outPort: OutPort, bucket: int, quota: nat)
    returns (now: int, visited: seq<Flow>, error: bool)
    requires h.Valid() && bucket >= -1
    ensures now >= -1 && |visited| <= quota && (error ==> |visited| == quota)
    ensures !error ==> visited == old(Left(h, key, outPort, bucket))
    ensures error ==>
              && visited + Left(h, key, outPort, now) == old(Left(h, key, outPort, bucket))
              && Left(h, key, outPort, now) != []
  {
    if bucket == -1 || bucket >= h.buckets.Length {
      return bucket, [], false;
    }
    if Exact(key) {
      now, visited, error := IterateExact(h, key, outPort, bucket, quota);
      return;
    }
    ghost var all, wanted := h.buckets[..], Wanted(h.Flows(), key, outPort);
    assert forall k :: 0 <= k < |all| ==> all[k] in all;
    now, visited, error := Walk(h.buckets, key, outPort, bucket, quota, all, wanted);
    assert forall i :: 0 <= i <= |all| ==> all[i..] == h.buckets[i..];
    if !error {
      now := bucket;
    }
  }

  /** The loop over the buckets, whose contents are `all`, from `start` on. */
  method Walk(buckets: array<Flow?>, key: Key, outPort: OutPort, start: nat, quota: nat,
              ghost all: seq<Flow?>, ghost wanted: set<Flow>)
    returns (i: nat, visited: seq<Flow>, error: bool)
    requires start < buckets.Length && all == buckets[..]
    requires forall k :: 0 <= k < |all| ==>
               (all[k] in wanted <==> all[k] != null && Matches1(all[k].key, key) && all[k].OutputsTo(outPort))
    ensures i <= |all| && |visited| <= quota && (error ==> |visited| == quota)
    ensures visited + Matching(all[i..], wanted) == Matching(all[start..], wanted)
    ensures if error then i < |all| && Matching(all[i..], wanted) != [] else i == |all|
  {
    i, visited, error := start, [], false;
    ghost var total := Matching(all[start..], wanted);
    while i < buckets.Length
      invariant start <= i <= |all| && |visited| <= quota
      invariant visited + Matching(all[i..], wanted) == total
    {
      var f := buckets[i];
      if f != null && Matches1(f.key, key) && f.OutputsTo(outPort) {
        WalkHit(all, i, f, visited, total, wanted);
        if |visited| == quota {
          error := true;
          return;
        }
        visited := visited + [f];
      } else {
        WalkMiss(all, i, visited, total, wanted);
      }
      i := i + 1;
    }
  }

  lemma WalkHit(all: seq<Flow?>, i: nat, f: Flow, visited: seq<Flow>, total: seq<Flow>, wanted: set<Flow>)
    requires i < |all| && f == all[i] && f in wanted && visited + Matching(all[i..], wanted) == total
    ensures (visited + [f]) + Matching(all[i + 1..], wanted) == total && Matching(all[i..], wanted) != []
  {
    MatchingFirst(all[i..], wanted);
    assert all[i..][1..] == all[i + 1..];
    assert (visited + [f]) + Matching(all[i + 1..], wanted) == visited + ([f] + Matching(all[i + 1..], wanted));
  }

  lemma WalkMiss(all: seq<Flow?>, i: nat, visited: seq<Flow>, total: seq<Flow>, wanted: set<Flow>)
    requires i < |all| && all[i] !in wanted && visited + Matching(all[i..], wanted) == total
    ensures visited + Matching(all[i + 1..], wanted) == total
  {
    MatchingFirst(all[i..], wanted);
    assert all[i..][1..] == all[i + 1..];
  }

  /** What is left to visit in both. */
  ghost function Rest(t: Hash2, key: Key, outPort: OutPort, p: Position): seq<Flow>
    requires t.sub0.buckets.Length > 0 && t.sub1.buckets.Length > 0 && p.bucket >= -1
    reads t.sub0.buckets, t.sub1.buckets, t.Flows()`actions
  {
    if p.table == 0 then Left(t.sub0, key, outPort, p.bucket) + Left(t.sub1, key, outPort, 0)
    else if p.table == 1 then Left(t.sub1, key, outPort, p.bucket)
    else []
  }

  /** One turn of the loop of table_hash2_iterate. */
  method IterateTable(t: Hash2, key: Key, outPort: OutPort, p: Position, quota: nat)
    returns (now: Position, visited: seq<Flow>, error: bool)
    requires t.Valid() && p.bucket >= -1 && p.table < 2
    ensures now.bucket >= -1 && visited + Rest(t, key, outPort, now) == old(Rest(t, key, outPort, p))
    ensures |visited| <= quota && (error ==> |visited| == quota && Rest(t, key, outPort, now) != [])
    ensures now.table == if error then p.table else p.table + 1
    ensures t.Valid()
  {
    var bucket;
    if p.table == 0 {
      bucket, visited, error := Iterate(t.sub0, key, outPort, p.bucket, quota);
    } else {
      bucket, visited, error := Iterate(t.sub1, key, outPort, p.bucket, quota);
    }
    now := if error then p.(bucket := bucket) else Position(0, p.table + 1);
  }

  /** table_hash2_iterate: what was visited and what is left make up what was left before, and a call that ends
      without error leaves nothing. So calls that take up where the last one stopped visit every flow once. */
  method Iterate2(t: Hash2, key: Key, outPort: OutPort, p: Position, quota: nat)
    returns (now: Position, visited: seq<Flow>, error: bool)
    requires t.Valid() && p.bucket >= -1
    ensures now.bucket >= -1 && visited + Rest(t, key, outPort, now) == old(Rest(t, key, outPort, p))
    ensures |visited| <= quota && (error ==> |visited| == quota)
    ensures error <==> Rest(t, key, outPort, now) != []
  {
    if p.table >= 2 {
      return p, [], false;
    }
    now, visited, error := IterateTable(t, key, outPort, p, quota);
    if error || now.table == 2 {
      return;
    }
    var more;
    ghost var first := visited;
    now, more, error := IterateTable(t, key, outPort, now, quota - |visited|);
    visited := visited + more;
    assert first + (more + Rest(t, key, outPort, now)) == visited + Rest(t, key, outPort, now);
  }

  /** The flows an iteration from the start visits: for a key with wildcards each matching flow exactly once. */
  lemma WholeIteration(t: Hash2, key: Key, outPort: OutPort)
    requires t.Valid() && !Exact(key)
    ensures var all := Rest(t, key, outPort, Position(0, 0));
            && (forall f :: f in all ==> f in t.Flows() && Matches1(f.key, key) && f.OutputsTo(outPort))
            && (forall f :: f in t.Flows() && Matches1(f.key, key) && f.OutputsTo(outPort) ==> f in all)
            && Distinct(all)
  {
    t.sub0.DistinctFlows();
    t.sub1.DistinctFlows();
    var a, b := t.sub0.buckets[..], t.sub1.buckets[..];
    var v, w := Wanted(t.sub0.Flows(), key, outPort), Wanted(t.sub1.Flows(), key, outPort);
    MatchingIsExact(a, v);
    MatchingIsExact(b, w);
    assert t.sub0.buckets[0..] == a && t.sub1.buckets[0..] == b;
    DistinctConcat(Matching(a, v), Matching(b, w), t.sub0.Flows(), t.sub1.Flows());
  }

  lemma DistinctConcat(m: seq<Flow>, n: seq<Flow>, s: set<Flow>, t: set<Flow>)
    requires Distinct(m) && Distinct(n) && s !! t && (forall f :: f in m ==> f in s) && forall f :: f in n ==> f in t
    ensures Distinct(m + n)
  {
    forall i, j | 0 <= i < j < |m + n| ensures (m + n)[i] != (m + n)[j] {
      if i < |m| <= j {
        assert m[i] in s && n[j - |m|] in t;
      }
    }
  }

  /** For a key without wildcards: each stored flow with its head, whatever the labels, exactly once. */
  lemma WholeExactIteration(t: Hash2, key: Key, outPort: OutPort)
    requires t.Valid() && Exact(key)
    ensures var all := Rest(t, key, outPort, Position(0, 0));
            && (forall f :: f in all ==> f in t.Flows() && KeysEqual(f.key, key) && f.OutputsTo(outPort))
            && (forall f :: f in t.Flows() && KeysEqual(f.key, key) && f.OutputsTo(outPort) ==> f in all)
            && Distinct(all)
  {
    t.sub0.FindIsComplete(key);
    t.sub1.FindIsComplete(key);
    var f, g := t.sub0.Find(key), t.sub1.Find(key);
    assert (f != null ==> f in t.sub0.Flows()) && (g != null ==> g in t.sub1.Flows());
    DistinctConcat(Left(t.sub0, key, outPort, 0), Left(t.sub1, key, outPort, 0), t.sub0.Flows(), t.sub1.Flows());
  }
}
