/** Runs of the flow tables that do not do what one would expect. */
module ChainExamples {
  import opened Arith
  import opened Sequences
  import opened Words
  import opened FlowKeys
  import opened LinearTable
  import opened Hash2Table
  import opened Chain

  /** An exact key with data link destination `i`, and nothing else but labels. */
  function KeyOf(i: nat, mpls: nat): Key {
    Key(Head(Zeros(32), Zeros(32), 0, 0, ETH_TYPE_MPLS_UNICAST, 0, 0, 0, i, 0, 0), Zeros(32), NwMask(0), NwMask(0),
        mpls, 0)
  }

  lemma KeyOfOk(i: nat, mpls: nat)
    ensures WellFormed(KeyOf(i, mpls)) && Exact(KeyOf(i, mpls))
  {
    NoWild(Zeros(32));
  }

  lemma NoWild(w: Word)
    requires forall i :: 0 <= i < 31 ==> !w[i]
    ensures NwWild(w, NW_SRC_SHIFT) == 0 && NwWild(w, NW_DST_SHIFT) == 0
  {
    ValZeros(NW_BITS);
    assert w[32 - NW_SRC_SHIFT - NW_BITS..32 - NW_SRC_SHIFT] == Zeros(NW_BITS);
    assert w[32 - NW_DST_SHIFT - NW_BITS..32 - NW_DST_SHIFT] == Zeros(NW_BITS);
  }

  lemma EmptyFits(h: Hash2, flow: Flow)
    requires h.Valid() && h.Flows() == {} && Exact(flow.key)
    ensures h.Fits(flow)
  {
    assert h.sub0.buckets[h.sub0.Slot(flow.key.head)] !in h.sub0.Flows();
  }

  lemma SameHead(h: Hash2, a: Key, b: Key)
    requires h.Valid() && a.head == b.head
    ensures h.Find(a) == h.Find(b)
  {
  }

  /** A new flow, not yet in the chain. */
  method NewFlow(c: Chain, key: Key, priority: nat, actions: seq<Action>) returns (flow: Flow)
    requires c.Valid() && WellFormed(key) && priority <= MAX_PRIORITY
    ensures fresh(flow) && flow.Ok() && flow.key == key && flow.actions == actions
    ensures Exact(key) || flow.priority == priority
    ensures c.Valid() && c.hash.Flows() == old(c.hash.Flows()) && c.linear.flows == old(c.linear.flows)
    ensures flow !in c.Stored()
  {
    flow := new Flow(key, priority, 0, 0, 0, actions);
    assert c.Valid() == old(c.Valid());
  }

  /** An insertion that ends in a hash table. */
  method Enter(c: Chain, flow: Flow)
    requires c.Valid() && flow.Ok() && flow !in c.Stored() && c.hash.Fits(flow)
    modifies c.hash.sub0`nFlows, c.hash.sub0.buckets, c.hash.sub1`nFlows, c.hash.sub1.buckets
    modifies c.linear`flows, c.linear`iterFlows, c.linear`nFlows, c.linear`nextSerial, flow`serial
    ensures c.Valid() && c.hash.Find(flow.key) == flow && c.linear.flows == old(c.linear.flows)
    ensures flow in c.hash.Flows() && c.hash.Flows() <= old(c.hash.Flows()) + {flow}
    ensures forall f :: f in old(c.hash.Flows()) && f.key.head != flow.key.head ==> f in c.hash.Flows()
  {
    var error := c.Insert(flow);
  }

  /** A chain with one flow. */
  method Single(key: Key, actions: seq<Action>) returns (c: Chain, flow: Flow)
    requires WellFormed(key) && Exact(key)
    ensures fresh(c) && fresh(c.hash.sub0) && fresh(c.hash.sub0.buckets) && fresh(c.hash.sub1)
            && fresh(c.hash.sub1.buckets)
    ensures fresh(c.linear) && c.Valid() && c.hash.Flows() == {flow} && c.linear.flows == []
    ensures flow.key == key && flow.actions == actions && c.hash.Find(key) == flow
  {
    c := new Chain();
    flow := EnterFirst(c, key, actions);
  }

  method EnterFirst(c: Chain, key: Key, actions: seq<Action>) returns (flow: Flow)
    requires c.Valid() && c.Stored() == {} && WellFormed(key) && Exact(key)
    modifies c.hash.sub0`nFlows, c.hash.sub0.buckets, c.hash.sub1`nFlows, c.hash.sub1.buckets
    modifies c.linear`flows, c.linear`iterFlows, c.linear`nFlows, c.linear`nextSerial
    ensures c.Valid() && c.hash.Flows() == {flow} && c.linear.flows == old(c.linear.flows)
    ensures flow.key == key && flow.actions == actions && c.hash.Find(key) == flow
  {
    flow := NewFlow(c, key, 0, actions);
    EnterEmpty(c, flow);
  }

  method EnterEmpty(c: Chain, flow: Flow)
    requires c.Valid() && c.hash.Flows() == {} && flow.Ok() && Exact(flow.key) && flow !in c.Stored()
    modifies c.hash.sub0`nFlows, c.hash.sub0.buckets, c.hash.sub1`nFlows, c.hash.sub1.buckets
    modifies c.linear`flows, c.linear`iterFlows, c.linear`nFlows, c.linear`nextSerial, flow`serial
    ensures c.Valid() && c.hash.Flows() == {flow} && c.linear.flows == old(c.linear.flows)
    ensures c.hash.Find(flow.key) == flow
  {
    EmptyFits(c.hash, flow);
    Enter(c, flow);
  }

  method EnterSecond(c: Chain, f: Flow, key: Key) returns (g: Flow)
    requires c.Valid() && c.hash.Flows() == {f} && WellFormed(key) && Exact(key) && f.key.head != key.head
    modifies c.hash.sub0`nFlows, c.hash.sub0.buckets, c.hash.sub1`nFlows, c.hash.sub1.buckets
    modifies c.linear`flows, c.linear`iterFlows, c.linear`nFlows, c.linear`nextSerial
    ensures c.Valid() && f in c.hash.Flows() && g in c.hash.Flows() && g.key == key
    ensures c.linear.flows == old(c.linear.flows)
  {
    g := NewFlow(c, key, 0, []);
    SecondFits(c.hash, f, g);
    Enter(c, g);
  }

  /** A packet is given a flow with other labels: the head is all that is compared. */
  method LabelsIgnored(stored: Key, mpls: nat) returns (c: Chain, key: Key)
    requires WellFormed(stored) && Exact(stored) && mpls != stored.mpls1
    ensures c.Valid() && Exact(key) && key == stored.(mpls1 := mpls)
    ensures c.Found(key) != null && !c.Best(key, c.Found(key))
  {
    var flow;
    c, flow := Single(stored, []);
    key := stored.(mpls1 := mpls);
    SameHead(c.hash, stored, key);
    c.LookupIsBest(key);
  }

  lemma Misread(flow: Flow, port: nat)
    requires 0 < port < OFPP_NONE && flow.actions == [Output(port, 0)]
    ensures !flow.OutputsTo(OutPort(port, true))
  {
  }

  /** On a little-endian machine, deleting the flows that output to a port leaves one that does. */
  method FilteredDeleteMisses(c: Chain, key: Key, port: nat) returns (flow: Flow, count: nat)
    requires c.Valid() && c.Stored() == {} && c.linear.flows == []
    requires WellFormed(key) && Exact(key) && 0 < port < OFPP_NONE
    modifies c.hash.sub0`nFlows, c.hash.sub0.buckets, c.hash.sub1`nFlows, c.hash.sub1.buckets
    modifies c.linear`flows, c.linear`iterFlows, c.linear`nFlows, c.linear`nextSerial
    ensures c.Valid() && flow in c.Stored() && flow.key == key && flow.actions == [Output(port, 0)] && count == 0
  {
    flow := EnterFirst(c, key, [Output(port, 0)]);
    count := DeleteNone(c, key, port, flow);
  }

  method DeleteNone(c: Chain, key: Key, port: nat, flow: Flow) returns (count: nat)
    requires c.Valid() && c.hash.Flows() == {flow} && c.linear.flows == []
    requires 0 < port < OFPP_NONE && flow.actions == [Output(port, 0)]
    modifies c.hash.sub0`nFlows, c.hash.sub0.buckets, c.hash.sub1`nFlows, c.hash.sub1.buckets
    modifies c.linear`flows, c.linear`iterFlows, c.linear`nFlows
    ensures c.Valid() && flow in c.Stored() && count == 0
  {
    ghost var gone;
    Misread(flow, port);
    count, gone := c.Delete(key, OutPort(port, true), 0, false);
  }

  // ---------- shadowing ----------

  /** The two keys fall into the same buckets of both subtables. */
  ghost predicate Collide(h: Hash2, a: Key, b: Key)
    requires h.sub0.buckets.Length > 0 && h.sub1.buckets.Length > 0
  {
    h.sub0.Slot(a.head) == h.sub0.Slot(b.head) && h.sub1.Slot(a.head) == h.sub1.Slot(b.head)
  }

  /** Two stored flows that collide with a third key leave it no bucket. */
  lemma NoBucketLeft(h: Hash2, f: Flow, g: Flow, flow: Flow)
    requires h.Valid() && f in h.Flows() && g in h.Flows() && f != g
    requires Collide(h, f.key, flow.key) && Collide(h, g.key, flow.key)
    requires f.key.head != flow.key.head && g.key.head != flow.key.head
    ensures !h.Fits(flow)
  {
    if f in h.sub0.Flows() { h.sub0.FlowIsExact(f); } else { h.sub1.FlowIsExact(f); }
    if g in h.sub0.Flows() { h.sub0.FlowIsExact(g); } else { h.sub1.FlowIsExact(g); }
  }

  /** A second colliding key still finds a bucket. */
  lemma SecondFits(h: Hash2, f: Flow, flow: Flow)
    requires h.Valid() && h.Flows() == {f} && Exact(flow.key)
    ensures h.Fits(flow)
  {
    var x, y := h.sub0.buckets[h.sub0.Slot(flow.key.head)], h.sub1.buckets[h.sub1.Slot(flow.key.head)];
    assert x != null ==> x in h.sub0.Flows();
    assert y != null ==> y in h.sub1.Flows();
  }

  /** The key with its input port wildcarded. */
  function AnyPort(k: Key): Key { k.(wildcards := PutBits(Zeros(32), IN_PORT, 1, true)) }

  lemma AnyPortOk(k: Key)
    requires WellFormed(k) && Exact(k)
    ensures WellFormed(AnyPort(k)) && !Exact(AnyPort(k)) && Matches1(k, AnyPort(k))
  {
    NoWild(Zeros(32));
    NoWild(AnyPort(k).wildcards);
    assert Flag(AnyPort(k).wildcards, IN_PORT);
    MaskedEqualBits(k.head.nwSrc, k.head.nwSrc, k.nwSrcMask);
    MaskedEqualBits(k.head.nwDst, k.head.nwDst, k.nwDstMask);
  }

  /** Two flows go into the hash tables. */
  method Crowd(c: Chain, a: Key, b: Key) returns (f: Flow, g: Flow)
    requires c.Valid() && c.Stored() == {}
    requires WellFormed(a) && Exact(a) && WellFormed(b) && Exact(b) && a.head != b.head
    modifies c.hash.sub0`nFlows, c.hash.sub0.buckets, c.hash.sub1`nFlows, c.hash.sub1.buckets
    modifies c.linear`flows, c.linear`iterFlows, c.linear`nFlows, c.linear`nextSerial
    ensures c.Valid() && f in c.hash.Flows() && g in c.hash.Flows() && f.key == a && g.key == b
    ensures c.linear.flows == old(c.linear.flows)
  {
    f := EnterFirst(c, a, []);
    g := EnterSecond(c, f, b);
  }

  /** A flow for any input port, at the highest priority, goes into the empty linear table. */
  method Cover(c: Chain, key: Key) returns (wild: Flow)
    requires c.Valid() && c.linear.flows == [] && c.linear.maxFlows > 1 && WellFormed(key) && Exact(key)
    modifies c.hash.sub0`nFlows, c.hash.sub0.buckets, c.hash.sub1`nFlows, c.hash.sub1.buckets
    modifies c.linear`flows, c.linear`iterFlows, c.linear`nFlows, c.linear`nextSerial
    ensures c.Valid() && c.hash.Flows() == old(c.hash.Flows()) && c.linear.flows == [wild]
    ensures wild.key == AnyPort(key) && wild.priority == MAX_PRIORITY
  {
    AnyPortOk(key);
    wild := NewFlow(c, AnyPort(key), MAX_PRIORITY, []);
    var error := c.Insert(wild);
    c.linear.Distinct();
    OnlyOne(c.linear.flows, wild);
  }

  lemma OnlyOne(s: seq<Flow>, f: Flow)
    requires f in s && forall i, j :: 0 <= i < j < |s| ==> s[i] != s[j]
    ensures (forall g :: g in s ==> g == f) ==> s == [f]
  {
    if |s| > 1 { assert s[0] in s && s[1] in s && s[0] != s[1]; }
  }

  method SetUp(c: Chain, a: Key, b: Key, key: Key) returns (f: Flow, g: Flow, wild: Flow)
    requires c.Valid() && c.Stored() == {} && c.linear.flows == [] && c.linear.maxFlows > 1
    requires WellFormed(a) && Exact(a) && WellFormed(b) && Exact(b) && a.head != b.head && WellFormed(key) && Exact(key)
    modifies c.hash.sub0`nFlows, c.hash.sub0.buckets, c.hash.sub1`nFlows, c.hash.sub1.buckets
    modifies c.linear`flows, c.linear`iterFlows, c.linear`nFlows, c.linear`nextSerial
    ensures c.Valid() && f in c.hash.Flows() && g in c.hash.Flows() && f.key == a && g.key == b
    ensures c.linear.flows == [wild] && wild.key == AnyPort(key) && wild.priority == MAX_PRIORITY
  {
    f, g := Crowd(c, a, b);
    wild := Cover(c, key);
  }

  /** An exact flow that finds no bucket is stored, and its packets go to an older flow with wildcards. */
  method Shadowed(c: Chain, a: Key, b: Key, key: Key) returns (wild: Flow, flow: Flow)
    requires c.Valid() && c.Stored() == {} && c.linear.flows == [] && c.linear.maxFlows > 1
    requires WellFormed(a) && Exact(a) && WellFormed(b) && Exact(b) && WellFormed(key) && Exact(key)
    requires a.head != b.head && a.head != key.head && b.head != key.head
    requires Collide(c.hash, a, key) && Collide(c.hash, b, key)
    modifies c.hash.sub0`nFlows, c.hash.sub0.buckets, c.hash.sub1`nFlows, c.hash.sub1.buckets
    modifies c.linear`flows, c.linear`iterFlows, c.linear`nFlows, c.linear`nextSerial
    ensures c.Valid() && flow in c.Stored() && flow.key == key && wild in c.Stored() && !Exact(wild.key)
    ensures c.Found(key) != flow
  {
    var f, g;
    f, g, wild := SetUp(c, a, b, key);
    flow := Late(c, f, g, wild, key);
  }

  /** The exact flow finds no bucket. */
  method Late(c: Chain, f: Flow, g: Flow, wild: Flow, key: Key) returns (flow: Flow)
    requires c.Valid() && c.linear.flows == [wild] && c.linear.maxFlows > 1
    requires WellFormed(key) && Exact(key) && wild.key == AnyPort(key) && wild.priority == MAX_PRIORITY
    requires f in c.hash.Flows() && g in c.hash.Flows() && f != g && f.key.head != key.head && g.key.head != key.head
    requires Collide(c.hash, f.key, key) && Collide(c.hash, g.key, key)
    modifies c.hash.sub0`nFlows, c.hash.sub0.buckets, c.hash.sub1`nFlows, c.hash.sub1.buckets
    modifies c.linear`flows, c.linear`iterFlows, c.linear`nFlows, c.linear`nextSerial
    ensures c.Valid() && flow in c.Stored() && flow.key == key && wild in c.Stored() && !Exact(wild.key)
    ensures c.Found(key) != flow
  {
    flow := NewFlow(c, key, 0, []);
    NoBucketLeft(c.hash, f, g, flow);
    Follow(c, wild, flow);
  }

  /** The exact flow goes behind the one with wildcards. */
  method Follow(c: Chain, wild: Flow, flow: Flow)
    requires c.Valid() && c.linear.flows == [wild] && c.linear.maxFlows > 1 && flow !in c.Stored() && flow.Ok()
    requires Exact(flow.key) && wild.key == AnyPort(flow.key) && wild.priority == MAX_PRIORITY && !c.hash.Fits(flow)
    modifies c.hash.sub0`nFlows, c.hash.sub0.buckets, c.hash.sub1`nFlows, c.hash.sub1.buckets
    modifies c.linear`flows, c.linear`iterFlows, c.linear`nFlows, c.linear`nextSerial, flow`serial
    ensures c.Valid() && flow in c.Stored() && wild in c.Stored() && !Exact(wild.key) && c.Found(flow.key) != flow
  {
    AnyPortOk(flow.key);
    assert c.linear.flows[0] == wild && c.linear.Shadows(flow);
    assert wild in c.linear.flows && !Same(wild, flow);
    var error := c.Insert(flow);
  }

  // ---------- colliding keys exist ----------

  predicate Distinct3(i: nat, j: nat, k: nat) { i != j && j != k && i != k }

  function Lift(i: nat, at: nat): nat { if i < at then i else i + 1 }

  /** Taking out one of the largest numbers. */
  lemma Lifted(s: seq<nat>, at: nat, i: nat, j: nat, k: nat)
    requires at < |s|
    requires i < |s| - 1 && j < |s| - 1 && k < |s| - 1 && Distinct3(i, j, k)
    requires Removed(s, at)[i] == Removed(s, at)[j] == Removed(s, at)[k]
    ensures Lift(i, at) < |s| && Lift(j, at) < |s| && Lift(k, at) < |s|
    ensures Distinct3(Lift(i, at), Lift(j, at), Lift(k, at)) && s[Lift(i, at)] == s[Lift(j, at)] == s[Lift(k, at)]
  {
  }

  /** Of more than 2 * m numbers below m three are the same. */
  lemma {:induction false} Pigeonhole(s: seq<nat>, m: nat) returns (i: nat, j: nat, k: nat)
    requires |s| > 2 * m && forall a :: 0 <= a < |s| ==> s[a] < m
    ensures i < |s| && j < |s| && k < |s| && Distinct3(i, j, k) && s[i] == s[j] == s[k]
    decreases m
  {
    assert s[0] < m;
    if a :| 0 <= a < |s| && s[a] == m - 1 {
      var t := Removed(s, a);
      if b :| 0 <= b < |t| && t[b] == m - 1 {
        var u := Removed(t, b);
        if d :| 0 <= d < |u| && u[d] == m - 1 {
          assert t[Lift(d, b)] == m - 1;
          i, j, k := a, Lift(b, a), Lift(Lift(d, b), a);
        } else {
          i, j, k := Pigeonhole(u, m - 1);
          Lifted(t, b, i, j, k);
          i, j, k := Lift(i, b), Lift(j, b), Lift(k, b);
          Lifted(s, a, i, j, k);
          i, j, k := Lift(i, a), Lift(j, a), Lift(k, a);
        }
      } else {
        i, j, k := Pigeonhole(t, m - 1);
        Lifted(s, a, i, j, k);
        i, j, k := Lift(i, a), Lift(j, a), Lift(k, a);
      }
    } else {
      i, j, k := Pigeonhole(s, m - 1);
    }
  }

  function Pair(s: nat, t: nat, n: nat): nat { s * n + t }

  lemma PairBound(s: nat, t: nat, m: nat, n: nat)
    requires s < m && t < n
    ensures Pair(s, t, n) < m * n && Pair(s, t, n) / n == s && Pair(s, t, n) % n == t
  {
    DivModUnique(s * n + t, n, s, t);
    Distribute(m, s, n);
    MultipleBound(n, m - s);
  }

  /** The buckets of a key in both subtables, as one number. */
  ghost function Both(h: Hash2, i: nat): nat
    requires h.sub0.buckets.Length > 0 && h.sub1.buckets.Length > 0
  {
    Pair(h.sub0.Slot(KeyOf(i, 0).head), h.sub1.Slot(KeyOf(i, 0).head), h.sub1.buckets.Length)
  }

  lemma BothBound(h: Hash2, i: nat)
    requires h.sub0.buckets.Length > 0 && h.sub1.buckets.Length > 0
    ensures Both(h, i) < h.sub0.buckets.Length * h.sub1.buckets.Length
  {
    PairBound(h.sub0.Slot(KeyOf(i, 0).head), h.sub1.Slot(KeyOf(i, 0).head), h.sub0.buckets.Length,
        h.sub1.buckets.Length);
  }

  lemma BothCollide(h: Hash2, i: nat, j: nat)
    requires h.sub0.buckets.Length > 0 && h.sub1.buckets.Length > 0 && Both(h, i) == Both(h, j)
    ensures Collide(h, KeyOf(i, 0), KeyOf(j, 0))
  {
    PairBound(h.sub0.Slot(KeyOf(i, 0).head), h.sub1.Slot(KeyOf(i, 0).head), h.sub0.buckets.Length,
        h.sub1.buckets.Length);
    PairBound(h.sub0.Slot(KeyOf(j, 0).head), h.sub1.Slot(KeyOf(j, 0).head), h.sub0.buckets.Length,
        h.sub1.buckets.Length);
  }

  /** The buckets of the first keys. */
  lemma Row(h: Hash2, n: nat) returns (s: seq<nat>)
    requires h.sub0.buckets.Length > 0 && h.sub1.buckets.Length > 0
    ensures |s| == n
    ensures forall a :: 0 <= a < n ==> s[a] == Both(h, a) && s[a] < h.sub0.buckets.Length * h.sub1.buckets.Length
  {
    s := seq(n, a requires 0 <= a => Both(h, a));
    forall a | 0 <= a < n ensures s[a] < h.sub0.buckets.Length * h.sub1.buckets.Length { BothBound(h, a); }
  }

  /** There are three exact keys that collide, in tables of any size. */
  lemma KeysCollide(h: Hash2) returns (i: nat, j: nat, k: nat)
    requires h.sub0.buckets.Length > 0 && h.sub1.buckets.Length > 0
    ensures i <= 2 * (h.sub0.buckets.Length * h.sub1.buckets.Length) && Distinct3(i, j, k)
    ensures j <= 2 * (h.sub0.buckets.Length * h.sub1.buckets.Length)
    ensures k <= 2 * (h.sub0.buckets.Length * h.sub1.buckets.Length)
    ensures Collide(h, KeyOf(i, 0), KeyOf(k, 0)) && Collide(h, KeyOf(j, 0), KeyOf(k, 0))
  {
    var m := h.sub0.buckets.Length * h.sub1.buckets.Length;
    var s := Row(h, 2 * m + 1);
    i, j, k := Pigeonhole(s, m);
    BothCollide(h, i, k);
    BothCollide(h, j, k);
  }

  /** In any tables, three keys as `Shadowed` asks for. */
  lemma ShadowingKeys(h: Hash2) returns (a: Key, b: Key, key: Key)
    requires h.sub0.buckets.Length > 0 && h.sub1.buckets.Length > 0
    ensures WellFormed(a) && Exact(a) && WellFormed(b) && Exact(b) && WellFormed(key) && Exact(key)
    ensures a.head != b.head && a.head != key.head && b.head != key.head
    ensures Collide(h, a, key) && Collide(h, b, key)
  {
    var i, j, k := KeysCollide(h);
    KeyOfOk(i, 0);
    KeyOfOk(j, 0);
    KeyOfOk(k, 0);
    a, b, key := KeyOf(i, 0), KeyOf(j, 0), KeyOf(k, 0);
  }
}
