/** table-linear.c: the flow table searched in priority order. */
module LinearTable {
  import opened Sequences
  import opened ByteOrder
  import opened Words
  import opened FlowKeys

  const OFPP_NONE: Port16 := 0xffff
  const OFP_FLOW_PERMANENT := 0
  const MAX_PRIORITY := 65535

  datatype Action = Output(port: Port32, maxLen: nat) | Other(kind: nat)

  /** A port number given by 16 bits in network byte order, and the byte order of the machine. */
  datatype OutPort = OutPort(number: Port16, littleEndian: bool)

  predicate Names(a: Action, outPort: OutPort) {
    a.Output? && a.port == outPort.number * Scale(outPort.littleEndian)
  }

  class Flow {
    const key: Key
    const priority: nat
    const idleTimeout: nat
    const hardTimeout: nat
    const initTime: nat
    var used: nat
    var serial: nat
    var actions: seq<Action>

    /** add_flow of forward.c: entries without wildcards get the highest priority. */
    constructor (key: Key, priority: nat, idleTimeout: nat, hardTimeout: nat, now: nat, actions: seq<Action>)
      requires WellFormed(key) && priority <= MAX_PRIORITY
      ensures Ok() && this.key == key && (Exact(key) || this.priority == priority)
      ensures this.idleTimeout == idleTimeout && this.hardTimeout == hardTimeout && this.initTime == used == now
      ensures this.actions == actions
    {
      this.key, this.actions := key, actions;
      this.priority := if !Exact(key) then priority else MAX_PRIORITY;
      this.idleTimeout, this.hardTimeout, initTime, used := idleTimeout, hardTimeout, now, now;
      serial := 0;
    }

    predicate Ok() {
      WellFormed(key) && priority <= MAX_PRIORITY && (Exact(key) ==> priority == MAX_PRIORITY)
    }

    /** flow_has_out_port: 16-bit and 32-bit fields are compared as loaded. */
    method HasOutPort(outPort: OutPort) returns (has: bool)
      ensures has == OutputsTo(outPort)
      ensures has <==> outPort.number == 0xffff
                       || exists i :: 0 <= i < |actions| && actions[i].Output?
                                      && actions[i].port == outPort.number * if outPort.littleEndian then 0x10000 else 1
    {
      var le := outPort.littleEndian;
      if Loaded16(le, outPort.number) == Loaded16(le, OFPP_NONE) {
        return true;
      }
      var i := 0;
      while i < |actions|
        invariant 0 <= i <= |actions|
        invariant forall k :: 0 <= k < i ==> !Names(actions[k], outPort)
      {
        if actions[i].Output? {
          LoadedAlike(le, actions[i].port, outPort.number);
          if Loaded32(le, actions[i].port) == Loaded16(le, outPort.number) {
            return true;
          }
        }
        i := i + 1;
      }
      return false;
    }

    /** Some output action names the port; on a little-endian machine, the port that has this number in the
        upper 16 bits. */
    predicate OutputsTo(outPort: OutPort)
      reads this`actions
    {
      outPort.number == OFPP_NONE || exists i :: 0 <= i < |actions| && Names(actions[i], outPort)
    }

    /** flow_timeout(flow) >= 0, with HZ ticks a second */
    predicate Expired(now: nat, hz: nat)
      reads this`used
    {
      || (idleTimeout != OFP_FLOW_PERMANENT && now > used + idleTimeout * hz)
      || (hardTimeout != OFP_FLOW_PERMANENT && now > initTime + hardTimeout * hz)
    }
  }

  /** Same priority, same wildcards, overlapping: the entry that an insertion replaces. */
  predicate Same(f: Flow, g: Flow) {
    f.priority == g.priority && f.key.wildcards == g.key.wildcards && Matches2(f.key, g.key)
  }

  /** Strict table order: priority first, then age. */
  predicate Before(f: Flow, g: Flow)
    reads f`serial, g`serial
  {
    f.priority > g.priority || (f.priority == g.priority && f.serial < g.serial)
  }

  ghost predicate Ordered(flows: seq<Flow>)
    reads flows`serial
  {
    forall i, j {:trigger Before(flows[i], flows[j])} :: 0 <= i < j < |flows| ==> Before(flows[i], flows[j])
  }

  predicate NoTwins(flows: seq<Flow>) {
    forall i, j {:trigger Same(flows[i], flows[j])} :: 0 <= i < j < |flows| ==> !Same(flows[i], flows[j])
  }

  ghost predicate SameMembers(a: seq<Flow>, b: seq<Flow>) {
    (forall f :: f in a ==> f in b) && (forall f :: f in b ==> f in a)
  }

  ghost predicate NewestFirst(flows: seq<Flow>)
    reads flows`serial
  {
    forall i, j :: 0 <= i < j < |flows| ==> flows[i].serial > flows[j].serial
  }

  /** An insertion replaces an entry of equal priority and equal wildcards that shares a packet with the new one. */
  lemma SameMeans(f: Flow, g: Flow)
    ensures Same(f, g) <==> f.priority == g.priority && f.key.wildcards == g.key.wildcards
                            && exists p: Key :: p.wildcards == Zeros(32) && Matches1(p, f.key) && Matches1(p, g.key)
  {
    OverlapIsCommonPacket(f.key, g.key);
  }

  lemma SameSymmetric(f: Flow, g: Flow)
    requires f.Ok() && g.Ok() && Same(f, g)
    ensures Same(g, f)
  {
    MatchesSelf(g.key);
    SameWildcardsTransitive(f.key, g.key, g.key);
  }

  lemma SameTransitive(f: Flow, g: Flow, h: Flow)
    requires f.Ok() && g.Ok() && h.Ok() && Same(f, g) && Same(g, h)
    ensures Same(f, h)
  {
    SameWildcardsTransitive(f.key, g.key, h.key);
  }

  lemma ExactIsSame(f: Flow, flow: Flow)
    requires f.Ok() && flow.Ok() && Exact(f.key) && Exact(flow.key) && Matches1(flow.key, f.key)
    ensures Same(f, flow)
  {
    ExactMasks(f.key);
    ExactMasks(flow.key);
    ExactMatch(flow.key, f.key);
    MatchesSelf(f.key);
    assert And(f.key.nwSrcMask, flow.key.nwSrcMask) == f.key.nwSrcMask;
    assert And(f.key.nwDstMask, flow.key.nwDstMask) == f.key.nwDstMask;
    assert And(f.key.nwSrcMask, f.key.nwSrcMask) == f.key.nwSrcMask;
    assert And(f.key.nwDstMask, f.key.nwDstMask) == f.key.nwDstMask;
  }

  /** The twin of an entry has no twin among the others. */
  lemma OneTwin(f: Flow, g: Flow, h: Flow)
    requires f.Ok() && g.Ok() && h.Ok() && Same(f, g) && !Same(f, h)
    ensures !Same(g, h) && !Same(h, g)
  {
    if Same(g, h) { SameTransitive(f, g, h); }
    if Same(h, g) { SameSymmetric(h, g); SameTransitive(f, g, h); }
  }

  /** Replacing an entry by its twin makes no new twins. */
  lemma TwinReplaced(flows: seq<Flow>, i: nat, flow: Flow)
    requires i < |flows| && NoTwins(flows) && Same(flows[i], flow) && flow.Ok()
    requires forall k :: 0 <= k < |flows| ==> flows[k].Ok()
    ensures NoTwins(flows[i := flow])
  {
    var f, s := flows[i], flows[i := flow];
    forall a, b | 0 <= a < b < |flows| ensures !Same(s[a], s[b]) {
      assert !Same(flows[a], flows[b]);
      if b == i {
        if Same(f, flows[a]) { SameSymmetric(f, flows[a]); }
        OneTwin(f, flow, flows[a]);
      } else if a == i {
        OneTwin(f, flow, flows[b]);
      }
    }
  }

  lemma InsertedNoTwins(flows: seq<Flow>, i: nat, flow: Flow)
    requires i <= |flows| && NoTwins(flows) && flow.Ok() && forall k :: 0 <= k < |flows| ==> flows[k].Ok()
    requires forall k :: 0 <= k < i ==> !Same(flows[k], flow)
    requires forall k :: i <= k < |flows| ==> flows[k].priority < flow.priority
    ensures NoTwins(Inserted(flows, i, flow))
  {
    var s := Inserted(flows, i, flow);
    forall a, b | 0 <= a < b < |s| ensures !Same(s[a], s[b]) {
      if a != i && b != i {
        assert !Same(flows[if a < i then a else a - 1], flows[if b < i then b else b - 1]);
      }
    }
  }

  lemma InsertedOrdered(flows: seq<Flow>, i: nat, flow: Flow)
    requires i <= |flows| && Ordered(flows) && forall k :: 0 <= k < |flows| ==> flows[k].serial < flow.serial
    requires forall k :: 0 <= k < i ==> flows[k].priority >= flow.priority
    requires forall k :: i <= k < |flows| ==> flows[k].priority < flow.priority
    ensures Ordered(Inserted(flows, i, flow))
  {
    var s := Inserted(flows, i, flow);
    forall a, b | 0 <= a < b < |s| ensures Before(s[a], s[b]) {
      if a != i && b != i {
        assert Before(flows[if a < i then a else a - 1], flows[if b < i then b else b - 1]);
      }
    }
  }

  lemma ReplacedOrdered(flows: seq<Flow>, i: nat, flow: Flow)
    requires i < |flows| && Ordered(flows) && flow.serial == flows[i].serial && flow.priority == flows[i].priority
    ensures Ordered(flows[i := flow])
  {
    var s := flows[i := flow];
    forall a, b | 0 <= a < b < |s| ensures Before(s[a], s[b]) {
      assert Before(flows[a], flows[b]);
    }
  }

  /** The two lists of a table whose serial numbers so far are below `next`: the search list in strict
      order and without twins, and the same entries newest first. */
  ghost predicate ListsOk(flows: seq<Flow>, iterFlows: seq<Flow>, next: nat)
    reads flows`serial, iterFlows`serial
  {
    && (forall i {:trigger flows[i].Ok()} :: 0 <= i < |flows| ==> flows[i].Ok())
    && (forall i {:trigger flows[i].serial} :: 0 <= i < |flows| ==> flows[i].serial < next)
    && Ordered(flows) && NoTwins(flows)
    && |iterFlows| == |flows| && SameMembers(flows, iterFlows) && NewestFirst(iterFlows)
  }

  lemma ReplacedMembers(flows: seq<Flow>, iterFlows: seq<Flow>, i: nat, k: nat, flow: Flow)
    requires i < |flows| && k < |iterFlows| && flows[i] == iterFlows[k]
    requires Ordered(flows) && NewestFirst(iterFlows) && SameMembers(flows, iterFlows)
    ensures SameMembers(flows[i := flow], iterFlows[k := flow])
  {
    var s, t := flows[i := flow], iterFlows[k := flow];
    assert s[i] == flow && t[k] == flow;
    forall a | 0 <= a < |t| && a != k ensures t[a] in s {
      assert iterFlows[a] in flows;
      var b :| 0 <= b < |flows| && flows[b] == iterFlows[a];
      assert s[b] == t[a];
    }
    forall a | 0 <= a < |s| && a != i ensures s[a] in t {
      assert flows[a] in iterFlows;
      var b :| 0 <= b < |iterFlows| && iterFlows[b] == flows[a];
      assert Before(flows[if a < i then a else i], flows[if a < i then i else a]);
      assert t[b] == s[a];
    }
  }

  lemma AddedMembers(flows: seq<Flow>, iterFlows: seq<Flow>, i: nat, flow: Flow)
    requires i <= |flows| && SameMembers(flows, iterFlows)
    ensures SameMembers(Inserted(flows, i, flow), [flow] + iterFlows)
  {
    var s, t := Inserted(flows, i, flow), [flow] + iterFlows;
    assert t[0] == flow && s[i] == flow;
    forall a | 0 < a < |t| ensures t[a] in s {
      assert iterFlows[a - 1] in flows;
      var b :| 0 <= b < |flows| && flows[b] == iterFlows[a - 1];
      assert s[if b < i then b else b + 1] == t[a];
    }
    forall a | 0 <= a < |s| && a != i ensures s[a] in t {
      assert flows[if a < i then a else a - 1] in iterFlows;
      var b :| 0 <= b < |iterFlows| && iterFlows[b] == s[a];
      assert t[b + 1] == s[a];
    }
  }

  lemma ReplacedLists(flows: seq<Flow>, iterFlows: seq<Flow>, next: nat, i: nat, k: nat, flow: Flow)
    requires ListsOk(flows, iterFlows, next) && i < |flows| && k < |iterFlows| && flows[i] == iterFlows[k]
    requires flow.Ok() && Same(flows[i], flow) && flow.serial == flows[i].serial
    ensures ListsOk(flows[i := flow], iterFlows[k := flow], next)
  {
    TwinReplaced(flows, i, flow);
    ReplacedOrdered(flows, i, flow);
    ReplacedMembers(flows, iterFlows, i, k, flow);
  }

  lemma AddedLists(flows: seq<Flow>, iterFlows: seq<Flow>, next: nat, i: nat, flow: Flow)
    requires ListsOk(flows, iterFlows, next) && i <= |flows| && flow.Ok() && flow.serial == next
    requires forall k :: 0 <= k < i ==> !Same(flows[k], flow) && flows[k].priority >= flow.priority
    requires i < |flows| ==> flows[i].priority < flow.priority
    ensures ListsOk(Inserted(flows, i, flow), [flow] + iterFlows, next + 1)
  {
    forall k | i < k < |flows| ensures flows[k].priority < flow.priority {
      assert Before(flows[i], flows[k]);
    }
    InsertedNoTwins(flows, i, flow);
    InsertedOrdered(flows, i, flow);
    AddedMembers(flows, iterFlows, i, flow);
    forall k | 0 <= k < |iterFlows| ensures iterFlows[k].serial < next {
      assert iterFlows[k] in flows;
    }
  }

  lemma DroppedMembers(flows: seq<Flow>, iterFlows: seq<Flow>, i: nat, k: nat)
    requires i < |flows| && k < |iterFlows| && flows[i] == iterFlows[k]
    requires Ordered(flows) && NewestFirst(iterFlows) && SameMembers(flows, iterFlows)
    ensures SameMembers(Removed(flows, i), Removed(iterFlows, k))
  {
    var s, t := Removed(flows, i), Removed(iterFlows, k);
    forall a | 0 <= a < |t| ensures t[a] in s {
      var c := if a < k then a else a + 1;
      assert iterFlows[c] in flows;
      var b :| 0 <= b < |flows| && flows[b] == iterFlows[c];
      assert s[if b < i then b else b - 1] == t[a];
    }
    forall a | 0 <= a < |s| ensures s[a] in t {
      var c := if a < i then a else a + 1;
      assert flows[c] in iterFlows;
      var b :| 0 <= b < |iterFlows| && iterFlows[b] == flows[c];
      assert Before(flows[if c < i then c else i], flows[if c < i then i else c]);
      assert t[if b < k then b else b - 1] == s[a];
    }
  }

  lemma DroppedLists(flows: seq<Flow>, iterFlows: seq<Flow>, next: nat, i: nat, k: nat)
    requires ListsOk(flows, iterFlows, next) && i < |flows| && k < |iterFlows| && flows[i] == iterFlows[k]
    ensures ListsOk(Removed(flows, i), Removed(iterFlows, k), next)
  {
    var s := Removed(flows, i);
    forall a, b | 0 <= a < b < |s| ensures Before(s[a], s[b]) && !Same(s[a], s[b]) {
      var c, d := if a < i then a else a + 1, if b < i then b else b + 1;
      assert Before(flows[c], flows[d]) && !Same(flows[c], flows[d]);
    }
    DroppedMembers(flows, iterFlows, i, k);
  }

  /** The list without the elements of `gone`. */
  ghost function Without(flows: seq<Flow>, gone: set<Flow>): seq<Flow> {
    if flows == [] then []
    else Without(flows[..|flows| - 1], gone) + if flows[|flows| - 1] in gone then [] else [flows[|flows| - 1]]
  }

  /** A sweep over the list `all` has dealt with i + count entries, `count` of them, all in `gone`, dropped. */
  ghost predicate Swept(all: seq<Flow>, flows: seq<Flow>, gone: set<Flow>, i: nat, count: nat) {
    && |all| == |flows| + count && i <= |flows|
    && flows[..i] == Without(all[..i + count], gone) && flows[i..] == all[i + count..]
  }

  lemma SweepDrop(all: seq<Flow>, flows: seq<Flow>, gone: set<Flow>, i: nat, count: nat)
    requires Swept(all, flows, gone, i, count) && i < |flows| && flows[i] in gone
    ensures Swept(all, Removed(flows, i), gone, i, count + 1)
  {
    assert flows[i..][0] == all[i + count..][0];
    assert all[..i + count + 1][..i + count] == all[..i + count];
    assert flows[i..][1..] == all[i + count..][1..];
    assert Removed(flows, i)[i..] == flows[i..][1..] && Removed(flows, i)[..i] == flows[..i];
  }

  lemma SweepKeep(all: seq<Flow>, flows: seq<Flow>, gone: set<Flow>, i: nat, count: nat)
    requires Swept(all, flows, gone, i, count) && i < |flows| && flows[i] !in gone
    ensures Swept(all, flows, gone, i + 1, count)
  {
    assert flows[i..][0] == all[i + count..][0];
    assert all[..i + count + 1][..i + count] == all[..i + count];
    assert flows[i..][1..] == all[i + count..][1..];
    assert flows[..i + 1] == flows[..i] + [flows[i]];
  }

  lemma SweepEnd(all: seq<Flow>, flows: seq<Flow>, gone: set<Flow>, count: nat)
    requires Swept(all, flows, gone, |flows|, count)
    ensures flows == Without(all, gone) && count == |all| - |flows|
  {
    assert all[..|all|] == all && flows[..|flows|] == flows;
  }

  lemma SweepMember(all: seq<Flow>, flows: seq<Flow>, gone: set<Flow>, i: nat, count: nat)
    requires Swept(all, flows, gone, i, count) && i < |flows|
    ensures flows[i] in all
  {
    assert flows[i] == flows[i..][0] == all[i + count..][0] == all[i + count];
  }

  lemma UpdateMembers<T>(s: seq<T>, i: nat, x: T)
    requires i < |s|
    ensures x in s[i := x] && forall y :: y in s[i := x] ==> y == x || y in s
    ensures forall y :: y in s && y !in s[i := x] ==> y == s[i]
  {
    var t := s[i := x];
    assert t[i] == x;
    forall y | y in s && y != s[i] ensures y in t {
      var k :| 0 <= k < |s| && s[k] == y;
      assert t[k] == y;
    }
  }

  lemma InsertMembers(s: seq<Flow>, i: nat, x: Flow)
    requires i <= |s|
    ensures x in Inserted(s, i, x)
    ensures forall y :: y in Inserted(s, i, x) ==> y == x || y in s
    ensures forall y :: y in s ==> y in Inserted(s, i, x)
  {
    var t := Inserted(s, i, x);
    assert t[i] == x;
    forall y | y in s ensures y in t {
      var k :| 0 <= k < |s| && s[k] == y;
      assert t[if k < i then k else k + 1] == y;
    }
  }

  /** What a modification applies to. */
  ghost predicate Hits(f: Flow, key: Key, priority: nat, strict: bool) {
    MatchesDesc(f.key, key, strict) && (!strict || f.priority == priority)
  }

  ghost function Hit(s: set<Flow>, key: Key, priority: nat, strict: bool): set<Flow> {
    set f | f in s && Hits(f, key, priority, strict)
  }

  ghost function ExpiredIn(s: set<Flow>, now: nat, hz: nat): set<Flow>
    reads s`used
  {
    set f | f in s && f.Expired(now, hz)
  }

  /** An entry is due when it was not used for longer than its idle timeout, or has been there for longer than its
      hard timeout; a timeout of zero is none. */
  lemma ExpiredMeans(s: set<Flow>, now: nat, hz: nat)
    ensures forall f :: f in ExpiredIn(s, now, hz) <==>
                        f in s && ((f.idleTimeout > 0 && now > f.used + f.idleTimeout * hz)
                                   || (f.hardTimeout > 0 && now > f.initTime + f.hardTimeout * hz))
  {
  }

  lemma ExpiredUnion(s: set<Flow>, t: set<Flow>, now: nat, hz: nat)
    ensures ExpiredIn(s + t, now, hz) == ExpiredIn(s, now, hz) + ExpiredIn(t, now, hz)
  {
  }

  function Members(s: seq<Flow>): set<Flow> { set f | f in s }

  lemma {:induction false} MembersSize(s: seq<Flow>)
    requires forall i, j :: 0 <= i < j < |s| ==> s[i] != s[j]
    ensures |Members(s)| == |s|
  {
    if s != [] {
      var r, f := s[..|s| - 1], s[|s| - 1];
      MembersSize(r);
      assert s == r + [f];
      assert Members(s) == Members(r) + {f};
    }
  }

  lemma {:induction false} WithoutMembers(s: seq<Flow>, gone: set<Flow>)
    ensures Members(Without(s, gone)) == Members(s) - gone
  {
    if s != [] {
      var r, f := s[..|s| - 1], s[|s| - 1];
      WithoutMembers(r, gone);
      assert s == r + [f];
      assert Members(s) == Members(r) + {f};
      assert Members(Without(s, gone)) == Members(Without(r, gone)) + if f in gone then {} else {f};
    }
  }

  lemma {:induction false} WithoutSize(s: seq<Flow>, gone: set<Flow>)
    requires (forall i, j :: 0 <= i < j < |s| ==> s[i] != s[j]) && gone <= Members(s)
    ensures |gone| == |s| - |Without(s, gone)|
  {
    if s != [] {
      var r, f := s[..|s| - 1], s[|s| - 1];
      assert s == r + [f];
      WithoutSame(r, gone, f);
      WithoutSize(r, gone - {f});
      if f in gone { assert gone == (gone - {f}) + {f}; } else { assert gone == gone - {f}; }
    }
  }

  lemma {:induction false} WithoutSame(s: seq<Flow>, gone: set<Flow>, f: Flow)
    requires f !in s
    ensures Without(s, gone) == Without(s, gone - {f})
  {
    if s != [] { WithoutSame(s[..|s| - 1], gone, f); }
  }

  /** From `s` to `t` at most `flow` is new, and only entries of its kind are gone. */
  ghost predicate Supplanted(s: seq<Flow>, t: seq<Flow>, flow: Flow) {
    (forall f :: f in t ==> f == flow || f in s) && forall f :: f in s && f !in t ==> Same(f, flow)
  }

  class Linear {
    var flows: seq<Flow>
    var iterFlows: seq<Flow>
    var nFlows: nat
    var nextSerial: nat
    const maxFlows: nat

    constructor (maxFlows: nat)
      ensures Valid() && flows == [] && this.maxFlows == maxFlows
    {
      flows, iterFlows, nFlows, nextSerial := [], [], 0, 0;
      this.maxFlows := maxFlows;
    }

    ghost predicate Valid()
      reads this, flows`serial, iterFlows`serial
    {
      nFlows == |flows| <= maxFlows && ListsOk(flows, iterFlows, nextSerial)
    }

    /** Where the search for a packet ends, from entry `i` on. */
    function FirstIndex(key: Key, i: nat): (r: nat)
      requires i <= |flows|
      reads this
      ensures i <= r <= |flows| && (r < |flows| ==> Matches1(key, flows[r].key))
      ensures forall k :: i <= k < r ==> !Matches1(key, flows[k].key)
      decreases |flows| - i
    {
      if i == |flows| || Matches1(key, flows[i].key) then i else FirstIndex(key, i + 1)
    }

    function FirstMatch(key: Key): Flow?
      reads this
    {
      var i := FirstIndex(key, 0);
      if i == |flows| then null else flows[i]
    }

    method Lookup(key: Key) returns (f: Flow?)
      ensures f == FirstMatch(key)
    {
      var i := 0;
      while i < |flows|
        invariant 0 <= i <= |flows| && FirstIndex(key, i) == FirstIndex(key, 0)
      {
        if Matches1(key, flows[i].key) {
          return flows[i];
        }
        i := i + 1;
      }
      return null;
    }

    /** The first match is the match of highest priority, and the oldest of those. */
    lemma FirstMatchIsBest(key: Key)
      requires Valid()
      ensures var f := FirstMatch(key);
              if f == null then forall k :: 0 <= k < |flows| ==> !Matches1(key, flows[k].key)
              else f in flows && Matches1(key, f.key)
                   && forall k :: 0 <= k < |flows| && Matches1(key, flows[k].key) ==>
                       || flows[k] == f || flows[k].priority < f.priority
                       || (flows[k].priority == f.priority && flows[k].serial > f.serial)
    {
      var r := FirstIndex(key, 0);
      forall k | r < k < |flows| ensures Before(flows[r], flows[k]) {
      }
    }

    /** Where the scan of table_linear_insert stops: at an entry to replace, at the first of lower priority, or at
        the end. */
    ghost predicate StopsAt(flow: Flow, i: nat)
      reads this
    {
      && i <= |flows|
      && (forall k :: 0 <= k < i ==> !Same(flows[k], flow) && flows[k].priority >= flow.priority)
      && (i < |flows| ==> Same(flows[i], flow) || flows[i].priority < flow.priority)
    }

    method Scan(flow: Flow) returns (i: nat)
      requires Valid()
      ensures StopsAt(flow, i)
    {
      i := 0;
      while i < |flows|
        invariant i <= |flows|
        invariant forall k :: 0 <= k < i ==> !Same(flows[k], flow) && flows[k].priority >= flow.priority
      {
        var f := flows[i];
        if f.priority == flow.priority && f.key.wildcards == flow.key.wildcards && Matches2(f.key, flow.key) {
          return;
        }
        if f.priority < flow.priority {
          break;
        }
        i := i + 1;
      }
    }

    method Number(flow: Flow, serial: nat)
      requires flow !in flows && flow !in iterFlows && ListsOk(flows, iterFlows, nextSerial)
      modifies flow`serial
      ensures flow.serial == serial && ListsOk(flows, iterFlows, nextSerial)
    {
      flow.serial := serial;
      assert ListsOk(flows, iterFlows, nextSerial) == old(ListsOk(flows, iterFlows, nextSerial));
    }

    /** list_replace on both lists */
    method Replace(i: nat, flow: Flow)
      requires Valid() && flow !in flows && flow.Ok() && i < |flows| && Same(flows[i], flow)
      modifies this`flows, this`iterFlows, flow`serial
      ensures Valid() && flows == old(flows)[i := flow] && flow.serial == old(flows[i].serial)
    {
      var f := flows[i];
      assert flow !in iterFlows && flows[i] in iterFlows;
      Number(flow, f.serial);
      var k :| 0 <= k < |iterFlows| && iterFlows[k] == f;
      ReplacedLists(flows, iterFlows, nextSerial, i, k, flow);
      flows := flows[i := flow];
      iterFlows := iterFlows[k := flow];
    }

    method Add(i: nat, flow: Flow)
      requires Valid() && flow !in flows && flow.Ok() && StopsAt(flow, i) && nFlows < maxFlows
      requires i < |flows| ==> !Same(flows[i], flow)
      modifies this`flows, this`iterFlows, this`nFlows, this`nextSerial, flow`serial
      ensures Valid() && flows == Inserted(old(flows), i, flow) && flow.serial == old(nextSerial)
    {
      assert flow !in iterFlows;
      nFlows := nFlows + 1;
      Number(flow, nextSerial);
      AddedLists(flows, iterFlows, nextSerial, i, flow);
      nextSerial := nextSerial + 1;
      flows := Inserted(flows, i, flow);
      iterFlows := [flow] + iterFlows;
    }

    /** The rest of table_linear_insert: 1 on success, 0 if the table is full and there is nothing to replace. */
    method Place(k: nat, flow: Flow) returns (r: int)
      requires Valid() && flow !in flows && flow.Ok() && StopsAt(flow, k)
      modifies this`flows, this`iterFlows, this`nFlows, this`nextSerial, flow`serial
      ensures Valid()
      ensures if k < |old(flows)| && Same(old(flows)[k], flow) then
                r == 1 && flows == old(flows)[k := flow] && flow.serial == old(flows[k].serial)
              else if |old(flows)| < maxFlows then
                r == 1 && flows == Inserted(old(flows), k, flow) && flow.serial == old(nextSerial)
              else r == 0 && flows == old(flows)
    {
      if k < |flows| && Same(flows[k], flow) {
        Replace(k, flow);
        return 1;
      }
      if nFlows >= maxFlows {
        return 0;
      }
      Add(k, flow);
      return 1;
    }

    ghost predicate Takes(flow: Flow)
      reads this
    {
      |flows| < maxFlows || exists k :: 0 <= k < |flows| && Same(flows[k], flow)
    }

    /** An entry of the highest priority that matches the packets of `flow` stands before any that `flow` replaces. */
    ghost predicate Shadows(flow: Flow)
      reads this
    {
      exists k :: 0 <= k < |flows| && flows[k].priority >= flow.priority && Matches1(flow.key, flows[k].key)
                  && forall j :: 0 <= j <= k ==> !Same(flows[j], flow)
    }

    /** table_linear_insert, for the table as a set of entries */
    method Insert(flow: Flow) returns (r: int)
      requires Valid() && flow !in flows && flow.Ok()
      modifies this`flows, this`iterFlows, this`nFlows, this`nextSerial, flow`serial
      ensures Valid() && r == if old(Takes(flow)) then 1 else 0
      ensures r == 0 ==> flows == old(flows)
      ensures r == 1 ==> flow in flows && (Exact(flow.key) ==> (FirstMatch(flow.key) == flow <==> !old(Shadows(flow))))
      ensures Supplanted(old(flows), flows, flow)
    {
      var k := Scan(flow);
      ShadowsBefore(flow, k);
      ghost var was := flows;
      r := Place(k, flow);
      if r == 1 {
        Placed(was, flow, k);
      }
    }

    lemma ShadowsBefore(flow: Flow, i: nat)
      requires Valid() && StopsAt(flow, i)
      ensures Shadows(flow) <==> exists k :: 0 <= k < i && Matches1(flow.key, flows[k].key)
      ensures Takes(flow) <==> |flows| < maxFlows || (i < |flows| && Same(flows[i], flow))
    {
      forall k | i <= k < |flows| && flows[k].priority >= flow.priority ensures Same(flows[i], flow) {
        assert i < k ==> Before(flows[i], flows[k]);
      }
    }

    lemma FoundAt(flow: Flow, i: nat)
      requires i < |flows| && flows[i] == flow && Matches1(flow.key, flow.key)
      requires forall k :: 0 <= k < i ==> flows[k] != flow
      ensures FirstMatch(flow.key) == flow <==> forall k :: 0 <= k < i ==> !Matches1(flow.key, flows[k].key)
    {
    }

    /** With every wildcarded entry below the highest priority, nothing shadows an exact flow. */
    lemma NeverShadowed(flow: Flow)
      requires Valid() && flow.Ok() && Exact(flow.key)
      requires forall k :: 0 <= k < |flows| && !Exact(flows[k].key) ==> flows[k].priority < MAX_PRIORITY
      ensures !Shadows(flow)
    {
      forall k | 0 <= k < |flows| && flows[k].priority >= flow.priority && Matches1(flow.key, flows[k].key)
        ensures Same(flows[k], flow)
      {
        assert flows[k].Ok();
        ExactIsSame(flows[k], flow);
      }
    }

    /** What an insertion into `was` at `i` means for the set of entries and for the search. */
    lemma Placed(was: seq<Flow>, flow: Flow, i: nat)
      requires i <= |was| && flow !in was && flow.Ok()
      requires if i < |was| && Same(was[i], flow) then flows == was[i := flow] else flows == Inserted(was, i, flow)
      ensures flow in flows && Supplanted(was, flows, flow)
      ensures Exact(flow.key) ==>
                (FirstMatch(flow.key) == flow <==> forall k :: 0 <= k < i ==> !Matches1(flow.key, was[k].key))
    {
      if i < |was| && Same(was[i], flow) {
        UpdateMembers(was, i, flow);
      } else {
        InsertMembers(was, i, flow);
      }
      assert forall k :: 0 <= k < i ==> flows[k] == was[k];
      if Exact(flow.key) {
        ExactMatch(flow.key, flow.key);
        FoundAt(flow, i);
      }
    }

    /** do_delete: the entry leaves both lists. */
    method Unlist(i: nat)
      requires ListsOk(flows, iterFlows, nextSerial) && i < |flows|
      modifies this`flows, this`iterFlows
      ensures ListsOk(flows, iterFlows, nextSerial) && flows == Removed(old(flows), i)
    {
      assert flows[i] in iterFlows;
      var k :| 0 <= k < |iterFlows| && iterFlows[k] == flows[i];
      DroppedLists(flows, iterFlows, nextSerial, i, k);
      flows, iterFlows := Removed(flows, i), Removed(iterFlows, k);
    }

    ghost predicate Picks(f: Flow, key: Key, outPort: OutPort, priority: nat, strict: bool)
      reads f`actions
    {
      Hits(f, key, priority, strict) && f.OutputsTo(outPort)
    }

    ghost function Picked(key: Key, outPort: OutPort, priority: nat, strict: bool): set<Flow>
      reads this`flows, flows`actions
    {
      set f | f in flows && Picks(f, key, outPort, priority, strict)
    }

    method PickedBy(f: Flow, key: Key, outPort: OutPort, priority: nat, strict: bool, ghost described: set<Flow>)
      returns (picked: bool)
      requires f in described <==> Hits(f, key, priority, strict)
      ensures picked == (f in described && f.OutputsTo(outPort))
    {
      var has := f.HasOutPort(outPort);
      picked := MatchesDesc(f.key, key, strict) && has && (!strict || f.priority == priority);
    }

    /** One entry of a sweep: unlisted if picked. */
    method SweepStep(i: nat, picked: bool, ghost all: seq<Flow>, ghost gone: set<Flow>, ghost count: nat)
      requires ListsOk(flows, iterFlows, nextSerial) && Swept(all, flows, gone, i, count)
      requires i < |flows| && picked == (flows[i] in gone)
      modifies this`flows, this`iterFlows
      ensures ListsOk(flows, iterFlows, nextSerial)
      ensures |flows| == old(|flows|) - if picked then 1 else 0
      ensures if picked then Swept(all, flows, gone, i, count + 1) else Swept(all, flows, gone, i + 1, count)
    {
      if picked {
        SweepDrop(all, flows, gone, i, count);
        Unlist(i);
      } else {
        SweepKeep(all, flows, gone, i, count);
      }
    }

    /** One entry of the loop of table_linear_delete. */
    method DeleteStep(i: nat, key: Key, outPort: OutPort, priority: nat, strict: bool,
                      ghost all: seq<Flow>, ghost described: set<Flow>, ghost gone: set<Flow>, ghost count: nat)
      returns (picked: bool)
      requires ListsOk(flows, iterFlows, nextSerial) && Swept(all, flows, gone, i, count) && i < |flows|
      requires flows[i] in described <==> Hits(flows[i], key, priority, strict)
      requires flows[i] in gone <==> flows[i] in described && flows[i].OutputsTo(outPort)
      modifies this`flows, this`iterFlows
      ensures ListsOk(flows, iterFlows, nextSerial)
      ensures |flows| == old(|flows|) - if picked then 1 else 0
      ensures if picked then Swept(all, flows, gone, i, count + 1) else Swept(all, flows, gone, i + 1, count)
    {
      picked := PickedBy(flows[i], key, outPort, priority, strict, described);
      SweepStep(i, picked, all, gone, count);
    }

    /** The loop of table_linear_delete. */
    method DeleteSweep(key: Key, outPort: OutPort, priority: nat, strict: bool,
                       ghost all: seq<Flow>, ghost described: set<Flow>, ghost gone: set<Flow>)
      returns (count: nat)
      requires ListsOk(flows, iterFlows, nextSerial) && all == flows
      requires forall f :: f in all ==> (f in described <==> Hits(f, key, priority, strict))
      requires forall f :: f in all ==> (f in gone <==> f in described && f.OutputsTo(outPort))
      modifies this`flows, this`iterFlows
      ensures ListsOk(flows, iterFlows, nextSerial) && Swept(all, flows, gone, |flows|, count)
    {
      var i := 0;
      count := 0;
      assert flows[..0] == [];
      while i < |flows|
        invariant ListsOk(flows, iterFlows, nextSerial)
        invariant Swept(all, flows, gone, i, count)
        decreases |flows| - i
      {
        SweepMember(all, flows, gone, i, count);
        var picked := DeleteStep(i, key, outPort, priority, strict, all, described, gone, count);
        if picked {
          count := count + 1;
        } else {
          i := i + 1;
        }
      }
    }

    /** table_linear_delete */
    method Delete(key: Key, outPort: OutPort, priority: nat, strict: bool) returns (count: nat, ghost gone: set<Flow>)
      requires Valid()
      modifies this`flows, this`iterFlows, this`nFlows
      ensures Valid()
      ensures gone == old(Picked(key, outPort, priority, strict))
      ensures forall f :: f in gone <==> f in old(flows) && MatchesDesc(f.key, key, strict)
                                         && (strict ==> f.priority == priority) && old(f.OutputsTo(outPort))
      ensures flows == Without(old(flows), gone) && Members(flows) == Members(old(flows)) - gone && count == |gone|
    {
      gone := Picked(key, outPort, priority, strict);
      ghost var all := flows;
      Distinct();
      count := DeleteSweep(key, outPort, priority, strict, all, Hit(Members(all), key, priority, strict), gone);
      SweepEnd(all, flows, gone, count);
      nFlows := nFlows - count;
      GoneSize(all, gone);
    }

    /** The loop of table_linear_timeout. */
    method TimeoutSweep(now: nat, hz: nat, ghost all: seq<Flow>, ghost gone: set<Flow>) returns (count: nat)
      requires ListsOk(flows, iterFlows, nextSerial) && all == flows
      requires forall f :: f in all ==> (f in gone <==> f.Expired(now, hz))
      modifies this`flows, this`iterFlows
      ensures ListsOk(flows, iterFlows, nextSerial) && Swept(all, flows, gone, |flows|, count)
    {
      var i := 0;
      count := 0;
      assert flows[..0] == [];
      while i < |flows|
        invariant ListsOk(flows, iterFlows, nextSerial)
        invariant Swept(all, flows, gone, i, count)
        decreases |flows| - i
      {
        SweepMember(all, flows, gone, i, count);
        var picked := flows[i].Expired(now, hz);
        SweepStep(i, picked, all, gone, count);
        if picked {
          count := count + 1;
        } else {
          i := i + 1;
        }
      }
    }

    /** table_linear_timeout */
    method Timeout(now: nat, hz: nat) returns (count: nat, ghost gone: set<Flow>)
      requires Valid()
      modifies this`flows, this`iterFlows, this`nFlows
      ensures Valid()
      ensures gone == old(ExpiredIn(Members(flows), now, hz))
      ensures forall f :: f in gone <==>
                          f in old(flows) && ((f.idleTimeout > 0 && now > old(f.used) + f.idleTimeout * hz)
                                              || (f.hardTimeout > 0 && now > f.initTime + f.hardTimeout * hz))
      ensures flows == Without(old(flows), gone) && Members(flows) == Members(old(flows)) - gone && count == |gone|
    {
      gone := ExpiredIn(Members(flows), now, hz);
      ExpiredMeans(Members(flows), now, hz);
      ghost var all := flows;
      Distinct();
      count := TimeoutSweep(now, hz, all, gone);
      SweepEnd(all, flows, gone, count);
      nFlows := nFlows - count;
      GoneSize(all, gone);
    }

    /** The loop of table_linear_modify. */
    method ModifyAll(key: Key, priority: nat, strict: bool, actions: seq<Action>, ghost hit: set<Flow>)
      returns (count: nat)
      requires forall i, j :: 0 <= i < j < |flows| ==> flows[i] != flows[j]
      requires forall f :: f in flows ==>
               (f in hit <==> MatchesDesc(f.key, key, strict) && (!strict || f.priority == priority))
      modifies flows`actions
      ensures forall k :: 0 <= k < |flows| ==>
              flows[k].actions == if flows[k] in hit then actions else old(flows[k].actions)
      ensures count == |flows| - |Without(flows, hit)|
    {
      count := 0;
      var i := 0;
      assert flows[..0] == [];
      while i < |flows|
        invariant 0 <= i <= |flows|
        invariant forall k :: 0 <= k < i ==>
                  flows[k].actions == if flows[k] in hit then actions else old(flows[k].actions)
        invariant forall k :: i <= k < |flows| ==> flows[k].actions == old(flows[k].actions)
        invariant count == i - |Without(flows[..i], hit)|
      {
        var flow := flows[i];
        assert flow in flows && flows[..i + 1][..i] == flows[..i];
        if MatchesDesc(flow.key, key, strict) && (!strict || flow.priority == priority) {
          flow.actions := actions;
          count := count + 1;
        }
        i := i + 1;
      }
      assert flows[..i] == flows;
    }

    lemma Distinct()
      requires Valid()
      ensures forall i, j :: 0 <= i < j < |flows| ==> flows[i] != flows[j]
    {
      forall i, j | 0 <= i < j < |flows| ensures flows[i] != flows[j] {
        assert Before(flows[i], flows[j]);
      }
    }

    lemma GoneSize(all: seq<Flow>, gone: set<Flow>)
      requires forall i, j :: 0 <= i < j < |all| ==> all[i] != all[j]
      requires Valid() && flows == Without(all, gone) && gone <= Members(all)
      ensures Members(flows) == Members(all) - gone && |gone| == |all| - |flows|
    {
      WithoutSize(all, gone);
      WithoutMembers(all, gone);
    }

    /** table_linear_modify */
    method Modify(key: Key, priority: nat, strict: bool, actions: seq<Action>)
      returns (count: nat, ghost hit: set<Flow>)
      requires Valid()
      modifies Members(flows)`actions
      ensures Valid()
      ensures hit == Hit(Members(flows), key, priority, strict)
      ensures forall f :: f in hit <==> f in flows && MatchesDesc(f.key, key, strict)
                                        && (strict ==> f.priority == priority)
      ensures forall f :: f in flows ==> f.actions == if f in hit then actions else old(f.actions)
      ensures count == |hit|
    {
      hit := Hit(Members(flows), key, priority, strict);
      Distinct();
      count := ModifyAll(key, priority, strict, actions, hit);
      WithoutSize(flows, hit);
    }
  }
}
