/** switch-port.c: the virtual port table, a red-black tree of entries that point at their parents. */
module VportTable {
  import opened RedBlackTree
  import opened RedBlackInsert
  import opened RedBlackDelete
  import opened RedBlackQuery

  const OFPP_VP_START := 0x10000
  const OFPP_VP_END := 0x40000000
  const EINVAL := 22

  class Entry {
    const vport: int
    const parentPort: int
    var parentPtr: Entry?
    var node: Node?
    var packetCount: nat
    var byteCount: nat
    // Longer than the depth of the parent, so that chains of parents end.
    ghost var depth: nat

    constructor (vport: int, parentPort: int)
      ensures this.vport == vport && this.parentPort == parentPort && parentPtr == null
      ensures packetCount == byteCount == 0
    {
      this.vport, this.parentPort := vport, parentPort;
      parentPtr, node := null, null;
      packetCount, byteCount := 0, 0;
    }

    /** vport_used */
    method Used(len: nat)
      modifies this`packetCount, this`byteCount
      ensures packetCount == old(packetCount) + 1 && byteCount == old(byteCount) + len
    {
      packetCount := packetCount + 1;
      byteCount := byteCount + len;
    }
  }

  /** What the actions of an entry do to a packet: clones sent to ports, and the packet after them. */
  datatype Acted<P> = Acted(clones: seq<(int, P)>, packet: P)

  class Table {
    const table: Tree
    var activeVports: nat
    var lookupCount: nat
    var portMatchCount: nat
    var chainMatchCount: nat
    ghost var entries: set<Entry>

    constructor ()
      ensures Valid() && entries == {} && fresh(table) && fresh(table.nil) && fresh(table.root)
      ensures lookupCount == portMatchCount == chainMatchCount == 0
    {
      table := new Tree();
      activeVports, lookupCount, portMatchCount, chainMatchCount := 0, 0, 0, 0;
      entries := {};
    }

    /** The tree is well formed and holds exactly the live entries, one node each, under their port numbers. */
    ghost predicate TreeOk()
      reads this`activeVports, this`entries, entries`node, table, table.nodes, table.root, table.nil
    {
      && table.Balanced() && table.Sorted() && activeVports == |table.order|
      && (forall e :: e in entries ==> e.node in table.nodes && e.node.info == e && e.node.key == e.vport)
      && (forall n :: n in table.nodes ==> n.info is Entry && n.info as Entry in entries && (n.info as Entry).node == n)
    }

    ghost predicate ParentOk(e: Entry)
      reads this`entries, entries`depth, e`parentPtr, e`depth
    {
      if e.parentPtr == null then e.parentPort < OFPP_VP_START
      else e.parentPtr in entries && e.parentPtr.vport == e.parentPort && e.parentPtr.depth < e.depth
    }

    /** Parent pointers lead to live entries, and chains of them end at a physical port. */
    ghost predicate ParentsOk()
      reads this`entries, entries`parentPtr, entries`depth
    {
      forall e {:trigger ParentOk(e)} :: e in entries ==> ParentOk(e)
    }

    ghost predicate Valid()
      reads this`activeVports, this`entries, entries`node, entries`parentPtr, entries`depth
      reads table, table.nodes, table.root, table.nil
    {
      TreeOk() && ParentsOk()
    }

    ghost predicate Unique()
      reads this`entries
    {
      forall d, e :: d in entries && e in entries && d.vport == e.vport ==> d == e
    }

    method Lookup(vport: int) returns (e: Entry?)
      requires TreeOk()
      ensures e == null <==> forall d :: d in entries ==> d.vport != vport
      ensures e != null ==> e in entries && e.vport == vport
    {
      var n; ghost var c;
      n, c := RBExactQuery(table, vport);
      if n == null {
        forall d | d in entries ensures d.vport != vport {
          assert table.NodeOk(d.node);
        }
        return null;
      }
      e := n.info as Entry;
    }

    /** What insert_vport_table_entry answers: the parent must be a physical port or a live virtual one. */
    ghost predicate Accepts(e: Entry)
      reads this`entries
    {
      && e.parentPort != e.vport && e.parentPort <= OFPP_VP_END
      && (e.parentPort >= OFPP_VP_START ==> exists d :: d in entries && d.vport == e.parentPort)
    }

    /** Finds the parent entry of `e` (null for a physical port), or refuses. */
    method FindParent(e: Entry) returns (error: int, parent: Entry?)
      requires Valid()
      ensures error == if Accepts(e) then 0 else EINVAL
      ensures error == 0 ==> if parent == null then e.parentPort < OFPP_VP_START
                             else parent in entries && parent.vport == e.parentPort
    {
      if e.parentPort == e.vport {
        return EINVAL, null;
      }
      if e.parentPort < OFPP_VP_START {
        return 0, null;
      } else if e.parentPort >= OFPP_VP_START && e.parentPort <= OFPP_VP_END {
        parent := Lookup(e.parentPort);
        error := if parent == null then EINVAL else 0;
      } else {
        return EINVAL, null;
      }
    }

    method SetParent(e: Entry, parent: Entry?)
      requires Valid() && e !in entries
      requires if parent == null then e.parentPort < OFPP_VP_START
               else parent in entries && parent.vport == e.parentPort
      modifies e`parentPtr, e`depth
      ensures Valid() && ParentOk(e)
    {
      e.parentPtr := parent;
      e.depth := if parent == null then 0 else parent.depth + 1;
      forall d | d in entries ensures ParentOk(d) { assert old(ParentOk(d)); }
    }

    method AddNode(e: Entry)
      requires TreeOk() && e !in entries
      modifies this`activeVports, this`entries, e`node
      modifies table`nodes, table`order, table.root`left, table.root`right
      modifies table.nodes`left, table.nodes`right, table.nodes`parent, table.nodes`red
      modifies table.nodes`lo, table.nodes`pos, table.nodes`hi, table.nodes`bh
      ensures TreeOk() && entries == old(entries) + {e}
    {
      ghost var k;
      var node;
      node, k := RBTreeInsert(table, e.vport, e);
      e.node := node;
      activeVports := activeVports + 1;
      entries := entries + {e};
    }

    twostate lemma AdditionKeepsParents(e: Entry)
      requires old(ParentsOk()) && old(ParentOk(e)) && entries == old(entries) + {e}
      requires forall d :: d in entries ==> d.parentPtr == old(d.parentPtr) && d.depth == old(d.depth)
      ensures ParentsOk()
    {
      forall d | d in entries ensures ParentOk(d) {
        assert old(ParentOk(d));
      }
    }

    method Store(e: Entry)
      requires Valid() && e !in entries && ParentOk(e)
      modifies this`activeVports, this`entries, e`node
      modifies table`nodes, table`order, table.root`left, table.root`right
      modifies table.nodes`left, table.nodes`right, table.nodes`parent, table.nodes`red
      modifies table.nodes`lo, table.nodes`pos, table.nodes`hi, table.nodes`bh
      ensures Valid() && entries == old(entries) + {e}
    {
      AddNode(e);
      AdditionKeepsParents(e);
    }

    method Insert(e: Entry) returns (error: int)
      requires Valid() && e !in entries
      modifies this`activeVports, this`entries, e`parentPtr, e`node, e`depth
      modifies table`nodes, table`order, table.root`left, table.root`right
      modifies table.nodes`left, table.nodes`right, table.nodes`parent, table.nodes`red
      modifies table.nodes`lo, table.nodes`pos, table.nodes`hi, table.nodes`bh
      ensures Valid()
      ensures error == if old(Accepts(e)) then 0 else 22
      ensures error == 0 <==> e.parentPort != e.vport && e.parentPort <= 0x4000_0000
                              && (e.parentPort < 0x1_0000 || exists d :: d in old(entries) && d.vport == e.parentPort)
      ensures entries == old(entries) + if error == 0 then {e} else {}
    {
      var parent;
      error, parent := FindParent(e);
      if error == 0 {
        SetParent(e, parent);
        Store(e);
      }
    }

    /** No live entry other than `e` itself has `e` as its parent. */
    ghost predicate Childless(e: Entry)
      reads this`entries, entries`parentPtr
    {
      forall d :: d in entries && d != e ==> d.parentPtr != e
    }

    method RemoveNode(e: Entry)
      requires TreeOk() && e in entries
      modifies this`activeVports, this`entries
      modifies table`nodes, table`order, table.nodes`left, table.nodes`right, table.nodes`parent
      modifies table.nodes`lo, table.nodes`pos, table.nodes`hi, table.nodes`red, table.nodes`bh
      modifies table.root`left, table.root`right, table.nil`parent, table.nil`red
      ensures TreeOk() && entries == old(entries) - {e}
    {
      assert table.NodeOk(e.node);
      RBDelete(table, e.node);
      activeVports := activeVports - 1;
      entries := entries - {e};
    }

    /** Removal does not look for children: the parent pointers stay sound exactly when there are none. */
    method Remove(vport: int) returns (error: int, ghost gone: Entry?)
      requires Valid()
      modifies this`activeVports, this`entries
      modifies table`nodes, table`order, table.nodes`left, table.nodes`right, table.nodes`parent
      modifies table.nodes`lo, table.nodes`pos, table.nodes`hi, table.nodes`red, table.nodes`bh
      modifies table.root`left, table.root`right, table.nil`parent, table.nil`red
      ensures TreeOk()
      ensures error == if exists d :: d in old(entries) && d.vport == vport then 0 else 22
      ensures error == 0 ==>
                gone != null && gone in old(entries) && gone.vport == vport && entries == old(entries) - {gone}
      ensures error != 0 ==> entries == old(entries) && ParentsOk()
      ensures error == 0 ==> (ParentsOk() <==> old(Childless(gone)))
    {
      var vpe := Lookup(vport);
      gone := vpe;
      if vpe == null {
        return EINVAL, gone;
      }
      RemoveNode(vpe);
      error := 0;
      RemovalKeepsParents(vpe);
    }

    twostate lemma RemovalKeepsParents(gone: Entry)
      requires old(ParentsOk()) && gone in old(entries) && entries == old(entries) - {gone}
      requires forall e :: e in entries ==> e.parentPtr == old(e.parentPtr) && e.depth == old(e.depth)
      ensures ParentsOk() <==> old(Childless(gone))
    {
      forall e | e in entries ensures old(ParentOk(e)) && (ParentOk(e) <==> old(e.parentPtr) != gone) {
        assert old(ParentOk(e));
      }
    }

    /** add_vport of forward.c: the port must be new and in range, and its actions valid. */
    method AddVport(vport: int, parentPort: int, actionsOk: bool) returns (error: int, e: Entry?)
      requires Valid() && Unique()
      modifies this`activeVports, this`entries
      modifies table`nodes, table`order, table.root`left, table.root`right
      modifies table.nodes`left, table.nodes`right, table.nodes`parent, table.nodes`red
      modifies table.nodes`lo, table.nodes`pos, table.nodes`hi, table.nodes`bh
      ensures Valid() && Unique()
      ensures error == 0 <==>
                && actionsOk && 0x1_0000 <= vport <= 0x4000_0000
                && (forall d :: d in old(entries) ==> d.vport != vport)
                && parentPort != vport && parentPort <= 0x4000_0000
                && (parentPort < 0x1_0000 || exists d :: d in old(entries) && d.vport == parentPort)
      ensures error == 0 ==> e != null && fresh(e) && e.vport == vport && e.parentPort == parentPort
                             && entries == old(entries) + {e}
      ensures error != 0 ==> error == 22 && entries == old(entries)
    {
      e := null;
      var vpe := Lookup(vport);
      if vpe != null {
        return EINVAL, null;
      }
      if !actionsOk {
        return EINVAL, null;
      }
      if !(vport >= OFPP_VP_START && vport <= OFPP_VP_END) {
        return EINVAL, null;
      }
      e := new Entry(vport, parentPort);
      error := Insert(e);
    }

    /** The entries a packet visits from `e` on. */
    ghost function Path(e: Entry): (path: seq<Entry>)
      reads this`entries, entries`parentPtr, entries`depth
      requires ParentsOk() && e in entries
      ensures |path| > 0 && path[0] == e
      decreases e.depth
    {
      assert ParentOk(e);
      if e.parentPtr == null then [e] else [e] + Path(e.parentPtr)
    }

    /** A path visits live entries, each at most once, steps from child to parent, and ends at a physical port. */
    lemma {:induction false} PathFacts(e: Entry)
      requires ParentsOk() && e in entries
      ensures var p := Path(e);
              && (forall i :: 0 <= i < |p| ==> p[i] in entries && p[i].depth <= e.depth)
              && (forall i :: 0 <= i < |p| - 1 ==> p[i].parentPtr == p[i + 1] && p[i].parentPort == p[i + 1].vport)
              && (forall i, j :: 0 <= i < j < |p| ==> p[i].depth > p[j].depth && p[i] != p[j])
              && p[|p| - 1].parentPtr == null && p[|p| - 1].parentPort < 0x1_0000
      decreases e.depth
    {
      assert ParentOk(e);
      if e.parentPtr != null {
        PathFacts(e.parentPtr);
      }
    }

    predicate NoRepeats(path: seq<Entry>) { forall i, j :: 0 <= i < j < |path| ==> path[i] != path[j] }

    /** A chain of parent pointers from `e`, without repetition, that ends at a physical port. */
    ghost predicate Chain(e: Entry?, path: seq<Entry>)
      reads path`parentPtr
    {
      if path == [] then e == null
      else
        && path[0] == e
        && NoRepeats(path)
        && (forall i {:trigger path[i].parentPtr} :: 0 <= i < |path| - 1 ==> path[i].parentPtr == path[i + 1])
        && path[|path| - 1].parentPtr == null && path[|path| - 1].parentPort < OFPP_VP_START
    }

    /** The packet after the actions of the first `i` entries of a path; `act` is what the entry of a port does. */
    function After<P>(path: seq<Entry>, i: nat, packet: P, act: (int, P) -> Acted<P>): P
      requires i <= |path|
    {
      if i == 0 then packet else act(path[i - 1].vport, After(path, i - 1, packet, act)).packet
    }

    /** The clones that the first `i` entries of a path send. */
    function Clones<P>(path: seq<Entry>, i: nat, packet: P, act: (int, P) -> Acted<P>): seq<(int, P)>
      requires i <= |path|
    {
      if i == 0 then []
      else Clones(path, i - 1, packet, act) + act(path[i - 1].vport, After(path, i - 1, packet, act)).clones
    }

    /** The sizes of the packet as the first `i` entries of a path leave it. */
    function Sizes<P>(path: seq<Entry>, i: nat, packet: P, act: (int, P) -> Acted<P>, size: P -> nat): (s: seq<int>)
      requires i <= |path|
      ensures |s| == i
    {
      if i == 0 then [] else Sizes(path, i - 1, packet, act, size) + [size(After(path, i, packet, act))]
    }

    lemma {:induction false} SizeAt<P>(path: seq<Entry>, n: nat, i: nat, packet: P, act: (int, P) -> Acted<P>,
                                       size: P -> nat)
      requires i < n <= |path|
      ensures Sizes(path, n, packet, act, size)[i] == size(After(path, i + 1, packet, act))
    {
      if i < n - 1 { SizeAt(path, n - 1, i, packet, act, size); }
    }

    /** All that a packet sends on a path: the clones of the entries, and itself in the end. */
    function Sends<P>(path: seq<Entry>, packet: P, act: (int, P) -> Acted<P>): seq<(int, P)> {
      if path == [] then []
      else Clones(path, |path|, packet, act) + [(path[|path| - 1].parentPort, After(path, |path|, packet, act))]
    }

    ghost function Counts(live: set<Entry>): map<Entry, (int, int)>
      reads live
    {
      map d | d in live :: (d.packetCount, d.byteCount)
    }

    /** Since the counts were `base`, the first `i` entries of a path have counted one packet each, with its size,
        and no other entry has. */
    ghost predicate Tallied(path: seq<Entry>, i: nat, live: set<Entry>, sizes: seq<int>, base: map<Entry, (int, int)>)
      requires i <= |path| == |sizes|
      reads live`packetCount, live`byteCount, path`packetCount, path`byteCount
    {
      && (forall d :: d in live ==> d in base)
      && (forall j :: 0 <= j < |path| ==> path[j] in base)
      && (forall j :: 0 <= j < i ==>
            path[j].packetCount == base[path[j]].0 + 1 && path[j].byteCount == base[path[j]].1 + sizes[j])
      && (forall j :: i <= j < |path| ==>
            path[j].packetCount == base[path[j]].0 && path[j].byteCount == base[path[j]].1)
      && (forall d :: d in live && d !in path ==> d.packetCount == base[d].0 && d.byteCount == base[d].1)
    }

    /** vport_used for the next entry of a path. */
    method CountOne(vpe: Entry, len: nat, ghost path: seq<Entry>, ghost i: nat, ghost live: set<Entry>,
                    ghost sizes: seq<int>, ghost base: map<Entry, (int, int)>)
      requires i < |path| == |sizes| && vpe == path[i] && len == sizes[i] && Tallied(path, i, live, sizes, base)
      requires NoRepeats(path)
      modifies vpe`packetCount, vpe`byteCount
      ensures Tallied(path, i + 1, live, sizes, base)
    {
      vpe.Used(len);
    }

    /** Before turn `i` of the walk up a path. */
    ghost predicate AtTurn<P>(path: seq<Entry>, i: nat, packet: P, act: (int, P) -> Acted<P>,
                        vpe: Entry?, skb: P, sent: seq<(int, P)>, chained: int)
    {
      && i <= |path| && vpe == (if i < |path| then path[i] else null) && skb == After(path, i, packet, act)
      && sent == (if i < |path| then Clones(path, i, packet, act) else Sends(path, packet, act))
      && chained == if i < |path| || path == [] then i else |path| - 1
    }

    /** The rest of a turn, after vport_used. */
    method Turn<P>(vpe: Entry, packet: P, act: (int, P) -> Acted<P>, skb0: P, sent0: seq<(int, P)>, chained0: int,
                   ghost path: seq<Entry>, ghost i: nat)
      returns (up: Entry?, skb: P, sent: seq<(int, P)>, chained: int)
      requires path != [] && Chain(path[0], path) && AtTurn(path, i, packet, act, vpe, skb0, sent0, chained0)
      requires i < |path|
      ensures skb == act(vpe.vport, skb0).packet
      ensures AtTurn(path, i + 1, packet, act, up, skb, sent, chained)
    {
      var acted := act(vpe.vport, skb0);
      sent, skb, chained := sent0 + acted.clones, acted.packet, chained0;
      if vpe.parentPtr == null {
        if vpe.parentPort <= OFPP_VP_START {
          sent := sent + [(vpe.parentPort, skb)];
        }
      } else {
        chained := chained + 1;
      }
      up := vpe.parentPtr;
    }

    /** One turn of the walk. */
    method CountAndTurn<P>(vpe: Entry, packet: P, act: (int, P) -> Acted<P>, size: P -> nat, skb0: P,
                           sent0: seq<(int, P)>, chained0: int, ghost path: seq<Entry>, ghost i: nat,
                           ghost live: set<Entry>, ghost base: map<Entry, (int, int)>)
      returns (up: Entry?, skb: P, sent: seq<(int, P)>, chained: int)
      requires path != [] && Chain(path[0], path) && AtTurn(path, i, packet, act, vpe, skb0, sent0, chained0)
      requires i < |path| && Tallied(path, i, live, Sizes(path, |path|, packet, act, size), base)
      modifies vpe`packetCount, vpe`byteCount
      ensures Chain(path[0], path) && AtTurn(path, i + 1, packet, act, up, skb, sent, chained)
      ensures Tallied(path, i + 1, live, Sizes(path, |path|, packet, act, size), base)
    {
      SizeAt(path, |path|, i, packet, act, size);
      up, skb, sent, chained := Turn(vpe, packet, act, skb0, sent0, chained0, path, i);
      CountOne(vpe, size(skb), path, i, live, Sizes(path, |path|, packet, act, size), base);
    }

    lemma TallyStart(path: seq<Entry>, live: set<Entry>, sizes: seq<int>)
      requires |sizes| == |path| && forall d :: d in path ==> d in live
      ensures Tallied(path, 0, live, sizes, Counts(live))
    {
      assert forall j :: 0 <= j < |path| ==> path[j] in path;
    }

    /** The loop of run_through_vport_table; `chained` counts the entries whose parent is an entry. */
    method WalkUp<P>(e0: Entry?, packet: P, act: (int, P) -> Acted<P>, size: P -> nat,
                     ghost path: seq<Entry>, ghost live: set<Entry>, ghost base: map<Entry, (int, int)>)
      returns (sent: seq<(int, P)>, chained: int)
      requires Chain(e0, path) && forall d :: d in path ==> d in live
      requires Tallied(path, 0, live, Sizes(path, |path|, packet, act, size), base)
      modifies live`packetCount, live`byteCount
      ensures chained == if path == [] then 0 else |path| - 1
      ensures Chain(e0, path) && sent == Sends(path, packet, act)
      ensures Tallied(path, |path|, live, Sizes(path, |path|, packet, act, size), base)
    {
      ghost var i := 0;
      sent, chained := [], 0;
      var vpe, skb := e0, packet;
      while vpe != null
        invariant AtTurn(path, i, packet, act, vpe, skb, sent, chained)
        invariant Tallied(path, i, live, Sizes(path, |path|, packet, act, size), base)
        invariant path != [] ==> Chain(path[0], path)
        decreases |path| - i
      {
        vpe, skb, sent, chained := CountAndTurn(vpe, packet, act, size, skb, sent, chained, path, i, live, base);
        i := i + 1;
      }
    }

    /** run_through_vport_table after the look-up: walks the entries `path`, from `e0` up. */
    method WalkPath<P>(e0: Entry?, packet: P, act: (int, P) -> Acted<P>, size: P -> nat,
                       ghost path: seq<Entry>, ghost live: set<Entry>, ghost base: map<Entry, (int, int)>)
      returns (sent: seq<(int, P)>)
      requires Chain(e0, path) && forall d :: d in path ==> d in live
      requires Tallied(path, 0, live, Sizes(path, |path|, packet, act, size), base)
      modifies this`chainMatchCount, this`lookupCount, this`portMatchCount, live`packetCount, live`byteCount
      ensures lookupCount == old(lookupCount) + 1
      ensures portMatchCount == old(portMatchCount) + if path == [] then 0 else 1
      ensures chainMatchCount == old(chainMatchCount) + if path == [] then 0 else |path| - 1
      ensures Chain(e0, path) && sent == Sends(path, packet, act)
      ensures Tallied(path, |path|, live, Sizes(path, |path|, packet, act, size), base)
    {
      var vpe := e0;
      lookupCount := lookupCount + 1;
      if vpe != null {
        portMatchCount := portMatchCount + 1;
      }
      var chained;
      sent, chained := WalkUp(vpe, packet, act, size, path, live, base);
      chainMatchCount := chainMatchCount + chained;
    }

    /** Counting a packet leaves the table as it is. */
    twostate lemma CountingKeepsValid()
      requires old(Valid()) && unchanged(this`activeVports, this`entries, table)
      requires unchanged(table.nodes, table.root, table.nil, entries`node, entries`parentPtr, entries`depth)
      ensures Valid()
    {
      assert TreeOk() == old(TreeOk()) && ParentsOk() == old(ParentsOk());
    }

    method CountPath<P>(e0: Entry?, packet: P, act: (int, P) -> Acted<P>, size: P -> nat, ghost path: seq<Entry>,
                        ghost base: map<Entry, (int, int)>)
      returns (sent: seq<(int, P)>)
      requires Valid() && Chain(e0, path) && forall d :: d in path ==> d in entries
      requires Tallied(path, 0, entries, Sizes(path, |path|, packet, act, size), base)
      modifies this`chainMatchCount, this`lookupCount, this`portMatchCount, entries`packetCount, entries`byteCount
      ensures Valid() && Chain(e0, path)
      ensures Tallied(path, |path|, entries, Sizes(path, |path|, packet, act, size), base)
      ensures lookupCount == old(lookupCount) + 1
      ensures portMatchCount == old(portMatchCount) + if path == [] then 0 else 1
      ensures chainMatchCount == old(chainMatchCount) + if path == [] then 0 else |path| - 1
      ensures sent == Sends(path, packet, act)
    {
      sent := WalkPath(e0, packet, act, size, path, entries, base);
      CountingKeepsValid();
    }

    /** The walk, entry by entry. */
    method Walk<P>(e0: Entry?, packet: P, act: (int, P) -> Acted<P>, size: P -> nat, ghost path: seq<Entry>)
      returns (sent: seq<(int, P)>, ghost acts: seq<Acted<P>>)
      requires Valid() && Chain(e0, path) && forall j :: 0 <= j < |path| ==> path[j] in entries
      modifies this`chainMatchCount, this`lookupCount, this`portMatchCount, entries`packetCount, entries`byteCount
      ensures Valid() && Chain(e0, path) && ActsOn(path, |path|, packet, act, acts)
      ensures forall j :: 0 <= j < |path| ==>
                path[j].packetCount == old(path[j].packetCount) + 1
                && path[j].byteCount == old(path[j].byteCount) + size(acts[j].packet)
      ensures forall d :: d in entries && d !in path ==>
                d.packetCount == old(d.packetCount) && d.byteCount == old(d.byteCount)
      ensures lookupCount == old(lookupCount) + 1
      ensures portMatchCount == old(portMatchCount) + if path == [] then 0 else 1
      ensures chainMatchCount == old(chainMatchCount) + if path == [] then 0 else |path| - 1
      ensures sent == if path == [] then []
                      else AllClones(acts) + [(path[|path| - 1].parentPort, acts[|path| - 1].packet)]
    {
      ghost var base := Counts(entries);
      acts := Traced(path, |path|, packet, act, size);
      TallyStart(path, entries, Sizes(path, |path|, packet, act, size));
      sent := CountPath(e0, packet, act, size, path, base);
      Counted(path, entries, Sizes(path, |path|, packet, act, size), size, acts, base);
    }

    /** The entry of the port, if there is one, and those its chain of parents leads to. */
    method FindPath(vport: int) returns (e: Entry?, ghost path: seq<Entry>)
      requires Valid()
      ensures Valid() && forall i :: 0 <= i < |path| ==> path[i] in old(entries)
      ensures path == [] <==> forall d :: d in old(entries) ==> d.vport != vport
      ensures path != [] ==> path[0].vport == vport
      ensures Chain(e, path)
    {
      e := Lookup(vport);
      path := [];
      if e != null {
        path := Path(e);
        PathFacts(e);
      }
    }

    /** What comes to entry j of a path: the packet as the entry before left it. */
    function Came<P>(acts: seq<Acted<P>>, j: nat, packet: P): P
      requires j <= |acts|
    {
      if j == 0 then packet else acts[j - 1].packet
    }

    /** `acts[j]` is what entry j of a path does to the packet that comes to it, for the first `i` entries. */
    ghost predicate ActsOn<P>(path: seq<Entry>, i: nat, packet: P, act: (int, P) -> Acted<P>, acts: seq<Acted<P>>) {
      && |acts| == i <= |path|
      && forall j {:trigger Came(acts, j, packet)} :: 0 <= j < i ==>
           acts[j] == act(path[j].vport, Came(acts, j, packet))
    }

    /** What the first `i` entries do. */
    lemma {:induction false} Traced<P>(path: seq<Entry>, i: nat, packet: P, act: (int, P) -> Acted<P>, size: P -> nat)
      returns (acts: seq<Acted<P>>)
      requires i <= |path|
      ensures ActsOn(path, i, packet, act, acts) && AllClones(acts) == Clones(path, i, packet, act)
      ensures After(path, i, packet, act) == Came(acts, i, packet)
      ensures forall j :: 0 <= j < i ==> Sizes(path, i, packet, act, size)[j] == size(acts[j].packet)
    {
      acts := [];
      if i > 0 {
        var before := Traced(path, i - 1, packet, act, size);
        var last := act(path[i - 1].vport, After(path, i - 1, packet, act));
        acts := before + [last];
        assert acts[..i - 1] == before;
        forall j | 0 <= j < i ensures acts[j] == act(path[j].vport, Came(acts, j, packet)) {
          assert Came(acts, j, packet) == Came(before, j, packet);
        }
      }
    }

    /** The counters of every entry, from what they were. */
    lemma Counted<P>(path: seq<Entry>, live: set<Entry>, sizes: seq<int>, size: P -> nat, acts: seq<Acted<P>>,
                     base: map<Entry, (int, int)>)
      requires |acts| == |sizes| == |path| && forall j :: 0 <= j < |path| ==> sizes[j] == size(acts[j].packet)
      requires Tallied(path, |path|, live, sizes, base)
      ensures forall j :: 0 <= j < |path| ==>
                path[j] in base && path[j].packetCount == base[path[j]].0 + 1
                && path[j].byteCount == base[path[j]].1 + size(acts[j].packet)
      ensures forall d :: d in live && d !in path ==>
                d in base && d.packetCount == base[d].0 && d.byteCount == base[d].1
    {
    }

    /** run_through_vport_table for a packet that is not dropped. */
    method RunOn<P>(vport: int, packet: P, act: (int, P) -> Acted<P>, size: P -> nat)
      returns (sent: seq<(int, P)>, ghost path: seq<Entry>, ghost acts: seq<Acted<P>>)
      requires Valid()
      modifies this`chainMatchCount, this`lookupCount, this`portMatchCount, entries`packetCount, entries`byteCount
      ensures Valid() && forall j :: 0 <= j < |path| ==> path[j] in entries
      ensures path == [] <==> forall d :: d in entries ==> d.vport != vport
      ensures path != [] ==> path[0].vport == vport && Chain(path[0], path)
      ensures ActsOn(path, |path|, packet, act, acts)
      ensures forall j :: 0 <= j < |path| ==>
                path[j].packetCount == old(path[j].packetCount) + 1
                && path[j].byteCount == old(path[j].byteCount) + size(acts[j].packet)
      ensures forall d :: d in entries && d !in path ==>
                d.packetCount == old(d.packetCount) && d.byteCount == old(d.byteCount)
      ensures lookupCount == old(lookupCount) + 1
      ensures portMatchCount == old(portMatchCount) + if path == [] then 0 else 1
      ensures chainMatchCount == old(chainMatchCount) + if path == [] then 0 else |path| - 1
      ensures sent == if path == [] then []
                      else AllClones(acts) + [(path[|path| - 1].parentPort, acts[|path| - 1].packet)]
    {
      var vpe;
      vpe, path := FindPath(vport);
      sent, acts := Walk(vpe, packet, act, size, path);
    }

    /** run_through_vport_table: a packet that is a fragment to drop changes nothing and sends nothing. Otherwise
        every entry on the path of the port does its actions and counts the packet once; the packet is sent as the
        last entry leaves it, at a single physical port, after the clones that entries sent. */
    method RunThrough<P>(vport: int, packet: P, drop: bool, act: (int, P) -> Acted<P>, size: P -> nat)
      returns (sent: seq<(int, P)>, ghost path: seq<Entry>, ghost acts: seq<Acted<P>>)
      requires Valid()
      modifies this`chainMatchCount, this`lookupCount, this`portMatchCount, entries`packetCount, entries`byteCount
      ensures Valid() && forall j :: 0 <= j < |path| ==> path[j] in entries
      ensures path == [] <==> drop || forall d :: d in entries ==> d.vport != vport
      ensures path != [] ==> path[0].vport == vport && Chain(path[0], path)
      ensures ActsOn(path, |path|, packet, act, acts)
      ensures forall j :: 0 <= j < |path| ==>
                path[j].packetCount == old(path[j].packetCount) + 1
                && path[j].byteCount == old(path[j].byteCount) + size(acts[j].packet)
      ensures forall d :: d in entries && d !in path ==>
                d.packetCount == old(d.packetCount) && d.byteCount == old(d.byteCount)
      ensures lookupCount == old(lookupCount) + if drop then 0 else 1
      ensures portMatchCount == old(portMatchCount) + if path == [] then 0 else 1
      ensures chainMatchCount == old(chainMatchCount) + if path == [] then 0 else |path| - 1
      ensures sent == if path == [] then []
                      else AllClones(acts) + [(path[|path| - 1].parentPort, acts[|path| - 1].packet)]
      ensures path != [] && (forall j :: 0 <= j < |path| ==> acts[j].clones == []) ==> |sent| == 1
    {
      if drop {
        return [], [], [];
      }
      sent, path, acts := RunOn(vport, packet, act, size);
      NoClones(acts);
    }
  }

  /** The clones that are sent on the way, in order. */
  function AllClones<P>(acts: seq<Acted<P>>): seq<(int, P)> {
    if acts == [] then [] else AllClones(acts[..|acts| - 1]) + acts[|acts| - 1].clones
  }

  /** The clones of every entry are all there, between those of the entries before and behind it. */
  lemma {:induction false} ClonesInOrder<P>(acts: seq<Acted<P>>, j: nat)
    requires j < |acts|
    ensures AllClones(acts) == AllClones(acts[..j]) + acts[j].clones + AllClones(acts[j + 1..])
  {
    if j < |acts| - 1 {
      var r := acts[..|acts| - 1];
      ClonesInOrder(r, j);
      assert r[..j] == acts[..j] && acts[j + 1..][..|acts| - 2 - j] == r[j + 1..];
    }
  }

  lemma {:induction false} NoClones<P>(acts: seq<Acted<P>>)
    ensures (forall j :: 0 <= j < |acts| ==> acts[j].clones == []) ==> AllClones(acts) == []
  {
    if acts != [] { NoClones(acts[..|acts| - 1]); }
  }

  /** Ports 0x10000 (on physical port 1) and 0x10001 (on 0x10000); removing the first leaves a dangling parent. */
  method RemovalCanDangle() returns (t: Table)
    ensures t.TreeOk() && !t.ParentsOk()
  {
    t := new Table();
    var e0, a := t.AddVport(0x10000, 1, true);
    var e1, b := t.AddVport(0x10001, 0x10000, true);
    assert t.ParentOk(b) && t.ParentOk(a);
    var e2; ghost var gone;
    e2, gone := t.Remove(0x10000);
    assert a in t.entries + {a} && gone == a;
  }
}
