/** dp_act.c: validation and execution of action lists. */
module Actions {
  import opened Sequences
  import opened ByteOrder

  type Octet = b: int | 0 <= b < 256 witness 0

  const HEADER := 8
  const OFPAT_OUTPUT := 0
  const N_OF_ACTIONS := 12
  const OFPAT_VENDOR := 0xffff
  const NX_VENDOR_ID := 0x2320
  const NXAST_SNAT := 0
  const OFPP_MAX := 0xff00
  const OFPP_NONE: Port16 := 0xffff

  datatype Verdict = Accepted | BadType | BadLen | BadVendor | BadVendorType | BadOutPort | BadArgument

  /** How the switch was built, and the part of the flow key that validation looks at. */
  datatype Context = Context(littleEndian: bool, snat: bool, inPortWild: bool, inPort: Port16)

  function U16(b: seq<Octet>, o: nat): nat
    requires o + 2 <= |b|
  {
    b[o] as int * 256 + b[o + 1]
  }

  function U32(b: seq<Octet>, o: nat): Port32
    requires o + 4 <= |b|
  {
    U16(b, o) * 0x10000 + U16(b, o + 2)
  }

  /** min_size and max_size of the built-in actions */
  function Size(kind: nat): nat {
    if kind == OFPAT_OUTPUT || kind == 4 || kind == 5 then 16 else 8
  }

  /** validate_output */
  function CheckOutput(c: Context, b: seq<Octet>): Verdict
    requires |b| >= HEADER
  {
    var port := Loaded32(c.littleEndian, U32(b, 4));
    if port == Loaded16(c.littleEndian, OFPP_NONE) || (!c.inPortWild && port == Loaded16(c.littleEndian, c.inPort))
    then BadOutPort
    else Accepted
  }

  /** nx_validate_act */
  function CheckNx(c: Context, b: seq<Octet>, len: nat): Verdict
    requires len <= |b|
  {
    if len < 16 then BadLen
    else if c.snat && U16(b, 8) == NXAST_SNAT then
      if len != 16 then BadLen else if U16(b, 10) >= OFPP_MAX then BadArgument else Accepted
    else BadVendorType
  }

  /** validate_ofpat and validate_vendor */
  function CheckOne(c: Context, b: seq<Octet>, len: nat): (v: Verdict)
    requires |b| >= HEADER && len <= |b|
    ensures v == Accepted ==> len >= HEADER
  {
    var kind := U16(b, 0);
    if kind < N_OF_ACTIONS then
      if len < Size(kind) || len > Size(kind) then BadLen
      else if kind == OFPAT_OUTPUT then CheckOutput(c, b) else Accepted
    else if kind == OFPAT_VENDOR then
      if len < HEADER then BadLen else if U32(b, 4) == NX_VENDOR_ID then CheckNx(c, b, len) else BadVendor
    else BadType
  }

  function Check(c: Context, b: seq<Octet>): Verdict
    decreases |b|
  {
    if |b| < HEADER then if |b| == 0 then Accepted else BadLen
    else
      var len := U16(b, 2);
      if |b| < len || len % 8 != 0 then BadLen
      else
        var v := CheckOne(c, b, len);
        if v != Accepted then v else Check(c, b[len..])
  }

  /** validate_actions */
  method ValidateActions(c: Context, actions: seq<Octet>) returns (v: Verdict)
    ensures v == Check(c, actions)
  {
    var p := actions;
    while |p| >= HEADER
      invariant Check(c, p) == Check(c, actions)
      decreases |p|
    {
      var len := U16(p, 2);
      if |p| < len || len % 8 != 0 {
        return BadLen;
      }
      var err := CheckOne(c, p, len);
      if err != Accepted {
        return err;
      }
      p := p[len..];
    }
    if |p| != 0 {
      return BadLen;
    }
    return Accepted;
  }

  /** One acceptable action, on its own. */
  predicate Good(c: Context, a: seq<Octet>) {
    && |a| >= HEADER && |a| % 8 == 0 && U16(a, 2) == |a|
    && var kind := U16(a, 0);
       || (kind == OFPAT_OUTPUT && |a| == 16 && CheckOutput(c, a) == Accepted)
       || (0 < kind < N_OF_ACTIONS && |a| == Size(kind))
       || (kind == OFPAT_VENDOR && c.snat && |a| == 16 && U32(a, 4) == NX_VENDOR_ID
           && U16(a, 8) == NXAST_SNAT && U16(a, 10) < OFPP_MAX)
  }

  /** The 32-bit number at `o`. */
  function Number(b: seq<Octet>, o: nat): nat
    requires o + 4 <= |b|
  {
    ((b[o] as int * 256 + b[o + 1]) * 256 + b[o + 2]) * 256 + b[o + 3]
  }

  /** The ports that an output may not name. */
  predicate Refused(c: Context, port: nat) {
    var scale := if c.littleEndian then 0x10000 else 1;
    port == 0xffff * scale || (!c.inPortWild && port == c.inPort * scale)
  }

  /** An acceptable action fills its length field, and is an output of 16 bytes to a port that is not refused, a
      setting of an Ethernet address in 16 bytes or of something else in 8, or, if the switch has it, the address
      translation of one vendor with a port below 0xff00. */
  lemma GoodMeans(c: Context, a: seq<Octet>)
    ensures Good(c, a) <==>
              && |a| >= 8 && a[2] as int * 256 + a[3] == |a|
              && var kind := a[0] as int * 256 + a[1];
                 || (kind == 0 && |a| == 16 && !Refused(c, Number(a, 4)))
                 || ((kind == 4 || kind == 5) && |a| == 16)
                 || ((kind == 1 || kind == 2 || kind == 3 || 6 <= kind < 12) && |a| == 8)
                 || (kind == 0xffff && c.snat && |a| == 16 && Number(a, 4) == 0x2320
                     && a[8] == a[9] == 0 && a[10] < 0xff)
  {
    if |a| >= 8 { OutputsRefused(c, a); }
  }

  function Concat(parts: seq<seq<Octet>>): seq<Octet> {
    if parts == [] then [] else parts[0] + Concat(parts[1..])
  }

  ghost predicate Splits(c: Context, b: seq<Octet>, parts: seq<seq<Octet>>) {
    Concat(parts) == b && forall i :: 0 <= i < |parts| ==> Good(c, parts[i])
  }

  /** A list is accepted exactly when it is a sequence of acceptable actions and nothing else. */
  lemma AcceptedIsSplit(c: Context, b: seq<Octet>)
    ensures Check(c, b) == Accepted <==> exists parts :: Splits(c, b, parts)
  {
    if Check(c, b) == Accepted {
      var parts := Split(c, b);
    }
    forall parts | Splits(c, b, parts) ensures Check(c, b) == Accepted {
      SplitAccepted(c, b, parts);
    }
  }

  lemma {:induction false} Split(c: Context, b: seq<Octet>) returns (parts: seq<seq<Octet>>)
    requires Check(c, b) == Accepted
    ensures Splits(c, b, parts)
    decreases |b|
  {
    if b == [] {
      parts := [];
    } else {
      var len := U16(b, 2);
      var rest := Split(c, b[len..]);
      FirstGood(c, b, len);
      parts := [b[..len]] + rest;
      assert parts[1..] == rest && b == b[..len] + b[len..];
    }
  }

  /** What a check reads of an action lies within its length. */
  lemma FirstGood(c: Context, b: seq<Octet>, len: nat)
    requires |b| >= HEADER && len <= |b| && len == U16(b, 2)
    ensures len % 8 == 0 && CheckOne(c, b, len) == Accepted <==> Good(c, b[..len])
  {
    if len >= HEADER {
      assert forall i :: 0 <= i < HEADER ==> b[..len][i] == b[i];
      if len == 16 { assert forall i :: 0 <= i < 16 ==> b[..len][i] == b[i]; }
    }
  }

  lemma {:induction false} SplitAccepted(c: Context, b: seq<Octet>, parts: seq<seq<Octet>>)
    requires Splits(c, b, parts)
    ensures Check(c, b) == Accepted
    decreases |parts|
  {
    if parts != [] {
      var a, rest := parts[0], Concat(parts[1..]);
      assert Good(c, a) && b == a + rest;
      assert b[..|a|] == a && b[|a|..] == rest;
      assert forall i :: 0 <= i < HEADER ==> b[i] == a[i];
      FirstGood(c, b, |a|);
      SplitAccepted(c, rest, parts[1..]);
    }
  }

  /** Which output actions are refused. On a little-endian machine the 16-bit constant and the input port are
      compared with the low half of the stored bytes, that is, with ports whose number is a multiple of 2^16. */
  lemma OutputsRefused(c: Context, a: seq<Octet>)
    requires |a| >= HEADER
    ensures CheckOutput(c, a) == BadOutPort <==>
              var scale := Scale(c.littleEndian);
              U32(a, 4) == OFPP_NONE * scale || (!c.inPortWild && U32(a, 4) == c.inPort * scale)
  {
    LoadedAlike(c.littleEndian, U32(a, 4), OFPP_NONE);
    LoadedAlike(c.littleEndian, U32(a, 4), c.inPort);
  }

  lemma {:induction false} GoodSkipped(c: Context, parts: seq<seq<Octet>>, p: seq<Octet>)
    requires forall i :: 0 <= i < |parts| ==> Good(c, parts[i])
    ensures Check(c, Concat(parts) + p) == Check(c, p)
    decreases |parts|
  {
    if parts == [] {
      assert Concat(parts) + p == p;
    } else {
      var a, rest := parts[0], Concat(parts[1..]) + p;
      var b := Concat(parts) + p;
      assert Good(c, a) && b == a + rest;
      assert b[..|a|] == a && b[|a|..] == rest;
      assert forall i :: 0 <= i < HEADER ==> b[i] == a[i];
      FirstGood(c, b, |a|);
      GoodSkipped(c, parts[1..], p);
    }
  }

  /** The answer is that for the first action that is not acceptable: what is wrong with it, its length first. */
  lemma FirstBadDecides(c: Context, parts: seq<seq<Octet>>, p: seq<Octet>)
    requires forall i :: 0 <= i < |parts| ==> Good(c, parts[i])
    requires p != [] && forall n :: 0 <= n <= |p| ==> !Good(c, p[..n])
    ensures Check(c, Concat(parts) + p)
            == if |p| < 8 then BadLen
               else
                 var kind, len := p[0] as int * 256 + p[1], p[2] as int * 256 + p[3];
                 if len > |p| || len % 8 != 0 then BadLen
                 else if kind == 0 && len == 16 then BadOutPort
                 else if kind < 12 then BadLen
                 else if kind < 0xffff then BadType
                 else if len < 8 then BadLen
                 else if Number(p, 4) != 0x2320 then BadVendor
                 else if len < 16 then BadLen
                 else if !c.snat || p[8] != 0 || p[9] != 0 then BadVendorType
                 else if len > 16 then BadLen
                 else BadArgument
  {
    GoodSkipped(c, parts, p);
    if |p| >= 8 {
      var len := U16(p, 2);
      if len <= |p| {
        assert !Good(c, p[..len]);
        FirstGood(c, p, len);
      }
    }
  }

  /** So an output to OFPP_NONE is accepted there. */
  lemma NonePasses()
    ensures var a: seq<Octet> := [0, 0, 0, 16, 0, 0, 0xff, 0xff, 0, 0, 0, 0, 0, 0, 0, 0];
            U32(a, 4) == OFPP_NONE && Check(Context(true, false, true, 0), a) == Accepted
  {
    var a: seq<Octet> := [0, 0, 0, 16, 0, 0, 0xff, 0xff, 0, 0, 0, 0, 0, 0, 0, 0];
    assert U16(a, 2) == 16 && U16(a, 0) == 0;
    assert a[16..] == [];
  }

  // ---------- execution ----------

  /** A list that can be walked without further checks: every action lies within the list and makes progress. */
  predicate Walkable(b: seq<Octet>)
    decreases |b|
  {
    b == [] || (|b| >= HEADER && var len := U16(b, 2);
                HEADER <= len <= |b| && (U16(b, 0) == OFPAT_OUTPUT ==> len >= 16) && Walkable(b[len..]))
  }

  /** Validation licenses the walk. */
  lemma {:induction false} AcceptedIsWalkable(c: Context, b: seq<Octet>)
    requires Check(c, b) == Accepted
    ensures Walkable(b) && |b| % 8 == 0
    decreases |b|
  {
    if b != [] { AcceptedIsWalkable(c, b[U16(b, 2)..]); }
  }

  /** A 32-bit number as a C int. */
  function ToInt(v: nat): int { if v >= 0x8000_0000 then v - 0x1_0000_0000 else v }

  const NO_PORT := -1

  datatype Output<P> = Output(port: int, maxLen: nat, packet: P)

  /** The outputs of a list, and the packet left over at its end unless an action lost it. */
  datatype Outcome<P> = Outcome(sent: seq<Output<P>>, left: Option<P>)

  /** The meaning of a list: every output sends a copy of the packet as it is at that point; `exec` is what the
      other actions do to the packet. */
  function CloneEach<P>(b: seq<Octet>, skb: P, exec: (seq<Octet>, P) -> Option<P>): Outcome<P>
    requires Walkable(b)
    decreases |b|
  {
    if b == [] then Outcome([], Some(skb))
    else
      var len := U16(b, 2);
      if U16(b, 0) == OFPAT_OUTPUT then
        var r := CloneEach(b[len..], skb, exec);
        r.(sent := [Output(ToInt(U32(b, 4)), U16(b, 8), skb)] + r.sent)
      else
        match exec(b[..len], skb)
        case None => Outcome([], None)
        case Some(p) => CloneEach(b[len..], p, exec)
  }

  /** An output sends the packet as it is, to the port in bytes 4 to 8 and with the length in bytes 8 and 9; any other
      action changes the packet for those behind it, or loses it. */
  lemma CloneEachMeans<P>(b: seq<Octet>, skb: P, exec: (seq<Octet>, P) -> Option<P>)
    requires Walkable(b) && b != []
    ensures |b| >= 8 && b[2] as int * 256 + b[3] <= |b|
    ensures var r := b[b[2] as int * 256 + b[3]..];
            && Walkable(r)
            && var kind, all := b[0] as int * 256 + b[1], CloneEach(b, skb, exec);
               if kind == 0 then
                 && |b| >= 16 && all.left == CloneEach(r, skb, exec).left && |all.sent| > 0
                 && (all.sent[0].port - Number(b, 4)) % 0x1_0000_0000 == 0
                 && -0x8000_0000 <= all.sent[0].port < 0x8000_0000
                 && all.sent[0].maxLen == b[8] as int * 256 + b[9] && all.sent[0].packet == skb
                 && all.sent[1..] == CloneEach(r, skb, exec).sent
               else
                 var after := exec(b[..b[2] as int * 256 + b[3]], skb);
                 if after == None then all == Outcome([], None) else all == CloneEach(r, after.value, exec)
  {
  }

  /** The last action is an output, and not to port 0xffffffff. */
  predicate EndsInOutput(p: seq<Octet>)
    requires Walkable(p)
    decreases |p|
  {
    p != []
    && var r := p[U16(p, 2)..];
       if r == [] then p[0] == p[1] == 0 && Number(p, 4) != 0xffff_ffff else EndsInOutput(r)
  }

  /** The outputs whose port is not mistaken for the mark of no port. */
  function Visible<P>(s: seq<Output<P>>): seq<Output<P>> {
    if s == [] then [] else (if s[0].port == NO_PORT then [] else [s[0]]) + Visible(s[1..])
  }

  /** How the packet itself was used: sent at the end, freed, or lost by an action. */
  datatype Fate = SentLast | Freed | Lost

  /** A deferred output, if there is one. */
  function Deferred<P>(port: int, maxLen: nat, skb: P): seq<Output<P>> {
    if port == NO_PORT then [] else [Output(port, maxLen, skb)]
  }

  /** What the list `p` still sends. */
  function Rest<P>(p: seq<Octet>, skb: P, exec: (seq<Octet>, P) -> Option<P>): seq<Output<P>>
    requires Walkable(p)
  {
    Visible(CloneEach(p, skb, exec).sent)
  }

  lemma RestOfOutput<P>(p: seq<Octet>, skb: P, exec: (seq<Octet>, P) -> Option<P>)
    requires Walkable(p) && p != [] && U16(p, 0) == OFPAT_OUTPUT
    ensures var r := p[U16(p, 2)..];
            Rest(p, skb, exec) == Deferred(ToInt(U32(p, 4)), U16(p, 8), skb) + Rest(r, skb, exec)
            && CloneEach(p, skb, exec).left == CloneEach(r, skb, exec).left
  {
    var r := p[U16(p, 2)..];
    assert CloneEach(p, skb, exec).sent[1..] == CloneEach(r, skb, exec).sent;
  }

  /** One action of execute_actions: an output is put off, anything else is done to the packet. */
  method Act<P>(p: seq<Octet>, skb: P, exec: (seq<Octet>, P) -> Option<P>)
    returns (port: int, maxLen: nat, now: Option<P>)
    requires Walkable(p) && p != []
    ensures now == None ==> Rest(p, skb, exec) == [] && CloneEach(p, skb, exec).left == None
    ensures now.Some? ==>
              var r := p[U16(p, 2)..];
              && Rest(p, skb, exec) == Deferred(port, maxLen, now.value) + Rest(r, now.value, exec)
              && CloneEach(p, skb, exec).left == CloneEach(r, now.value, exec).left
    ensures now.Some? ==> (port != NO_PORT <==> p[0] == p[1] == 0 && Number(p, 4) != 0xffff_ffff)
  {
    if U16(p, 0) == OFPAT_OUTPUT {
      RestOfOutput(p, skb, exec);
      NoPortIsAllOnes(p);
      port, maxLen, now := ToInt(U32(p, 4)), U16(p, 8), Some(skb);
    } else {
      port, maxLen, now := NO_PORT, 0, exec(p[..U16(p, 2)], skb);
    }
  }

  /** execute_actions: clones are sent late, so that the last output can take the packet itself. */
  method ExecuteActions<P>(actions: seq<Octet>, packet: P, exec: (seq<Octet>, P) -> Option<P>)
    returns (sent: seq<Output<P>>, clones: nat, fate: Fate)
    requires Walkable(actions)
    ensures sent == Rest(actions, packet, exec)
    ensures fate.Lost? <==> CloneEach(actions, packet, exec).left == None
    ensures fate.SentLast? <==> CloneEach(actions, packet, exec).left.Some? && EndsInOutput(actions)
    ensures clones + (if fate.SentLast? then 1 else 0) == |sent|
  {
    ghost var total, left := Rest(actions, packet, exec), CloneEach(actions, packet, exec).left;
    var p, skb := actions, packet;
    var prevPort, maxLen := NO_PORT, 0;
    sent, clones := [], 0;
    while p != []
      invariant Walkable(p) && CloneEach(p, skb, exec).left == left && clones == |sent|
      invariant EndsInOutput(actions) == if p == [] then prevPort != NO_PORT else EndsInOutput(p)
      invariant sent + (Deferred(prevPort, maxLen, skb) + Rest(p, skb, exec)) == total
      decreases |p|
    {
      var len := U16(p, 2);
      if prevPort != NO_PORT {
        sent, clones := sent + [Output(prevPort, maxLen, skb)], clones + 1;
      }
      assert sent + Rest(p, skb, exec) == total;
      var now;
      prevPort, maxLen, now := Act(p, skb, exec);
      if now == None {
        return sent, clones, Lost;
      }
      skb := now.value;
      p := p[len..];
    }
    if prevPort != NO_PORT {
      sent := sent + [Output(prevPort, maxLen, skb)];
      return sent, clones, SentLast;
    } else {
      return sent, clones, Freed;
    }
  }

  /** Some output action of the list names port 0xffffffff. */
  predicate Names(p: seq<Octet>)
    requires Walkable(p)
    decreases |p|
  {
    p != [] && ((U16(p, 0) == OFPAT_OUTPUT && U32(p, 4) == 0xffff_ffff) || Names(p[U16(p, 2)..]))
  }

  lemma NoPortIsAllOnes(p: seq<Octet>)
    requires |p| >= 8
    ensures ToInt(U32(p, 4)) == NO_PORT <==> U32(p, 4) == 0xffff_ffff
  {
  }

  lemma VisibleShorter<P>(s: seq<Output<P>>)
    ensures |Visible(s)| <= |s|
  {
  }

  /** An output to port 0xffffffff is reached before an action loses the packet. */
  predicate Reaches<P>(p: seq<Octet>, skb: P, exec: (seq<Octet>, P) -> Option<P>)
    requires Walkable(p)
    decreases |p|
  {
    p != []
    && var r := p[U16(p, 2)..];
       if U16(p, 0) == OFPAT_OUTPUT then U32(p, 4) == 0xffff_ffff || Reaches(r, skb, exec)
       else
         match exec(p[..U16(p, 2)], skb)
         case None => false
         case Some(s) => Reaches(r, s, exec)
  }

  /** Whatever the actions do to the packet, deferring sends what cloning sends if and only if no such output is
      reached, and less otherwise. */
  lemma {:induction false} DeferredDropsReached<P>(p: seq<Octet>, skb: P, exec: (seq<Octet>, P) -> Option<P>)
    requires Walkable(p)
    ensures Rest(p, skb, exec) == CloneEach(p, skb, exec).sent <==> !Reaches(p, skb, exec)
    ensures Reaches(p, skb, exec) ==> |Rest(p, skb, exec)| < |CloneEach(p, skb, exec).sent|
    decreases |p|
  {
    if p != [] {
      var r := p[U16(p, 2)..];
      if U16(p, 0) == OFPAT_OUTPUT {
        NoPortIsAllOnes(p);
        RestOfOutput(p, skb, exec);
        VisibleShorter(CloneEach(r, skb, exec).sent);
        DeferredDropsReached(r, skb, exec);
      } else if exec(p[..U16(p, 2)], skb).Some? {
        DeferredDropsReached(r, exec(p[..U16(p, 2)], skb).value, exec);
      }
    }
  }

  /** If no action loses the packet, that depends on the list alone: whether some output names the port. */
  lemma {:induction false} ReachesIsNames<P>(p: seq<Octet>, skb: P, exec: (seq<Octet>, P) -> Option<P>)
    requires Walkable(p)
    ensures Reaches(p, skb, exec) ==> Names(p)
    ensures (forall a, s :: exec(a, s).Some?) ==> (Reaches(p, skb, exec) <==> Names(p))
    decreases |p|
  {
    if p != [] {
      var r := p[U16(p, 2)..];
      if U16(p, 0) == OFPAT_OUTPUT {
        ReachesIsNames(r, skb, exec);
      } else if exec(p[..U16(p, 2)], skb).Some? {
        ReachesIsNames(r, exec(p[..U16(p, 2)], skb).value, exec);
      }
    }
  }

  /** In particular the two agree, for every packet and whatever the actions do, if no output names the port. */
  lemma DeferredIsCloning<P>(p: seq<Octet>, skb: P, exec: (seq<Octet>, P) -> Option<P>)
    requires Walkable(p) && !Names(p)
    ensures Rest(p, skb, exec) == CloneEach(p, skb, exec).sent
  {
    ReachesIsNames(p, skb, exec);
    DeferredDropsReached(p, skb, exec);
  }

  /** And if no action loses the packet, they agree only then. */
  lemma DeferredDropsNamed<P>(p: seq<Octet>, skb: P, exec: (seq<Octet>, P) -> Option<P>)
    requires Walkable(p) && forall a, s :: exec(a, s).Some?
    ensures Rest(p, skb, exec) == CloneEach(p, skb, exec).sent <==> !Names(p)
    ensures Names(p) ==> |Rest(p, skb, exec)| < |CloneEach(p, skb, exec).sent|
  {
    ReachesIsNames(p, skb, exec);
    DeferredDropsReached(p, skb, exec);
  }

  /** An output to port 0xffffffff is accepted on either byte order, and sent nowhere. */
  lemma AllOnesVanishes<P>(littleEndian: bool, skb: P, exec: (seq<Octet>, P) -> Option<P>)
    ensures var a: seq<Octet> := [0, 0, 0, 16, 0xff, 0xff, 0xff, 0xff, 0, 0, 0, 0, 0, 0, 0, 0];
            && Check(Context(littleEndian, false, true, 0), a) == Accepted && Walkable(a)
            && |CloneEach(a, skb, exec).sent| == 1 && Rest(a, skb, exec) == []
  {
    var a: seq<Octet> := [0, 0, 0, 16, 0xff, 0xff, 0xff, 0xff, 0, 0, 0, 0, 0, 0, 0, 0];
    assert U16(a, 2) == 16 && U16(a, 0) == 0 && U32(a, 4) == 0xffff_ffff;
    assert a[16..] == [];
    AcceptedIsWalkable(Context(littleEndian, false, true, 0), a);
    RestOfOutput(a, skb, exec);
  }
}
