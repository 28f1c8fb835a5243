/** flow.c: flow keys, wildcards and the matching functions. */
module FlowKeys {
  import opened Arith
  import opened Words

  // Bit numbers of the OFPFW_* flags, and where the two 6-bit address wildcards start.
  const IN_PORT := 0
  const DL_VLAN := 1
  const DL_SRC := 2
  const DL_DST := 3
  const DL_TYPE := 4
  const NW_PROTO := 5
  const TP_SRC := 6
  const TP_DST := 7
  const NW_SRC_SHIFT := 8
  const NW_DST_SHIFT := 14
  const NW_BITS := 6
  const MPLS_L1 := 20
  const MPLS_L2 := 21

  /** The part of a key that flow_keys_equal compares: everything before `wildcards`. */
  datatype Head = Head(
    nwSrc: Word, nwDst: Word, inPort: nat, dlVlan: nat, dlType: nat, tpSrc: nat, tpDst: nat,
    dlSrc: nat, dlDst: nat, nwProto: nat, pad: nat)

  datatype Key = Key(
    head: Head, wildcards: Word, nwSrcMask: Word, nwDstMask: Word, mpls1: nat, mpls2: nat)

  predicate Flag(w: Word, bit: nat)
    requires bit < 32
  {
    w[31 - bit]
  }

  /** The two addresses agree in every bit of the mask. */
  predicate MaskedEqual(a: Word, b: Word, mask: Word) {
    And(Xor(a, b), mask) == Zeros(32)
  }

  /** flow_fields_match */
  predicate FieldsMatch(a: Key, b: Key, w: Word, srcMask: Word, dstMask: Word) {
    && (Flag(w, IN_PORT) || a.head.inPort == b.head.inPort)
    && (Flag(w, DL_VLAN) || a.head.dlVlan == b.head.dlVlan)
    && (Flag(w, DL_SRC) || a.head.dlSrc == b.head.dlSrc)
    && (Flag(w, DL_DST) || a.head.dlDst == b.head.dlDst)
    && (Flag(w, DL_TYPE) || a.head.dlType == b.head.dlType)
    && MaskedEqual(a.head.nwSrc, b.head.nwSrc, srcMask)
    && MaskedEqual(a.head.nwDst, b.head.nwDst, dstMask)
    && (Flag(w, NW_PROTO) || a.head.nwProto == b.head.nwProto)
    && (Flag(w, TP_SRC) || a.head.tpSrc == b.head.tpSrc)
    && (Flag(w, TP_DST) || a.head.tpDst == b.head.tpDst)
    && (Flag(w, MPLS_L1) || a.mpls1 == b.mpls1)
    && (Flag(w, MPLS_L2) || a.mpls2 == b.mpls2)
  }

  /** flow_matches_1wild: equal modulo the wildcards of `b`. */
  predicate Matches1(a: Key, b: Key) {
    FieldsMatch(a, b, b.wildcards, b.nwSrcMask, b.nwDstMask)
  }

  /** flow_matches_2wild: equal modulo the wildcards of `a` or `b`. */
  predicate Matches2(a: Key, b: Key) {
    FieldsMatch(a, b, Or(a.wildcards, b.wildcards), And(a.nwSrcMask, b.nwSrcMask), And(a.nwDstMask, b.nwDstMask))
  }

  /** flow_matches_desc */
  predicate MatchesDesc(t: Key, d: Key, strict: bool) {
    !(strict && d.wildcards != t.wildcards) && Matches1(t, d)
  }

  /** flow_keys_equal */
  predicate KeysEqual(a: Key, b: Key) { a.head == b.head }

  // ---------- overlap ----------

  lemma MaskedEqualBits(a: Word, b: Word, mask: Word)
    ensures MaskedEqual(a, b, mask) <==> forall i :: 0 <= i < 32 && mask[i] ==> a[i] == b[i]
  {
    var c := And(Xor(a, b), mask);
    if forall i :: 0 <= i < 32 && mask[i] ==> a[i] == b[i] {
      assert c == Zeros(32);
    } else {
      var i :| 0 <= i < 32 && mask[i] && a[i] != b[i];
      assert c[i];
    }
  }

  /** An address that agrees with `a` under `ma` and with `b` elsewhere. */
  function Blend(a: Word, b: Word, ma: Word): Word {
    seq(32, i requires 0 <= i < 32 => if ma[i] then a[i] else b[i])
  }

  lemma BlendMatches(a: Word, b: Word, ma: Word, mb: Word)
    requires MaskedEqual(a, b, And(ma, mb))
    ensures MaskedEqual(Blend(a, b, ma), a, ma) && MaskedEqual(Blend(a, b, ma), b, mb)
  {
    MaskedEqualBits(a, b, And(ma, mb));
    MaskedEqualBits(Blend(a, b, ma), a, ma);
    MaskedEqualBits(Blend(a, b, ma), b, mb);
  }

  lemma CommonMatch(k: Word, a: Word, b: Word, ma: Word, mb: Word)
    requires MaskedEqual(k, a, ma) && MaskedEqual(k, b, mb)
    ensures MaskedEqual(a, b, And(ma, mb))
  {
    MaskedEqualBits(k, a, ma);
    MaskedEqualBits(k, b, mb);
    MaskedEqualBits(a, b, And(ma, mb));
  }

  /** A packet that both `a` and `b` match, if there is one. */
  function Witness(a: Key, b: Key): Key {
    var w := a.wildcards;
    Key(Head(
          Blend(a.head.nwSrc, b.head.nwSrc, a.nwSrcMask), Blend(a.head.nwDst, b.head.nwDst, a.nwDstMask),
          if Flag(w, IN_PORT) then b.head.inPort else a.head.inPort,
          if Flag(w, DL_VLAN) then b.head.dlVlan else a.head.dlVlan,
          if Flag(w, DL_TYPE) then b.head.dlType else a.head.dlType,
          if Flag(w, TP_SRC) then b.head.tpSrc else a.head.tpSrc,
          if Flag(w, TP_DST) then b.head.tpDst else a.head.tpDst,
          if Flag(w, DL_SRC) then b.head.dlSrc else a.head.dlSrc,
          if Flag(w, DL_DST) then b.head.dlDst else a.head.dlDst,
          if Flag(w, NW_PROTO) then b.head.nwProto else a.head.nwProto,
          0),
        Zeros(32), Zeros(32), Zeros(32),
        if Flag(w, MPLS_L1) then b.mpls1 else a.mpls1,
        if Flag(w, MPLS_L2) then b.mpls2 else a.mpls2)
  }

  lemma OverlapHasWitness(a: Key, b: Key)
    requires Matches2(a, b)
    ensures Matches1(Witness(a, b), a) && Matches1(Witness(a, b), b)
  {
    BlendMatches(a.head.nwSrc, b.head.nwSrc, a.nwSrcMask, b.nwSrcMask);
    BlendMatches(a.head.nwDst, b.head.nwDst, a.nwDstMask, b.nwDstMask);
  }

  lemma CommonPacketOverlaps(k: Key, a: Key, b: Key)
    requires Matches1(k, a) && Matches1(k, b)
    ensures Matches2(a, b)
  {
    CommonMatch(k.head.nwSrc, a.head.nwSrc, b.head.nwSrc, a.nwSrcMask, b.nwSrcMask);
    CommonMatch(k.head.nwDst, a.head.nwDst, b.head.nwDst, a.nwDstMask, b.nwDstMask);
  }

  /** flow_matches_2wild holds exactly when some packet is matched by both. */
  lemma OverlapIsCommonPacket(a: Key, b: Key)
    ensures Matches2(a, b) <==> exists k: Key :: k.wildcards == Zeros(32) && Matches1(k, a) && Matches1(k, b)
  {
    if Matches2(a, b) {
      OverlapHasWitness(a, b);
      assert Witness(a, b).wildcards == Zeros(32);
    }
    forall k: Key | Matches1(k, a) && Matches1(k, b) ensures Matches2(a, b) {
      CommonPacketOverlaps(k, a, b);
    }
  }

  // ---------- address masks ----------

  /** A 6-bit address wildcard field. */
  function NwWild(w: Word, shift: nat): nat
    requires shift + NW_BITS <= 32
  {
    Val(w[32 - shift - NW_BITS..32 - shift])
  }

  /** The mask for `wild` wildcarded bits: a one for every bit to compare, none from 32 wildcarded bits on. */
  function NwMask(wild: nat): Word {
    seq(32, i => i + wild < 32)
  }

  /** make_nw_mask */
  method MakeNwMask(n: Word) returns (mask: Word)
    ensures mask == NwMask(NwWild(n, 0))
  {
    var wild := Val(And(n, Zeros(32 - NW_BITS) + Ones(NW_BITS)));
    LowBits(n);
    if wild < 32 {
      ShiftedOne(wild);
      mask := Not(Less1(Shl(One(), wild)));
    } else {
      mask := Zeros(32);
    }
  }

  lemma LowBits(n: Word)
    ensures Val(And(n, Zeros(32 - NW_BITS) + Ones(NW_BITS))) == NwWild(n, 0)
  {
    var k := 32 - NW_BITS;
    assert And(n, Zeros(k) + Ones(NW_BITS)) == Zeros(k) + n[k..32];
    ValLeadingZeros(k, n[k..32]);
  }

  lemma ShiftedWild(w: Word, shift: nat)
    requires shift + NW_BITS <= 32
    ensures NwWild(Shr(w, shift), 0) == NwWild(w, shift)
  {
    assert Shr(w, shift)[32 - NW_BITS..32] == w[32 - shift - NW_BITS..32 - shift];
  }

  /** A mask compares exactly the leading 32 - `wild` bits. */
  lemma PrefixMask(a: Word, b: Word, wild: nat)
    ensures MaskedEqual(a, b, NwMask(wild)) <==> wild >= 32 || a[..32 - wild] == b[..32 - wild]
  {
    MaskedEqualBits(a, b, NwMask(wild));
    if wild < 32 && a[..32 - wild] == b[..32 - wild] {
      forall i | 0 <= i < 32 && NwMask(wild)[i] ensures a[i] == b[i] {
        assert a[..32 - wild][i] == b[..32 - wild][i];
      }
    }
  }

  /** What flow_extract_match leaves in every table entry: the masks follow from the wildcards. */
  predicate WellFormed(k: Key) {
    && k.head.pad == 0
    && k.nwSrcMask == NwMask(NwWild(k.wildcards, NW_SRC_SHIFT))
    && k.nwDstMask == NwMask(NwWild(k.wildcards, NW_DST_SHIFT))
  }

  predicate Exact(k: Key) { k.wildcards == Zeros(32) }

  lemma {:induction false} ValZeros(n: nat)
    ensures Val(Zeros(n)) == 0
  {
    if n > 0 {
      assert Zeros(n)[1..] == Zeros(n - 1);
      ValZeros(n - 1);
    }
  }

  lemma ExactMasks(k: Key)
    requires WellFormed(k) && Exact(k)
    ensures forall i :: 0 <= i < 32 ==> k.nwSrcMask[i] && k.nwDstMask[i]
  {
    ValZeros(NW_BITS);
    assert Zeros(32)[32 - NW_SRC_SHIFT - NW_BITS..32 - NW_SRC_SHIFT] == Zeros(NW_BITS);
    assert Zeros(32)[32 - NW_DST_SHIFT - NW_BITS..32 - NW_DST_SHIFT] == Zeros(NW_BITS);
  }

  /** An exact entry matches a packet iff their heads and their labels agree. */
  lemma ExactMatch(p: Key, k: Key)
    requires WellFormed(k) && Exact(k) && p.head.pad == 0
    ensures Matches1(p, k) <==> KeysEqual(p, k) && p.mpls1 == k.mpls1 && p.mpls2 == k.mpls2
  {
    ExactMasks(k);
    MaskedEqualBits(p.head.nwSrc, k.head.nwSrc, k.nwSrcMask);
    MaskedEqualBits(p.head.nwDst, k.head.nwDst, k.nwDstMask);
  }

  /** With equal wildcards, overlap is an equivalence: the entry that a new one replaces is the only one of its kind. */
  lemma SameWildcardsTransitive(a: Key, b: Key, c: Key)
    requires WellFormed(a) && WellFormed(b) && WellFormed(c)
    requires a.wildcards == b.wildcards == c.wildcards && Matches2(a, b) && Matches2(b, c)
    ensures Matches2(a, c) && Matches2(b, a)
  {
    MaskedEqualBits(a.head.nwSrc, b.head.nwSrc, And(a.nwSrcMask, b.nwSrcMask));
    MaskedEqualBits(b.head.nwSrc, c.head.nwSrc, And(b.nwSrcMask, c.nwSrcMask));
    MaskedEqualBits(a.head.nwSrc, c.head.nwSrc, And(a.nwSrcMask, c.nwSrcMask));
    MaskedEqualBits(b.head.nwSrc, a.head.nwSrc, And(b.nwSrcMask, a.nwSrcMask));
    MaskedEqualBits(a.head.nwDst, b.head.nwDst, And(a.nwDstMask, b.nwDstMask));
    MaskedEqualBits(b.head.nwDst, c.head.nwDst, And(b.nwDstMask, c.nwDstMask));
    MaskedEqualBits(a.head.nwDst, c.head.nwDst, And(a.nwDstMask, c.nwDstMask));
    MaskedEqualBits(b.head.nwDst, a.head.nwDst, And(b.nwDstMask, a.nwDstMask));
  }

  lemma MatchesSelf(a: Key)
    ensures Matches2(a, a)
  {
    MaskedEqualBits(a.head.nwSrc, a.head.nwSrc, And(a.nwSrcMask, a.nwSrcMask));
    MaskedEqualBits(a.head.nwDst, a.head.nwDst, And(a.nwDstMask, a.nwDstMask));
  }

  // ---------- what wildcards mean ----------

  /** The leading bits of two addresses, less the last `wild`, agree. */
  predicate SamePrefix(a: Word, b: Word, wild: nat) { wild >= 32 || a[..32 - wild] == b[..32 - wild] }

  /** A packet matches an entry if and only if every field agrees whose wildcard bit is clear; the addresses agree up
      to as many trailing bits as the two 6-bit wildcard fields say. Bit 0 of the word stands last. */
  lemma MatchesMeans(p: Key, e: Key)
    requires WellFormed(e)
    ensures var w := e.wildcards;
            Matches1(p, e) <==>
              && (w[31] || p.head.inPort == e.head.inPort)
              && (w[30] || p.head.dlVlan == e.head.dlVlan)
              && (w[29] || p.head.dlSrc == e.head.dlSrc)
              && (w[28] || p.head.dlDst == e.head.dlDst)
              && (w[27] || p.head.dlType == e.head.dlType)
              && (w[26] || p.head.nwProto == e.head.nwProto)
              && (w[25] || p.head.tpSrc == e.head.tpSrc)
              && (w[24] || p.head.tpDst == e.head.tpDst)
              && SamePrefix(p.head.nwSrc, e.head.nwSrc, Val(w[18..24]))
              && SamePrefix(p.head.nwDst, e.head.nwDst, Val(w[12..18]))
              && (w[11] || p.mpls1 == e.mpls1)
              && (w[10] || p.mpls2 == e.mpls2)
  {
    PrefixMask(p.head.nwSrc, e.head.nwSrc, NwWild(e.wildcards, NW_SRC_SHIFT));
    PrefixMask(p.head.nwDst, e.head.nwDst, NwWild(e.wildcards, NW_DST_SHIFT));
  }

  /** A field whose bit is set may be anything, for every entry; one whose bit is clear must be that of the entry. */
  lemma FieldsFreed(p: Key, e: Key, x: nat)
    requires WellFormed(e)
    ensures e.wildcards[31] ==> (Matches1(p.(head := p.head.(inPort := x)), e) <==> Matches1(p, e))
    ensures e.wildcards[30] ==> (Matches1(p.(head := p.head.(dlVlan := x)), e) <==> Matches1(p, e))
    ensures e.wildcards[29] ==> (Matches1(p.(head := p.head.(dlSrc := x)), e) <==> Matches1(p, e))
    ensures e.wildcards[28] ==> (Matches1(p.(head := p.head.(dlDst := x)), e) <==> Matches1(p, e))
    ensures e.wildcards[27] ==> (Matches1(p.(head := p.head.(dlType := x)), e) <==> Matches1(p, e))
    ensures e.wildcards[26] ==> (Matches1(p.(head := p.head.(nwProto := x)), e) <==> Matches1(p, e))
    ensures e.wildcards[25] ==> (Matches1(p.(head := p.head.(tpSrc := x)), e) <==> Matches1(p, e))
    ensures e.wildcards[24] ==> (Matches1(p.(head := p.head.(tpDst := x)), e) <==> Matches1(p, e))
    ensures e.wildcards[11] ==> (Matches1(p.(mpls1 := x), e) <==> Matches1(p, e))
    ensures e.wildcards[10] ==> (Matches1(p.(mpls2 := x), e) <==> Matches1(p, e))
  {
  }

  /** Trailing address bits within the wildcards may be anything. */
  lemma AddressesFreed(p: Key, e: Key, a: Word)
    requires WellFormed(e)
    ensures SamePrefix(p.head.nwSrc, a, Val(e.wildcards[18..24])) ==>
              (Matches1(p.(head := p.head.(nwSrc := a)), e) <==> Matches1(p, e))
    ensures SamePrefix(p.head.nwDst, a, Val(e.wildcards[12..18])) ==>
              (Matches1(p.(head := p.head.(nwDst := a)), e) <==> Matches1(p, e))
  {
    MatchesMeans(p, e);
    MatchesMeans(p.(head := p.head.(nwSrc := a)), e);
    MatchesMeans(p.(head := p.head.(nwDst := a)), e);
  }

  /** The wildcards of `d` take in those of `t`. */
  predicate Wider(d: Key, t: Key) {
    && (forall i :: 10 <= i < 32 && (i < 12 || i >= 24) ==> t.wildcards[i] ==> d.wildcards[i])
    && FreesMore(Val(d.wildcards[18..24]), Val(t.wildcards[18..24]))
    && FreesMore(Val(d.wildcards[12..18]), Val(t.wildcards[12..18]))
  }

  /** From 32 trailing bits on the address may be anything. */
  predicate FreesMore(m: nat, n: nat) { m >= 32 || n <= m }

  lemma PrefixOfPrefix(a: Word, b: Word, m: nat, n: nat)
    requires FreesMore(n, m) && SamePrefix(a, b, m)
    ensures SamePrefix(a, b, n)
  {
    if n < 32 { assert a[..32 - n] == a[..32 - m][..32 - n] && b[..32 - n] == b[..32 - m][..32 - n]; }
  }

  lemma WiderMatches(p: Key, t: Key, d: Key)
    requires WellFormed(t) && WellFormed(d) && Wider(d, t) && Matches1(p, t)
    ensures Matches1(p, d) <==> Matches1(t, d)
  {
    MatchesMeans(p, t);
    MatchesMeans(p, d);
    MatchesMeans(t, d);
    PrefixOfPrefix(p.head.nwSrc, t.head.nwSrc, Val(t.wildcards[18..24]), Val(d.wildcards[18..24]));
    PrefixOfPrefix(p.head.nwDst, t.head.nwDst, Val(t.wildcards[12..18]), Val(d.wildcards[12..18]));
  }

  lemma MatchesItself(t: Key)
    requires WellFormed(t)
    ensures Matches1(t, t)
  {
    MatchesMeans(t, t);
  }

  /** An address that differs in one of the bits that are free with `n` but not with `m`. */
  function Astray(a: Word, m: nat, n: nat): (b: Word)
    ensures !FreesMore(m, n) ==> SamePrefix(b, a, n) && !SamePrefix(b, a, m)
  {
    if FreesMore(m, n) then a
    else
      var b := a[31 - m := !a[31 - m]];
      assert b[..32 - m][31 - m] != a[..32 - m][31 - m];
      b
  }

  function Other(free: bool, x: nat): nat { if free then x + 1 else x }

  /** A packet of `t` outside `d`, if the wildcards of `d` do not take in those of `t`. */
  function Escape(t: Key, d: Key): Key {
    var v, w, h := t.wildcards, d.wildcards, t.head;
    t.(head := Head(
         Astray(h.nwSrc, Val(w[18..24]), Val(v[18..24])), Astray(h.nwDst, Val(w[12..18]), Val(v[12..18])),
         Other(v[31], h.inPort), Other(v[30], h.dlVlan), Other(v[27], h.dlType), Other(v[25], h.tpSrc),
         Other(v[24], h.tpDst), Other(v[29], h.dlSrc), Other(v[28], h.dlDst), Other(v[26], h.nwProto), h.pad),
       mpls1 := Other(v[11], t.mpls1), mpls2 := Other(v[10], t.mpls2))
  }

  lemma Escapes(t: Key, d: Key)
    requires WellFormed(t) && WellFormed(d) && !Wider(d, t) && Matches1(t, d)
    ensures Matches1(Escape(t, d), t) && !Matches1(Escape(t, d), d)
  {
    MatchesMeans(Escape(t, d), t);
    MatchesMeans(Escape(t, d), d);
    MatchesMeans(t, d);
  }

  /** Every packet of an entry is one of the description exactly when the entry matches the description and has no
      wildcard that the description has not. The code looks at the first alone. */
  lemma DescriptionCovers(t: Key, d: Key)
    requires WellFormed(t) && WellFormed(d)
    ensures (forall p: Key :: Matches1(p, t) ==> Matches1(p, d)) <==> MatchesDesc(t, d, false) && Wider(d, t)
  {
    MatchesItself(t);
    if Wider(d, t) {
      forall p: Key | Matches1(p, t) ensures Matches1(p, d) <==> Matches1(t, d) {
        WiderMatches(p, t, d);
      }
    } else if Matches1(t, d) {
      Escapes(t, d);
    }
  }

  /** A strict description covers the entries that have its wildcards and match the same packets. */
  lemma StrictDescription(t: Key, d: Key)
    requires WellFormed(t) && WellFormed(d)
    ensures MatchesDesc(t, d, true) <==>
              t.wildcards == d.wildcards && forall p: Key :: Matches1(p, t) <==> Matches1(p, d)
  {
    if t.wildcards == d.wildcards {
      MatchesItself(t);
      MatchesItself(d);
      forall p: Key | Matches1(t, d) ensures Matches1(p, t) <==> Matches1(p, d) {
        SameMatches(p, t, d);
      }
    }
  }

  lemma SameMatches(p: Key, t: Key, d: Key)
    requires WellFormed(t) && WellFormed(d) && t.wildcards == d.wildcards && Matches1(t, d)
    ensures Matches1(p, t) <==> Matches1(p, d)
  {
    MatchesMeans(p, t);
    MatchesMeans(p, d);
    MatchesMeans(t, d);
  }

  /** A description with every known bit set covers everything. */
  lemma EverythingMatches(t: Key, d: Key)
    requires WellFormed(d) && forall i :: 10 <= i < 32 ==> d.wildcards[i]
    ensures MatchesDesc(t, d, false)
  {
    MatchesMeans(t, d);
    AllWild(d.wildcards[18..24]);
    AllWild(d.wildcards[12..18]);
  }

  lemma AllWild(b: Bits)
    requires |b| == 6 && forall i :: 0 <= i < 6 ==> b[i]
    ensures Val(b) >= 32
  {
    assert b[0] && Pow2(5) == 32;
  }

  // ---------- hashing ----------

  function Bytes(bits: Bits): seq<Byte>
    requires |bits| % 8 == 0
  {
    seq(|bits| / 8, i requires 0 <= i < |bits| / 8 => bits[8 * i..8 * i + 8])
  }

  function HeadBits(h: Head): Bits {
    h.nwSrc + h.nwDst + FromNat(h.inPort, 16) + FromNat(h.dlVlan, 16) + FromNat(h.dlType, 16)
    + FromNat(h.tpSrc, 16) + FromNat(h.tpDst, 16) + FromNat(h.dlSrc, 48) + FromNat(h.dlDst, 48)
    + FromNat(h.nwProto, 8) + FromNat(h.pad, 8)
  }

  /** The bytes of a key that are hashed. */
  function HeadBytes(h: Head): seq<Byte> { Bytes(HeadBits(h)) }

  /** The fields are as wide as in the program. */
  predicate InRange(h: Head) {
    && h.inPort < Pow2(16) && h.dlVlan < Pow2(16) && h.dlType < Pow2(16) && h.tpSrc < Pow2(16) && h.tpDst < Pow2(16)
    && h.dlSrc < Pow2(48) && h.dlDst < Pow2(48) && h.nwProto < Pow2(8) && h.pad < Pow2(8)
  }

  lemma BytesDiffer(a: Bits, b: Bits)
    requires |a| == |b| && |a| % 8 == 0 && Bytes(a) == Bytes(b)
    ensures a == b
  {
    forall i | 0 <= i < |a| ensures a[i] == b[i] {
      assert Bytes(a)[i / 8][i % 8] == Bytes(b)[i / 8][i % 8];
    }
  }

  lemma SplitLast(a: Bits, x: Bits, b: Bits, y: Bits)
    requires |x| == |y| && a + x == b + y
    ensures a == b && x == y
  {
    assert |a| == |b| && (a + x)[..|a|] == a && (b + y)[..|b|] == b && (a + x)[|a|..] == x && (b + y)[|b|..] == y;
  }

  lemma SplitLastNat(a: Bits, v: nat, b: Bits, w: nat, n: nat)
    requires v < Pow2(n) && w < Pow2(n) && a + FromNat(v, n) == b + FromNat(w, n)
    ensures a == b && v == w
  {
    SplitLast(a, FromNat(v, n), b, FromNat(w, n));
    ValFrom(v, n);
    ValFrom(w, n);
  }

  /** All of the head is hashed: 32 bytes that no other head has. */
  lemma HeadBytesDiffer(g: Head, h: Head)
    ensures |HeadBytes(h)| == 32
    ensures InRange(g) && InRange(h) && HeadBytes(g) == HeadBytes(h) ==> g == h
  {
    if InRange(g) && InRange(h) && HeadBytes(g) == HeadBytes(h) {
      BytesDiffer(HeadBits(g), HeadBits(h));
      var a1, b1 := g.nwSrc + g.nwDst, h.nwSrc + h.nwDst;
      var a2, b2 := a1 + FromNat(g.inPort, 16), b1 + FromNat(h.inPort, 16);
      var a3, b3 := a2 + FromNat(g.dlVlan, 16), b2 + FromNat(h.dlVlan, 16);
      var a4, b4 := a3 + FromNat(g.dlType, 16), b3 + FromNat(h.dlType, 16);
      var a5, b5 := a4 + FromNat(g.tpSrc, 16), b4 + FromNat(h.tpSrc, 16);
      var a6, b6 := a5 + FromNat(g.tpDst, 16), b5 + FromNat(h.tpDst, 16);
      var a7, b7 := a6 + FromNat(g.dlSrc, 48), b6 + FromNat(h.dlSrc, 48);
      var a8, b8 := a7 + FromNat(g.dlDst, 48), b7 + FromNat(h.dlDst, 48);
      var a9, b9 := a8 + FromNat(g.nwProto, 8), b8 + FromNat(h.nwProto, 8);
      SplitLastNat(a9, g.pad, b9, h.pad, 8);
      SplitLastNat(a8, g.nwProto, b8, h.nwProto, 8);
      SplitLastNat(a7, g.dlDst, b7, h.dlDst, 48);
      SplitLastNat(a6, g.dlSrc, b6, h.dlSrc, 48);
      SplitLastNat(a5, g.tpDst, b5, h.tpDst, 16);
      SplitLastNat(a4, g.tpSrc, b4, h.tpSrc, 16);
      SplitLastNat(a3, g.dlType, b3, h.dlType, 16);
      SplitLastNat(a2, g.dlVlan, b2, h.dlVlan, 16);
      SplitLastNat(a1, g.inPort, b1, h.inPort, 16);
      SplitLast(g.nwSrc, g.nwDst, h.nwSrc, h.nwDst);
    }
  }

  // ---------- keys from messages ----------

  const OFPFW_ALL_BITS := 22
  const MPLS_INVALID_LABEL := 0xffffffff
  const ETH_P_IP := 0x0800
  const ETH_TYPE_MPLS_UNICAST := 0x8847
  const IPPROTO_ICMP := 1
  const IPPROTO_TCP := 6
  const IPPROTO_UDP := 17

  /** A match as it comes in a message: a wildcard word, labels and the header fields. */
  datatype Match = Match(wildcards: Word, mpls1: nat, mpls2: nat, fields: Head)

  /** `n` bits from bit number `lo` on set to `b`. */
  function PutBits(w: Word, lo: nat, n: nat, b: bool): Word {
    seq(32, i requires 0 <= i < 32 => if lo <= 31 - i < lo + n then b else w[i])
  }

  function Flip(w: Word, bit: nat): Word
    requires bit < 32
  {
    w[31 - bit := !w[31 - bit]]
  }

  /** OFPFW_NW and OFPFW_TP */
  function PutNw(w: Word, b: bool): Word { PutBits(PutBits(w, NW_SRC_SHIFT, 2 * NW_BITS, b), NW_PROTO, 1, b) }

  function PutTp(w: Word, b: bool): Word { PutBits(w, TP_SRC, 2, b) }

  predicate TpWild(w: Word, b: bool) { Flag(w, TP_SRC) == b && Flag(w, TP_DST) == b }

  predicate NwAll(w: Word, b: bool) {
    Flag(w, NW_PROTO) == b && forall k {:trigger Flag(w, k)} :: NW_SRC_SHIFT <= k < NW_SRC_SHIFT + 2 * NW_BITS ==>
        Flag(w, k) == b
  }

  predicate HasNetwork(k: Head) { k.dlType == ETH_P_IP || k.dlType == ETH_TYPE_MPLS_UNICAST }

  predicate HasPorts(k: Head) { k.nwProto == IPPROTO_TCP || k.nwProto == IPPROTO_UDP || k.nwProto == IPPROTO_ICMP }

  /** No key is left half-way: fields whose layer is unknown are wildcarded, fields of layers that the packet does
      not have are exact, so that the entry can be hashed; either way they are zero. */
  predicate Sensible(w: Word, h: Head) {
    var network := !Flag(w, DL_TYPE) && HasNetwork(h);
    && (Flag(w, DL_TYPE) ==> NwAll(w, true) && TpWild(w, true) && Flag(w, MPLS_L1) && Flag(w, MPLS_L2))
    && (!Flag(w, DL_TYPE) && !HasNetwork(h) ==> NwAll(w, false) && TpWild(w, false))
    && (!network ==> h.nwSrc == Zeros(32) && h.nwDst == Zeros(32) && h.nwProto == 0)
    && (network && Flag(w, NW_PROTO) ==> TpWild(w, true))
    && (network && !Flag(w, NW_PROTO) && !HasPorts(h) ==> TpWild(w, false))
    && (!(network && !Flag(w, NW_PROTO) && HasPorts(h)) ==> h.tpSrc == 0 && h.tpDst == 0)
  }

  /** The known wildcard bits, with those of labels that are not there inverted. */
  method KnownBits(from: Match) returns (w: Word)
    ensures forall i :: 31 - MPLS_L1 < i < 32 ==> w[i] == from.wildcards[i]
    ensures forall i :: 0 <= i < 32 - OFPFW_ALL_BITS ==> !w[i]
    ensures Flag(w, MPLS_L1) != Flag(from.wildcards, MPLS_L1) <==> from.mpls1 == MPLS_INVALID_LABEL
    ensures Flag(w, MPLS_L2) != Flag(from.wildcards, MPLS_L2) <==>
              from.mpls1 == MPLS_INVALID_LABEL && from.mpls2 == MPLS_INVALID_LABEL
  {
    w := PutBits(from.wildcards, OFPFW_ALL_BITS, 32 - OFPFW_ALL_BITS, false);
    if from.mpls1 == MPLS_INVALID_LABEL {
      w := Flip(w, MPLS_L1);
      if from.mpls2 == MPLS_INVALID_LABEL {
        w := Flip(w, MPLS_L2);
      }
    }
  }

  /** The masks, set last since the wildcards change before. */
  method WithMasks(h: Head, w: Word, from: Match) returns (to: Key)
    requires h.pad == 0
    ensures to.head == h && to.wildcards == w && to.mpls1 == from.mpls1 && to.mpls2 == from.mpls2 && WellFormed(to)
  {
    var src := MakeNwMask(Shr(w, NW_SRC_SHIFT));
    var dst := MakeNwMask(Shr(w, NW_DST_SHIFT));
    ShiftedWild(w, NW_SRC_SHIFT);
    ShiftedWild(w, NW_DST_SHIFT);
    to := Key(h, w, src, dst, from.mpls1, from.mpls2);
  }

  /** What is known of a message: its network layer, its transport protocol, its ports. The numbers are those of
      the wildcard bits, of Ethernet types and of IP protocols. */
  predicate KnowsNetwork(v: Word, f: Head) { !v[27] && (f.dlType == 0x0800 || f.dlType == 0x8847) }

  predicate KnowsPorts(v: Word, f: Head) {
    KnowsNetwork(v, f) && !v[26] && (f.nwProto == 1 || f.nwProto == 6 || f.nwProto == 17)
  }

  /** The fields of an extracted key: those of layers that are not known are zero. */
  predicate ExtractedFields(v: Word, f: Head, h: Head) {
    && h.inPort == f.inPort && h.dlVlan == f.dlVlan && h.dlType == f.dlType
    && h.dlSrc == f.dlSrc && h.dlDst == f.dlDst && h.pad == 0
    && (if KnowsNetwork(v, f) then h.nwSrc == f.nwSrc && h.nwDst == f.nwDst && h.nwProto == f.nwProto
        else h.nwSrc == Zeros(32) && h.nwDst == Zeros(32) && h.nwProto == 0)
    && if KnowsPorts(v, f) then h.tpSrc == f.tpSrc && h.tpDst == f.tpDst else h.tpSrc == 0 && h.tpDst == 0
  }

  /** The wildcards `w` of an extracted key, from those of the message, bit by bit. */
  predicate ExtractedBits(v: Word, f: Head, w: Word) {
    && (forall i :: 27 <= i < 32 ==> w[i] == v[i])
    && w[26] == (if v[27] then true else KnowsNetwork(v, f) && v[26])
    && (forall i :: 12 <= i < 24 ==> w[i] == if v[27] then true else KnowsNetwork(v, f) && v[i])
    && (forall i :: 24 <= i < 26 ==>
          w[i] == if v[27] || (KnowsNetwork(v, f) && v[26]) then true else KnowsPorts(v, f) && v[i])
  }

  /** The part of flow_extract_match that settles which layers are known, from the known wildcard bits `w0`. */
  method Layers(f: Head, w0: Word) returns (h: Head, w: Word)
    ensures Sensible(w, h) && ExtractedFields(w0, f, h) && ExtractedBits(w0, f, w)
    ensures w[11] == (w0[27] || w0[11]) && w[10] == (w0[27] || w0[10])
    ensures forall i :: 0 <= i < 10 ==> w[i] == w0[i]
  {
    w := w0;
    h := f.(nwSrc := Zeros(32), nwDst := Zeros(32), nwProto := 0, tpSrc := 0, tpDst := 0, pad := 0);
    if Flag(w, DL_TYPE) {
      w := PutBits(PutTp(PutNw(w, true), true), MPLS_L1, 2, true);
    } else if HasNetwork(f) {
      h := h.(nwSrc := f.nwSrc, nwDst := f.nwDst, nwProto := f.nwProto);
      if Flag(w, NW_PROTO) {
        w := PutTp(w, true);
      } else if HasPorts(f) {
        h := h.(tpSrc := f.tpSrc, tpDst := f.tpDst);
      } else {
        w := PutTp(w, false);
      }
    } else {
      w := PutTp(PutNw(w, false), false);
    }
  }

  /** What flow_extract_match makes of a message, all of it: the flag of label 1 is inverted when there is no label,
      that of label 2 when there is neither, and unknown bits are cleared. */
  predicate Extracted(from: Match, to: Key) {
    && ExtractedFields(from.wildcards, from.fields, to.head) && ExtractedBits(from.wildcards, from.fields, to.wildcards)
    && to.mpls1 == from.mpls1 && to.mpls2 == from.mpls2
    && to.wildcards[11] == (from.wildcards[27] || from.wildcards[11] != (from.mpls1 == 0xffff_ffff))
    && to.wildcards[10] == (from.wildcards[27] ||
                            from.wildcards[10] != (from.mpls1 == 0xffff_ffff && from.mpls2 == 0xffff_ffff))
    && forall i :: 0 <= i < 10 ==> !to.wildcards[i]
  }

  /** flow_extract_match */
  method ExtractMatch(from: Match) returns (to: Key)
    ensures WellFormed(to) && Sensible(to.wildcards, to.head) && Extracted(from, to)
  {
    var w := KnownBits(from);
    var h;
    ghost var w0 := w;
    h, w := Layers(from.fields, w);
    assert KnowsNetwork(w0, from.fields) == KnowsNetwork(from.wildcards, from.fields);
    to := WithMasks(h, w, from);
  }
}
