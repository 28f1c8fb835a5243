/** Incremental checksums of dp_act.c: update_csum, set_nw_addr and set_tp_port, in one's complement arithmetic. */
module Checksum {
  const M := 0xffff
  const W32 := 0x1_0000_0000

  type Word16 = w: int | 0 <= w < 0x10000 witness 0
  type Word32 = w: int | 0 <= w < W32 witness 0

  /** Multiples of 2^16 - 1. */
  function Times(k: int): int { M * k }

  /** Equality modulo 2^16 - 1. */
  ghost predicate Same(a: int, b: int) { exists k :: a - b == Times(k) }

  lemma SameIs(a: int, b: int, k: int)
    requires a - b == M * k
    ensures Same(a, b)
  {
    assert a - b == Times(k);
  }

  /** Sums and differences of equal numbers are equal. */
  lemma SameSum(a: int, b: int, c: int, d: int)
    requires Same(a, b) && Same(c, d)
    ensures Same(a + c, b + d) && Same(a - c, b - d)
  {
    var k :| a - b == Times(k);
    var l :| c - d == Times(l);
    SameIs(a + c, b + d, k + l);
    SameIs(a - c, b - d, k - l);
  }

  /** Equality is a matter of the difference alone. */
  lemma SameShift(a: int, b: int, c: int, d: int)
    requires Same(a, b) && (a - b == c - d || a - b == d - c)
    ensures Same(c, d)
  {
    var k :| a - b == Times(k);
    SameIs(c, d, if a - b == c - d then k else -k);
  }

  lemma SameTransitive(a: int, b: int, c: int)
    requires Same(a, b) && Same(b, c)
    ensures Same(a, c)
  {
    SameSum(a, b, b, c);
    SameShift(a + b, b + c, a, c);
  }

  function Sum(ws: seq<Word16>): nat {
    if ws == [] then 0 else Sum(ws[..|ws| - 1]) + ws[|ws| - 1]
  }

  /** 16-bit one's complement reduction of a sum: 0 only for 0, otherwise the residue in 1..0xffff. */
  function Reduce(s: nat): (r: Word16)
    ensures r <= M && (r == 0 <==> s == 0)
  {
    if s == 0 then 0 else if s % M == 0 then M else s % M
  }

  lemma ReduceSame(s: nat)
    ensures Same(s, Reduce(s))
  {
    SameIs(s, Reduce(s), if s > 0 && s % M == 0 then s / M - 1 else s / M);
  }

  /** Only one number from 1 to 2^16 - 1 is the same as a positive one. */
  lemma ReduceOnly(s: nat, r: int)
    requires s > 0 && 0 < r <= M && Same(s, r)
    ensures Reduce(s) == r
  {
    ReduceSame(s);
    SameShift(s, r, r, s);
    SameTransitive(r, s, Reduce(s));
    var k :| r - Reduce(s) == Times(k);
    assert -1 < k < 1;
  }

  lemma ReduceIsAllOnes(v: nat)
    ensures Reduce(v) == M <==> v > 0 && Same(v, 0)
  {
    ReduceSame(v);
    SameIs(M, 0, 1);
    SameIs(0, M, -1);
    if Reduce(v) == M { SameTransitive(v, M, 0); }
    if v > 0 && Same(v, 0) {
      SameTransitive(v, 0, M);
      ReduceOnly(v, M);
    }
  }

  /** A receiver accepts words whose sum, their checksum included, reduces to all ones. */
  predicate Verifies(ws: seq<Word16>) { Reduce(Sum(ws)) == M }

  // ---------- csum_partial and csum_fold ----------

  function Not32(w: Word32): Word32 { W32 - 1 - w }

  /** 32-bit addition with end-around carry. */
  function Add32(a: Word32, b: Word32): (c: Word32)
  {
    if a + b >= W32 then a + b - W32 + 1 else a + b
  }

  lemma Add32Residue(a: Word32, b: Word32)
    ensures Same(Add32(a, b), a as int + b) && (Add32(a, b) == 0 <==> a == 0 && b == 0)
  {
    SameIs(Add32(a, b), a as int + b, if a + b >= W32 then -0x10001 else 0);
  }

  /** csum_partial over the two words that update_csum builds. */
  function Partial(from: Word32, to: Word32, sum: Word32): Word32 {
    Add32(Add32(sum, Not32(from)), to)
  }

  /** csum_fold: adds the halves twice and complements. */
  function Fold(w: Word32): Word16 {
    var s := w / 0x10000 + w % 0x10000;
    var t := s / 0x10000 + s % 0x10000;
    M - t
  }

  lemma FoldIsReduce(w: Word32)
    ensures Fold(w) == M - Reduce(w)
  {
    var p: int, q: int := w / 0x10000, w % 0x10000;
    var s: int := p + q;
    var x: int, y: int := s / 0x10000, s % 0x10000;
    assert w == 0x10000 * p + q && s == 0x10000 * x + y;
    SameIs(w, x + y, p + x);
    if w > 0 { ReduceOnly(w, x + y); }
  }

  /** update_csum, outside CHECKSUM_PARTIAL */
  function UpdateCsum(sum: Word16, from: Word32, to: Word32): Word16 {
    Fold(Partial(from, to, Not32(sum)))
  }

  /** The sum that is folded, before it is. */
  lemma PartialResidue(sum: Word16, from: Word32, to: Word32)
    ensures Same(Partial(from, to, Not32(sum)), to - from - sum) && Partial(from, to, Not32(sum)) > 0
  {
    var a: int, b: int := Not32(sum), Not32(from);
    var s, v := Add32(Not32(sum), Not32(from)), Partial(from, to, Not32(sum));
    Add32Residue(Not32(sum), Not32(from));
    Add32Residue(s, to);
    SameIs(to, to, 0);
    SameSum(s, a + b, to, to);
    SameTransitive(v, s as int + to, a + b + to);
    SameIs(a + b + to, to - from - sum, 0x20002);
    SameTransitive(v, a + b + to, to - from - sum);
  }

  /** The new checksum makes up for the change from `from` to `to`. */
  lemma UpdateResidue(sum: Word16, from: Word32, to: Word32)
    ensures Same(UpdateCsum(sum, from, to) + to, sum + from)
  {
    var v: int := Partial(from, to, Not32(sum));
    PartialResidue(sum, from, to);
    FoldIsReduce(Partial(from, to, Not32(sum)));
    ReduceSame(v);
    SameShift(v, to - from - sum, to - from - sum, v);
    SameTransitive(to - from - sum, v, Reduce(v));
    SameIs(M, 0, 1);
    SameSum(to - from - sum, Reduce(v), M, 0);
    SameShift(to - from - sum + M, Reduce(v) + 0, M - Reduce(v) + to, sum + from);
  }

  /** The new checksum is zero exactly when the old one and the old field make up the new field. */
  lemma UpdateIsZero(sum: Word16, from: Word32, to: Word32)
    ensures UpdateCsum(sum, from, to) == 0 <==> Same(sum + from, to)
  {
    var v: int, d: int := Partial(from, to, Not32(sum)), to - from - sum;
    PartialResidue(sum, from, to);
    FoldIsReduce(Partial(from, to, Not32(sum)));
    ReduceIsAllOnes(v);
    if Same(v, 0) {
      SameShift(v, d, d, v);
      SameTransitive(d, v, 0);
      SameShift(d, 0, sum + from, to);
    }
    if Same(sum + from, to) {
      SameShift(sum + from, to, d, 0);
      SameTransitive(v, d, 0);
    }
  }

  function Lo(v: Word32): Word16 { v % 0x10000 }

  function Hi(v: Word32): Word16 { v / 0x10000 }

  function Value(lo: Word16, hi: Word16): Word32 { lo + 0x10000 * hi }

  lemma HalvesResidue(lo: Word16, hi: Word16)
    ensures Same(Value(lo, hi), lo as int + hi)
  {
    SameIs(Value(lo, hi), lo as int + hi, hi);
  }

  lemma {:induction false} SumUpdate(ws: seq<Word16>, i: nat, x: Word16)
    requires i < |ws|
    ensures Sum(ws[i := x]) == Sum(ws) - ws[i] + x
  {
    var n := |ws| - 1;
    if i == n {
      assert ws[i := x][..n] == ws[..n];
    } else {
      assert ws[i := x][..n] == ws[..n][i := x];
      SumUpdate(ws[..n], i, x);
    }
  }

  lemma {:induction false} SumAtLeast(ws: seq<Word16>, i: nat)
    requires i < |ws|
    ensures Sum(ws) >= ws[i]
  {
    if i < |ws| - 1 { SumAtLeast(ws[..|ws| - 1], i); }
  }

  lemma {:induction false} SumConcat(a: seq<Word16>, b: seq<Word16>)
    ensures Sum(a + b) == Sum(a) + Sum(b)
  {
    if b == [] {
      assert a + b == a;
    } else {
      assert (a + b)[..|a + b| - 1] == a + b[..|b| - 1];
      SumConcat(a, b[..|b| - 1]);
    }
  }

  /** Words whose sums agree modulo 2^16 - 1 verify alike, if neither sum is zero. */
  lemma VerifyAlike(a: seq<Word16>, b: seq<Word16>)
    requires Same(Sum(a), Sum(b)) && Sum(a) > 0 && Sum(b) > 0
    ensures Verifies(a) <==> Verifies(b)
  {
    var x, y := Sum(a), Sum(b);
    ReduceIsAllOnes(x);
    ReduceIsAllOnes(y);
    SameShift(x, y, y, x);
    if Same(y, 0) { SameTransitive(x, y, 0); }
    if Same(x, 0) { SameTransitive(y, x, 0); }
  }

  /** The words with the 32-bit field at `i` set. */
  function Put32(ws: seq<Word16>, i: nat, v: Word32): (r: seq<Word16>)
    requires i + 1 < |ws|
    ensures |r| == |ws|
  {
    ws[i := Lo(v)][i + 1 := Hi(v)]
  }

  function Get32(ws: seq<Word16>, i: nat): Word32
    requires i + 1 < |ws|
  {
    Value(ws[i], ws[i + 1])
  }

  lemma HalvesBack(v: Word32)
    ensures Value(Lo(v), Hi(v)) == v
  {
  }

  lemma HalvesSum(ws: seq<Word16>, i: nat, lo: Word16, hi: Word16, v: Word32, from: Word32, sum: nat)
    requires i + 1 < |ws| && Value(lo, hi) == v && Value(ws[i], ws[i + 1]) == from
    requires sum == Sum(ws[i := lo][i + 1 := hi])
    ensures Same(sum + from, Sum(ws) + v)
  {
    SumUpdate(ws, i, lo);
    SumUpdate(ws[i := lo], i + 1, hi);
    HalvesResidue(lo, hi);
    HalvesResidue(ws[i], ws[i + 1]);
    var a: int, b: int, c: int, d: int := ws[i], ws[i + 1], lo, hi;
    SameSum(from, a + b, v, c + d);
    SameShift(from - v, (a + b) - (c + d), sum + from, Sum(ws) + v);
  }

  lemma Put32Sum(ws: seq<Word16>, i: nat, v: Word32, from: Word32, changed: nat)
    requires i + 1 < |ws| && from == Get32(ws, i) && changed == Sum(Put32(ws, i, v))
    ensures Same(changed + from, Sum(ws) + v)
  {
    HalvesBack(v);
    HalvesSum(ws, i, Lo(v), Hi(v), v, from, changed);
  }

  /** A changed field and the checksum updated for it cancel out. */
  lemma Cancel(whole: int, changed: int, from: int, to: int, check: int, fixed: int)
    requires Same(changed + from, whole + to) && Same(fixed + to, check + from)
    ensures Same(changed - check + fixed, whole)
  {
    SameSum(changed + from, whole + to, fixed + to, check + from);
    SameShift(changed + from + (fixed + to), whole + to + (check + from), changed - check + fixed, whole);
  }

  /** The field and the checksum among the same words. */
  lemma FieldAndCheck(ws: seq<Word16>, i: nat, v: Word32, c: nat, fixed: Word16)
    requires i + 1 < |ws| && c < |ws| && c != i && c != i + 1 && Same(fixed + v, ws[c] + Get32(ws, i))
    ensures Same(Sum(Put32(ws, i, v)[c := fixed]), Sum(ws))
  {
    Put32Sum(ws, i, v, Get32(ws, i), Sum(Put32(ws, i, v)));
    SumUpdate(Put32(ws, i, v), c, fixed);
    Cancel(Sum(ws), Sum(Put32(ws, i, v)), Get32(ws, i), v, ws[c], fixed);
  }

  /** The field in the pseudo-header, the checksum in the segment. */
  lemma PseudoAndCheck(pseudo: seq<Word16>, i: nat, v: Word32, l4: seq<Word16>, c: nat, fixed: Word16,
                       from: Word32, after: int, before: int)
    requires i + 1 < |pseudo| && c < |l4| && from == Get32(pseudo, i) && Same(fixed + v, l4[c] + from)
    requires after == Sum(Put32(pseudo, i, v) + l4[c := fixed]) && before == Sum(pseudo + l4)
    ensures Same(after, before)
  {
    var changed, was: int, now: int := Sum(Put32(pseudo, i, v)), l4[c], fixed;
    Put32Sum(pseudo, i, v, from, changed);
    SumUpdate(l4, c, fixed);
    SumConcat(pseudo, l4);
    SumConcat(Put32(pseudo, i, v), l4[c := fixed]);
    Cancel(Sum(pseudo), changed, from, v, was, now);
    SameShift(changed - was + now, Sum(pseudo), after, before);
  }

  /** A 16-bit port, widened to 32 bits for the update. */
  lemma PortAndCheck(pseudo: seq<Word16>, l4: seq<Word16>, i: nat, v: Word16, c: nat, fixed: Word16)
    requires i < |l4| && c < |l4| && c != i && Same(fixed as int + v, l4[c] as int + l4[i])
    ensures Same(Sum(pseudo + l4[c := fixed][i := v]), Sum(pseudo + l4))
  {
    SumUpdate(l4, c, fixed);
    SumUpdate(l4[c := fixed], i, v);
    SumConcat(pseudo, l4);
    SumConcat(pseudo, l4[c := fixed][i := v]);
    SameShift(fixed as int + v, l4[c] as int + l4[i], Sum(pseudo + l4[c := fixed][i := v]), Sum(pseudo + l4));
  }

  function Field(src: bool): nat { if src then SADDR else DADDR }

  datatype FlowKey = FlowKey(ethIp: bool, nwProto: nat)

  const TCP := 6
  const UDP := 17
  const IP_CHECK := 5
  const SADDR := 6
  const DADDR := 8
  const TCP_CHECK := 8
  const UDP_CHECK := 3

  /** An IPv4 header and what follows it, as the 16-bit words in memory. */
  class Datagram {
    var ip: seq<Word16>
    var l4: seq<Word16>
    // The two words of the pseudo-header that are not addresses.
    const protoWord: Word16
    const lenWord: Word16

    predicate Valid(key: FlowKey)
      reads this
    {
      |ip| >= 10 && ip[0] > 0 && protoWord > 0 && (HasTransport(key) ==> |l4| > Check(key))
    }

    function Check(key: FlowKey): nat { if key.nwProto == TCP then TCP_CHECK else UDP_CHECK }

    /** What the TCP or UDP checksum covers. */
    function Covered(): seq<Word16>
      requires |ip| >= 10
      reads this
    {
      Pseudo(ip) + l4
    }

    function Pseudo(ip: seq<Word16>): seq<Word16>
      requires |ip| >= 10
    {
      ip[SADDR..10] + [protoWord, lenWord]
    }

    predicate HasTransport(key: FlowKey) { key.nwProto == TCP || key.nwProto == UDP }

    lemma NeverZero(key: FlowKey)
      requires Valid(key)
      ensures Sum(ip) > 0 && Sum(Covered()) > 0
    {
      SumAtLeast(ip, 0);
      assert Covered()[4] == protoWord;
      SumAtLeast(Covered(), 4);
    }

    lemma AddressSum(ip: seq<Word16>, f: nat, addr: Word32, check: Word16)
      requires |ip| >= 10 && (f == SADDR || f == DADDR) && Same(check + addr, ip[IP_CHECK] + Get32(ip, f))
      ensures Same(Sum(Put32(ip, f, addr)[IP_CHECK := check]), Sum(ip))
    {
      FieldAndCheck(ip, f, addr, IP_CHECK, check);
    }

    /** The pseudo-header follows the address and not the header checksum. */
    lemma PseudoOfPut(ip: seq<Word16>, f: nat, addr: Word32, check: Word16)
      requires |ip| >= 10 && (f == SADDR || f == DADDR)
      ensures Get32(Pseudo(ip), f - SADDR) == Get32(ip, f)
      ensures Pseudo(Put32(ip, f, addr)[IP_CHECK := check]) == Put32(Pseudo(ip), f - SADDR, addr)
    {
    }

    /** `after` and `before` are what the transport checksum covers, summed up. */
    lemma TransportSum(ip: seq<Word16>, l4: seq<Word16>, f: nat, addr: Word32, check: Word16, c: nat, check4: Word16,
                       from: Word32, after: int, before: int)
      requires |ip| >= 10 && (f == SADDR || f == DADDR) && c < |l4|
      requires from == Get32(ip, f) && Same(check4 + addr, l4[c] + from)
      requires after == Sum(Pseudo(Put32(ip, f, addr)[IP_CHECK := check]) + l4[c := check4])
      requires before == Sum(Pseudo(ip) + l4)
      ensures Same(after, before)
    {
      PseudoOfPut(ip, f, addr, check);
      PseudoAndCheck(Pseudo(ip), f - SADDR, addr, l4, c, check4, from, after, before);
    }

    /** The writes of set_nw_addr. */
    method RewriteAddress(key: FlowKey, f: nat, addr: Word32) returns (ghost check: Word16, ghost check4: Word16)
      requires Valid(key) && (f == SADDR || f == DADDR)
      modifies this
      ensures ip == Put32(old(ip), f, addr)[IP_CHECK := check]
              && Same(check + addr, old(ip)[IP_CHECK] + Get32(old(ip), f))
      ensures l4 == if HasTransport(key) then old(l4)[Check(key) := check4] else old(l4)
      ensures HasTransport(key) ==> Same(check4 + addr, old(l4)[Check(key)] + Get32(old(ip), f))
      ensures HasTransport(key) ==> (check4 == 0 <==> Same(old(l4)[Check(key)] + Get32(old(ip), f), addr))
    {
      var from := Get32(ip, f);
      check := UpdateCsum(ip[IP_CHECK], from, addr);
      check4 := 0;
      UpdateResidue(ip[IP_CHECK], from, addr);
      if HasTransport(key) {
        check4 := UpdateCsum(l4[Check(key)], from, addr);
        UpdateResidue(l4[Check(key)], from, addr);
        UpdateIsZero(l4[Check(key)], from, addr);
      }
      if key.nwProto == TCP {
        l4 := l4[TCP_CHECK := UpdateCsum(l4[TCP_CHECK], from, addr)];
      } else if key.nwProto == UDP {
        l4 := l4[UDP_CHECK := UpdateCsum(l4[UDP_CHECK], from, addr)];
      }
      ip := ip[IP_CHECK := UpdateCsum(ip[IP_CHECK], from, addr)];
      ip := Put32(ip, f, addr);
    }

    /** set_nw_addr: the header checksum verifies after if and only if it did before, and so does the transport
        checksum. A UDP datagram is accepted after exactly when its words verified before, or the old field and
        checksum happen to make up the new address: so one without checksum is spoilt by most changes. */
    method SetNwAddr(key: FlowKey, src: bool, addr: Word32)
      requires Valid(key)
      modifies this
      ensures Valid(key)
      ensures var w := if src then 6 else 8;
              if key.ethIp then ip[w] as int + 0x10000 * (ip[w + 1] as int) == addr else ip == old(ip) && l4 == old(l4)
      ensures |ip| == |old(ip)| && |l4| == |old(l4)| && (key.nwProto != 6 && key.nwProto != 17 ==> l4 == old(l4))
      ensures forall k :: 0 <= k < |ip| && k != 5 && k != (if src then 6 else 8) && k != (if src then 7 else 9) ==>
              ip[k] == old(ip)[k]
      ensures forall k :: 0 <= k < |l4| && k != (if key.nwProto == 6 then 8 else 3) ==> l4[k] == old(l4)[k]
      ensures key.ethIp ==> Same(Sum(ip), old(Sum(ip)))
      ensures key.ethIp && (key.nwProto == 6 || key.nwProto == 17) ==> Same(Sum(Covered()), old(Sum(Covered())))
      ensures Verifies(ip) <==> old(Verifies(ip))
      ensures HasTransport(key) ==> (Verifies(Covered()) <==> old(Verifies(Covered())))
      ensures key.ethIp && key.nwProto == UDP ==>
                (UdpAccepts(Pseudo(ip), l4) <==>
                   old(Verifies(Covered())) || Same(old(l4)[UDP_CHECK] + Get32(old(ip), Field(src)), addr))
    {
      if !key.ethIp {
        return;
      }
      NeverZero(key);
      ghost var was, was4, covered := ip, l4, Covered();
      ghost var check, check4 := RewriteAddress(key, Field(src), addr);
      AddressSum(was, Field(src), addr, check);
      NeverZero(key);
      VerifyAlike(ip, was);
      if HasTransport(key) {
        TransportSum(was, was4, Field(src), addr, check, Check(key), check4, Get32(was, Field(src)),
                     Sum(Covered()), Sum(covered));
        VerifyAlike(Covered(), covered);
      }
    }

    /** set_tp_port */
    method SetTpPort(key: FlowKey, src: bool, port: Word16)
      requires Valid(key)
      modifies this`l4
      ensures Valid(key) && |l4| == |old(l4)|
      ensures if key.ethIp && (key.nwProto == 6 || key.nwProto == 17)
              then l4[if src then 0 else 1] == port && Same(Sum(Covered()), old(Sum(Covered()))) else l4 == old(l4)
      ensures forall k :: 0 <= k < |l4| && k != (if key.nwProto == 6 then 8 else 3) && k != (if src then 0 else 1) ==>
              l4[k] == old(l4)[k]
      ensures HasTransport(key) ==> (Verifies(Covered()) <==> old(Verifies(Covered())))
      ensures key.ethIp && key.nwProto == UDP ==>
                (UdpAccepts(Pseudo(ip), l4) <==>
                   old(Verifies(Covered())) || Same(old(l4)[UDP_CHECK] as int + old(l4)[if src then 0 else 1], port))
    {
      if !key.ethIp || !HasTransport(key) {
        return;
      }
      var field := if src then 0 else 1;
      ghost var covered := Covered();
      NeverZero(key);
      UpdateResidue(l4[Check(key)], l4[field], port);
      UpdateIsZero(l4[Check(key)], l4[field], port);
      PortAndCheck(Pseudo(ip), l4, field, port, Check(key), UpdateCsum(l4[Check(key)], l4[field], port));
      l4 := l4[Check(key) := UpdateCsum(l4[Check(key)], l4[field], port)][field := port];
      NeverZero(key);
      VerifyAlike(Covered(), covered);
    }
  }

  /** What a receiver of UDP accepts: a zero checksum field means that there is none. */
  predicate UdpAccepts(pseudo: seq<Word16>, l4: seq<Word16>)
    requires |l4| > UDP_CHECK
  {
    l4[UDP_CHECK] == 0 || Verifies(pseudo + l4)
  }

  /** Two 16-bit numbers that one's complement arithmetic does not tell apart: equal, or the two forms of zero. */
  lemma SameWords(a: Word16, b: Word16)
    ensures Same(a, b) <==> a == b || (a == 0 && b == M) || (a == M && b == 0)
  {
    if Same(a, b) {
      var k :| a as int - b == Times(k);
      assert -2 < k < 2;
    }
    SameIs(0, 0, 0);
    SameIs(0, M, -1);
    SameIs(M, 0, 1);
    if a == b { SameIs(a, b, 0); }
  }

  /** A UDP datagram without checksum gets one all the same: after a change of port it is accepted if and only if
      the port is the same number in one's complement, or the words happen to verify. */
  lemma UdpWithoutChecksum(pseudo: seq<Word16>, l4: seq<Word16>, i: nat, v: Word16)
    requires i < 2 && |l4| > UDP_CHECK && l4[UDP_CHECK] == 0 && Sum(pseudo) > 0
    ensures var after := l4[UDP_CHECK := UpdateCsum(l4[UDP_CHECK], l4[i], v)][i := v];
            UdpAccepts(pseudo, after) <==>
              l4[i] == v || (l4[i] == 0 && v == M) || (l4[i] == M && v == 0) || Verifies(pseudo + l4)
  {
    var fixed := UpdateCsum(0, l4[i], v);
    var after := l4[UDP_CHECK := fixed][i := v];
    UpdateResidue(0, l4[i], v);
    UpdateIsZero(0, l4[i], v);
    SameWords(l4[i], v);
    PortAndCheck(pseudo, l4, i, v, UDP_CHECK, fixed);
    SumConcat(pseudo, l4);
    SumConcat(pseudo, after);
    assert after[UDP_CHECK] == fixed;
    VerifyAlike(pseudo + after, pseudo + l4);
  }

  /** The same for a change of address, the words of which are followed by a word that is not zero. */
  lemma UdpAddressWithoutChecksum(pseudo: seq<Word16>, i: nat, addr: Word32, l4: seq<Word16>)
    requires |l4| > UDP_CHECK && l4[UDP_CHECK] == 0 && i + 2 < |pseudo| && pseudo[|pseudo| - 1] > 0
    ensures var after := l4[UDP_CHECK := UpdateCsum(0, Get32(pseudo, i), addr)];
            UdpAccepts(Put32(pseudo, i, addr), after) <==> Same(Get32(pseudo, i), addr) || Verifies(pseudo + l4)
  {
    var fixed := UpdateCsum(0, Get32(pseudo, i), addr);
    var after, pseudo2 := l4[UDP_CHECK := fixed], Put32(pseudo, i, addr);
    UpdateResidue(0, Get32(pseudo, i), addr);
    UpdateIsZero(0, Get32(pseudo, i), addr);
    PseudoAndCheck(pseudo, i, addr, l4, UDP_CHECK, fixed, Get32(pseudo, i), Sum(pseudo2 + after), Sum(pseudo + l4));
    SumAtLeast(pseudo, |pseudo| - 1);
    SumAtLeast(pseudo2, |pseudo| - 1);
    SumConcat(pseudo, l4);
    SumConcat(pseudo2, after);
    assert after[UDP_CHECK] == fixed;
    VerifyAlike(pseudo2 + after, pseudo + l4);
  }

  /** A datagram from port 1 to port 2, with no data and no checksum. */
  function PlainPseudo(): seq<Word16> { [1, 1, 1, 1, UDP, 8] }

  function PlainUdp(): seq<Word16> { [1, 2, 8, 0] }

  lemma PlainSum()
    ensures Sum(PlainPseudo() + PlainUdp()) == 40 && Sum(PlainPseudo()) > 0
  {
    SumConcat(PlainPseudo(), PlainUdp());
    var w := PlainPseudo() + PlainUdp();
    forall n | 0 <= n < 10 ensures Sum(w[..n + 1]) == Sum(w[..n]) + w[n] {
      assert w[..n + 1][..n] == w[..n];
    }
    assert w[..10] == w;
    assert w == [1, 1, 1, 1, UDP, 8, 1, 2, 8, 0];
    assert w[0] == w[1] == w[2] == w[3] == w[6] == 1 && w[4] == UDP && w[5] == w[8] == 8 && w[7] == 2 && w[9] == 0;
    SumAtLeast(PlainPseudo(), 0);
  }

  /** It is accepted as it is, but not once its source port has become 3. */
  lemma UdpSpoilt()
    ensures UdpAccepts(PlainPseudo(), PlainUdp())
    ensures !UdpAccepts(PlainPseudo(), PlainUdp()[UDP_CHECK := UpdateCsum(0, 1, 3)][0 := 3])
  {
    PlainSum();
    UdpWithoutChecksum(PlainPseudo(), PlainUdp(), 0, 3);
  }

  /** Nor once its source address has become 3. */
  lemma UdpSpoiltByAddress()
    ensures var from := Get32(PlainPseudo(), 0);
            !UdpAccepts(Put32(PlainPseudo(), 0, 3), PlainUdp()[UDP_CHECK := UpdateCsum(0, from, 3)])
  {
    PlainSum();
    UdpAddressWithoutChecksum(PlainPseudo(), 0, 3, PlainUdp());
  }
}
