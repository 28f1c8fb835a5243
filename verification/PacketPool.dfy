/** The packet buffers of forward.c as a machine over calls: 256 slots, each with a 24-bit cookie. */
module PacketPool {
  import opened Sequences

  const N_PKT_BUFFERS := 0x100
  const COOKIES := 0xffffff // one less than 1 << PKT_COOKIE_BITS
  const NO_ID := 0xffffffff // (uint32_t) -1

  datatype Buffer<P> = Buffer(skb: Option<P>, cookie: nat, exp: int)

  datatype Pool<P> = Pool(buffers: seq<Buffer<P>>, idx: nat)

  /** Calls; `keep` is OVERWRITE_JIFFIES. */
  datatype Call<P> =
    | Save(packet: P, now: int)
    | Retrieve(id: nat)
    | Discard(id: nat)
    | DiscardAll

  predicate Sane<P>(s: Pool<P>) {
    |s.buffers| == N_PKT_BUFFERS && s.idx < N_PKT_BUFFERS
    && forall i :: 0 <= i < N_PKT_BUFFERS ==> s.buffers[i].cookie < COOKIES
  }

  function Empty<P>(): (s: Pool<P>)
    ensures Sane(s)
  {
    Pool(seq(N_PKT_BUFFERS, _ => Buffer(None, 0, 0)), 0)
  }

  function Slot(id: nat): (i: nat)
    ensures i < N_PKT_BUFFERS
  {
    id % N_PKT_BUFFERS
  }

  function IdOf(i: nat, cookie: nat): nat { i + N_PKT_BUFFERS * cookie }

  /** The slot a save tries. */
  function Turn<P>(s: Pool<P>): (i: nat)
    ensures i < N_PKT_BUFFERS
  {
    (s.idx + 1) % N_PKT_BUFFERS
  }

  /** A slot takes a packet if it is free or its packet is old enough. */
  predicate Takes<P>(b: Buffer<P>, now: int) {
    b.skb == None || now >= b.exp
  }

  function NextCookie(cookie: nat): nat {
    if cookie + 1 >= COOKIES then 0 else cookie + 1
  }

  /** What fwd_save_skb returns. */
  function SavedId<P>(s: Pool<P>, now: int): nat
    requires Sane(s)
  {
    var i := Turn(s);
    if Takes(s.buffers[i], now) then IdOf(i, NextCookie(s.buffers[i].cookie)) else NO_ID
  }

  predicate Current<P>(s: Pool<P>, id: nat)
    requires Sane(s)
  {
    s.buffers[Slot(id)].cookie == id / N_PKT_BUFFERS
  }

  /** What retrieve_skb returns. */
  function Got<P>(s: Pool<P>, id: nat): Option<P>
    requires Sane(s)
  {
    if Current(s, id) then s.buffers[Slot(id)].skb else None
  }

  function Drop<P>(s: Pool<P>, id: nat): (t: Pool<P>)
    requires Sane(s)
    ensures Sane(t)
  {
    var i := Slot(id);
    if Current(s, id) then s.(buffers := s.buffers[i := s.buffers[i].(skb := None)]) else s
  }

  function After<P>(s: Pool<P>, call: Call<P>, keep: nat): (t: Pool<P>)
    requires Sane(s)
    ensures Sane(t)
  {
    match call
    case Save(x, now) =>
      var i := Turn(s);
      if Takes(s.buffers[i], now)
      then Pool(s.buffers[i := Buffer(Some(x), NextCookie(s.buffers[i].cookie), now + keep)], i)
      else s.(idx := i)
    case Retrieve(id) => Drop(s, id)
    case Discard(id) => Drop(s, id)
    case DiscardAll =>
      s.(buffers := seq(N_PKT_BUFFERS, i requires 0 <= i < N_PKT_BUFFERS => s.buffers[i].(skb := None)))
  }

  function Run<P>(calls: seq<Call<P>>, keep: nat): (s: Pool<P>)
    ensures Sane(s)
  {
    if calls == [] then Empty() else After(Run(Front(calls), keep), Last(calls), keep)
  }

  lemma IdParts(i: nat, cookie: nat)
    requires i < N_PKT_BUFFERS
    ensures Slot(IdOf(i, cookie)) == i && IdOf(i, cookie) / N_PKT_BUFFERS == cookie
    ensures cookie < COOKIES ==> IdOf(i, cookie) < NO_ID
  {
  }

  /** A successful save is never mistaken for a failure, and its id names the packet at once; a failed save
      leaves every slot as it was. */
  lemma SaveIds<P>(s: Pool<P>, x: P, now: int, keep: nat)
    requires Sane(s)
    ensures var id, t := SavedId(s, now), After(s, Save(x, now), keep);
            if Takes(s.buffers[Turn(s)], now) then id < NO_ID && Slot(id) == Turn(s) && Got(t, id) == Some(x)
            else id == NO_ID && t.buffers == s.buffers
  {
    IdParts(Turn(s), NextCookie(s.buffers[Turn(s)].cookie));
  }

  /** The id of failure names no packet. */
  lemma NoIdFindsNothing<P>(s: Pool<P>)
    requires Sane(s)
    ensures Got(s, NO_ID) == None && Drop(s, NO_ID) == s
  {
  }

  /** The save at position `k` put its packet into slot `i`. */
  predicate Fills<P>(calls: seq<Call<P>>, keep: nat, k: nat, i: nat)
    requires k < |calls|
  {
    calls[k].Save? && var s := Run(calls[..k], keep); Turn(s) == i && Takes(s.buffers[i], calls[k].now)
  }

  /** How many of the calls from position `k` on filled slot `i`. */
  function Fillings<P>(calls: seq<Call<P>>, keep: nat, k: nat, i: nat): nat {
    if |calls| <= k then 0
    else Fillings(Front(calls), keep, k, i) + if Fills(calls, keep, |calls| - 1, i) then 1 else 0
  }

  /** The cookie of a slot counts how often it was filled, modulo 2^24 - 1. */
  lemma {:induction false} CookieCounts<P>(calls: seq<Call<P>>, keep: nat, k: nat, i: nat)
    requires k <= |calls| && i < N_PKT_BUFFERS
    ensures Run(calls, keep).buffers[i].cookie
            == (Run(calls[..k], keep).buffers[i].cookie + Fillings(calls, keep, k, i)) % COOKIES
    decreases |calls|
  {
    if k == |calls| {
      assert calls[..k] == calls;
    } else {
      CookieCounts(Front(calls), keep, k, i);
      assert Front(calls)[..k] == calls[..k];
    }
  }

  /** An id stays current exactly until the slot is filled again, and comes back after every 2^24 - 1 fillings. */
  lemma {:induction false} CurrentIds<P>(calls: seq<Call<P>>, keep: nat, k: nat, i: nat)
    requires k < |calls| && i < N_PKT_BUFFERS && Fills(calls, keep, k, i)
    ensures Current(Run(calls, keep), SavedId(Run(calls[..k], keep), calls[k].now))
            <==> Fillings(calls, keep, k + 1, i) % COOKIES == 0
  {
    var s, t := Run(calls[..k], keep), Run(calls[..k + 1], keep);
    assert Front(calls[..k + 1]) == calls[..k] && Last(calls[..k + 1]) == calls[k];
    IdParts(i, NextCookie(s.buffers[i].cookie));
    CookieCounts(calls, keep, k + 1, i);
  }

  /** A call that takes the packet of `id` out: a retrieval or discarding of that very id, or of everything. */
  predicate Clears<P>(call: Call<P>, id: nat) {
    match call
    case Save(_, _) => false
    case Retrieve(d) => d == id
    case Discard(d) => d == id
    case DiscardAll => true
  }

  predicate TakenOut<P>(calls: seq<Call<P>>, k: nat, id: nat) {
    exists j :: k <= j < |calls| && Clears(calls[j], id)
  }

  /** Until its slot is filled again, an id names the packet saved under it, unless it was taken out; and the
      slot cannot be filled before that packet is `keep` old. */
  lemma {:induction false} Kept<P>(calls: seq<Call<P>>, keep: nat, k: nat, i: nat)
    requires k < |calls| && i < N_PKT_BUFFERS && Fills(calls, keep, k, i) && Fillings(calls, keep, k + 1, i) == 0
    ensures var id, b := SavedId(Run(calls[..k], keep), calls[k].now), Run(calls, keep).buffers[i];
            && Slot(id) == i && Current(Run(calls, keep), id) && b.exp == calls[k].now + keep
            && b.skb == if TakenOut(calls, k + 1, id) then None else Some(calls[k].packet)
    decreases |calls|
  {
    var s := Run(calls[..k], keep);
    var id := SavedId(s, calls[k].now);
    IdParts(i, NextCookie(s.buffers[i].cookie));
    if k == |calls| - 1 {
      assert calls[..k] == Front(calls);
    } else {
      var b := Front(calls);
      assert b[..k] == calls[..k] && b[k] == calls[k];
      Kept(b, keep, k, i);
      var t := Run(b, keep);
      assert TakenOut(calls, k + 1, id) <==> TakenOut(b, k + 1, id) || Clears(Last(calls), id);
      SameId(t, id, Last(calls));
    }
  }

  lemma SameId<P>(s: Pool<P>, id: nat, call: Call<P>)
    requires Sane(s) && Current(s, id)
    ensures (call.Retrieve? || call.Discard?) && Slot(call.id) == Slot(id) && Current(s, call.id) ==> call.id == id
  {
  }

  /** The last filling of a slot that was filled from position `k` on. */
  lemma {:induction false} LastFilling<P>(calls: seq<Call<P>>, keep: nat, k: nat, i: nat) returns (j: nat)
    requires k <= |calls| && Fillings(calls, keep, k, i) > 0
    ensures k <= j < |calls| && Fills(calls, keep, j, i) && Fillings(calls, keep, j + 1, i) == 0
    decreases |calls|
  {
    if Fills(calls, keep, |calls| - 1, i) {
      j := |calls| - 1;
    } else {
      j := LastFilling(Front(calls), keep, k, i);
      assert Front(calls)[..j] == calls[..j];
    }
  }

  /** Retrieving an id yields the packet saved under it or nothing, as long as fewer than 2^24 - 1 packets went to
      its slot since. If another packet is found, then the id was issued again for that packet. */
  lemma RetrieveIsExact<P>(calls: seq<Call<P>>, keep: nat, k: nat, i: nat)
    requires k < |calls| && i < N_PKT_BUFFERS && Fills(calls, keep, k, i)
    ensures var id, m := SavedId(Run(calls[..k], keep), calls[k].now), Fillings(calls, keep, k + 1, i);
            var got := Got(Run(calls, keep), id);
            && (m == 0 ==> got == if TakenOut(calls, k + 1, id) then None else Some(calls[k].packet))
            && (0 < m < COOKIES ==> got == None)
            && (m > 0 && got.Some? ==>
                  exists j :: k < j < |calls| && Fills(calls, keep, j, i) && calls[j].packet == got.value
                              && SavedId(Run(calls[..j], keep), calls[j].now) == id)
  {
    var id, m := SavedId(Run(calls[..k], keep), calls[k].now), Fillings(calls, keep, k + 1, i);
    IdParts(i, NextCookie(Run(calls[..k], keep).buffers[i].cookie));
    CurrentIds(calls, keep, k, i);
    if m == 0 {
      Kept(calls, keep, k, i);
    } else if m % COOKIES == 0 {
      var j := LastFilling(calls, keep, k + 1, i);
      Kept(calls, keep, j, i);
      SameId(Run(calls, keep), id, Retrieve(SavedId(Run(calls[..j], keep), calls[j].now)));
    }
  }

  /** No packet is overwritten before it is `keep` old. */
  lemma NotTooSoon<P>(calls: seq<Call<P>>, keep: nat, k: nat, i: nat, x: P, now: int)
    requires k < |calls| && i < N_PKT_BUFFERS && Fills(calls, keep, k, i) && Fillings(calls, keep, k + 1, i) == 0
    requires !TakenOut(calls, k + 1, SavedId(Run(calls[..k], keep), calls[k].now))
    requires now < calls[k].now + keep
    ensures !Fills(calls + [Save(x, now)], keep, |calls|, i)
  {
    Kept(calls, keep, k, i);
    assert (calls + [Save(x, now)])[..|calls|] == calls;
  }

  function Held<T>(o: Option<T>): seq<T> {
    match o
    case None => []
    case Some(x) => [x]
  }

  /** The packets put into slot `i`, in order. */
  function Incoming<P>(calls: seq<Call<P>>, keep: nat, i: nat): seq<P> {
    if calls == [] then []
    else Incoming(Front(calls), keep, i) + if Fills(calls, keep, |calls| - 1, i) then [Last(calls).packet] else []
  }

  /** The packets a call takes from slot `i`: handed out, discarded or overwritten. */
  function Taken<P>(s: Pool<P>, call: Call<P>, i: nat): seq<P>
    requires Sane(s) && i < N_PKT_BUFFERS
  {
    match call
    case Save(_, now) => if Turn(s) == i && Takes(s.buffers[i], now) then Held(s.buffers[i].skb) else []
    case Retrieve(id) => if Slot(id) == i then Held(Got(s, id)) else []
    case Discard(id) => if Slot(id) == i then Held(Got(s, id)) else []
    case DiscardAll => Held(s.buffers[i].skb)
  }

  function Outgoing<P>(calls: seq<Call<P>>, keep: nat, i: nat): seq<P>
    requires i < N_PKT_BUFFERS
  {
    if calls == [] then [] else Outgoing(Front(calls), keep, i) + Taken(Run(Front(calls), keep), Last(calls), i)
  }

  /** Every packet put into a slot leaves it exactly once, in order, or is still there. */
  lemma {:induction false} LeavesOnce<P>(calls: seq<Call<P>>, keep: nat, i: nat)
    requires i < N_PKT_BUFFERS
    ensures Incoming(calls, keep, i) == Outgoing(calls, keep, i) + Held(Run(calls, keep).buffers[i].skb)
  {
    if calls != [] {
      var s := Run(Front(calls), keep);
      LeavesOnce(Front(calls), keep, i);
      assert calls[..|calls| - 1] == Front(calls);
      assert Held(s.buffers[i].skb) + (if Fills(calls, keep, |calls| - 1, i) then [Last(calls).packet] else [])
          == Taken(s, Last(calls), i) + Held(Run(calls, keep).buffers[i].skb);
    }
  }

  /** The slots are tried in turn, whether or not they take the packet. */
  lemma {:induction false} TurnsCount<P>(calls: seq<Call<P>>, keep: nat)
    ensures Run(calls, keep).idx == Saves(calls) % N_PKT_BUFFERS
  {
    if calls != [] { TurnsCount(Front(calls), keep); }
  }

  function Saves<P>(calls: seq<Call<P>>): nat {
    if calls == [] then 0 else Saves(Front(calls)) + if Last(calls).Save? then 1 else 0
  }

  lemma {:induction false} NeverFilled<P>(calls: seq<Call<P>>, keep: nat, i: nat)
    requires i < N_PKT_BUFFERS && Fillings(calls, keep, 0, i) == 0
    ensures Run(calls, keep).buffers[i].skb == None
  {
    if calls != [] {
      assert calls[..|calls| - 1] == Front(calls);
      NeverFilled(Front(calls), keep, i);
    }
  }

  lemma TurnIs<P>(calls: seq<Call<P>>, keep: nat)
    ensures Turn(Run(calls, keep)) == (Saves(calls) + 1) % 0x100
  {
    TurnsCount(calls, keep);
    NextOf(Saves(calls));
  }

  lemma NextOf(n: nat)
    ensures (n % 0x100 + 1) % 0x100 == (n + 1) % 0x100
  {
  }

  /** The next save goes to a slot that never had a packet: it gets the first id of the slot. */
  lemma FirstSave<P>(calls: seq<Call<P>>, keep: nat, now: int)
    requires Fillings(calls, keep, 0, (Saves(calls) + 1) % 0x100) == 0
    ensures SavedId(Run(calls, keep), now) == (Saves(calls) + 1) % 0x100 + 0x100
  {
    TurnIs(calls, keep);
    var i := (Saves(calls) + 1) % 0x100;
    NeverFilled(calls, keep, i);
    CookieCounts(calls, keep, 0, i);
    assert calls[..0] == [];
  }

  /** The next save goes to a slot filled at `k` and not since: it succeeds exactly if that packet was taken out or is
      old enough, and its id counts the fillings of the slot. */
  lemma NextSave<P>(calls: seq<Call<P>>, keep: nat, k: nat, now: int)
    requires k < |calls| && Fills(calls, keep, k, (Saves(calls) + 1) % 0x100)
    requires Fillings(calls, keep, k + 1, (Saves(calls) + 1) % 0x100) == 0
    ensures var i := (Saves(calls) + 1) % 0x100;
            SavedId(Run(calls, keep), now)
            == if TakenOut(calls, k + 1, SavedId(Run(calls[..k], keep), calls[k].now)) || now >= calls[k].now + keep
               then i + 0x100 * ((Fillings(calls, keep, 0, i) + 1) % 0xff_ffff) else 0xffff_ffff
  {
    var i := (Saves(calls) + 1) % 0x100;
    TurnIs(calls, keep);
    Kept(calls, keep, k, i);
    CookieCounts(calls, keep, 0, i);
    assert calls[..0] == [];
    NextCount(Fillings(calls, keep, 0, i));
  }

  lemma NextCount(n: nat)
    ensures NextCookie(n % COOKIES) == (n + 1) % COOKIES
  {
  }

  class PacketBuffers<P> {
    const buffers: array<Buffer<P>>
    const keep: nat
    var idx: nat
    ghost var calls: seq<Call<P>>

    ghost predicate Valid()
      reads this, buffers
    {
      Run(calls, keep) == Now()
    }

    ghost function Now(): Pool<P>
      reads this, buffers
    {
      Pool(buffers[..], idx)
    }

    constructor (keep: nat)
      ensures Valid() && calls == [] && fresh(buffers) && this.keep == keep
    {
      this.keep := keep;
      buffers := new Buffer<P>[N_PKT_BUFFERS](_ => Buffer(None, 0, 0));
      idx, calls := 0, [];
      new;
      assert buffers[..] == Empty<P>().buffers;
    }

    ghost method Record(call: Call<P>, was: Pool<P>)
      requires Run(calls, keep) == was && Now() == After(was, call, keep)
      modifies this`calls
      ensures Valid() && calls == old(calls) + [call]
    {
      assert Front(calls + [call]) == calls;
      calls := calls + [call];
    }

    /** fwd_save_skb */
    method Save(x: P, now: int) returns (id: nat)
      requires Valid()
      modifies this, buffers
      ensures Valid() && calls == old(calls) + [Call.Save(x, now)] && id == old(SavedId(Now(), now))
    {
      ghost var was := Now();
      idx := (idx + 1) % N_PKT_BUFFERS;
      var p := buffers[idx];
      if p.skb.Some? && now < p.exp {
        Record(Call.Save(x, now), was);
        return NO_ID;
      }
      var cookie := p.cookie + 1;
      if cookie >= COOKIES {
        cookie := 0;
      }
      buffers[idx] := Buffer(Some(x), cookie, now + keep);
      id := idx + N_PKT_BUFFERS * cookie;
      Record(Call.Save(x, now), was);
    }

    /** retrieve_skb */
    method Retrieve(id: nat) returns (skb: Option<P>)
      requires Valid()
      modifies this`calls, buffers
      ensures Valid() && calls == old(calls) + [Call.Retrieve(id)] && skb == old(Got(Now(), id))
    {
      ghost var was := Now();
      skb := None;
      var i := id % N_PKT_BUFFERS;
      if buffers[i].cookie == id / N_PKT_BUFFERS {
        skb := buffers[i].skb;
        buffers[i] := buffers[i].(skb := None);
      }
      Record(Call.Retrieve(id), was);
    }

    /** discard_skb */
    method Discard(id: nat)
      requires Valid()
      modifies this`calls, buffers
      ensures Valid() && calls == old(calls) + [Call.Discard(id)]
    {
      ghost var was := Now();
      var i := id % N_PKT_BUFFERS;
      if buffers[i].cookie == id / N_PKT_BUFFERS {
        buffers[i] := buffers[i].(skb := None);
      }
      Record(Call.Discard(id), was);
    }

    /** fwd_discard_all */
    method DiscardAll()
      requires Valid()
      modifies this`calls, buffers
      ensures Valid() && calls == old(calls) + [Call.DiscardAll]
    {
      ghost var was := Now();
      var i := 0;
      while i < N_PKT_BUFFERS
        invariant 0 <= i <= N_PKT_BUFFERS && calls == old(calls)
        invariant forall k :: 0 <= k < N_PKT_BUFFERS ==>
                    buffers[k] == if k < i then was.buffers[k].(skb := None) else was.buffers[k]
      {
        buffers[i] := buffers[i].(skb := None);
        i := i + 1;
      }
      assert buffers[..] == After(was, Call.DiscardAll, keep).buffers;
      Record(Call.DiscardAll, was);
    }
  }
}
