/** ratelimit.c as a machine over events: a token bucket, a queue for every port, drop-longest and round robin. */
module RateLimit {
  import opened Sequences

  const OFPP_MAX := 0xff00
  const TX_BURST := 50

  datatype Packet = Packet(inPort: nat, fromAction: bool, body: seq<int>)

  // The queue of a packet: its input port modulo the number of queues.
  function PortOf(x: Packet): (p: nat)
    ensures p < OFPP_MAX
  {
    x.inPort % OFPP_MAX
  }

  datatype Settings = Settings(rate: nat, burst: nat, start: int)

  datatype State = State(queues: seq<seq<Packet>>, next: nat, tokens: int, lastFill: int, clock: int)

  datatype Event =
    | Refilled(now: int)
    | Granted
    | Passed(packet: Packet)
    | Queued(packet: Packet)
    | Dropped(port: nat, packet: Packet)
    | Served(port: nat, packet: Packet)

  function Total(queues: seq<seq<Packet>>): nat {
    if queues == [] then 0 else Total(queues[..|queues| - 1]) + |queues[|queues| - 1]|
  }

  lemma {:induction false} TotalUpdate(queues: seq<seq<Packet>>, p: nat, q: seq<Packet>)
    requires p < |queues|
    ensures Total(queues[p := q]) == Total(queues) - |queues[p]| + |q|
  {
    var n := |queues| - 1;
    if p == n {
      assert queues[p := q][..n] == queues[..n];
    } else {
      assert queues[p := q][..n] == queues[..n][p := q];
      TotalUpdate(queues[..n], p, q);
    }
  }

  lemma {:induction false} TotalZero(queues: seq<seq<Packet>>)
    ensures Total(queues) == 0 <==> forall p :: 0 <= p < |queues| ==> queues[p] == []
  {
    if queues != [] {
      var r, q := queues[..|queues| - 1], queues[|queues| - 1];
      TotalZero(r);
      assert forall p :: 0 <= p < |r| ==> r[p] == queues[p];
      if Total(queues) == 0 {
        forall p | 0 <= p < |queues| ensures queues[p] == [] {
          assert p < |r| ==> r[p] == [];
        }
      }
    }
  }

  /** How far ahead of `next` the round robin meets `p`. */
  function Ahead(next: nat, p: nat): nat
    requires next < OFPP_MAX && p < OFPP_MAX
  {
    if p >= next then p - next else p + OFPP_MAX - next
  }

  function Start(c: Settings): State {
    State(seq(OFPP_MAX, _ => []), 0, c.rate * 100, c.start, c.start)
  }

  /** refill_bucket: nothing is added while the sum stays below the price of one packet. */
  function Refill(c: Settings, s: State, now: int): State {
    var sum := (now - s.lastFill) * c.rate + s.tokens;
    if sum < 1000 then s.(clock := now)
    else s.(lastFill := now, tokens := if sum < c.burst * 1000 then sum else c.burst * 1000, clock := now)
  }

  predicate Sane(s: State) {
    |s.queues| == OFPP_MAX && s.next < OFPP_MAX
  }

  predicate Longest(queues: seq<seq<Packet>>, p: nat) {
    p < |queues| && forall r :: 0 <= r < |queues| ==> |queues[r]| <= |queues[p]|
  }

  ghost predicate NextInTurn(s: State, p: nat)
    requires Sane(s)
  {
    p < OFPP_MAX && s.queues[p] != []
    && forall r :: 0 <= r < OFPP_MAX && s.queues[r] != [] ==> Ahead(s.next, p) <= Ahead(s.next, r)
  }

  /** What may happen in a state. */
  ghost predicate Enabled(c: Settings, s: State, e: Event)
    requires Sane(s)
  {
    match e
    case Refilled(now) => now >= s.clock
    case Granted => s.tokens >= 1000
    case Passed(x) => Total(s.queues) == 0
    case Queued(x) => Total(s.queues) < c.burst
    case Dropped(p, x) => Total(s.queues) == c.burst && Longest(s.queues, p) && s.queues[p] != [] && x == s.queues[p][0]
    case Served(p, x) => NextInTurn(s, p) && x == s.queues[p][0]
  }

  ghost function Step(c: Settings, s: State, e: Event): (t: State)
    requires Sane(s) && Enabled(c, s, e)
    ensures Sane(t)
  {
    match e
    case Refilled(now) => Refill(c, s, now)
    case Granted => s.(tokens := s.tokens - 1000)
    case Passed(x) => s
    case Queued(x) => s.(queues := s.queues[PortOf(x) := s.queues[PortOf(x)] + [x]])
    case Dropped(p, x) => s.(queues := s.queues[p := s.queues[p][1..]])
    case Served(p, x) => s.(queues := s.queues[p := s.queues[p][1..]], next := (p + 1) % OFPP_MAX)
  }

  /** Every packet let through is paid for by the event before it. */
  predicate Paid(log: seq<Event>, e: Event) {
    e.Passed? || e.Served? ==> log != [] && log[|log| - 1] == Granted
  }

  /** The state a legal run of events leads to, if it is one. */
  ghost function Run(c: Settings, log: seq<Event>): (s: State)
    requires Legal(c, log)
    ensures Sane(s)
    decreases |log|, 1
  {
    if log == [] then Start(c) else Step(c, Run(c, Front(log)), Last(log))
  }

  ghost predicate Legal(c: Settings, log: seq<Event>)
    decreases |log|, 0
  {
    log == [] || (Legal(c, Front(log)) && Enabled(c, Run(c, Front(log)), Last(log)) && Paid(Front(log), Last(log)))
  }

  lemma Extend(c: Settings, log: seq<Event>, e: Event)
    requires Legal(c, log) && Enabled(c, Run(c, log), e) && Paid(log, e)
    ensures Legal(c, log + [e]) && Run(c, log + [e]) == Step(c, Run(c, log), e)
  {
    assert Front(log + [e]) == log && Last(log + [e]) == e;
  }

  lemma {:induction false} PrefixLegal(c: Settings, log: seq<Event>, i: nat)
    requires Legal(c, log) && i <= |log|
    ensures Legal(c, log[..i])
    decreases |log|
  {
    if i < |log| {
      PrefixLegal(c, Front(log), i);
      assert Front(log)[..i] == log[..i];
    } else {
      assert log[..i] == log;
    }
  }

  /** In every run the queues hold at most `burst` packets and the bucket is never overdrawn. */
  lemma {:induction false} Bounds(c: Settings, log: seq<Event>)
    requires Legal(c, log)
    ensures Total(Run(c, log).queues) <= c.burst && Run(c, log).tokens >= 0
    ensures Run(c, log).lastFill <= Run(c, log).clock
  {
    if log == [] {
      TotalZero(Start(c).queues);
    } else {
      Bounds(c, Front(log));
      StepTotal(c, Run(c, Front(log)), Last(log));
      RefillBounds(c, Run(c, Front(log)), Last(log));
    }
  }

  lemma RefillBounds(c: Settings, s: State, e: Event)
    requires Sane(s) && Enabled(c, s, e) && s.tokens >= 0 && s.lastFill <= s.clock
    ensures Step(c, s, e).tokens >= 0 && Step(c, s, e).lastFill <= Step(c, s, e).clock
  {
  }

  lemma StepTotal(c: Settings, s: State, e: Event)
    requires Sane(s) && Enabled(c, s, e)
    ensures Total(Step(c, s, e).queues) == Total(s.queues) + Change(e)
  {
    match e
    case Queued(x) => TotalUpdate(s.queues, PortOf(x), s.queues[PortOf(x)] + [x]);
    case Dropped(p, x) => TotalUpdate(s.queues, p, s.queues[p][1..]);
    case Served(p, x) => TotalUpdate(s.queues, p, s.queues[p][1..]);
    case _ =>
  }

  function Change(e: Event): int {
    match e
    case Queued(_) => 1
    case Dropped(_, _) => -1
    case Served(_, _) => -1
    case _ => 0
  }

  datatype Kind = Clock | Grant | Pass | Queue | Drop | Serve

  function KindOf(e: Event): Kind {
    match e
    case Refilled(_) => Clock
    case Granted => Grant
    case Passed(_) => Pass
    case Queued(_) => Queue
    case Dropped(_, _) => Drop
    case Served(_, _) => Serve
  }

  function Count(log: seq<Event>, kind: Kind): nat {
    if log == [] then 0 else Count(Front(log), kind) + if KindOf(Last(log)) == kind then 1 else 0
  }

  /** Packets held back are queued, dropped or served: none is lost or made up. */
  lemma {:induction false} Conservation(c: Settings, log: seq<Event>)
    requires Legal(c, log)
    ensures Count(log, Queue) == Count(log, Drop) + Count(log, Serve) + Total(Run(c, log).queues)
  {
    if log == [] {
      TotalZero(Start(c).queues);
    } else {
      Conservation(c, Front(log));
      StepTotal(c, Run(c, Front(log)), Last(log));
    }
  }

  // ---------- order ----------

  function Arrives(e: Event, p: nat): seq<Packet> {
    match e
    case Passed(x) => if PortOf(x) == p then [x] else []
    case Queued(x) => if PortOf(x) == p then [x] else []
    case _ => []
  }

  function Leaves(e: Event, p: nat): seq<Packet> {
    match e
    case Passed(x) => if PortOf(x) == p then [x] else []
    case Dropped(q, x) => if q == p then [x] else []
    case Served(q, x) => if q == p then [x] else []
    case _ => []
  }

  /** The packets of port `p` in order of arrival. */
  function Offered(log: seq<Event>, p: nat): seq<Packet> {
    if log == [] then [] else Offered(Front(log), p) + Arrives(Last(log), p)
  }

  /** The packets of port `p` in the order in which they leave the limiter, let through, sent on or dropped. */
  function Released(log: seq<Event>, p: nat): seq<Packet> {
    if log == [] then [] else Released(Front(log), p) + Leaves(Last(log), p)
  }

  lemma QueueStep(c: Settings, s: State, e: Event, p: nat)
    requires Sane(s) && Enabled(c, s, e) && p < OFPP_MAX
    ensures s.queues[p] + Arrives(e, p) == Leaves(e, p) + Step(c, s, e).queues[p]
  {
    if e.Passed? { TotalZero(s.queues); }
  }

  /** Packets of one port never overtake each other, whether or not they are held back. */
  lemma {:induction false} FirstInFirstOut(c: Settings, log: seq<Event>, p: nat)
    requires Legal(c, log) && p < OFPP_MAX
    ensures Offered(log, p) == Released(log, p) + Run(c, log).queues[p]
  {
    if log != [] {
      var s, e := Run(c, Front(log)), Last(log);
      FirstInFirstOut(c, Front(log), p);
      QueueStep(c, s, e, p);
      Regroup(Offered(Front(log), p), Released(Front(log), p), s.queues[p], Arrives(e, p), Leaves(e, p),
              Run(c, log).queues[p]);
    }
  }

  lemma Regroup<T>(o: seq<T>, r: seq<T>, q: seq<T>, a: seq<T>, l: seq<T>, t: seq<T>)
    requires o == r + q && q + a == l + t
    ensures o + a == (r + l) + t
  {
    assert o + a == r + (q + a);
  }

  /** In every run, each queue holds packets of its own port only. */
  lemma {:induction false} QueuesByPort(c: Settings, log: seq<Event>, p: nat, k: nat)
    requires Legal(c, log) && p < 0xff00 && k < |Run(c, log).queues[p]|
    ensures var port := Run(c, log).queues[p][k].inPort; port % 0xff00 == p && (port < 0xff00 ==> port == p)
    decreases |log|
  {
    if log != [] {
      var s, e := Run(c, Front(log)), Last(log);
      if k < |s.queues[p]| { QueuesByPort(c, Front(log), p, k); }
      if k + 1 < |s.queues[p]| { QueuesByPort(c, Front(log), p, k + 1); }
    }
  }

  // ---------- rate ----------

  /** What the bucket earns between two times. */
  ghost function Earned(c: Settings, from: int, to: int): int {
    c.rate * (to - from)
  }

  lemma EarnedSum(c: Settings, a: int, b: int, d: int)
    ensures Earned(c, a, b) + Earned(c, b, d) == Earned(c, a, d)
  {
  }

  /** Tokens in the bucket, counting those a refill at the current time would add. */
  ghost function Credit(c: Settings, s: State): int {
    s.tokens + Earned(c, s.lastFill, s.clock)
  }

  /** What a refill does in any run: the bucket gets all it earned since it was last filled, up to `burst` packets,
      unless that does not pay for one packet; then nothing changes, and no time is lost. */
  lemma RefillMeans(c: Settings, log: seq<Event>, now: int)
    requires Legal(c, log + [Refilled(now)])
    ensures Legal(c, log)
    ensures var s, t := Run(c, log), Run(c, log + [Refilled(now)]);
            var sum := s.tokens + c.rate * (now - s.lastFill);
            && t.queues == s.queues && t.next == s.next && t.clock == now
            && (sum >= 1000 ==> t.lastFill == now && t.tokens == if sum >= 1000 * c.burst then 1000 * c.burst else sum)
            && (sum < 1000 ==> t.lastFill == s.lastFill && t.tokens == s.tokens)
  {
    assert Front(log + [Refilled(now)]) == log;
    assert Earned(c, Run(c, log).lastFill, now) == (now - Run(c, log).lastFill) * c.rate;
  }

  /** No refill so far found the bucket too small. */
  ghost predicate Uncapped(c: Settings, log: seq<Event>)
    requires Legal(c, log)
    decreases |log|
  {
    log == [] || (Uncapped(c, Front(log)) && (Last(log).Refilled? ==>
      Run(c, Front(log)).tokens + Earned(c, Run(c, Front(log)).lastFill, Last(log).now) <= 1000 * c.burst))
  }

  /** Unless the bucket was too small at some time, nothing that was earned is lost: it was given out or is there. */
  lemma {:induction false} NothingLost(c: Settings, log: seq<Event>)
    requires Legal(c, log) && Uncapped(c, log)
    ensures 1000 * Count(log, Grant) + Run(c, log).tokens + Earned(c, Run(c, log).lastFill, Run(c, log).clock)
            == 100 * c.rate + Earned(c, c.start, Run(c, log).clock)
    decreases |log|
  {
    if log != [] {
      var s, t := Run(c, Front(log)), Run(c, log);
      NothingLost(c, Front(log));
      EarnedSum(c, c.start, s.lastFill, s.clock);
      EarnedSum(c, c.start, s.lastFill, t.clock);
      EarnedSum(c, c.start, t.lastFill, t.clock);
      if Last(log).Refilled? { assert Earned(c, s.lastFill, t.clock) == (t.clock - s.lastFill) * c.rate; }
    }
  }

  lemma RefillCapsCredit(c: Settings, s: State, now: int)
    requires c.burst >= 1
    ensures Credit(c, Refill(c, s, now)) <= c.burst * 1000
    ensures Credit(c, Refill(c, s, now)) <= Credit(c, s) + Earned(c, s.clock, now)
  {
    EarnedSum(c, s.lastFill, s.clock, now);
    assert Earned(c, s.lastFill, now) == (now - s.lastFill) * c.rate;
  }

  /** From a refill on, at most burst + rate * (elapsed time) / 1000 tokens are given out. */
  lemma {:induction false} RateBound(c: Settings, log: seq<Event>, i: nat)
    requires Legal(c, log) && i < |log| && log[i].Refilled? && c.burst >= 1
    ensures 1000 * Count(log[i..], Grant) <= 1000 * c.burst + Earned(c, log[i].now, Run(c, log).clock)
  {
    CreditBound(c, log, i);
    Bounds(c, log);
    EarnedUp(c, Run(c, log).lastFill, Run(c, log).clock);
  }

  /** From the start on, the tokens given at first take the place of the burst, whatever its limit. */
  lemma {:induction false} RateBoundFromStart(c: Settings, log: seq<Event>)
    requires Legal(c, log) && c.burst >= 1
    ensures 1000 * Count(log, Grant) <= 100 * c.rate + Earned(c, c.start, Run(c, log).clock)
  {
    CreditFromStart(c, log);
    Bounds(c, log);
    EarnedUp(c, Run(c, log).lastFill, Run(c, log).clock);
  }

  lemma {:induction false} CreditFromStart(c: Settings, log: seq<Event>)
    requires Legal(c, log) && c.burst >= 1
    ensures Credit(c, Run(c, log)) + 1000 * Count(log, Grant) <= 100 * c.rate + Earned(c, c.start, Run(c, log).clock)
    decreases |log|
  {
    if log != [] {
      var s := Run(c, Front(log));
      CreditFromStart(c, Front(log));
      CreditStep(c, s, Last(log));
      EarnedSum(c, c.start, s.clock, Run(c, log).clock);
    }
  }

  lemma EarnedUp(c: Settings, from: int, to: int)
    requires from <= to
    ensures Earned(c, from, to) >= 0
  {
  }

  lemma {:induction false} CreditBound(c: Settings, log: seq<Event>, i: nat)
    requires Legal(c, log) && i < |log| && log[i].Refilled? && c.burst >= 1
    ensures Credit(c, Run(c, log)) + 1000 * Count(log[i..], Grant)
            <= 1000 * c.burst + Earned(c, log[i].now, Run(c, log).clock)
    decreases |log|
  {
    var s := Run(c, Front(log));
    if i == |log| - 1 {
      assert Front(log[i..]) == [];
      RefillCapsCredit(c, s, log[i].now);
    } else {
      assert Front(log[i..]) == Front(log)[i..] && Last(log[i..]) == Last(log);
      CreditBound(c, Front(log), i);
      CreditStep(c, s, Last(log));
      EarnedSum(c, log[i].now, s.clock, Run(c, log).clock);
    }
  }

  lemma CreditStep(c: Settings, s: State, e: Event)
    requires Sane(s) && Enabled(c, s, e) && c.burst >= 1
    ensures Credit(c, Step(c, s, e)) + (if e.Granted? then 1000 else 0)
            <= Credit(c, s) + Earned(c, s.clock, Step(c, s, e).clock)
  {
    if e.Refilled? { RefillCapsCredit(c, s, e.now); }
  }

  /** Every packet that gets out has its own token. */
  lemma {:induction false} OneTokenEach(c: Settings, log: seq<Event>, i: nat)
    requires Legal(c, log) && i < |log| && log[i].Refilled?
    ensures Count(log[i..], Pass) + Count(log[i..], Serve) + (if Last(log).Granted? then 1 else 0)
            <= Count(log[i..], Grant)
    decreases |log|
  {
    if i == |log| - 1 {
      assert Front(log[i..]) == [];
    } else {
      assert Front(log[i..]) == Front(log)[i..] && Last(log[i..]) == Last(log);
      OneTokenEach(c, Front(log), i);
    }
  }

  // ---------- fairness ----------

  /** From event `i` on port `p` has packets waiting and is not served. */
  ghost predicate Waits(c: Settings, log: seq<Event>, i: nat, p: nat)
    requires Legal(c, log) && i <= |log| && p < OFPP_MAX
    decreases |log|
  {
    i == |log| || (Waits(c, Front(log), i, p) && Run(c, Front(log)).queues[p] != []
                   && !(Last(log).Served? && Last(log).port == p))
  }

  lemma Turn(next: nat, q: nat, p: nat)
    requires next < OFPP_MAX && p < OFPP_MAX && q < OFPP_MAX && p != q && Ahead(next, q) <= Ahead(next, p)
    ensures var now := (q + 1) % OFPP_MAX;
            && Ahead(now, p) < Ahead(next, p) && Ahead(now, q) > Ahead(now, p)
            && forall r :: 0 <= r < OFPP_MAX && Ahead(next, r) > Ahead(next, p) ==> Ahead(now, r) > Ahead(now, p)
  {
  }

  /** While a port waits, every service brings its turn nearer and no other port is served twice:
      it waits for fewer than OFPP_MAX services. */
  lemma {:induction false} Fairness(c: Settings, log: seq<Event>, i: nat, p: nat)
    requires Legal(c, log) && i <= |log| && p < OFPP_MAX && Waits(c, log, i, p)
    ensures Legal(c, log[..i])
    ensures Count(log[i..], Serve) + Ahead(Run(c, log).next, p) <= Ahead(Run(c, log[..i]).next, p) < OFPP_MAX
    ensures forall j, k :: i <= j < k < |log| && log[j].Served? && log[k].Served? ==> log[j].port != log[k].port
  {
    PrefixLegal(c, log, i);
    Nearer(c, log, i, p);
    forall j, k | i <= j < k < |log| && log[j].Served? && log[k].Served? ensures log[j].port != log[k].port {
      NotTwice(c, log, i, p, j, k);
    }
  }

  lemma {:induction false} Nearer(c: Settings, log: seq<Event>, i: nat, p: nat)
    requires i <= |log| && Legal(c, log) && Legal(c, log[..i]) && p < OFPP_MAX && Waits(c, log, i, p)
    ensures Count(log[i..], Serve) + Ahead(Run(c, log).next, p) <= Ahead(Run(c, log[..i]).next, p)
    decreases |log|
  {
    if i == |log| {
      assert log[..i] == log;
    } else {
      assert Front(log[i..]) == Front(log)[i..] && Last(log[i..]) == Last(log) && Front(log)[..i] == log[..i];
      Nearer(c, Front(log), i, p);
      if Last(log).Served? { Turn(Run(c, Front(log)).next, Last(log).port, p); }
    }
  }

  /** A port served at `j` stands behind the waiting port from then on. */
  lemma {:induction false} Behind(c: Settings, log: seq<Event>, i: nat, p: nat, j: nat)
    requires Legal(c, log) && i <= j < |log| && p < OFPP_MAX && Waits(c, log, i, p) && log[j].Served?
    ensures log[j].port < OFPP_MAX && Ahead(Run(c, log).next, log[j].port) > Ahead(Run(c, log).next, p)
    decreases |log|
  {
    var s, e := Run(c, Front(log)), Last(log);
    if e.Served? { Turn(s.next, e.port, p); }
    if j < |log| - 1 { Behind(c, Front(log), i, p, j); }
  }

  lemma {:induction false} NotTwice(c: Settings, log: seq<Event>, i: nat, p: nat, j: nat, k: nat)
    requires Legal(c, log) && i <= j < k < |log| && p < OFPP_MAX && Waits(c, log, i, p)
    requires log[j].Served? && log[k].Served?
    ensures log[j].port != log[k].port
    decreases |log|
  {
    if k < |log| - 1 {
      NotTwice(c, Front(log), i, p, j, k);
    } else {
      Behind(c, Front(log), i, p, j);
    }
  }
}
