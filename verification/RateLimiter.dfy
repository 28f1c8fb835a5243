/** ratelimit.c: the code, proved to produce legal runs of the event machine. */
module RateLimiter {
  import opened Sequences
  import opened RateLimit
  import DropChoice

  /** How many of the first `n` sends fail. */
  function Failures(fails: nat -> bool, n: nat): nat {
    if n == 0 then 0 else Failures(fails, n - 1) + if fails(n - 1) then 1 else 0
  }

  lemma FailuresNext(fails: nat -> bool, n: nat)
    ensures Failures(fails, n + 1) == Failures(fails, n) + if fails(n) then 1 else 0
  {
  }

  lemma {:induction false} CountAppend(log: seq<Event>, e: Event, kind: Kind)
    ensures Count(log + [e], kind) == Count(log, kind) + if KindOf(e) == kind then 1 else 0
  {
    assert Front(log + [e]) == log;
  }

  lemma LongestNotEmpty(queues: seq<seq<Packet>>, p: nat)
    requires Longest(queues, p) && Total(queues) > 0
    ensures queues[p] != []
  {
    TotalZero(queues);
  }

  function Lengths(queues: seq<seq<Packet>>): seq<nat> {
    seq(|queues|, p requires 0 <= p < |queues| => |queues[p]|)
  }

  /** What is sent is no less than what the time since the last filling pays for. */
  lemma Guaranteed(tokens: int, earned: int, burst: int, waiting: int, full: int)
    requires tokens >= 0
    requires full == if tokens + earned < 1000 then tokens
                     else if tokens + earned < 1000 * burst then tokens + earned else 1000 * burst
    ensures Least(waiting, Least(full / 1000, 50)) >= Least(Least(waiting, 50), Least(burst, earned / 1000))
  {
  }

  class RateLimiter {
    const settings: Settings
    const queues: array<seq<Packet>>
    var nQueued: int
    var nextTxPort: nat
    var lastFill: int
    var tokens: int
    var nNormal: nat
    var nLimited: nat
    var nTxDropped: nat
    ghost var clock: int
    ghost var log: seq<Event>

    ghost predicate Valid()
      reads this, queues
    {
      && queues.Length == OFPP_MAX && settings.burst >= 1 && nQueued == Total(queues[..])
      && Legal(settings, log) && Run(settings, log) == Now()
      && nNormal == Count(log, Pass) && nLimited == Count(log, Queue)
    }

    ghost function Now(): State
      reads this, queues
    {
      State(queues[..], nextTxPort, tokens, lastFill, clock)
    }

    /** rate_limit_start */
    constructor (settings: Settings)
      requires settings.burst >= 1
      ensures Valid() && log == [] && fresh(queues) && this.settings == settings
      ensures queues.Length == 0xff00 && nQueued == nTxDropped == nNormal == nLimited == 0
      ensures tokens == 100 * settings.rate && lastFill == settings.start
    {
      this.settings := settings;
      queues := new seq<Packet>[OFPP_MAX](_ => []);
      nQueued, nextTxPort := 0, 0;
      lastFill, clock := settings.start, settings.start;
      tokens := settings.rate * 100;
      nNormal, nLimited, nTxDropped := 0, 0, 0;
      log := [];
      new;
      assert queues[..] == Start(settings).queues;
      TotalZero(queues[..]);
    }

    /** The event just performed belongs to the run. */
    ghost method Record(e: Event, was: State)
      requires Legal(settings, log) && Run(settings, log) == was && Enabled(settings, was, e) && Paid(log, e)
      modifies this`log
      ensures log == old(log) + [e] && Legal(settings, log) && Run(settings, log) == Step(settings, was, e)
      ensures Count(log, Pass) == old(Count(log, Pass)) + if e.Passed? then 1 else 0
      ensures Count(log, Queue) == old(Count(log, Queue)) + if e.Queued? then 1 else 0
      ensures Count(log, Serve) == old(Count(log, Serve)) + if e.Served? then 1 else 0
    {
      Extend(settings, log, e);
      CountAppend(log, e, Pass);
      CountAppend(log, e, Queue);
      CountAppend(log, e, Serve);
      log := log + [e];
    }

    /** drop_packet: drops the head of a longest queue; `draws` are the answers of random_range, by queue. */
    method DropPacket(draws: seq<nat>) returns (ghost p: nat)
      requires queues.Length == OFPP_MAX == |draws| && nQueued == Total(queues[..]) > 0
      modifies this`nQueued, queues
      ensures Longest(old(queues[..]), p) && old(queues[..])[p] != []
      ensures p == DropChoice.Chosen(Lengths(old(queues[..])), OFPP_MAX, draws)
      ensures queues[..] == old(queues[..])[p := old(queues[..])[p][1..]]
      ensures nQueued == old(nQueued) - 1 == Total(queues[..])
    {
      var longest := SelectLongest(draws);
      p := longest;
      LongestNotEmpty(queues[..], longest);
      TotalUpdate(queues[..], longest, queues[longest][1..]);
      queues[longest] := queues[longest][1..];
      nQueued := nQueued - 1;
    }

    /** The scan of drop_packet. */
    method SelectLongest(draws: seq<nat>) returns (longest: nat)
      requires queues.Length == OFPP_MAX == |draws|
      ensures Longest(queues[..], longest) && longest == DropChoice.Chosen(Lengths(queues[..]), OFPP_MAX, draws)
    {
      longest := 0;
      var nLongest := 1;
      var q := 0;
      ghost var lens := Lengths(queues[..]);
      while q < OFPP_MAX
        invariant 0 <= q <= OFPP_MAX && longest < OFPP_MAX
        invariant longest == DropChoice.Chosen(lens, q, draws) && nLongest == DropChoice.Ties(lens, q)
        invariant |queues[longest]| == DropChoice.Top(lens, q)
        invariant forall r :: 0 <= r < q ==> |queues[r]| <= |queues[longest]|
      {
        assert lens[q] == |queues[q]|;
        if |queues[longest]| < |queues[q]| {
          longest, nLongest := q, 1;
        } else if |queues[longest]| == |queues[q]| {
          nLongest := nLongest + 1;
          if draws[q] == 0 {
            longest := q;
          }
        }
        q := q + 1;
      }
    }

    /** dequeue_packet: never gets to the end of the loop. */
    method DequeuePacket() returns (packet: Packet, ghost p: nat)
      requires queues.Length == OFPP_MAX && nextTxPort < OFPP_MAX && nQueued == Total(queues[..]) > 0
      modifies this`nQueued, this`nextTxPort, queues
      ensures old(NextInTurn(Now(), p)) && packet == old(queues[..])[p][0]
      ensures forall r :: 0 <= r < 0xff00 && old(queues[..])[r] != [] ==>
                if old(nextTxPort) <= p then r < old(nextTxPort) || r >= p else p <= r < old(nextTxPort)
      ensures queues[..] == old(queues[..])[p := old(queues[..])[p][1..]]
      ensures nextTxPort == if p == 0xfeff then 0 else p + 1
      ensures nQueued == old(nQueued) - 1 == Total(queues[..])
    {
      var i := 0;
      while i < OFPP_MAX
        invariant 0 <= i <= OFPP_MAX
        invariant forall r :: 0 <= r < OFPP_MAX && queues[r] != [] ==> Ahead(nextTxPort, r) >= i
        invariant queues[..] == old(queues[..]) && nQueued == old(nQueued) && nextTxPort == old(nextTxPort)
      {
        var port := (nextTxPort + i) % OFPP_MAX;
        assert Ahead(nextTxPort, port) == i;
        if queues[port] != [] {
          p := port;
          nextTxPort := (port + 1) % OFPP_MAX;
          nQueued := nQueued - 1;
          packet := queues[port][0];
          TotalUpdate(queues[..], port, queues[port][1..]);
          queues[port] := queues[port][1..];
          return;
        }
        i := i + 1;
      }
      TotalZero(queues[..]);
      assert false;
    }

    /** refill_bucket */
    method RefillBucket(now: int)
      requires Valid() && now >= clock
      modifies this`lastFill, this`tokens, this`clock, this`log
      ensures Valid() && clock == now && log == old(log) + [Refilled(now)]
      ensures var sum := old(tokens) + settings.rate * (now - old(lastFill));
              && lastFill == (if sum < 1000 then old(lastFill) else now)
              && tokens == if sum < 1000 then old(tokens)
                           else if sum < 1000 * settings.burst then sum else 1000 * settings.burst
      ensures Count(log, Serve) == old(Count(log, Serve))
    {
      ghost var was := Now();
      var sum := (now - lastFill) * settings.rate + tokens;
      if sum >= 1000 {
        lastFill := now;
        tokens := if sum < settings.burst * 1000 then sum else settings.burst * 1000;
      }
      clock := now;
      Record(Refilled(now), was);
    }

    /** get_token */
    method GetToken() returns (ok: bool)
      requires Valid()
      modifies this`tokens, this`log
      ensures Valid() && ok == (old(tokens) >= 1000)
      ensures log == old(log) + (if ok then [Granted] else []) && tokens == old(tokens) - if ok then 1000 else 0
      ensures Count(log, Serve) == old(Count(log, Serve))
    {
      if tokens >= 1000 {
        ghost var was := Now();
        tokens := tokens - 1000;
        Record(Granted, was);
        return true;
      } else {
        return false;
      }
    }

    /** A full limiter drops the head of a longest queue. */
    method MakeRoom(draws: seq<nat>)
      requires Valid() && |draws| == OFPP_MAX
      modifies this`nQueued, this`log, queues
      ensures Valid() && nQueued == Least(old(nQueued), settings.burst - 1)
      ensures if old(nQueued) < settings.burst then log == old(log)
              else |log| == |old(log)| + 1 && Front(log) == old(log) && Last(log).Dropped?
    {
      Bounds(settings, log);
      if nQueued >= settings.burst {
        ghost var was := Now();
        ghost var p := DropPacket(draws);
        ghost var e := Dropped(p, was.queues[p][0]);
        assert Enabled(settings, was, e);
        assert Now() == Step(settings, was, e);
        Record(e, was);
      }
    }

    /** The packet is held back. */
    method Hold(x: Packet, draws: seq<nat>)
      requires Valid() && |draws| == OFPP_MAX
      modifies this`nQueued, this`nLimited, this`log, queues
      ensures Valid() && nQueued == Least(old(nQueued) + 1, settings.burst) && nLimited == old(nLimited) + 1
      ensures log != [] && Last(log) == Queued(x)
      ensures |queues[x.inPort % 0xff00]| > 0 && Last(queues[x.inPort % 0xff00]) == x
      ensures if old(nQueued) < settings.burst then Front(log) == old(log)
              else Front(log) != [] && Last(Front(log)).Dropped? && Front(Front(log)) == old(log)
    {
      var port := PortOf(x);
      MakeRoom(draws);
      ghost var was := Now();
      TotalUpdate(queues[..], port, queues[port] + [x]);
      queues[port] := queues[port] + [x];
      nQueued := nQueued + 1;
      nLimited := nLimited + 1;
      Record(Queued(x), was);
    }

    method LetThrough(x: Packet)
      requires Valid() && nQueued == 0 && log != [] && Last(log) == Granted
      modifies this`nNormal, this`log
      ensures Valid() && log == old(log) + [Passed(x)] && nNormal == old(nNormal) + 1
    {
      nNormal := nNormal + 1;
      Record(Passed(x), Now());
    }

    /** rate_limit_local_packet_cb: whether the packet is taken over by the limiter. */
    method LocalPacket(x: Packet, draws: seq<nat>) returns (held: bool)
      requires Valid() && |draws| == OFPP_MAX
      modifies this`nQueued, this`nLimited, this`nNormal, this`tokens, this`log, queues
      ensures Valid() && held == (!x.fromAction && !(old(nQueued) == 0 && old(tokens) >= 1000))
      ensures x.fromAction ==> log == old(log) && nQueued == old(nQueued) && tokens == old(tokens)
                               && nNormal == old(nNormal) && nLimited == old(nLimited)
      ensures !x.fromAction && !held ==>
                log == old(log) + [Granted, Passed(x)] && nQueued == 0 && tokens == old(tokens) - 1000
                && nNormal == old(nNormal) + 1 && nLimited == old(nLimited)
      ensures held ==>
                nQueued == Least(old(nQueued) + 1, settings.burst) && tokens == old(tokens)
                && nNormal == old(nNormal) && nLimited == old(nLimited) + 1
                && |queues[x.inPort % 0xff00]| > 0 && Last(queues[x.inPort % 0xff00]) == x
      ensures held ==>
                log != [] && Last(log) == Queued(x)
                && if old(nQueued) < settings.burst then Front(log) == old(log)
                   else Front(log) != [] && Last(Front(log)).Dropped? && Front(Front(log)) == old(log)
    {
      if x.fromAction {
        return false;
      }
      if nQueued == 0 {
        var ok := GetToken();
        if ok {
          LetThrough(x);
          return false;
        }
      }
      Hold(x, draws);
      return true;
    }

    /** One turn of the loop of rate_limit_periodic_cb. */
    method SendOne(fails: bool)
      requires Valid() && nQueued > 0 && log != [] && Last(log) == Granted
      modifies this`nQueued, this`nextTxPort, this`nTxDropped, this`log, queues
      ensures Valid() && old(log) <= log && nQueued == old(nQueued) - 1
              && nTxDropped == old(nTxDropped) + if fails then 1 else 0
      ensures Count(log, Serve) == old(Count(log, Serve)) + 1
    {
      ghost var was := Now();
      ghost var p;
      var packet;
      packet, p := DequeuePacket();
      if fails {
        nTxDropped := nTxDropped + 1;
      }
      Record(Served(p, packet), was);
    }

    /** The test of the loop of rate_limit_periodic_cb and, if `more` turns are allowed, one turn. */
    method TrySend(more: bool, fails: bool) returns (went: bool)
      requires Valid()
      modifies this`nQueued, this`nextTxPort, this`nTxDropped, this`log, this`tokens, queues
      ensures Valid() && old(log) <= log && went == (old(nQueued) > 0 && old(tokens) >= 1000 && more)
      ensures nQueued == old(nQueued) - if went then 1 else 0
      ensures tokens == old(tokens) - if old(nQueued) > 0 && old(tokens) >= 1000 then 1000 else 0
      ensures Count(log, Serve) == old(Count(log, Serve)) + if went then 1 else 0
      ensures nTxDropped == old(nTxDropped) + if went && fails then 1 else 0
    {
      if nQueued == 0 {
        return false;
      }
      var ok := GetToken();
      if !ok || !more {
        return false;
      }
      SendOne(fails);
      return true;
    }

    /** The loop of rate_limit_periodic_cb. */
    method Drain(fails: nat -> bool) returns (i: nat)
      requires Valid() && tokens >= 0
      modifies this`nQueued, this`nextTxPort, this`nTxDropped, this`log, this`tokens, queues
      ensures Valid() && old(log) <= log && i <= TX_BURST && nQueued == old(nQueued) - i >= 0 && 1000 * i <= old(tokens)
      ensures nQueued == 0 || old(tokens) - 1000 * i < 1000 || i == TX_BURST
      ensures tokens == old(tokens) - 1000 * i
                        - (if i == TX_BURST && nQueued > 0 && old(tokens) - 1000 * i >= 1000 then 1000 else 0)
      ensures Count(log, Serve) == old(Count(log, Serve)) + i && nTxDropped == old(nTxDropped) + Failures(fails, i)
    {
      i := 0;
      ghost var was, t, q, served, dropped := log, tokens, nQueued, Count(log, Serve), nTxDropped;
      var went := true;
      while went
        invariant Valid() && was <= log && i <= TX_BURST && nQueued == q - i && t - 1000 * i >= 0
        invariant tokens == t - 1000 * i - if !went && nQueued > 0 && t - 1000 * i >= 1000 then 1000 else 0
        invariant !went ==> nQueued == 0 || t - 1000 * i < 1000 || i == TX_BURST
        invariant Count(log, Serve) == served + i && nTxDropped == dropped + Failures(fails, i)
        decreases TX_BURST - i, went
      {
        went := TrySend(i < TX_BURST, fails(i));
        if went {
          FailuresNext(fails, i);
          i := i + 1;
        }
      }
    }

    /** rate_limit_periodic_cb: sends as many packets as there are, as are paid for, up to 50, and gives a token
        away for nothing when it stops at 50 with packets and tokens left. */
    method Periodic(now: int, fails: nat -> bool) returns (ghost sent: nat)
      requires Valid() && now >= clock
      modifies this`nQueued, this`nextTxPort, this`nTxDropped, this`log, this`lastFill, this`tokens, this`clock, queues
      ensures Valid() && clock == now && old(log) + [Refilled(now)] <= log
      ensures var sum := old(tokens) + settings.rate * (now - old(lastFill));
              var full := if sum < 1000 then old(tokens)
                          else if sum < 1000 * settings.burst then sum else 1000 * settings.burst;
              && sent == Least(old(nQueued), Least(full / 1000, 50)) && nQueued == old(nQueued) - sent
              && tokens == full - 1000 * sent - if sent == 50 && nQueued > 0 && full - 1000 * sent >= 1000 then 1000
                                                else 0
      ensures sent >= Least(Least(old(nQueued), 50),
                            Least(settings.burst, settings.rate * (now - old(lastFill)) / 1000))
      ensures Count(log, Serve) == old(Count(log, Serve)) + sent
      ensures nTxDropped == old(nTxDropped) + Failures(fails, sent)
    {
      ghost var t, earned, waiting := tokens, settings.rate * (now - lastFill), nQueued;
      Bounds(settings, log);
      RefillBucket(now);
      Guaranteed(t, earned, settings.burst, waiting, tokens);
      Bounds(settings, log);
      sent := Drain(fails);
    }

    /** After a pause long enough to earn `burst` packets, with none waiting, that many in a row are let through. */
    method Burst(now: int, fails: nat -> bool, packets: seq<Packet>, draws: seq<nat>)
      requires Valid() && now >= clock && nQueued == 0 && |draws| == OFPP_MAX
      requires settings.rate * (now - lastFill) >= 1000 * settings.burst
      requires |packets| == settings.burst && forall i :: 0 <= i < |packets| ==> !packets[i].fromAction
      modifies this`nQueued, this`nextTxPort, this`nTxDropped, this`log, this`lastFill, this`tokens, this`clock
      modifies this`nLimited, this`nNormal, queues
      ensures Valid() && nQueued == 0 && nNormal == old(nNormal) + settings.burst && nLimited == old(nLimited)
      ensures old(log) + [Refilled(now)] <= log
    {
      ghost var normal, was := nNormal, log + [Refilled(now)];
      Bounds(settings, log);
      ghost var sent := Periodic(now, fails);
      var i := 0;
      while i < |packets|
        invariant Valid() && 0 <= i <= |packets| && nQueued == 0 && tokens >= 1000 * (|packets| - i)
        invariant nNormal == normal + i && nLimited == old(nLimited) && was <= log
      {
        var held := LocalPacket(packets[i], draws);
        i := i + 1;
      }
    }
  }

  function Least(a: int, b: int): (m: int)
    ensures m <= a && m <= b && (m == a || m == b)
  {
    if a < b then a else b
  }
}
