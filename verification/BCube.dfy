/** BCube.cc: which hosts the three levels of n * n switches are wired to. */
module BCube {
  import opened Arith

  /** A host number from its three base-n digits, and back. */
  function Number(n: nat, d2: nat, d1: nat, d0: nat): nat { (d2 * n + d1) * n + d0 }

  datatype Digits = Digits(d2: nat, d1: nat, d0: nat)

  function DigitsOf(n: nat, h: nat): Digits
    requires n > 0
  {
    Digits(h / n / n, h / n % n, h % n)
  }

  predicate IsDigits(n: nat, d: Digits) { d.d2 < n && d.d1 < n && d.d0 < n }

  /** The digits with the one of level `l` set. */
  function With(d: Digits, l: nat, m: nat): Digits {
    if l == 0 then d.(d0 := m) else if l == 1 then d.(d1 := m) else d.(d2 := m)
  }

  function Hosts(n: nat): nat { n * n * n }

  lemma DivBound(h: nat, n: nat, m: nat)
    requires n > 0
    ensures h < m * n <==> h / n < m
  {
    var q, r := h / n, h % n;
    assert h == q * n + r;
    Distribute(q, m, n);
    MultipleBound(n, q - m);
  }

  /** Host numbers below n^3 and triples of digits below n correspond one to one. */
  lemma DigitsAreNumber(n: nat, h: nat)
    requires n > 0 && h < Hosts(n)
    ensures var d := DigitsOf(n, h); IsDigits(n, d) && Number(n, d.d2, d.d1, d.d0) == h
  {
    DivBound(h, n, n * n);
    DivBound(h / n, n, n);
  }

  lemma NumberHasDigits(n: nat, d: Digits)
    requires n > 0 && IsDigits(n, d)
    ensures var h := Number(n, d.d2, d.d1, d.d0); h < Hosts(n) && DigitsOf(n, h) == d
  {
    var h := Number(n, d.d2, d.d1, d.d0);
    DivModUnique(h, n, d.d2 * n + d.d1, d.d0);
    DivModUnique(d.d2 * n + d.d1, n, d.d2, d.d1);
    DivBound(h / n, n, n);
    DivBound(h, n, n * n);
  }

  /** The switch of level `l` that host `h` is wired to. */
  function SwitchOf(n: nat, l: nat, h: nat): nat
    requires n > 0
  {
    var d := DigitsOf(n, h);
    if l == 0 then d.d2 * n + d.d1 else if l == 1 then d.d2 * n + d.d0 else d.d1 * n + d.d0
  }

  /** What every wiring loop must produce: switch i is wired to the n hosts that have it as their switch of that
      level. */
  ghost predicate Wired(n: nat, l: nat, groups: seq<seq<int>>) {
    |groups| == n * n && forall i :: 0 <= i < n * n ==> WiredOne(n, l, i, groups[i])
  }

  ghost predicate WiredOne(n: nat, l: nat, i: nat, group: seq<int>) {
    |group| == n && forall m :: 0 <= m < n ==> group[m] == Member(n, l, i, m)
  }

  /** Member m of switch i: the digits of i in the other two places, and m in place l. */
  function Member(n: nat, l: nat, i: nat, m: nat): nat
    requires n > 0
  {
    if l == 0 then Number(n, i / n, i % n, m)
    else if l == 1 then Number(n, i / n, m, i % n)
    else Number(n, m, i / n, i % n)
  }

  // ---------- the loops ----------

  /** The inner loop: the hosts temp, temp + step, ... below temp + n * step; `j` is where it ends. */
  method Connect(temp: int, step: nat, n: nat) returns (group: seq<int>, j: int)
    requires step > 0
    ensures |group| == n && forall m :: 0 <= m < n ==> group[m] == temp + m * step
    ensures j == temp + n * step
  {
    j, group := temp, [];
    while j < temp + n * step
      invariant |group| <= n && j == temp + |group| * step
      invariant forall m :: 0 <= m < |group| ==> group[m] == temp + m * step
      decreases n - |group|
    {
      Distribute(n, |group|, step);
      MultipleBound(step, n - |group|);
      group := group + [j];
      Distribute(|group| - 1, 1, step);
      j := j + step;
    }
    Distribute(n, |group|, step);
    MultipleBound(step, n - |group|);
  }

  /** Where the wiring of switch i starts. */
  function First(n: nat, l: nat, i: nat): nat
    requires n > 0
  {
    if l == 0 then i * n else if l == 1 then i / n * (n * n) + i % n else i
  }

  function Stride(n: nat, l: nat): nat { if l == 0 then 1 else if l == 1 then n else n * n }

  lemma FirstAndStride(n: nat, l: nat, i: nat, m: nat)
    requires n > 0 && l < 3
    ensures First(n, l, i) + m * Stride(n, l) == Member(n, l, i, m)
  {
    var q, r := i / n, i % n;
    assert i == q * n + r;
    if l == 1 {
      Distribute(q * n, m, n);
    } else if l == 2 {
      Distribute(m * n, q, n);
    }
  }

  /** Level 1 moves on by one within a block of n switches and by a block of hosts at its end. */
  lemma NextFirst(n: nat, i: nat)
    requires n > 0 && i > 0
    ensures First(n, 1, i) == if i % n != 0 then First(n, 1, i - 1) + 1 else First(n, 1, i - 1) - n + 1 + n * n
  {
    var q, r := i / n, i % n;
    if r != 0 {
      DivModUnique(i - 1, n, q, r - 1);
    } else {
      Distribute(q, 1, n);
      DivModUnique(i - 1, n, q - 1, n - 1);
      Distribute(q, 1, n * n);
    }
  }

  lemma Filled(n: nat, l: nat, i: nat, group: seq<int>, temp: int)
    requires n > 0 && l < 3 && |group| == n && temp == First(n, l, i)
    requires forall m :: 0 <= m < n ==> group[m] == temp + m * Stride(n, l)
    ensures WiredOne(n, l, i, group)
  {
    forall m | 0 <= m < n ensures group[m] == Member(n, l, i, m) {
      FirstAndStride(n, l, i, m);
    }
  }

  method WireLevel0(n: nat) returns (groups: seq<seq<int>>)
    requires n > 0
    ensures Wired(n, 0, groups)
  {
    var numSw := n * n;
    var i, j, temp := 0, 0, 0;
    groups := [];
    while i < numSw
      invariant i == |groups| <= numSw && j == First(n, 0, i)
      invariant forall k :: 0 <= k < i ==> WiredOne(n, 0, k, groups[k])
    {
      temp := j;
      var group;
      group, j := Connect(temp, 1, n);
      Filled(n, 0, i, group, temp);
      Distribute(i, 1, n);
      groups := groups + [group];
      i := i + 1;
    }
  }

  method WireLevel1(n: nat) returns (groups: seq<seq<int>>)
    requires n > 0
    ensures Wired(n, 1, groups)
  {
    var numSw := n * n;
    var i, j, temp := 0, 0, 0;
    groups := [];
    while i < numSw
      invariant i == |groups| <= numSw && (i > 0 ==> temp == First(n, 1, i - 1))
      invariant forall k :: 0 <= k < i ==> WiredOne(n, 1, k, groups[k])
    {
      if i == 0 {
        j := 0;
        temp := j;
      } else {
        NextFirst(n, i);
      }
      if i % n != 0 {
        j := temp + 1;
        temp := j;
      }
      if i % n == 0 && i != 0 {
        j := temp - n + 1;
        j := j + n * n;
        temp := j;
      }
      var group;
      group, j := Connect(temp, n, n);
      Filled(n, 1, i, group, temp);
      groups := groups + [group];
      i := i + 1;
    }
  }

  method WireLevel2(n: nat) returns (groups: seq<seq<int>>)
    requires n > 0
    ensures Wired(n, 2, groups)
  {
    var numSw := n * n;
    var i, j, temp := 0, 0, 0;
    var temp2, temp3 := n * n, n * n * n;
    groups := [];
    while i < numSw
      invariant i == |groups| <= numSw && (i > 0 ==> temp == i - 1)
      invariant forall k :: 0 <= k < i ==> WiredOne(n, 2, k, groups[k])
    {
      if i == 0 {
        j := 0;
        temp := j;
      }
      DivModUnique(i, temp2, 0, i);
      if i % temp2 != 0 {
        j := temp + 1;
        temp := j;
      }
      if i % temp2 == 0 && i != 0 {
        j := temp - temp2 + 1;
        j := j + temp3;
        temp := j;
      }
      var group;
      group, j := Connect(temp, temp2, n);
      Filled(n, 2, i, group, temp);
      groups := groups + [group];
      i := i + 1;
    }
  }

  // ---------- what the wiring means ----------

  function Digit(d: Digits, l: nat): nat { if l == 0 then d.d0 else if l == 1 then d.d1 else d.d2 }

  lemma MemberDigits(n: nat, l: nat, i: nat, m: nat)
    requires n > 0 && l < 3 && i < n * n && m < n
    ensures var h := Member(n, l, i, m); h < Hosts(n) && SwitchOf(n, l, h) == i && Digit(DigitsOf(n, h), l) == m
  {
    DivBound(i, n, n);
    var q, r := i / n, i % n;
    assert i == q * n + r;
    var d := if l == 0 then Digits(q, r, m) else if l == 1 then Digits(q, m, r) else Digits(m, q, r);
    assert Member(n, l, i, m) == Number(n, d.d2, d.d1, d.d0);
    NumberHasDigits(n, d);
  }

  lemma HostIsMember(n: nat, l: nat, h: nat)
    requires n > 0 && l < 3 && h < Hosts(n)
    ensures var i := SwitchOf(n, l, h); i < n * n && h == Member(n, l, i, Digit(DigitsOf(n, h), l))
  {
    DigitsAreNumber(n, h);
    var d := DigitsOf(n, h);
    var q, r := if l == 2 then d.d1 else d.d2, if l == 0 then d.d1 else d.d0;
    DivModUnique(q * n + r, n, q, r);
    DivBound(q * n + r, n, n);
  }

  /** The switches of a level partition the hosts into groups of n: every host below n^3 is wired to exactly one
      switch, once. */
  lemma Partition(n: nat, l: nat, groups: seq<seq<int>>)
    requires n > 0 && l < 3 && Wired(n, l, groups)
    ensures forall h: nat, i :: h < Hosts(n) && 0 <= i < n * n ==> (h in groups[i] <==> SwitchOf(n, l, h) == i)
    ensures forall h: nat :: h < Hosts(n) ==> SwitchOf(n, l, h) < n * n
    ensures forall i, m :: 0 <= i < n * n && 0 <= m < n ==> groups[i][m] < Hosts(n)
    ensures forall i, m, k :: 0 <= i < n * n && 0 <= m < k < n ==> groups[i][m] != groups[i][k]
  {
    forall h: nat, i | h < Hosts(n) && 0 <= i < n * n ensures h in groups[i] <==> SwitchOf(n, l, h) == i {
      HostIsMember(n, l, h);
      assert WiredOne(n, l, i, groups[i]);
      if SwitchOf(n, l, h) == i {
        DigitsAreNumber(n, h);
        assert groups[i][Digit(DigitsOf(n, h), l)] == h;
      }
      if h in groups[i] {
        var m :| 0 <= m < n && groups[i][m] == h;
        MemberDigits(n, l, i, m);
      }
    }
    forall h: nat | h < Hosts(n) ensures SwitchOf(n, l, h) < n * n { HostIsMember(n, l, h); }
    forall i, m | 0 <= i < n * n && 0 <= m < n ensures groups[i][m] < Hosts(n) {
      assert WiredOne(n, l, i, groups[i]);
      MemberDigits(n, l, i, m);
    }
    forall i, m, k | 0 <= i < n * n && 0 <= m < k < n ensures groups[i][m] != groups[i][k] {
      assert WiredOne(n, l, i, groups[i]);
      MemberDigits(n, l, i, m);
      MemberDigits(n, l, i, k);
    }
  }

  /** Two hosts have the same switch of level l if and only if their digits agree everywhere but in place l. */
  lemma SharedSwitch(n: nat, l: nat, g: nat, h: nat)
    requires n > 0 && l < 3 && g < Hosts(n) && h < Hosts(n)
    ensures SwitchOf(n, l, g) == SwitchOf(n, l, h) <==>
              forall k :: 0 <= k < 3 && k != l ==> Digit(DigitsOf(n, g), k) == Digit(DigitsOf(n, h), k)
  {
    HostIsMember(n, l, g);
    HostIsMember(n, l, h);
    DigitsAreNumber(n, g);
    DigitsAreNumber(n, h);
    var d, e := DigitsOf(n, g), DigitsOf(n, h);
    var q, r := if l == 2 then d.d1 else d.d2, if l == 0 then d.d1 else d.d0;
    DivModUnique(q * n + r, n, q, r);
    var s, t := if l == 2 then e.d1 else e.d2, if l == 0 then e.d1 else e.d0;
    DivModUnique(s * n + t, n, s, t);
    assert q == Digit(d, if l == 2 then 1 else 2) && r == Digit(d, if l == 0 then 1 else 0);
    assert s == Digit(e, if l == 2 then 1 else 2) && t == Digit(e, if l == 0 then 1 else 0);
  }

  /** Two distinct hosts share at most one switch. */
  lemma AtMostOneShared(n: nat, l: nat, k: nat, g: nat, h: nat)
    requires n > 0 && l < k < 3 && g < Hosts(n) && h < Hosts(n) && g != h
    ensures !(SwitchOf(n, l, g) == SwitchOf(n, l, h) && SwitchOf(n, k, g) == SwitchOf(n, k, h))
  {
    SharedSwitch(n, l, g, h);
    SharedSwitch(n, k, g, h);
    DigitsAreNumber(n, g);
    DigitsAreNumber(n, h);
    var d, e := DigitsOf(n, g), DigitsOf(n, h);
    assert d.d0 == Digit(d, 0) && d.d1 == Digit(d, 1) && d.d2 == Digit(d, 2);
    assert e.d0 == Digit(e, 0) && e.d1 == Digit(e, 1) && e.d2 == Digit(e, 2);
  }

  /** Any host reaches any other over one switch of every level, in any order of levels. */
  lemma ThreeHops(n: nat, a: nat, b: nat, c: nat, g: nat, h: nat) returns (x: nat, y: nat)
    requires n > 0 && {a, b, c} == {0, 1, 2} && g < Hosts(n) && h < Hosts(n)
    ensures x < Hosts(n) && y < Hosts(n)
    ensures SwitchOf(n, a, g) == SwitchOf(n, a, x) && SwitchOf(n, b, x) == SwitchOf(n, b, y)
            && SwitchOf(n, c, y) == SwitchOf(n, c, h)
  {
    DigitsAreNumber(n, g);
    DigitsAreNumber(n, h);
    var e := DigitsOf(n, h);
    var d := With(DigitsOf(n, g), a, Digit(e, a));
    x := Number(n, d.d2, d.d1, d.d0);
    NumberHasDigits(n, d);
    var f := With(d, b, Digit(e, b));
    y := Number(n, f.d2, f.d1, f.d0);
    NumberHasDigits(n, f);
    assert a in {0, 1, 2} && b in {0, 1, 2} && c in {0, 1, 2} && a != b && b != c && a != c by {
      assert 0 in {a, b, c} && 1 in {a, b, c} && 2 in {a, b, c};
    }
    SharedSwitch(n, a, g, x);
    SharedSwitch(n, b, x, y);
    SharedSwitch(n, c, y, h);
  }
}
