/** Fixed-width machine words as bit strings, most significant bit first. */
module Words {
  import opened Arith

  type Bits = seq<bool>

  predicate IsWord(w: Bits) { |w| == 32 }

  predicate IsByte(b: Bits) { |b| == 8 }

  type Word = w: Bits | IsWord(w) witness seq(32, _ => false)

  type Byte = b: Bits | IsByte(b) witness seq(8, _ => false)

  function Zeros(n: nat): (z: Bits)
    ensures |z| == n && forall i :: 0 <= i < n ==> !z[i]
  {
    seq(n, _ => false)
  }

  function Xor(a: Bits, b: Bits): (c: Bits)
    requires |a| == |b|
    ensures |c| == |a| && forall i :: 0 <= i < |a| ==> c[i] == (a[i] != b[i])
  {
    seq(|a|, i requires 0 <= i < |a| => a[i] != b[i])
  }

  function And(a: Bits, b: Bits): (c: Bits)
    requires |a| == |b|
    ensures |c| == |a| && forall i :: 0 <= i < |a| ==> c[i] == (a[i] && b[i])
  {
    seq(|a|, i requires 0 <= i < |a| => a[i] && b[i])
  }

  function Or(a: Bits, b: Bits): (c: Bits)
    requires |a| == |b|
    ensures |c| == |a| && forall i :: 0 <= i < |a| ==> c[i] == (a[i] || b[i])
  {
    seq(|a|, i requires 0 <= i < |a| => a[i] || b[i])
  }

  function Shl(w: Word, n: nat): Word
    requires n <= 32
  {
    w[n..] + Zeros(n)
  }

  function Shr(w: Word, n: nat): Word
    requires n <= 32
  {
    Zeros(n) + w[..32 - n]
  }

  function Not(a: Bits): (c: Bits)
    ensures |c| == |a| && forall i :: 0 <= i < |a| ==> c[i] == !a[i]
  {
    seq(|a|, i requires 0 <= i < |a| => !a[i])
  }

  /** The number a bit string denotes. */
  function Val(b: Bits): (v: nat)
    ensures v < Pow2(|b|)
  {
    if b == [] then 0 else (if b[0] then Pow2(|b| - 1) else 0) + Val(b[1..])
  }

  /** The low `n` bits of `v`. */
  function FromNat(v: nat, n: nat): (b: Bits)
    ensures |b| == n
  {
    if n == 0 then [] else [v / Pow2(n - 1) % 2 == 1] + FromNat(v % Pow2(n - 1), n - 1)
  }

  lemma {:induction false} FromVal(b: Bits)
    ensures FromNat(Val(b), |b|) == b
  {
    if b != [] {
      FromVal(b[1..]);
      TopBit(Pow2(|b| - 1), Val(b[1..]));
    }
  }

  lemma {:induction false} ValFrom(v: nat, n: nat)
    requires v < Pow2(n)
    ensures Val(FromNat(v, n)) == v
  {
    if n > 0 {
      var p := Pow2(n - 1);
      var r := if v < p then v else v - p;
      TopBit(p, r);
      assert v / p % 2 == (if v < p then 0 else 1) && v % p == r;
      ValFrom(r, n - 1);
      assert FromNat(v, n)[1..] == FromNat(r, n - 1);
    }
  }

  lemma TopBit(p: nat, rest: nat)
    requires rest < p
    ensures rest / p == 0 && rest % p == rest
    ensures (p + rest) / p == 1 && (p + rest) % p == rest
  {
  }

  function Ones(n: nat): (z: Bits)
    ensures |z| == n && forall i :: 0 <= i < n ==> z[i]
  {
    seq(n, _ => true)
  }

  /** Masking with 2^k - 1 is the remainder modulo 2^k. */
  lemma {:induction false} MaskIsModulo(b: Bits, k: nat)
    requires k <= |b|
    ensures Val(And(b, Zeros(|b| - k) + Ones(k))) == Val(b) % Pow2(k)
  {
    var c := And(b, Zeros(|b| - k) + Ones(k));
    if |b| == k {
      assert c == b;
      TopBit(Pow2(k), Val(b));
    } else {
      MaskIsModulo(b[1..], k);
      assert c[1..] == And(b[1..], Zeros(|b| - 1 - k) + Ones(k));
      if b[0] {
        var q := Pow2Divides(k, |b| - 1);
        ModuloStep(Pow2(k), Val(b[1..]), q);
      }
    }
  }

  lemma {:induction false} ValLeadingZeros(n: nat, b: Bits)
    ensures Val(Zeros(n) + b) == Val(b)
  {
    if n == 0 {
      assert Zeros(n) + b == b;
    } else {
      assert (Zeros(n) + b)[1..] == Zeros(n - 1) + b;
      ValLeadingZeros(n - 1, b);
    }
  }

  lemma {:induction false} ValOnes(n: nat)
    ensures Val(Ones(n)) == Pow2(n) - 1
  {
    if n > 0 {
      assert Ones(n)[1..] == Ones(n - 1);
      ValOnes(n - 1);
    }
  }

  function One(): Word { Zeros(31) + [true] }

  function Less1(w: Bits): (d: Bits)
    requires Val(w) > 0
    ensures |d| == |w|
  {
    FromNat(Val(w) - 1, |w|)
  }

  lemma ValPower(k: nat, n: nat)
    ensures Val(Zeros(k) + ([true] + Zeros(n))) == Pow2(n)
  {
    var b := [true] + Zeros(n);
    ValLeadingZeros(k, b);
    assert b[1..] == Zeros(n) && Zeros(n) == Zeros(n) + [];
    ValLeadingZeros(n, []);
  }

  lemma Less1Is(w: Bits, d: Bits)
    requires |d| == |w| && Val(w) == Val(d) + 1
    ensures Less1(w) == d
  {
    FromVal(d);
  }

  lemma PowerLess1(m: nat, n: nat)
    ensures var w := Zeros(m) + ([true] + Zeros(n)); Val(w) == Pow2(n) && Less1(w) == Zeros(m + 1) + Ones(n)
  {
    ValPower(m, n);
    ValLeadingZeros(m + 1, Ones(n));
    ValOnes(n);
    Less1Is(Zeros(m) + ([true] + Zeros(n)), Zeros(m + 1) + Ones(n));
  }

  /** 1 << n is 2^n, and taking 1 from it leaves n ones. */
  lemma ShiftedOne(n: nat)
    requires n < 32
    ensures Val(Shl(One(), n)) == Pow2(n) && Less1(Shl(One(), n)) == Zeros(32 - n) + Ones(n)
  {
    PowerLess1(31 - n, n);
    assert Shl(One(), n) == Zeros(31 - n) + ([true] + Zeros(n));
  }
}
