/** crc32.c: the table-driven CRC, against bit-serial division and polynomial long division. */
module Crc {
  import opened Words

  /** One turn of the inner loop of crc32_init. */
  function Step(poly: Word, r: Word): Word {
    if r[0] then Xor(Shl(r, 1), poly) else Shl(r, 1)
  }

  function Steps(poly: Word, r: Word, n: nat): Word {
    if n == 0 then r else Step(poly, Steps(poly, r, n - 1))
  }

  /** What the table holds for a leading byte. */
  function Entry(poly: Word, b: Byte): Word { Steps(poly, b + Zeros(24), 8) }

  class Table {
    const table: array<Word>
    ghost const poly: Word

    ghost predicate Valid()
      reads table
    {
      table.Length == 256 && forall i :: 0 <= i < 256 ==> table[i] == Entry(poly, FromNat(i, 8))
    }

    /** crc32_init */
    constructor (polynomial: Word)
      ensures Valid() && poly == polynomial && fresh(table)
    {
      table := new Word[256];
      poly := polynomial;
      new;
      var i := 0;
      while i < 256
        invariant 0 <= i <= 256
        invariant forall k :: 0 <= k < i ==> table[k] == Entry(polynomial, FromNat(k, 8))
      {
        var reg: Word := FromNat(i, 8) + Zeros(24);
        var j := 0;
        while j < 8
          invariant 0 <= j <= 8 && reg == Steps(polynomial, FromNat(i, 8) + Zeros(24), j)
        {
          var topBit := reg[0];
          reg := Shl(reg, 1);
          if topBit {
            reg := Xor(reg, polynomial);
          }
          j := j + 1;
        }
        table[i] := reg;
        i := i + 1;
      }
    }

    lemma Row(b: Byte)
      requires Valid()
      ensures Val(b) < 256 && table[Val(b)] == Entry(poly, b)
    {
      FromVal(b);
    }

    /** crc32_calculate */
    method Calculate(data: seq<Byte>) returns (result: Word)
      requires Valid()
      ensures result == Crc32(poly, data)
    {
      result := Zeros(32);
      var i := 0;
      while i < |data|
        invariant 0 <= i <= |data| && result == Crc32(poly, data[..i])
      {
        var top: Byte := Xor(result[..8], data[i]);
        ByteStep(poly, result, data[i]);
        Row(top);
        CrcSnoc(poly, data[..i], data[i]);
        assert data[..i + 1] == data[..i] + [data[i]];
        result := Xor(Shl(result, 8), table[Val(top)]);
        i := i + 1;
      }
      assert data[..i] == data;
    }
  }

  // ---------- bit-serial division ----------

  /** Shifts one message bit into the register. */
  function FeedBit(poly: Word, r: Word, bit: bool): Word {
    if r[0] != bit then Xor(Shl(r, 1), poly) else Shl(r, 1)
  }

  function Feed(poly: Word, r: Word, bits: Bits): Word
    decreases |bits|
  {
    if |bits| == 0 then r else Feed(poly, FeedBit(poly, r, bits[0]), bits[1..])
  }

  /** The message as bits, most significant first. */
  function Message(data: seq<Byte>): Bits {
    if |data| == 0 then [] else data[0] + Message(data[1..])
  }

  /** The CRC of a message, one bit at a time from an all-zero register. */
  function Crc32(poly: Word, data: seq<Byte>): Word { Feed(poly, Zeros(32), Message(data)) }

  lemma {:induction false} FeedSplit(poly: Word, r: Word, a: Bits, b: Bits)
    ensures Feed(poly, r, a + b) == Feed(poly, Feed(poly, r, a), b)
    decreases |a|
  {
    if |a| == 0 {
      assert a + b == b;
    } else {
      assert (a + b)[1..] == a[1..] + b;
      FeedSplit(poly, FeedBit(poly, r, a[0]), a[1..], b);
    }
  }

  lemma {:induction false} MessageSnoc(data: seq<Byte>, b: Byte)
    ensures Message(data + [b]) == Message(data) + b
  {
    if |data| == 0 {
      assert data + [b] == [b];
    } else {
      assert (data + [b])[1..] == data[1..] + [b];
      MessageSnoc(data[1..], b);
    }
  }

  lemma FeedLast(poly: Word, r: Word, x: Bits, n: nat)
    requires 0 < n <= |x|
    ensures Feed(poly, r, x[..n]) == FeedBit(poly, Feed(poly, r, x[..n - 1]), x[n - 1])
  {
    assert x[..n] == x[..n - 1] + [x[n - 1]];
    FeedSplit(poly, r, x[..n - 1], [x[n - 1]]);
  }

  lemma CrcSnoc(poly: Word, data: seq<Byte>, b: Byte)
    ensures Crc32(poly, data + [b]) == Feed(poly, Crc32(poly, data), b)
  {
    MessageSnoc(data, b);
    FeedSplit(poly, Zeros(32), Message(data), b);
  }

  /** Message bits `x` waiting above the register may be fed in as they reach its top. */
  lemma {:induction false} StepsWithPending(poly: Word, r: Word, x: Word, n: nat)
    requires n <= 32
    ensures Steps(poly, Xor(r, x), n) == Xor(Feed(poly, r, x[..n]), Shl(x, n))
  {
    if n == 0 {
      assert Shl(x, 0) == x;
    } else {
      StepsWithPending(poly, r, x, n - 1);
      FeedLast(poly, r, x, n);
      StepWithPending(poly, Feed(poly, r, x[..n - 1]), Shl(x, n - 1));
      assert Shl(Shl(x, n - 1), 1) == Shl(x, n);
    }
  }

  lemma StepWithPending(poly: Word, r: Word, x: Word)
    ensures Step(poly, Xor(r, x)) == Xor(FeedBit(poly, r, x[0]), Shl(x, 1))
  {
  }

  lemma FeedBitLinear(poly: Word, r: Word, s: Word, a: bool, b: bool)
    ensures FeedBit(poly, Xor(r, s), a != b) == Xor(FeedBit(poly, r, a), FeedBit(poly, s, b))
  {
  }

  lemma {:induction false} FeedLinear(poly: Word, r: Word, s: Word, a: Bits, b: Bits)
    requires |a| == |b|
    ensures Feed(poly, Xor(r, s), Xor(a, b)) == Xor(Feed(poly, r, a), Feed(poly, s, b))
    decreases |a|
  {
    if |a| > 0 {
      FeedBitLinear(poly, r, s, a[0], b[0]);
      assert Xor(a, b)[1..] == Xor(a[1..], b[1..]);
      FeedLinear(poly, FeedBit(poly, r, a[0]), FeedBit(poly, s, b[0]), a[1..], b[1..]);
    }
  }

  /** Zero bits fed under a register with zero top bits only shift it. */
  lemma {:induction false} FeedZeros(poly: Word, r: Word, n: nat)
    requires n <= 32 && forall k :: 0 <= k < n ==> !r[k]
    ensures Feed(poly, r, Zeros(n)) == Shl(r, n)
    decreases n
  {
    if n == 0 {
      assert Shl(r, 0) == r;
    } else {
      assert Zeros(n)[1..] == Zeros(n - 1);
      FeedZeros(poly, Shl(r, 1), n - 1);
      assert Shl(Shl(r, 1), n - 1) == Shl(r, n);
    }
  }

  lemma FeedIsSteps(poly: Word, r: Word, b: Byte)
    ensures Feed(poly, r, b) == Steps(poly, Xor(r, b + Zeros(24)), 8)
  {
    var x: Word := b + Zeros(24);
    StepsWithPending(poly, r, x, 8);
    assert x[..8] == b;
    assert Xor(Feed(poly, r, b), Shl(x, 8)) == Feed(poly, r, b);
  }

  /** The table holds what a byte leaves in an empty register. */
  lemma EntryIsFeed(poly: Word, b: Byte)
    ensures Entry(poly, b) == Feed(poly, Zeros(32), b)
  {
    FeedIsSteps(poly, Zeros(32), b);
    assert Xor(Zeros(32), b + Zeros(24)) == b + Zeros(24);
  }

  /** A register whose top byte is empty is only shifted. */
  lemma LowFeed(poly: Word, r: Word, b: Byte)
    ensures Feed(poly, Zeros(8) + r[8..], b) == Xor(Shl(r, 8), Feed(poly, Zeros(32), b))
  {
    var low: Word, zero: Word := Zeros(8) + r[8..], Zeros(32);
    FeedLinear(poly, low, zero, Zeros(8), b);
    assert Xor(low, zero) == low && Xor(Zeros(8), b) == b;
    FeedZeros(poly, low, 8);
    assert Shl(low, 8) == Shl(r, 8);
  }

  /** The top byte of the register and a message byte only matter together. */
  lemma TopMeetsByte(poly: Word, r: Word, b: Byte)
    ensures Feed(poly, r, b) == Feed(poly, Zeros(8) + r[8..], Xor(r[..8], b))
  {
    var top: Byte, low: Word := Xor(r[..8], b), Zeros(8) + r[8..];
    FeedIsSteps(poly, r, b);
    FeedIsSteps(poly, low, top);
    assert Xor(r, b + Zeros(24)) == Xor(low, top + Zeros(24));
  }

  /** One byte through the table is eight bits through the register. */
  lemma ByteStep(poly: Word, r: Word, b: Byte)
    ensures Xor(Shl(r, 8), Entry(poly, Xor(r[..8], b))) == Feed(poly, r, b)
  {
    var top: Byte := Xor(r[..8], b);
    TopMeetsByte(poly, r, b);
    LowFeed(poly, r, top);
    EntryIsFeed(poly, top);
  }

  // ---------- what the CRC is ----------

  /** Schoolbook division: while more than 32 coefficients are left, a leading one is cancelled by
      x^32 + `poly`. What remains is the remainder. */
  function Remainder(poly: Word, s: Bits): Bits
    decreases |s|
  {
    if |s| <= 32 then s
    else if s[0] then Remainder(poly, Xor(s[1..33], poly) + s[33..])
    else Remainder(poly, s[1..])
  }

  /** A message with a register already folded into its leading coefficients. */
  function Folded(r: Word, bits: Bits): Bits {
    var s := bits + Zeros(32);
    Xor(s[..32], r) + s[32..]
  }

  lemma {:induction false} FeedIsRemainder(poly: Word, r: Word, bits: Bits)
    ensures Feed(poly, r, bits) == Remainder(poly, Folded(r, bits))
    decreases |bits|
  {
    if |bits| == 0 {
      assert Folded(r, bits) == r;
    } else {
      var s, shifted := Folded(r, bits), Folded(Shl(r, 1), bits[1..]);
      assert s[1..] == shifted;
      if s[0] {
        assert Xor(s[1..33], poly) + s[33..] == Folded(FeedBit(poly, r, bits[0]), bits[1..]);
      }
      FeedIsRemainder(poly, FeedBit(poly, r, bits[0]), bits[1..]);
    }
  }

  /** The CRC is the remainder of message * x^32 modulo x^32 + `poly`. */
  lemma CrcIsRemainder(poly: Word, data: seq<Byte>)
    ensures Crc32(poly, data) == Remainder(poly, Message(data) + Zeros(32))
  {
    FeedIsRemainder(poly, Zeros(32), Message(data));
    assert Folded(Zeros(32), Message(data)) == Message(data) + Zeros(32);
  }

  function XorBytes(a: seq<Byte>, b: seq<Byte>): seq<Byte>
    requires |a| == |b|
  {
    if |a| == 0 then [] else [Xor(a[0], b[0])] + XorBytes(a[1..], b[1..])
  }

  lemma {:induction false} MessageOfXor(a: seq<Byte>, b: seq<Byte>)
    requires |a| == |b|
    ensures |Message(a)| == |Message(b)| && Message(XorBytes(a, b)) == Xor(Message(a), Message(b))
  {
    if |a| > 0 {
      MessageOfXor(a[1..], b[1..]);
      assert XorBytes(a, b)[1..] == XorBytes(a[1..], b[1..]);
    }
  }

  /** CRCs of messages of equal length add up without carries. */
  lemma CrcLinear(poly: Word, a: seq<Byte>, b: seq<Byte>)
    requires |a| == |b|
    ensures Crc32(poly, XorBytes(a, b)) == Xor(Crc32(poly, a), Crc32(poly, b))
  {
    MessageOfXor(a, b);
    FeedLinear(poly, Zeros(32), Zeros(32), Message(a), Message(b));
    assert Xor(Zeros(32), Zeros(32)) == Zeros(32);
  }
}
