/** Bitwise operations on unsigned words, defined bit by bit on natural numbers. */
module Bits {

  function Pow2(n: nat): (r: nat)
    ensures r >= 1
  {
    if n == 0 then 1 else 2 * Pow2(n - 1)
  }

  predicate Bit(x: nat, i: nat) {
    if i == 0 then x % 2 == 1 else Bit(x / 2, i - 1)
  }

  function Or(x: nat, y: nat): nat
    decreases x + y
  {
    if x == 0 && y == 0 then 0
    else 2 * Or(x / 2, y / 2) + (if x % 2 == 1 || y % 2 == 1 then 1 else 0)
  }

  function And(x: nat, y: nat): nat {
    if x == 0 then 0
    else 2 * And(x / 2, y / 2) + (if x % 2 == 1 && y % 2 == 1 then 1 else 0)
  }

  // x & !y
  function Clear(x: nat, y: nat): nat {
    if x == 0 then 0
    else 2 * Clear(x / 2, y / 2) + (if x % 2 == 1 && y % 2 == 0 then 1 else 0)
  }

  function Shl(x: nat, n: nat): nat {
    x * Pow2(n)
  }

  // The mask of `count` consecutive bits starting at bit `first`.
  function Mask(first: nat, count: nat): nat {
    Shl(Pow2(count) - 1, first)
  }

  lemma {:induction false} ZeroBit(i: nat)
    ensures !Bit(0, i)
  {
    if i > 0 { ZeroBit(i - 1); }
  }

  lemma {:induction false} OrBit(x: nat, y: nat, i: nat)
    ensures Bit(Or(x, y), i) == (Bit(x, i) || Bit(y, i))
  {
    if x == 0 && y == 0 {
      ZeroBit(i);
    } else if i > 0 {
      OrBit(x / 2, y / 2, i - 1);
    }
  }

  lemma {:induction false} AndBit(x: nat, y: nat, i: nat)
    ensures Bit(And(x, y), i) == (Bit(x, i) && Bit(y, i))
  {
    if x == 0 {
      ZeroBit(i);
    } else if i > 0 {
      AndBit(x / 2, y / 2, i - 1);
    }
  }

  lemma {:induction false} ClearBit(x: nat, y: nat, i: nat)
    ensures Bit(Clear(x, y), i) == (Bit(x, i) && !Bit(y, i))
  {
    if x == 0 {
      ZeroBit(i);
    } else if i > 0 {
      ClearBit(x / 2, y / 2, i - 1);
    }
  }

  // Two words with the same bits are the same word.
  lemma {:induction false} SameBits(x: nat, y: nat)
    requires forall i: nat :: Bit(x, i) == Bit(y, i)
    ensures x == y
    decreases x + y
  {
    if x != 0 || y != 0 {
      assert Bit(x, 0) == Bit(y, 0);
      forall i: nat
        ensures Bit(x / 2, i) == Bit(y / 2, i)
      {
        assert Bit(x, i + 1) == Bit(y, i + 1);
      }
      SameBits(x / 2, y / 2);
    }
  }

  lemma {:induction false} NonzeroHasBit(x: nat) returns (i: nat)
    requires x != 0
    ensures Bit(x, i)
  {
    if x % 2 == 1 {
      i := 0;
    } else {
      var j := NonzeroHasBit(x / 2);
      i := j + 1;
    }
  }

  lemma {:induction false} HighBitClear(x: nat, n: nat, i: nat)
    requires x < Pow2(n) && n <= i
    ensures !Bit(x, i)
  {
    if n == 0 {
      ZeroBit(i);
    } else {
      HighBitClear(x / 2, n - 1, i - 1);
    }
  }

  lemma {:induction false} BoundedByBits(x: nat, n: nat)
    requires forall i: nat :: n <= i ==> !Bit(x, i)
    ensures x < Pow2(n)
  {
    if n == 0 {
      if x != 0 { var i := NonzeroHasBit(x); }
    } else {
      forall i: nat | n - 1 <= i
        ensures !Bit(x / 2, i)
      {
        assert !Bit(x, i + 1);
      }
      BoundedByBits(x / 2, n - 1);
    }
  }

  // OR with a single clear bit adds it.
  lemma {:induction false} OrSetsBit(x: nat, n: nat)
    requires !Bit(x, n)
    ensures Or(x, Pow2(n)) == x + Pow2(n)
    decreases n
  {
    if n == 0 {
      OrZero(x / 2);
    } else {
      OrSetsBit(x / 2, n - 1);
    }
  }

  // The only multiple of m strictly between -m and m is zero.
  lemma SmallMultiple(k: int, m: int, p: int)
    requires m > 0 && k * m == p && -m < p < m
    ensures k == 0
  {
    assert k >= 1 ==> k * m >= m;
    assert k <= -1 ==> k * m <= -m;
  }

  lemma MultipleOf(q: nat, m: nat)
    requires m > 0
    ensures (q * m) % m == 0 && (q * m) / m == q
  {
    var r, d := (q * m) % m, (q * m) / m;
    assert q * m == d * m + r;
    assert (q - d) * m == r;
    SmallMultiple(q - d, m, r);
  }

  lemma {:induction false} OrZero(x: nat)
    ensures Or(x, 0) == x
  {
    if x != 0 { OrZero(x / 2); }
  }

  lemma {:induction false} LowOnes(count: nat, i: nat)
    ensures Bit(Pow2(count) - 1, i) == (i < count)
  {
    if count == 0 {
      ZeroBit(i);
    } else if i > 0 {
      assert (Pow2(count) - 1) / 2 == Pow2(count - 1) - 1;
      LowOnes(count - 1, i - 1);
    }
  }

  lemma ShlStep(x: nat, n: nat)
    requires n > 0
    ensures Shl(x, n) == 2 * Shl(x, n - 1)
  {
    var p := Pow2(n - 1);
    assert x * (2 * p) == 2 * (x * p);
  }

  lemma DoubleBit(y: nat, i: nat)
    ensures Bit(2 * y, i) == (i > 0 && Bit(y, i - 1))
  {
  }

  lemma {:induction false} ShlBit(x: nat, n: nat, i: nat)
    ensures Bit(Shl(x, n), i) == (n <= i && Bit(x, i - n))
  {
    if n > 0 {
      ShlStep(x, n);
      hide Shl;
      DoubleBit(Shl(x, n - 1), i);
      if i > 0 { ShlBit(x, n - 1, i - 1); }
    }
  }

  lemma MaskBit(first: nat, count: nat, i: nat)
    ensures Bit(Mask(first, count), i) == (first <= i < first + count)
  {
    ShlBit(Pow2(count) - 1, first, i);
    if first <= i { LowOnes(count, i - first); }
  }

  lemma HalfMod(x: nat, m: nat)
    requires m > 0
    ensures x % (2 * m) == 2 * ((x / 2) % m) + x % 2
  {
    var q, r := (x / 2) / m, (x / 2) % m;
    assert x / 2 == q * m + r;
    assert x == q * (2 * m) + (2 * r + x % 2);
    DivModUnique(x, 2 * m, q, 2 * r + x % 2);
  }

  // x & !(2^n - 1) rounds x down to a multiple of 2^n.
  lemma {:induction false} ClearLow(x: nat, n: nat)
    ensures Clear(x, Pow2(n) - 1) == x - x % Pow2(n)
    decreases n
  {
    if n == 0 {
      ClearZero(x);
    } else if x != 0 {
      var m := Pow2(n - 1);
      assert Pow2(n) == 2 * m;
      hide Clear, Pow2;
      ClearLow(x / 2, n - 1);
      ClearDouble(x, m);
    }
  }

  lemma ClearDouble(x: nat, m: nat)
    requires m > 0 && Clear(x / 2, m - 1) == x / 2 - x / 2 % m
    ensures Clear(x, 2 * m - 1) == x - x % (2 * m)
  {
    hide Clear;
    RoundDownHalf(x, m);
    ClearStep(x, 2 * m - 1);
  }

  lemma RoundDownHalf(x: nat, m: nat)
    requires m > 0
    ensures 2 * (x / 2 - x / 2 % m) == x - x % (2 * m)
    ensures (2 * m - 1) % 2 == 1 && (2 * m - 1) / 2 == m - 1
  {
    HalfMod(x, m);
  }

  lemma ClearStep(x: nat, y: nat)
    requires y % 2 == 1
    ensures Clear(x, y) == 2 * Clear(x / 2, y / 2)
  {
  }

  lemma {:induction false} ClearZero(x: nat)
    ensures Clear(x, 0) == x
  {
    if x != 0 { ClearZero(x / 2); }
  }

  lemma DivModUnique(x: nat, m: nat, q: nat, r: nat)
    requires m > 0 && r < m && x == q * m + r
    ensures x / m == q && x % m == r
  {
    var q', r' := x / m, x % m;
    assert x == q' * m + r';
    assert (q - q') * m == r' - r;
    SmallMultiple(q - q', m, r' - r);
  }

  // The source's `self.0 & required.0 == required.0`.
  predicate Contains(x: nat, required: nat) {
    And(x, required) == required
  }

  ghost predicate BitsWithin(y: nat, x: nat) {
    forall i: nat :: Bit(y, i) ==> Bit(x, i)
  }

  lemma ContainsBits(x: nat, required: nat)
    ensures Contains(x, required) <==> BitsWithin(required, x)
  {
    if Contains(x, required) {
      forall i: nat | Bit(required, i)
        ensures Bit(x, i)
      {
        AndBit(x, required, i);
      }
      assert BitsWithin(required, x);
    }
    if BitsWithin(required, x) {
      forall i: nat
        ensures Bit(And(x, required), i) == Bit(required, i)
      {
        AndBit(x, required, i);
      }
      SameBits(And(x, required), required);
    }
  }

  lemma {:induction false} OneBit(n: nat, i: nat)
    ensures Bit(Pow2(n), i) == (i == n)
  {
    if n == 0 {
      if i > 0 { ZeroBit(i - 1); }
    } else if i > 0 {
      OneBit(n - 1, i - 1);
    }
  }

  // One required bit, and two.
  lemma ContainsOne(x: nat, n: nat)
    ensures Contains(x, Pow2(n)) <==> Bit(x, n)
  {
    hide Contains, Pow2, Bit;
    ContainsBits(x, Pow2(n));
    forall i: nat
      ensures Bit(Pow2(n), i) == (i == n)
    {
      OneBit(n, i);
    }
  }

  lemma ContainsTwo(x: nat, m: nat, n: nat)
    ensures Contains(x, Or(Pow2(m), Pow2(n))) <==> Bit(x, m) && Bit(x, n)
  {
    hide Contains, Pow2, Bit, Or;
    ContainsBits(x, Or(Pow2(m), Pow2(n)));
    forall i: nat
      ensures Bit(Or(Pow2(m), Pow2(n)), i) == (i == m || i == n)
    {
      OrBit(Pow2(m), Pow2(n), i);
      OneBit(m, i);
      OneBit(n, i);
    }
  }

  lemma ContainsTransitive(x: nat, y: nat, z: nat)
    requires Contains(x, y) && Contains(y, z)
    ensures Contains(x, z)
  {
    ContainsBits(x, y);
    ContainsBits(y, z);
    ContainsBits(x, z);
  }

  lemma Pow2_64()
    ensures Pow2(64) == 0x1_0000_0000_0000_0000
  {
    assert Pow2(8) == 256;
    assert Pow2(16) == 65536;
    assert Pow2(24) == 0x100_0000;
    assert Pow2(32) == 0x1_0000_0000;
    assert Pow2(40) == 0x100_0000_0000;
    assert Pow2(48) == 0x1_0000_0000_0000;
    assert Pow2(56) == 0x100_0000_0000_0000;
  }
}
