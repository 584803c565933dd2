/** Bitwise operations on natural numbers. */
module Bits {
  import opened Bytes

  function And(x: nat, y: nat): nat {
    if x == 0 || y == 0 then 0 else (if x % 2 == 1 && y % 2 == 1 then 1 else 0) + 2 * And(x / 2, y / 2)
  }

  function Or(x: nat, y: nat): nat
    decreases x + y
  {
    if x == 0 && y == 0 then 0 else (if x % 2 == 1 || y % 2 == 1 then 1 else 0) + 2 * Or(x / 2, y / 2)
  }

  lemma {:induction false} NoBits(t: nat)
    ensures !Bit(0, t)
  {
    if t > 0 {
      NoBits(t - 1);
    }
  }

  lemma {:induction false} BitAnd(x: nat, y: nat, t: nat)
    ensures Bit(And(x, y), t) <==> Bit(x, t) && Bit(y, t)
    decreases t
  {
    NoBits(t);
    if x != 0 && y != 0 && t > 0 {
      BitAnd(x / 2, y / 2, t - 1);
    }
  }

  lemma {:induction false} BitOr(x: nat, y: nat, t: nat)
    ensures Bit(Or(x, y), t) <==> Bit(x, t) || Bit(y, t)
    decreases t
  {
    NoBits(t);
    if (x != 0 || y != 0) && t > 0 {
      BitOr(x / 2, y / 2, t - 1);
    }
  }

  lemma {:induction false} BitPow2(j: nat, t: nat)
    ensures Bit(Pow2(j), t) <==> t == j
  {
    if t == 0 {
    } else if j == 0 {
      NoBits(t - 1);
    } else {
      BitPow2(j - 1, t - 1);
    }
  }

  lemma {:induction false} AndBelow(x: nat, y: nat)
    ensures And(x, y) <= x && And(x, y) <= y
  {
    if x != 0 && y != 0 {
      AndBelow(x / 2, y / 2);
    }
  }

  lemma {:induction false} AndSelf(x: nat)
    ensures And(x, x) == x
  {
    if x != 0 {
      AndSelf(x / 2);
    }
  }

  lemma {:induction false} OrBelow(x: nat, y: nat, n: nat)
    requires x < Pow2(n) && y < Pow2(n)
    ensures Or(x, y) < Pow2(n)
    decreases n
  {
    if n > 0 {
      OrBelow(x / 2, y / 2, n - 1);
    }
  }

  /** Numbers with the same bits are the same. */
  lemma {:induction false} SameBits(x: nat, y: nat)
    requires forall t :: Bit(x, t) == Bit(y, t)
    ensures x == y
    decreases x + y
  {
    if x + y > 0 {
      assert Bit(x, 0) == Bit(y, 0);
      forall t: nat
        ensures Bit(x / 2, t) == Bit(y / 2, t)
      {
        assert Bit(x, t + 1) == Bit(y, t + 1);
      }
      SameBits(x / 2, y / 2);
    }
  }

  /** A mask is covered exactly when each of its bits is set. */
  lemma AndCovers(x: nat, m: nat)
    ensures And(x, m) == m <==> forall t :: Bit(m, t) ==> Bit(x, t)
  {
    forall t
      ensures Bit(And(x, m), t) <==> Bit(x, t) && Bit(m, t)
    {
      BitAnd(x, m, t);
    }
    if forall t :: Bit(m, t) ==> Bit(x, t) {
      SameBits(And(x, m), m);
    } else {
      var t :| Bit(m, t) && !Bit(x, t);
      BitAnd(x, m, t);
      var a := And(x, m);
      assert Bit(a, t) != Bit(m, t);
    }
  }

  /** A number other than zero has a bit. */
  lemma {:induction false} FirstBit(x: nat, n: nat) returns (t: nat)
    requires 0 < x < Pow2(n)
    ensures t < n && Bit(x, t)
  {
    if x % 2 == 1 {
      t := 0;
    } else {
      t := FirstBit(x / 2, n - 1);
      t := t + 1;
    }
  }

  // ---- strings of bits ----

  /** Bit k of a string of bytes: the most significant bit of a byte comes first. */
  predicate VectorBit(v: seq<byte>, k: nat)
    requires k < 8 * |v|
  {
    Bit(v[k / 8], 7 - k % 8)
  }

  /** A byte with bit j switched on. */
  function WithBit(b: byte, j: nat): (r: byte)
    requires j < 8
  {
    ByteMask(b, j);
    Or(b, Pow2(j))
  }

  lemma ByteMask(b: byte, j: nat)
    requires j < 8
    ensures 0 <= Or(b, Pow2(j)) < 256
  {
    assert Pow2(8) == 256;
    Pow2Mono(j + 1, 8);
    OrBelow(b, Pow2(j), 8);
  }

  lemma BitWithBit(b: byte, j: nat, t: nat)
    requires j < 8
    ensures Bit(WithBit(b, j), t) <==> Bit(b, t) || t == j
  {
    hide Bit, Or, Pow2;
    BitOr(b, Pow2(j), t);
    BitPow2(j, t);
  }

  lemma VectorSet(v: seq<byte>, n: nat, k: nat)
    requires n < 8 * |v| && k < 8 * |v|
    ensures VectorBit(v[n / 8 := WithBit(v[n / 8], 7 - n % 8)], k) <==> VectorBit(v, k) || k == n
  {
    hide Bit, WithBit;
    if k / 8 == n / 8 {
      BitWithBit(v[n / 8], 7 - n % 8, 7 - k % 8);
      assert k == 8 * (k / 8) + k % 8 && n == 8 * (n / 8) + n % 8;
    }
  }

  lemma NoneSet(v: seq<byte>)
    requires forall j :: 0 <= j < |v| ==> v[j] == 0
    ensures forall k :: 0 <= k < 8 * |v| ==> !VectorBit(v, k)
  {
    forall k | 0 <= k < 8 * |v|
      ensures !VectorBit(v, k)
    {
      NoBits(7 - k % 8);
    }
  }

  lemma SameByte(x: byte, y: byte)
    requires forall t :: 0 <= t < 8 ==> Bit(x, t) == Bit(y, t)
    ensures x == y
  {
    forall t: nat
      ensures Bit(x, t) == Bit(y, t)
    {
      if t >= 8 {
        assert Pow2(8) == 256;
        BitHigh(x, 8, t);
        BitHigh(y, 8, t);
      }
    }
    SameBits(x, y);
  }

  /** Strings of bytes with the same bits are the same. */
  lemma SameVector(v: seq<byte>, w: seq<byte>)
    requires |v| == |w| && forall k :: 0 <= k < 8 * |v| ==> VectorBit(v, k) == VectorBit(w, k)
    ensures v == w
  {
    forall j | 0 <= j < |v|
      ensures v[j] == w[j]
    {
      forall t | 0 <= t < 8
        ensures Bit(v[j], t) == Bit(w[j], t)
      {
        var k := 8 * j + 7 - t;
        assert k / 8 == j && 7 - k % 8 == t;
        assert VectorBit(v, k) == VectorBit(w, k);
      }
      SameByte(v[j], w[j]);
    }
  }
}
