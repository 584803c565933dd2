/**
 The field value object (crypto/secp256k1/field.go) and its inverse by a chain of squarings and
 multiplications.
 */
module FieldVal {
  import opened Limbs
  import opened Field

  // ---- powers modulo p ----

  function Power(a: int, e: nat): int {
    if e == 0 then 1 else a * Power(a, e - 1)
  }

  lemma {:induction false} PowerAdd(a: int, e: nat, f: nat)
    ensures Power(a, e + f) == Mul(Power(a, e), Power(a, f))
    decreases e
  {
    if e > 0 {
      PowerAdd(a, e - 1, f);
      assert Power(a, e + f) == a * Power(a, e + f - 1);
      assert e + f - 1 == (e - 1) + f;
      MulRight(a, Power(a, e - 1), Power(a, f));
    }
  }

  lemma MulRight(a: int, x: int, y: int)
    ensures a * Mul(x, y) == Mul(a * x, y)
  {
  }

  lemma MulResidue(x: int, y: int, x': int, y': int)
    requires x % P == x' % P && y % P == y' % P
    ensures Mul(x, y) % P == Mul(x', y') % P
  {
    var k, l := x / P - x' / P, y / P - y' / P;
    assert x == x' + P * k && y == y' + P * l;
    ShiftedProduct(x', y', k, l);
    SameResidue(Mul(x, y), Mul(x', y'), Mul(x', l) + Mul(k, y') + P * Mul(k, l));
  }

  lemma ShiftedProduct(x: int, y: int, k: int, l: int)
    ensures Mul(x + P * k, y + P * l) == Mul(x, y) + (Mul(x, l) + Mul(k, y) + P * Mul(k, l)) * P
  {
    assert (x + P * k) * (y + P * l) == x * y + x * (P * l) + (P * k) * y + (P * k) * (P * l);
    assert x * (P * l) == P * (x * l);
    assert (P * k) * (P * l) == P * (P * (k * l));
  }

  /** The number is the e-th power of a, modulo p. */
  ghost predicate Raised(x: int, a: int, e: nat) {
    x % P == Power(a, e) % P
  }

  lemma RaisedProduct(x: int, y: int, z: int, a: int, e: nat, f: nat)
    requires Raised(x, a, e) && Raised(y, a, f) && z % P == Mul(x, y) % P
    ensures Raised(z, a, e + f)
  {
    hide Power, Mul;
    PowerAdd(a, e, f);
    MulResidue(x, y, Power(a, e), Power(a, f));
  }

  // ---- the object ----

  class FieldVal {
    var n: seq<int>

    constructor ()
      ensures Magnitude(n, 1) && Value(n) == 0
    {
      n := [0, 0, 0, 0, 0, 0, 0, 0, 0, 0];
      new;
      ValueZeros(10);
      assert n == ZeroLimbs(10);
    }

    method Set(val: FieldVal)
      modifies this
      ensures n == old(val.n)
    {
      n := val.n;
    }

    /** The representative below p, unless limbs overflow: see NormalizeExact. */
    method Normalize()
      requires IsLimbs(n)
      modifies this
      ensures IsReduced(n) && Value(n) == (old(Value(n)) - Dropped(old(n))) % P
    {
      n := NormalizeLimbs(n);
    }

    method NegateVal(val: FieldVal, magnitude: nat)
      requires Magnitude(val.n, magnitude) && magnitude <= 63
      modifies this
      ensures Magnitude(n, magnitude + 1) && Value(n) == (magnitude + 1) * P - old(Value(val.n))
    {
      n := NegateLimbs(val.n, magnitude);
    }

    /** The product modulo p; f may be one of the factors. */
    method Mul2(val: FieldVal, val2: FieldVal)
      requires Magnitude(val.n, 8) && Magnitude(val2.n, 8)
      modifies this
      ensures Magnitude(n, 1) && Value(n) % P == Mul(old(Value(val.n)), old(Value(val2.n))) % P
    {
      hide Magnitude, Value, Mul, IsWide;
      var t := ProductColumns(val.n, val2.n);
      n := Reduce(t, Value(t));
    }

    method SquareVal(val: FieldVal)
      requires Magnitude(val.n, 8)
      modifies this
      ensures Magnitude(n, 1) && Value(n) % P == Mul(old(Value(val.n)), old(Value(val.n))) % P
    {
      hide Magnitude, Value, Mul, IsWide;
      var t := SquareColumns(val.n);
      n := Reduce(t, Value(t));
    }

    // ---- the inverse ----

    ghost predicate Holds(a: int, e: nat)
      reads this
    {
      Magnitude(n, 8) && Raised(Value(n), a, e)
    }

    method RaiseProduct(val: FieldVal, val2: FieldVal, ghost a: int, ghost e: nat, ghost f: nat)
      requires val.Holds(a, e) && val2.Holds(a, f)
      modifies this
      ensures Holds(a, e + f)
    {
      hide Value, Mul, Raised;
      ghost var x, y := Value(val.n), Value(val2.n);
      Mul2(val, val2);
      RaisedProduct(x, y, Value(n), a, e, f);
      WithinEight(n);
    }

    method RaiseSquare(val: FieldVal, ghost a: int, ghost e: nat)
      requires val.Holds(a, e)
      modifies this
      ensures Holds(a, 2 * e)
    {
      hide Value, Mul, Raised;
      ghost var x := Value(val.n);
      SquareVal(val);
      RaisedProduct(x, x, Value(n), a, e, e);
      WithinEight(n);
    }

    method SquareFive(ghost a: int, ghost e: nat)
      requires Holds(a, e)
      modifies this
      ensures Holds(a, 32 * e)
    {
      hide FieldVal.Holds;
      RaiseSquare(this, a, e);
      RaiseSquare(this, a, 2 * e);
      RaiseSquare(this, a, 4 * e);
      RaiseSquare(this, a, 8 * e);
      RaiseSquare(this, a, 16 * e);
    }

    /** Ten squarings and a multiplication. */
    method Stretch(val: FieldVal, ghost a: int, ghost e: nat, ghost f: nat)
      requires this != val && Holds(a, e) && val.Holds(a, f)
      modifies this
      ensures Holds(a, 1024 * e + f)
    {
      hide FieldVal.Holds;
      SquareFive(a, e);
      SquareFive(a, 32 * e);
      RaiseProduct(this, val, a, 1024 * e, f);
    }

    method TinyPowers(ghost a: int) returns (a3: FieldVal, a4: FieldVal, a10: FieldVal, a11: FieldVal)
      requires Holds(a, 1)
      ensures fresh(a3) && fresh(a4) && fresh(a10) && fresh(a11)
      ensures a3.Holds(a, 3) && a4.Holds(a, 4) && a10.Holds(a, 10) && a11.Holds(a, 11)
    {
      hide FieldVal.Holds, Magnitude, Value;
      var a2 := new FieldVal();
      a2.RaiseSquare(this, a, 1);
      a3 := new FieldVal();
      a3.RaiseProduct(a2, this, a, 2, 1);
      a4 := new FieldVal();
      a4.RaiseSquare(a2, a, 2);
      a10 := new FieldVal();
      a10.RaiseSquare(a4, a, 4);
      a10.RaiseProduct(a10, a2, a, 8, 2);
      a11 := new FieldVal();
      a11.RaiseProduct(a10, this, a, 10, 1);
    }

    method Power1019(a63: FieldVal, a11: FieldVal, ghost a: int) returns (a1019: FieldVal)
      requires a63.Holds(a, 63) && a11.Holds(a, 11)
      ensures fresh(a1019) && a1019.Holds(a, 1019)
    {
      hide FieldVal.Holds, Magnitude, Value;
      a1019 := new FieldVal();
      a1019.RaiseSquare(a63, a, 63);
      a1019.RaiseSquare(a1019, a, 126);
      a1019.RaiseSquare(a1019, a, 252);
      a1019.RaiseSquare(a1019, a, 504);
      a1019.RaiseProduct(a1019, a11, a, 1008, 11);
    }

    /** The small powers that the chain is built from. */
    method SmallPowers(ghost a: int) returns (a45: FieldVal, a63: FieldVal, a1019: FieldVal, a1023: FieldVal)
      requires Holds(a, 1)
      ensures fresh(a45) && fresh(a63) && fresh(a1019) && fresh(a1023)
      ensures a45.Holds(a, 45) && a63.Holds(a, 63) && a1019.Holds(a, 1019) && a1023.Holds(a, 1023)
    {
      hide FieldVal.Holds, Magnitude, Value;
      var a3, a4, a10, a11 := TinyPowers(a);
      var a21 := new FieldVal();
      a21.RaiseProduct(a10, a11, a, 10, 11);
      var a42 := new FieldVal();
      a42.RaiseSquare(a21, a, 21);
      a45 := new FieldVal();
      a45.RaiseProduct(a42, a3, a, 42, 3);
      a63 := new FieldVal();
      a63.RaiseProduct(a42, a21, a, 42, 21);
      a1019 := Power1019(a63, a11, a);
      a1023 := new FieldVal();
      a1023.RaiseProduct(a1019, a4, a, 1019, 4);
    }

    /** From the power 2^6 - 1 to 2^76 - 1. */
    method ChainTo76(a1023: FieldVal, ghost a: int)
      requires this != a1023 && Holds(a, 0x3F)
      requires a1023.Holds(a, 1023)
      modifies this
      ensures Holds(a, 0xFFFFFFFFFFFFFFFFFFF)
    {
      hide FieldVal.Holds;
      Stretch(a1023, a, 0x3F, 1023);
      Stretch(a1023, a, 0xFFFF, 1023);
      Stretch(a1023, a, 0x3FFFFFF, 1023);
      Stretch(a1023, a, 0xFFFFFFFFF, 1023);
      Stretch(a1023, a, 0x3FFFFFFFFFFF, 1023);
      Stretch(a1023, a, 0xFFFFFFFFFFFFFF, 1023);
      Stretch(a1023, a, 0x3FFFFFFFFFFFFFFFF, 1023);
    }

    /** From the power 2^76 - 1 to 2^146 - 1. */
    method ChainTo146(a1023: FieldVal, ghost a: int)
      requires this != a1023 && Holds(a, 0xFFFFFFFFFFFFFFFFFFF)
      requires a1023.Holds(a, 1023)
      modifies this
      ensures Holds(a, 0x3FFFFFFFFFFFFFFFFFFFFFFFFFFFFFFFFFFFF)
    {
      hide FieldVal.Holds;
      Stretch(a1023, a, 0xFFFFFFFFFFFFFFFFFFF, 1023);
      Stretch(a1023, a, 0x3FFFFFFFFFFFFFFFFFFFFF, 1023);
      Stretch(a1023, a, 0xFFFFFFFFFFFFFFFFFFFFFFFF, 1023);
      Stretch(a1023, a, 0x3FFFFFFFFFFFFFFFFFFFFFFFFFF, 1023);
      Stretch(a1023, a, 0xFFFFFFFFFFFFFFFFFFFFFFFFFFFFF, 1023);
      Stretch(a1023, a, 0x3FFFFFFFFFFFFFFFFFFFFFFFFFFFFFFF, 1023);
      Stretch(a1023, a, 0xFFFFFFFFFFFFFFFFFFFFFFFFFFFFFFFFFF, 1023);
    }

    /** From the power 2^146 - 1 to 2^216 - 1. */
    method ChainTo216(a1023: FieldVal, ghost a: int)
      requires this != a1023 && Holds(a, 0x3FFFFFFFFFFFFFFFFFFFFFFFFFFFFFFFFFFFF)
      requires a1023.Holds(a, 1023)
      modifies this
      ensures Holds(a, 0xFFFFFFFFFFFFFFFFFFFFFFFFFFFFFFFFFFFFFFFFFFFFFFFFFFFFFF)
    {
      hide FieldVal.Holds;
      Stretch(a1023, a, 0x3FFFFFFFFFFFFFFFFFFFFFFFFFFFFFFFFFFFF, 1023);
      Stretch(a1023, a, 0xFFFFFFFFFFFFFFFFFFFFFFFFFFFFFFFFFFFFFFF, 1023);
      Stretch(a1023, a, 0x3FFFFFFFFFFFFFFFFFFFFFFFFFFFFFFFFFFFFFFFFF, 1023);
      Stretch(a1023, a, 0xFFFFFFFFFFFFFFFFFFFFFFFFFFFFFFFFFFFFFFFFFFFF, 1023);
      Stretch(a1023, a, 0x3FFFFFFFFFFFFFFFFFFFFFFFFFFFFFFFFFFFFFFFFFFFFFF, 1023);
      Stretch(a1023, a, 0xFFFFFFFFFFFFFFFFFFFFFFFFFFFFFFFFFFFFFFFFFFFFFFFFF, 1023);
      Stretch(a1023, a, 0x3FFFFFFFFFFFFFFFFFFFFFFFFFFFFFFFFFFFFFFFFFFFFFFFFFFF, 1023);
    }

    /** From the power 2^216 - 1 to p - 2. */
    method ChainToEnd(a1019: FieldVal, a1023: FieldVal, a45: FieldVal, ghost a: int)
      requires this != a1019 && this != a1023 && this != a45 &&
               Holds(a, 0xFFFFFFFFFFFFFFFFFFFFFFFFFFFFFFFFFFFFFFFFFFFFFFFFFFFFFF)
      requires a1019.Holds(a, 1019) && a1023.Holds(a, 1023) && a45.Holds(a, 45)
      modifies this
      ensures Holds(a, 0xFFFFFFFFFFFFFFFFFFFFFFFFFFFFFFFFFFFFFFFFFFFFFFFFFFFFFFFEFFFFFC2D)
    {
      hide FieldVal.Holds;
      Stretch(a1019, a, 0xFFFFFFFFFFFFFFFFFFFFFFFFFFFFFFFFFFFFFFFFFFFFFFFFFFFFFF, 1019);
      Stretch(a1023, a, 0x3FFFFFFFFFFFFFFFFFFFFFFFFFFFFFFFFFFFFFFFFFFFFFFFFFFFFFFFB, 1023);
      Stretch(a1023, a, 0xFFFFFFFFFFFFFFFFFFFFFFFFFFFFFFFFFFFFFFFFFFFFFFFFFFFFFFFEFFF, 1023);
      Stretch(a45, a, 0x3FFFFFFFFFFFFFFFFFFFFFFFFFFFFFFFFFFFFFFFFFFFFFFFFFFFFFFFBFFFFF, 45);
    }

    /** The (p - 2)-th power. */
    method Inverse()
      requires Magnitude(n, 8)
      modifies this
      ensures Magnitude(n, 8) && Raised(Value(n), old(Value(n)), P - 2)
    {
      ghost var a := Value(n);
      RaisedOnce(a);
      assert Holds(a, 1);
      ghost var e := P - 2;
      Exponent(e);
      var a45, a63, a1019, a1023 := SmallPowers(a);
      Set(a63);
      assert Holds(a, 63);
      hide FieldVal.Holds;
      ChainTo76(a1023, a);
      ChainTo146(a1023, a);
      ChainTo216(a1023, a);
      ChainToEnd(a1019, a1023, a45, a);
      Held(a, e);
    }

    lemma Held(a: int, e: nat)
      requires Holds(a, e)
      ensures Magnitude(n, 8) && Raised(Value(n), a, e)
    {
    }
  }

  lemma Exponent(e: nat)
    requires e == P - 2
    ensures e == 0xFFFFFFFFFFFFFFFFFFFFFFFFFFFFFFFFFFFFFFFFFFFFFFFFFFFFFFFEFFFFFC2D
  {
  }

  lemma RaisedOnce(a: int)
    ensures Raised(a, a, 1)
  {
    assert Power(a, 1) == a * Power(a, 0);
  }

  lemma WithinEight(n: seq<int>)
    requires Magnitude(n, 1)
    ensures Magnitude(n, 8)
  {
  }
}
