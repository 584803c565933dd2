/**
 Numbers as limbs in base 2^26 (crypto/secp256k1/field.go): value, carrying, and the columns of a
 product.
 */
module Limbs {
  const BASE: nat := 0x400_0000

  /** The number that limbs stand for, least significant first. */
  function Value(s: seq<int>): int {
    if s == [] then 0 else s[0] + BASE * Value(s[1..])
  }

  function Mul(x: int, y: int): int {
    x * y
  }

  function BasePower(n: nat): nat {
    if n == 0 then 1 else BASE * BasePower(n - 1)
  }

  lemma {:induction false} ValueAppend(s: seq<int>, x: int)
    ensures Value(s + [x]) == Value(s) + Mul(BasePower(|s|), x)
  {
    hide Mul;
    MulOne(x);
    if s == [] {
      assert s + [x] == [x];
    } else {
      assert (s + [x])[1..] == s[1..] + [x];
      ValueAppend(s[1..], x);
      MulBase(BasePower(|s| - 1), x);
    }
  }

  lemma MulOne(x: int)
    ensures Mul(1, x) == x && Mul(x, 0) == 0 && Mul(0, x) == 0
  {
  }

  lemma MulBase(b: int, c: int)
    ensures BASE * Mul(b, c) == Mul(BASE * b, c)
  {
  }

  lemma {:induction false} ValueConcat(s: seq<int>, t: seq<int>)
    ensures Value(s + t) == Value(s) + Mul(BasePower(|s|), Value(t))
  {
    hide Mul;
    MulOne(Value(t));
    if s == [] {
      assert s + t == t;
    } else {
      assert (s + t)[1..] == s[1..] + t;
      ValueConcat(s[1..], t);
      MulBase(BasePower(|s| - 1), Value(t));
    }
  }

  // ---- sums and multiples ----

  function Plus(s: seq<int>, t: seq<int>): seq<int>
    requires |s| == |t|
  {
    seq(|s|, i requires 0 <= i < |s| => s[i] + t[i])
  }

  lemma {:induction false} ValuePlus(s: seq<int>, t: seq<int>)
    requires |s| == |t|
    ensures Value(Plus(s, t)) == Value(s) + Value(t)
  {
    if s != [] {
      ValuePlus(s[1..], t[1..]);
      assert Plus(s, t)[1..] == Plus(s[1..], t[1..]);
    }
  }

  function Scaled(c: int, s: seq<int>): seq<int> {
    seq(|s|, i requires 0 <= i < |s| => Mul(c, s[i]))
  }

  lemma {:induction false} ValueScaled(c: int, s: seq<int>)
    ensures Value(Scaled(c, s)) == Mul(c, Value(s))
  {
    hide Mul;
    MulOne(c);
    if s != [] {
      ValueScaled(c, s[1..]);
      assert Scaled(c, s)[1..] == Scaled(c, s[1..]);
      Distribute(c, s[0], Value(s[1..]));
    }
  }

  lemma Distribute(c: int, x: int, y: int)
    ensures Mul(c, x) + BASE * Mul(c, y) == Mul(c, x + BASE * y)
  {
  }

  function ZeroLimbs(n: nat): seq<int> {
    seq(n, _ => 0)
  }

  lemma {:induction false} ValueZeros(n: nat)
    ensures Value(ZeroLimbs(n)) == 0
  {
    if n > 0 {
      ValueZeros(n - 1);
      assert ZeroLimbs(n)[1..] == ZeroLimbs(n - 1);
    }
  }

  // ---- the columns of a product ----

  /** Column k of the product of two numbers of ten limbs, from row i on. */
  function ColumnFrom(v: seq<int>, w: seq<int>, k: nat, i: nat): int
    requires |v| == |w| == 10 && i <= 10
    decreases 10 - i
  {
    if i == 10 then 0 else (if 0 <= k - i < 10 then Mul(v[i], w[k - i]) else 0) + ColumnFrom(v, w, k, i + 1)
  }

  function Columns(v: seq<int>, w: seq<int>, i: nat): seq<int>
    requires |v| == |w| == 10 && i <= 10
  {
    seq(19, k requires 0 <= k < 19 => ColumnFrom(v, w, k, i))
  }

  /** Row i of the product, moved to its place. */
  function Row(v: seq<int>, w: seq<int>, i: nat): seq<int>
    requires |v| == |w| == 10 && i < 10
  {
    ZeroLimbs(i) + Scaled(v[i], w) + ZeroLimbs(9 - i)
  }

  lemma RowValue(v: seq<int>, w: seq<int>, i: nat)
    requires |v| == |w| == 10 && i < 10
    ensures Value(Row(v, w, i)) == Mul(BasePower(i), Mul(v[i], Value(w)))
  {
    hide Scaled, ZeroLimbs, Mul, Value, BasePower;
    MulOne(BasePower(i + 10));
    ScaledLength(v[i], w);
    var z, s := ZeroLimbs(9 - i), Scaled(v[i], w);
    ZerosLength(i);
    ZerosLength(9 - i);
    ValueZeros(i);
    ValueZeros(9 - i);
    ValueScaled(v[i], w);
    ValueConcat(ZeroLimbs(i) + s, z);
    ValueConcat(ZeroLimbs(i), s);
  }

  lemma ScaledLength(c: int, s: seq<int>)
    ensures |Scaled(c, s)| == |s|
  {
  }

  lemma ZerosLength(n: nat)
    ensures |ZeroLimbs(n)| == n
  {
  }

  lemma ColumnsStep(v: seq<int>, w: seq<int>, i: nat)
    requires |v| == |w| == 10 && i < 10
    ensures Columns(v, w, i) == Plus(Row(v, w, i), Columns(v, w, i + 1))
  {
  }

  /** The columns from row i on make the product of the limbs from i on. */
  lemma {:induction false} ColumnsValue(v: seq<int>, w: seq<int>, i: nat)
    requires |v| == |w| == 10 && i <= 10
    ensures Value(Columns(v, w, i)) == Mul(BasePower(i), Mul(Value(v[i..]), Value(w)))
    decreases 10 - i
  {
    hide Columns, Row, Mul;
    if i == 10 {
      MulOne(Value(w));
      MulOne(BasePower(10));
      NoColumns(v, w);
    } else {
      ColumnsValue(v, w, i + 1);
      RowValue(v, w, i);
      ColumnsStep(v, w, i);
      ColumnsLength(v, w, i);
      ValuePlus(Row(v, w, i), Columns(v, w, i + 1));
      assert v[i..][1..] == v[i + 1..];
      Gather(BasePower(i), v[i], Value(v[i + 1..]), Value(w));
    }
  }

  lemma ColumnsLength(v: seq<int>, w: seq<int>, i: nat)
    requires |v| == |w| == 10 && i < 10
    ensures |Columns(v, w, i + 1)| == |Row(v, w, i)| == 19
  {
  }

  lemma NoColumns(v: seq<int>, w: seq<int>)
    requires |v| == |w| == 10
    ensures Value(Columns(v, w, 10)) == 0 && Value(v[10..]) == 0
  {
    assert Columns(v, w, 10) == ZeroLimbs(19);
    ValueZeros(19);
  }

  lemma Gather(p: int, x: int, y: int, w: int)
    ensures Mul(p, Mul(x, w)) + Mul(BASE * p, Mul(y, w)) == Mul(p, Mul(x + BASE * y, w))
  {
    assert Mul(x + BASE * y, w) == Mul(x, w) + BASE * Mul(y, w);
    var a, b := Mul(x, w), Mul(y, w);
    hide Mul;
    MulSum(p, a, BASE * b);
    MulBase(p, b);
    MulScale(p, b);
  }

  lemma MulSum(p: int, a: int, b: int)
    ensures Mul(p, a + b) == Mul(p, a) + Mul(p, b)
  {
  }

  lemma MulScale(p: int, b: int)
    ensures Mul(p, BASE * b) == BASE * Mul(p, b)
  {
  }

  // ---- carrying ----

  function Shift(x: int): int {
    x / BASE
  }

  function Mask(x: int): int {
    x % BASE
  }

  lemma ShiftMask(x: int)
    ensures x == BASE * Shift(x) + Mask(x)
  {
  }

  lemma MaskBound()
    ensures forall x: int :: 0 <= Mask(x) < BASE
  {
  }

  /** What is carried into and collected in column k. */
  function Carried(s: seq<int>, k: nat): int
    requires k < |s|
  {
    (if k == 0 then 0 else Shift(Carried(s, k - 1))) + s[k]
  }

  /** The limbs that carrying leaves in the first n columns. */
  function Settled(s: seq<int>, n: nat): seq<int>
    requires n <= |s|
  {
    seq(n, k requires 0 <= k < n => Mask(Carried(s, k)))
  }

  lemma SettledStep(s: seq<int>, k: nat)
    requires k < |s|
    ensures Settled(s, k + 1) == Settled(s, k) + [Mask(Carried(s, k))] && |Settled(s, k)| == k
  {
    hide Carried, Mask;
  }

  lemma {:induction false} CarryValue(s: seq<int>, n: nat)
    requires 0 < n <= |s|
    ensures Value(Settled(s, n)) + Mul(BasePower(n), Shift(Carried(s, n - 1))) == Value(s[..n])
  {
    hide Mul;
    var k := n - 1;
    var m, p := Carried(s, k), BasePower(k);
    var c := if k == 0 then 0 else Shift(Carried(s, k - 1));
    assert m == c + s[k] && BasePower(n) == BASE * p;
    assert s[..n] == s[..k] + [s[k]];
    ShiftMask(m);
    SettledStep(s, k);
    ValueAppend(Settled(s, k), Mask(m));
    ValueAppend(s[..k], s[k]);
    if k > 0 {
      CarryValue(s, k);
    }
    hide Carried, Settled, BasePower, Shift, Mask;
    CarryStep(p, Shift(m), Mask(m), m, c, s[k]);
  }

  lemma CarryStep(p: int, q: int, r: int, m: int, c: int, x: int)
    requires m == BASE * q + r && m == c + x
    ensures Mul(p, r) + Mul(BASE * p, q) == Mul(p, c) + Mul(p, x)
    ensures c == 0 ==> Mul(p, c) == 0
  {
    hide Mul;
    MulOne(p);
    MulSum(p, BASE * q, r);
    MulScale(p, q);
    MulBase(p, q);
    MulSum(p, c, x);
  }
}
