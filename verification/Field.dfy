/**
 The field of integers modulo p = 2^256 - 4294968273 on ten limbs of 32 bits (crypto/secp256k1/field.go):
 limbs may exceed 26 bits between operations, and all arithmetic is on machine words that wrap around.
 */
module Field {
  import opened Bits
  import opened Limbs

  const C: nat := 4294968273
  const P: nat := 0xFFFF_FFFF_FFFF_FFFF_FFFF_FFFF_FFFF_FFFF_FFFF_FFFF_FFFF_FFFF_FFFF_FFFE_FFFF_FC2F
  const MSB: nat := 0x40_0000

  function Wrap64(x: int): int {
    x % 0x1_0000_0000_0000_0000
  }

  function Wrap32(x: int): int {
    x % 0x1_0000_0000
  }

  /** The largest limb i that a multiplication leaves. Limb 2 takes the last carry without passing it on. */
  function Limit(i: nat): nat {
    if i == 9 then 0x3F_FFFF else if i == 2 then 0x408_0000 else 0x3FF_FFFF
  }

  /** Limbs at most m times those of a reduced number. */
  ghost predicate Magnitude(n: seq<int>, m: nat) {
    |n| == 10 && forall i :: 0 <= i < 10 ==> 0 <= n[i] <= m * Limit(i)
  }

  // ---- the unrolled columns ----

  /** A bound for a product of two limbs of magnitude eight. */
  const SQUARE: nat := 0x2040_0000 * 0x2040_0000

  lemma LimbBound(v: seq<int>, i: nat)
    requires Magnitude(v, 8) && i < 10
    ensures 0 <= v[i] <= 0x2040_0000
    ensures i != 2 ==> v[i] <= 0x1FFF_FFF8
    ensures i == 9 ==> v[i] <= 0x1FF_FFF8
  {
  }

  lemma ProductBound(x: int, y: int, a: int, b: int)
    requires 0 <= x <= a && 0 <= y <= b
    ensures 0 <= Mul(x, y) <= a * b
  {
    assert x * y <= a * y <= a * b;
  }

  lemma MulSwap(v: seq<int>)
    ensures forall i, j :: 0 <= i < |v| && 0 <= j < |v| ==> Mul(v[i], v[j]) == Mul(v[j], v[i])
  {
  }

  lemma {:induction false} ColumnBound(v: seq<int>, w: seq<int>, k: nat, i: nat)
    requires Magnitude(v, 8) && Magnitude(w, 8) && i <= 10
    ensures 0 <= ColumnFrom(v, w, k, i) <= (10 - i) * SQUARE
    decreases 10 - i
  {
    TenLimbs(v, w);
    hide Magnitude, Mul;
    if i < 10 {
      ColumnBound(v, w, k, i + 1);
      if 0 <= k - i < 10 {
        LimbBound(v, i);
        LimbBound(w, k - i);
        ProductBound(v[i], w[k - i], 0x2040_0000, 0x2040_0000);
      }
    }
  }

  lemma ColumnText0(v: seq<int>, w: seq<int>)
    requires |v| == |w| == 10
    ensures ColumnFrom(v, w, 0, 0)
         == Mul(v[0], w[0])
    ensures ColumnFrom(v, w, 1, 0)
         == Mul(v[0], w[1]) + Mul(v[1], w[0])
    ensures ColumnFrom(v, w, 2, 0)
         == Mul(v[0], w[2]) + Mul(v[1], w[1]) + Mul(v[2], w[0])
    ensures ColumnFrom(v, w, 3, 0)
         == Mul(v[0], w[3]) + Mul(v[1], w[2]) + Mul(v[2], w[1]) + Mul(v[3], w[0])
  {
  }

  lemma ColumnText1(v: seq<int>, w: seq<int>)
    requires |v| == |w| == 10
    ensures ColumnFrom(v, w, 4, 0)
         == Mul(v[0], w[4]) + Mul(v[1], w[3]) + Mul(v[2], w[2]) + Mul(v[3], w[1]) + Mul(v[4], w[0])
    ensures ColumnFrom(v, w, 5, 0)
         == Mul(v[0], w[5]) + Mul(v[1], w[4]) + Mul(v[2], w[3]) + Mul(v[3], w[2]) + Mul(v[4], w[1])
            + Mul(v[5], w[0])
    ensures ColumnFrom(v, w, 6, 0)
         == Mul(v[0], w[6]) + Mul(v[1], w[5]) + Mul(v[2], w[4]) + Mul(v[3], w[3]) + Mul(v[4], w[2])
            + Mul(v[5], w[1]) + Mul(v[6], w[0])
  {
  }

  lemma ColumnText2(v: seq<int>, w: seq<int>)
    requires |v| == |w| == 10
    ensures ColumnFrom(v, w, 7, 0)
         == Mul(v[0], w[7]) + Mul(v[1], w[6]) + Mul(v[2], w[5]) + Mul(v[3], w[4]) + Mul(v[4], w[3])
            + Mul(v[5], w[2]) + Mul(v[6], w[1]) + Mul(v[7], w[0])
    ensures ColumnFrom(v, w, 8, 0)
         == Mul(v[0], w[8]) + Mul(v[1], w[7]) + Mul(v[2], w[6]) + Mul(v[3], w[5]) + Mul(v[4], w[4])
            + Mul(v[5], w[3]) + Mul(v[6], w[2]) + Mul(v[7], w[1]) + Mul(v[8], w[0])
    ensures ColumnFrom(v, w, 9, 0)
         == Mul(v[0], w[9]) + Mul(v[1], w[8]) + Mul(v[2], w[7]) + Mul(v[3], w[6]) + Mul(v[4], w[5])
            + Mul(v[5], w[4]) + Mul(v[6], w[3]) + Mul(v[7], w[2]) + Mul(v[8], w[1]) + Mul(v[9], w[0])
  {
  }

  lemma ColumnText3(v: seq<int>, w: seq<int>)
    requires |v| == |w| == 10
    ensures ColumnFrom(v, w, 10, 0)
         == Mul(v[1], w[9]) + Mul(v[2], w[8]) + Mul(v[3], w[7]) + Mul(v[4], w[6]) + Mul(v[5], w[5])
            + Mul(v[6], w[4]) + Mul(v[7], w[3]) + Mul(v[8], w[2]) + Mul(v[9], w[1])
    ensures ColumnFrom(v, w, 11, 0)
         == Mul(v[2], w[9]) + Mul(v[3], w[8]) + Mul(v[4], w[7]) + Mul(v[5], w[6]) + Mul(v[6], w[5])
            + Mul(v[7], w[4]) + Mul(v[8], w[3]) + Mul(v[9], w[2])
    ensures ColumnFrom(v, w, 12, 0)
         == Mul(v[3], w[9]) + Mul(v[4], w[8]) + Mul(v[5], w[7]) + Mul(v[6], w[6]) + Mul(v[7], w[5])
            + Mul(v[8], w[4]) + Mul(v[9], w[3])
  {
  }

  lemma ColumnText4(v: seq<int>, w: seq<int>)
    requires |v| == |w| == 10
    ensures ColumnFrom(v, w, 13, 0)
         == Mul(v[4], w[9]) + Mul(v[5], w[8]) + Mul(v[6], w[7]) + Mul(v[7], w[6]) + Mul(v[8], w[5])
            + Mul(v[9], w[4])
    ensures ColumnFrom(v, w, 14, 0)
         == Mul(v[5], w[9]) + Mul(v[6], w[8]) + Mul(v[7], w[7]) + Mul(v[8], w[6]) + Mul(v[9], w[5])
    ensures ColumnFrom(v, w, 15, 0)
         == Mul(v[6], w[9]) + Mul(v[7], w[8]) + Mul(v[8], w[7]) + Mul(v[9], w[6])
  {
  }

  lemma ColumnText5(v: seq<int>, w: seq<int>)
    requires |v| == |w| == 10
    ensures ColumnFrom(v, w, 16, 0)
         == Mul(v[7], w[9]) + Mul(v[8], w[8]) + Mul(v[9], w[7])
    ensures ColumnFrom(v, w, 17, 0)
         == Mul(v[8], w[9]) + Mul(v[9], w[8])
    ensures ColumnFrom(v, w, 18, 0)
         == Mul(v[9], w[9])
  {
  }

  lemma SquareText0(v: seq<int>)
    requires |v| == 10
    ensures ColumnFrom(v, v, 0, 0)
         == Mul(v[0], v[0])
    ensures ColumnFrom(v, v, 1, 0)
         == 2 * Mul(v[0], v[1])
    ensures ColumnFrom(v, v, 2, 0)
         == 2 * Mul(v[0], v[2]) + Mul(v[1], v[1])
    ensures ColumnFrom(v, v, 3, 0)
         == 2 * Mul(v[0], v[3]) + 2 * Mul(v[1], v[2])
  {
    hide ColumnFrom, Mul;
    ColumnText0(v, v);
    MulSwap(v);
  }

  lemma SquareText1(v: seq<int>)
    requires |v| == 10
    ensures ColumnFrom(v, v, 4, 0)
         == 2 * Mul(v[0], v[4]) + 2 * Mul(v[1], v[3]) + Mul(v[2], v[2])
    ensures ColumnFrom(v, v, 5, 0)
         == 2 * Mul(v[0], v[5]) + 2 * Mul(v[1], v[4]) + 2 * Mul(v[2], v[3])
    ensures ColumnFrom(v, v, 6, 0)
         == 2 * Mul(v[0], v[6]) + 2 * Mul(v[1], v[5]) + 2 * Mul(v[2], v[4]) + Mul(v[3], v[3])
  {
    hide ColumnFrom, Mul;
    ColumnText1(v, v);
    MulSwap(v);
  }

  lemma SquareText2(v: seq<int>)
    requires |v| == 10
    ensures ColumnFrom(v, v, 7, 0)
         == 2 * Mul(v[0], v[7]) + 2 * Mul(v[1], v[6]) + 2 * Mul(v[2], v[5]) + 2 * Mul(v[3], v[4])
    ensures ColumnFrom(v, v, 8, 0)
         == 2 * Mul(v[0], v[8]) + 2 * Mul(v[1], v[7]) + 2 * Mul(v[2], v[6]) + 2 * Mul(v[3], v[5])
            + Mul(v[4], v[4])
    ensures ColumnFrom(v, v, 9, 0)
         == 2 * Mul(v[0], v[9]) + 2 * Mul(v[1], v[8]) + 2 * Mul(v[2], v[7]) + 2 * Mul(v[3], v[6])
            + 2 * Mul(v[4], v[5])
  {
    hide ColumnFrom, Mul;
    ColumnText2(v, v);
    MulSwap(v);
  }

  lemma SquareText3(v: seq<int>)
    requires |v| == 10
    ensures ColumnFrom(v, v, 10, 0)
         == 2 * Mul(v[1], v[9]) + 2 * Mul(v[2], v[8]) + 2 * Mul(v[3], v[7]) + 2 * Mul(v[4], v[6])
            + Mul(v[5], v[5])
    ensures ColumnFrom(v, v, 11, 0)
         == 2 * Mul(v[2], v[9]) + 2 * Mul(v[3], v[8]) + 2 * Mul(v[4], v[7]) + 2 * Mul(v[5], v[6])
    ensures ColumnFrom(v, v, 12, 0)
         == 2 * Mul(v[3], v[9]) + 2 * Mul(v[4], v[8]) + 2 * Mul(v[5], v[7]) + Mul(v[6], v[6])
  {
    hide ColumnFrom, Mul;
    ColumnText3(v, v);
    MulSwap(v);
  }

  lemma SquareText4(v: seq<int>)
    requires |v| == 10
    ensures ColumnFrom(v, v, 13, 0)
         == 2 * Mul(v[4], v[9]) + 2 * Mul(v[5], v[8]) + 2 * Mul(v[6], v[7])
    ensures ColumnFrom(v, v, 14, 0)
         == 2 * Mul(v[5], v[9]) + 2 * Mul(v[6], v[8]) + Mul(v[7], v[7])
    ensures ColumnFrom(v, v, 15, 0)
         == 2 * Mul(v[6], v[9]) + 2 * Mul(v[7], v[8])
  {
    hide ColumnFrom, Mul;
    ColumnText4(v, v);
    MulSwap(v);
  }

  lemma SquareText5(v: seq<int>)
    requires |v| == 10
    ensures ColumnFrom(v, v, 16, 0)
         == 2 * Mul(v[7], v[9]) + Mul(v[8], v[8])
    ensures ColumnFrom(v, v, 17, 0)
         == 2 * Mul(v[8], v[9])
    ensures ColumnFrom(v, v, 18, 0)
         == Mul(v[9], v[9])
  {
    hide ColumnFrom, Mul;
    ColumnText5(v, v);
    MulSwap(v);
  }

  lemma TenLimbs(v: seq<int>, w: seq<int>)
    requires Magnitude(v, 8) && Magnitude(w, 8)
    ensures |v| == |w| == 10
  {
  }

  lemma {:induction false} CarriedBound(v: seq<int>, w: seq<int>, k: nat)
    requires Magnitude(v, 8) && Magnitude(w, 8) && k < 19
    ensures 0 <= Carried(Columns(v, w, 0), k) <= 11 * SQUARE
  {
    hide ColumnFrom, Magnitude;
    ColumnBound(v, w, k, 0);
    if k > 0 {
      CarriedBound(v, w, k - 1);
    }
  }

  lemma FirstColumn(v: seq<int>, w: seq<int>, m: int)
    requires Magnitude(v, 8) && Magnitude(w, 8) && m == Wrap64(ColumnFrom(v, w, 0, 0))
    ensures m == Carried(Columns(v, w, 0), 0)
  {
    hide ColumnFrom, Magnitude;
    CarriedBound(v, w, 0);
  }

  lemma NextColumn(v: seq<int>, w: seq<int>, k: nat, m0: int, m: int)
    requires Magnitude(v, 8) && Magnitude(w, 8) && 0 < k < 19
    requires m0 == Carried(Columns(v, w, 0), k - 1) && m == Wrap64(Shift(m0) + ColumnFrom(v, w, k, 0))
    ensures m == Carried(Columns(v, w, 0), k)
  {
    hide ColumnFrom, Magnitude;
    CarriedBound(v, w, k);
  }

  /** The columns from lo to hi, each collected in ms and reduced in t. */
  ghost predicate CarriedRun(v: seq<int>, w: seq<int>, lo: nat, hi: nat, ms: seq<int>, t: seq<int>)
    requires |v| == |w| == 10 && lo < hi <= 19
  {
    && |ms| == |t| == hi - lo
    && forall i :: 0 <= i < hi - lo ==> ms[i] == Carried(Columns(v, w, 0), lo + i) && t[i] == Mask(ms[i])
  }

  /** Twenty limbs, the last of which may be longer. */
  ghost predicate IsWide(t: seq<int>) {
    |t| == 20 && (forall i :: 0 <= i < 19 ==> 0 <= t[i] < BASE) && 0 <= t[19] <= 0x100_0000
  }

  lemma TopLimb(v: seq<int>, w: seq<int>)
    requires Magnitude(v, 8) && Magnitude(w, 8)
    ensures 0 <= Shift(Carried(Columns(v, w, 0), 18)) <= 0x100_0000
  {
    var s := Columns(v, w, 0);
    ColumnText5(v, w);
    CarriedBound(v, w, 16);
    LimbBound(v, 8);
    LimbBound(w, 8);
    LimbBound(v, 9);
    LimbBound(w, 9);
    hide ColumnFrom, Magnitude, Mul;
    ProductBound(v[8], w[9], 0x1FFF_FFF8, 0x1FF_FFF8);
    ProductBound(v[9], w[8], 0x1FF_FFF8, 0x1FFF_FFF8);
    ProductBound(v[9], w[9], 0x1FF_FFF8, 0x1FF_FFF8);
    assert s[17] == Mul(v[8], w[9]) + Mul(v[9], w[8]) && s[18] == Mul(v[9], w[9]);
    assert Carried(s, 17) == Shift(Carried(s, 16)) + s[17];
    assert Carried(s, 18) == Shift(Carried(s, 17)) + s[18];
  }

  lemma ColumnCount(v: seq<int>, w: seq<int>)
    requires |v| == |w| == 10
    ensures |Columns(v, w, 0)| == 19
  {
  }

  lemma SettledText(s: seq<int>, ms: seq<int>, t: seq<int>)
    requires |s| == |ms| == 19 && |t| == 20
    requires forall k :: 0 <= k < 19 ==> ms[k] == Carried(s, k) && t[k] == Mask(ms[k])
    ensures t == Settled(s, 19) + [t[19]] && |Settled(s, 19)| == 19
    ensures forall k :: 0 <= k < 19 ==> 0 <= t[k] < BASE
  {
    MaskBound();
    hide Carried, Mask;
  }

  lemma JoinRuns(v: seq<int>, w: seq<int>, lo: nat, mid: nat, hi: nat,
                 ms: seq<int>, t: seq<int>, ms': seq<int>, t': seq<int>)
    requires |v| == |w| == 10 && lo < mid < hi <= 19
    requires CarriedRun(v, w, lo, mid, ms, t) && CarriedRun(v, w, mid, hi, ms', t')
    ensures CarriedRun(v, w, lo, hi, ms + ms', t + t')
  {
    ColumnCount(v, w);
    hide Carried, Columns, Mask;
    forall i | 0 <= i < hi - lo
      ensures (ms + ms')[i] == Carried(Columns(v, w, 0), lo + i) && (t + t')[i] == Mask((ms + ms')[i])
    {
      if i < mid - lo {
        assert (ms + ms')[i] == ms[i] && (t + t')[i] == t[i];
      } else {
        assert (ms + ms')[i] == ms'[i - (mid - lo)] && (t + t')[i] == t'[i - (mid - lo)];
      }
    }
  }

  /** The four runs together, and the last carry, are the columns of the product. */
  lemma RunsDone(v: seq<int>, w: seq<int>, ms0: seq<int>, t0: seq<int>, ms1: seq<int>, t1: seq<int>,
                 ms2: seq<int>, t2: seq<int>, ms3: seq<int>, t3: seq<int>)
    requires Magnitude(v, 8) && Magnitude(w, 8)
    requires CarriedRun(v, w, 0, 5, ms0, t0) && CarriedRun(v, w, 5, 10, ms1, t1)
    requires CarriedRun(v, w, 10, 14, ms2, t2) && CarriedRun(v, w, 14, 19, ms3, t3)
    ensures |ms3| == 5
    ensures var t := t0 + t1 + t2 + t3 + [Shift(ms3[4])]; IsWide(t) && Value(t) == Mul(Value(v), Value(w))
  {
    assert |ms0| == |t0| == 5 && |ms1| == |t1| == 5 && |ms2| == |t2| == 4 && |ms3| == |t3| == 5;
    JoinRuns(v, w, 0, 5, 10, ms0, t0, ms1, t1);
    JoinRuns(v, w, 0, 10, 14, ms0 + ms1, t0 + t1, ms2, t2);
    JoinRuns(v, w, 0, 14, 19, ms0 + ms1 + ms2, t0 + t1 + t2, ms3, t3);
    var ms, t := ms0 + ms1 + ms2 + ms3, t0 + t1 + t2 + t3;
    assert ms[18] == ms3[4];
    ColumnCount(v, w);
    hide Magnitude, Carried, Columns, Value, IsWide, Shift, Mask, Mul;
    forall k | 0 <= k < 19
      ensures ms[k] == Carried(Columns(v, w, 0), k) && (t + [Shift(ms[18])])[k] == Mask(ms[k])
    {
      assert ms[k] == Carried(Columns(v, w, 0), 0 + k) && t[k] == Mask(ms[k]);
    }
    ColumnsDone(v, w, ms, t + [Shift(ms[18])]);
  }

  lemma ColumnsDone(v: seq<int>, w: seq<int>, ms: seq<int>, t: seq<int>)
    requires Magnitude(v, 8) && Magnitude(w, 8) && |ms| == 19 && |t| == 20
    requires forall k :: 0 <= k < 19 ==> ms[k] == Carried(Columns(v, w, 0), k) && t[k] == Mask(ms[k])
    requires t[19] == Shift(ms[18])
    ensures IsWide(t) && Value(t) == Mul(Value(v), Value(w))
  {
    TenLimbs(v, w);
    hide Magnitude, Carried, ColumnFrom, Value, BasePower, Shift, Mask, Settled, Columns, Mul;
    ColumnCount(v, w);
    SettledText(Columns(v, w, 0), ms, t);
    TopLimb(v, w);
    SettledSum(Columns(v, w, 0), t, 19);
    ProductValue(v, w);
  }

  lemma SettledSum(s: seq<int>, t: seq<int>, n: nat)
    requires 0 < n == |s| && |t| == n + 1 && t[..n] == Settled(s, n) && t[n] == Shift(Carried(s, n - 1))
    ensures Value(t) == Value(s)
  {
    hide *;
    CarryValue(s, n);
    LastLimb(t, n);
    assert s[..n] == s;
  }

  lemma ProductValue(v: seq<int>, w: seq<int>)
    requires |v| == |w| == 10
    ensures Value(Columns(v, w, 0)) == Mul(Value(v), Value(w))
  {
    assert BasePower(0) == 1;
    hide *;
    ColumnsValue(v, w, 0);
    assert v[0..] == v;
    MulOne(Mul(Value(v), Value(w)));
  }

  lemma RunOf5(v: seq<int>, w: seq<int>, lo: nat, m0: int, m1: int, m2: int, m3: int, m4: int)
    requires |v| == |w| == 10 && lo + 5 <= 19
    requires m0 == Carried(Columns(v, w, 0), lo) && m1 == Carried(Columns(v, w, 0), lo + 1)
    requires m2 == Carried(Columns(v, w, 0), lo + 2) && m3 == Carried(Columns(v, w, 0), lo + 3)
    requires m4 == Carried(Columns(v, w, 0), lo + 4)
    ensures CarriedRun(v, w, lo, lo + 5, [m0, m1, m2, m3, m4], [Mask(m0), Mask(m1), Mask(m2), Mask(m3), Mask(m4)])
  {
    hide Carried, Columns, Mask;
  }

  lemma RunOf4(v: seq<int>, w: seq<int>, lo: nat, m0: int, m1: int, m2: int, m3: int)
    requires |v| == |w| == 10 && lo + 4 <= 19
    requires m0 == Carried(Columns(v, w, 0), lo) && m1 == Carried(Columns(v, w, 0), lo + 1)
    requires m2 == Carried(Columns(v, w, 0), lo + 2) && m3 == Carried(Columns(v, w, 0), lo + 3)
    ensures CarriedRun(v, w, lo, lo + 4, [m0, m1, m2, m3], [Mask(m0), Mask(m1), Mask(m2), Mask(m3)])
  {
    hide Carried, Columns, Mask;
  }

  lemma RunOf3(v: seq<int>, w: seq<int>, lo: nat, m0: int, m1: int, m2: int)
    requires |v| == |w| == 10 && lo + 3 <= 19
    requires m0 == Carried(Columns(v, w, 0), lo) && m1 == Carried(Columns(v, w, 0), lo + 1)
    requires m2 == Carried(Columns(v, w, 0), lo + 2)
    ensures CarriedRun(v, w, lo, lo + 3, [m0, m1, m2], [Mask(m0), Mask(m1), Mask(m2)])
  {
    hide Carried, Columns, Mask;
  }

  lemma RunOf2(v: seq<int>, w: seq<int>, lo: nat, m0: int, m1: int)
    requires |v| == |w| == 10 && lo + 2 <= 19
    requires m0 == Carried(Columns(v, w, 0), lo) && m1 == Carried(Columns(v, w, 0), lo + 1)
    ensures CarriedRun(v, w, lo, lo + 2, [m0, m1], [Mask(m0), Mask(m1)])
  {
    hide Carried, Columns, Mask;
  }

  method ProductFrom0(v: seq<int>, w: seq<int>) returns (t: seq<int>, m: int, ghost ms: seq<int>)
    requires Magnitude(v, 8) && Magnitude(w, 8)
    ensures CarriedRun(v, w, 0, 5, ms, t) && m == ms[4] && m == Carried(Columns(v, w, 0), 4)
  {
    TenLimbs(v, w);
    hide ColumnFrom, Columns, Carried, Wrap64, Magnitude, Mul, Shift, Mask;
    ColumnText0(v, w);
    ColumnText1(v, w);
    m := Wrap64(Mul(v[0], w[0]));
    FirstColumn(v, w, m);
    var t0 := Mask(m);
    ghost var m0 := m;
    m := Wrap64(Shift(m) + Mul(v[0], w[1]) + Mul(v[1], w[0]));
    NextColumn(v, w, 1, m0, m);
    var t1 := Mask(m);
    ghost var m1 := m;
    m := Wrap64(Shift(m) + Mul(v[0], w[2]) + Mul(v[1], w[1]) + Mul(v[2], w[0]));
    NextColumn(v, w, 2, m1, m);
    var t2 := Mask(m);
    ghost var m2 := m;
    m := Wrap64(Shift(m) + Mul(v[0], w[3]) + Mul(v[1], w[2]) + Mul(v[2], w[1]) + Mul(v[3], w[0]));
    NextColumn(v, w, 3, m2, m);
    var t3 := Mask(m);
    ghost var m3 := m;
    m := Wrap64(Shift(m) + Mul(v[0], w[4]) + Mul(v[1], w[3]) + Mul(v[2], w[2]) + Mul(v[3], w[1])
                + Mul(v[4], w[0]));
    NextColumn(v, w, 4, m3, m);
    var t4 := Mask(m);
    hide CarriedRun;
    RunOf5(v, w, 0, m0, m1, m2, m3, m);
    t := [t0, t1, t2, t3, t4];
    ms := [m0, m1, m2, m3, m];
  }

  method ProductFrom5(v: seq<int>, w: seq<int>, m0: int) returns (t: seq<int>, m: int, ghost ms: seq<int>)
    requires Magnitude(v, 8) && Magnitude(w, 8) && m0 == Carried(Columns(v, w, 0), 4)
    ensures CarriedRun(v, w, 5, 10, ms, t) && m == ms[4] && m == Carried(Columns(v, w, 0), 9)
  {
    TenLimbs(v, w);
    hide ColumnFrom, Columns, Carried, Wrap64, Magnitude, Mul, Shift, Mask;
    ColumnText1(v, w);
    ColumnText2(v, w);
    m := Wrap64(Shift(m0) + Mul(v[0], w[5]) + Mul(v[1], w[4]) + Mul(v[2], w[3]) + Mul(v[3], w[2])
                + Mul(v[4], w[1]) + Mul(v[5], w[0]));
    NextColumn(v, w, 5, m0, m);
    var t5 := Mask(m);
    ghost var m5 := m;
    m := Wrap64(Shift(m) + Mul(v[0], w[6]) + Mul(v[1], w[5]) + Mul(v[2], w[4]) + Mul(v[3], w[3])
                + Mul(v[4], w[2]) + Mul(v[5], w[1]) + Mul(v[6], w[0]));
    NextColumn(v, w, 6, m5, m);
    var t6 := Mask(m);
    ghost var m6 := m;
    m := Wrap64(Shift(m) + Mul(v[0], w[7]) + Mul(v[1], w[6]) + Mul(v[2], w[5]) + Mul(v[3], w[4])
                + Mul(v[4], w[3]) + Mul(v[5], w[2]) + Mul(v[6], w[1]) + Mul(v[7], w[0]));
    NextColumn(v, w, 7, m6, m);
    var t7 := Mask(m);
    ghost var m7 := m;
    m := Wrap64(Shift(m) + Mul(v[0], w[8]) + Mul(v[1], w[7]) + Mul(v[2], w[6]) + Mul(v[3], w[5])
                + Mul(v[4], w[4]) + Mul(v[5], w[3]) + Mul(v[6], w[2]) + Mul(v[7], w[1]) + Mul(v[8], w[0]));
    NextColumn(v, w, 8, m7, m);
    var t8 := Mask(m);
    ghost var m8 := m;
    m := Wrap64(Shift(m) + Mul(v[0], w[9]) + Mul(v[1], w[8]) + Mul(v[2], w[7]) + Mul(v[3], w[6])
                + Mul(v[4], w[5]) + Mul(v[5], w[4]) + Mul(v[6], w[3]) + Mul(v[7], w[2]) + Mul(v[8], w[1])
                + Mul(v[9], w[0]));
    NextColumn(v, w, 9, m8, m);
    var t9 := Mask(m);
    hide CarriedRun;
    RunOf5(v, w, 5, m5, m6, m7, m8, m);
    t := [t5, t6, t7, t8, t9];
    ms := [m5, m6, m7, m8, m];
  }

  method ProductFrom10(v: seq<int>, w: seq<int>, m0: int) returns (t: seq<int>, m: int, ghost ms: seq<int>)
    requires Magnitude(v, 8) && Magnitude(w, 8) && m0 == Carried(Columns(v, w, 0), 9)
    ensures CarriedRun(v, w, 10, 14, ms, t) && m == ms[3] && m == Carried(Columns(v, w, 0), 13)
  {
    TenLimbs(v, w);
    hide ColumnFrom, Columns, Carried, Wrap64, Magnitude, Mul, Shift, Mask;
    ColumnText3(v, w);
    ColumnText4(v, w);
    m := Wrap64(Shift(m0) + Mul(v[1], w[9]) + Mul(v[2], w[8]) + Mul(v[3], w[7]) + Mul(v[4], w[6])
                + Mul(v[5], w[5]) + Mul(v[6], w[4]) + Mul(v[7], w[3]) + Mul(v[8], w[2]) + Mul(v[9], w[1]));
    NextColumn(v, w, 10, m0, m);
    var t10 := Mask(m);
    ghost var m10 := m;
    m := Wrap64(Shift(m) + Mul(v[2], w[9]) + Mul(v[3], w[8]) + Mul(v[4], w[7]) + Mul(v[5], w[6])
                + Mul(v[6], w[5]) + Mul(v[7], w[4]) + Mul(v[8], w[3]) + Mul(v[9], w[2]));
    NextColumn(v, w, 11, m10, m);
    var t11 := Mask(m);
    ghost var m11 := m;
    m := Wrap64(Shift(m) + Mul(v[3], w[9]) + Mul(v[4], w[8]) + Mul(v[5], w[7]) + Mul(v[6], w[6])
                + Mul(v[7], w[5]) + Mul(v[8], w[4]) + Mul(v[9], w[3]));
    NextColumn(v, w, 12, m11, m);
    var t12 := Mask(m);
    ghost var m12 := m;
    m := Wrap64(Shift(m) + Mul(v[4], w[9]) + Mul(v[5], w[8]) + Mul(v[6], w[7]) + Mul(v[7], w[6])
                + Mul(v[8], w[5]) + Mul(v[9], w[4]));
    NextColumn(v, w, 13, m12, m);
    var t13 := Mask(m);
    hide CarriedRun;
    RunOf4(v, w, 10, m10, m11, m12, m);
    t := [t10, t11, t12, t13];
    ms := [m10, m11, m12, m];
  }

  method ProductFrom14(v: seq<int>, w: seq<int>, m0: int) returns (t: seq<int>, m: int, ghost ms: seq<int>)
    requires Magnitude(v, 8) && Magnitude(w, 8) && m0 == Carried(Columns(v, w, 0), 13)
    ensures CarriedRun(v, w, 14, 19, ms, t) && m == ms[4] && m == Carried(Columns(v, w, 0), 18)
  {
    TenLimbs(v, w);
    hide ColumnFrom, Columns, Carried, Wrap64, Magnitude, Mul, Shift, Mask;
    ColumnText4(v, w);
    ColumnText5(v, w);
    m := Wrap64(Shift(m0) + Mul(v[5], w[9]) + Mul(v[6], w[8]) + Mul(v[7], w[7]) + Mul(v[8], w[6])
                + Mul(v[9], w[5]));
    NextColumn(v, w, 14, m0, m);
    var t14 := Mask(m);
    ghost var m14 := m;
    m := Wrap64(Shift(m) + Mul(v[6], w[9]) + Mul(v[7], w[8]) + Mul(v[8], w[7]) + Mul(v[9], w[6]));
    NextColumn(v, w, 15, m14, m);
    var t15 := Mask(m);
    ghost var m15 := m;
    m := Wrap64(Shift(m) + Mul(v[7], w[9]) + Mul(v[8], w[8]) + Mul(v[9], w[7]));
    NextColumn(v, w, 16, m15, m);
    var t16 := Mask(m);
    ghost var m16 := m;
    m := Wrap64(Shift(m) + Mul(v[8], w[9]) + Mul(v[9], w[8]));
    NextColumn(v, w, 17, m16, m);
    var t17 := Mask(m);
    ghost var m17 := m;
    m := Wrap64(Shift(m) + Mul(v[9], w[9]));
    NextColumn(v, w, 18, m17, m);
    var t18 := Mask(m);
    hide CarriedRun;
    RunOf5(v, w, 14, m14, m15, m16, m17, m);
    t := [t14, t15, t16, t17, t18];
    ms := [m14, m15, m16, m17, m];
  }

  method ProductColumns(v: seq<int>, w: seq<int>) returns (t: seq<int>)
    requires Magnitude(v, 8) && Magnitude(w, 8)
    ensures IsWide(t) && Value(t) == Mul(Value(v), Value(w))
  {
    hide Magnitude, Carried, Columns, Value, IsWide, Shift, Mask, Mul, CarriedRun;
    var s0, m0, ms0 := ProductFrom0(v, w);
    var s1, m1, ms1 := ProductFrom5(v, w, m0);
    var s2, m2, ms2 := ProductFrom10(v, w, m1);
    var s3, m3, ms3 := ProductFrom14(v, w, m2);
    t := s0 + s1 + s2 + s3 + [Shift(m3)];
    RunsDone(v, w, ms0, s0, ms1, s1, ms2, s2, ms3, s3);
  }

  method SquareFrom0(v: seq<int>) returns (t: seq<int>, m: int, ghost ms: seq<int>)
    requires Magnitude(v, 8)
    ensures CarriedRun(v, v, 0, 5, ms, t) && m == ms[4] && m == Carried(Columns(v, v, 0), 4)
  {
    TenLimbs(v, v);
    hide ColumnFrom, Columns, Carried, Wrap64, Magnitude, Mul, Shift, Mask;
    SquareText0(v);
    SquareText1(v);
    m := Wrap64(Mul(v[0], v[0]));
    FirstColumn(v, v, m);
    var t0 := Mask(m);
    ghost var m0 := m;
    m := Wrap64(Shift(m) + 2 * Mul(v[0], v[1]));
    NextColumn(v, v, 1, m0, m);
    var t1 := Mask(m);
    ghost var m1 := m;
    m := Wrap64(Shift(m) + 2 * Mul(v[0], v[2]) + Mul(v[1], v[1]));
    NextColumn(v, v, 2, m1, m);
    var t2 := Mask(m);
    ghost var m2 := m;
    m := Wrap64(Shift(m) + 2 * Mul(v[0], v[3]) + 2 * Mul(v[1], v[2]));
    NextColumn(v, v, 3, m2, m);
    var t3 := Mask(m);
    ghost var m3 := m;
    m := Wrap64(Shift(m) + 2 * Mul(v[0], v[4]) + 2 * Mul(v[1], v[3]) + Mul(v[2], v[2]));
    NextColumn(v, v, 4, m3, m);
    var t4 := Mask(m);
    hide CarriedRun;
    RunOf5(v, v, 0, m0, m1, m2, m3, m);
    t := [t0, t1, t2, t3, t4];
    ms := [m0, m1, m2, m3, m];
  }

  method SquareFirst5(v: seq<int>, m0: int) returns (t: seq<int>, m: int, ghost ms: seq<int>)
    requires Magnitude(v, 8) && m0 == Carried(Columns(v, v, 0), 4)
    ensures CarriedRun(v, v, 5, 8, ms, t) && m == ms[2] && m == Carried(Columns(v, v, 0), 7)
  {
    TenLimbs(v, v);
    hide ColumnFrom, Columns, Carried, Wrap64, Magnitude, Mul, Shift, Mask;
    SquareText1(v);
    SquareText2(v);
    m := Wrap64(Shift(m0) + 2 * Mul(v[0], v[5]) + 2 * Mul(v[1], v[4]) + 2 * Mul(v[2], v[3]));
    NextColumn(v, v, 5, m0, m);
    var t5 := Mask(m);
    ghost var m5 := m;
    m := Wrap64(Shift(m) + 2 * Mul(v[0], v[6]) + 2 * Mul(v[1], v[5]) + 2 * Mul(v[2], v[4]) + Mul(v[3], v[3]));
    NextColumn(v, v, 6, m5, m);
    var t6 := Mask(m);
    ghost var m6 := m;
    m := Wrap64(Shift(m) + 2 * Mul(v[0], v[7]) + 2 * Mul(v[1], v[6]) + 2 * Mul(v[2], v[5]) + 2 * Mul(v[3], v[4]));
    NextColumn(v, v, 7, m6, m);
    var t7 := Mask(m);
    hide CarriedRun;
    RunOf3(v, v, 5, m5, m6, m);
    t := [t5, t6, t7];
    ms := [m5, m6, m];
  }

  method SquareSecond5(v: seq<int>, m0: int) returns (t: seq<int>, m: int, ghost ms: seq<int>)
    requires Magnitude(v, 8) && m0 == Carried(Columns(v, v, 0), 7)
    ensures CarriedRun(v, v, 8, 10, ms, t) && m == ms[1] && m == Carried(Columns(v, v, 0), 9)
  {
    TenLimbs(v, v);
    hide ColumnFrom, Columns, Carried, Wrap64, Magnitude, Mul, Shift, Mask;
    SquareText2(v);
    m := Wrap64(Shift(m0) + 2 * Mul(v[0], v[8]) + 2 * Mul(v[1], v[7]) + 2 * Mul(v[2], v[6]) + 2 * Mul(v[3], v[5])
                + Mul(v[4], v[4]));
    NextColumn(v, v, 8, m0, m);
    var t8 := Mask(m);
    ghost var m8 := m;
    m := Wrap64(Shift(m) + 2 * Mul(v[0], v[9]) + 2 * Mul(v[1], v[8]) + 2 * Mul(v[2], v[7]) + 2 * Mul(v[3], v[6])
                + 2 * Mul(v[4], v[5]));
    NextColumn(v, v, 9, m8, m);
    var t9 := Mask(m);
    hide CarriedRun;
    RunOf2(v, v, 8, m8, m);
    t := [t8, t9];
    ms := [m8, m];
  }

  method SquareFrom5(v: seq<int>, m0: int) returns (t: seq<int>, m: int, ghost ms: seq<int>)
    requires Magnitude(v, 8) && m0 == Carried(Columns(v, v, 0), 4)
    ensures CarriedRun(v, v, 5, 10, ms, t) && m == ms[4] && m == Carried(Columns(v, v, 0), 9)
  {
    TenLimbs(v, v);
    hide Columns, Carried, Magnitude, Mask;
    var a, x, xs := SquareFirst5(v, m0);
    var b, y, ys := SquareSecond5(v, x);
    JoinRuns(v, v, 5, 8, 10, xs, a, ys, b);
    t, m, ms := a + b, y, xs + ys;
  }

  method SquareFirst10(v: seq<int>, m0: int) returns (t: seq<int>, m: int, ghost ms: seq<int>)
    requires Magnitude(v, 8) && m0 == Carried(Columns(v, v, 0), 9)
    ensures CarriedRun(v, v, 10, 12, ms, t) && m == ms[1] && m == Carried(Columns(v, v, 0), 11)
  {
    TenLimbs(v, v);
    hide ColumnFrom, Columns, Carried, Wrap64, Magnitude, Mul, Shift, Mask;
    SquareText3(v);
    m := Wrap64(Shift(m0) + 2 * Mul(v[1], v[9]) + 2 * Mul(v[2], v[8]) + 2 * Mul(v[3], v[7])
                + 2 * Mul(v[4], v[6]) + Mul(v[5], v[5]));
    NextColumn(v, v, 10, m0, m);
    var t10 := Mask(m);
    ghost var m10 := m;
    m := Wrap64(Shift(m) + 2 * Mul(v[2], v[9]) + 2 * Mul(v[3], v[8]) + 2 * Mul(v[4], v[7]) + 2 * Mul(v[5], v[6]));
    NextColumn(v, v, 11, m10, m);
    var t11 := Mask(m);
    hide CarriedRun;
    RunOf2(v, v, 10, m10, m);
    t := [t10, t11];
    ms := [m10, m];
  }

  method SquareSecond10(v: seq<int>, m0: int) returns (t: seq<int>, m: int, ghost ms: seq<int>)
    requires Magnitude(v, 8) && m0 == Carried(Columns(v, v, 0), 11)
    ensures CarriedRun(v, v, 12, 14, ms, t) && m == ms[1] && m == Carried(Columns(v, v, 0), 13)
  {
    TenLimbs(v, v);
    hide ColumnFrom, Columns, Carried, Wrap64, Magnitude, Mul, Shift, Mask;
    SquareText3(v);
    SquareText4(v);
    m := Wrap64(Shift(m0) + 2 * Mul(v[3], v[9]) + 2 * Mul(v[4], v[8]) + 2 * Mul(v[5], v[7]) + Mul(v[6], v[6]));
    NextColumn(v, v, 12, m0, m);
    var t12 := Mask(m);
    ghost var m12 := m;
    m := Wrap64(Shift(m) + 2 * Mul(v[4], v[9]) + 2 * Mul(v[5], v[8]) + 2 * Mul(v[6], v[7]));
    NextColumn(v, v, 13, m12, m);
    var t13 := Mask(m);
    hide CarriedRun;
    RunOf2(v, v, 12, m12, m);
    t := [t12, t13];
    ms := [m12, m];
  }

  method SquareFrom10(v: seq<int>, m0: int) returns (t: seq<int>, m: int, ghost ms: seq<int>)
    requires Magnitude(v, 8) && m0 == Carried(Columns(v, v, 0), 9)
    ensures CarriedRun(v, v, 10, 14, ms, t) && m == ms[3] && m == Carried(Columns(v, v, 0), 13)
  {
    TenLimbs(v, v);
    hide Columns, Carried, Magnitude, Mask;
    var a, x, xs := SquareFirst10(v, m0);
    var b, y, ys := SquareSecond10(v, x);
    JoinRuns(v, v, 10, 12, 14, xs, a, ys, b);
    t, m, ms := a + b, y, xs + ys;
  }

  method SquareFrom14(v: seq<int>, m0: int) returns (t: seq<int>, m: int, ghost ms: seq<int>)
    requires Magnitude(v, 8) && m0 == Carried(Columns(v, v, 0), 13)
    ensures CarriedRun(v, v, 14, 19, ms, t) && m == ms[4] && m == Carried(Columns(v, v, 0), 18)
  {
    TenLimbs(v, v);
    hide ColumnFrom, Columns, Carried, Wrap64, Magnitude, Mul, Shift, Mask;
    SquareText4(v);
    SquareText5(v);
    m := Wrap64(Shift(m0) + 2 * Mul(v[5], v[9]) + 2 * Mul(v[6], v[8]) + Mul(v[7], v[7]));
    NextColumn(v, v, 14, m0, m);
    var t14 := Mask(m);
    ghost var m14 := m;
    m := Wrap64(Shift(m) + 2 * Mul(v[6], v[9]) + 2 * Mul(v[7], v[8]));
    NextColumn(v, v, 15, m14, m);
    var t15 := Mask(m);
    ghost var m15 := m;
    m := Wrap64(Shift(m) + 2 * Mul(v[7], v[9]) + Mul(v[8], v[8]));
    NextColumn(v, v, 16, m15, m);
    var t16 := Mask(m);
    ghost var m16 := m;
    m := Wrap64(Shift(m) + 2 * Mul(v[8], v[9]));
    NextColumn(v, v, 17, m16, m);
    var t17 := Mask(m);
    ghost var m17 := m;
    m := Wrap64(Shift(m) + Mul(v[9], v[9]));
    NextColumn(v, v, 18, m17, m);
    var t18 := Mask(m);
    hide CarriedRun;
    RunOf5(v, v, 14, m14, m15, m16, m17, m);
    t := [t14, t15, t16, t17, t18];
    ms := [m14, m15, m16, m17, m];
  }

  method SquareColumns(v: seq<int>) returns (t: seq<int>)
    requires Magnitude(v, 8)
    ensures IsWide(t) && Value(t) == Mul(Value(v), Value(v))
  {
    hide Magnitude, Carried, Columns, Value, IsWide, Shift, Mask, Mul, CarriedRun;
    var s0, m0, ms0 := SquareFrom0(v);
    var s1, m1, ms1 := SquareFrom5(v, m0);
    var s2, m2, ms2 := SquareFrom10(v, m1);
    var s3, m3, ms3 := SquareFrom14(v, m2);
    t := s0 + s1 + s2 + s3 + [Shift(m3)];
    RunsDone(v, v, ms0, s0, ms1, s1, ms2, s2, ms3, s3);
  }

  // ---- reduction modulo p ----

  lemma TenLimbValue(s: seq<int>)
    requires |s| == 10
    ensures Value(s)
         == s[0] + 0x4000000 * s[1] + 0x10000000000000 * s[2] + 0x40000000000000000000 * s[3]
            + 0x100000000000000000000000000 * s[4] + 0x400000000000000000000000000000000 * s[5]
            + 0x1000000000000000000000000000000000000000 * s[6]
            + 0x4000000000000000000000000000000000000000000000 * s[7]
            + 0x10000000000000000000000000000000000000000000000000000 * s[8]
            + 0x40000000000000000000000000000000000000000000000000000000000 * s[9]
  {
    assert Value(s[9..]) == s[9];
    assert Value(s[8..]) == s[8] + BASE * Value(s[9..]);
    assert Value(s[7..]) == s[7] + BASE * Value(s[8..]);
    assert Value(s[6..]) == s[6] + BASE * Value(s[7..]);
    assert Value(s[5..]) == s[5] + BASE * Value(s[6..]);
    assert Value(s[4..]) == s[4] + BASE * Value(s[5..]);
    assert Value(s[3..]) == s[3] + BASE * Value(s[4..]);
    assert Value(s[2..]) == s[2] + BASE * Value(s[3..]);
    assert Value(s[1..]) == s[1] + BASE * Value(s[2..]);
  }

  /** The upper ten limbs times 16 · 4294968273 added to the lower ten. */
  function FoldColumns(t: seq<int>): (f: seq<int>)
    requires |t| == 20
    ensures |f| == 10
  {
    seq(10, k requires 0 <= k < 10 =>
      if k == 0 then t[0] + t[10] * 15632
      else if k == 9 then t[9] + t[18] * 1024 + t[19] * 68719492368
      else t[k] + t[9 + k] * 1024 + t[10 + k] * 15632)
  }

  lemma HalvesValue(t: seq<int>)
    requires |t| == 20
    ensures Value(t[..10])
         == t[0] + 0x4000000 * t[1] + 0x10000000000000 * t[2] + 0x40000000000000000000 * t[3]
            + 0x100000000000000000000000000 * t[4] + 0x400000000000000000000000000000000 * t[5]
            + 0x1000000000000000000000000000000000000000 * t[6]
            + 0x4000000000000000000000000000000000000000000000 * t[7]
            + 0x10000000000000000000000000000000000000000000000000000 * t[8]
            + 0x40000000000000000000000000000000000000000000000000000000000 * t[9]
    ensures Value(t[10..])
         == t[10] + 0x4000000 * t[11] + 0x10000000000000 * t[12] + 0x40000000000000000000 * t[13]
            + 0x100000000000000000000000000 * t[14] + 0x400000000000000000000000000000000 * t[15]
            + 0x1000000000000000000000000000000000000000 * t[16]
            + 0x4000000000000000000000000000000000000000000000 * t[17]
            + 0x10000000000000000000000000000000000000000000000000000 * t[18]
            + 0x40000000000000000000000000000000000000000000000000000000000 * t[19]
  {
    TenLimbValue(t[..10]);
    TenLimbValue(t[10..]);
    hide Value;
  }

  lemma FoldColumnsValue(t: seq<int>)
    requires |t| == 20
    ensures Value(FoldColumns(t)) == t[0] + t[10] * 15632
            + 0x4000000 * (t[1] + t[10] * 1024 + t[11] * 15632)
            + 0x10000000000000 * (t[2] + t[11] * 1024 + t[12] * 15632)
            + 0x40000000000000000000 * (t[3] + t[12] * 1024 + t[13] * 15632)
            + 0x100000000000000000000000000 * (t[4] + t[13] * 1024 + t[14] * 15632)
            + 0x400000000000000000000000000000000 * (t[5] + t[14] * 1024 + t[15] * 15632)
            + 0x1000000000000000000000000000000000000000 * (t[6] + t[15] * 1024 + t[16] * 15632)
            + 0x4000000000000000000000000000000000000000000000 * (t[7] + t[16] * 1024 + t[17] * 15632)
            + 0x10000000000000000000000000000000000000000000000000000 * (t[8] + t[17] * 1024 + t[18] * 15632)
            + 0x40000000000000000000000000000000000000000000000000000000000 * (t[9] + t[18] * 1024
                                                                               + t[19] * 68719492368)
  {
    TenLimbValue(FoldColumns(t));
    hide Value;
  }

  lemma FoldValue(t: seq<int>)
    requires |t| == 20
    ensures Value(FoldColumns(t)) == Value(t[..10]) + 16 * C * Value(t[10..])
  {
    HalvesValue(t);
    FoldColumnsValue(t);
    hide *;
  }

  lemma FoldBound(t: seq<int>, k: nat)
    requires IsWide(t) && k < 10
    ensures 0 <= FoldColumns(t)[k] <= if k < 9 then 0x200_0000_0000 else 0x1000_4000_0000_0000
  {
  }

  lemma {:induction false} FoldCarried(t: seq<int>, k: nat)
    requires IsWide(t) && k < 10
    ensures 0 <= Carried(FoldColumns(t), k) <= if k < 9 then 0x201_0000_0000 else 0x1000_4100_0000_0000
  {
    FoldBound(t, k);
    hide FoldColumns, IsWide;
    if k > 0 {
      FoldCarried(t, k - 1);
    }
  }

  lemma FoldFirst(t: seq<int>, m: int)
    requires IsWide(t) && m == Wrap64(t[0] + t[10] * 15632)
    ensures m == Carried(FoldColumns(t), 0)
  {
    FoldCarried(t, 0);
  }

  lemma FoldNext(t: seq<int>, k: nat, m0: int, m: int)
    requires IsWide(t) && 0 < k < 10
    requires m0 == Carried(FoldColumns(t), k - 1) && m == Wrap64(Shift(m0) + FoldColumns(t)[k])
    ensures m == Carried(FoldColumns(t), k)
  {
    hide FoldColumns, IsWide;
    FoldCarried(t, k);
  }

  /** A number below 2^256 in limbs. */
  ghost predicate IsReduced(r: seq<int>) {
    |r| == 10 && (forall i :: 0 <= i < 9 ==> 0 <= r[i] < BASE) && 0 <= r[9] < MSB
  }

  method Fold(t: seq<int>) returns (r: seq<int>, m: int)
    requires IsWide(t)
    ensures IsReduced(r) && 0 <= m <= 0x41_0000_0000
    ensures Value(r) + 0x1_0000_0000_0000_0000_0000_0000_0000_0000_0000_0000_0000_0000_0000_0000_0000_0000 * m
         == Value(FoldColumns(t))
  {
    hide Value, Carried, Wrap64, Shift, Mask;
    m := Wrap64(t[0] + t[10] * 15632);
    FoldFirst(t, m);
    var r0 := Mask(m);
    ghost var m0 := m;
    m := Wrap64(Shift(m) + t[1] + t[10] * 1024 + t[11] * 15632);
    FoldNext(t, 1, m0, m);
    var r1 := Mask(m);
    ghost var m1 := m;
    m := Wrap64(Shift(m) + t[2] + t[11] * 1024 + t[12] * 15632);
    FoldNext(t, 2, m1, m);
    var r2 := Mask(m);
    ghost var m2 := m;
    m := Wrap64(Shift(m) + t[3] + t[12] * 1024 + t[13] * 15632);
    FoldNext(t, 3, m2, m);
    var r3 := Mask(m);
    ghost var m3 := m;
    m := Wrap64(Shift(m) + t[4] + t[13] * 1024 + t[14] * 15632);
    FoldNext(t, 4, m3, m);
    var r4 := Mask(m);
    ghost var m4 := m;
    m := Wrap64(Shift(m) + t[5] + t[14] * 1024 + t[15] * 15632);
    FoldNext(t, 5, m4, m);
    var r5 := Mask(m);
    ghost var m5 := m;
    m := Wrap64(Shift(m) + t[6] + t[15] * 1024 + t[16] * 15632);
    FoldNext(t, 6, m5, m);
    var r6 := Mask(m);
    ghost var m6 := m;
    m := Wrap64(Shift(m) + t[7] + t[16] * 1024 + t[17] * 15632);
    FoldNext(t, 7, m6, m);
    var r7 := Mask(m);
    ghost var m7 := m;
    m := Wrap64(Shift(m) + t[8] + t[17] * 1024 + t[18] * 15632);
    FoldNext(t, 8, m7, m);
    var r8 := Mask(m);
    ghost var m8 := m;
    m := Wrap64(Shift(m) + t[9] + t[18] * 1024 + t[19] * 68719492368);
    FoldNext(t, 9, m8, m);
    var r9 := m % MSB;
    FoldCarried(t, 9);
    r := [r0, r1, r2, r3, r4, r5, r6, r7, r8, r9];
    FoldDone(t, [m0, m1, m2, m3, m4, m5, m6, m7, m8, m], r);
    m := m / MSB;
  }

  lemma FoldDone(t: seq<int>, ms: seq<int>, r: seq<int>)
    requires IsWide(t) && |ms| == |r| == 10
    requires forall k :: 0 <= k < 10 ==>
      ms[k] == Carried(FoldColumns(t), k) && r[k] == if k < 9 then Mask(ms[k]) else ms[k] % MSB
    ensures IsReduced(r)
    ensures Value(r)
            + 0x1_0000_0000_0000_0000_0000_0000_0000_0000_0000_0000_0000_0000_0000_0000_0000_0000 * (ms[9] / MSB)
         == Value(FoldColumns(t))
  {
    var f := FoldColumns(t);
    assert Carried(f, 9) == Shift(Carried(f, 8)) + f[9];
    MaskBound();
    hide Carried, FoldColumns, Value, Shift, Mask, Mul, BasePower;
    CarryValue(f, 9);
    assert f == f[..9] + [f[9]];
    assert r == Settled(f, 9) + [r[9]];
    ValueAppend(f[..9], f[9]);
    ValueAppend(Settled(f, 9), r[9]);
    TimesNinth(Shift(Carried(f, 8)));
    TimesNinth(f[9]);
    TimesNinth(r[9]);
    assert ms[9] == MSB * (ms[9] / MSB) + r[9];
  }

  lemma TimesNinth(x: int)
    ensures Mul(BasePower(9), x) == 0x40000000000000000000000000000000000000000000000000000000000 * x
  {
    NinthPower();
    hide BasePower;
  }

  lemma NinthPower()
    ensures BasePower(9) == 0x40000000000000000000000000000000000000000000000000000000000
  {
    assert BasePower(3) == 0x40000000000000000000;
    assert BasePower(6) == 0x1000000000000000000000000000000000000000;
  }

  lemma ReducedBound(r: seq<int>)
    requires IsReduced(r)
    ensures 0 <= Value(r) < P + C
  {
    TenLimbValue(r);
    hide Value;
  }

  lemma LastCarries(t0: int, t1: int, m: int, d0: int, d1: int)
    requires 0 <= t0 < BASE && 0 <= t1 < BASE && 0 <= m <= 0x41_0000_0000
    requires d0 == t0 + m * 977 && d1 == Shift(d0) + t1 + m * 64
    ensures 0 <= d0 < 0x1000_0000_0000_0000 && 0 <= d1 < 0x1000_0000_0000_0000 && 0 <= Shift(d1) < 0x8_0000
    ensures Mask(d0) + BASE * Mask(d1) + BASE * BASE * Shift(d1) == t0 + BASE * t1 + C * m
  {
    var q0, q1 := Shift(d0), Shift(d1);
    assert d0 == BASE * q0 + Mask(d0) && d1 == BASE * q1 + Mask(d1);
  }

  lemma FinishedValue(t: seq<int>, n: seq<int>, m: int)
    requires |t| == |n| == 10 && n[3..] == t[3..]
    requires n[0] + BASE * n[1] + BASE * BASE * (n[2] - t[2]) == t[0] + BASE * t[1] + C * m
    ensures Value(n) == Value(t) + C * m
  {
    assert Value(n) == n[0] + BASE * Value(n[1..]) && Value(t) == t[0] + BASE * Value(t[1..]);
    assert n[1..][1..] == n[2..] && t[1..][1..] == t[2..];
    assert Value(n[1..]) == n[1] + BASE * Value(n[2..]) && Value(t[1..]) == t[1] + BASE * Value(t[2..]);
    assert n[2..][1..] == n[3..] && t[2..][1..] == t[3..];
    assert Value(n[2..]) == n[2] + BASE * Value(n[3..]) && Value(t[2..]) == t[2] + BASE * Value(t[3..]);
  }

  /** The last carry, m times 2^256, comes back as m times 4294968273 in the lowest limbs. */
  method Finish(t: seq<int>, m: int) returns (n: seq<int>)
    requires IsReduced(t) && 0 <= m <= 0x41_0000_0000
    ensures Magnitude(n, 1) && Value(n) == Value(t) + C * m
  {
    hide Value, Wrap64, Wrap32, Limit;
    ghost var d0 := t[0] + m * 977;
    ghost var d1 := Shift(d0) + t[1] + m * 64;
    LastCarries(t[0], t[1], m, d0, d1);
    Fits64(d0);
    Fits64(d1);
    var d := Wrap64(t[0] + m * 977);
    var n0 := Wrap32(Mask(d));
    d := Wrap64(Shift(d) + t[1] + m * 64);
    var n1 := Wrap32(Mask(d));
    var n2 := Wrap32(Shift(d) + t[2]);
    Fits32(Mask(d0));
    Fits32(Mask(d1));
    Fits32(Shift(d1) + t[2]);
    LimbsFit(t);
    n := [n0, n1, n2, Wrap32(t[3]), Wrap32(t[4]), Wrap32(t[5]), Wrap32(t[6]), Wrap32(t[7]), Wrap32(t[8]), Wrap32(t[9])];
    Limits();
    FinishedValue(t, n, m);
  }

  lemma Fits64(x: int)
    requires 0 <= x < 0x1_0000_0000_0000_0000
    ensures Wrap64(x) == x
  {
  }

  lemma Fits32(x: int)
    requires 0 <= x < 0x1_0000_0000
    ensures Wrap32(x) == x
  {
  }

  lemma LimbsFit(t: seq<int>)
    requires IsReduced(t)
    ensures forall i :: 0 <= i < 10 ==> Wrap32(t[i]) == t[i]
  {
  }

  lemma Limits()
    ensures Limit(2) == 0x408_0000 && Limit(9) == MSB - 1
    ensures forall i :: 0 <= i < 9 && i != 2 ==> Limit(i) == BASE - 1
  {
  }

  /** The product of two numbers, reduced. */
  method Reduce(t: seq<int>, ghost x: int) returns (n: seq<int>)
    requires IsWide(t) && Value(t) == x
    ensures Magnitude(n, 1) && Value(n) % P == x % P
  {
    hide IsWide, IsReduced, Magnitude, FoldColumns, Value;
    WideParts(t);
    var r, m := Fold(t);
    n := Finish(r, m);
    FoldValue(t);
    SameResidue(x, Value(n), 16 * Value(t[10..]) + m);
  }

  lemma WideParts(t: seq<int>)
    requires IsWide(t)
    ensures |t| == 20 && Value(t) == Value(t[..10]) + 16 * (P + C) * Value(t[10..])
  {
    hide Value;
    assert t[..10] + t[10..] == t;
    ValueConcat(t[..10], t[10..]);
    var h := Value(t[10..]);
    assert BasePower(10) == BASE * BasePower(9);
    MulBase(BasePower(9), h);
    TimesNinth(h);
  }

  lemma SameResidue(x: int, y: int, k: int)
    requires x == y + k * P
    ensures x % P == y % P
  {
    var d := x % P - y % P;
    var q := k - x / P + y / P;
    assert d == q * P;
    assert q >= 1 ==> q * P >= P;
    assert q <= -1 ==> q * P <= -(P as int);
  }

  // ---- normalisation ----

  /** Limbs of a 32-bit machine. */
  ghost predicate IsLimbs(n: seq<int>) {
    |n| == 10 && forall i :: 0 <= i < 10 ==> 0 <= n[i] < 0x1_0000_0000
  }

  /** The limbs with m times 4294968273 added to the lowest two and the highest one replaced. */
  function PassColumns(n: seq<int>, m: int, top: int): (g: seq<int>)
    requires |n| == 10
    ensures |g| == 10
  {
    [n[0] + m * 977, n[1] + m * 64, n[2], n[3], n[4], n[5], n[6], n[7], n[8], top]
  }

  /** The columns of the first pass: what exceeds 2^256 is brought back to the lowest limbs. */
  function FirstColumns(n: seq<int>): (g: seq<int>)
    requires |n| == 10
    ensures |g| == 10
  {
    PassColumns(n, n[9] / MSB, n[9] % MSB)
  }

  /** What is gathered in limb k before it is cut to 32 bits. */
  function Gathered(g: seq<int>, k: nat): int
    requires k < |g|
  {
    (if k == 0 then 0 else Shift(Wrap32(Gathered(g, k - 1)))) + g[k]
  }

  function Kept(g: seq<int>, n: nat): seq<int>
    requires n <= |g|
  {
    seq(n, k requires 0 <= k < n => Mask(Wrap32(Gathered(g, k))))
  }

  /** What the cut takes away in each limb. */
  function Lost(g: seq<int>, n: nat): seq<int>
    requires n <= |g|
  {
    seq(n, k requires 0 <= k < n => 0x1_0000_0000 * (Gathered(g, k) / 0x1_0000_0000))
  }

  lemma {:induction false} GatherValue(g: seq<int>, n: nat)
    requires 0 < n <= |g|
    ensures Value(Kept(g, n)) + Mul(BasePower(n), Shift(Wrap32(Gathered(g, n - 1)))) + Value(Lost(g, n))
         == Value(g[..n])
  {
    hide Mul;
    var k := n - 1;
    var m := Gathered(g, k);
    var w := Wrap32(m);
    var q, r, l := Shift(w), Mask(w), m - w;
    assert m == 0x1_0000_0000 * (m / 0x1_0000_0000) + w;
    ShiftMask(w);
    assert Kept(g, n) == Kept(g, k) + [r] && Lost(g, n) == Lost(g, k) + [l];
    assert g[..n] == g[..k] + [g[k]];
    hide Wrap32, Shift, Mask;
    ValueAppend(Kept(g, k), r);
    ValueAppend(Lost(g, k), l);
    ValueAppend(g[..k], g[k]);
    var c := if k == 0 then 0 else Shift(Wrap32(Gathered(g, k - 1)));
    if k > 0 {
      GatherValue(g, k);
    }
    GatherStep(BasePower(k), q, r, l, m, c, g[k]);
  }

  lemma GatherStep(p: int, q: int, r: int, l: int, m: int, c: int, x: int)
    requires m == BASE * q + r + l && m == c + x
    ensures Mul(p, r) + Mul(BASE * p, q) + Mul(p, l) == Mul(p, c) + Mul(p, x)
    ensures c == 0 ==> Mul(p, c) == 0
  {
    hide Mul;
    CarryStep(p, q, r, m - l, c, x - l);
    MulSum(p, x - l, l);
  }

  ghost predicate PassInput(n: seq<int>, m: int, top: int) {
    IsLimbs(n) && 0 <= m < 1024 && 0 <= top <= MSB + 63
  }

  /** A limb overflows by at most one bit, and the last one does not. */
  lemma {:induction false} GatherBound(n: seq<int>, m: int, top: int, k: nat)
    requires PassInput(n, m, top) && k < 10
    ensures 0 <= Gathered(PassColumns(n, m, top), k) <= if k < 9 then 0x1_0010_0000 else top + 63
  {
    if k > 0 {
      GatherBound(n, m, top, k - 1);
    }
  }

  lemma PassText(n: seq<int>, m: int, top: int)
    requires IsLimbs(n)
    ensures var g := PassColumns(n, m, top);
            && g[0] == n[0] + m * 977 && g[1] == n[1] + m * 64 && g[2] == n[2] && g[3] == n[3] && g[4] == n[4]
            && g[5] == n[5] && g[6] == n[6] && g[7] == n[7] && g[8] == n[8] && g[9] == top
  {
  }

  lemma GatherAt(g: seq<int>, k: nat)
    requires k < |g|
    ensures Gathered(g, k) == (if k == 0 then 0 else Shift(Wrap32(Gathered(g, k - 1)))) + g[k]
  {
  }

  lemma KeptText(g: seq<int>, t: seq<int>)
    requires |g| == |t| == 10
    requires forall k :: 0 <= k < 9 ==> t[k] == Mask(Wrap32(Gathered(g, k)))
    ensures t[..9] == Kept(g, 9)
  {
    hide Gathered, Wrap32;
  }

  /** Limbs 0 to 4 of a pass; t4 is still to be masked. */
  method PassLow(n: seq<int>, m: int, ghost top: int) returns (t0: int, t1: int, t2: int, t3: int, t4: int)
    requires PassInput(n, m, top)
    ensures var g := PassColumns(n, m, top);
            && t0 == Mask(Wrap32(Gathered(g, 0))) && t1 == Mask(Wrap32(Gathered(g, 1)))
            && t2 == Mask(Wrap32(Gathered(g, 2))) && t3 == Mask(Wrap32(Gathered(g, 3))) && t4 == Wrap32(Gathered(g, 4))
  {
    ghost var g := PassColumns(n, m, top);
    hide Wrap32, Gathered, PassColumns, Shift, Mask;
    PassText(n, m, top);
    GatherAt(g, 0);
    GatherAt(g, 1);
    GatherAt(g, 2);
    GatherAt(g, 3);
    GatherAt(g, 4);
    t0 := Wrap32(n[0] + m * 977);
    t1 := Wrap32(Shift(t0) + n[1] + m * 64);
    t0 := Mask(t0);
    t2 := Wrap32(Shift(t1) + n[2]);
    t1 := Mask(t1);
    t3 := Wrap32(Shift(t2) + n[3]);
    t2 := Mask(t2);
    t4 := Wrap32(Shift(t3) + n[4]);
    t3 := Mask(t3);
  }

  /** Limbs 4 to 9 of a pass. */
  method PassHigh(n: seq<int>, ghost m: int, top: int, s4: int)
    returns (t4: int, t5: int, t6: int, t7: int, t8: int, t9: int)
    requires PassInput(n, m, top) && s4 == Wrap32(Gathered(PassColumns(n, m, top), 4))
    ensures var g := PassColumns(n, m, top);
            && t4 == Mask(Wrap32(Gathered(g, 4))) && t5 == Mask(Wrap32(Gathered(g, 5)))
            && t6 == Mask(Wrap32(Gathered(g, 6))) && t7 == Mask(Wrap32(Gathered(g, 7)))
            && t8 == Mask(Wrap32(Gathered(g, 8))) && t9 == Wrap32(Gathered(g, 9))
  {
    ghost var g := PassColumns(n, m, top);
    hide Wrap32, Gathered, PassColumns, Shift, Mask;
    PassText(n, m, top);
    GatherAt(g, 5);
    GatherAt(g, 6);
    GatherAt(g, 7);
    GatherAt(g, 8);
    GatherAt(g, 9);
    t4 := s4;
    t5 := Wrap32(Shift(t4) + n[5]);
    t4 := Mask(t4);
    t6 := Wrap32(Shift(t5) + n[6]);
    t5 := Mask(t5);
    t7 := Wrap32(Shift(t6) + n[7]);
    t6 := Mask(t6);
    t8 := Wrap32(Shift(t7) + n[8]);
    t7 := Mask(t7);
    t9 := Wrap32(Shift(t8) + top);
    t8 := Mask(t8);
  }

  /** The lines that both passes of Normalize consist of. */
  method Pass(n: seq<int>, m: int, top: int) returns (t: seq<int>)
    requires PassInput(n, m, top)
    ensures |t| == 10 && t[..9] == Kept(PassColumns(n, m, top), 9) && t[9] == Gathered(PassColumns(n, m, top), 9)
  {
    ghost var g := PassColumns(n, m, top);
    hide Wrap32, Gathered, PassColumns, Kept, Mask;
    var t0, t1, t2, t3, s4 := PassLow(n, m, top);
    var t4, t5, t6, t7, t8, t9 := PassHigh(n, m, top, s4);
    t := [t0, t1, t2, t3, t4, t5, t6, t7, t8, t9];
    GatherBound(n, m, top, 9);
    Fits32(Gathered(g, 9));
    KeptText(g, t);
  }

  /** What a normalisation loses to 32-bit overflow, as a number. */
  function Dropped(n: seq<int>): int
    requires |n| == 10
  {
    Value(Lost(FirstColumns(n), 9))
  }

  /** No limb overflows 32 bits while the first pass gathers carries. */
  ghost predicate Fits(n: seq<int>)
    requires |n| == 10
  {
    forall k :: 0 <= k < 9 ==> Gathered(FirstColumns(n), k) < 0x1_0000_0000
  }

  lemma PassValue(n: seq<int>, m: int, top: int)
    requires |n| == 10
    ensures Value(PassColumns(n, m, top)) == Value(n) + C * m
        + 0x40000000000000000000000000000000000000000000000000000000000 * (top - n[9])
  {
    TenLimbValue(n);
    TenLimbValue(PassColumns(n, m, top));
    hide Value;
  }

  lemma PassSum(g: seq<int>, t: seq<int>)
    requires |g| == |t| == 10 && t[..9] == Kept(g, 9) && t[9] == Gathered(g, 9)
    ensures Value(t) + Value(Lost(g, 9)) == Value(g)
  {
    hide *;
    PassSumAt(g, t, 9);
  }

  lemma PassSumAt(g: seq<int>, t: seq<int>, n: nat)
    requires 0 < n && |g| == |t| == n + 1 && t[..n] == Kept(g, n) && t[n] == Gathered(g, n)
    ensures Value(t) + Value(Lost(g, n)) == Value(g)
  {
    hide *;
    GatherAt(g, n);
    GatherValue(g, n);
    LastLimb(t, n);
    LastLimb(g, n);
    MulSum(BasePower(n), Shift(Wrap32(Gathered(g, n - 1))), g[n]);
  }

  lemma LastLimb(s: seq<int>, n: nat)
    requires |s| == n + 1
    ensures Value(s) == Value(s[..n]) + Mul(BasePower(n), s[n])
  {
    hide *;
    assert s == s[..n] + [s[n]];
    ValueAppend(s[..n], s[n]);
  }

  lemma PassBound(n: seq<int>, m: int, top: int, t: seq<int>)
    requires PassInput(n, m, top) && |t| == 10
    requires t[..9] == Kept(PassColumns(n, m, top), 9) && t[9] == Gathered(PassColumns(n, m, top), 9)
    ensures (forall k :: 0 <= k < 9 ==> 0 <= t[k] < BASE) && 0 <= t[9] <= top + 63
  {
    GatherBound(n, m, top, 9);
    MaskBound();
    hide Gathered, Wrap32, Mask, PassColumns;
    assert forall k :: 0 <= k < 9 ==> t[k] == t[..9][k];
  }

  lemma LostLimb(n: seq<int>, m: int, top: int, k: nat)
    requires PassInput(n, m, top) && k < 9
    ensures var g := PassColumns(n, m, top);
            0 <= Lost(g, 9)[k] <= 0x1_0000_0000 && (Lost(g, 9)[k] == 0 <==> Gathered(g, k) < 0x1_0000_0000)
  {
    GatherBound(n, m, top, k);
    hide Gathered, PassColumns;
  }

  lemma NineLimbs(l: seq<int>)
    requires |l| == 9 && forall k :: 0 <= k < 9 ==> 0 <= l[k] <= 0x1_0000_0000
    ensures 0 <= Value(l) < P
    ensures Value(l) == 0 <==> l[0] == l[1] == l[2] == l[3] == l[4] == l[5] == l[6] == l[7] == l[8] == 0
  {
    hide Mul, BasePower;
    ValueAppend(l, 0);
    MulOne(BasePower(9));
    TenLimbValue(l + [0]);
    hide Value;
  }

  /** Nothing is lost exactly when no limb overflows, and what is lost is below p. */
  lemma DroppedIff(n: seq<int>)
    requires IsLimbs(n)
    ensures 0 <= Dropped(n) < P
    ensures Dropped(n) == 0 <==> Fits(n)
  {
    hide Gathered, PassColumns, Value;
    var m, top := n[9] / MSB, n[9] % MSB;
    var l := Lost(FirstColumns(n), 9);
    forall k | 0 <= k < 9
      ensures 0 <= l[k] <= 0x1_0000_0000 && (l[k] == 0 <==> Gathered(FirstColumns(n), k) < 0x1_0000_0000)
    {
      LostLimb(n, m, top, k);
    }
    hide Lost;
    NineLimbs(l);
  }

  // ---- the final subtraction ----

  lemma AndFull(x: nat, y: nat)
    requires x < BASE && y < BASE
    ensures And(x, y) < BASE && (And(x, y) == BASE - 1 <==> x == BASE - 1 && y == BASE - 1)
  {
    AndBelow(x, y);
    AndSelf(BASE - 1);
    hide And;
  }

  /** Limbs after the first pass: one bit beyond 2^256 may be set. */
  ghost predicate IsPassed(t: seq<int>) {
    |t| == 10 && (forall k :: 0 <= k < 9 ==> 0 <= t[k] < BASE) && 0 <= t[9] <= MSB + 63
  }

  /** Whether the number is p or more: a bit beyond 2^256, or all upper limbs full and the lowest two large. */
  ghost predicate Exceeds(t: seq<int>)
    requires |t| == 10
  {
    || t[9] >= MSB
    || (&& t[9] == MSB - 1 && (forall k :: 2 <= k < 9 ==> t[k] == BASE - 1)
        && Shift(t[0] + 977) + t[1] + 64 >= BASE)
  }

  lemma ExceedsIff(t: seq<int>)
    requires IsPassed(t)
    ensures Exceeds(t) <==> Value(t) >= P
    ensures 0 <= Value(t) < P + P
  {
    TenLimbValue(t);
    ShiftMask(t[0] + 977);
    MaskBound();
    hide Value, Shift, Mask;
    if t[9] < MSB && (t[9] < MSB - 1 || exists k :: 2 <= k < 9 && t[k] < BASE - 1) {
      NotFull(t);
    }
  }

  /** An upper limb that is not full keeps the number below p. */
  lemma NotFull(t: seq<int>)
    requires IsPassed(t) && t[9] < MSB
    requires t[9] < MSB - 1 || exists k :: 2 <= k < 9 && t[k] < BASE - 1
    ensures Value(t) < P
  {
    TenLimbValue(t);
    hide Value;
    assert t[9] < MSB - 1 || t[2] < BASE - 1 || t[3] < BASE - 1 || t[4] < BASE - 1 || t[5] < BASE - 1
        || t[6] < BASE - 1 || t[7] < BASE - 1 || t[8] < BASE - 1;
  }

  lemma BitOperations()
    ensures And(0, 0) == 0 && And(0, 1) == 0 && And(1, 0) == 0 && And(1, 1) == 1
    ensures Or(0, 0) == 0 && Or(0, 1) == 1 && Or(1, 0) == 1 && Or(1, 1) == 1
  {
  }

  lemma AndSeven(t: seq<int>)
    requires IsPassed(t)
    ensures And(And(And(And(And(And(t[2], t[3]), t[4]), t[5]), t[6]), t[7]), t[8]) == BASE - 1
       <==> forall k :: 2 <= k < 9 ==> t[k] == BASE - 1
  {
    hide And;
    AndFull(t[2], t[3]);
    var a3 := And(t[2], t[3]);
    AndFull(a3, t[4]);
    var a4 := And(a3, t[4]);
    AndFull(a4, t[5]);
    var a5 := And(a4, t[5]);
    AndFull(a5, t[6]);
    var a6 := And(a5, t[6]);
    AndFull(a6, t[7]);
    AndFull(And(a6, t[7]), t[8]);
  }

  /** The constant-time test for a number of p or more. */
  method ExceedsTest(t: seq<int>) returns (m: nat)
    requires IsPassed(t)
    ensures m == if Exceeds(t) then 1 else 0
  {
    BitOperations();
    AndSeven(t);
    hide And, Or, Shift;
    m := 1;
    if t[9] == MSB - 1 {
      m := And(m, 1);
    } else {
      m := And(m, 0);
    }
    if And(And(And(And(And(And(t[2], t[3]), t[4]), t[5]), t[6]), t[7]), t[8]) == BASE - 1 {
      m := And(m, 1);
    } else {
      m := And(m, 0);
    }
    if Shift(t[0] + 977) + t[1] + 64 > BASE - 1 {
      m := And(m, 1);
    } else {
      m := And(m, 0);
    }
    if t[9] / MSB != 0 {
      m := Or(m, 1);
    } else {
      m := Or(m, 0);
    }
  }

  lemma PassedIsLimbs(t: seq<int>, m: int)
    requires IsPassed(t) && 0 <= m <= 1
    ensures PassInput(t, m, t[9])
  {
  }

  /** The second pass loses nothing. */
  lemma SecondPassWhole(t: seq<int>, m: int, u: seq<int>)
    requires IsPassed(t) && 0 <= m <= 1 && |u| == 10
    requires u[..9] == Kept(PassColumns(t, m, t[9]), 9) && u[9] == Gathered(PassColumns(t, m, t[9]), 9)
    ensures Value(u) == Value(t) + C * m
  {
    var g := PassColumns(t, m, t[9]);
    PassedIsLimbs(t, m);
    var l := Lost(g, 9);
    hide Value;
    forall k | 0 <= k < 9
      ensures l[k] == 0
    {
      SecondPassFits(t, m, k);
      LostLimb(t, m, t[9], k);
    }
    hide PassColumns, Gathered, Lost, Kept;
    NineLimbs(l);
    PassSum(g, u);
    PassValue(t, m, t[9]);
  }

  lemma {:induction false} SecondPassFits(t: seq<int>, m: int, k: nat)
    requires IsPassed(t) && 0 <= m <= 1 && k < 9
    ensures 0 <= Gathered(PassColumns(t, m, t[9]), k) < 0x800_0000
  {
    if k > 0 {
      SecondPassFits(t, m, k - 1);
    }
  }

  lemma TopCut(u: seq<int>, r: seq<int>)
    requires |u| == |r| == 10 && r == u[9 := u[9] % MSB]
    ensures Value(u) == Value(r) + (P + C) * (u[9] / MSB)
  {
    assert u[9] == MSB * (u[9] / MSB) + r[9];
    TenLimbValue(u);
    TenLimbValue(r);
    hide Value;
  }

  /** One number below p that differs from x by a multiple of p. */
  lemma Residue(x: int, y: int, k: int)
    requires 0 <= y < P && x == y + P * k
    ensures y == x % P
  {
    SameResidue(x, y, k);
  }

  /** The unique representative below p of what is left after 32-bit overflow. */
  method NormalizeLimbs(n: seq<int>) returns (r: seq<int>)
    requires IsLimbs(n)
    ensures IsReduced(r) && Value(r) == (Value(n) - Dropped(n)) % P
  {
    hide Value, PassColumns, Gathered, Kept, Lost, Exceeds;
    var m := n[9] / MSB;
    var top := n[9] % MSB;
    var t := Pass(n, m, top);
    PassBound(n, m, top, t);
    ghost var x := Value(t);
    PassSum(FirstColumns(n), t);
    PassValue(n, m, top);
    assert x == Value(n) - Dropped(n) - P * m by {
      assert n[9] == MSB * m + top;
    }
    ExceedsIff(t);
    var m' := ExceedsTest(t);
    PassedIsLimbs(t, m');
    var u := Pass(t, m', t[9]);
    PassBound(t, m', t[9], u);
    SecondPassWhole(t, m', u);
    r := u[9 := u[9] % MSB];
    TopCut(u, r);
    ReducedBound(r);
    Subtracted(x, m', Value(r), u[9] / MSB);
    Residue(Value(n) - Dropped(n), Value(r), m + m');
  }

  lemma Subtracted(x: int, m: int, y: int, q: int)
    requires 0 <= x < P + P && m == (if x >= P then 1 else 0) && 0 <= q <= 1
    requires 0 <= y < P + C && x + C * m == y + (P + C) * q
    ensures y == x - P * m && 0 <= y < P
  {
  }

  /** Normalisation gives the residue of the number exactly when no limb overflows. */
  lemma NormalizeExact(n: seq<int>)
    requires IsLimbs(n)
    ensures (Value(n) - Dropped(n)) % P == Value(n) % P <==> Fits(n)
  {
    hide Value, Dropped, Fits;
    DroppedIff(n);
    var x, d := Value(n), Dropped(n);
    if (x - d) % P == x % P {
      var q := x / P - (x - d) / P;
      assert d == q * P;
      assert q >= 1 ==> q * P >= P;
      assert q <= -1 ==> q * P + P <= 0;
    }
  }

  /** Numbers of magnitude up to 63 are within the condition. */
  lemma SmallLimbsFit(n: seq<int>)
    requires Magnitude(n, 63)
    ensures IsLimbs(n) && Fits(n)
  {
    Limits();
    assert forall i :: 0 <= i < 10 ==> 0 <= n[i] <= 63 * Limit(i);
    forall k | 0 <= k < 9
      ensures Gathered(FirstColumns(n), k) < 0x1_0000_0000
    {
      SmallGathered(n, k);
    }
  }

  lemma {:induction false} SmallGathered(n: seq<int>, k: nat)
    requires Magnitude(n, 63) && k < 9
    ensures 0 <= Gathered(FirstColumns(n), k) < 0x1_0000_0000
  {
    if k > 0 {
      SmallGathered(n, k - 1);
    }
  }

  /** Any full limb 0 overflows once the highest limb gives something back. */
  lemma FirstLimbOverflows(n: seq<int>)
    requires |n| == 10 && n[0] == 0xFFFF_FFFF && MSB <= n[9] < 0x1_0000_0000
    requires forall i :: 0 < i < 9 ==> 0 <= n[i] < 0x1_0000_0000
    ensures IsLimbs(n) && (Value(n) - Dropped(n)) % P != Value(n) % P
  {
    assert FirstColumns(n)[0] == n[0] + n[9] / MSB * 977;
    hide Value, Dropped, FirstColumns;
    assert Gathered(FirstColumns(n), 0) == FirstColumns(n)[0] >= 0x1_0000_0000;
    NormalizeExact(n);
  }

  /** Limb 0 at its largest, with a carry coming back from limb 9. */
  function Overfull(): (n: seq<int>)
    ensures |n| == 10 && n[0] == 0xFFFF_FFFF && n[9] == 0x40_0000 && forall i :: 0 < i < 9 ==> n[i] == 0
  {
    [0xFFFF_FFFF, 0, 0, 0, 0, 0, 0, 0, 0, 0x40_0000]
  }

  /** Beyond the condition it goes wrong. */
  lemma NormalizeNeedsRoom()
    ensures IsLimbs(Overfull()) && (Value(Overfull()) - Dropped(Overfull())) % P != Value(Overfull()) % P
  {
    hide Value, Dropped, Overfull, IsLimbs;
    FirstLimbOverflows(Overfull());
  }

  // ---- negation ----

  /** The limbs of m + 1 times p, less those of a number of magnitude m. */
  method NegateLimbs(v: seq<int>, magnitude: nat) returns (n: seq<int>)
    requires Magnitude(v, magnitude) && magnitude <= 63
    ensures Magnitude(n, magnitude + 1) && Value(n) == (magnitude + 1) * P - Value(v)
  {
    Limits();
    hide Limit, Wrap32;
    var c := magnitude + 1;
    FitsAll(v, magnitude);
    n := [Wrap32(c * 0x3FFFC2F - v[0]), Wrap32(c * 0x3FFFFBF - v[1]), Wrap32(c * (BASE - 1) - v[2]),
          Wrap32(c * (BASE - 1) - v[3]), Wrap32(c * (BASE - 1) - v[4]), Wrap32(c * (BASE - 1) - v[5]),
          Wrap32(c * (BASE - 1) - v[6]), Wrap32(c * (BASE - 1) - v[7]), Wrap32(c * (BASE - 1) - v[8]),
          Wrap32(c * (MSB - 1) - v[9])];
    hide Magnitude, Value;
    NegatedValue(v, n, c);
    NegatedMagnitude(v, n, c);
  }

  lemma NegatedMagnitude(v: seq<int>, n: seq<int>, c: nat)
    requires c > 0 && Magnitude(v, c - 1) && |n| == 10
    requires 0 <= n[0] == c * 0x3FFFC2F - v[0] && 0 <= n[1] == c * 0x3FFFFBF - v[1] && 0 <= n[9] == c * (MSB - 1) - v[9]
    requires forall i :: 2 <= i < 9 ==> 0 <= n[i] == c * (BASE - 1) - v[i]
    ensures Magnitude(n, c)
  {
    forall i | 0 <= i < 10
      ensures 0 <= n[i] <= c * Limit(i)
    {
      Limits();
      hide Limit;
      assert 0 <= v[i];
    }
  }

  lemma FitsAll(v: seq<int>, magnitude: nat)
    requires Magnitude(v, magnitude) && magnitude <= 63
    ensures |v| == 10
    ensures var c := magnitude + 1;
            && Wrap32(c * 0x3FFFC2F - v[0]) == c * 0x3FFFC2F - v[0] >= 0
            && Wrap32(c * 0x3FFFFBF - v[1]) == c * 0x3FFFFBF - v[1] >= 0
            && (forall i :: 2 <= i < 9 ==> Wrap32(c * (BASE - 1) - v[i]) == c * (BASE - 1) - v[i] >= 0)
            && Wrap32(c * (MSB - 1) - v[9]) == c * (MSB - 1) - v[9] >= 0
    ensures forall i :: 0 <= i < 10 ==> 0 <= v[i]
  {
    Limits();
    hide Limit, Wrap32;
    var c := magnitude + 1;
    Fits32(c * 0x3FFFC2F - v[0]);
    Fits32(c * 0x3FFFFBF - v[1]);
    forall i | 2 <= i < 9
      ensures Wrap32(c * (BASE - 1) - v[i]) == c * (BASE - 1) - v[i] >= 0
    {
      assert 0 <= v[i] <= magnitude * 0x408_0000;
      Fits32(c * (BASE - 1) - v[i]);
    }
    Fits32(c * (MSB - 1) - v[9]);
  }

  lemma NegatedValue(v: seq<int>, n: seq<int>, c: int)
    requires |v| == |n| == 10
    requires n[0] == c * 0x3FFFC2F - v[0] && n[1] == c * 0x3FFFFBF - v[1] && n[9] == c * (MSB - 1) - v[9]
    requires forall i :: 2 <= i < 9 ==> n[i] == c * (BASE - 1) - v[i]
    ensures Value(n) == c * P - Value(v)
  {
    TenLimbValue(v);
    TenLimbValue(n);
    hide Value;
  }
}
