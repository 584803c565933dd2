/**
 What the non-adjacent form is for: it is the only one of its number, and no signed
 binary form of that number has fewer nonzero digits, so none costs fewer point additions.
 */
module NafTheory {
  import opened Bytes
  import opened Naf

  lemma NafHalf(pos: nat, neg: nat)
    requires IsNaf(pos, neg)
    ensures IsNaf(pos / 2, neg / 2)
    ensures pos % 2 == 0 || neg % 2 == 0
    ensures pos % 2 == 1 || neg % 2 == 1 ==> pos / 2 % 2 == 0 && neg / 2 % 2 == 0
  {
    assert !(Bit(pos, 0) && Bit(neg, 0)) && !(Bit(pos, 1) && Bit(neg, 1));
    assert Digit(pos, neg, 0) == 0 || Digit(pos, neg, 1) == 0;
    assert Bit(pos, 1) == Bit(pos / 2, 0) && Bit(neg, 1) == Bit(neg / 2, 0);
    forall t: nat
      ensures Bit(pos, t + 1) == Bit(pos / 2, t) && Bit(neg, t + 1) == Bit(neg / 2, t)
    {
    }
    forall t: nat, u: nat | u == t + 1
      ensures Digit(pos / 2, neg / 2, t) == 0 || Digit(pos / 2, neg / 2, u) == 0
    {
      assert Digit(pos, neg, t + 1) == 0 || Digit(pos, neg, u + 1) == 0;
    }
    forall t: nat
      ensures !(Bit(pos / 2, t) && Bit(neg / 2, t))
    {
      assert !(Bit(pos, t + 1) && Bit(neg, t + 1));
    }
  }

  /** A number has one non-adjacent form. */
  lemma {:induction false} NafUnique(p: nat, q: nat, p': nat, q': nat)
    requires IsNaf(p, q) && IsNaf(p', q') && p - q == p' - q'
    ensures p == p' && q == q'
    decreases p + q + p' + q'
  {
    if p + q + p' + q' > 0 {
      NafHalf(p, q);
      NafHalf(p', q');
      NafUnique(p / 2, q / 2, p' / 2, q' / 2);
    }
  }

  /** The number of one bits of n. */
  function Ones(n: nat): nat {
    if n == 0 then 0 else n % 2 + Ones(n / 2)
  }

  /** The number of nonzero digits of n's non-adjacent form, read off n itself. */
  function Weight(n: int): nat
    decreases if n < 0 then -n else n
  {
    if n == 0 then 0
    else if n % 2 == 0 then Weight(n / 2)
    else if n % 4 == 1 then 1 + Weight((n - 1) / 2)
    else 1 + Weight((n + 1) / 2)
  }

  lemma WeightEven(m: int)
    ensures Weight(2 * m) == Weight(m)
  {
  }

  lemma WeightAfterOne(m: int, n: int)
    requires n == 4 * m + 1
    ensures Weight(n) == 1 + Weight(2 * m)
  {
    assert n % 4 == 1 && n % 2 == 1 && (n - 1) / 2 == 2 * m;
  }

  lemma WeightAfterThree(m: int, n: int)
    requires n == 4 * m - 1
    ensures Weight(n) == 1 + Weight(2 * m)
  {
    assert n == 4 * (m - 1) + 3;
    assert n % 4 == 3 && n % 2 == 1 && (n + 1) / 2 == 2 * m;
  }

  lemma WeightOdd(m: int)
    ensures Weight(4 * m + 1) == 1 + Weight(m) && Weight(4 * m - 1) == 1 + Weight(m)
  {
    hide Weight;
    WeightAfterOne(m, 4 * m + 1);
    WeightAfterThree(m, 4 * m - 1);
    WeightEven(m);
  }

  lemma Halves(p: int, q: int)
    ensures p - q == 2 * (p / 2 - q / 2) + (p % 2 - q % 2)
  {
  }

  lemma EvenDifference(p: int, q: int)
    requires p % 2 == 0 && q % 2 == 0
    ensures (p - q) % 2 == 0
  {
    var a, b := p / 2, q / 2;
    assert p - q == 2 * (a - b);
  }

  lemma NoWeight()
    ensures Weight(0) == 0 && Ones(0) == 0
  {
  }

  lemma OnesStep(n: nat)
    ensures Ones(n) == n % 2 + Ones(n / 2)
  {
  }

  lemma {:induction false} NafWeight(p: nat, q: nat, n: int)
    requires IsNaf(p, q) && n == p - q
    ensures Ones(p) + Ones(q) == Weight(n)
    decreases p + q
  {
    hide Weight, Ones, IsNaf;
    NoWeight();
    if p + q > 0 {
      NafHalf(p, q);
      OnesStep(p);
      OnesStep(q);
      var p', q', d := p / 2, q / 2, p % 2 - q % 2;
      NafWeight(p', q', p' - q');
      Halves(p, q);
      assert p % 2 + q % 2 == if d == 0 then 0 else 1;
      if d != 0 {
        EvenDifference(p', q');
      }
      NafDigit(p' - q', d, n);
    }
  }

  lemma NafDigit(m: int, d: int, n: int)
    requires n == 2 * m + d && -1 <= d <= 1
    requires d != 0 ==> m % 2 == 0
    ensures Weight(n) == Weight(m) + (if d == 0 then 0 else 1)
  {
    hide Weight;
    if d == 0 {
      WeightEven(m);
    } else {
      var j := m / 2;
      assert m == 2 * j;
      WeightEven(j);
      WeightOdd(j);
    }
  }

  /** An odd number against the halves of its even neighbours. */
  lemma WeightBetween(m: int)
    requires WeightsClose(m)
    ensures Weight(m) <= Weight(2 * m + 1) <= Weight(m) + 2
    ensures Weight(m + 1) <= Weight(2 * m + 1) <= Weight(m + 1) + 2
  {
    hide Weight;
    var j := m / 2;
    if m % 2 == 0 {
      assert m == 2 * j;
      WeightEven(j);
      WeightOdd(j);
    } else {
      assert m + 1 == 2 * (j + 1);
      WeightEven(j + 1);
      WeightOdd(j + 1);
    }
  }

  lemma WeightStepOuter(m: int)
    ensures Weight(4 * m) == Weight(m) && Weight(4 * m + 1) == Weight(m) + 1 && Weight(4 * m - 1) == Weight(m) + 1
  {
    hide Weight;
    assert 2 * (2 * m) == 4 * m;
    WeightEven(2 * m);
    WeightEven(m);
    WeightOdd(m);
  }

  /** Neighbouring numbers have weights at most one apart. */
  lemma {:induction false} WeightStep(n: int)
    ensures WeightsClose(n)
    decreases if n < 0 then -n else n
  {
    hide Weight;
    var m, r := n / 4, n % 4;
    if r == 0 {
      WeightStepOuter(m);
    } else if r == 3 {
      WeightStepOuter(m + 1);
    } else {
      WeightStep(m);
      WeightStepInner(m);
    }
  }

  ghost predicate WeightsClose(n: int) {
    -1 <= Weight(n + 1) - Weight(n) <= 1
  }

  lemma WeightStepInner(m: int)
    requires WeightsClose(m)
    ensures WeightsClose(4 * m + 1) && WeightsClose(4 * m + 2)
  {
    hide Weight;
    WeightBetween(m);
    assert 2 * (2 * m + 1) == 4 * m + 2 && 4 * (m + 1) - 1 == 4 * m + 3;
    WeightEven(2 * m + 1);
    WeightOdd(m);
    WeightOdd(m + 1);
  }

  /** Appending a digit +1 or -1 to a signed binary form adds at most one to the weight. */
  lemma WeightAppend(m: int)
    ensures Weight(2 * m + 1) <= 1 + Weight(m) && Weight(2 * m - 1) <= 1 + Weight(m)
  {
    hide Weight;
    if m % 2 == 0 {
      NafDigit(m, 1, 2 * m + 1);
      NafDigit(m, -1, 2 * m - 1);
    } else {
      var j := m / 2;
      WeightStep(j);
      WeightBetween(j);
      assert 2 * j + 1 == m && 4 * j + 1 == 2 * m - 1 && 4 * (j + 1) - 1 == 2 * m + 1;
      WeightStepOuter(j);
      WeightStepOuter(j + 1);
    }
  }

  /** No signed binary form of n, adjacent or not, has fewer nonzero digits. */
  lemma {:induction false} WeightMinimal(a: nat, b: nat, n: int)
    requires n == a - b
    ensures Weight(n) <= Ones(a) + Ones(b)
    decreases a + b
  {
    hide Weight, Ones;
    NoWeight();
    if a + b > 0 {
      OnesStep(a);
      OnesStep(b);
      var m := a / 2 - b / 2;
      WeightMinimal(a / 2, b / 2, m);
      WeightEven(m);
      WeightAppend(m);
      Halves(a, b);
    }
  }

  lemma NafFewestDigits(p: nat, q: nat, a: nat, b: nat)
    requires IsNaf(p, q) && a - b == p - q
    ensures Ones(p) + Ones(q) <= Ones(a) + Ones(b)
  {
    var n := p - q;
    NafWeight(p, q, n);
    WeightMinimal(a, b, n);
  }
}
