/**
 Scalar multiplication on secp256k1 (crypto/secp256k1/btcec.go): reduction modulo the
 group order, the GLV split of the scalar, non-adjacent forms and one interleaved
 double-and-add pass. Points are elements of an abelian group; the affine and Jacobian
 formulas are used through the group law.
 */
module ScalarMult {
  import opened Bytes
  import opened Naf
  import opened Group

  const N: int := 0xFFFFFFFFFFFFFFFFFFFFFFFFFFFFFFFEBAAEDCE6AF48A03BBFD25E8CD0364141
  const BYTE_SIZE: nat := 32
  const LAMBDA: int := 0x5363AD4CC05C30E0A5261C028812645A122E22EA20816678DF02967C1B23BD72
  const A1: int := 0x3086D221A7D46BCDE86C90E49284EB15
  const B1: int := -0xE4437ED6010E88286F547FA90ABFE4C3
  const A2: int := 0x114CA50F7A8E2F3F657C1108D9D44CFD8
  const B2: int := 0x3086D221A7D46BCDE86C90E49284EB15

  /** big.Int.Sign */
  function Sign(n: int): int {
    if n < 0 then -1 else if n == 0 then 0 else 1
  }

  /** The number of which b spells the absolute value and s is the sign. */
  function Signed(s: int, b: seq<byte>): int {
    s * FromBytes(b)
  }

  function Abs(n: int): nat {
    if n < 0 then -n else n
  }

  /** Both rows (a, b) of the lattice basis satisfy a + b·lambda = 0 modulo N. */
  lemma LatticeBasis()
    ensures A1 + B1 * LAMBDA == -0x4a5ac2bf7b5f37f9f1db10d7a2a9c981 * N
    ensures A2 + B2 * LAMBDA == 0xfce9b1dd4eb7dd2718a2906787061b2 * N
    ensures A1 * B2 - A2 * B1 == N
    ensures B2 - B1 == A2
  {
  }

  /** k1 + k2·lambda differs from k by a multiple of N, whatever the rounding of c1 and c2. */
  lemma SplitCongruent(k: int, c1: int, c2: int) returns (q: int)
    ensures (k - c1 * A1 + c2 * A2) + (c2 * B2 - c1 * B1) * LAMBDA == k + q * N
  {
    LatticeBasis();
    var r1, r2 := -0x4a5ac2bf7b5f37f9f1db10d7a2a9c981, 0xfce9b1dd4eb7dd2718a2906787061b2;
    q := c2 * r2 - c1 * r1;
    calc {
      (k - c1 * A1 + c2 * A2) + (c2 * B2 - c1 * B1) * LAMBDA;
      k - c1 * (A1 + B1 * LAMBDA) + c2 * (A2 + B2 * LAMBDA);
      k - c1 * (r1 * N) + c2 * (r2 * N);
      k + (c2 * r2 - c1 * r1) * N;
    }
  }

  /** With c1 and c2 rounded down, both halves stay below a2 in absolute value. */
  lemma SplitShort(k: int, c1: int, c2: int)
    requires c1 == B2 * k / N && c2 == B1 * k / N
    ensures -A2 < k - c1 * A1 + c2 * A2 < A1
    ensures -A2 < c2 * B2 - c1 * B1 <= 0
  {
    LatticeBasis();
    var f1, f2 := B2 * k - c1 * N, B1 * k - c2 * N;
    assert 0 <= f1 < N && 0 <= f2 < N;
    var k1, k2 := k - c1 * A1 + c2 * A2, c2 * B2 - c1 * B1;
    assert k1 * N == f1 * A1 - f2 * A2;
    assert k2 * N == f1 * B1 - f2 * B2;
  }

  ghost predicate Congruent(a: int, b: int) {
    (a - b) % N == 0
  }

  /** k reduced modulo N when it is longer than 32 bytes. */
  method ModuloReduce(k: seq<byte>) returns (r: seq<byte>)
    ensures |r| <= BYTE_SIZE && (|k| <= BYTE_SIZE ==> r == k)
    ensures Congruent(FromBytes(r), FromBytes(k))
  {
    if |k| > BYTE_SIZE {
      var tmpK := FromBytes(k);
      tmpK := tmpK % N;
      ReducedSame(FromBytes(k));
      ReducedLength(tmpK);
      return ToBytes(tmpK);
    }
    return k;
  }

  lemma Pow2Double(e: nat, v: int)
    requires Pow2(e) == v
    ensures Pow2(2 * e) == v * v
  {
    Pow2Add(e, e);
  }

  lemma ReducedLength(n: nat)
    requires n < N
    ensures |ToBytes(n)| <= BYTE_SIZE
  {
    assert Pow2(8) == 0x100;
    Pow2Double(8, 0x100);
    var e: nat :| e == 16;
    Pow2Double(e, 0x10000);
    Pow2Double(2 * e, 0x1_0000_0000);
    Pow2Double(4 * e, 0x1_0000_0000_0000_0000);
    Pow2Double(8 * e, 0x1_0000_0000_0000_0000_0000_0000_0000_0000);
    ToBytesLength(n, 2 * e);
  }

  lemma ReducedSame(n: nat)
    ensures 0 <= n % N < N && Congruent(n % N, n)
  {
    assert n % N - n == (-(n / N)) * N;
    MultipleMod(-(n / N), N);
  }

  /** A balanced length-two representation of k: absolute values as bytes, and the signs. */
  method SplitK(k: seq<byte>)
    returns (b1: seq<byte>, b2: seq<byte>, s1: int, s2: int, ghost k1: int, ghost k2: int)
    ensures s1 == Sign(s1) && s2 == Sign(s2)
    ensures Signed(s1, b1) == k1 && (s1 == 0 ==> FromBytes(b1) == 0) && FromBytes(b1) < A2
    ensures Signed(s2, b2) == k2 && (s2 == 0 ==> FromBytes(b2) == 0) && FromBytes(b2) < A2
    ensures Congruent(k1 + k2 * LAMBDA, FromBytes(k))
  {
    var bigIntK := FromBytes(k);
    var c1 := B2 * bigIntK;
    c1 := c1 / N;
    var c2 := B1 * bigIntK;
    c2 := c2 / N;
    var tmp1, tmp2 := c1 * A1, c2 * A2;
    var r1 := bigIntK - tmp1;
    r1 := r1 + tmp2;
    tmp1, tmp2 := c1 * B1, c2 * B2;
    var r2 := tmp2 - tmp1;
    SplitShort(bigIntK, c1, c2);
    ghost var q := SplitCongruent(bigIntK, c1, c2);
    assert r1 + r2 * LAMBDA - bigIntK == q * N;
    MultipleMod(q, N);
    SignAbs(r1);
    SignAbs(r2);
    k1, k2 := r1, r2;
    b1, b2, s1, s2 := ToBytes(Abs(r1)), ToBytes(Abs(r2)), Sign(r1), Sign(r2);
  }

  lemma SignAbs(n: int)
    ensures Sign(n) * Abs(n) == n
  {
  }

  lemma MultipleMod(q: int, n: int)
    requires n > 0
    ensures q * n % n == 0
  {
    var r := q * n % n;
    var d := q - q * n / n;
    assert d * n == r;
    assert d >= 1 ==> d * n >= n;
    assert d <= -1 ==> d * n <= -n;
  }

  // ---- the double-and-add pass ----

  /** c1·x1 + c2·x2 */
  ghost function Combine<E>(g: Group<E>, c1: int, x1: E, c2: int, x2: E): E {
    g.add(Times(g, c1, x1), Times(g, c2, x2))
  }

  lemma CombineAdd<E(!new)>(g: Group<E>, c1: int, c2: int, d1: int, d2: int, x1: E, x2: E)
    requires IsAbelian(g)
    ensures g.add(Combine(g, c1, x1, c2, x2), Combine(g, d1, x1, d2, x2)) == Combine(g, c1 + d1, x1, c2 + d2, x2)
  {
    AddFour(g, Times(g, c1, x1), Times(g, c2, x2), Times(g, d1, x1), Times(g, d2, x2));
    TimesAdd(g, c1, d1, x1);
    TimesAdd(g, c2, d2, x2);
  }

  lemma CombineUnits<E(!new)>(g: Group<E>, x1: E, x2: E)
    requires IsAbelian(g)
    ensures Combine(g, 1, x1, 0, x2) == x1 && Combine(g, -1, x1, 0, x2) == g.neg(x1)
    ensures Combine(g, 0, x1, 1, x2) == x2 && Combine(g, 0, x1, -1, x2) == g.neg(x2)
  {
    TimesOne(g, x1);
    TimesOne(g, x2);
    AddZero(g, x1);
    AddZero(g, x2);
    AddZero(g, g.neg(x1));
    AddZero(g, g.neg(x2));
  }

  /** The signed digit the top bits of a +1 byte and a -1 byte select, the +1 byte first. */
  function TopDigit(pos: byte, neg: byte): int {
    if pos >= 128 then 1 else if neg >= 128 then -1 else 0
  }

  /** One inner step: double, then add or subtract each point as the top bits say. */
  method DoubleAndAdd<E(!new)>(g: Group<E>, q: E, p1: E, p1Neg: E, p2: E, p2Neg: E,
                               k1BytePos: byte, k1ByteNeg: byte, k2BytePos: byte, k2ByteNeg: byte,
                               ghost c1: int, ghost c2: int) returns (q': E)
    requires IsAbelian(g)
    requires p1Neg == g.neg(p1) && p2Neg == g.neg(p2)
    requires q == Combine(g, c1, p1, c2, p2)
    ensures q' == Combine(g, 2 * c1 + TopDigit(k1BytePos, k1ByteNeg), p1,
                          2 * c2 + TopDigit(k2BytePos, k2ByteNeg), p2)
  {
    CombineUnits(g, p1, p2);
    ghost var d1, d2 := TopDigit(k1BytePos, k1ByteNeg), TopDigit(k2BytePos, k2ByteNeg);
    q' := g.add(q, q);
    CombineAdd(g, c1, c2, c1, c2, p1, p2);
    if k1BytePos >= 128 {
      q' := g.add(q', p1);
    } else if k1ByteNeg >= 128 {
      q' := g.add(q', p1Neg);
    }
    CombineAdd(g, 2 * c1, 2 * c2, d1, 0, p1, p2);
    if k2BytePos >= 128 {
      q' := g.add(q', p2);
    } else if k2ByteNeg >= 128 {
      q' := g.add(q', p2Neg);
    }
    CombineAdd(g, 2 * c1 + d1, 2 * c2, 0, d2, p1, p2);
  }

  /** b << 1 on a byte. */
  function ShiftLeft(b: byte): byte {
    2 * (b % 128)
  }

  /** The register holds bits j..0 of h at the top: the low byte of h after 7 - j left shifts. */
  ghost predicate Register(reg: byte, h: nat, j: int) {
    forall u, v :: 0 <= u <= j && v == u + 7 - j ==> Bit(reg, v) == Bit(h, u)
  }

  /** Byte i of s behind m - |s| zero bytes. */
  method FetchByte(s: seq<byte>, m: nat, i: nat) returns (b: byte)
    requires |s| <= m && i < m
    ensures Register(b, High(FromBytes(s), 8 * (m - 1 - i)), 7)
  {
    FromBytesBound(s);
    ghost var n, base := FromBytes(s), 8 * (m - 1 - i);
    if i < m - |s| {
      b := 0;
      forall u | 0 <= u <= 7
        ensures Bit(0, u) == Bit(High(n, base), u)
      {
        HighAdd(n, base, u);
        BitHigh(0, 0, u);
        BitHigh(n, 8 * |s|, base + u);
      }
    } else {
      b := s[i - (m - |s|)];
      forall u | 0 <= u <= 7
        ensures Bit(b, u) == Bit(High(n, base), u)
      {
        HighAdd(n, base, u);
        BitOfByte(s, i - (m - |s|), u);
      }
    }
  }

  lemma RegisterTop(reg: byte, h: nat, j: nat)
    requires Register(reg, h, j) && j <= 7
    ensures Bit(h, j) <==> reg >= 128
  {
    assert Pow2(7) == 128;
    assert Bit(reg, 7) == Bit(h, j);
    if reg >= 128 {
      BitAddTop(reg - 128, 7, 7);
    } else {
      BitHigh(reg, 7, 7);
    }
  }

  lemma RegisterShift(reg: byte, h: nat, j: nat)
    requires Register(reg, h, j) && j <= 7
    ensures Register(ShiftLeft(reg), h, j - 1)
  {
    var r := reg % 128;
    assert ShiftLeft(reg) == 2 * r;
    forall u, v | 0 <= u <= j - 1 && v == u + 8 - j
      ensures Bit(2 * r, v) == Bit(h, u)
    {
      assert Bit(2 * r, v) == Bit(r, v - 1);
      assert Pow2(7) == 128;
      BitLowByte(reg / 128, r, 7, v - 1);
      assert Bit(reg, v - 1) == Bit(h, u);
    }
  }

  /** Taking in one more digit of a non-adjacent form. */
  lemma HornerDigit(pos: nat, neg: nat, t: nat, posByte: byte, negByte: byte)
    requires IsNaf(pos, neg)
    requires Bit(pos, t) <==> posByte >= 128
    requires Bit(neg, t) <==> negByte >= 128
    ensures High(pos, t) - High(neg, t) == 2 * (High(pos, t + 1) - High(neg, t + 1)) + TopDigit(posByte, negByte)
  {
    HighSucc(pos, t);
    HighSucc(neg, t);
  }

  /** The value of the digits at positions t and above. */
  ghost function Above(pos: seq<byte>, neg: seq<byte>, t: nat): int {
    High(FromBytes(pos), t) - High(FromBytes(neg), t)
  }

  lemma AboveEnds(pos: seq<byte>, neg: seq<byte>, m: nat)
    requires |pos| == |neg| <= m
    ensures Above(pos, neg, 8 * m) == 0
    ensures Above(pos, neg, 0) == FromBytes(pos) - FromBytes(neg)
  {
    FromBytesBound(pos);
    FromBytesBound(neg);
    Pow2Mono(8 * |pos|, 8 * m);
    LowAll(FromBytes(pos), 8 * m);
    LowAll(FromBytes(neg), 8 * m);
  }

  /** What the two registers of one scalar hold before digit j of byte `base` is taken. */
  ghost predicate Registers(pos: seq<byte>, neg: seq<byte>, base: nat, j: int, posByte: byte, negByte: byte) {
    && Register(posByte, High(FromBytes(pos), base), j)
    && Register(negByte, High(FromBytes(neg), base), j)
  }

  lemma TakeDigit(pos: seq<byte>, neg: seq<byte>, base: nat, j: nat, posByte: byte, negByte: byte)
    requires IsNaf(FromBytes(pos), FromBytes(neg)) && j <= 7
    requires Registers(pos, neg, base, j, posByte, negByte)
    ensures Above(pos, neg, base + j) == 2 * Above(pos, neg, base + j + 1) + TopDigit(posByte, negByte)
    ensures Registers(pos, neg, base, j - 1, ShiftLeft(posByte), ShiftLeft(negByte))
  {
    var p, n := FromBytes(pos), FromBytes(neg);
    RegisterTop(posByte, High(p, base), j);
    RegisterTop(negByte, High(n, base), j);
    HighAdd(p, base, j);
    HighAdd(n, base, j);
    HornerDigit(p, n, base + j, posByte, negByte);
    RegisterShift(posByte, High(p, base), j);
    RegisterShift(negByte, High(n, base), j);
  }

  /** The inner loop: the eight digits of one byte of each scalar. */
  method TakeByte<E(!new)>(g: Group<E>, q0: E, p1: E, p1Neg: E, p2: E, p2Neg: E,
                           b1Pos: byte, b1Neg: byte, b2Pos: byte, b2Neg: byte,
                           ghost k1PosNAF: seq<byte>, ghost k1NegNAF: seq<byte>,
                           ghost k2PosNAF: seq<byte>, ghost k2NegNAF: seq<byte>, ghost base: nat) returns (q: E)
    requires IsAbelian(g) && p1Neg == g.neg(p1) && p2Neg == g.neg(p2)
    requires IsNaf(FromBytes(k1PosNAF), FromBytes(k1NegNAF)) && IsNaf(FromBytes(k2PosNAF), FromBytes(k2NegNAF))
    requires Registers(k1PosNAF, k1NegNAF, base, 7, b1Pos, b1Neg)
    requires Registers(k2PosNAF, k2NegNAF, base, 7, b2Pos, b2Neg)
    requires q0 == Combine(g, Above(k1PosNAF, k1NegNAF, base + 8), p1, Above(k2PosNAF, k2NegNAF, base + 8), p2)
    ensures q == Combine(g, Above(k1PosNAF, k1NegNAF, base), p1, Above(k2PosNAF, k2NegNAF, base), p2)
  {
    var k1BytePos, k1ByteNeg, k2BytePos, k2ByteNeg := b1Pos, b1Neg, b2Pos, b2Neg;
    q := q0;
    ghost var c1, c2 := Above(k1PosNAF, k1NegNAF, base + 8), Above(k2PosNAF, k2NegNAF, base + 8);
    var j := 7;
    while j >= 0
      invariant -1 <= j <= 7
      invariant c1 == Above(k1PosNAF, k1NegNAF, base + j + 1) && c2 == Above(k2PosNAF, k2NegNAF, base + j + 1)
      invariant q == Combine(g, c1, p1, c2, p2)
      invariant Registers(k1PosNAF, k1NegNAF, base, j, k1BytePos, k1ByteNeg)
      invariant Registers(k2PosNAF, k2NegNAF, base, j, k2BytePos, k2ByteNeg)
    {
      TakeDigit(k1PosNAF, k1NegNAF, base, j, k1BytePos, k1ByteNeg);
      TakeDigit(k2PosNAF, k2NegNAF, base, j, k2BytePos, k2ByteNeg);
      q := DoubleAndAdd(g, q, p1, p1Neg, p2, p2Neg, k1BytePos, k1ByteNeg, k2BytePos, k2ByteNeg, c1, c2);
      c1, c2 := 2 * c1 + TopDigit(k1BytePos, k1ByteNeg), 2 * c2 + TopDigit(k2BytePos, k2ByteNeg);
      k1BytePos := ShiftLeft(k1BytePos);
      k1ByteNeg := ShiftLeft(k1ByteNeg);
      k2BytePos := ShiftLeft(k2BytePos);
      k2ByteNeg := ShiftLeft(k2ByteNeg);
      j := j - 1;
    }
  }

  /** The left-to-right pass over both non-adjacent forms at once. */
  method Interleave<E(!new)>(g: Group<E>, p1: E, p1Neg: E, p2: E, p2Neg: E,
                             k1PosNAF: seq<byte>, k1NegNAF: seq<byte>,
                             k2PosNAF: seq<byte>, k2NegNAF: seq<byte>,
                             ghost n1: int, ghost n2: int) returns (q: E)
    requires IsAbelian(g) && p1Neg == g.neg(p1) && p2Neg == g.neg(p2)
    requires |k1PosNAF| == |k1NegNAF| && IsNaf(FromBytes(k1PosNAF), FromBytes(k1NegNAF))
    requires |k2PosNAF| == |k2NegNAF| && IsNaf(FromBytes(k2PosNAF), FromBytes(k2NegNAF))
    requires n1 == FromBytes(k1PosNAF) - FromBytes(k1NegNAF) && n2 == FromBytes(k2PosNAF) - FromBytes(k2NegNAF)
    ensures q == Combine(g, n1, p1, n2, p2)
  {
    var k1Len, k2Len := |k1PosNAF|, |k2PosNAF|;
    var m := k1Len;
    if m < k2Len {
      m := k2Len;
    }
    q := g.zero;
    AddZero(g, g.zero);
    AboveEnds(k1PosNAF, k1NegNAF, m);
    AboveEnds(k2PosNAF, k2NegNAF, m);
    var i := 0;
    while i < m
      invariant 0 <= i <= m
      invariant q == Combine(g, Above(k1PosNAF, k1NegNAF, 8 * (m - i)), p1, Above(k2PosNAF, k2NegNAF, 8 * (m - i)), p2)
    {
      var k1BytePos := FetchByte(k1PosNAF, m, i);
      var k1ByteNeg := FetchByte(k1NegNAF, m, i);
      var k2BytePos := FetchByte(k2PosNAF, m, i);
      var k2ByteNeg := FetchByte(k2NegNAF, m, i);
      ghost var base := 8 * (m - 1 - i);
      q := TakeByte(g, q, p1, p1Neg, p2, p2Neg, k1BytePos, k1ByteNeg, k2BytePos, k2ByteNeg,
                    k1PosNAF, k1NegNAF, k2PosNAF, k2NegNAF, base);
      i := i + 1;
    }
  }

  lemma NegNeg<E(!new)>(g: Group<E>, x: E)
    requires IsAbelian(g)
    ensures g.neg(g.neg(x)) == x
  {
    TimesOne(g, x);
    TimesOne(g, g.neg(x));
    TimesNeg(g, -1, x);
  }

  /** Flipping the point when the sign is negative lets the absolute value stand for the number. */
  lemma SignedTimes<E(!new)>(g: Group<E>, s: int, b: seq<byte>, n: int, x: E, y: E)
    requires IsAbelian(g) && s == Sign(s) && (s == 0 ==> FromBytes(b) == 0)
    requires n == Signed(s, b)
    requires y == if s == -1 then g.neg(x) else x
    ensures Times(g, FromBytes(b), y) == Times(g, n, x)
  {
    if s == -1 {
      TimesNeg(g, FromBytes(b), x);
    }
  }

  /** k1·P + k2·(lambda·P) = n·P when k1 + k2·lambda = k = n modulo the order. */
  lemma Recombine<E(!new)>(g: Group<E>, n: int, k: int, k1: int, k2: int, p: E)
    requires IsAbelian(g) && Times(g, N, p) == g.zero
    requires Congruent(k1 + k2 * LAMBDA, k) && Congruent(k, n)
    ensures Combine(g, k1, p, k2, Times(g, LAMBDA, p)) == Times(g, n, p)
  {
    TimesTimes(g, k2, LAMBDA, p);
    TimesAdd(g, k1, k2 * LAMBDA, p);
    SameMultiple(g, k1 + k2 * LAMBDA, k, p);
    SameMultiple(g, k, n, p);
  }

  lemma SameMultiple<E(!new)>(g: Group<E>, m: int, n: int, p: E)
    requires IsAbelian(g) && Times(g, N, p) == g.zero
    requires Congruent(m, n)
    ensures Times(g, m, p) == Times(g, n, p)
  {
    TimesMod(g, N, m, n, (m - n) / N, p);
  }

  /**
   k·P for a point P of order dividing N on which the endomorphism phi is multiplication by lambda.
   */
  method ScalarMult<E(!new)>(g: Group<E>, phi: E -> E, p: E, k: seq<byte>) returns (q: E)
    requires IsAbelian(g)
    requires Times(g, N, p) == g.zero
    requires phi(p) == Times(g, LAMBDA, p)
    ensures q == Times(g, FromBytes(k), p)
  {
    var kr := ModuloReduce(k);
    var k1, k2, signK1, signK2, n1, n2 := SplitK(kr);
    var p1, p1Neg := p, g.neg(p);
    var p2 := phi(p);
    var p2Neg := g.neg(p2);
    NegNeg(g, p1);
    NegNeg(g, p2);
    if signK1 == -1 {
      p1, p1Neg := p1Neg, p1;
    }
    if signK2 == -1 {
      p2, p2Neg := p2Neg, p2;
    }
    SignedTimes(g, signK1, k1, n1, p, p1);
    SignedTimes(g, signK2, k2, n2, phi(p), p2);
    var k1PosNAF, k1NegNAF := NAF(k1);
    var k2PosNAF, k2NegNAF := NAF(k2);
    q := Interleave(g, p1, p1Neg, p2, p2Neg, k1PosNAF, k1NegNAF, k2PosNAF, k2NegNAF,
                    FromBytes(k1), FromBytes(k2));
    Recombine(g, FromBytes(k), FromBytes(kr), n1, n2, p);
  }

  /** The precomputed table: row i holds b·256^(31-i)·G for every byte b. */
  ghost predicate IsByteTable<E>(g: Group<E>, base: E, bytePoints: seq<seq<E>>) {
    && |bytePoints| == BYTE_SIZE
    && (forall i :: 0 <= i < BYTE_SIZE ==> |bytePoints[i]| == 256)
    && (forall i, b :: 0 <= i < BYTE_SIZE && 0 <= b < 256 ==>
          bytePoints[i][b] == Times(g, b * Pow2(8 * (BYTE_SIZE - 1 - i)), base))
  }

  /** One more base-256 digit of a byte string, at its weight. */
  lemma NextDigit(k: seq<byte>, i: nat)
    requires i < |k|
    ensures FromBytes(k[..i + 1]) * Pow2(8 * (|k| - 1 - i))
         == FromBytes(k[..i]) * Pow2(8 * (|k| - i)) + k[i] * Pow2(8 * (|k| - 1 - i))
  {
    var w, a := Pow2(8 * (|k| - 1 - i)), FromBytes(k[..i]);
    assert k[..i + 1][..i] == k[..i];
    Weight256(|k| - 1 - i, a);
    assert (a * 256 + k[i]) * w == 256 * (a * w) + k[i] * w;
  }

  /** What adding the table point of byte i makes of the sum so far. */
  lemma BaseStep<E(!new)>(g: Group<E>, base: E, bytePoints: seq<seq<E>>, k: seq<byte>, i: nat, q: E)
    requires IsAbelian(g) && IsByteTable(g, base, bytePoints) && i < |k| <= BYTE_SIZE
    requires q == Times(g, FromBytes(k[..i]) * Pow2(8 * (|k| - i)), base)
    ensures |bytePoints| == BYTE_SIZE && |bytePoints[BYTE_SIZE - |k| + i]| == 256
    ensures g.add(q, bytePoints[BYTE_SIZE - |k| + i][k[i]])
         == Times(g, FromBytes(k[..i + 1]) * Pow2(8 * (|k| - 1 - i)), base)
  {
    hide Times, FromBytes, Pow2, IsAbelian;
    NextDigit(k, i);
    TimesAdd(g, FromBytes(k[..i]) * Pow2(8 * (|k| - i)), k[i] * Pow2(8 * (|k| - 1 - i)), base);
  }

  lemma BaseEnds<E(!new)>(g: Group<E>, base: E, k: seq<byte>)
    ensures Times(g, FromBytes(k[..0]) * Pow2(8 * |k|), base) == g.zero
    ensures Times(g, FromBytes(k[..|k|]) * Pow2(0), base) == Times(g, FromBytes(k), base)
  {
    assert k[..|k|] == k && k[..0] == [];
  }

  /** k·G by adding one table point per byte of k. */
  method ScalarBaseMult<E(!new)>(g: Group<E>, base: E, bytePoints: seq<seq<E>>, k: seq<byte>) returns (q: E)
    requires IsAbelian(g) && Times(g, N, base) == g.zero
    requires IsByteTable(g, base, bytePoints)
    ensures q == Times(g, FromBytes(k), base)
  {
    assert |bytePoints| == BYTE_SIZE;
    hide Times, FromBytes, Pow2, IsAbelian, IsByteTable;
    var newK := ModuloReduce(k);
    var diff := |bytePoints| - |newK|;
    q := g.zero;
    var i := 0;
    BaseEnds(g, base, newK);
    while i < |newK|
      invariant 0 <= i <= |newK|
      invariant q == Times(g, FromBytes(newK[..i]) * Pow2(8 * (|newK| - i)), base)
    {
      BaseStep(g, base, bytePoints, newK, i, q);
      var p := bytePoints[diff + i][newK[i]];
      q := g.add(q, p);
      i := i + 1;
    }
    SameMultiple(g, FromBytes(newK), FromBytes(k), base);
  }
}
