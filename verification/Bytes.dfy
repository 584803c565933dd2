/** Bytes, the big-endian numbers they spell (as math/big reads and writes them), and bits. */
module Bytes {
  type byte = x: int | 0 <= x < 256

  function Pow2(n: nat): (r: nat)
    ensures r > 0
  {
    if n == 0 then 1 else 2 * Pow2(n - 1)
  }

  lemma {:induction false} Pow2Add(m: nat, n: nat)
    ensures Pow2(m + n) == Pow2(m) * Pow2(n)
  {
    if m == 0 {
    } else {
      Pow2Add(m - 1, n);
      assert 2 * (Pow2(m - 1) * Pow2(n)) == (2 * Pow2(m - 1)) * Pow2(n);
    }
  }

  lemma {:induction false} Pow2Mono(m: nat, n: nat)
    requires m <= n
    ensures Pow2(m) <= Pow2(n)
  {
    if m < n {
      Pow2Mono(m, n - 1);
    }
  }

  // ---- bits of a number ----

  /** Bit t of n, counted from the least significant. */
  predicate Bit(n: nat, t: nat) {
    if t == 0 then n % 2 == 1 else Bit(n / 2, t - 1)
  }

  /** n without its t low bits, n >> t. */
  function High(n: nat, t: nat): nat {
    if t == 0 then n else High(n / 2, t - 1)
  }

  /** The t low bits of n. */
  function Low(n: nat, t: nat): nat {
    if t == 0 then 0 else n % 2 + 2 * Low(n / 2, t - 1)
  }

  lemma {:induction false} BitHigh(n: nat, t: nat, u: nat)
    requires n < Pow2(t) && t <= u
    ensures !Bit(n, u)
  {
    if u > 0 {
      BitHigh(n / 2, if t == 0 then 0 else t - 1, u - 1);
    }
  }

  lemma {:induction false} BitAddTop(n: nat, t: nat, u: nat)
    requires n < Pow2(t)
    ensures Bit(n + Pow2(t), u) <==> u == t || Bit(n, u)
  {
    if t == 0 {
      if u > 0 {
        BitHigh(0, 0, u - 1);
      }
    } else if u > 0 {
      BitAddTop(n / 2, t - 1, u - 1);
      assert (n + Pow2(t)) / 2 == n / 2 + Pow2(t - 1);
    }
  }

  lemma {:induction false} LowSucc(n: nat, t: nat)
    ensures Low(n, t + 1) == Low(n, t) + (if Bit(n, t) then Pow2(t) else 0)
  {
    if t > 0 {
      LowSucc(n / 2, t - 1);
    }
  }

  lemma {:induction false} LowAll(n: nat, t: nat)
    requires n < Pow2(t)
    ensures Low(n, t) == n && High(n, t) == 0
  {
    if t > 0 {
      LowAll(n / 2, t - 1);
    }
  }

  /** Horner's step: taking in one more bit doubles and adds. */
  lemma {:induction false} HighSucc(n: nat, t: nat)
    ensures High(n, t) == 2 * High(n, t + 1) + (if Bit(n, t) then 1 else 0)
    ensures High(n, t + 1) == High(n, t) / 2
    ensures Bit(n, t) <==> High(n, t) % 2 == 1
  {
    if t > 0 {
      HighSucc(n / 2, t - 1);
    }
  }

  lemma {:induction false} HighAdd(n: nat, t: nat, u: nat)
    ensures High(High(n, t), u) == High(n, t + u)
    ensures Bit(High(n, t), u) == Bit(n, t + u)
  {
    if t > 0 {
      HighAdd(n / 2, t - 1, u);
    }
  }

  lemma {:induction false} HighPow(p: nat, x: nat, w: nat)
    requires x < Pow2(w)
    ensures High(Pow2(w) * p + x, w) == p
  {
    if w > 0 {
      var h := Pow2(w - 1) * p;
      assert Pow2(w) * p == 2 * h;
      HighPow(p, x / 2, w - 1);
      assert (2 * h + x) / 2 == h + x / 2;
    }
  }

  lemma {:induction false} BitLowByte(p: nat, x: nat, w: nat, j: nat)
    requires j < w
    ensures Bit(Pow2(w) * p + x, j) == Bit(x, j)
  {
    var h := Pow2(w - 1) * p;
    assert Pow2(w) * p == 2 * h;
    if j > 0 {
      BitLowByte(p, x / 2, w - 1, j - 1);
      assert (2 * h + x) / 2 == h + x / 2;
    }
  }

  // ---- big-endian byte strings ----

  /** The number a big-endian byte string spells (big.Int.SetBytes). */
  function FromBytes(b: seq<byte>): nat {
    if b == [] then 0 else FromBytes(b[..|b| - 1]) * 256 + b[|b| - 1]
  }

  /** The shortest big-endian spelling of a number (big.Int.Bytes, which drops the sign). */
  function ToBytes(n: nat): (b: seq<byte>)
    ensures FromBytes(b) == n
  {
    if n == 0 then [] else ToBytes(n / 256) + [n % 256]
  }

  lemma {:induction false} ToBytesLength(n: nat, m: nat)
    requires n < Pow2(8 * m)
    ensures |ToBytes(n)| <= m
  {
    if n > 0 {
      Pow2Add(8, 8 * m - 8);
      assert Pow2(8) == 256;
      ToBytesLength(n / 256, m - 1);
    }
  }

  lemma {:induction false} FromBytesBound(b: seq<byte>)
    ensures FromBytes(b) < Pow2(8 * |b|)
  {
    if b != [] {
      FromBytesBound(b[..|b| - 1]);
      Pow2Add(8, 8 * |b| - 8);
      assert Pow2(8) == 256;
    }
  }

  /** Dropping the last bytes drops as many low bits. */
  lemma {:induction false} FromBytesPrefix(b: seq<byte>, i: nat)
    requires i <= |b|
    ensures FromBytes(b[..i]) == High(FromBytes(b), 8 * (|b| - i))
  {
    if i == |b| {
      assert b[..i] == b;
    } else {
      var c := b[..|b| - 1];
      FromBytesPrefix(c, i);
      assert c[..i] == b[..i];
      assert Pow2(8) == 256;
      HighPow(FromBytes(c), b[|b| - 1], 8);
      HighAdd(FromBytes(b), 8, 8 * (|c| - i));
    }
  }

  lemma LastByte(s: seq<byte>, i: nat)
    requires i < |s|
    ensures FromBytes(s[..i + 1]) == Pow2(8) * FromBytes(s[..i]) + s[i] && s[i] < Pow2(8)
  {
    assert s[..i + 1][..i] == s[..i];
    assert Pow2(8) == 256;
  }

  /** Bit j of byte i of a string is a bit of the number it spells. */
  lemma BitOfByte(s: seq<byte>, i: nat, j: nat)
    requires i < |s| && j < 8
    ensures Bit(FromBytes(s), 8 * (|s| - 1 - i) + j) <==> Bit(s[i], j)
  {
    var t := 8 * (|s| - 1 - i);
    hide *;
    FromBytesPrefix(s, i + 1);
    HighAdd(FromBytes(s), t, j);
    LastByte(s, i);
    BitLowByte(FromBytes(s[..i]), s[i], 8, j);
  }

  /** Raising one byte raises the number by that much times the byte's weight. */
  lemma {:induction false} FromBytesUpdate(b: seq<byte>, i: nat, x: byte)
    requires i < |b|
    ensures FromBytes(b[i := x]) == FromBytes(b) + (x - b[i]) * Pow2(8 * (|b| - 1 - i))
  {
    var c, front := b[i := x], b[..|b| - 1];
    if i == |b| - 1 {
      assert c[..|b| - 1] == front;
      assert Pow2(0) == 1;
    } else {
      FromBytesUpdate(front, i, x);
      assert c[..|b| - 1] == front[i := x];
      Weight256(|b| - 2 - i, x - b[i]);
    }
  }

  lemma Weight256(n: nat, d: int)
    ensures d * Pow2(8 * (n + 1)) == 256 * (d * Pow2(8 * n))
  {
    var w := Pow2(8 * n);
    Pow2Add(8, 8 * n);
    assert Pow2(8) == 256;
    assert d * (256 * w) == 256 * (d * w);
  }

  lemma {:induction false} FromBytesZeros(b: seq<byte>)
    requires forall i :: 0 <= i < |b| ==> b[i] == 0
    ensures FromBytes(b) == 0
  {
    if b != [] {
      FromBytesZeros(b[..|b| - 1]);
    }
  }

  /** A zero byte in front changes nothing. */
  lemma {:induction false} FromBytesTail(b: seq<byte>)
    requires b != [] && b[0] == 0
    ensures FromBytes(b[1..]) == FromBytes(b)
  {
    if |b| > 1 {
      FromBytesTail(b[..|b| - 1]);
      assert b[1..][..|b| - 2] == b[..|b| - 1][1..];
    }
  }
}
