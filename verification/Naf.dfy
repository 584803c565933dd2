/**
 The non-adjacent form of a byte string (crypto/secp256k1/btcec.go, NAF).
 A pair (pos, neg) of numbers stands for the signed binary digits Bit(pos, t) - Bit(neg, t).
 */
module Naf {
  import opened Bytes

  function Digit(pos: nat, neg: nat, t: nat): int {
    (if Bit(pos, t) then 1 else 0) - (if Bit(neg, t) then 1 else 0)
  }

  ghost predicate DisjointBelow(pos: nat, neg: nat, n: nat) {
    forall t :: 0 <= t < n ==> !(Bit(pos, t) && Bit(neg, t))
  }

  ghost predicate NonAdjacentBelow(pos: nat, neg: nat, n: nat) {
    forall t, u :: 0 <= t < u < n && u == t + 1 ==> Digit(pos, neg, t) == 0 || Digit(pos, neg, u) == 0
  }

  /** No position holds both signs, and of two neighbouring digits one is zero. */
  ghost predicate IsNaf(pos: nat, neg: nat) {
    && (forall t: nat :: !(Bit(pos, t) && Bit(neg, t)))
    && (forall t: nat, u: nat :: u == t + 1 ==> Digit(pos, neg, t) == 0 || Digit(pos, neg, u) == 0)
  }

  // ---- the right-to-left recoding ----

  /**
   What holds of the digits written so far when the t low bits of k have been read:
   with the pending carry they spell those bits, and a nonzero last digit means
   the next one will be zero.
   */
  ghost predicate Recoded(k: nat, t: nat, pos: nat, neg: nat, carry: bool) {
    && pos < Pow2(t) && neg < Pow2(t)
    && pos - neg + (if carry then Pow2(t) else 0) == Low(k, t)
    && DisjointBelow(pos, neg, t)
    && NonAdjacentBelow(pos, neg, t)
    && (t > 0 && Digit(pos, neg, t - 1) != 0 ==> carry == Bit(k, t))
  }

  lemma RecodedZero(k: nat, t: nat, pos: nat, neg: nat, carry: bool)
    requires Recoded(k, t, pos, neg, carry) && Bit(k, t) == carry
    ensures Recoded(k, t + 1, pos, neg, carry)
  {
    LowSucc(k, t);
    BitHigh(pos, t, t);
    BitHigh(neg, t, t);
  }

  lemma RecodedPlus(k: nat, t: nat, pos: nat, neg: nat, carry: bool)
    requires Recoded(k, t, pos, neg, carry) && Bit(k, t) != carry && !Bit(k, t + 1)
    ensures Recoded(k, t + 1, pos + Pow2(t), neg, false)
  {
    LowSucc(k, t);
    BitHigh(neg, t, t);
    forall u: nat
      ensures Bit(pos + Pow2(t), u) <==> u == t || Bit(pos, u)
    {
      BitAddTop(pos, t, u);
    }
    assert forall u {:trigger Digit(pos + Pow2(t), neg, u)} :: 0 <= u < t ==>
        Digit(pos + Pow2(t), neg, u) == Digit(pos, neg, u);
  }

  lemma RecodedMinus(k: nat, t: nat, pos: nat, neg: nat, carry: bool)
    requires Recoded(k, t, pos, neg, carry) && Bit(k, t) != carry && Bit(k, t + 1)
    ensures Recoded(k, t + 1, pos, neg + Pow2(t), true)
  {
    LowSucc(k, t);
    BitHigh(pos, t, t);
    forall u: nat
      ensures Bit(neg + Pow2(t), u) <==> u == t || Bit(neg, u)
    {
      BitAddTop(neg, t, u);
    }
    assert forall u {:trigger Digit(pos, neg + Pow2(t), u)} :: 0 <= u < t ==>
        Digit(pos, neg + Pow2(t), u) == Digit(pos, neg, u);
  }

  /** Once every bit is read, a pending carry becomes one more +1 digit. */
  lemma RecodedAll(k: nat, t: nat, pos: nat, neg: nat, carry: bool)
    requires Recoded(k, t, pos, neg, carry) && k < Pow2(t)
    ensures var p := if carry then pos + Pow2(t) else pos;
            p - neg == k && IsNaf(p, neg)
  {
    LowAll(k, t);
    BitHigh(k, t, t);
    BitHigh(k, t, t + 1);
    var p := if carry then pos + Pow2(t) else pos;
    if carry {
      RecodedPlus(k, t, pos, neg, carry);
    } else {
      RecodedZero(k, t, pos, neg, carry);
    }
    forall u: nat | u > t
      ensures !Bit(p, u) && !Bit(neg, u)
    {
      BitHigh(p, t + 1, u);
      BitHigh(neg, t + 1, u);
    }
  }

  lemma ByteRoom(j: nat)
    requires j < 8
    ensures Pow2(j) + Pow2(j) == Pow2(j + 1) <= 256
  {
    Pow2Mono(j + 1, 8);
    assert Pow2(8) == 256;
  }

  /** Setting bit j of byte i adds that bit's weight to the number. */
  lemma SetBit(b: seq<byte>, i: nat, j: nat, x: byte, t: nat)
    requires i < |b| && x == b[i] + Pow2(j) && t == 8 * (|b| - 1 - i)
    ensures FromBytes(b[i := x]) == FromBytes(b) + Pow2(t + j)
  {
    FromBytesUpdate(b, i, x);
    Pow2Add(j, t);
    assert (x - b[i]) * Pow2(t) == Pow2(j) * Pow2(t);
  }

  /** The array write `buf[i] += 1 << j` on a byte still below 1 << j. */
  method AddBit(buf: array<byte>, i: nat, j: nat)
    requires i < buf.Length && j < 8 && buf[i] < Pow2(j)
    modifies buf
    ensures buf[..] == old(buf[..])[i := old(buf[i]) + Pow2(j)]
    ensures FromBytes(buf[..]) == old(FromBytes(buf[..])) + Pow2(8 * (buf.Length - 1 - i) + j)
  {
    ghost var was := buf[..];
    ByteRoom(j);
    buf[i] := (buf[i] + Pow2(j)) % 256;
    assert buf[..] == was[i := was[i] + Pow2(j)];
    SetBit(was, i, j, was[i] + Pow2(j), 8 * (buf.Length - 1 - i));
  }

  /** The bit at position j of byte i and the one above it, which may be in the byte before. */
  method ReadBits(k: seq<byte>, i: nat, j: nat, curByte: byte, ghost t: nat)
    returns (curIsOne: bool, nextIsOne: bool)
    requires i < |k| && j < 8 && curByte == High(k[i], j) && t == 8 * (|k| - 1 - i) + j
    ensures curIsOne == Bit(FromBytes(k), t)
    ensures nextIsOne == Bit(FromBytes(k), t + 1)
  {
    BitOfByte(k, i, j);
    HighSucc(k[i], j);
    curIsOne := curByte % 2 == 1;
    if j == 7 {
      if i == 0 {
        nextIsOne := false;
        FromBytesBound(k);
        BitHigh(FromBytes(k), 8 * |k|, 8 * |k|);
      } else {
        nextIsOne := k[i - 1] % 2 == 1;
        BitOfByte(k, i - 1, 0);
      }
    } else {
      nextIsOne := curByte / 2 % 2 == 1;
      BitOfByte(k, i, j + 1);
      HighSucc(k[i], j + 1);
    }
  }

  /** The weight written to the +1 buffer, the weight written to the -1 buffer, and the next carry. */
  function PlusWeight(cur: bool, next: bool, carry: bool, t: nat): nat {
    if cur != carry && !next then Pow2(t) else 0
  }

  function MinusWeight(cur: bool, next: bool, carry: bool, t: nat): nat {
    if cur != carry && next then Pow2(t) else 0
  }

  function NextCarry(cur: bool, next: bool, carry: bool): bool {
    if cur == carry then carry else next
  }

  lemma RecodedStep(k: nat, t: nat, pos: nat, neg: nat, carry: bool, cur: bool, next: bool,
                    pos': nat, neg': nat, carry': bool)
    requires Recoded(k, t, pos, neg, carry)
    requires cur == Bit(k, t) && next == Bit(k, t + 1)
    requires pos' == pos + PlusWeight(cur, next, carry, t) && neg' == neg + MinusWeight(cur, next, carry, t)
    requires carry' == NextCarry(cur, next, carry)
    ensures Recoded(k, t + 1, pos', neg', carry')
  {
    if Bit(k, t) == carry {
      RecodedZero(k, t, pos, neg, carry);
    } else if Bit(k, t + 1) {
      RecodedMinus(k, t, pos, neg, carry);
    } else {
      RecodedPlus(k, t, pos, neg, carry);
    }
  }

  /** The branches of NAF's loop body: write the digit for bit t into bit j of byte i. */
  method WriteDigit(cur: bool, next: bool, i: nat, j: nat, ghost t: nat,
                    retPos: array<byte>, retNeg: array<byte>, carry: bool) returns (carry': bool)
    requires retPos != retNeg && retPos.Length == retNeg.Length && i < retPos.Length && j < 8
    requires t == 8 * (retPos.Length - 1 - i) + j
    requires retPos[i] < Pow2(j) && retNeg[i] < Pow2(j)
    modifies retPos, retNeg
    ensures retPos[i] < Pow2(j + 1) && retNeg[i] < Pow2(j + 1)
    ensures forall x :: 0 <= x < retPos.Length && x != i ==>
              retPos[x] == old(retPos[x]) && retNeg[x] == old(retNeg[x])
    ensures FromBytes(retPos[..]) == old(FromBytes(retPos[..])) + PlusWeight(cur, next, carry, t)
    ensures FromBytes(retNeg[..]) == old(FromBytes(retNeg[..])) + MinusWeight(cur, next, carry, t)
    ensures carry' == NextCarry(cur, next, carry)
  {
    ghost var pos, neg := retPos[..], retNeg[..];
    ByteRoom(j);
    carry' := carry;
    if carry {
      if cur {
      } else if next {
        AddBit(retNeg, i, j);
      } else {
        carry' := false;
        AddBit(retPos, i, j);
      }
    } else if cur {
      if next {
        AddBit(retNeg, i, j);
        carry' := true;
      } else {
        AddBit(retPos, i, j);
      }
    }
    assert cur == carry || next ==> retPos[..] == pos;
    assert cur == carry || !next ==> retNeg[..] == neg;
  }

  /** What the buffers spell once every byte is read and a pending carry is written in front. */
  lemma BuffersDone(k: seq<byte>, pos: seq<byte>, neg: seq<byte>, carry: bool)
    requires |pos| == |neg| == |k| + 1 && pos[0] == neg[0] == 0
    requires Recoded(FromBytes(k), 8 * |k|, FromBytes(pos), FromBytes(neg), carry)
    ensures var p := if carry then pos[0 := 1] else pos[1..];
            var q := if carry then neg else neg[1..];
            FromBytes(p) - FromBytes(q) == FromBytes(k) && IsNaf(FromBytes(p), FromBytes(q))
  {
    FromBytesBound(k);
    RecodedAll(FromBytes(k), 8 * |k|, FromBytes(pos), FromBytes(neg), carry);
    if carry {
      FromBytesUpdate(pos, 0, 1);
    } else {
      FromBytesTail(neg);
      FromBytesTail(pos);
    }
  }

  /** The inner loop of NAF, over the bits of byte i. */
  method RecodeByte(k: seq<byte>, i: nat, retPos: array<byte>, retNeg: array<byte>, carry0: bool)
    returns (carry: bool)
    requires i < |k|
    requires retPos != retNeg && retPos.Length == retNeg.Length == |k| + 1
    requires retPos[i + 1] == retNeg[i + 1] == 0
    requires Recoded(FromBytes(k), 8 * (|k| - 1 - i), FromBytes(retPos[..]), FromBytes(retNeg[..]), carry0)
    modifies retPos, retNeg
    ensures forall x :: 0 <= x <= i ==> retPos[x] == old(retPos[x]) && retNeg[x] == old(retNeg[x])
    ensures Recoded(FromBytes(k), 8 * (|k| - i), FromBytes(retPos[..]), FromBytes(retNeg[..]), carry) == true
  {
    ghost var n, t, p, q := FromBytes(k), 8 * (|k| - 1 - i), FromBytes(retPos[..]), FromBytes(retNeg[..]);
    carry := carry0;
    var curByte := k[i];
    var j := 0;
    while j < 8
      invariant 0 <= j <= 8 && t == 8 * (|k| - 1 - i) + j
      invariant curByte == High(k[i], j)
      invariant forall x :: 0 <= x <= i ==> retPos[x] == old(retPos[x]) && retNeg[x] == old(retNeg[x])
      invariant retPos[i + 1] < Pow2(j) && retNeg[i + 1] < Pow2(j)
      invariant p == FromBytes(retPos[..]) && q == FromBytes(retNeg[..])
      invariant Recoded(n, t, p, q, carry) == true
    {
      hide Recoded, FromBytes;
      HighSucc(k[i], j);
      var curIsOne, nextIsOne := ReadBits(k, i, j, curByte, t);
      ghost var p0, q0, c0 := p, q, carry;
      carry := WriteDigit(curIsOne, nextIsOne, i + 1, j, t, retPos, retNeg, carry);
      p, q := FromBytes(retPos[..]), FromBytes(retNeg[..]);
      RecodedStep(n, t, p0, q0, c0, curIsOne, nextIsOne, p, q, carry);
      curByte := curByte / 2;
      j, t := j + 1, t + 1;
    }
  }

  /**
   The non-adjacent form of k as two byte strings, the +1 digits and the -1 digits.
   Bytes are read from the right, bits within a byte from the least significant.
   */
  method NAF(k: seq<byte>) returns (pos: seq<byte>, neg: seq<byte>)
    ensures |pos| == |neg| && |k| <= |pos| <= |k| + 1
    ensures FromBytes(pos) - FromBytes(neg) == FromBytes(k)
    ensures IsNaf(FromBytes(pos), FromBytes(neg))
  {
    var carry := false;
    var retPos := new byte[|k| + 1](_ => 0);
    var retNeg := new byte[|k| + 1](_ => 0);
    FromBytesZeros(retPos[..]);
    FromBytesZeros(retNeg[..]);
    var i := |k|;
    // Recoded is compared with true so that it stays folded inside the loops.
    while i > 0
      invariant 0 <= i <= |k|
      invariant forall x :: 0 <= x <= i ==> retPos[x] == 0 && retNeg[x] == 0
      invariant Recoded(FromBytes(k), 8 * (|k| - i), FromBytes(retPos[..]), FromBytes(retNeg[..]), carry) == true
    {
      i := i - 1;
      carry := RecodeByte(k, i, retPos, retNeg, carry);
    }
    BuffersDone(k, retPos[..], retNeg[..], carry);
    if carry {
      ghost var was := retPos[..];
      retPos[0] := 1;
      assert retPos[..] == was[0 := 1];
      return retPos[..], retNeg[..];
    }
    return retPos[1..], retNeg[1..];
  }
}
