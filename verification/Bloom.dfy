/**
 Bloom filters and their rotated index (types/bloom9.go, common/bloombits/generator.go and matcher.go).
 Clauses are given by their hashes.
 */
module Bloom {
  import opened Bytes
  import opened Bits

  const BLOOM_BYTES := 256
  const BLOOM_BITS := 2048

  type Filter = s: seq<byte> | |s| == 256 witness seq(256, _ => 0)
  type Digest = s: seq<byte> | |s| == 32 witness seq(32, _ => 0)

  // ---- the direct test ----

  function Position(high: int, low: int): int {
    (low + high * 256) % 2048
  }

  /** bloom9: the three bits of a topic, as a number. */
  function Bloom9(h: Digest): nat {
    Or(Or(Or(0, Pow2(Position(h[0], h[1]))), Pow2(Position(h[2], h[3]))), Pow2(Position(h[4], h[5])))
  }

  predicate BloomLookup(bloom: Filter, h: Digest) {
    And(FromBytes(bloom), Bloom9(h)) == Bloom9(h)
  }

  // ---- the index's test ----

  function Index(high: int, low: int): int {
    high * 256 % 2048 + low
  }

  function CalcBloomIndexes(h: Digest): (r: seq<nat>)
    ensures |r| == 3 && forall j :: 0 <= j < 3 ==> r[j] < BLOOM_BITS
  {
    SameIndex(h[0], h[1]);
    SameIndex(h[2], h[3]);
    SameIndex(h[4], h[5]);
    [Index(h[0], h[1]), Index(h[2], h[3]), Index(h[4], h[5])]
  }

  /** Bit i of a filter, as the generator reads it. */
  predicate FilterBit(bloom: Filter, i: nat)
    requires i < BLOOM_BITS
  {
    Bit(bloom[BLOOM_BYTES - 1 - i / 8], i % 8)
  }

  lemma FilterBitIs(bloom: Filter, i: nat)
    requires i < BLOOM_BITS
    ensures FilterBit(bloom, i) <==> Bit(FromBytes(bloom), i)
  {
    var k := BLOOM_BYTES - 1 - i / 8;
    BitOfByte(bloom, k, i % 8);
    assert 8 * (|bloom| - 1 - k) + i % 8 == i;
  }

  lemma SameIndex(high: int, low: int)
    requires 0 <= high < 256 && 0 <= low < 256
    ensures Index(high, low) == Position(high, low)
  {
    var q, r := high / 8, high % 8;
    assert high == 8 * q + r;
    ModIs(high * 256, q, r * 256);
    ModIs(low + high * 256, q, r * 256 + low);
  }

  lemma ModIs(n: int, q: int, r: int)
    requires n == 2048 * q + r && 0 <= r < 2048
    ensures n % 2048 == r
  {
  }

  lemma BitBloom9(h: Digest, t: nat)
    ensures Bit(Bloom9(h), t) <==> t in CalcBloomIndexes(h)
  {
    var a, b, c := Position(h[0], h[1]), Position(h[2], h[3]), Position(h[4], h[5]);
    SameIndex(h[0], h[1]);
    SameIndex(h[2], h[3]);
    SameIndex(h[4], h[5]);
    assert CalcBloomIndexes(h) == [a, b, c];
    hide CalcBloomIndexes, Or, Bit, Pow2;
    NoBits(t);
    BitPow2(a, t);
    BitPow2(b, t);
    BitPow2(c, t);
    BitOr(0, Pow2(a), t);
    BitOr(Or(0, Pow2(a)), Pow2(b), t);
    BitOr(Or(Or(0, Pow2(a)), Pow2(b)), Pow2(c), t);
  }

  lemma LookupGives(bloom: Filter, h: Digest, j: nat)
    requires BloomLookup(bloom, h) && j < 3
    ensures FilterBit(bloom, CalcBloomIndexes(h)[j])
  {
    var t := CalcBloomIndexes(h)[j];
    BitBloom9(h, t);
    BitAnd(FromBytes(bloom), Bloom9(h), t);
    FilterBitIs(bloom, t);
  }

  lemma LookupFrom(bloom: Filter, h: Digest)
    requires forall j :: 0 <= j < 3 ==> FilterBit(bloom, CalcBloomIndexes(h)[j])
    ensures BloomLookup(bloom, h)
  {
    hide FilterBit, CalcBloomIndexes, Bloom9, And, Bit;
    var x, m, r := FromBytes(bloom), Bloom9(h), CalcBloomIndexes(h);
    forall t | Bit(m, t)
      ensures Bit(x, t)
    {
      BitBloom9(h, t);
      var j :| 0 <= j < 3 && r[j] == t;
      FilterBitIs(bloom, r[j]);
    }
    AndCovers(x, m);
  }

  /** The three bits of an index entry are set. */
  predicate ThreeBits(bloom: Filter, r: seq<nat>)
    requires |r| == 3 && forall j :: 0 <= j < 3 ==> r[j] < BLOOM_BITS
  {
    FilterBit(bloom, r[0]) && FilterBit(bloom, r[1]) && FilterBit(bloom, r[2])
  }

  /** Both tests agree: a topic is looked up by its three bits. */
  lemma LookupIsThreeBits(bloom: Filter, h: Digest)
    ensures BloomLookup(bloom, h) <==> ThreeBits(bloom, CalcBloomIndexes(h))
  {
    hide FilterBit, CalcBloomIndexes, BloomLookup;
    if BloomLookup(bloom, h) {
      LookupGives(bloom, h, 0);
      LookupGives(bloom, h, 1);
      LookupGives(bloom, h, 2);
    }
    if ThreeBits(bloom, CalcBloomIndexes(h)) {
      LookupFrom(bloom, h);
    }
  }

  // ---- the rotated index ----

  datatype Error = NoError | SectionOutOfBounds | UnexpectedIndex | NotFullyGenerated | BitOutOfBounds

  /** Turns the filters of a section of blocks into one vector of blocks per filter bit. */
  class Generator {
    const sections: nat
    var blooms: seq<seq<byte>>
    var nextSec: nat
    ghost var added: seq<Filter>

    ghost predicate Valid()
      reads this
    {
      && sections % 8 == 0 && |added| == nextSec <= sections && |blooms| == BLOOM_BITS
      && forall i :: 0 <= i < BLOOM_BITS ==> RowOk(blooms[i], i)
    }

    /** Vector i holds bit i of each filter added so far, and nothing else. */
    ghost predicate RowOk(v: seq<byte>, i: nat)
      reads this
      requires i < BLOOM_BITS
    {
      |v| == sections / 8 && Rotated(v, added, i)
    }

    constructor (sections: nat)
      requires sections % 8 == 0
      ensures Valid() && this.sections == sections && nextSec == 0
    {
      this.sections := sections;
      blooms := seq(BLOOM_BITS, _ => seq(sections / 8, _ => 0));
      nextSec, added := 0, [];
      new;
      ZeroVector(seq(sections / 8, _ => 0));
    }

    method AddBloom(index: nat, bloom: Filter) returns (err: Error)
      requires Valid()
      modifies this
      ensures Valid()
      ensures err == (if old(nextSec) >= sections then SectionOutOfBounds
                      else if old(nextSec) != index then UnexpectedIndex else NoError)
      ensures added == if err == NoError then old(added) + [bloom] else old(added)
    {
      if nextSec >= sections {
        return SectionOutOfBounds;
      }
      if nextSec != index {
        return UnexpectedIndex;
      }
      ghost var was, n := blooms, nextSec;
      var i := 0;
      while i < BLOOM_BITS
        invariant 0 <= i <= BLOOM_BITS && |blooms| == BLOOM_BITS && nextSec == n && added == old(added)
        invariant forall j :: i <= j < BLOOM_BITS ==> blooms[j] == was[j]
        invariant forall j :: 0 <= j < i ==> |blooms[j]| == sections / 8 && Rotated(blooms[j], added + [bloom], j)
      {
        assert RowOk(was[i], i);
        RotatedMore(was[i], added, bloom, i);
        if FilterBit(bloom, i) {
          var v := blooms[i];
          blooms := blooms[i := v[nextSec / 8 := WithBit(v[nextSec / 8], 7 - nextSec % 8)]];
        }
        i := i + 1;
      }
      nextSec := nextSec + 1;
      added := added + [bloom];
      return NoError;
    }

    method Bitset(idx: nat) returns (err: Error, v: seq<byte>)
      requires Valid()
      ensures err == (if nextSec != sections then NotFullyGenerated else if idx >= BLOOM_BITS then BitOutOfBounds
                      else NoError)
      ensures err == NoError ==> 8 * |v| == sections == |added| && forall k :: 0 <= k < sections ==>
        (VectorBit(v, k) <==> FilterBit(added[k], idx))
    {
      if nextSec != sections {
        return NotFullyGenerated, [];
      }
      if idx >= BLOOM_BITS {
        return BitOutOfBounds, [];
      }
      assert RowOk(blooms[idx], idx);
      return NoError, blooms[idx];
    }
  }

  ghost predicate Rotated(v: seq<byte>, added: seq<Filter>, i: nat)
    requires i < BLOOM_BITS
  {
    |added| <= 8 * |v| && forall k :: 0 <= k < 8 * |v| ==> (VectorBit(v, k) <==> k < |added| && FilterBit(added[k], i))
  }

  lemma ZeroVector(v: seq<byte>)
    requires forall j :: 0 <= j < |v| ==> v[j] == 0
    ensures forall i :: 0 <= i < BLOOM_BITS ==> Rotated(v, [], i)
  {
    forall k | 0 <= k < 8 * |v|
      ensures !VectorBit(v, k)
    {
      NoBits(7 - k % 8);
    }
  }

  lemma RotatedMore(v: seq<byte>, added: seq<Filter>, bloom: Filter, i: nat)
    requires i < BLOOM_BITS && Rotated(v, added, i) && |added| < 8 * |v|
    ensures var n := |added|;
            Rotated(if FilterBit(bloom, i) then v[n / 8 := WithBit(v[n / 8], 7 - n % 8)] else v, added + [bloom], i)
  {
    hide FilterBit, VectorBit, WithBit;
    var n := |added|;
    var v' := if FilterBit(bloom, i) then v[n / 8 := WithBit(v[n / 8], 7 - n % 8)] else v;
    forall k | 0 <= k < 8 * |v'|
      ensures VectorBit(v', k) <==> k < n + 1 && FilterBit((added + [bloom])[k], i)
    {
      VectorSet(v, n, k);
    }
  }
}
