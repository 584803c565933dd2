/**
 Lanes and byte strings (sections 3.1.2 and 3.1.3 of FIPS 202, crypto/sha3/xor_generic.go): byte i of
 a state is byte i mod 8, counted from the low end, of lane i / 8.
 */
module Words {
  import opened Keccak

  type Octet = bv8
  type Octets = s: seq<Octet> | |s| == 200 witness seq(200, _ => 0)

  function GetByte(v: Lane, k: nat): Octet
    requires k < 8
  {
    match k
    case 0 => (v.w & 0xFF) as bv8
    case 1 => ((v.w >> 8) & 0xFF) as bv8
    case 2 => ((v.w >> 16) & 0xFF) as bv8
    case 3 => ((v.w >> 24) & 0xFF) as bv8
    case 4 => ((v.w >> 32) & 0xFF) as bv8
    case 5 => ((v.w >> 40) & 0xFF) as bv8
    case 6 => ((v.w >> 48) & 0xFF) as bv8
    case _ => ((v.w >> 56) & 0xFF) as bv8
  }

  /** binary.LittleEndian.Uint64 */
  function Word(b0: Octet, b1: Octet, b2: Octet, b3: Octet, b4: Octet, b5: Octet, b6: Octet, b7: Octet): Lane {
    Lane((b0 as bv64) | ((b1 as bv64) << 8) | ((b2 as bv64) << 16) | ((b3 as bv64) << 24)
         | ((b4 as bv64) << 32) | ((b5 as bv64) << 40) | ((b6 as bv64) << 48) | ((b7 as bv64) << 56))
  }

  lemma ByteOfWord(b0: Octet, b1: Octet, b2: Octet, b3: Octet, b4: Octet, b5: Octet, b6: Octet, b7: Octet)
    ensures var v := Word(b0, b1, b2, b3, b4, b5, b6, b7);
            && GetByte(v, 0) == b0 && GetByte(v, 1) == b1 && GetByte(v, 2) == b2 && GetByte(v, 3) == b3
            && GetByte(v, 4) == b4 && GetByte(v, 5) == b5 && GetByte(v, 6) == b6 && GetByte(v, 7) == b7
  {
  }

  lemma WordOfBytes(v: Lane)
    ensures Word(GetByte(v, 0), GetByte(v, 1), GetByte(v, 2), GetByte(v, 3),
                 GetByte(v, 4), GetByte(v, 5), GetByte(v, 6), GetByte(v, 7)) == v
  {
  }

  function OctetXor(x: Octet, y: Octet): Octet {
    x ^ y
  }

  lemma LowBytesOfXor(v: Lane, u: Lane)
    ensures GetByte(Xor(v, u), 0) == OctetXor(GetByte(v, 0), GetByte(u, 0))
    ensures GetByte(Xor(v, u), 1) == OctetXor(GetByte(v, 1), GetByte(u, 1))
  {
  }

  lemma MiddleBytesOfXor(v: Lane, u: Lane)
    ensures GetByte(Xor(v, u), 2) == OctetXor(GetByte(v, 2), GetByte(u, 2))
    ensures GetByte(Xor(v, u), 3) == OctetXor(GetByte(v, 3), GetByte(u, 3))
  {
  }

  lemma HighBytesOfXor(v: Lane, u: Lane)
    ensures GetByte(Xor(v, u), 4) == OctetXor(GetByte(v, 4), GetByte(u, 4))
    ensures GetByte(Xor(v, u), 5) == OctetXor(GetByte(v, 5), GetByte(u, 5))
  {
  }

  lemma TopBytesOfXor(v: Lane, u: Lane)
    ensures GetByte(Xor(v, u), 6) == OctetXor(GetByte(v, 6), GetByte(u, 6))
    ensures GetByte(Xor(v, u), 7) == OctetXor(GetByte(v, 7), GetByte(u, 7))
  {
  }

  lemma ByteOfXor(v: Lane, u: Lane, k: nat)
    requires k < 8
    ensures GetByte(Xor(v, u), k) == OctetXor(GetByte(v, k), GetByte(u, k))
  {
    hide Xor, GetByte, OctetXor;
    LowBytesOfXor(v, u);
    MiddleBytesOfXor(v, u);
    HighBytesOfXor(v, u);
    TopBytesOfXor(v, u);
  }

  // ---- whole states ----

  function StateBytes(a: Lanes): Octets {
    seq(200, i requires 0 <= i < 200 => GetByte(a[i / 8], i % 8))
  }

  function WordAt(s: seq<Octet>, i: nat): Lane
    requires 8 * i + 8 <= |s|
  {
    Word(s[8 * i], s[8 * i + 1], s[8 * i + 2], s[8 * i + 3], s[8 * i + 4], s[8 * i + 5], s[8 * i + 6], s[8 * i + 7])
  }

  lemma ByteOfWordAt(s: seq<Octet>, i: nat, k: nat)
    requires 8 * i + 8 <= |s| && k < 8
    ensures GetByte(WordAt(s, i), k) == s[8 * i + k]
  {
    hide Word, GetByte;
    ByteOfWord(s[8 * i], s[8 * i + 1], s[8 * i + 2], s[8 * i + 3], s[8 * i + 4], s[8 * i + 5], s[8 * i + 6],
               s[8 * i + 7]);
  }

  function LanesOf(s: Octets): Lanes {
    seq(25, i requires 0 <= i < 25 => WordAt(s, i))
  }

  lemma StateByte(a: Lanes, i: nat, k: nat)
    requires i < 25 && k < 8
    ensures StateBytes(a)[8 * i + k] == GetByte(a[i], k)
  {
    hide GetByte;
    assert (8 * i + k) / 8 == i && (8 * i + k) % 8 == k;
  }

  lemma LanesOfBytes(a: Lanes)
    ensures LanesOf(StateBytes(a)) == a
  {
    hide StateBytes;
    forall i | 0 <= i < 25
      ensures WordAt(StateBytes(a), i) == a[i]
    {
      LaneOfBytes(a, i);
    }
  }

  lemma LaneOfBytes(a: Lanes, i: nat)
    requires i < 25
    ensures WordAt(StateBytes(a), i) == a[i]
  {
    hide StateBytes, GetByte, Word;
    StateByte(a, i, 0);
    StateByte(a, i, 1);
    StateByte(a, i, 2);
    StateByte(a, i, 3);
    StateByte(a, i, 4);
    StateByte(a, i, 5);
    StateByte(a, i, 6);
    StateByte(a, i, 7);
    WordOfBytes(a[i]);
  }

  /** A byte string added to the front of a state. */
  function XorBytes(s: Octets, b: seq<Octet>): Octets
    requires |b| <= 200
  {
    seq(200, i requires 0 <= i < 200 => if i < |b| then OctetXor(s[i], b[i]) else s[i])
  }

  lemma XorLanes(a: Lanes, a': Lanes, b: seq<Octet>, n: nat)
    requires |b| == 8 * n <= 200
    requires forall i :: 0 <= i < n ==> a'[i] == Xor(a[i], WordAt(b, i))
    requires forall i :: n <= i < 25 ==> a'[i] == a[i]
    ensures StateBytes(a') == XorBytes(StateBytes(a), b)
  {
    hide GetByte, Xor, WordAt, StateBytes, OctetXor;
    forall j | 0 <= j < 200
      ensures StateBytes(a')[j] == XorBytes(StateBytes(a), b)[j]
    {
      var i, k := j / 8, j % 8;
      assert j == 8 * i + k;
      StateByte(a, i, k);
      StateByte(a', i, k);
      if i < n {
        ByteOfXor(a[i], WordAt(b, i), k);
        ByteOfWordAt(b, i, k);
      }
    }
  }

  /** The whole words of a byte string. */
  function Whole(b: seq<Octet>): (w: seq<Octet>)
    ensures |w| <= |b|
  {
    b[..8 * (|b| / 8)]
  }

  /** xorInGeneric: whole words only, the bytes after the last one are not used. */
  method XorIn(a: array<Lane>, b: seq<Octet>)
    requires a.Length == 25 && |b| <= 200
    modifies a
    ensures StateBytes(a[..]) == XorBytes(old(StateBytes(a[..])), Whole(b))
  {
    hide GetByte, Xor, Word, StateBytes;
    var n := |b| / 8;
    var buf := b;
    var i := 0;
    while i < n
      invariant 0 <= i <= n && buf == b[8 * i..]
      invariant forall j :: 0 <= j < i ==> a[j] == Xor(old(a[j]), WordAt(b, j))
      invariant forall j :: i <= j < 25 ==> a[j] == old(a[j])
    {
      a[i] := Xor(a[i], WordAt(buf, 0));
      assert WordAt(buf, 0) == WordAt(b, i);
      buf := buf[8..];
      i := i + 1;
    }
    ghost var whole := Whole(b);
    forall j | 0 <= j < n
      ensures WordAt(whole, j) == WordAt(b, j)
    {
    }
    XorLanes(old(a[..]), a[..], whole, n);
  }

  /** copyOutGeneric: as many whole words as fit into the first len bytes of the buffer. */
  method CopyOut(a: Lanes, storage: array<Octet>, len: nat)
    requires len <= 200 && len <= storage.Length
    modifies storage
    ensures storage[..8 * (len / 8)] == StateBytes(a)[..8 * (len / 8)]
    ensures storage[8 * (len / 8)..] == old(storage[8 * (len / 8)..])
  {
    hide GetByte, StateBytes;
    ghost var s := StateBytes(a);
    var i := 0;
    while len - 8 * i >= 8
      invariant 0 <= i <= len / 8
      invariant forall j :: 0 <= j < 8 * i ==> storage[j] == s[j]
      invariant forall j :: 8 * i <= j < storage.Length ==> storage[j] == old(storage[j])
    {
      var k := 0;
      while k < 8
        invariant 0 <= k <= 8
        invariant forall j :: 0 <= j < 8 * i + k ==> storage[j] == s[j]
        invariant forall j :: 8 * i + k <= j < storage.Length ==> storage[j] == old(storage[j])
      {
        StateByte(a, i, k);
        storage[8 * i + k] := GetByte(a[i], k);
        k := k + 1;
      }
      i := i + 1;
    }
  }
}
