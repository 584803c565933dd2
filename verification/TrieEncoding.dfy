/** The key encodings of common/trie/encoding.go: key bytes, hex nibbles, compact bytes. */
module TrieEncoding {
  import opened Bytes
  import opened TrieNode

  /** Two nibbles per byte. */
  function Split(b: seq<byte>): (h: Key)
    ensures |h| == 2 * |b| && Nibbles(h)
  {
    if b == [] then []
    else
      var last := |b| - 1;
      Split(b[..last]) + [b[last] / 16, b[last] % 16]
  }

  /** One byte per two nibbles. */
  function Pairs(h: Key): (b: seq<byte>)
    requires |h| % 2 == 0 && Nibbles(h)
    ensures |b| == |h| / 2
  {
    if h == [] then [] else Pairs(h[..|h| - 2]) + [h[|h| - 2] * 16 + h[|h| - 1]]
  }

  lemma {:induction false} SplitPairs(h: Key)
    requires |h| % 2 == 0 && Nibbles(h)
    ensures Split(Pairs(h)) == h
  {
    if h != [] {
      var b := Pairs(h);
      assert b[..|b| - 1] == Pairs(h[..|h| - 2]);
      SplitPairs(h[..|h| - 2]);
    }
  }

  lemma {:induction false} PairsSplit(b: seq<byte>)
    ensures Pairs(Split(b)) == b
  {
    if b != [] {
      var h, last := Split(b), |b| - 1;
      assert h[..|h| - 2] == Split(b[..last]);
      PairsSplit(b[..last]);
    }
  }

  lemma {:induction false} SplitCons(x: byte, b: seq<byte>)
    ensures Split([x] + b) == [x / 16, x % 16] + Split(b)
  {
    var s := [x] + b;
    if b == [] {
      assert s[..0] == [];
    } else {
      assert s[..|s| - 1] == [x] + b[..|b| - 1];
      SplitCons(x, b[..|b| - 1]);
    }
  }

  /** The hex form of a key: its nibbles, then the terminator. */
  function HexKey(str: seq<byte>): (h: Key)
    ensures IsKey(h)
  {
    Split(str) + [16]
  }

  method KeybytesToHex(str: seq<byte>) returns (h: Key)
    ensures h == HexKey(str)
  {
    var l := |str| * 2 + 1;
    var nibbles := new nat[l](_ => 0);
    var i := 0;
    while i < |str|
      invariant 0 <= i <= |str|
      invariant nibbles[..2 * i] == Split(str[..i])
    {
      nibbles[i * 2] := str[i] / 16;
      nibbles[i * 2 + 1] := str[i] % 16;
      i := i + 1;
      assert str[..i][..i - 1] == str[..i - 1];
      assert nibbles[..2 * i] == nibbles[..2 * i - 2] + [nibbles[2 * i - 2], nibbles[2 * i - 1]];
    }
    assert str[..i] == str;
    nibbles[l - 1] := 16;
    h := nibbles[..];
    assert h == nibbles[..l - 1] + [16];
  }

  /** Different key strings have different hex keys. */
  lemma HexKeyInjective(a: seq<byte>, b: seq<byte>)
    requires HexKey(a) == HexKey(b)
    ensures a == b
  {
    assert Split(a) == HexKey(a)[..|HexKey(a)| - 1] == Split(b);
    PairsSplit(a);
    PairsSplit(b);
  }

  // ---- the compact form ----

  predicate HasTerm(s: Key) {
    |s| > 0 && s[|s| - 1] == 16
  }

  /** A hex key, with or without the terminator. */
  predicate IsHex(h: Key) {
    if HasTerm(h) then IsKey(h) else Nibbles(h)
  }

  /** Writes pairs of nibbles into the buffer from index 1 on. */
  method DecodeNibbles(nibbles: Key, buf: array<byte>)
    requires |nibbles| % 2 == 0 && Nibbles(nibbles) && 1 + |nibbles| / 2 == buf.Length
    modifies buf
    ensures buf[..] == [old(buf[0])] + Pairs(nibbles)
  {
    var bi, ni := 0, 0;
    while ni < |nibbles|
      invariant ni == 2 * bi <= |nibbles|
      invariant buf[0] == old(buf[0])
      invariant buf[1..bi + 1] == Pairs(nibbles[..ni])
    {
      buf[1 + bi] := nibbles[ni] * 16 + nibbles[ni + 1];
      bi, ni := bi + 1, ni + 2;
      assert nibbles[..ni][..ni - 2] == nibbles[..ni - 2];
      assert buf[1..bi + 1] == buf[1..bi] + [buf[bi]];
    }
    assert nibbles[..ni] == nibbles;
    assert buf[..] == [buf[0]] + buf[1..bi + 1];
  }

  /** A hex key without its terminator. */
  function Body(h: Key): (b: Key)
    requires IsHex(h)
    ensures Nibbles(b)
  {
    if HasTerm(h) then h[..|h| - 1] else h
  }

  /** The nibble that goes into the first byte, and the nibbles that are paired. */
  function First(hex: Key): (n: nat)
    requires Nibbles(hex)
    ensures n < 16
  {
    if |hex| % 2 == 1 then hex[0] else 0
  }

  function Rest(hex: Key): (m: Key)
    requires Nibbles(hex)
    ensures |m| % 2 == 0 && Nibbles(m)
  {
    if |hex| % 2 == 1 then hex[1..] else hex
  }

  function FlagByte(term: bool, odd: nat, low: nat): (x: byte)
    requires odd <= 1 && low < 16
  {
    (if term then 32 else 0) + 16 * odd + low
  }

  /** The compact form: a byte with flags and the odd nibble if there is one, then pairs. */
  function Compact(h: Key): (c: seq<byte>)
    requires IsHex(h)
  {
    var hex := Body(h);
    [FlagByte(HasTerm(h), |hex| % 2, First(hex))] + Pairs(Rest(hex))
  }

  method HexToCompact(h: Key) returns (c: seq<byte>)
    requires IsHex(h)
    ensures c == Compact(h)
  {
    var hex, terminator := h, 0;
    if HasTerm(hex) {
      terminator := 1;
      hex := hex[..|hex| - 1];
    }
    var buf := new byte[|hex| / 2 + 1](_ => 0);
    buf[0] := terminator * 32;
    if |hex| % 2 == 1 {
      buf[0] := buf[0] + 16;
      buf[0] := buf[0] + hex[0];
      hex := hex[1..];
    }
    DecodeNibbles(hex, buf);
    c := buf[..];
  }

  /** Drops the terminator unless the flag says otherwise, then the flag and the padding nibble. */
  function Strip(base: Key): Key
    requires |base| >= 3
  {
    var kept := if base[0] < 2 then base[..|base| - 1] else base;
    kept[2 - base[0] % 2..]
  }

  function Expand(c: seq<byte>): (h: Key) {
    if c == [] then [] else Strip(HexKey(c))
  }

  method CompactToHex(c: seq<byte>) returns (h: Key)
    ensures h == Expand(c)
  {
    if |c| == 0 {
      return [];
    }
    var base := KeybytesToHex(c);
    var flag := base[0];
    if flag < 2 {
      base := base[..|base| - 1];
    }
    var chop := 2 - flag % 2;
    h := base[chop..];
  }

  function Odd(x: byte): Key {
    if x / 16 % 2 == 1 then [x % 16] else []
  }

  function Term(x: byte): Key {
    if x >= 32 then [16] else []
  }

  lemma StripAt(a: nat, b: nat, m: Key)
    ensures Strip([a, b] + m + [16]) == (if a % 2 == 1 then [b] else []) + m + (if a >= 2 then [16] else [])
  {
    var base := [a, b] + m + [16];
    if a < 2 {
      var kept := base[..|base| - 1];
      assert kept == [a, b] + m;
      assert kept[1..] == [b] + m && kept[2..] == m;
    } else {
      assert base[1..] == [b] + m + [16] && base[2..] == m + [16];
    }
  }

  /** What decoding makes of a first byte and the rest. */
  lemma ExpandCons(x: byte, rest: seq<byte>, m: Key)
    requires m == Split(rest)
    ensures Expand([x] + rest) == Odd(x) + m + Term(x)
  {
    SplitCons(x, rest);
    StripAt(x / 16, x % 16, m);
  }

  lemma JoinBody(h: Key, hex: Key)
    requires IsHex(h) && hex == Body(h)
    ensures h == hex + (if HasTerm(h) then [16] else [])
  {
  }

  lemma Reassemble(h: Key, hex: Key, x: byte)
    requires IsHex(h) && hex == Body(h) && x == FlagByte(HasTerm(h), |hex| % 2, First(hex))
    ensures Odd(x) + Rest(hex) + Term(x) == h
  {
    JoinBody(h, hex);
    assert Term(x) == if HasTerm(h) then [16] else [];
    assert Odd(x) + Rest(hex) == hex;
  }

  /** Compact encoding loses nothing. */
  lemma CompactRoundTrip(h: Key)
    requires IsHex(h)
    ensures Expand(Compact(h)) == h
  {
    var hex := Body(h);
    var x, m := FlagByte(HasTerm(h), |hex| % 2, First(hex)), Rest(hex);
    var p := Pairs(m);
    SplitPairs(m);
    ExpandCons(x, p, m);
    Reassemble(h, hex, x);
  }

  /** A compact key as hexToCompact writes it: a known flag, and no stray low nibble beside an even one. */
  predicate IsCompact(c: seq<byte>) {
    c != [] && c[0] < 64 && (c[0] / 16 % 2 == 0 ==> c[0] % 16 == 0)
  }

  lemma CompactOf(x: byte, m: Key, h: Key)
    requires |m| % 2 == 0 && Nibbles(m) && h == Odd(x) + m + Term(x)
    ensures IsHex(h) && (HasTerm(h) <==> x >= 32) && |Body(h)| % 2 == x / 16 % 2
    ensures Rest(Body(h)) == m
    ensures x / 16 % 2 == 1 ==> First(Body(h)) == x % 16
  {
    var hex := Odd(x) + m;
    assert HasTerm(h) <==> x >= 32;
    assert Body(h) == hex;
    assert Rest(hex) == m;
  }

  /** The first byte after decoding and encoding again. */
  function Repaired(x: byte): byte {
    FlagByte(x >= 32, x / 16 % 2, if x / 16 % 2 == 1 then x % 16 else 0)
  }

  lemma CompactExpand(x: byte, rest: seq<byte>)
    ensures IsHex(Expand([x] + rest))
    ensures Compact(Expand([x] + rest)) == [Repaired(x)] + rest
  {
    var m, h := Split(rest), Expand([x] + rest);
    ExpandCons(x, rest, m);
    CompactOf(x, m, h);
    PairsSplit(rest);
  }

  lemma RepairedSame(x: byte)
    ensures Repaired(x) == x <==> x < 64 && (x / 16 % 2 == 0 ==> x % 16 == 0)
  {
    var q, r := x / 16, x % 16;
    assert x == 16 * q + r;
  }

  /** Decoding always gives a hex key; encoding it again gives back exactly the well-formed compact keys. */
  lemma ExpandRoundTrip(c: seq<byte>)
    ensures IsHex(Expand(c))
    ensures Compact(Expand(c)) == c <==> IsCompact(c)
  {
    if c != [] {
      CompactExpand(c[0], c[1..]);
      RepairedSame(c[0]);
      assert c == [c[0]] + c[1..];
      var d := Compact(Expand(c));
      assert d[1..] == c[1..] && d[0] == Repaired(c[0]);
    }
  }

  /** A first byte that no encoding begins with is accepted, and comes back as another one. */
  lemma ExpandNeedsFlag()
    ensures Compact(Expand([0x40])) != [0x40]
  {
    ExpandRoundTrip([0x40]);
  }
}
