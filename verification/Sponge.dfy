/**
 The sponge (crypto/sha3/sha3.go): a buffered object that absorbs by Write and squeezes by Read,
 against the sponge construction of section 4 of FIPS 202 with the padding of section 5.1.
 */
module Sponge {
  import Basics
  import opened Keccak
  import opened Words

  const MAX_RATE := 168

  // ---- the construction of FIPS 202, on byte strings ----

  function Zeros(): Octets {
    seq(200, _ => 0)
  }

  /** Keccak-f on byte strings. */
  function Permuted(s: Octets): Octets {
    StateBytes(KeccakF(LanesOf(s)))
  }

  type Permutation = Octets -> Octets

  ghost predicate IsRate(rate: nat) {
    0 < rate <= MAX_RATE && rate % 8 == 0
  }

  /** The state after absorbing the blocks of m, whose length is a multiple of the rate. */
  function Absorb(f: Permutation, rate: nat, m: seq<Octet>): Octets
    requires 0 < rate <= 200
  {
    if |m| < rate then Zeros()
    else f(XorBytes(Absorb(f, rate, m[..|m| - rate]), m[|m| - rate..]))
  }

  /** The domain bits and the padding 10*1 that follow a message of the given length. */
  function Padding(rate: nat, ds: Octet, length: nat): (p: seq<Octet>)
    requires rate > 0
    ensures |p| == rate - length % rate
  {
    var n := rate - length % rate;
    if n == 1 then [OctetXor(ds, 0x80)] else [ds] + seq(n - 2, _ => 0) + [0x80]
  }

  function Squeeze(f: Permutation, rate: nat, s: Octets, d: nat): (z: seq<Octet>)
    requires 0 < rate <= 200
    ensures |z| == d
    decreases d
  {
    if d <= rate then s[..d] else s[..rate] + Squeeze(f, rate, f(s), d - rate)
  }

  /** The state that output is squeezed from. */
  function Finished(f: Permutation, rate: nat, ds: Octet, m: seq<Octet>): Octets
    requires 0 < rate <= 200
  {
    Absorb(f, rate, m + Padding(rate, ds, |m|))
  }

  /** The first d bytes of the sponge's output on message m. */
  function Hash(f: Permutation, rate: nat, ds: Octet, m: seq<Octet>, d: nat): (z: seq<Octet>)
    requires 0 < rate <= 200
    ensures |z| == d
  {
    Squeeze(f, rate, Finished(f, rate, ds, m), d)
  }

  // ---- output byte by byte ----

  function After(f: Permutation, s: Octets, n: nat): Octets
    decreases n
  {
    if n == 0 then s else After(f, f(s), n - 1)
  }

  lemma {:induction false} AfterNext(f: Permutation, s: Octets, n: nat)
    ensures After(f, s, n + 1) == f(After(f, s, n))
    decreases n
  {
    if n > 0 {
      AfterNext(f, f(s), n - 1);
    }
  }

  lemma OneBlockLess(q: nat, rate: nat)
    requires q > 0
    ensures (q - 1) * rate == q * rate - rate >= 0
  {
  }

  /** Output from block q on is what squeezing the state after q permutations gives. */
  lemma {:induction false} SqueezeRest(f: Permutation, rate: nat, s: Octets, d: nat, q: nat)
    requires 0 < rate <= 200 && q * rate <= d
    ensures Squeeze(f, rate, s, d)[q * rate..] == Squeeze(f, rate, After(f, s, q), d - q * rate)
    decreases q
  {
    if q > 0 {
      OneBlockLess(q, rate);
      if d > rate {
        SqueezeRest(f, rate, f(s), d - rate, q - 1);
        DropMore(s[..rate], Squeeze(f, rate, f(s), d - rate), (q - 1) * rate);
      } else {
        assert d == q * rate;
      }
    }
  }

  lemma DropMore(a: seq<Octet>, b: seq<Octet>, k: nat)
    requires k <= |b|
    ensures (a + b)[|a| + k..] == b[k..]
  {
  }

  /** A piece of block q of the output, as it stands in the state. */
  lemma SqueezePiece(f: Permutation, rate: nat, s: Octets, d: nat, q: nat, from: nat, n: nat)
    requires 0 < rate <= 200 && from + n <= rate && q * rate + from + n <= d
    ensures Squeeze(f, rate, s, d)[q * rate + from..][..n] == After(f, s, q)[from..from + n]
  {
    SqueezeRest(f, rate, s, d, q);
    var t, z := After(f, s, q), Squeeze(f, rate, s, d);
    var e := d - q * rate;
    SqueezePrefix(f, rate, t, from + n, e);
    assert z[q * rate + from..][..n] == z[q * rate..][from..from + n];
    assert Squeeze(f, rate, t, e)[from..from + n] == Squeeze(f, rate, t, e)[..from + n][from..];
  }

  lemma {:induction false} SqueezePrefix(f: Permutation, rate: nat, s: Octets, d: nat, e: nat)
    requires 0 < rate <= 200 && d <= e
    ensures Squeeze(f, rate, s, e)[..d] == Squeeze(f, rate, s, d)
    decreases d
  {
    if d > rate {
      SqueezePrefix(f, rate, f(s), d - rate, e - rate);
    }
  }

  // ---- half-way states ----

  /** The state holds the whole blocks of the message, the buffer the rest. */
  ghost predicate Absorbing(rate: nat, msg: seq<Octet>, blocks: nat, st: Octets, buf: seq<Octet>)
    requires 0 < rate <= 200
  {
    && |msg| == blocks * rate + |buf| && |buf| <= |msg|
    && st == Absorb(Permuted, rate, msg[..|msg| - |buf|])
    && buf == msg[|msg| - |buf|..]
  }

  /** The state is the one after `blocks` blocks of output, of which `from` bytes have been given. */
  ghost predicate Squeezing(rate: nat, ds: Octet, msg: seq<Octet>, given: nat, blocks: nat, st: Octets, from: nat)
    requires 0 < rate <= 200
  {
    && given == blocks * rate + from
    && st == After(Permuted, Finished(Permuted, rate, ds, msg), blocks)
  }

  lemma BufferMore(rate: nat, msg: seq<Octet>, blocks: nat, st: Octets, buf: seq<Octet>, p: seq<Octet>)
    requires 0 < rate <= 200 && Absorbing(rate, msg, blocks, st, buf)
    ensures Absorbing(rate, msg + p, blocks, st, buf + p)
  {
    hide Absorb, Permuted;
    var n := |msg| - |buf|;
    assert (msg + p)[..n] == msg[..n];
  }

  lemma BufferFull(rate: nat, msg: seq<Octet>, blocks: nat, st: Octets, buf: seq<Octet>)
    requires 0 < rate <= 200 && Absorbing(rate, msg, blocks, st, buf) && |buf| == rate
    ensures Absorbing(rate, msg, blocks + 1, Permuted(XorBytes(st, buf)), [])
  {
    hide Permuted, XorBytes;
    assert msg[..|msg|] == msg;
    assert (blocks + 1) * rate == blocks * rate + rate;
  }

  lemma RestOfLength(length: nat, rate: nat, blocks: nat, rest: nat)
    requires rest < rate && length == blocks * rate + rest
    ensures length % rate == rest
  {
    var q := length / rate;
    assert length == q * rate + length % rate;
    assert (q - blocks) * rate == rest - length % rate;
    assert q - blocks >= 1 ==> (q - blocks) * rate >= rate;
    assert q - blocks <= -1 ==> (q - blocks) * rate + rate <= 0;
  }

  lemma PaddedBlock(rate: nat, ds: Octet, msg: seq<Octet>, blocks: nat, st: Octets, buf: seq<Octet>)
    requires 0 < rate <= 200 && Absorbing(rate, msg, blocks, st, buf) && |buf| < rate
    ensures |Padding(rate, ds, |msg|)| == rate - |buf|
    ensures Permuted(XorBytes(st, buf + Padding(rate, ds, |msg|))) == Finished(Permuted, rate, ds, msg)
  {
    hide Permuted, XorBytes, Padding, Absorb;
    RestOfLength(|msg|, rate, blocks, |buf|);
    var p := Padding(rate, ds, |msg|);
    BufferMore(rate, msg, blocks, st, buf, p);
    BufferFull(rate, msg + p, blocks, st, buf + p);
    assert (msg + p)[..|msg + p|] == msg + p;
  }

  lemma NextBlock(rate: nat, ds: Octet, msg: seq<Octet>, given: nat, blocks: nat, st: Octets)
    requires 0 < rate <= 200 && Squeezing(rate, ds, msg, given, blocks, st, rate)
    ensures Squeezing(rate, ds, msg, given, blocks + 1, Permuted(st), 0)
  {
    hide Finished, Permuted;
    AfterNext(Permuted, Finished(Permuted, rate, ds, msg), blocks);
  }

  // ---- the object ----

  class State {
    const a: array<Lane>
    const rate: nat
    const dsbyte: Octet
    const storage: array<Octet>
    const outputLen: nat
    var bufFrom: nat
    var bufLen: nat
    var squeezing: bool

    ghost var msg: seq<Octet> // what has been written
    ghost var given: nat // how much has been read
    ghost var blocks: nat // how many whole blocks that is

    ghost predicate Valid()
      reads this, a, storage
    {
      Shape() && if squeezing then SqueezingValid() else AbsorbingValid()
    }

    ghost predicate Shape()
    {
      a.Length == 25 && storage.Length == MAX_RATE && IsRate(rate) && (a as object) != storage
    }

    ghost predicate AbsorbingValid()
      reads this, a, storage
      requires Shape()
    {
      && bufFrom == 0 && bufLen < rate
      && Absorbing(rate, msg, blocks, StateBytes(a[..]), storage[..bufLen])
    }

    ghost predicate SqueezingValid()
      reads this, a, storage
      requires Shape()
    {
      && bufFrom < rate && bufFrom + bufLen == rate
      && Squeezing(rate, dsbyte, msg, given, blocks, StateBytes(a[..]), bufFrom)
      && storage[..rate] == StateBytes(a[..])[..rate]
    }

    constructor (rate: nat, outputLen: nat, dsbyte: Octet)
      requires IsRate(rate)
      ensures Valid() && !squeezing && msg == []
      ensures fresh(a) && fresh(storage)
      ensures this.rate == rate && this.outputLen == outputLen && this.dsbyte == dsbyte
    {
      this.rate, this.outputLen, this.dsbyte := rate, outputLen, dsbyte;
      a := new Lane[25](_ => Lane(0));
      storage := new Octet[MAX_RATE](_ => 0);
      bufFrom, bufLen, squeezing := 0, 0, false;
      msg, given, blocks := [], 0, 0;
      new;
      hide StateBytes, Absorb, Permuted;
      ZeroLanes(a[..], rate);
      assert msg[..0] == [] && storage[..0] == [];
    }

    /** The absorbing case of permute: the full buffer goes into the state. */
    method PermuteIn()
      requires Shape() && bufFrom == 0 && bufLen == rate
      modifies this`bufLen, a
      ensures StateBytes(a[..]) == Permuted(XorBytes(old(StateBytes(a[..])), storage[..rate]))
      ensures bufLen == 0
    {
      hide StateBytes, KeccakF, LanesOf, XorBytes, Permuted;
      var block := storage[..bufLen];
      WholeWords(block);
      XorIn(a, block);
      bufLen := 0;
      PermutedBytes(a[..]);
      KeccakF1600(a);
    }

    /** The squeezing case of permute: the buffer is filled with the next block of output. */
    method PermuteOut()
      requires Shape()
      modifies this`bufFrom, this`bufLen, a, storage
      ensures StateBytes(a[..]) == Permuted(old(StateBytes(a[..])))
      ensures bufFrom == 0 && bufLen == rate && storage[..rate] == StateBytes(a[..])[..rate]
    {
      hide StateBytes, KeccakF, LanesOf, XorBytes, Permuted;
      PermutedBytes(a[..]);
      KeccakF1600(a);
      bufFrom, bufLen := 0, rate;
      FillBuffer();
    }

    method FillBuffer()
      requires Shape()
      modifies storage
      ensures storage[..rate] == StateBytes(a[..])[..rate]
    {
      hide StateBytes;
      WholeRate(rate);
      CopyOut(a[..], storage, rate);
    }

    /** Padding goes behind the message, to the end of the block. */
    method Pad()
      requires Shape() && bufFrom == 0 && bufLen < rate && |msg| % rate == bufLen
      modifies storage
      ensures storage[..rate] == old(storage[..bufLen]) + Padding(rate, dsbyte, |msg|)
    {
      hide OctetXor, Padding;
      storage[bufLen] := dsbyte;
      var zerosStart := bufLen + 1;
      var i := zerosStart;
      while i < rate
        invariant zerosStart <= i <= rate
        invariant storage[..bufLen] == old(storage[..bufLen]) && storage[bufLen] == dsbyte
        invariant forall j :: zerosStart <= j < i ==> storage[j] == 0
      {
        storage[i] := 0;
        i := i + 1;
      }
      storage[rate - 1] := OctetXor(storage[rate - 1], 0x80);
      PaddingFrom(rate, dsbyte, |msg|, storage[bufLen..rate]);
      assert storage[..rate] == storage[..bufLen] + storage[bufLen..rate];
    }

    method PadAndPermute()
      requires Valid() && !squeezing
      modifies this, a, storage
      ensures Valid() && squeezing && msg == old(msg) && given == 0
    {
      hide StateBytes, Permuted, XorBytes, Absorbing, Squeezing, Padding;
      ghost var st, buf := StateBytes(a[..]), storage[..bufLen];
      PaddedBlock(rate, dsbyte, msg, blocks, st, buf);
      AbsorbingRest(rate, msg, blocks, st, buf);
      Pad();
      bufLen := rate;
      PermuteIn();
      squeezing := true;
      bufFrom, bufLen := 0, rate;
      FillBuffer();
      given, blocks := 0, 0;
      SqueezingStart(rate, dsbyte, msg);
    }

    /** The slow path of Write: as much as fits into the buffer, which goes into the state when full. */
    method Buffer(p: seq<Octet>) returns (todo: nat)
      requires Valid() && !squeezing && p != []
      modifies this, a, storage
      ensures Valid() && !squeezing && 0 < todo <= |p| && msg == old(msg) + p[..todo]
    {
      hide StateBytes, Permuted, XorBytes, Absorbing, Squeezing;
      ghost var st, buf := StateBytes(a[..]), storage[..bufLen];
      todo := rate - bufLen;
      if todo > |p| {
        todo := |p|;
      }
      var part := p[..todo];
      Append(part);
      BufferMore(rate, msg, blocks, st, buf, part);
      msg := msg + part;
      if bufLen == rate {
        BufferFull(rate, msg, blocks, st, storage[..rate]);
        PermuteIn();
        blocks := blocks + 1;
        assert storage[..bufLen] == [];
      }
    }

    method Append(part: seq<Octet>)
      requires Shape() && bufLen + |part| <= rate
      modifies this`bufLen, storage
      ensures bufLen == old(bufLen) + |part| && storage[..bufLen] == old(storage[..bufLen]) + part
    {
      var i := 0;
      while i < |part|
        invariant 0 <= i <= |part| && bufLen == old(bufLen) + i
        invariant storage[..bufLen] == old(storage[..bufLen]) + part[..i]
      {
        storage[bufLen] := part[i];
        bufLen := bufLen + 1;
        i := i + 1;
      }
    }

    /** The fast path of Write: a whole block, past the empty buffer. */
    method AbsorbWhole(block: seq<Octet>)
      requires Valid() && !squeezing && bufLen == 0 && |block| == rate
      modifies this, a
      ensures Valid() && !squeezing && msg == old(msg) + block
    {
      hide StateBytes, Permuted, XorBytes, Absorbing, Squeezing, KeccakF;
      ghost var st := StateBytes(a[..]);
      assert storage[..bufLen] == [] && [] + block == block;
      BufferMore(rate, msg, blocks, st, [], block);
      BufferFull(rate, msg + block, blocks, st, block);
      WholeWords(block);
      XorIn(a, block);
      PermutedBytes(a[..]);
      KeccakF1600(a);
      msg, blocks := msg + block, blocks + 1;
    }

    /** Absorbs more data. The source panics once squeezing has begun. */
    method Write(data: seq<Octet>) returns (written: nat)
      requires Valid() && !squeezing
      modifies this, a, storage
      ensures Valid() && !squeezing && msg == old(msg) + data && written == |data|
    {
      hide Valid;
      written := |data|;
      var p := data;
      ghost var done := 0;
      while |p| > 0
        invariant 0 <= done <= |data| && p == data[done..]
        invariant Valid() && !squeezing && msg == old(msg) + data[..done]
        decreases |p|
      {
        RatePositive();
        if bufLen == 0 && |p| >= rate {
          AbsorbWhole(p[..rate]);
          assert data[..done + rate] == data[..done] + p[..rate];
          done := done + rate;
          p := p[rate..];
        } else {
          var todo := Buffer(p);
          assert data[..done + todo] == data[..done] + p[..todo];
          done := done + todo;
          p := p[todo..];
        }
      }
      assert data[..done] == data;
    }

    lemma RatePositive()
      requires Valid()
      ensures 0 < rate <= 200 && (squeezing ==> 0 < bufLen && bufFrom + bufLen <= storage.Length)
    {
    }

    /** Bytes from the buffer, which is filled again once it is dry. */
    method Take(m: nat, ghost d: nat) returns (chunk: seq<Octet>)
      requires Valid() && squeezing && 0 < m <= bufLen && given + m <= d
      modifies this, a, storage
      ensures Valid() && squeezing && msg == old(msg) && given == old(given) + m
      ensures chunk == Hash(Permuted, rate, dsbyte, msg, d)[old(given)..given]
    {
      hide StateBytes, Permuted, XorBytes, Absorbing, Finished, After, Squeeze;
      ghost var st := StateBytes(a[..]);
      chunk := storage[bufFrom..bufFrom + m];
      SamePiece(storage[..], st, rate, bufFrom, bufFrom + m);
      GivenPiece(rate, dsbyte, msg, given, blocks, st, bufFrom, m, d);
      given := given + m;
      bufFrom, bufLen := bufFrom + m, bufLen - m;
      if bufLen == 0 {
        NextBlock(rate, dsbyte, msg, given, blocks, st);
        PermuteOut();
        blocks := blocks + 1;
      }
    }

    /** Squeezes n bytes of output, after padding if this is the first read. */
    method Read(n: nat) returns (out: seq<Octet>)
      requires Valid()
      modifies this, a, storage
      ensures Valid() && squeezing && msg == old(msg)
      ensures given == (if old(squeezing) then old(given) else 0) + n
      ensures out == Hash(Permuted, rate, dsbyte, msg, given)[given - n..]
    {
      hide Valid, Hash;
      if !squeezing {
        PadAndPermute();
      }
      RatePositive();
      ghost var start := given;
      ghost var whole := Hash(Permuted, rate, dsbyte, msg, start + n);
      out := [];
      while |out| < n
        invariant Valid() && squeezing && msg == old(msg) && |out| <= n && given == start + |out|
        invariant out == whole[start..given]
      {
        RatePositive();
        var m := if n - |out| < bufLen then n - |out| else bufLen;
        var chunk := Take(m, start + n);
        out := out + chunk;
      }
    }

    /** A state of its own with the same lanes and the same storage. */
    method Copy() returns (dup: State)
      requires Shape()
      ensures dup.Shape() && fresh(dup) && fresh(dup.a) && fresh(dup.storage)
      ensures dup.rate == rate && dup.dsbyte == dsbyte && dup.outputLen == outputLen
      ensures dup.a[..] == a[..] && dup.storage[..] == storage[..]
    {
      hide StateBytes, Absorbing, Squeezing;
      dup := new State(rate, outputLen, dsbyte);
      forall i | 0 <= i < 25 {
        dup.a[i] := a[i];
      }
      forall i | 0 <= i < MAX_RATE {
        dup.storage[i] := storage[i];
      }
    }

    /**
     The output of a squeezing state is copied from as far before the end of the rate as the buffer's
     capacity, which counts from the end of the storage. The two ends are the same only at the largest
     rate: below it the copy gives the last MAX_RATE - rate bytes once more, or fails for want of them.
     */
    method Clone() returns (dup: Basics.Option<State>)
      requires Valid()
      ensures dup.None? <==> squeezing && given % rate + rate < MAX_RATE
      ensures dup.Some? ==> dup.value.Valid() && dup.value.squeezing == squeezing && dup.value.msg == msg
      ensures dup.Some? && squeezing ==> dup.value.given == given - (MAX_RATE - rate)
      ensures dup.Some? ==> fresh(dup.value) && fresh(dup.value.a) && fresh(dup.value.storage)
      ensures dup.Some? ==>
        dup.value.rate == rate && dup.value.dsbyte == dsbyte && dup.value.outputLen == outputLen
    {
      hide StateBytes, Permuted, Absorbing, Absorb, Finished, After;
      var from, length := 0, bufLen;
      if squeezing {
        RestOfLength(given, rate, blocks, bufFrom);
        var capacity := MAX_RATE - bufFrom;
        if rate < capacity {
          return Basics.None;
        }
        from, length := rate - capacity, capacity;
      }
      var d := Copy();
      assert d.storage[..bufLen] == storage[..][..bufLen] && d.storage[..rate] == storage[..][..rate];
      assert storage[..bufLen] == storage[..][..bufLen] && storage[..rate] == storage[..][..rate];
      d.bufFrom, d.bufLen, d.squeezing := from, length, squeezing;
      d.msg, d.blocks := msg, blocks;
      d.given := if squeezing then given - (MAX_RATE - rate) else 0;
      dup := Basics.Some(d);
    }

    /** The digest of what has been written, which may go on being written; or of a copy's further output. */
    method Sum(prefix: seq<Octet>) returns (digest: Basics.Option<seq<Octet>>)
      requires Valid()
      ensures digest.None? <==> squeezing && given % rate + rate < MAX_RATE
      ensures !squeezing ==> digest == Basics.Some(prefix + Hash(Permuted, rate, dsbyte, msg, outputLen))
      ensures digest.Some? && squeezing ==>
        var from := given - (MAX_RATE - rate);
        from >= 0 && digest == Basics.Some(prefix + Hash(Permuted, rate, dsbyte, msg, from + outputLen)[from..])
    {
      hide Valid, Hash;
      var dup := Clone();
      if dup.None? {
        return Basics.None;
      }
      var hash := dup.value.Read(dup.value.outputLen);
      assert hash == hash[0..];
      return Basics.Some(prefix + hash);
    }

    method Reset()
      requires Valid()
      modifies this, a
      ensures Valid() && !squeezing && msg == []
    {
      hide StateBytes, Absorb, Permuted, Squeezing;
      var i := 0;
      while i < 25
        invariant 0 <= i <= 25
        invariant forall j :: 0 <= j < i ==> a[j] == Lane(0)
      {
        a[i] := Lane(0);
        i := i + 1;
      }
      squeezing := false;
      bufFrom, bufLen := 0, 0;
      msg, given, blocks := [], 0, 0;
      ZeroLanes(a[..], rate);
      assert msg[..0] == [] && storage[..0] == [];
    }
  }

  lemma SamePiece(x: seq<Octet>, y: seq<Octet>, n: nat, i: nat, j: nat)
    requires i <= j <= n <= |x| && n <= |y| && x[..n] == y[..n]
    ensures x[i..j] == y[i..j]
  {
    forall k | i <= k < j
      ensures x[k] == y[k]
    {
      assert x[k] == x[..n][k] && y[k] == y[..n][k];
    }
  }

  lemma GivenPiece(rate: nat, ds: Octet, msg: seq<Octet>, given: nat, blocks: nat, st: Octets, from: nat, m: nat,
                   d: nat)
    requires 0 < rate <= 200 && Squeezing(rate, ds, msg, given, blocks, st, from) && from + m <= rate && given + m <= d
    ensures Hash(Permuted, rate, ds, msg, d)[given..given + m] == st[from..from + m]
  {
    hide Permuted, Finished, After, Squeeze;
    var s := Finished(Permuted, rate, ds, msg);
    SqueezePiece(Permuted, rate, s, d, blocks, from, m);
    var z := Hash(Permuted, rate, ds, msg, d);
    assert z[given..given + m] == z[given..][..m];
  }

  lemma PaddingFrom(rate: nat, ds: Octet, length: nat, t: seq<Octet>)
    requires rate > 0 && |t| == rate - length % rate
    requires |t| == 1 ==> t[0] == OctetXor(ds, 0x80)
    requires |t| > 1 ==> t[0] == ds && t[|t| - 1] == OctetXor(0, 0x80) && forall j :: 0 < j < |t| - 1 ==> t[j] == 0
    ensures t == Padding(rate, ds, length)
  {
    assert OctetXor(0, 0x80) == 0x80;
    hide OctetXor;
  }

  lemma AbsorbingRest(rate: nat, msg: seq<Octet>, blocks: nat, st: Octets, buf: seq<Octet>)
    requires 0 < rate <= 200 && Absorbing(rate, msg, blocks, st, buf) && |buf| < rate
    ensures |msg| % rate == |buf|
  {
    RestOfLength(|msg|, rate, blocks, |buf|);
  }

  lemma SqueezingStart(rate: nat, ds: Octet, msg: seq<Octet>)
    requires 0 < rate <= 200
    ensures Squeezing(rate, ds, msg, 0, 0, Finished(Permuted, rate, ds, msg), 0)
  {
    hide Finished, Permuted;
  }

  lemma WholeRate(rate: nat)
    requires rate % 8 == 0
    ensures 8 * (rate / 8) == rate
  {
  }

  lemma WholeWords(b: seq<Octet>)
    requires |b| % 8 == 0
    ensures Whole(b) == b
  {
  }

  lemma PermutedBytes(a: Lanes)
    ensures StateBytes(KeccakF(a)) == Permuted(StateBytes(a))
  {
    hide StateBytes, KeccakF, LanesOf;
    LanesOfBytes(a);
  }

  lemma ZeroLanes(a: Lanes, rate: nat)
    requires 0 < rate <= 200
    requires forall i :: 0 <= i < 25 ==> a[i] == Lane(0)
    ensures StateBytes(a) == Absorb(Permuted, rate, [])
  {
    assert forall k :: 0 <= k < 8 ==> GetByte(Lane(0), k) == 0;
    hide GetByte;
  }

  // ---- whole runs ----

  function Concat(pieces: seq<seq<Octet>>): seq<Octet> {
    if pieces == [] then [] else Concat(pieces[..|pieces| - 1]) + pieces[|pieces| - 1]
  }

  function Total(sizes: seq<nat>): nat {
    if sizes == [] then 0 else Total(sizes[..|sizes| - 1]) + sizes[|sizes| - 1]
  }

  method WriteAll(d: State, pieces: seq<seq<Octet>>)
    requires d.Valid() && !d.squeezing && d.msg == []
    modifies d, d.a, d.storage
    ensures d.Valid() && !d.squeezing && d.msg == Concat(pieces)
  {
    hide State.Valid;
    var i := 0;
    while i < |pieces|
      invariant 0 <= i <= |pieces|
      invariant d.Valid() && !d.squeezing && d.msg == Concat(pieces[..i])
    {
      var _ := d.Write(pieces[i]);
      i := i + 1;
      assert pieces[..i][..i - 1] == pieces[..i - 1];
    }
    assert pieces[..i] == pieces;
  }

  method ReadAll(d: State, sizes: seq<nat>) returns (out: seq<Octet>)
    requires d.Valid() && !d.squeezing && 0 < d.rate <= 200
    modifies d, d.a, d.storage
    ensures d.msg == old(d.msg)
    ensures out == Hash(Permuted, d.rate, d.dsbyte, d.msg, Total(sizes))
  {
    hide State.Valid, Hash;
    out := [];
    var j := 0;
    HashNone(d.rate, d.dsbyte, d.msg);
    while j < |sizes|
      invariant 0 <= j <= |sizes|
      invariant d.Valid() && d.msg == old(d.msg)
      invariant Total(sizes[..j]) == if d.squeezing then d.given else 0
      invariant out == Hash(Permuted, d.rate, d.dsbyte, d.msg, Total(sizes[..j]))
    {
      ghost var before := Total(sizes[..j]);
      var part := d.Read(sizes[j]);
      HashPrefix(d.rate, d.dsbyte, d.msg, before, d.given);
      out := out + part;
      j := j + 1;
      assert sizes[..j][..j - 1] == sizes[..j - 1];
    }
    assert sizes[..j] == sizes;
  }

  /** However a message is cut into writes and its output into reads, the output is the sponge's on the message. */
  method HashInPieces(rate: nat, ds: Octet, pieces: seq<seq<Octet>>, sizes: seq<nat>) returns (out: seq<Octet>)
    requires IsRate(rate)
    ensures out == Hash(Permuted, rate, ds, Concat(pieces), Total(sizes))
  {
    hide State.Valid, Hash;
    var d := new State(rate, 32, ds);
    WriteAll(d, pieces);
    out := ReadAll(d, sizes);
  }

  /** With the rate of Keccak-256, a sum after reading 32 bytes gives these once more, and fails after fewer. */
  method ReadThenSum(ds: Octet, data: seq<Octet>, n: nat) returns (out: seq<Octet>, digest: Basics.Option<seq<Octet>>)
    requires n <= 32
    ensures if n < 32 then digest.None? else digest == Basics.Some(out)
  {
    hide State.Valid, Hash;
    var d := new State(136, 32, ds);
    var _ := d.Write(data);
    out := d.Read(n);
    digest := d.Sum([]);
    assert [] + out == out;
  }

  lemma HashNone(rate: nat, ds: Octet, msg: seq<Octet>)
    requires 0 < rate <= 200
    ensures Hash(Permuted, rate, ds, msg, 0) == []
  {
    hide Permuted, Finished;
  }

  lemma HashPrefix(rate: nat, ds: Octet, msg: seq<Octet>, d: nat, e: nat)
    requires 0 < rate <= 200 && d <= e
    ensures Hash(Permuted, rate, ds, msg, e)[..d] == Hash(Permuted, rate, ds, msg, d)
    ensures Hash(Permuted, rate, ds, msg, d) + Hash(Permuted, rate, ds, msg, e)[d..] == Hash(Permuted, rate, ds, msg, e)
  {
    hide Permuted, Finished, Squeeze;
    SqueezePrefix(Permuted, rate, Finished(Permuted, rate, ds, msg), d, e);
    var z := Hash(Permuted, rate, ds, msg, e);
    assert z[..d] + z[d..] == z;
  }

  // ---- the padding, bit by bit ----

  function BitOf(b: Octet, j: nat): bool
    requires j < 8
  {
    match j
    case 0 => b & 1 != 0
    case 1 => b & 2 != 0
    case 2 => b & 4 != 0
    case 3 => b & 8 != 0
    case 4 => b & 16 != 0
    case 5 => b & 32 != 0
    case 6 => b & 64 != 0
    case _ => b & 128 != 0
  }

  /** Bit i of a byte string: bytes in order, each from its bit of least weight. */
  function StringBit(p: seq<Octet>, i: nat): bool
    requires i < 8 * |p|
  {
    BitOf(p[i / 8], i % 8)
  }

  lemma TopBitSet(b: Octet, j: nat)
    requires j < 8 && !BitOf(b, 7)
    ensures BitOf(OctetXor(b, 0x80), j) == (BitOf(b, j) || j == 7)
  {
  }

  lemma PlainBits(j: nat)
    requires j < 8
    ensures !BitOf(0, j) && BitOf(0x80, j) == (j == 7)
  {
  }

  /**
   With k domain bits in the separator byte, the padding is these k bits, a one, zeros and a one: the
   rule pad10*1 behind the domain bits.
   */
  lemma PaddingIsPad101(rate: nat, ds: Octet, length: nat, k: nat, i: nat)
    requires rate > 0 && k < 7 && BitOf(ds, k) && (forall j :: k < j < 8 ==> !BitOf(ds, j))
    requires i < 8 * |Padding(rate, ds, length)|
    ensures var p := Padding(rate, ds, length);
            StringBit(p, i) == if i < k then BitOf(ds, i) else i == k || i == 8 * |p| - 1
  {
    hide BitOf, OctetXor;
    var p := Padding(rate, ds, length);
    var q, j := i / 8, i % 8;
    assert i == 8 * q + j;
    PlainBits(j);
    TopBitSet(ds, j);
    assert q < |p|;
  }
}
