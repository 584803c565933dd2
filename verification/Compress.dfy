/**
 The sparse compressor (common/bitutil/compress.go): a bitmap of the bytes that are not zero, compressed
 in the same way, followed by these bytes.
 */
module Compress {
  import opened Bytes
  import opened Bits

  datatype Error = MissingData | UnreferencedData | ExceededTarget | ZeroContent
  datatype Decoded = Ok(data: seq<byte>, size: nat) | Err(error: Error)

  function ZeroBytes(n: nat): seq<byte> {
    seq(n, _ => 0)
  }

  // ---- encoding ----

  function NonZero(data: seq<byte>): seq<byte> {
    if data == [] then []
    else
      var n := |data| - 1; NonZero(data[..n]) + if data[n] != 0 then [data[n]] else []
  }

  /** The bitmap of the first n bytes, on the given number of bytes. */
  function Marked(data: seq<byte>, n: nat, len: nat): (v: seq<byte>)
    requires n <= |data| && n <= 8 * len
    ensures |v| == len
  {
    if n == 0 then ZeroBytes(len)
    else
      var v, k := Marked(data, n - 1, len), n - 1;
      if data[k] != 0 then v[k / 8 := WithBit(v[k / 8], 7 - k % 8)] else v
  }

  function Bitmap(data: seq<byte>): (v: seq<byte>)
    ensures |v| == (|data| + 7) / 8
  {
    Marked(data, |data|, (|data| + 7) / 8)
  }

  function Encode(data: seq<byte>): seq<byte>
    decreases |data|
  {
    if |data| == 0 then []
    else if |data| == 1 then if data[0] == 0 then [] else data
    else if NonZero(data) == [] then []
    else Encode(Bitmap(data)) + NonZero(data)
  }

  lemma {:induction false} MarkedBits(data: seq<byte>, n: nat, len: nat)
    requires n <= |data| && n <= 8 * len
    ensures forall k :: 0 <= k < 8 * len ==> (VectorBit(Marked(data, n, len), k) <==> k < n && data[k] != 0)
  {
    hide VectorBit, WithBit;
    if n == 0 {
      NoneSet(ZeroBytes(len));
    } else {
      MarkedBits(data, n - 1, len);
      var v := Marked(data, n - 1, len);
      forall k | 0 <= k < 8 * len
        ensures VectorBit(v[(n - 1) / 8 := WithBit(v[(n - 1) / 8], 7 - (n - 1) % 8)], k)
             <==> VectorBit(v, k) || k == n - 1
      {
        VectorSet(v, n - 1, k);
      }
    }
  }

  /** A bitmap is known by its bits. */
  lemma BitmapIs(data: seq<byte>, v: seq<byte>)
    requires |v| == (|data| + 7) / 8
    requires forall k :: 0 <= k < 8 * |v| ==> (VectorBit(v, k) <==> k < |data| && data[k] != 0)
    ensures v == Bitmap(data)
  {
    hide VectorBit;
    MarkedBits(data, |data|, |v|);
    SameVector(v, Bitmap(data));
  }

  lemma {:induction false} AllZero(data: seq<byte>)
    ensures NonZero(data) == [] <==> data == ZeroBytes(|data|)
  {
    if data != [] {
      var n := |data| - 1;
      AllZero(data[..n]);
      assert data == data[..n] + [data[n]];
      assert ZeroBytes(|data|) == ZeroBytes(n) + [0];
    }
  }

  lemma {:induction false} EncodeZeros(data: seq<byte>)
    ensures Encode(data) == [] <==> data == ZeroBytes(|data|)
  {
    AllZero(data);
  }

  method BitsetEncodeBytes(data: seq<byte>) returns (out: seq<byte>)
    ensures out == Encode(data)
    decreases |data|
  {
    if |data| == 0 {
      return [];
    }
    if |data| == 1 {
      if data[0] == 0 {
        return [];
      }
      return data;
    }
    hide WithBit;
    var nonZeroBitset: seq<byte> := seq((|data| + 7) / 8, _ => 0);
    var nonZeroBytes: seq<byte> := [];
    var i := 0;
    while i < |data|
      invariant 0 <= i <= |data| && |nonZeroBitset| == (|data| + 7) / 8
      invariant nonZeroBitset == Marked(data, i, (|data| + 7) / 8)
      invariant nonZeroBytes == NonZero(data[..i])
    {
      assert data[..i + 1][..i] == data[..i];
      if data[i] != 0 {
        nonZeroBytes := nonZeroBytes + [data[i]];
        nonZeroBitset := nonZeroBitset[i / 8 := WithBit(nonZeroBitset[i / 8], 7 - i % 8)];
      }
      i := i + 1;
    }
    assert data[..i] == data;
    if |nonZeroBytes| == 0 {
      return [];
    }
    var head := BitsetEncodeBytes(nonZeroBitset);
    return head + nonZeroBytes;
  }

  method CompressBytes(data: seq<byte>) returns (out: seq<byte>)
    ensures out == if |Encode(data)| < |data| then Encode(data) else data
  {
    out := BitsetEncodeBytes(data);
    if |out| < |data| {
      return;
    }
    return data;
  }

  // ---- decoding ----

  /** The first i bits of the bitmap, each set one drawing a byte of the data from ptr on. */
  function Fill(v: seq<byte>, target: nat, data: seq<byte>, ptr: nat, i: nat): (r: Decoded)
    requires i <= 8 * |v|
    ensures r.Ok? ==> |r.data| == target
  {
    if i == 0 then Ok(ZeroBytes(target), ptr)
    else
      var r, k := Fill(v, target, data, ptr, i - 1), i - 1;
      if r.Err? || !VectorBit(v, k) then r
      else if r.size >= |data| then Err(MissingData)
      else if k >= target then Err(ExceededTarget)
      else if data[r.size] == 0 then Err(ZeroContent)
      else Ok(r.data[k := data[r.size]], r.size + 1)
  }

  function DecodePartial(data: seq<byte>, target: nat): (r: Decoded)
    ensures r.Ok? ==> |r.data| == target
    decreases target
  {
    if target == 0 then Ok([], 0)
    else if |data| == 0 then Ok(ZeroBytes(target), 0)
    else if target == 1 then Ok([data[0]], if data[0] != 0 then 1 else 0)
    else
      var bits := DecodePartial(data, (target + 7) / 8);
      if bits.Err? then bits else Fill(bits.data, target, data, bits.size, 8 * |bits.data|)
  }

  method BitsetDecodePartialBytes(data: seq<byte>, target: nat) returns (r: Decoded)
    ensures r == DecodePartial(data, target)
    decreases target
  {
    if target == 0 {
      return Ok([], 0);
    }
    var decomp: seq<byte> := seq(target, _ => 0);
    if |data| == 0 {
      return Ok(decomp, 0);
    }
    if target == 1 {
      decomp := [data[0]];
      if data[0] != 0 {
        return Ok(decomp, 1);
      }
      return Ok(decomp, 0);
    }
    var bits := BitsetDecodePartialBytes(data, (target + 7) / 8);
    if bits.Err? {
      return bits;
    }
    r := Distribute(bits.data, target, data, bits.size);
  }

  /** The loop of the decoder: bytes go to the places whose bits are set. */
  method Distribute(nonZeroBitset: seq<byte>, target: nat, data: seq<byte>, from: nat) returns (r: Decoded)
    ensures r == Fill(nonZeroBitset, target, data, from, 8 * |nonZeroBitset|)
  {
    hide VectorBit;
    var decomp: seq<byte> := seq(target, _ => 0);
    var ptr: nat := from;
    var i := 0;
    FillStart(nonZeroBitset, target, data, from);
    hide Fill;
    while i < 8 * |nonZeroBitset|
      invariant 0 <= i <= 8 * |nonZeroBitset| && |decomp| == target
      invariant Fill(nonZeroBitset, target, data, from, i) == Ok(decomp, ptr)
    {
      FillStep(nonZeroBitset, target, data, from, i, decomp, ptr);
      if VectorBit(nonZeroBitset, i) {
        if ptr >= |data| {
          return Err(MissingData);
        }
        if i >= |decomp| {
          return Err(ExceededTarget);
        }
        if data[ptr] == 0 {
          return Err(ZeroContent);
        }
        decomp := decomp[i := data[ptr]];
        ptr := ptr + 1;
      }
      i := i + 1;
    }
    return Ok(decomp, ptr);
  }

  lemma FillStart(v: seq<byte>, target: nat, data: seq<byte>, from: nat)
    ensures Fill(v, target, data, from, 0) == Ok(ZeroBytes(target), from)
  {
  }

  lemma FillStep(v: seq<byte>, target: nat, data: seq<byte>, from: nat, i: nat, decomp: seq<byte>, ptr: nat)
    requires i < 8 * |v| && Fill(v, target, data, from, i) == Ok(decomp, ptr)
    ensures var r := Fill(v, target, data, from, i + 1);
            && (!VectorBit(v, i) ==> r == Ok(decomp, ptr))
            && (VectorBit(v, i) ==>
                  r == if ptr >= |data| then Err(MissingData) else if i >= target then Err(ExceededTarget)
                       else if data[ptr] == 0 then Err(ZeroContent) else Ok(decomp[i := data[ptr]], ptr + 1))
            && (r.Err? ==> Fill(v, target, data, from, 8 * |v|) == r)
  {
    hide VectorBit;
    if Fill(v, target, data, from, i + 1).Err? {
      FillStops(v, target, data, from, i + 1, 8 * |v|);
    }
  }

  lemma {:induction false} FillStops(v: seq<byte>, target: nat, data: seq<byte>, ptr: nat, i: nat, n: nat)
    requires i <= n <= 8 * |v| && Fill(v, target, data, ptr, i).Err?
    ensures Fill(v, target, data, ptr, n) == Fill(v, target, data, ptr, i)
    decreases n
  {
    if i < n {
      FillStops(v, target, data, ptr, i, n - 1);
    }
  }

  function DecodeAll(data: seq<byte>, target: nat): Decoded {
    var r := DecodePartial(data, target);
    if r.Ok? && r.size != |data| then Err(UnreferencedData) else r
  }

  method DecompressBytes(data: seq<byte>, target: nat) returns (r: Decoded)
    ensures r == if |data| > target then Err(ExceededTarget)
                 else if |data| == target then Ok(data, |data|) else DecodeAll(data, target)
  {
    if |data| > target {
      return Err(ExceededTarget);
    }
    if |data| == target {
      return Ok(data, |data|);
    }
    r := BitsetDecodePartialBytes(data, target);
    if r.Ok? && r.size != |data| {
      return Err(UnreferencedData);
    }
  }

  // ---- encoding, then decoding ----

  /** The first m bytes of d, with zeros in place of the others. */
  function Begun(d: seq<byte>, m: nat): (r: seq<byte>)
    requires m <= |d|
    ensures |r| == |d|
  {
    d[..m] + ZeroBytes(|d| - m)
  }

  lemma BegunMore(d: seq<byte>, k: nat)
    requires k < |d|
    ensures Begun(d, k + 1) == Begun(d, k)[k := d[k]]
    ensures d[k] == 0 ==> Begun(d, k + 1) == Begun(d, k)
    ensures Begun(d, 0) == ZeroBytes(|d|) && Begun(d, |d|) == d
  {
  }

  /** The bytes of d stand in the data from `from` on. */
  ghost predicate Holds(data: seq<byte>, from: nat, d: seq<byte>) {
    from + |NonZero(d)| <= |data| && data[from..from + |NonZero(d)|] == NonZero(d)
  }

  lemma FillBackStep(d: seq<byte>, v: seq<byte>, data: seq<byte>, from: nat, k: nat)
    requires k < |d| && k < 8 * |v| && (VectorBit(v, k) <==> d[k] != 0) && Holds(data, from, d)
    requires Fill(v, |d|, data, from, k) == Ok(Begun(d, k), from + |NonZero(d[..k])|)
    ensures Fill(v, |d|, data, from, k + 1) == Ok(Begun(d, k + 1), from + |NonZero(d[..k + 1])|)
  {
    hide VectorBit, Fill, NonZero, Begun, Holds;
    FillStep(v, |d|, data, from, k, Begun(d, k), from + |NonZero(d[..k])|);
    FillPlace(d, data, from, k);
    BegunMore(d, k);
  }

  /** Filling by the bitmap of d from d's own bytes gives d back. */
  lemma {:induction false} FillBack(d: seq<byte>, v: seq<byte>, data: seq<byte>, from: nat, i: nat)
    requires i <= |d| <= 8 * |v| && d != [] && Holds(data, from, d)
    requires forall k :: 0 <= k < 8 * |v| ==> (VectorBit(v, k) <==> k < |d| && d[k] != 0)
    ensures Fill(v, |d|, data, from, i) == Ok(Begun(d, i), from + |NonZero(d[..i])|)
  {
    assert NonZero(d[..0]) == [];
    hide *;
    if i == 0 {
      FillStart(v, |d|, data, from);
      BegunMore(d, 0);
    } else {
      FillBack(d, v, data, from, i - 1);
      FillBackStep(d, v, data, from, i - 1);
    }
  }

  /** Bits that are not set change nothing. */
  lemma {:induction false} FillRest(v: seq<byte>, target: nat, data: seq<byte>, from: nat, i: nat, n: nat)
    requires i <= n <= 8 * |v| && forall k :: i <= k < n ==> !VectorBit(v, k)
    ensures Fill(v, target, data, from, n) == Fill(v, target, data, from, i)
    decreases n
  {
    hide VectorBit;
    if i < n {
      FillRest(v, target, data, from, i, n - 1);
    }
  }

  lemma FillPlace(d: seq<byte>, data: seq<byte>, from: nat, k: nat)
    requires k < |d| && Holds(data, from, d)
    ensures NonZero(d[..k + 1]) == NonZero(d[..k]) + if d[k] != 0 then [d[k]] else []
    ensures d[k] != 0 ==> var p := from + |NonZero(d[..k])|; p < |data| && data[p] == d[k]
  {
    assert d[..k + 1][..k] == d[..k];
    NonZeroPrefix(d, k + 1);
    hide NonZero;
    var p := |NonZero(d[..k])|;
    if d[k] != 0 {
      assert NonZero(d)[p] == NonZero(d[..k + 1])[p] == d[k];
      assert data[from..from + |NonZero(d)|][p] == data[from + p];
    }
  }

  lemma {:induction false} NonZeroPrefix(d: seq<byte>, n: nat)
    requires n <= |d|
    ensures NonZero(d[..n]) <= NonZero(d)
  {
    if n < |d| {
      var f := d[..|d| - 1];
      NonZeroPrefix(f, n);
      assert f[..n] == d[..n];
    } else {
      assert d[..n] == d;
    }
  }

  lemma EncodeLong(d: seq<byte>)
    requires |d| > 1
    ensures NonZero(d) != [] ==> Encode(d) == Encode(Bitmap(d)) + NonZero(d)
    ensures NonZero(d) == [] ==> Encode(d) == []
  {
  }

  lemma DecodeLongIs(data: seq<byte>, target: nat, v: seq<byte>, size: nat)
    requires target > 1 && |data| > 0 && DecodePartial(data, (target + 7) / 8) == Ok(v, size)
    ensures DecodePartial(data, target) == Fill(v, target, data, size, 8 * |v|)
  {
  }

  lemma FillWhole(d: seq<byte>, pre: seq<byte>, tail: seq<byte>)
    requires d != []
    ensures var v := Bitmap(d);
            Fill(v, |d|, pre + NonZero(d) + tail, |pre|, 8 * |v|) == Ok(d, |pre| + |NonZero(d)|)
  {
    var v, data := Bitmap(d), pre + NonZero(d) + tail;
    assert Holds(data, |pre|, d);
    MarkedBits(d, |d|, |v|);
    hide VectorBit, Fill, NonZero, Holds, Begun;
    FillBack(d, v, data, |pre|, |d|);
    FillRest(v, |d|, data, |pre|, |d|, 8 * |v|);
    assert d[..|d|] == d;
    BegunMore(d, 0);
  }

  lemma Regroup(a: seq<byte>, b: seq<byte>, c: seq<byte>)
    ensures a + b + c == a + (b + c)
  {
  }

  lemma DecodeLong(d: seq<byte>, tail: seq<byte>)
    requires |d| > 1 && NonZero(d) != []
    requires var v := Bitmap(d); DecodePartial(Encode(v) + (NonZero(d) + tail), |v|) == Ok(v, |Encode(v)|)
    ensures DecodePartial(Encode(d) + tail, |d|) == Ok(d, |Encode(d)|)
  {
    hide *;
    var v, nz := Bitmap(d), NonZero(d);
    EncodeLong(d);
    Regroup(Encode(v), nz, tail);
    FillWhole(d, Encode(v), tail);
    DecodeLongIs(Encode(d) + tail, |d|, v, |Encode(v)|);
  }

  /** What was encoded from data that is not all zero is decoded from any input that begins with it. */
  lemma {:induction false} DecodeEncoded(d: seq<byte>, tail: seq<byte>)
    requires NonZero(d) != []
    ensures DecodePartial(Encode(d) + tail, |d|) == Ok(d, |Encode(d)|)
    decreases |d|
  {
    if |d| > 1 {
      hide Fill, DecodePartial, Encode;
      BitmapNotZero(d);
      DecodeEncoded(Bitmap(d), NonZero(d) + tail);
      DecodeLong(d, tail);
    }
  }

  /** Compressed data decompresses to what it was, for every input. */
  method RoundTrip(d: seq<byte>) returns (r: Decoded)
    ensures r.Ok? && r.data == d
  {
    var c := CompressBytes(d);
    r := DecompressBytes(c, |d|);
    AllZero(d);
    if |Encode(d)| < |d| && NonZero(d) != [] {
      DecodeEncoded(d, []);
      assert Encode(d) + [] == Encode(d);
    }
  }

  // ---- decoding, then encoding ----

  /** What has been filled in from i bits: bytes that are not zero exactly where bits are set. */
  ghost predicate Filled(v: seq<byte>, target: nat, data: seq<byte>, from: nat, i: nat, out: seq<byte>, size: nat)
    requires i <= 8 * |v|
  {
    && |out| == target && from <= size <= |data|
    && (forall k :: 0 <= k < i && VectorBit(v, k) ==> k < target && out[k] != 0)
    && (forall k :: 0 <= k < target && (k >= i || !VectorBit(v, k)) ==> out[k] == 0)
    && NonZero(out[..if i < target then i else target]) == data[from..size]
  }

  lemma FilledStep(v: seq<byte>, target: nat, data: seq<byte>, from: nat, k: nat, out: seq<byte>, size: nat)
    requires k < 8 * |v| && Filled(v, target, data, from, k, out, size)
    ensures !VectorBit(v, k) ==> Filled(v, target, data, from, k + 1, out, size)
    ensures VectorBit(v, k) && k < target && size < |data| && data[size] != 0 ==>
      Filled(v, target, data, from, k + 1, out[k := data[size]], size + 1)
  {
    hide VectorBit;
    if k < target {
      assert out[..k + 1][..k] == out[..k];
      if size < |data| {
        var out' := out[k := data[size]];
        assert out'[..k + 1][..k] == out[..k];
        assert data[from..size + 1] == data[from..size] + [data[size]];
      }
    }
  }

  lemma {:induction false} FillShape(v: seq<byte>, target: nat, data: seq<byte>, from: nat, i: nat)
    requires i <= 8 * |v| && from <= |data| && Fill(v, target, data, from, i).Ok?
    ensures var r := Fill(v, target, data, from, i); Filled(v, target, data, from, i, r.data, r.size)
  {
    hide VectorBit;
    var r := Fill(v, target, data, from, i);
    if i == 0 {
      assert r.data[..0] == [];
    } else {
      FillShape(v, target, data, from, i - 1);
      var q := Fill(v, target, data, from, i - 1);
      FilledStep(v, target, data, from, i - 1, q.data, q.size);
      hide Filled;
    }
  }

  /** The part of an input that the decoder accepts is the encoding of what it gives. */
  lemma {:induction false} EncodeDecoded(data: seq<byte>, target: nat)
    requires DecodePartial(data, target).Ok?
    ensures var r := DecodePartial(data, target); r.size <= |data| && Encode(r.data) == data[..r.size]
    decreases target
  {
    if target > 0 && |data| == 0 {
      EncodeZeros(ZeroBytes(target));
    } else if target > 1 {
      var v := DecodePartial(data, (target + 7) / 8);
      EncodeDecoded(data, (target + 7) / 8);
      EncodeFilled(data, target, v);
    }
  }

  lemma EncodeFilled(data: seq<byte>, target: nat, bits: Decoded)
    requires target > 1 && bits.Ok? && |bits.data| == (target + 7) / 8
    requires bits.size <= |data| && Encode(bits.data) == data[..bits.size]
    requires Fill(bits.data, target, data, bits.size, 8 * |bits.data|).Ok?
    ensures var r := Fill(bits.data, target, data, bits.size, 8 * |bits.data|);
            r.size <= |data| && Encode(r.data) == data[..r.size]
  {
    hide VectorBit, Fill, Encode, NonZero, Bitmap;
    var v := bits.data;
    FillShape(v, target, data, bits.size, 8 * |v|);
    var r := Fill(v, target, data, bits.size, 8 * |v|);
    assert r.data[..target] == r.data;
    BitmapIs(r.data, v);
    EncodeLong(r.data);
    assert data[..r.size] == data[..bits.size] + data[bits.size..r.size];
    if NonZero(r.data) == [] {
      NothingSet(r.data);
      EncodeZeros(v);
    }
  }

  lemma NothingSet(data: seq<byte>)
    requires NonZero(data) == []
    ensures Bitmap(data) == ZeroBytes((|data| + 7) / 8)
  {
    hide VectorBit;
    AllZero(data);
    var z := ZeroBytes((|data| + 7) / 8);
    NoneSet(z);
    BitmapIs(data, z);
  }

  /** Whatever the decoder accepts as a whole, encoding its output gives back byte for byte. */
  lemma AcceptedIsCanonical(data: seq<byte>, target: nat)
    requires DecodeAll(data, target).Ok?
    ensures Encode(DecodeAll(data, target).data) == data
  {
    EncodeDecoded(data, target);
    assert data[..|data|] == data;
  }

  lemma BitmapNotZero(d: seq<byte>)
    requires NonZero(d) != []
    ensures NonZero(Bitmap(d)) != []
  {
    hide VectorBit;
    var v := Bitmap(d);
    MarkedBits(d, |d|, |v|);
    AllZero(d);
    AllZero(v);
    if v == ZeroBytes(|v|) {
      NoneSet(v);
      assert forall k :: 0 <= k < |d| ==> !VectorBit(v, k) && d[k] == 0;
    }
  }
}
