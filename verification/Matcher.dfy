/**
 Filtering a range of blocks by the rotated index (common/bloombits/matcher.go): section by section,
 one sub-matcher per filter rule, and the blocks whose bits remain. The pipeline keeps the order of
 sections; how their vectors are fetched is the distributor's business.
 */
module Matcher {
  import opened Basics
  import opened Bytes
  import opened Bits
  import opened Bloom

  /** A rule: a block must pass one of the clauses; a nil clause or no clause at all lets everything pass. */
  type Rule = seq<Option<Digest>>

  predicate Skipped(rule: Rule) {
    rule == [] || None in rule
  }

  /** The direct test of a block's filter against the rules. */
  ghost predicate Matches(bloom: Filter, rules: seq<Rule>) {
    forall r :: r in rules ==> Skipped(r) || exists c :: c in r && c.Some? && BloomLookup(bloom, c.value)
  }

  // ---- the rules as bit indexes ----

  type Triple = r: seq<nat> | |r| == 3 && forall j :: 0 <= j < 3 ==> r[j] < BLOOM_BITS witness [0, 0, 0]

  ghost predicate PassesOne(bloom: Filter, clauses: seq<Triple>) {
    exists i :: 0 <= i < |clauses| && ThreeBits(bloom, clauses[i])
  }

  ghost predicate PassesAll(bloom: Filter, filters: seq<seq<Triple>>) {
    forall i :: 0 <= i < |filters| ==> PassesOne(bloom, filters[i])
  }

  method RuleIndexes(rule: Rule) returns (bits: Option<seq<Triple>>)
    ensures bits.None? <==> Skipped(rule)
    ensures bits.Some? ==> forall bloom ::
      PassesOne(bloom, bits.value) <==> exists c :: c in rule && c.Some? && BloomLookup(bloom, c.value)
  {
    if |rule| == 0 {
      return None;
    }
    var bloomBits: seq<Triple> := [];
    var i := 0;
    while i < |rule|
      invariant 0 <= i <= |rule| && |bloomBits| == i
      invariant forall j :: 0 <= j < i ==> rule[j].Some? && bloomBits[j] == CalcBloomIndexes(rule[j].value)
    {
      if rule[i].None? {
        return None;
      }
      bloomBits := bloomBits + [CalcBloomIndexes(rule[i].value)];
      i := i + 1;
    }
    forall bloom: Filter
      ensures PassesOne(bloom, bloomBits) <==> exists c :: c in rule && c.Some? && BloomLookup(bloom, c.value)
    {
      RulePasses(bloom, rule, bloomBits);
    }
    return Some(bloomBits);
  }

  lemma RulePasses(bloom: Filter, rule: Rule, bits: seq<Triple>)
    requires |bits| == |rule| && forall j :: 0 <= j < |rule| ==>
      rule[j].Some? && bits[j] == CalcBloomIndexes(rule[j].value)
    ensures PassesOne(bloom, bits) <==> exists c :: c in rule && c.Some? && BloomLookup(bloom, c.value)
  {
    hide BloomLookup, ThreeBits, CalcBloomIndexes;
    forall j | 0 <= j < |rule|
      ensures ThreeBits(bloom, bits[j]) <==> BloomLookup(bloom, rule[j].value)
    {
      LookupIsThreeBits(bloom, rule[j].value);
    }
    if PassesOne(bloom, bits) {
      var j :| 0 <= j < |bits| && ThreeBits(bloom, bits[j]);
      assert rule[j] in rule && BloomLookup(bloom, rule[j].value);
    }
    if c :| c in rule && c.Some? && BloomLookup(bloom, c.value) {
      var j :| 0 <= j < |rule| && rule[j] == c;
      assert ThreeBits(bloom, bits[j]);
    }
  }

  /** NewMatcher: the index triples of the rules that count. */
  method NewMatcher(rules: seq<Rule>) returns (filters: seq<seq<Triple>>)
    ensures forall bloom :: PassesAll(bloom, filters) <==> Matches(bloom, rules)
  {
    filters := [];
    var i := 0;
    while i < |rules|
      invariant 0 <= i <= |rules|
      invariant forall bloom :: PassesAll(bloom, filters) <==> Matches(bloom, rules[..i])
    {
      var bits := RuleIndexes(rules[i]);
      ghost var was := filters;
      if bits.Some? {
        filters := filters + [bits.value];
      }
      forall bloom: Filter
        ensures PassesAll(bloom, filters) <==> Matches(bloom, rules[..i + 1])
      {
        MatchesMore(bloom, rules, i, was, filters, bits);
      }
      i := i + 1;
    }
    assert rules[..i] == rules;
  }

  lemma MatchesMore(bloom: Filter, rules: seq<Rule>, i: nat, was: seq<seq<Triple>>, filters: seq<seq<Triple>>,
                    bits: Option<seq<Triple>>)
    requires i < |rules| && (PassesAll(bloom, was) <==> Matches(bloom, rules[..i]))
    requires bits.None? <==> Skipped(rules[i])
    requires bits.Some? ==> (PassesOne(bloom, bits.value)
                             <==> exists c :: c in rules[i] && c.Some? && BloomLookup(bloom, c.value))
    requires filters == was + if bits.Some? then [bits.value] else []
    ensures PassesAll(bloom, filters) <==> Matches(bloom, rules[..i + 1])
  {
    hide PassesOne, BloomLookup, Skipped;
    assert rules[..i + 1] == rules[..i] + [rules[i]];
    assert forall j :: 0 <= j < |was| ==> filters[j] == was[j];
    assert bits.Some? ==> filters[|was|] == bits.value;
    assert PassesAll(bloom, filters) <==> PassesAll(bloom, was) && (bits.Some? ==> PassesOne(bloom, bits.value));
    assert Matches(bloom, rules[..i + 1]) <==>
      Matches(bloom, rules[..i]) &&
        (Skipped(rules[i]) || exists c :: c in rules[i] && c.Some? && BloomLookup(bloom, c.value));
  }

  // ---- vectors of blocks ----

  lemma AndIsByte(x: byte, y: byte)
    ensures 0 <= And(x, y) < 256
  {
    AndBelow(x, y);
  }

  lemma OrIsByte(x: byte, y: byte)
    ensures 0 <= Or(x, y) < 256
  {
    assert Pow2(8) == 256;
    OrBelow(x, y, 8);
  }

  method AndBytes(a: seq<byte>, b: seq<byte>) returns (r: seq<byte>)
    requires |a| == |b|
    ensures |r| == |a| && forall k :: 0 <= k < 8 * |a| ==> (VectorBit(r, k) <==> VectorBit(a, k) && VectorBit(b, k))
  {
    hide And;
    r := [];
    var i := 0;
    while i < |a|
      invariant 0 <= i <= |a| && |r| == i
      invariant forall j :: 0 <= j < i ==> r[j] == And(a[j], b[j])
    {
      AndIsByte(a[i], b[i]);
      r := r + [And(a[i], b[i])];
      i := i + 1;
    }
    forall k | 0 <= k < 8 * |a|
      ensures VectorBit(r, k) <==> VectorBit(a, k) && VectorBit(b, k)
    {
      BitAnd(a[k / 8], b[k / 8], 7 - k % 8);
    }
  }

  method OrBytes(a: seq<byte>, b: seq<byte>) returns (r: seq<byte>)
    requires |a| == |b|
    ensures |r| == |a| && forall k :: 0 <= k < 8 * |a| ==> (VectorBit(r, k) <==> VectorBit(a, k) || VectorBit(b, k))
  {
    hide Or;
    r := [];
    var i := 0;
    while i < |a|
      invariant 0 <= i <= |a| && |r| == i
      invariant forall j :: 0 <= j < i ==> r[j] == Or(a[j], b[j])
    {
      OrIsByte(a[i], b[i]);
      r := r + [Or(a[i], b[i])];
      i := i + 1;
    }
    forall k | 0 <= k < 8 * |a|
      ensures VectorBit(r, k) <==> VectorBit(a, k) || VectorBit(b, k)
    {
      BitOr(a[k / 8], b[k / 8], 7 - k % 8);
    }
  }

  /** Whether any bit of a vector is set. */
  method TestBytes(v: seq<byte>) returns (any: bool)
    ensures !any ==> forall k :: 0 <= k < 8 * |v| ==> !VectorBit(v, k)
    ensures any ==> exists k :: 0 <= k < 8 * |v| && VectorBit(v, k)
  {
    var i := 0;
    while i < |v|
      invariant 0 <= i <= |v|
      invariant forall j :: 0 <= j < i ==> v[j] == 0
    {
      if v[i] != 0 {
        SetSomewhere(v, i);
        return true;
      }
      i := i + 1;
    }
    forall k | 0 <= k < 8 * |v|
      ensures !VectorBit(v, k)
    {
      NoBits(7 - k % 8);
    }
    return false;
  }

  lemma SetSomewhere(v: seq<byte>, i: nat)
    requires i < |v| && v[i] != 0
    ensures exists k :: 8 * i <= k < 8 * i + 8 && VectorBit(v, k)
  {
    assert Pow2(8) == 256;
    var t := FirstBit(v[i], 8);
    var k := 8 * i + 7 - t;
    assert k / 8 == i && 7 - k % 8 == t;
    assert VectorBit(v, k);
  }

  // ---- one section ----

  /** The filter of block k of a section. */
  ghost function FilterAt(blooms: nat -> Filter, start: nat, k: nat): Filter {
    blooms(start + k)
  }

  /** The vectors of one section, one per filter bit, are the rotation of its blocks' filters. */
  ghost predicate Indexed(data: nat -> seq<byte>, blooms: nat -> Filter, start: nat, bytes: nat) {
    forall bit :: 0 <= bit < BLOOM_BITS ==> IndexedBit(data(bit), blooms, start, bytes, bit)
  }

  ghost predicate IndexedBit(v: seq<byte>, blooms: nat -> Filter, start: nat, bytes: nat, bit: nat)
    requires bit < BLOOM_BITS
  {
    |v| == bytes && forall k :: 0 <= k < 8 * bytes ==> (VectorBit(v, k) <==> FilterBit(FilterAt(blooms, start, k), bit))
  }

  method Clause(data: nat -> seq<byte>, ghost blooms: nat -> Filter, ghost start: nat, bytes: nat, bits: Triple)
    returns (andVector: seq<byte>)
    requires Indexed(data, blooms, start, bytes)
    ensures |andVector| == bytes
    ensures forall k :: 0 <= k < 8 * bytes ==>
      (VectorBit(andVector, k) <==> ThreeBits(FilterAt(blooms, start, k), bits))
  {
    hide VectorBit, FilterBit;
    assert IndexedBit(data(bits[0]), blooms, start, bytes, bits[0]);
    assert IndexedBit(data(bits[1]), blooms, start, bytes, bits[1]);
    assert IndexedBit(data(bits[2]), blooms, start, bytes, bits[2]);
    andVector := data(bits[0]);
    andVector := AndBytes(andVector, data(bits[1]));
    andVector := AndBytes(andVector, data(bits[2]));
  }

  /** One sub-matcher: a block stays if it was in and one clause has all its three bits. */
  method SubMatch(data: nat -> seq<byte>, ghost blooms: nat -> Filter, ghost start: nat, bytes: nat,
                  clauses: seq<Triple>, bitset: seq<byte>)
    returns (orVector: seq<byte>)
    requires Indexed(data, blooms, start, bytes) && |bitset| == bytes
    ensures |orVector| == bytes
    ensures forall k :: 0 <= k < 8 * bytes ==>
      (VectorBit(orVector, k) <==> VectorBit(bitset, k) && PassesOne(FilterAt(blooms, start, k), clauses))
  {
    hide VectorBit, ThreeBits, Indexed;
    orVector := seq(bytes, _ => 0);
    NoneSet(orVector);
    var i := 0;
    while i < |clauses|
      invariant 0 <= i <= |clauses| && |orVector| == bytes
      invariant forall k :: 0 <= k < 8 * bytes ==>
        (VectorBit(orVector, k) <==> exists j :: 0 <= j < i && ThreeBits(FilterAt(blooms, start, k), clauses[j]))
    {
      var andVector := Clause(data, blooms, start, bytes, clauses[i]);
      if i == 0 {
        orVector := andVector;
      } else {
        orVector := OrBytes(orVector, andVector);
      }
      i := i + 1;
    }
    orVector := AndBytes(orVector, bitset);
  }

  /** The chain of sub-matchers; a section with no block left is dropped. */
  method FilterSection(data: nat -> seq<byte>, ghost blooms: nat -> Filter, ghost start: nat, bytes: nat,
                       filters: seq<seq<Triple>>)
    returns (dropped: bool, bitset: seq<byte>)
    requires Indexed(data, blooms, start, bytes)
    ensures |bitset| == bytes
    ensures dropped ==> forall k :: 0 <= k < 8 * bytes ==> !PassesAll(FilterAt(blooms, start, k), filters)
    ensures !dropped ==> forall k :: 0 <= k < 8 * bytes ==>
      (VectorBit(bitset, k) <==> PassesAll(FilterAt(blooms, start, k), filters))
    ensures !dropped && bytes > 0 ==> exists k :: 0 <= k < 8 * bytes && VectorBit(bitset, k)
  {
    hide VectorBit, PassesOne, Indexed;
    bitset := seq(bytes, _ => 0xFF);
    AllSet(bitset);
    assert bytes > 0 ==> VectorBit(bitset, 0);
    var i := 0;
    while i < |filters|
      invariant 0 <= i <= |filters| && |bitset| == bytes
      invariant forall k :: 0 <= k < 8 * bytes ==>
        (VectorBit(bitset, k) <==> PassesAll(FilterAt(blooms, start, k), filters[..i]))
      invariant bytes > 0 ==> exists k :: 0 <= k < 8 * bytes && VectorBit(bitset, k)
    {
      bitset := SubMatch(data, blooms, start, bytes, filters[i], bitset);
      Longer(blooms, start, bytes, filters, i);
      i := i + 1;
      var any := TestBytes(bitset);
      if !any {
        Cut(blooms, start, bytes, filters, i);
        return true, bitset;
      }
    }
    assert filters[..i] == filters;
    return false, bitset;
  }

  lemma AllSet(v: seq<byte>)
    requires forall j :: 0 <= j < |v| ==> v[j] == 0xFF
    ensures forall k :: 0 <= k < 8 * |v| ==> VectorBit(v, k)
  {
    forall t | 0 <= t < 8
      ensures Bit(0xFF, t)
    {
      assert Bit(0xFF, 0) && Bit(0xFF, 1) && Bit(0xFF, 2) && Bit(0xFF, 3);
      assert Bit(0xFF, 4) && Bit(0xFF, 5) && Bit(0xFF, 6) && Bit(0xFF, 7);
    }
  }

  lemma Longer(blooms: nat -> Filter, start: nat, bytes: nat, filters: seq<seq<Triple>>, i: nat)
    requires i < |filters|
    ensures forall k :: 0 <= k < 8 * bytes ==>
      (PassesAll(FilterAt(blooms, start, k), filters[..i + 1]) <==>
       PassesAll(FilterAt(blooms, start, k), filters[..i]) && PassesOne(FilterAt(blooms, start, k), filters[i]))
  {
    hide PassesOne;
    forall k | 0 <= k < 8 * bytes
      ensures PassesAll(FilterAt(blooms, start, k), filters[..i + 1]) <==>
              PassesAll(FilterAt(blooms, start, k), filters[..i]) && PassesOne(FilterAt(blooms, start, k), filters[i])
    {
      var a, b := filters[..i], filters[..i + 1];
      assert forall j :: 0 <= j < i ==> a[j] == b[j] && b[i] == filters[i];
      assert b[i] == filters[i];
    }
  }

  lemma Cut(blooms: nat -> Filter, start: nat, bytes: nat, filters: seq<seq<Triple>>, i: nat)
    requires i <= |filters| && forall k :: 0 <= k < 8 * bytes ==> !PassesAll(FilterAt(blooms, start, k), filters[..i])
    ensures forall k :: 0 <= k < 8 * bytes ==> !PassesAll(FilterAt(blooms, start, k), filters)
  {
    hide PassesOne;
    forall k | 0 <= k < 8 * bytes
      ensures !PassesAll(FilterAt(blooms, start, k), filters)
    {
      assert forall j :: 0 <= j < i ==> filters[..i][j] == filters[j];
      assert !PassesAll(FilterAt(blooms, start, k), filters[..i]);
    }
  }

  // ---- the blocks of a range ----

  /** The numbers from lo up to, and without, hi that satisfy p, ascending. */
  ghost function Select(p: nat -> bool, lo: nat, hi: nat): seq<nat>
    decreases hi
  {
    if hi <= lo then [] else Select(p, lo, hi - 1) + if p(hi - 1) then [hi - 1] else []
  }

  lemma {:induction false} SelectSame(p: nat -> bool, q: nat -> bool, lo: nat, hi: nat)
    requires forall b :: lo <= b < hi ==> p(b) == q(b)
    ensures Select(p, lo, hi) == Select(q, lo, hi)
    decreases hi
  {
    if hi > lo {
      SelectSame(p, q, lo, hi - 1);
    }
  }

  lemma {:induction false} SelectNone(p: nat -> bool, lo: nat, hi: nat)
    requires forall b :: lo <= b < hi ==> !p(b)
    ensures Select(p, lo, hi) == []
    decreases hi
  {
    if hi > lo {
      SelectNone(p, lo, hi - 1);
    }
  }

  lemma {:induction false} SelectSplit(p: nat -> bool, lo: nat, mid: nat, hi: nat)
    requires lo <= mid <= hi
    ensures Select(p, lo, hi) == Select(p, lo, mid) + Select(p, mid, hi)
    decreases hi
  {
    if hi > mid {
      SelectSplit(p, lo, mid, hi - 1);
    }
  }

  /** Ascending, each once, and exactly those that satisfy p. */
  lemma {:induction false} SelectIs(p: nat -> bool, lo: nat, hi: nat)
    ensures forall b :: b in Select(p, lo, hi) <==> lo <= b < hi && p(b)
    ensures forall i, j :: 0 <= i < j < |Select(p, lo, hi)| ==> Select(p, lo, hi)[i] < Select(p, lo, hi)[j]
    decreases hi
  {
    if hi > lo {
      SelectIs(p, lo, hi - 1);
      var s := Select(p, lo, hi - 1);
      assert forall i :: 0 <= i < |s| ==> s[i] in s;
    }
  }

  predicate Hit(bitset: seq<byte>, start: nat, b: nat) {
    start <= b < start + 8 * |bitset| && VectorBit(bitset, b - start)
  }

  function Max(a: nat, b: nat): nat {
    if a < b then b else a
  }

  function Min(a: nat, b: nat): nat {
    if a < b then a else b
  }

  lemma InByte(bitset: seq<byte>, start: nat, i: nat)
    requires start % 8 == 0 && start <= i < start + 8 * |bitset|
    ensures (i - start) / 8 < |bitset|
    ensures Hit(bitset, start, i) <==> Bit(bitset[(i - start) / 8], 7 - i % 8)
    ensures bitset[(i - start) / 8] == 0 ==> !Hit(bitset, start, i)
  {
    var k := i - start;
    assert start == 8 * (start / 8);
    assert k % 8 == i % 8;
    NoBits(7 - i % 8);
  }

  lemma EmptyByte(bitset: seq<byte>, start: nat, i: nat)
    requires start % 8 == 0 && i % 8 == 0 && start <= i < start + 8 * |bitset| && bitset[(i - start) / 8] == 0
    ensures forall b :: i <= b < i + 8 && b < start + 8 * |bitset| ==> !Hit(bitset, start, b)
  {
    forall b | i <= b < i + 8 && b < start + 8 * |bitset|
      ensures !Hit(bitset, start, b)
    {
      assert (b - start) / 8 == (i - start) / 8 by {
        assert i == 8 * (i / 8) && start == 8 * (start / 8);
      }
      InByte(bitset, start, b);
    }
  }

  /** Block numbers are 64-bit unsigned integers, whose sums wrap around. */
  const LIMIT: nat := 0x1_0000_0000_0000_0000

  function Wrap(n: nat): (r: nat)
    ensures r < LIMIT && (n < LIMIT ==> r == n)
  {
    n % LIMIT
  }

  /**
   Whether the loop over the blocks first..last of a section ends: it steps past the largest number when
   it comes to it, or when it skips the whole last byte below it.
   */
  predicate Ends(bitset: seq<byte>, first: nat, last: nat)
    requires bitset != []
  {
    || first > last
    || last < LIMIT - 8
    || (last < LIMIT - 1 && (bitset[|bitset| - 1] != 0 || first > LIMIT - 8))
  }

  /** A section that reaches up to the largest number, with nothing in its last byte. */
  lemma EndsNeedsRoom()
    ensures !Ends([0], LIMIT - 8, LIMIT - 8) && Ends([1], LIMIT - 8, LIMIT - 8) && !Ends([1], LIMIT - 8, LIMIT - 1)
  {
  }

  /** The place of a block in the section's vector; a number below the section is far beyond it. */
  lemma ByteIndex(bitset: seq<byte>, start: nat, i: nat)
    requires start % 8 == 0 && start + 8 * |bitset| <= LIMIT && i < LIMIT
    ensures start <= i < start + 8 * |bitset| ==> Wrap(i + LIMIT - start) / 8 == (i - start) / 8 < |bitset|
    ensures i == 0 < start && start + 8 * |bitset| == LIMIT ==> Wrap(i + LIMIT - start) / 8 == |bitset|
  {
    if start <= i {
      assert i + LIMIT - start == LIMIT + (i - start);
    }
  }

  /** Where the loop goes when the byte of block i is empty: to the next byte, or one block on. */
  function SkipTo(i: nat): nat {
    if i % 8 == 0 then i + 8 else i + 1
  }

  /** Having gone over the start of the last byte below the largest number, the loop found something in it. */
  predicate Clear(bitset: seq<byte>, first: nat, last: nat, i: nat)
    requires bitset != []
  {
    first <= LIMIT - 8 < i && LIMIT - 8 <= last ==> bitset[|bitset| - 1] != 0
  }

  lemma SkippingNone(bitset: seq<byte>, start: nat, last: nat, i: nat)
    requires start % 8 == 0 && start <= i <= last < start + 8 * |bitset| && bitset[(i - start) / 8] == 0
    ensures Select((b: nat) => Hit(bitset, start, b), i, Min(SkipTo(i), last + 1)) == []
  {
    InByte(bitset, start, i);
    if i % 8 == 0 {
      EmptyByte(bitset, start, i);
    }
    hide Hit, Select;
    SelectNone((b: nat) => Hit(bitset, start, b), i, Min(SkipTo(i), last + 1));
  }

  lemma Skipping(bitset: seq<byte>, start: nat, first: nat, last: nat, i: nat)
    requires bitset != [] && start % 8 == 0 && start + 8 * |bitset| <= LIMIT && last < start + 8 * |bitset|
    requires start <= first <= i <= last && bitset[(i - start) / 8] == 0 && Clear(bitset, first, last, i)
    ensures SkipTo(i) > i && Wrap(SkipTo(i)) == (if SkipTo(i) >= LIMIT then 0 else SkipTo(i))
    ensures SkipTo(i) >= LIMIT ==> !Ends(bitset, first, last) && start + 8 * |bitset| == LIMIT
    ensures SkipTo(i) < LIMIT ==> Clear(bitset, first, last, SkipTo(i))
  {
    if SkipTo(i) > LIMIT - 8 {
      LastBytes(bitset, start, i);
    }
  }

  lemma Stepping(bitset: seq<byte>, start: nat, first: nat, last: nat, i: nat)
    requires bitset != [] && start % 8 == 0 && start + 8 * |bitset| <= LIMIT && last < start + 8 * |bitset|
    requires start <= first <= i <= last && bitset[(i - start) / 8] != 0 && Clear(bitset, first, last, i)
    ensures Wrap(i + 1) == (if i + 1 >= LIMIT then 0 else i + 1)
    ensures i + 1 >= LIMIT ==> !Ends(bitset, first, last) && start + 8 * |bitset| == LIMIT
    ensures i + 1 < LIMIT ==> Clear(bitset, first, last, i + 1)
  {
    if i >= LIMIT - 8 {
      LastBytes(bitset, start, i);
    }
  }

  /** A section with blocks among the last eight numbers ends there. */
  lemma LastBytes(bitset: seq<byte>, start: nat, i: nat)
    requires start % 8 == 0 && start + 8 * |bitset| <= LIMIT && start <= i < start + 8 * |bitset| &&
             SkipTo(i) > LIMIT - 8
    ensures i >= LIMIT - 8 && start + 8 * |bitset| == LIMIT && (i - start) / 8 == |bitset| - 1
  {
  }

  lemma ClearStart(bitset: seq<byte>, first: nat, last: nat)
    requires bitset != []
    ensures Clear(bitset, first, last, first)
  {
  }

  lemma ClearEnd(bitset: seq<byte>, first: nat, last: nat, i: nat)
    requires bitset != [] && Clear(bitset, first, last, i) && last < i < LIMIT
    ensures Ends(bitset, first, last)
  {
  }

  lemma SelectEmpty(p: nat -> bool, lo: nat, hi: nat)
    ensures Select(p, lo, Max(lo, hi)) == Select(p, lo, hi)
    ensures Select(p, lo, lo) == []
  {
  }

  lemma SelectOne(p: nat -> bool, lo: nat, i: nat)
    requires lo <= i
    ensures Select(p, lo, i + 1) == Select(p, lo, i) + if p(i) then [i] else []
  {
  }

  lemma Skips(i: nat)
    requires i < LIMIT
    ensures Wrap((if i % 8 == 0 then Wrap(i + 7) else i) + 1) == Wrap(SkipTo(i))
  {
  }

  /** The loop has come to block i with the matches before it. */
  ghost predicate Reached(bitset: seq<byte>, start: nat, first: nat, last: nat, i: nat, results: seq<nat>)
    requires bitset != []
  {
    && first <= i && Clear(bitset, first, last, i)
    && results == Select((b: nat) => Hit(bitset, start, b), first, Max(first, Min(i, last + 1)))
  }

  /** The loop has stepped over the largest number and begins again at 0, below the section. */
  ghost predicate Over(bitset: seq<byte>, start: nat, first: nat, last: nat, i: nat)
    requires bitset != []
  {
    i == 0 < start && start + 8 * |bitset| == LIMIT && !Ends(bitset, first, last)
  }

  lemma SkippedOn(bitset: seq<byte>, start: nat, first: nat, last: nat, i: nat, results: seq<nat>)
    requires bitset != [] && start % 8 == 0 && start + 8 * |bitset| <= LIMIT && 8 * |bitset| < LIMIT
    requires start <= first <= i <= last < start + 8 * |bitset| && bitset[(i - start) / 8] == 0
    requires Reached(bitset, start, first, last, i, results)
    ensures Over(bitset, start, first, last, Wrap(SkipTo(i)))
         || (Wrap(SkipTo(i)) > i && Reached(bitset, start, first, last, Wrap(SkipTo(i)), results))
  {
    hide Hit, Select, Wrap, SkipTo, Clear, Ends;
    var p := (b: nat) => Hit(bitset, start, b);
    Skipping(bitset, start, first, last, i);
    SkippingNone(bitset, start, last, i);
    SelectSplit(p, first, i, Min(SkipTo(i), last + 1));
  }

  lemma SteppedOn(bitset: seq<byte>, start: nat, first: nat, last: nat, i: nat, results: seq<nat>)
    requires bitset != [] && start % 8 == 0 && start + 8 * |bitset| <= LIMIT && 8 * |bitset| < LIMIT
    requires start <= first <= i <= last < start + 8 * |bitset| && bitset[(i - start) / 8] != 0
    requires Reached(bitset, start, first, last, i, results)
    ensures var more := if Hit(bitset, start, i) then results + [i] else results;
            || Over(bitset, start, first, last, Wrap(i + 1))
            || (Wrap(i + 1) > i && Reached(bitset, start, first, last, Wrap(i + 1), more))
  {
    hide Hit, Select, Wrap, Clear, Ends;
    Stepping(bitset, start, first, last, i);
    SelectOne((b: nat) => Hit(bitset, start, b), first, i);
  }

  /** One turn of the loop, on a block of the section. */
  method Visit(bitset: seq<byte>, start: nat, ghost first: nat, ghost last: nat, i0: nat, next: byte, found: seq<nat>)
    returns (i: nat, results: seq<nat>)
    requires bitset != [] && start % 8 == 0 && start + 8 * |bitset| <= LIMIT && 8 * |bitset| < LIMIT
    requires start <= first <= i0 <= last < start + 8 * |bitset| && next == bitset[(i0 - start) / 8]
    requires Reached(bitset, start, first, last, i0, found)
    ensures i < LIMIT
    ensures Over(bitset, start, first, last, i) || (i > i0 && Reached(bitset, start, first, last, i, results))
  {
    hide Hit, Wrap, SkipTo, Reached, Over, Bit;
    i, results := i0, found;
    if next == 0 {
      SkippedOn(bitset, start, first, last, i, results);
      Skips(i);
      if i % 8 == 0 {
        i := Wrap(i + 7);
      }
      i := Wrap(i + 1);
      return;
    }
    SteppedOn(bitset, start, first, last, i, results);
    InByte(bitset, start, i);
    if Bit(next, 7 - i % 8) {
      results := results + [i];
    }
    i := Wrap(i + 1);
  }

  lemma ReachedFirst(bitset: seq<byte>, start: nat, first: nat, last: nat)
    requires bitset != []
    ensures Reached(bitset, start, first, last, first, [])
  {
    hide Hit;
    ClearStart(bitset, first, last);
    SelectEmpty((b: nat) => Hit(bitset, start, b), first, last + 1);
  }

  lemma ReachedLast(bitset: seq<byte>, start: nat, first: nat, last: nat, i: nat, results: seq<nat>)
    requires bitset != [] && Reached(bitset, start, first, last, i, results) && last < i < LIMIT
    ensures Ends(bitset, first, last) && results == Select((b: nat) => Hit(bitset, start, b), first, last + 1)
  {
    hide Hit, Select, Ends, Clear;
    ClearEnd(bitset, first, last, i);
    SelectEmpty((b: nat) => Hit(bitset, start, b), first, last + 1);
  }

  /** Where the blocks of a section within a range end: a section that goes beyond 2^64 gives none. */
  function Reach(start: nat, size: nat, end: nat): nat {
    if start + size > LIMIT then start else Min(end + 1, start + size)
  }

  /**
   The matching blocks of a section within the range; bytes without a match are skipped whole. The loop
   ends, and then has found them all, exactly when it does not step over the largest number; otherwise it
   reads past the section's vector. A section that goes beyond the largest number has its last block
   wrapped around to below the first.
   */
  method Emit(bitset: seq<byte>, start: nat, begin: nat, end: nat) returns (ok: bool, results: seq<nat>)
    requires bitset != [] && start % 8 == 0 && start < LIMIT && 8 * |bitset| < LIMIT
    requires begin < LIMIT && end < LIMIT
    ensures ok == (start + 8 * |bitset| > LIMIT || Ends(bitset, Max(begin, start), Min(end, start + 8 * |bitset| - 1)))
    ensures ok ==>
      results == Select((b: nat) => Hit(bitset, start, b), Max(begin, start), Reach(start, 8 * |bitset|, end))
  {
    hide Hit, Select, Wrap, Ends, Reached;
    var first := start;
    if begin > first {
      first := begin;
    }
    LastBlock(start, 8 * |bitset|);
    var last := Wrap(start + 8 * |bitset| - 1);
    if end < last {
      last := end;
    }
    var i: nat := first;
    results := [];
    ghost var over := false;
    ReachedFirst(bitset, start, first, last);
    while i <= last
      invariant i < LIMIT && (over ==> Over(bitset, start, first, last, i))
      invariant !over ==> i >= first && Reached(bitset, start, first, last, i, results)
      invariant start + 8 * |bitset| > LIMIT ==> i == first && results == []
      decreases if over then 0 else LIMIT + 1 - i
    {
      ByteIndex(bitset, start, i);
      var idx := Wrap(i + LIMIT - start) / 8;
      if idx >= |bitset| {
        return false, results;
      }
      i, results := Visit(bitset, start, first, last, i, bitset[idx], results);
      over := Over(bitset, start, first, last, i);
    }
    if start + 8 * |bitset| > LIMIT {
      SelectEmpty((b: nat) => Hit(bitset, start, b), first, start);
    } else {
      ReachedLast(bitset, start, first, last, i, results);
    }
    ok := true;
  }

  lemma LastBlock(start: nat, size: nat)
    requires 0 < size < LIMIT && start < LIMIT
    ensures start + size <= LIMIT ==> Wrap(start + size - 1) == start + size - 1
    ensures start + size > LIMIT ==> Wrap(start + size - 1) < start
  {
    if start + size > LIMIT {
      assert (start + size - 1) % LIMIT == start + size - 1 - LIMIT;
    }
  }

  function SectionOf(b: nat, size: nat): nat
    requires size > 0
  {
    b / size
  }

  /** The section that a block is in ends below 2^64. */
  ghost predicate InLimit(b: nat, size: nat)
    requires size > 0
  {
    (SectionOf(b, size) + 1) * size < LIMIT
  }

  function LastStart(end: nat, size: nat): nat
    requires size > 0
  {
    SectionOf(end, size) * size
  }

  /**
   The pass over the blocks of a range that are in a section steps over the largest number. Only a
   section that ends there and has some match lets it: then it does if it comes to the last block, or if
   it comes to the start of the last byte and no block of that byte matches.
   */
  ghost predicate Overruns(p: nat -> bool, start: nat, size: nat, begin: nat, end: nat) {
    && start + size == LIMIT && begin <= end && LIMIT - 8 <= end
    && (exists b :: start <= b < LIMIT && p(b))
    && (end == LIMIT - 1 || (begin <= LIMIT - 8 && forall b :: LIMIT - 8 <= b < LIMIT ==> !p(b)))
  }

  /** Below 2^64 no range overruns, and none of it is left out. */
  lemma InLimitSuffices(p: nat -> bool, size: nat, begin: nat, end: nat)
    requires size > 0 && InLimit(end, size)
    ensures !Overruns(p, LastStart(end, size), size, begin, end) && Reach(LastStart(end, size), size, end) == end + 1
  {
    var q := end / size;
    assert end == size * q + end % size && size * q == q * size;
    assert (q + 1) * size == q * size + size;
  }

  /** Asking for the last block reads past its section; a section size of 24 leaves out the last sixteen. */
  lemma LastBlocksNeedRoom(p: nat -> bool)
    requires p(LIMIT - 1)
    ensures Overruns(p, LastStart(LIMIT - 1, 8), 8, LIMIT - 1, LIMIT - 1)
    ensures Reach(LastStart(LIMIT - 1, 24), 24, LIMIT - 1) == LIMIT - 16
  {
    assert SectionOf(LIMIT - 1, 8) == LIMIT / 8 - 1;
    assert SectionOf(LIMIT - 1, 24) == (LIMIT - 16) / 24;
  }

  /** The vectors of the sections from lo to hi are the rotation of their filters. */
  ghost predicate IndexedAll(data: (nat, nat) -> seq<byte>, blooms: nat -> Filter, size: nat, lo: nat, hi: nat) {
    forall section :: lo <= section <= hi ==> IndexedSection(data, blooms, size, section)
  }

  ghost predicate IndexedSection(data: (nat, nat) -> seq<byte>, blooms: nat -> Filter, size: nat, section: nat) {
    Indexed((bit: nat) => data(section, bit), blooms, section * size, size / 8)
  }

  ghost function Passing(blooms: nat -> Filter, filters: seq<seq<Triple>>): nat -> bool {
    (b: nat) => PassesAll(blooms(b), filters)
  }

  /** One section through the pipeline, and its matching blocks within the range. */
  method MatchSection(data: (nat, nat) -> seq<byte>, ghost blooms: nat -> Filter, size: nat, filters: seq<seq<Triple>>,
                      section: nat, start: nat, begin: nat, end: nat)
    returns (ok: bool, results: seq<nat>)
    requires size % 8 == 0 && 0 < size < LIMIT
    requires start == section * size < LIMIT && begin < LIMIT && end < LIMIT
    requires IndexedSection(data, blooms, size, section)
    ensures ok == !Overruns(Passing(blooms, filters), start, size, begin, end)
    ensures ok ==> results == Select(Passing(blooms, filters), Max(begin, start), Reach(start, size, end))
  {
    Aligned(section, size);
    hide PassesAll, Indexed, VectorBit, Select, Hit, Ends, Overruns;
    ghost var lo, hi := Max(begin, start), Reach(start, size, end);
    var bytes := size / 8;
    assert 8 * bytes == size;
    var dropped, bitset := FilterSection((bit: nat) => data(section, bit), blooms, start, bytes, filters);
    if dropped {
      NothingPasses(blooms, filters, start, size, begin, end, lo, hi);
      return true, [];
    }
    ok, results := Emit(bitset, start, begin, end);
    HitsPass(bitset, blooms, filters, start);
    EndsExactly(bitset, Passing(blooms, filters), start, begin, end);
    SelectSame((b: nat) => Hit(bitset, start, b), Passing(blooms, filters), lo, hi);
  }

  /** The pass over a section's vector ends exactly when its matches do not make it overrun. */
  lemma EndsExactly(bitset: seq<byte>, p: nat -> bool, start: nat, begin: nat, end: nat)
    requires bitset != [] && start % 8 == 0 && begin < LIMIT && end < LIMIT
    requires forall b :: start <= b < start + 8 * |bitset| ==> (Hit(bitset, start, b) <==> p(b))
    requires exists k :: 0 <= k < 8 * |bitset| && VectorBit(bitset, k)
    ensures Overruns(p, start, 8 * |bitset|, begin, end) <==>
      !(start + 8 * |bitset| > LIMIT || Ends(bitset, Max(begin, start), Min(end, start + 8 * |bitset| - 1)))
  {
    if start + 8 * |bitset| == LIMIT {
      hide VectorBit, Bit;
      var k :| 0 <= k < 8 * |bitset| && VectorBit(bitset, k);
      assert p(start + k);
      LastByte(bitset, p, start);
    }
  }

  lemma LastByte(bitset: seq<byte>, p: nat -> bool, start: nat)
    requires bitset != [] && start % 8 == 0 && start + 8 * |bitset| == LIMIT
    requires forall b :: start <= b < start + 8 * |bitset| ==> (Hit(bitset, start, b) <==> p(b))
    ensures bitset[|bitset| - 1] == 0 <==> forall b :: LIMIT - 8 <= b < LIMIT ==> !p(b)
  {
    if bitset[|bitset| - 1] == 0 {
      EmptyByte(bitset, start, LIMIT - 8);
    } else {
      SetSomewhere(bitset, |bitset| - 1);
      var k :| 8 * |bitset| - 8 <= k < 8 * |bitset| && VectorBit(bitset, k);
      assert Hit(bitset, start, start + k);
    }
  }

  lemma NothingPasses(blooms: nat -> Filter, filters: seq<seq<Triple>>, start: nat, size: nat, begin: nat, end: nat,
                      lo: nat, hi: nat)
    requires start <= lo && hi <= start + size
    requires forall k :: 0 <= k < size ==> !PassesAll(FilterAt(blooms, start, k), filters)
    ensures Select(Passing(blooms, filters), lo, hi) == []
    ensures !Overruns(Passing(blooms, filters), start, size, begin, end)
  {
    hide PassesAll, Select;
    var p := Passing(blooms, filters);
    forall b | start <= b < start + size
      ensures !p(b)
    {
      assert !PassesAll(FilterAt(blooms, start, b - start), filters);
    }
    SelectNone(p, lo, hi);
  }

  lemma HitsPass(bitset: seq<byte>, blooms: nat -> Filter, filters: seq<seq<Triple>>, start: nat)
    requires forall k :: 0 <= k < 8 * |bitset| ==>
      (VectorBit(bitset, k) <==> PassesAll(FilterAt(blooms, start, k), filters))
    ensures forall b :: start <= b < start + 8 * |bitset| ==>
      (Hit(bitset, start, b) <==> Passing(blooms, filters)(b))
  {
    hide PassesAll, VectorBit;
    forall b | start <= b < start + 8 * |bitset|
      ensures Hit(bitset, start, b) <==> Passing(blooms, filters)(b)
    {
      assert VectorBit(bitset, b - start) <==> PassesAll(FilterAt(blooms, start, b - start), filters);
    }
  }

  lemma Aligned(section: nat, size: nat)
    requires size % 8 == 0
    ensures section * size % 8 == 0 && 8 * (size / 8) == size
  {
    var q := size / 8;
    assert section * size == 8 * (section * q);
  }

  /** The whole range, section after section. */
  method Match(data: (nat, nat) -> seq<byte>, ghost blooms: nat -> Filter, size: nat, filters: seq<seq<Triple>>,
               begin: nat, end: nat)
    returns (ok: bool, results: seq<nat>)
    requires size % 8 == 0 && 0 < size < LIMIT && begin < LIMIT && end < LIMIT
    requires IndexedAll(data, blooms, size, SectionOf(begin, size), SectionOf(end, size))
    ensures ok == !Overruns(Passing(blooms, filters), LastStart(end, size), size, begin, end)
    ensures ok ==> results == Select(Passing(blooms, filters), begin, Reach(LastStart(end, size), size, end))
  {
    hide PassesAll, IndexedSection, Select, SectionOf, LastStart, Overruns, Reach;
    ghost var p := Passing(blooms, filters);
    ok, results := true, [];
    var section := SectionOf(begin, size);
    var sectionStart := section * size;
    FirstSection(p, begin, end, size);
    InRange(section, end, size);
    SelectEmpty(p, begin, begin);
    while section <= SectionOf(end, size)
      invariant SectionOf(begin, size) <= section && sectionStart == section * size && begin < sectionStart + size
      invariant section <= SectionOf(end, size) <==> sectionStart <= end
      invariant section <= SectionOf(end, size) ==> results == Select(p, begin, Max(begin, sectionStart))
      invariant section > SectionOf(end, size) ==> Done(p, size, begin, end, results)
      decreases SectionOf(end, size) + 1 - section
    {
      var more;
      ok, more := MatchSection(data, blooms, size, filters, section, sectionStart, begin, end);
      if !ok {
        LastOverruns(p, section, size, begin, end);
        return;
      }
      NextSection(p, begin, end, section, size, sectionStart);
      results := results + more;
      OneMore(section, size);
      section, sectionStart := section + 1, sectionStart + size;
      InRange(section, end, size);
    }
  }

  /** All sections of a range have been passed over. */
  ghost predicate Done(p: nat -> bool, size: nat, begin: nat, end: nat, results: seq<nat>)
    requires size > 0
  {
    && !Overruns(p, LastStart(end, size), size, begin, end)
    && results == Select(p, begin, Reach(LastStart(end, size), size, end))
  }

  lemma OneMore(section: nat, size: nat)
    ensures (section + 1) * size == section * size + size
  {
  }

  lemma FirstSection(p: nat -> bool, begin: nat, end: nat, size: nat)
    requires size > 0
    ensures SectionOf(begin, size) * size <= begin < SectionOf(begin, size) * size + size
    ensures SectionOf(begin, size) > SectionOf(end, size) ==> Done(p, size, begin, end, [])
  {
    var q := begin / size;
    assert begin == size * q + begin % size;
    assert size * q == q * size;
    if q > SectionOf(end, size) {
      InRange(q, end, size);
      InRange(SectionOf(end, size), end, size);
    }
  }

  lemma InRange(section: nat, end: nat, size: nat)
    requires size > 0
    ensures section <= SectionOf(end, size) <==> section * size <= end
  {
    var q := end / size;
    assert end == size * q + end % size && size * q == q * size;
    if section <= q {
      assert section * size <= q * size;
    } else {
      assert section * size >= (q + 1) * size == q * size + size;
    }
  }

  /** A section before the last one ends below the largest number, and is passed over whole. */
  lemma InnerSection(p: nat -> bool, section: nat, size: nat, begin: nat, end: nat)
    requires size > 0 && end < LIMIT && section < SectionOf(end, size)
    ensures !Overruns(p, section * size, size, begin, end)
    ensures Reach(section * size, size, end) == section * size + size
  {
    InRange(section + 1, end, size);
    OneMore(section, size);
  }

  lemma LastOverruns(p: nat -> bool, section: nat, size: nat, begin: nat, end: nat)
    requires size > 0 && end < LIMIT && section <= SectionOf(end, size) && Overruns(p, section * size, size, begin, end)
    ensures Overruns(p, LastStart(end, size), size, begin, end)
  {
    if section < SectionOf(end, size) {
      InnerSection(p, section, size, begin, end);
    }
  }

  lemma NextSection(p: nat -> bool, begin: nat, end: nat, section: nat, size: nat, start: nat)
    requires size > 0 && end < LIMIT && section <= SectionOf(end, size) && start == section * size <= end
    requires begin < start + size && !Overruns(p, start, size, begin, end)
    ensures
      var results := Select(p, begin, Max(begin, start)) + Select(p, Max(begin, start), Reach(start, size, end));
      && (section < SectionOf(end, size) ==> results == Select(p, begin, Max(begin, start + size)))
      && (section == SectionOf(end, size) ==> Done(p, size, begin, end, results))
  {
    var mid, hi := Max(begin, start), Reach(start, size, end);
    if section < SectionOf(end, size) {
      InnerSection(p, section, size, begin, end);
    }
    hide SectionOf, Overruns;
    if mid <= hi {
      hide Select;
      SelectSplit(p, begin, mid, hi);
    }
  }

  ghost function Matching(blooms: nat -> Filter, rules: seq<Rule>): nat -> bool {
    (b: nat) => Matches(blooms(b), rules)
  }

  /** The answer for a range: exactly its blocks that satisfy p, ascending and once each, unless it overruns. */
  ghost predicate Answers(p: nat -> bool, size: nat, begin: nat, end: nat, ok: bool, results: seq<nat>)
    requires size > 0
  {
    && ok == !Overruns(p, LastStart(end, size), size, begin, end)
    && (ok ==> forall b :: b in results <==> begin <= b < Reach(LastStart(end, size), size, end) && p(b))
    && (ok ==> forall i, j :: 0 <= i < j < |results| ==> results[i] < results[j])
  }

  /** A range whose last section ends below 2^64 is answered in full. */
  lemma InLimitAnswers(p: nat -> bool, size: nat, begin: nat, end: nat, ok: bool, results: seq<nat>)
    requires size > 0 && InLimit(end, size) && Answers(p, size, begin, end, ok, results)
    ensures ok && forall b :: b in results <==> begin <= b <= end && p(b)
  {
    InLimitSuffices(p, size, begin, end);
  }

  /**
   The matcher agrees with the direct test: over a range it gives the blocks whose filter passes every
   rule, or reads past a vector when they make it overrun.
   */
  method MatchedBlocks(data: (nat, nat) -> seq<byte>, ghost blooms: nat -> Filter, size: nat, rules: seq<Rule>,
                       begin: nat, end: nat)
    returns (ok: bool, results: seq<nat>)
    requires size % 8 == 0 && 0 < size < LIMIT && begin < LIMIT && end < LIMIT
    requires IndexedAll(data, blooms, size, SectionOf(begin, size), SectionOf(end, size))
    ensures Answers(Matching(blooms, rules), size, begin, end, ok, results)
  {
    hide PassesAll, Matches, IndexedAll, Select, SectionOf, LastStart, Overruns;
    var filters := NewMatcher(rules);
    ok, results := Match(data, blooms, size, filters, begin, end);
    ghost var p, q := Passing(blooms, filters), Matching(blooms, rules);
    assert forall b :: p(b) == q(b);
    SameOverruns(p, q, LastStart(end, size), size, begin, end);
    SelectIs(p, begin, Reach(LastStart(end, size), size, end));
  }

  lemma SameOverruns(p: nat -> bool, q: nat -> bool, start: nat, size: nat, begin: nat, end: nat)
    requires forall b :: p(b) == q(b)
    ensures Overruns(p, start, size, begin, end) == Overruns(q, start, size, begin, end)
  {
  }

  // ---- from the generator to the matches ----

  /** Adds the filters of a section one after another and takes the vectors of all bits. */
  method IndexSection(blooms: nat -> Filter, start: nat, size: nat) returns (vectors: seq<seq<byte>>)
    requires size % 8 == 0
    ensures VectorsOf(vectors, blooms, start, size)
  {
    hide Generator.RowOk, VectorBit, FilterBit;
    var generator := new Generator(size);
    var k := 0;
    while k < size
      invariant 0 <= k <= size && fresh(generator) && generator.Valid() && generator.sections == size
      invariant |generator.added| == k && forall j :: 0 <= j < k ==> generator.added[j] == FilterAt(blooms, start, j)
    {
      var err := generator.AddBloom(k, blooms(start + k));
      k := k + 1;
    }
    vectors := [];
    var bit := 0;
    while bit < BLOOM_BITS
      invariant 0 <= bit <= BLOOM_BITS && |vectors| == bit && generator.Valid() && |generator.added| == size
      invariant generator.sections == size
      invariant forall j :: 0 <= j < size ==> generator.added[j] == FilterAt(blooms, start, j)
      invariant forall b :: 0 <= b < bit ==> IndexedBit(vectors[b], blooms, start, size / 8, b)
    {
      var err, v := generator.Bitset(bit);
      assert IndexedBit(v, blooms, start, size / 8, bit);
      vectors := vectors + [v];
      bit := bit + 1;
    }
  }

  /** The vectors of the sections from lo on, as the matcher asks for them. */
  function Stored(index: seq<seq<seq<byte>>>, lo: nat): (nat, nat) -> seq<byte> {
    (section: nat, bit: nat) =>
      if lo <= section < lo + |index| && bit < |index[section - lo]| then index[section - lo][bit] else []
  }

  /** Indexing every section of a range and then matching gives the blocks that pass the direct test. */
  method IndexAndMatch(blooms: nat -> Filter, size: nat, rules: seq<Rule>, begin: nat, end: nat)
    returns (ok: bool, results: seq<nat>)
    requires size % 8 == 0 && 0 < size < LIMIT && begin < LIMIT && end < LIMIT
    ensures Answers(Matching(blooms, rules), size, begin, end, ok, results)
  {
    hide Answers, IndexedBit, SectionOf, IndexedAll, Stored, SectionStored;
    var lo, hi := SectionOf(begin, size), SectionOf(end, size);
    var index := [];
    var section := lo;
    while section <= hi
      invariant lo <= section && |index| == section - lo
      invariant forall s :: lo <= s < section ==> SectionStored(index, blooms, size, lo, s)
      decreases hi + 1 - section
    {
      var vectors := IndexSection(blooms, section * size, size);
      StoredMore(index, vectors, blooms, size, lo, section);
      index := index + [vectors];
      section := section + 1;
    }
    StoredIndexed(index, blooms, size, lo, hi);
    ok, results := MatchedBlocks(Stored(index, lo), blooms, size, rules, begin, end);
  }

  ghost predicate SectionStored(index: seq<seq<seq<byte>>>, blooms: nat -> Filter, size: nat, lo: nat, section: nat) {
    && lo <= section < lo + |index| && VectorsOf(index[section - lo], blooms, section * size, size)
  }

  ghost predicate VectorsOf(vectors: seq<seq<byte>>, blooms: nat -> Filter, start: nat, size: nat) {
    |vectors| == BLOOM_BITS
    && forall bit :: 0 <= bit < BLOOM_BITS ==> IndexedBit(vectors[bit], blooms, start, size / 8, bit)
  }

  lemma StoredMore(index: seq<seq<seq<byte>>>, vectors: seq<seq<byte>>, blooms: nat -> Filter, size: nat, lo: nat,
                   section: nat)
    requires lo <= section == lo + |index| && VectorsOf(vectors, blooms, section * size, size)
    requires forall s :: lo <= s < section ==> SectionStored(index, blooms, size, lo, s)
    ensures forall s :: lo <= s <= section ==> SectionStored(index + [vectors], blooms, size, lo, s)
  {
    hide VectorsOf;
    forall s | lo <= s <= section
      ensures SectionStored(index + [vectors], blooms, size, lo, s)
    {
      if s < section {
        assert SectionStored(index, blooms, size, lo, s);
      }
    }
  }

  lemma StoredIndexed(index: seq<seq<seq<byte>>>, blooms: nat -> Filter, size: nat, lo: nat, hi: nat)
    requires forall s :: lo <= s <= hi ==> SectionStored(index, blooms, size, lo, s)
    ensures IndexedAll(Stored(index, lo), blooms, size, lo, hi)
  {
    hide IndexedBit;
    var data := Stored(index, lo);
    forall section | lo <= section <= hi
      ensures IndexedSection(data, blooms, size, section)
    {
      assert SectionStored(index, blooms, size, lo, section);
      assert VectorsOf(index[section - lo], blooms, section * size, size);
    }
  }
}
