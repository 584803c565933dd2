/**
 The permutation Keccak-f[1600] (crypto/sha3/keccakf.go): four rounds at a time, unrolled and in
 place, against the round function of section 3.2 of FIPS 202. A state is 25 lanes of 64 bits, lane
 (x, y) at index 5y + x; the bit z of a lane is its bit of weight 2^z.
 */
module Keccak {
  datatype Lane = Lane(w: bv64)

  type Lanes = s: seq<Lane> | |s| == 25 witness seq(25, _ => Lane(0))

  // ---- operations on lanes ----

  function Xor(x: Lane, y: Lane): Lane {
    Lane(x.w ^ y.w)
  }

  function Xor5(a: Lane, b: Lane, c: Lane, d: Lane, e: Lane): Lane {
    Lane(a.w ^ b.w ^ c.w ^ d.w ^ e.w)
  }

  function AndNot(x: Lane, y: Lane): Lane {
    Lane(x.w & !y.w)
  }

  function Rotl(t: Lane, n: nat): Lane
    requires n < 64
  {
    if n == 0 then t else Lane((t.w << n) | (t.w >> (64 - n)))
  }

  lemma NoTurn(t: Lane)
    ensures Rotl(t, 0) == t
  {
  }

  // ---- section 3.2 of FIPS 202 ----

  /** Where lane (x, y) stands. */
  function At(x: nat, y: nat): (i: nat)
    requires x < 5 && y < 5
    ensures i < 25
  {
    5 * y + x
  }

  lemma AtIs(x: nat, y: nat)
    requires x < 5 && y < 5
    ensures At(x, y) % 5 == x && At(x, y) / 5 == y
  {
  }

  function Column(a: Lanes, x: nat): Lane
    requires x < 5
  {
    Xor5(a[x], a[5 + x], a[10 + x], a[15 + x], a[20 + x])
  }

  /** What θ adds to each lane of column x. */
  function Effect(a: Lanes, x: nat): Lane
    requires x < 5
  {
    Xor(Column(a, (x + 4) % 5), Rotl(Column(a, (x + 1) % 5), 1))
  }

  function Theta(a: Lanes): Lanes {
    seq(25, i requires 0 <= i < 25 => Xor(a[i], Effect(a, i % 5)))
  }

  /** The rotation of lane (x, y). */
  function Offset(x: nat, y: nat): (n: nat)
    ensures n < 64
  {
    match y
    case 0 => if x == 0 then 0 else if x == 1 then 1 else if x == 2 then 62 else if x == 3 then 28 else 27
    case 1 => if x == 0 then 36 else if x == 1 then 44 else if x == 2 then 6 else if x == 3 then 55 else 20
    case 2 => if x == 0 then 3 else if x == 1 then 10 else if x == 2 then 43 else if x == 3 then 25 else 39
    case 3 => if x == 0 then 41 else if x == 1 then 45 else if x == 2 then 15 else if x == 3 then 21 else 8
    case _ => if x == 0 then 18 else if x == 1 then 2 else if x == 2 then 61 else if x == 3 then 56 else 14
  }

  function Rho(a: Lanes): Lanes {
    seq(25, i requires 0 <= i < 25 => Rotl(a[i], Offset(i % 5, i / 5)))
  }

  function PiLane(a: Lanes, x: nat, y: nat): Lane
    requires x < 5 && y < 5
  {
    a[At((x + 3 * y) % 5, x)]
  }

  function Pi(a: Lanes): Lanes {
    seq(25, i requires 0 <= i < 25 => PiLane(a, i % 5, i / 5))
  }

  function ChiLane(a: Lanes, x: nat, y: nat): Lane
    requires x < 5 && y < 5
  {
    Xor(a[At(x, y)], AndNot(a[At((x + 2) % 5, y)], a[At((x + 1) % 5, y)]))
  }

  function Chi(a: Lanes): Lanes {
    seq(25, i requires 0 <= i < 25 => ChiLane(a, i % 5, i / 5))
  }

  function Iota(a: Lanes, c: Lane): Lanes {
    a[0 := Xor(a[0], c)]
  }

  function Round(a: Lanes, c: Lane): Lanes {
    Iota(Chi(Pi(Rho(Theta(a)))), c)
  }

  const RC: seq<bv64> :=
    [0x0000000000000001, 0x0000000000008082, 0x800000000000808A, 0x8000000080008000,
     0x000000000000808B, 0x0000000080000001, 0x8000000080008081, 0x8000000000008009,
     0x000000000000008A, 0x0000000000000088, 0x0000000080008009, 0x000000008000000A,
     0x000000008000808B, 0x800000000000008B, 0x8000000000008089, 0x8000000000008003,
     0x8000000000008002, 0x8000000000000080, 0x000000000000800A, 0x800000008000000A,
     0x8000000080008081, 0x8000000000008080, 0x0000000080000001, 0x8000000080008008]

  function Rounds(a: Lanes, n: nat): Lanes
    requires n <= 24
  {
    if n == 0 then a else Round(Rounds(a, n - 1), Lane(RC[n - 1]))
  }

  function KeccakF(a: Lanes): Lanes {
    Rounds(a, |RC|)
  }

  // ---- one round, lane by lane ----

  /** Five places of the state, the x-th in column x. */
  ghost predicate Places(p: seq<nat>) {
    |p| == 5 && forall x :: 0 <= x < 5 ==> p[x] < 25 && p[x] % 5 == x
  }

  /** Lane x of output row y before χ, its source lane being at place (x + 3y) mod 5 of p. */
  ghost function Turned(s: Lanes, p: seq<nat>, d: seq<Lane>, y: nat, x: nat): Lane
    requires Places(p) && |d| == 5 && x < 5
  {
    var j := (x + 3 * y) % 5;
    Rotl(Xor(s[p[j]], d[j]), Offset(j, x))
  }

  ghost function RowLane(s: Lanes, p: seq<nat>, d: seq<Lane>, y: nat, c: Lane, x: nat): Lane
    requires Places(p) && |d| == 5 && x < 5
  {
    var v := Xor(Turned(s, p, d, y, x), AndNot(Turned(s, p, d, y, (x + 2) % 5), Turned(s, p, d, y, (x + 1) % 5)));
    if y == 0 && x == 0 then Xor(v, c) else v
  }

  /** The state with output row y written over the five lanes it was made from. */
  ghost predicate Rowed(s: Lanes, s': Lanes, p: seq<nat>, d: seq<Lane>, y: nat, c: Lane)
    requires Places(p) && |d| == 5
  {
    && (forall x :: 0 <= x < 5 ==> s'[p[x]] == RowLane(s, p, d, y, c, x))
    && (forall i :: 0 <= i < 25 && i !in p ==> s'[i] == s[i])
  }

  lemma TurnedRow(s: Lanes, p: seq<nat>, d: seq<Lane>, y: nat, b0: Lane, b1: Lane, b2: Lane, b3: Lane, b4: Lane)
    requires Places(p) && |d| == 5 && y < 5
    requires b0 == Turned(s, p, d, y, 0) && b1 == Turned(s, p, d, y, 1) && b2 == Turned(s, p, d, y, 2)
    requires b3 == Turned(s, p, d, y, 3) && b4 == Turned(s, p, d, y, 4)
    ensures forall c :: RowLane(s, p, d, y, c, 0)
                        == if y == 0 then Xor(Xor(b0, AndNot(b2, b1)), c) else Xor(b0, AndNot(b2, b1))
    ensures forall c :: RowLane(s, p, d, y, c, 1) == Xor(b1, AndNot(b3, b2))
    ensures forall c :: RowLane(s, p, d, y, c, 2) == Xor(b2, AndNot(b4, b3))
    ensures forall c :: RowLane(s, p, d, y, c, 3) == Xor(b3, AndNot(b0, b4))
    ensures forall c :: RowLane(s, p, d, y, c, 4) == Xor(b4, AndNot(b1, b0))
  {
    hide Turned, Xor, AndNot;
  }

  function Written(s: Lanes, p: seq<nat>, r0: Lane, r1: Lane, r2: Lane, r3: Lane, r4: Lane): Lanes
    requires Places(p)
  {
    s[p[0] := r0][p[1] := r1][p[2] := r2][p[3] := r3][p[4] := r4]
  }

  lemma WrittenAt(s: Lanes, p: seq<nat>, r0: Lane, r1: Lane, r2: Lane, r3: Lane, r4: Lane)
    requires Places(p)
    ensures var s' := Written(s, p, r0, r1, r2, r3, r4);
            && s'[p[0]] == r0 && s'[p[1]] == r1 && s'[p[2]] == r2 && s'[p[3]] == r3 && s'[p[4]] == r4
            && forall i :: 0 <= i < 25 && i !in p ==> s'[i] == s[i]
  {
    PlacesApart(p);
    hide Places;
    assert p[0] in p && p[1] in p && p[2] in p && p[3] in p && p[4] in p;
  }

  lemma RowWritten(s: Lanes, p: seq<nat>, d: seq<Lane>, y: nat, c: Lane,
                   r0: Lane, r1: Lane, r2: Lane, r3: Lane, r4: Lane)
    requires Places(p) && |d| == 5
    requires r0 == RowLane(s, p, d, y, c, 0) && r1 == RowLane(s, p, d, y, c, 1) && r2 == RowLane(s, p, d, y, c, 2)
    requires r3 == RowLane(s, p, d, y, c, 3) && r4 == RowLane(s, p, d, y, c, 4)
    ensures Rowed(s, Written(s, p, r0, r1, r2, r3, r4), p, d, y, c)
  {
    hide RowLane, Written;
    WrittenAt(s, p, r0, r1, r2, r3, r4);
  }

  lemma PlacesApart(p: seq<nat>)
    requires Places(p)
    ensures |p| == 5 && p[0] < 25 && p[1] < 25 && p[2] < 25 && p[3] < 25 && p[4] < 25
    ensures p[0] != p[1] && p[0] != p[2] && p[0] != p[3] && p[0] != p[4] && p[1] != p[2] && p[1] != p[3]
    ensures p[1] != p[4] && p[2] != p[3] && p[2] != p[4] && p[3] != p[4]
  {
  }

  /** The lanes of a row below the first, over those it was made from. */
  method WriteRow(a: array<Lane>, p: seq<nat>, bc0: Lane, bc1: Lane, bc2: Lane, bc3: Lane, bc4: Lane,
                  ghost s: Lanes, ghost d: seq<Lane>, ghost y: nat, ghost c: Lane)
    requires a.Length == 25 && Places(p) && |d| == 5 && 0 < y < 5 && s == a[..]
    requires bc0 == Turned(s, p, d, y, 0) && bc1 == Turned(s, p, d, y, 1) && bc2 == Turned(s, p, d, y, 2)
    requires bc3 == Turned(s, p, d, y, 3) && bc4 == Turned(s, p, d, y, 4)
    modifies a
    ensures Rowed(s, a[..], p, d, y, c)
  {
    hide Xor, AndNot, Turned, RowLane, Rowed;
    TurnedRow(s, p, d, y, bc0, bc1, bc2, bc3, bc4);
    var r0, r1, r2 := Xor(bc0, AndNot(bc2, bc1)), Xor(bc1, AndNot(bc3, bc2)), Xor(bc2, AndNot(bc4, bc3));
    var r3, r4 := Xor(bc3, AndNot(bc0, bc4)), Xor(bc4, AndNot(bc1, bc0));
    assert r0 == RowLane(s, p, d, y, c, 0);
    WriteLanes(a, p, r0, r1, r2, r3, r4);
    RowWritten(s, p, d, y, c, r0, r1, r2, r3, r4);
  }

  method WriteLanes(a: array<Lane>, p: seq<nat>, r0: Lane, r1: Lane, r2: Lane, r3: Lane, r4: Lane)
    requires a.Length == 25 && Places(p)
    modifies a
    ensures a[..] == Written(old(a[..]), p, r0, r1, r2, r3, r4)
  {
    a[p[0]] := r0;
    a[p[1]] := r1;
    a[p[2]] := r2;
    a[p[3]] := r3;
    a[p[4]] := r4;
  }

  method Row0(a: array<Lane>, p: seq<nat>, d: seq<Lane>, c: Lane)
    requires a.Length == 25 && Places(p) && |d| == 5
    modifies a
    ensures Rowed(old(a[..]), a[..], p, d, 0, c)
  {
    hide Xor, AndNot, Rotl;
    ghost var s := a[..];
    NoTurn(Xor(a[p[0]], d[0]));
    var bc0 := Xor(a[p[0]], d[0]);
    var t := Xor(a[p[1]], d[1]);
    var bc1 := Rotl(t, 44);
    t := Xor(a[p[2]], d[2]);
    var bc2 := Rotl(t, 43);
    t := Xor(a[p[3]], d[3]);
    var bc3 := Rotl(t, 21);
    t := Xor(a[p[4]], d[4]);
    var bc4 := Rotl(t, 14);
    hide Rowed;
    TurnedRow(s, p, d, 0, bc0, bc1, bc2, bc3, bc4);
    hide Turned, RowLane;
    var r0, r1 := Xor(Xor(bc0, AndNot(bc2, bc1)), c), Xor(bc1, AndNot(bc3, bc2));
    var r2, r3, r4 := Xor(bc2, AndNot(bc4, bc3)), Xor(bc3, AndNot(bc0, bc4)), Xor(bc4, AndNot(bc1, bc0));
    WriteLanes(a, p, r0, r1, r2, r3, r4);
    RowWritten(s, p, d, 0, c, r0, r1, r2, r3, r4);
  }

  method Row1(a: array<Lane>, p: seq<nat>, d: seq<Lane>, ghost c: Lane)
    requires a.Length == 25 && Places(p) && |d| == 5
    modifies a
    ensures Rowed(old(a[..]), a[..], p, d, 1, c)
  {
    hide Xor, AndNot, Rotl;
    ghost var s := a[..];
    var t := Xor(a[p[0]], d[0]);
    var bc2 := Rotl(t, 3);
    t := Xor(a[p[1]], d[1]);
    var bc3 := Rotl(t, 45);
    t := Xor(a[p[2]], d[2]);
    var bc4 := Rotl(t, 61);
    t := Xor(a[p[3]], d[3]);
    var bc0 := Rotl(t, 28);
    t := Xor(a[p[4]], d[4]);
    var bc1 := Rotl(t, 20);
    WriteRow(a, p, bc0, bc1, bc2, bc3, bc4, s, d, 1, c);
  }

  method Row2(a: array<Lane>, p: seq<nat>, d: seq<Lane>, ghost c: Lane)
    requires a.Length == 25 && Places(p) && |d| == 5
    modifies a
    ensures Rowed(old(a[..]), a[..], p, d, 2, c)
  {
    hide Xor, AndNot, Rotl;
    ghost var s := a[..];
    var t := Xor(a[p[0]], d[0]);
    var bc4 := Rotl(t, 18);
    t := Xor(a[p[1]], d[1]);
    var bc0 := Rotl(t, 1);
    t := Xor(a[p[2]], d[2]);
    var bc1 := Rotl(t, 6);
    t := Xor(a[p[3]], d[3]);
    var bc2 := Rotl(t, 25);
    t := Xor(a[p[4]], d[4]);
    var bc3 := Rotl(t, 8);
    WriteRow(a, p, bc0, bc1, bc2, bc3, bc4, s, d, 2, c);
  }

  method Row3(a: array<Lane>, p: seq<nat>, d: seq<Lane>, ghost c: Lane)
    requires a.Length == 25 && Places(p) && |d| == 5
    modifies a
    ensures Rowed(old(a[..]), a[..], p, d, 3, c)
  {
    hide Xor, AndNot, Rotl;
    ghost var s := a[..];
    var t := Xor(a[p[0]], d[0]);
    var bc1 := Rotl(t, 36);
    t := Xor(a[p[1]], d[1]);
    var bc2 := Rotl(t, 10);
    t := Xor(a[p[2]], d[2]);
    var bc3 := Rotl(t, 15);
    t := Xor(a[p[3]], d[3]);
    var bc4 := Rotl(t, 56);
    t := Xor(a[p[4]], d[4]);
    var bc0 := Rotl(t, 27);
    WriteRow(a, p, bc0, bc1, bc2, bc3, bc4, s, d, 3, c);
  }

  method Row4(a: array<Lane>, p: seq<nat>, d: seq<Lane>, ghost c: Lane)
    requires a.Length == 25 && Places(p) && |d| == 5
    modifies a
    ensures Rowed(old(a[..]), a[..], p, d, 4, c)
  {
    hide Xor, AndNot, Rotl;
    ghost var s := a[..];
    var t := Xor(a[p[0]], d[0]);
    var bc3 := Rotl(t, 41);
    t := Xor(a[p[1]], d[1]);
    var bc4 := Rotl(t, 2);
    t := Xor(a[p[2]], d[2]);
    var bc0 := Rotl(t, 62);
    t := Xor(a[p[3]], d[3]);
    var bc1 := Rotl(t, 55);
    t := Xor(a[p[4]], d[4]);
    var bc2 := Rotl(t, 39);
    WriteRow(a, p, bc0, bc1, bc2, bc3, bc4, s, d, 4, c);
  }

  // ---- where the lanes stand between rounds ----

  ghost function Up(x: nat, y: nat): (k: nat)
    requires x < 5 && y < 5
    ensures k < 5
  {
    (x + 2 * y) % 5
  }

  /** The row in which lane (x, y) stands after r rounds in place. */
  ghost function RowOf(r: nat, x: nat, y: nat): (k: nat)
    requires x < 5 && y < 5
    ensures k < 5
  {
    if r == 0 then y else RowOf(r - 1, x, Up(x, y))
  }

  ghost function Place(r: nat, x: nat, y: nat): (i: nat)
    requires x < 5 && y < 5
    ensures i < 25
  {
    At(x, RowOf(r, x, y))
  }

  /** The array s holds the lanes of a, moved as r rounds move them. */
  ghost predicate Laid(s: Lanes, a: Lanes, r: nat) {
    forall x, y | 0 <= x < 5 && 0 <= y < 5 :: s[Place(r, x, y)] == a[At(x, y)]
  }

  /** After four rounds every lane is back in its place. */
  lemma LaidBack(s: Lanes, a: Lanes)
    ensures Laid(s, a, 4) <==> s == a
    ensures Laid(s, a, 0) <==> s == a
  {
    forall x, y | 0 <= x < 5 && 0 <= y < 5
      ensures Place(4, x, y) == At(x, y) == Place(0, x, y)
    {
      FourTurns(x, y);
    }
    if Laid(s, a, 0) || Laid(s, a, 4) {
      forall i | 0 <= i < 25
        ensures s[i] == a[i]
      {
        assert i == At(i % 5, i / 5);
      }
    }
  }

  lemma Euclid(n: int) returns (q: int)
    ensures n % 5 == n - 5 * q && 0 <= n % 5 < 5
  {
    q := n / 5;
  }

  lemma UpIs(x: nat, y: nat) returns (q: int)
    requires x < 5 && y < 5
    ensures Up(x, y) == x + 2 * y - 5 * q
  {
    q := Euclid(x + 2 * y);
  }

  lemma FourTurns(x: nat, y: nat)
    requires x < 5 && y < 5
    ensures RowOf(4, x, y) == y
  {
    hide Up;
    var y1 := Up(x, y);
    var y2 := Up(x, y1);
    var y3 := Up(x, y2);
    var y4 := Up(x, y3);
    assert RowOf(4, x, y) == RowOf(3, x, y1) == RowOf(2, x, y2) == RowOf(1, x, y3) == RowOf(0, x, y4) == y4;
    var q1 := UpIs(x, y);
    var q2 := UpIs(x, y1);
    var q3 := UpIs(x, y2);
    var q4 := UpIs(x, y3);
    SixteenIsOne(x, y, y1, y2, y3, y4, q1, q2, q3, q4);
  }

  lemma SixteenIsOne(x: nat, y: nat, y1: nat, y2: nat, y3: nat, y4: nat, q1: int, q2: int, q3: int, q4: int)
    requires y < 5 && y4 < 5
    requires y1 == x + 2 * y - 5 * q1 && y2 == x + 2 * y1 - 5 * q2
    requires y3 == x + 2 * y2 - 5 * q3 && y4 == x + 2 * y3 - 5 * q4
    ensures y4 == y
  {
    var k := 3 * x + 3 * y - 8 * q1 - 4 * q2 - 2 * q3 - q4;
    assert y4 - y == 5 * k;
  }

  lemma UpInjective(x: nat, y: nat, y': nat)
    requires x < 5 && y < 5 && y' < 5 && y != y'
    ensures Up(x, y) != Up(x, y')
  {
    hide Up;
    var q := UpIs(x, y);
    var q' := UpIs(x, y');
    assert Up(x, y) - Up(x, y') == 2 * (y - y') - 5 * (q - q');
  }

  lemma {:induction false} RowInjective(r: nat, x: nat, y: nat, y': nat)
    requires x < 5 && y < 5 && y' < 5 && y != y'
    ensures RowOf(r, x, y) != RowOf(r, x, y')
    decreases r
  {
    hide Up;
    if r > 0 {
      UpInjective(x, y, y');
      RowInjective(r - 1, x, Up(x, y), Up(x, y'));
    }
  }

  lemma PlaceInjective(r: nat, x: nat, y: nat, x': nat, y': nat)
    requires x < 5 && y < 5 && x' < 5 && y' < 5 && (x != x' || y != y')
    ensures Place(r, x, y) != Place(r, x', y')
  {
    hide RowOf;
    AtIs(x, RowOf(r, x, y));
    AtIs(x', RowOf(r, x', y'));
    if x == x' {
      RowInjective(r, x, y, y');
    }
  }

  // ---- θ does not mind where in its column a lane stands ----

  lemma Spread(a: Lane, b: Lane, c: Lane, d: Lane, e: Lane)
    ensures Xor5(a, d, b, e, c) == Xor5(a, b, c, d, e)
  {
  }

  lemma Cycle(a: Lane, b: Lane, c: Lane, d: Lane, e: Lane)
    ensures Xor5(b, c, d, e, a) == Xor5(a, b, c, d, e)
  {
  }

  lemma AnyOrder(v0: Lane, v1: Lane, v2: Lane, v3: Lane, v4: Lane)
    ensures var v := Xor5(v0, v1, v2, v3, v4);
            && Xor5(v0, v3, v1, v4, v2) == v && Xor5(v2, v0, v3, v1, v4) == v && Xor5(v4, v2, v0, v3, v1) == v
            && Xor5(v1, v4, v2, v0, v3) == v && Xor5(v3, v1, v4, v2, v0) == v
  {
    hide Xor5;
    Spread(v0, v1, v2, v3, v4);
    Cycle(v2, v0, v3, v1, v4);
    Cycle(v4, v2, v0, v3, v1);
    Cycle(v1, v4, v2, v0, v3);
    Cycle(v3, v1, v4, v2, v0);
  }

  ghost function BackLane(a: Lanes, x: nat, y: nat): Lane
    requires x < 5 && y < 5
  {
    a[At(x, (3 * y + 2 * x) % 5)]
  }

  /** The lanes of a one turn of the rows earlier. */
  ghost function TurnedBack(a: Lanes): Lanes {
    seq(25, i requires 0 <= i < 25 => BackLane(a, i % 5, i / 5))
  }

  lemma TurnedBackColumn(a: Lanes, x: nat)
    requires x < 5
    ensures Column(TurnedBack(a), x) == Column(a, x)
  {
    var b := TurnedBack(a);
    assert Column(b, x) == Xor5(b[x], b[5 + x], b[10 + x], b[15 + x], b[20 + x]);
    assert Column(a, x) == Xor5(a[x], a[5 + x], a[10 + x], a[15 + x], a[20 + x]);
    hide *;
    BackLanes(a, x);
    BackOrder(a, x);
  }

  lemma BackOrder(a: Lanes, x: nat)
    requires x < 5
    ensures Xor5(BackLane(a, x, 0), BackLane(a, x, 1), BackLane(a, x, 2), BackLane(a, x, 3), BackLane(a, x, 4))
         == Xor5(a[x], a[5 + x], a[10 + x], a[15 + x], a[20 + x])
  {
    hide *;
    if x < 2 {
      BackOrderLow(a, x);
    } else {
      BackOrderHigh(a, x);
    }
  }

  lemma BackOrderLow(a: Lanes, x: nat)
    requires x < 2
    ensures Xor5(BackLane(a, x, 0), BackLane(a, x, 1), BackLane(a, x, 2), BackLane(a, x, 3), BackLane(a, x, 4))
         == Xor5(a[x], a[5 + x], a[10 + x], a[15 + x], a[20 + x])
  {
    hide Xor5;
    AnyOrder(a[x], a[5 + x], a[10 + x], a[15 + x], a[20 + x]);
    if x == 0 {
      assert BackLane(a, 0, 0) == a[0] && BackLane(a, 0, 1) == a[15] && BackLane(a, 0, 2) == a[5];
      assert BackLane(a, 0, 3) == a[20] && BackLane(a, 0, 4) == a[10];
    } else {
      assert BackLane(a, 1, 0) == a[11] && BackLane(a, 1, 1) == a[1] && BackLane(a, 1, 2) == a[16];
      assert BackLane(a, 1, 3) == a[6] && BackLane(a, 1, 4) == a[21];
    }
  }

  lemma BackOrderHigh(a: Lanes, x: nat)
    requires 2 <= x < 5
    ensures Xor5(BackLane(a, x, 0), BackLane(a, x, 1), BackLane(a, x, 2), BackLane(a, x, 3), BackLane(a, x, 4))
         == Xor5(a[x], a[5 + x], a[10 + x], a[15 + x], a[20 + x])
  {
    hide Xor5;
    AnyOrder(a[x], a[5 + x], a[10 + x], a[15 + x], a[20 + x]);
    if x == 2 {
      assert BackLane(a, 2, 0) == a[22] && BackLane(a, 2, 1) == a[12] && BackLane(a, 2, 2) == a[2];
      assert BackLane(a, 2, 3) == a[17] && BackLane(a, 2, 4) == a[7];
    } else if x == 3 {
      assert BackLane(a, 3, 0) == a[8] && BackLane(a, 3, 1) == a[23] && BackLane(a, 3, 2) == a[13];
      assert BackLane(a, 3, 3) == a[3] && BackLane(a, 3, 4) == a[18];
    } else {
      assert BackLane(a, 4, 0) == a[19] && BackLane(a, 4, 1) == a[9] && BackLane(a, 4, 2) == a[24];
      assert BackLane(a, 4, 3) == a[14] && BackLane(a, 4, 4) == a[4];
    }
  }

  lemma BackLanes(a: Lanes, x: nat)
    requires x < 5
    ensures var b := TurnedBack(a);
            && b[x] == BackLane(a, x, 0) && b[5 + x] == BackLane(a, x, 1) && b[10 + x] == BackLane(a, x, 2)
            && b[15 + x] == BackLane(a, x, 3) && b[20 + x] == BackLane(a, x, 4)
  {
    hide BackLane;
  }

  lemma BackAndForth(x: nat, y: nat)
    requires x < 5 && y < 5
    ensures (x + 2 * ((3 * y + 2 * x) % 5)) % 5 == y
  {
    var n := 3 * y + 2 * x;
    var r := n % 5;
    assert n == 5 * (n / 5) + r;
    if r == 0 {
    } else if r == 1 {
    } else if r == 2 {
    } else if r == 3 {
    } else {
    }
  }

  lemma BackPlace(r: nat, x: nat, y: nat)
    requires r > 0 && x < 5 && y < 5
    ensures Place(r, x, (3 * y + 2 * x) % 5) == Place(r - 1, x, y)
  {
    BackAndForth(x, y);
  }

  lemma LaidEarlier(s: Lanes, a: Lanes, r: nat)
    requires r > 0 && Laid(s, a, r)
    ensures Laid(s, TurnedBack(a), r - 1)
  {
    hide Place;
    forall x, y | 0 <= x < 5 && 0 <= y < 5
      ensures s[Place(r - 1, x, y)] == TurnedBack(a)[At(x, y)]
    {
      BackPlace(r, x, y);
      AtIs(x, y);
      assert s[Place(r, x, (3 * y + 2 * x) % 5)] == a[At(x, (3 * y + 2 * x) % 5)];
    }
  }

  lemma {:induction false} LaidColumn(s: Lanes, a: Lanes, r: nat, x: nat)
    requires Laid(s, a, r) && x < 5
    ensures Column(s, x) == Column(a, x)
    decreases r
  {
    hide Laid, Column;
    if r == 0 {
      LaidBack(s, a);
    } else {
      LaidEarlier(s, a, r);
      LaidColumn(s, TurnedBack(a), r - 1, x);
      TurnedBackColumn(a, x);
    }
  }

  // ---- a round in place is a round ----

  /** Lane (x, y) of π(ρ(θ(a))). */
  ghost function Spun(a: Lanes, x: nat, y: nat): Lane
    requires x < 5 && y < 5
  {
    var j := (x + 3 * y) % 5;
    Rotl(Xor(a[At(j, x)], Effect(a, j)), Offset(j, x))
  }

  lemma SpunIs(a: Lanes, x: nat, y: nat)
    requires x < 5 && y < 5
    ensures Pi(Rho(Theta(a)))[At(x, y)] == Spun(a, x, y)
  {
    hide Xor, Rotl, Effect, Offset;
    var j := (x + 3 * y) % 5;
    AtIs(x, y);
    AtIs(j, x);
  }

  lemma RoundLane(a: Lanes, c: Lane, x: nat, y: nat)
    requires x < 5 && y < 5
    ensures Round(a, c)[At(x, y)]
         == var v := Xor(Spun(a, x, y), AndNot(Spun(a, (x + 2) % 5, y), Spun(a, (x + 1) % 5, y)));
            if y == 0 && x == 0 then Xor(v, c) else v
  {
    hide Xor, AndNot, Spun, Theta, Rho, Pi;
    SpunIs(a, x, y);
    SpunIs(a, (x + 2) % 5, y);
    SpunIs(a, (x + 1) % 5, y);
    AtIs(x, y);
  }

  ghost predicate Effects(a: Lanes, d: seq<Lane>) {
    |d| == 5 && forall x :: 0 <= x < 5 ==> d[x] == Effect(a, x)
  }

  /** The places p are where row y of the next round's output is to stand. */
  ghost predicate PlacesOf(p: seq<nat>, r: nat, y: nat)
    requires y < 5
  {
    Places(p) && forall x :: 0 <= x < 5 ==> p[x] == Place(r + 1, x, y)
  }

  /** Rows below n of the output are written, the others still hold what they are made from. */
  ghost predicate Half(s: Lanes, a: Lanes, b: Lanes, r: nat, n: nat) {
    forall x, y | 0 <= x < 5 && 0 <= y < 5 ::
      s[Place(r + 1, x, y)] == if y < n then b[At(x, y)] else a[At(x, Up(x, y))]
  }

  lemma SourceLane(x: nat, y: nat)
    requires x < 5 && y < 5
    ensures Up((x + 3 * y) % 5, y) == x
  {
    var n := x + 3 * y;
    var q := Euclid(n);
    var q' := UpIs(n % 5, y);
    assert Up(n % 5, y) - x == 5 * (y - q - q');
  }

  lemma TurnedIs(s: Lanes, a: Lanes, b: Lanes, r: nat, p: seq<nat>, d: seq<Lane>, y: nat, x: nat)
    requires x < 5 && y < 5 && Half(s, a, b, r, y) && PlacesOf(p, r, y) && Effects(a, d)
    ensures Turned(s, p, d, y, x) == Spun(a, x, y)
  {
    hide Xor, Rotl, Effect, Offset, Place, Up;
    var j := (x + 3 * y) % 5;
    SourceLane(x, y);
    assert s[Place(r + 1, j, y)] == a[At(j, Up(j, y))];
  }

  lemma RowIs(s: Lanes, a: Lanes, r: nat, p: seq<nat>, d: seq<Lane>, y: nat, c: Lane, x: nat)
    requires x < 5 && y < 5 && Half(s, a, Round(a, c), r, y) && PlacesOf(p, r, y) && Effects(a, d)
    ensures RowLane(s, p, d, y, c, x) == Round(a, c)[At(x, y)]
  {
    hide Xor, AndNot, Turned, Spun, Half, Effects, PlacesOf, Round;
    RoundLane(a, c, x, y);
    TurnedIs(s, a, Round(a, c), r, p, d, y, x);
    TurnedIs(s, a, Round(a, c), r, p, d, y, (x + 2) % 5);
    TurnedIs(s, a, Round(a, c), r, p, d, y, (x + 1) % 5);
  }

  lemma RowDone(s: Lanes, s': Lanes, a: Lanes, r: nat, p: seq<nat>, d: seq<Lane>, n: nat, c: Lane)
    requires n < 5 && Half(s, a, Round(a, c), r, n) && PlacesOf(p, r, n) && Effects(a, d)
    requires Rowed(s, s', p, d, n, c)
    ensures Half(s', a, Round(a, c), r, n + 1)
  {
    hide Round, RowLane, Place;
    forall x, y | 0 <= x < 5 && 0 <= y < 5
      ensures s'[Place(r + 1, x, y)] == if y < n + 1 then Round(a, c)[At(x, y)] else a[At(x, Up(x, y))]
    {
      if y == n {
        RowIs(s, a, r, p, d, n, c, x);
        assert p[x] == Place(r + 1, x, y);
      } else {
        forall k | 0 <= k < 5
          ensures p[k] != Place(r + 1, x, y)
        {
          PlaceInjective(r + 1, x, y, k, n);
        }
      }
    }
  }

  lemma RoundStart(s: Lanes, a: Lanes, r: nat, c: Lane)
    requires Laid(s, a, r)
    ensures Half(s, a, Round(a, c), r, 0)
    ensures forall d :: Effects(s, d) ==> Effects(a, d)
  {
    hide Round, Column, Xor, Rotl;
    forall x, y | 0 <= x < 5 && 0 <= y < 5
      ensures s[Place(r + 1, x, y)] == a[At(x, Up(x, y))]
    {
      assert Place(r + 1, x, y) == Place(r, x, Up(x, y));
    }
    forall x | 0 <= x < 5
      ensures Effect(s, x) == Effect(a, x)
    {
      LaidColumn(s, a, r, (x + 4) % 5);
      LaidColumn(s, a, r, (x + 1) % 5);
    }
  }

  // ---- the code ----

  method ColumnEffects(a: array<Lane>) returns (d: seq<Lane>)
    requires a.Length == 25
    ensures |d| == 5 && Effects(a[..], d)
  {
    hide Xor, Xor5, Rotl;
    var bc0 := Xor5(a[0], a[5], a[10], a[15], a[20]);
    var bc1 := Xor5(a[1], a[6], a[11], a[16], a[21]);
    var bc2 := Xor5(a[2], a[7], a[12], a[17], a[22]);
    var bc3 := Xor5(a[3], a[8], a[13], a[18], a[23]);
    var bc4 := Xor5(a[4], a[9], a[14], a[19], a[24]);
    var d0 := Xor(bc4, Rotl(bc1, 1));
    var d1 := Xor(bc0, Rotl(bc2, 1));
    var d2 := Xor(bc1, Rotl(bc3, 1));
    var d3 := Xor(bc2, Rotl(bc4, 1));
    var d4 := Xor(bc3, Rotl(bc0, 1));
    d := [d0, d1, d2, d3, d4];
    ghost var s := a[..];
    assert d0 == Effect(s, 0) && d1 == Effect(s, 1) && d2 == Effect(s, 2) && d3 == Effect(s, 3) && d4 == Effect(s, 4);
    hide Effect;
  }

  /** The row of lane (x, y) after r rounds, in one step. */
  function RowAfter(r: nat, x: nat, y: nat): nat {
    match r
    case 1 => (x + 2 * y) % 5
    case 2 => (3 * x + 4 * y) % 5
    case 3 => (2 * x + 3 * y) % 5
    case _ => y
  }

  lemma TwoTurns(x: nat, y: nat)
    requires x < 5 && y < 5
    ensures Up(x, Up(x, y)) == (3 * x + 4 * y) % 5
  {
    hide Up;
    var n := 3 * x + 4 * y;
    var q1 := UpIs(x, y);
    var q2 := UpIs(x, Up(x, y));
    var q := Euclid(n);
    assert Up(x, Up(x, y)) - n % 5 == 5 * (q - 2 * q1 - q2);
  }

  lemma ThreeTurns(x: nat, y: nat)
    requires x < 5 && y < 5
    ensures Up(x, Up(x, Up(x, y))) == (2 * x + 3 * y) % 5
  {
    hide Up;
    var n := 2 * x + 3 * y;
    var q1 := UpIs(x, y);
    var q2 := UpIs(x, Up(x, y));
    var q3 := UpIs(x, Up(x, Up(x, y)));
    var q := Euclid(n);
    assert Up(x, Up(x, Up(x, y))) - n % 5 == 5 * (x + y + q - 4 * q1 - 2 * q2 - q3);
  }

  lemma RowAfterIs(r: nat, x: nat, y: nat)
    requires 1 <= r <= 4 && x < 5 && y < 5
    ensures RowOf(r, x, y) == RowAfter(r, x, y)
  {
    hide Up;
    if r == 1 {
      assert RowOf(1, x, y) == RowOf(0, x, Up(x, y)) == Up(x, y) == (x + 2 * y) % 5 by { UpOnce(x, y); }
    } else if r == 2 {
      TwoTurns(x, y);
    } else if r == 3 {
      ThreeTurns(x, y);
      assert RowOf(3, x, y) == RowOf(2, x, Up(x, y)) == RowOf(1, x, Up(x, Up(x, y)));
    } else {
      FourTurns(x, y);
    }
  }

  lemma UpOnce(x: nat, y: nat)
    requires x < 5 && y < 5
    ensures Up(x, y) == (x + 2 * y) % 5
  {
  }

  lemma PlacesMatch(p: seq<nat>, r: nat, y: nat)
    requires |p| == 5 && r < 4 && y < 5
    requires forall x :: 0 <= x < 5 ==> p[x] == 5 * RowAfter(r + 1, x, y) + x
    ensures Places(p) && PlacesOf(p, r, y)
  {
    hide RowOf, RowAfter;
    forall x | 0 <= x < 5
      ensures p[x] == Place(r + 1, x, y) && p[x] % 5 == x
    {
      RowAfterIs(r + 1, x, y);
      AtIs(x, RowOf(r + 1, x, y));
    }
  }

  lemma FirstPlaces()
    ensures Places([0, 6, 12, 18, 24]) && PlacesOf([0, 6, 12, 18, 24], 0, 0)
    ensures Places([10, 16, 22, 3, 9]) && PlacesOf([10, 16, 22, 3, 9], 0, 1)
    ensures Places([20, 1, 7, 13, 19]) && PlacesOf([20, 1, 7, 13, 19], 0, 2)
    ensures Places([5, 11, 17, 23, 4]) && PlacesOf([5, 11, 17, 23, 4], 0, 3)
    ensures Places([15, 21, 2, 8, 14]) && PlacesOf([15, 21, 2, 8, 14], 0, 4)
  {
    hide Places, PlacesOf;
    PlacesMatch([0, 6, 12, 18, 24], 0, 0);
    PlacesMatch([10, 16, 22, 3, 9], 0, 1);
    PlacesMatch([20, 1, 7, 13, 19], 0, 2);
    PlacesMatch([5, 11, 17, 23, 4], 0, 3);
    PlacesMatch([15, 21, 2, 8, 14], 0, 4);
  }

  lemma SecondPlaces()
    ensures Places([0, 16, 7, 23, 14]) && PlacesOf([0, 16, 7, 23, 14], 1, 0)
    ensures Places([20, 11, 2, 18, 9]) && PlacesOf([20, 11, 2, 18, 9], 1, 1)
    ensures Places([15, 6, 22, 13, 4]) && PlacesOf([15, 6, 22, 13, 4], 1, 2)
    ensures Places([10, 1, 17, 8, 24]) && PlacesOf([10, 1, 17, 8, 24], 1, 3)
    ensures Places([5, 21, 12, 3, 19]) && PlacesOf([5, 21, 12, 3, 19], 1, 4)
  {
    hide Places, PlacesOf;
    PlacesMatch([0, 16, 7, 23, 14], 1, 0);
    PlacesMatch([20, 11, 2, 18, 9], 1, 1);
    PlacesMatch([15, 6, 22, 13, 4], 1, 2);
    PlacesMatch([10, 1, 17, 8, 24], 1, 3);
    PlacesMatch([5, 21, 12, 3, 19], 1, 4);
  }

  lemma ThirdPlaces()
    ensures Places([0, 11, 22, 8, 19]) && PlacesOf([0, 11, 22, 8, 19], 2, 0)
    ensures Places([15, 1, 12, 23, 9]) && PlacesOf([15, 1, 12, 23, 9], 2, 1)
    ensures Places([5, 16, 2, 13, 24]) && PlacesOf([5, 16, 2, 13, 24], 2, 2)
    ensures Places([20, 6, 17, 3, 14]) && PlacesOf([20, 6, 17, 3, 14], 2, 3)
    ensures Places([10, 21, 7, 18, 4]) && PlacesOf([10, 21, 7, 18, 4], 2, 4)
  {
    hide Places, PlacesOf;
    PlacesMatch([0, 11, 22, 8, 19], 2, 0);
    PlacesMatch([15, 1, 12, 23, 9], 2, 1);
    PlacesMatch([5, 16, 2, 13, 24], 2, 2);
    PlacesMatch([20, 6, 17, 3, 14], 2, 3);
    PlacesMatch([10, 21, 7, 18, 4], 2, 4);
  }

  lemma FourthPlaces()
    ensures Places([0, 1, 2, 3, 4]) && PlacesOf([0, 1, 2, 3, 4], 3, 0)
    ensures Places([5, 6, 7, 8, 9]) && PlacesOf([5, 6, 7, 8, 9], 3, 1)
    ensures Places([10, 11, 12, 13, 14]) && PlacesOf([10, 11, 12, 13, 14], 3, 2)
    ensures Places([15, 16, 17, 18, 19]) && PlacesOf([15, 16, 17, 18, 19], 3, 3)
    ensures Places([20, 21, 22, 23, 24]) && PlacesOf([20, 21, 22, 23, 24], 3, 4)
  {
    hide Places, PlacesOf;
    PlacesMatch([0, 1, 2, 3, 4], 3, 0);
    PlacesMatch([5, 6, 7, 8, 9], 3, 1);
    PlacesMatch([10, 11, 12, 13, 14], 3, 2);
    PlacesMatch([15, 16, 17, 18, 19], 3, 3);
    PlacesMatch([20, 21, 22, 23, 24], 3, 4);
  }

  /** One round of the unrolled text, which repeats it with the indices written out. */
  method RoundInPlace(a: array<Lane>, p0: seq<nat>, p1: seq<nat>, p2: seq<nat>, p3: seq<nat>, p4: seq<nat>, c: Lane,
                      ghost r: nat, ghost b: Lanes)
    requires a.Length == 25 && Laid(a[..], b, r)
    requires Places(p0) && Places(p1) && Places(p2) && Places(p3) && Places(p4)
    requires PlacesOf(p0, r, 0) && PlacesOf(p1, r, 1) && PlacesOf(p2, r, 2) && PlacesOf(p3, r, 3) && PlacesOf(p4, r, 4)
    modifies a
    ensures Laid(a[..], Round(b, c), r + 1)
  {
    hide *;
    ghost var s0 := a[..];
    RoundStart(s0, b, r, c);
    var d := ColumnEffects(a);
    Row0(a, p0, d, c);
    RowDone(s0, a[..], b, r, p0, d, 0, c);
    ghost var s1 := a[..];
    Row1(a, p1, d, c);
    RowDone(s1, a[..], b, r, p1, d, 1, c);
    ghost var s2 := a[..];
    Row2(a, p2, d, c);
    RowDone(s2, a[..], b, r, p2, d, 2, c);
    ghost var s3 := a[..];
    Row3(a, p3, d, c);
    RowDone(s3, a[..], b, r, p3, d, 3, c);
    ghost var s4 := a[..];
    Row4(a, p4, d, c);
    RowDone(s4, a[..], b, r, p4, d, 4, c);
    RoundEnd(a[..], b, r, c);
  }

  lemma RoundEnd(s: Lanes, a: Lanes, r: nat, c: Lane)
    requires Half(s, a, Round(a, c), r, 5)
    ensures Laid(s, Round(a, c), r + 1)
  {
    hide Round, Place, Up;
  }

  /** The body of the loop: four rounds, after which every lane is back in its place. */
  method FourRounds(a: array<Lane>, c0: Lane, c1: Lane, c2: Lane, c3: Lane)
    requires a.Length == 25
    modifies a
    ensures a[..] == Round(Round(Round(Round(old(a[..]), c0), c1), c2), c3)
  {
    hide *;
    ghost var b0 := a[..];
    LaidBack(b0, b0);
    FirstPlaces();
    RoundInPlace(a, [0, 6, 12, 18, 24], [10, 16, 22, 3, 9], [20, 1, 7, 13, 19],
                 [5, 11, 17, 23, 4], [15, 21, 2, 8, 14], c0, 0, b0);
    ghost var b1 := Round(b0, c0);
    SecondPlaces();
    RoundInPlace(a, [0, 16, 7, 23, 14], [20, 11, 2, 18, 9], [15, 6, 22, 13, 4],
                 [10, 1, 17, 8, 24], [5, 21, 12, 3, 19], c1, 1, b1);
    ghost var b2 := Round(b1, c1);
    ThirdPlaces();
    RoundInPlace(a, [0, 11, 22, 8, 19], [15, 1, 12, 23, 9], [5, 16, 2, 13, 24],
                 [20, 6, 17, 3, 14], [10, 21, 7, 18, 4], c2, 2, b2);
    ghost var b3 := Round(b2, c2);
    FourthPlaces();
    RoundInPlace(a, [0, 1, 2, 3, 4], [5, 6, 7, 8, 9], [10, 11, 12, 13, 14],
                 [15, 16, 17, 18, 19], [20, 21, 22, 23, 24], c3, 3, b3);
    LaidBack(a[..], Round(b3, c3));
  }

  /** The whole permutation. */
  method KeccakF1600(a: array<Lane>)
    requires a.Length == 25
    modifies a
    ensures a[..] == KeccakF(old(a[..]))
  {
    hide Round;
    ghost var start := a[..];
    var i := 0;
    ghost var k := 0;
    while i < 24
      invariant i == 4 * k && 0 <= i <= 24
      invariant a[..] == Rounds(start, i)
    {
      FourRounds(a, Lane(RC[i]), Lane(RC[i + 1]), Lane(RC[i + 2]), Lane(RC[i + 3]));
      RoundsFour(start, i);
      i, k := i + 4, k + 1;
    }
  }

  lemma RoundsFour(a: Lanes, n: nat)
    requires n + 4 <= 24
    ensures Rounds(a, n + 4)
         == Round(Round(Round(Round(Rounds(a, n), Lane(RC[n])), Lane(RC[n + 1])), Lane(RC[n + 2])), Lane(RC[n + 3]))
  {
    hide Round;
    assert Rounds(a, n + 4) == Round(Rounds(a, n + 3), Lane(RC[n + 3]));
    assert Rounds(a, n + 2) == Round(Rounds(a, n + 1), Lane(RC[n + 1]));
  }

  // ---- the tables of the standard ----

  /** The walk of section 3.2.2 over the lanes, from (1, 0). */
  function Walk(t: nat): (nat, nat) {
    if t == 0 then (1, 0) else var (x, y) := Walk(t - 1); (y, (2 * x + 3 * y) % 5)
  }

  /** When the walk comes to lane (x, y). */
  function When(x: nat, y: nat): nat {
    match y
    case 0 => if x == 0 then 24 else if x == 1 then 0 else if x == 2 then 18 else if x == 3 then 6 else 12
    case 1 => if x == 0 then 7 else if x == 1 then 23 else if x == 2 then 2 else if x == 3 then 9 else 22
    case 2 => if x == 0 then 1 else if x == 1 then 3 else if x == 2 then 17 else if x == 3 then 16 else 20
    case 3 => if x == 0 then 13 else if x == 1 then 8 else if x == 2 then 4 else if x == 3 then 5 else 15
    case _ => if x == 0 then 19 else if x == 1 then 10 else if x == 2 then 21 else if x == 3 then 14 else 11
  }

  /** The walk comes to every lane but (0, 0), and its lane t is rotated by (t + 1)(t + 2) / 2. */
  lemma OffsetsFollowWalk(x: nat, y: nat)
    requires x < 5 && y < 5
    ensures (x, y) != (0, 0) ==>
      var t := When(x, y); t < 24 && Walk(t) == (x, y) && Offset(x, y) == (t + 1) * (t + 2) / 2 % 64
    ensures Offset(0, 0) == 0
  {
    WalkTable();
    hide Walk;
  }

  lemma WalkTable()
    ensures Walk(0) == (1, 0) && Walk(1) == (0, 2) && Walk(2) == (2, 1) && Walk(3) == (1, 2) && Walk(4) == (2, 3) &&
            Walk(5) == (3, 3)
    ensures Walk(6) == (3, 0) && Walk(7) == (0, 1) && Walk(8) == (1, 3) && Walk(9) == (3, 1) && Walk(10) == (1, 4) &&
            Walk(11) == (4, 4)
    ensures Walk(12) == (4, 0) && Walk(13) == (0, 3) && Walk(14) == (3, 4) && Walk(15) == (4, 3) &&
            Walk(16) == (3, 2) && Walk(17) == (2, 2)
    ensures Walk(18) == (2, 0) && Walk(19) == (0, 4) && Walk(20) == (4, 2) && Walk(21) == (2, 4) &&
            Walk(22) == (4, 1) && Walk(23) == (1, 1)
  {
  }

  /** The shift register of section 3.2.5, bit i of the register being the bit of weight 2^i. */
  function Shifted(r: bv8): bv8 {
    if r & 0x80 == 0 then r << 1 else (r << 1) ^ 0x71
  }

  function Register(t: nat): bv8 {
    if t == 0 then 1 else Shifted(Register(t - 1))
  }

  function RegisterBit(t: nat): bv64 {
    (Register(t) & 1) as bv64
  }

  /** The constant of round i: bit 2^j - 1 is bit j + 7i of the register's output. */
  function RoundConstant(i: nat): bv64 {
    RegisterBit(7 * i) | (RegisterBit(7 * i + 1) << 1) | (RegisterBit(7 * i + 2) << 3) | (RegisterBit(7 * i + 3) << 7)
    | (RegisterBit(7 * i + 4) << 15) | (RegisterBit(7 * i + 5) << 31) | (RegisterBit(7 * i + 6) << 63)
  }

  lemma RegisterStep(i: nat, r: bv8, r': bv8, c: bv64)
    requires Register(7 * i) == r
    requires r' == Shifted(Shifted(Shifted(Shifted(Shifted(Shifted(Shifted(r)))))))
    requires c == OutputOf(r)
    ensures Register(7 * (i + 1)) == r' && RoundConstant(i) == c
  {
    hide Shifted;
    assert Register(7 * i + 2) == Shifted(Register(7 * i + 1));
    assert Register(7 * i + 4) == Shifted(Register(7 * i + 3));
    assert Register(7 * i + 6) == Shifted(Register(7 * i + 5));
  }

  function OutputOf(r: bv8): bv64 {
    var r1 := Shifted(r);
    var r2 := Shifted(r1);
    var r3 := Shifted(r2);
    var r4 := Shifted(r3);
    var r5 := Shifted(r4);
    var r6 := Shifted(r5);
    ((r & 1) as bv64) | (((r1 & 1) as bv64) << 1) | (((r2 & 1) as bv64) << 3) | (((r3 & 1) as bv64) << 7)
    | (((r4 & 1) as bv64) << 15) | (((r5 & 1) as bv64) << 31) | (((r6 & 1) as bv64) << 63)
  }

  lemma FirstConstants(i: nat)
    ensures Register(7 * 12) == 0xD5
    ensures i < 12 ==> RC[i] == RoundConstant(i)
  {
    assert Register(7 * 0) == 1;
    hide Register, RoundConstant;
    RegisterStep(0, 0x01, 0x80, 0x0000000000000001);
    RegisterStep(1, 0x80, 0xD8, 0x0000000000008082);
    RegisterStep(2, 0xD8, 0x1A, 0x800000000000808A);
    RegisterStep(3, 0x1A, 0xDF, 0x8000000080008000);
    RegisterStep(4, 0xDF, 0x09, 0x000000000000808B);
    RegisterStep(5, 0x09, 0x35, 0x0000000080000001);
    RegisterStep(6, 0x35, 0x4F, 0x8000000080008081);
    RegisterStep(7, 0x4F, 0xCA, 0x8000000000008009);
    RegisterStep(8, 0xCA, 0x70, 0x000000000000008A);
    RegisterStep(9, 0x70, 0x41, 0x0000000000000088);
    RegisterStep(10, 0x41, 0xEC, 0x0000000080008009);
    RegisterStep(11, 0xEC, 0xD5, 0x000000008000000A);
  }

  /** The table of constants is the register's. */
  lemma RoundConstants(i: nat)
    requires i < 24
    ensures RC[i] == RoundConstant(i)
  {
    hide Register, RoundConstant;
    FirstConstants(i);
    RegisterStep(12, 0xD5, 0xCD, 0x000000008000808B);
    RegisterStep(13, 0xCD, 0x63, 0x800000000000008B);
    RegisterStep(14, 0x63, 0xAB, 0x8000000000008089);
    RegisterStep(15, 0xAB, 0xAA, 0x8000000000008003);
    RegisterStep(16, 0xAA, 0x2A, 0x8000000000008002);
    RegisterStep(17, 0x2A, 0xF2, 0x8000000000000080);
    RegisterStep(18, 0xF2, 0xE8, 0x000000000000800A);
    RegisterStep(19, 0xE8, 0x37, 0x800000008000000A);
    RegisterStep(20, 0x37, 0x3E, 0x8000000080008081);
    RegisterStep(21, 0x3E, 0x0B, 0x8000000000008080);
    RegisterStep(22, 0x0B, 0x44, 0x0000000080000001);
    RegisterStep(23, 0x44, 0x8E, 0x8000000080008008);
  }
}
