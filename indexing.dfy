/** Index arithmetic over the padded flat buffer: `multiplyAll`,
    `determinePadding`, the coordinate-to-index maps `getIdx` and `getOffsetIdx`,
    the halo test `isOutOfBounds` and the odometer `incrementCoordinate`.

    Two forms of the same sum are used. `Weighted` is the form the source
    computes: the sum over i of x[i] times the stride of dimension i, the stride
    being the product of the padded extents of the lower dimensions. `Enc` is
    the Horner form x[0] + r[0] * (x[1] + r[1] * (...)), which makes decoding a
    flat index back into a padded coordinate (`Decode`) easy to reason about.
    `WeightedIsEnc` shows the two agree. Dimension 0 varies fastest. */
module Indexing {

  /** `multiplyAll`: the product of all entries; 1 for the empty sequence. */
  function Product(xs: seq<nat>): (p: nat)
    ensures Positive(xs) ==> p > 0
  {
    if xs == [] then 1 else xs[0] * Product(xs[1..])
  }

  /** The padded extent of every dimension: `shape[i] + 2 * maxNeighborDistance`
      (`getRealDimSize`). */
  function RealDims(shape: seq<nat>, d: nat): seq<nat>
  {
    seq(|shape|, i requires 0 <= i < |shape| => shape[i] + 2 * d)
  }

  predicate Positive(rs: seq<nat>)
  {
    forall i :: 0 <= i < |rs| ==> rs[i] > 0
  }

  /** A padded coordinate inside the padded box, halo included. */
  predicate InRange(rs: seq<nat>, p: seq<int>)
  {
    |p| == |rs| && forall i :: 0 <= i < |rs| ==> 0 <= p[i] < rs[i]
  }

  /** An interior coordinate: every component below its extent. */
  predicate InExtents(shape: seq<nat>, c: seq<nat>)
  {
    |c| == |shape| && forall i :: 0 <= i < |shape| ==> c[i] < shape[i]
  }

  /** `isOutOfBounds`: a padded coordinate is a halo slot when some component
      lies in the halo below (`< d`) or above (`>= shape[i] + d`). */
  predicate IsOutOfBounds(shape: seq<nat>, d: nat, p: seq<int>): (b: bool)
    requires |p| == |shape|
  {
    exists i :: 0 <= i < |shape| && (p[i] < d || p[i] >= shape[i] + d)
  }

  /** A coordinate moved into padded space: every component plus `d`. */
  function Shift(c: seq<nat>, d: nat): seq<nat>
  {
    seq(|c|, i requires 0 <= i < |c| => c[i] + d)
  }

  function Add(a: seq<int>, b: seq<int>): seq<int>
    requires |a| == |b|
  {
    seq(|a|, i requires 0 <= i < |a| => a[i] + b[i])
  }

  /** The stride of dimension i: the product of the padded extents below it. */
  function Stride(rs: seq<nat>, i: nat): nat
    requires i <= |rs|
  {
    Product(rs[..i])
  }

  /** The sum of the first n chunks `x[i] * Stride(rs, i)`, as `getIdx` and
      `getOffsetIdx` accumulate it. */
  function Weighted(rs: seq<nat>, x: seq<int>, n: nat): int
    requires n <= |x| == |rs|
  {
    if n == 0 then 0 else Weighted(rs, x, n - 1) + x[n - 1] * Stride(rs, n - 1)
  }

  /** The Horner form of the same sum. */
  function Enc(rs: seq<nat>, x: seq<int>): int
    requires |x| == |rs|
  {
    if rs == [] then 0 else x[0] + rs[0] * Enc(rs[1..], x[1..])
  }

  /** Mixed-radix decoding of a flat index into a padded coordinate. */
  function Decode(rs: seq<nat>, k: nat): (p: seq<nat>)
    requires Positive(rs)
    ensures |p| == |rs|
  {
    if rs == [] then [] else [k % rs[0]] + Decode(rs[1..], k / rs[0])
  }

  /** `getIdx` on a coordinate of the right length. */
  function FlatIndex(shape: seq<nat>, d: nat, c: seq<nat>): (k: nat)
    requires |c| == |shape|
    ensures k == Enc(RealDims(shape, d), Shift(c, d))
  {
    var rs, x := RealDims(shape, d), Shift(c, d);
    WeightedNonNegative(rs, x, |x|);
    WeightedIsEnc(rs, x);
    Weighted(rs, x, |x|)
  }

  /** `getOffsetIdx` on an offset tuple of the right length. */
  function OffsetIndex(shape: seq<nat>, d: nat, o: seq<int>): (k: int)
    requires |o| == |shape|
    ensures k == Enc(RealDims(shape, d), o)
  {
    WeightedIsEnc(RealDims(shape, d), o);
    Weighted(RealDims(shape, d), o, |o|)
  }

  /** One step of the odometer `incrementCoordinate`: bump component 0 modulo its
      padded extent and carry into the next component while the bumped one wraps
      to zero, stopping after the last dimension. */
  function Next(rs: seq<nat>, p: seq<nat>): (q: seq<nat>)
    requires Positive(rs) && |p| == |rs| >= 1
    ensures |q| == |p|
  {
    var h := (p[0] + 1) % rs[0];
    if h != 0 || |rs| == 1 then [h] + p[1..] else [h] + Next(rs[1..], p[1..])
  }

  /** The odometer never leaves the padded box: every component stays below
      its extent. */
  lemma {:induction false} NextStaysInRange(rs: seq<nat>, p: seq<nat>)
    requires Positive(rs) && |p| == |rs| >= 1 && InRange(rs, p)
    ensures InRange(rs, Next(rs, p))
  {
    var h := (p[0] + 1) % rs[0];
    if h == 0 && |rs| > 1 {
      assert InRange(rs[1..], p[1..]);
      NextStaysInRange(rs[1..], p[1..]);
    }
  }

  // ---------------------------------------------------------------------------
  // Padding

  /** `determinePadding`: the padded volume at distance 1 minus the interior. */
  function DeterminePadding(shape: seq<nat>): (p: nat)
    ensures Product(shape) + p == Product(RealDims(shape, 1))
  {
    ProductMonotone(shape, RealDims(shape, 1));
    Product(RealDims(shape, 1)) - Product(shape)
  }

  /** The padding as the constructor computes it:
      `determinePadding(shape) * maxNeighborDistance`. */
  function PaddingAsWritten(shape: seq<nat>, d: nat): (p: nat)
    ensures d <= 1 ==> Product(shape) + p == Product(RealDims(shape, d))
  {
    assert d == 0 ==> RealDims(shape, d) == shape;
    DeterminePadding(shape) * d
  }

  /** The number of halo slots: the padded volume minus the interior volume. */
  function Padding(shape: seq<nat>, d: nat): (p: nat)
    ensures Product(shape) + p == Product(RealDims(shape, d))
  {
    ProductMonotone(shape, RealDims(shape, d));
    Product(RealDims(shape, d)) - Product(shape)
  }

  // ---------------------------------------------------------------------------
  // Arithmetic helpers

  lemma MulMonotone(a: nat, x: int, y: int)
    requires x <= y
    ensures a * x <= a * y
  {
    assert a * y - a * x == a * (y - x);
  }

  lemma DivModUnique(a: int, r: nat, b: int)
    requires 0 <= a < r
    ensures (a + r * b) % r == a && (a + r * b) / r == b
  {
    var n := a + r * b;
    var q, m := n / r, n % r;
    assert n == r * q + m;
    assert r * (b - q) == m - a;
    if b - q >= 1 {
      MulMonotone(r, 1, b - q);
    } else if b - q <= -1 {
      MulMonotone(r, b - q, -1);
    }
  }

  lemma {:induction false} ProductMonotone(a: seq<nat>, b: seq<nat>)
    requires |a| == |b| && forall i :: 0 <= i < |a| ==> a[i] <= b[i]
    ensures Product(a) <= Product(b)
  {
    if a != [] {
      ProductMonotone(a[1..], b[1..]);
      MulMonotone(a[0], Product(a[1..]), Product(b[1..]));
      assert a[0] * Product(b[1..]) <= b[0] * Product(b[1..]);
    }
  }

  lemma {:induction false} WeightedNonNegative(rs: seq<nat>, x: seq<int>, n: nat)
    requires n <= |x| == |rs|
    requires forall i :: 0 <= i < |x| ==> x[i] >= 0
    ensures Weighted(rs, x, n) >= 0
  {
    if n > 0 {
      WeightedNonNegative(rs, x, n - 1);
    }
  }

  lemma StrideStep(rs: seq<nat>, i: nat)
    requires 0 < |rs| && i < |rs|
    ensures Stride(rs, i + 1) == rs[0] * Stride(rs[1..], i)
  {
    assert rs[..i + 1][1..] == rs[1..][..i];
  }

  lemma {:induction false} ProductSnoc(s: seq<nat>, x: nat)
    ensures Product(s + [x]) == Product(s) * x
  {
    if s != [] {
      assert (s + [x])[1..] == s[1..] + [x];
      ProductSnoc(s[1..], x);
      var a, b := s[0], Product(s[1..]);
      assert Product(s + [x]) == a * (b * x);
      assert a * (b * x) == (a * b) * x;
    } else {
      assert [x][1..] == [];
    }
  }

  /** Each stride is the one below it times that dimension's padded extent, as
      the inner loops of `getIdx` and `getOffsetIdx` compute it. */
  lemma StrideSnoc(rs: seq<nat>, j: nat)
    requires 0 < j <= |rs|
    ensures Stride(rs, j) == Stride(rs, j - 1) * rs[j - 1]
  {
    assert rs[..j] == rs[..j - 1] + [rs[j - 1]];
    ProductSnoc(rs[..j - 1], rs[j - 1]);
  }

  /** One step of the odometer on the components from i on: bump component i
      and carry on only when it wrapped and a higher component remains. */
  lemma NextUnfold(rs: seq<nat>, p: seq<nat>, i: nat)
    requires Positive(rs) && |p| == |rs| && i < |rs|
    ensures Positive(rs[i..])
    ensures var h := (p[i] + 1) % rs[i];
      Next(rs[i..], p[i..]) ==
        if h != 0 || i + 1 == |rs| then [h] + p[i + 1..] else [h] + Next(rs[i + 1..], p[i + 1..])
  {
    assert rs[i..][0] == rs[i] && p[i..][0] == p[i];
    assert rs[i..][1..] == rs[i + 1..] && p[i..][1..] == p[i + 1..];
  }

  /** When components 0 to i - 1 all wrap, the odometer step zeroes them and
      carries into component i. */
  lemma {:induction false} NextCarries(rs: seq<nat>, p: seq<nat>, i: nat)
    requires Positive(rs) && |p| == |rs| && i < |rs|
    requires forall m :: 0 <= m < i ==> (p[m] + 1) % rs[m] == 0
    ensures Positive(rs[i..])
    ensures Next(rs, p) == seq(i, _ => 0) + Next(rs[i..], p[i..])
  {
    if i == 0 {
      assert rs[0..] == rs && p[0..] == p;
    } else {
      NextCarries(rs, p, i - 1);
      NextUnfold(rs, p, i - 1);
      var zs, rest := seq(i - 1, _ => 0), Next(rs[i..], p[i..]);
      assert Next(rs[i - 1..], p[i - 1..]) == [0] + rest;
      assert zs + ([0] + rest) == (zs + [0]) + rest;
      assert zs + [0] == seq(i, _ => 0);
    }
  }

  /** The state `incrementCoordinate` leaves: components below i wrapped to
      zero, component i bumped without wrapping (or the last one), the rest
      untouched. That is exactly one odometer step. */
  lemma NextResult(rs: seq<nat>, p: seq<nat>, i: nat, q: seq<nat>)
    requires Positive(rs) && |p| == |rs| == |q| && i < |rs|
    requires forall m :: 0 <= m < i ==> q[m] == 0 && (p[m] + 1) % rs[m] == 0
    requires q[i] == (p[i] + 1) % rs[i] && (q[i] != 0 || i + 1 == |rs|)
    requires forall m :: i < m < |rs| ==> q[m] == p[m]
    ensures q == Next(rs, p)
  {
    NextCarries(rs, p, i);
    NextUnfold(rs, p, i);
    var zs: seq<nat> := seq(i, _ => 0);
    var tail := [q[i]] + p[i + 1..];
    assert Next(rs[i..], p[i..]) == tail;
    var r := zs + tail;
    assert |r| == |q|;
    forall m | 0 <= m < |q| ensures q[m] == r[m] {
      if m < i {
        assert r[m] == zs[m] == 0;
      } else if m == i {
        assert r[m] == tail[0];
      } else {
        assert r[m] == tail[m - i] == p[m];
      }
    }
  }

  /** One more factor of the inner loop of `getIdx`: multiplying a chunk by
      the padded extent j - 1 moves it from stride j - 1 to stride j. */
  lemma ChunkStep(a: int, rs: seq<nat>, j: nat)
    requires 0 < j <= |rs|
    ensures a * Stride(rs, j - 1) * rs[j - 1] == a * Stride(rs, j)
  {
    StrideSnoc(rs, j);
    assert a * Stride(rs, j - 1) * rs[j - 1] == a * (Stride(rs, j - 1) * rs[j - 1]);
  }

  lemma Factor(b: int, a: int, w: int, y: int, s: int)
    ensures b + a * w + y * (a * s) == b + a * (w + y * s)
  {
    assert y * (a * s) == a * (y * s);
    assert a * (w + y * s) == a * w + a * (y * s);
  }

  /** Peeling dimension 0 off the source's weighted sum. */
  lemma {:induction false} WeightedPeel(rs: seq<nat>, x: seq<int>, n: nat)
    requires 1 <= n <= |x| == |rs|
    ensures Weighted(rs, x, n) == x[0] + rs[0] * Weighted(rs[1..], x[1..], n - 1)
  {
    if n == 1 {
      assert Stride(rs, 0) == 1 by { assert rs[..0] == []; }
    } else {
      WeightedPeel(rs, x, n - 1);
      StrideStep(rs, n - 2);
      var w := Weighted(rs[1..], x[1..], n - 2);
      var s := Stride(rs[1..], n - 2);
      assert x[1..][n - 2] == x[n - 1];
      assert Weighted(rs[1..], x[1..], n - 1) == w + x[n - 1] * s;
      assert Weighted(rs, x, n) == x[0] + rs[0] * w + x[n - 1] * (rs[0] * s);
      Factor(x[0], rs[0], w, x[n - 1], s);
    }
  }

  /** The source's sum of strided chunks equals the Horner form. */
  lemma {:induction false} WeightedIsEnc(rs: seq<nat>, x: seq<int>)
    requires |x| == |rs|
    ensures Weighted(rs, x, |x|) == Enc(rs, x)
  {
    if rs != [] {
      WeightedPeel(rs, x, |x|);
      WeightedIsEnc(rs[1..], x[1..]);
    }
  }

  // ---------------------------------------------------------------------------
  // Decoding

  lemma {:induction false} DecodeInRange(rs: seq<nat>, k: nat)
    requires Positive(rs)
    ensures InRange(rs, Decode(rs, k))
  {
    if rs != [] {
      DecodeInRange(rs[1..], k / rs[0]);
    }
  }

  lemma {:induction false} DecodeZero(rs: seq<nat>)
    requires Positive(rs)
    ensures Decode(rs, 0) == seq(|rs|, i => 0)
  {
    if rs != [] {
      DecodeZero(rs[1..]);
    }
  }

  /** A padded coordinate inside the box encodes to a slot of the buffer. */
  lemma {:induction false} EncBounds(rs: seq<nat>, p: seq<int>)
    requires InRange(rs, p)
    ensures 0 <= Enc(rs, p) < Product(rs)
  {
    if rs != [] {
      EncBounds(rs[1..], p[1..]);
      var r, e, n := rs[0], Enc(rs[1..], p[1..]), Product(rs[1..]);
      assert Enc(rs, p) == p[0] + r * e && Product(rs) == r * n;
      MulMonotone(r, e, n - 1);
      assert r * (n - 1) == r * n - r;
      MulMonotone(r, 0, e);
    }
  }

  /** Decoding a slot and encoding it again gives the slot back. */
  lemma {:induction false} EncDecode(rs: seq<nat>, k: nat)
    requires Positive(rs) && k < Product(rs)
    ensures Enc(rs, Decode(rs, k)) == k
  {
    if rs != [] {
      var q := k / rs[0];
      assert q < Product(rs[1..]) by {
        if q >= Product(rs[1..]) {
          MulMonotone(rs[0], Product(rs[1..]), q);
        }
      }
      EncDecode(rs[1..], q);
      assert Decode(rs, k)[1..] == Decode(rs[1..], q);
    }
  }

  /** Encoding a coordinate of the box and decoding it gives it back. */
  lemma {:induction false} DecodeEnc(rs: seq<nat>, p: seq<int>)
    requires InRange(rs, p)
    ensures Positive(rs) && Enc(rs, p) >= 0 && Decode(rs, Enc(rs, p)) == p
  {
    EncBounds(rs, p);
    if rs != [] {
      DecodeEnc(rs[1..], p[1..]);
      var e := Enc(rs[1..], p[1..]);
      DivModUnique(p[0], rs[0], e);
      assert p == [p[0]] + p[1..];
    }
  }

  /** Encoding is linear: adding offset tuples adds their encodings. */
  lemma {:induction false} EncAdd(rs: seq<nat>, a: seq<int>, b: seq<int>)
    requires |a| == |b| == |rs|
    ensures Enc(rs, Add(a, b)) == Enc(rs, a) + Enc(rs, b)
  {
    if rs != [] {
      assert Add(a, b)[1..] == Add(a[1..], b[1..]);
      EncAdd(rs[1..], a[1..], b[1..]);
      var ea, eb := Enc(rs[1..], a[1..]), Enc(rs[1..], b[1..]);
      assert rs[0] * (ea + eb) == rs[0] * ea + rs[0] * eb;
    }
  }

  // ---------------------------------------------------------------------------
  // Properties of the padded layout

  lemma RealDimsPositive(shape: seq<nat>, d: nat)
    requires d >= 1
    ensures Positive(RealDims(shape, d))
  {
  }

  /** `getIdx` sends an interior coordinate to a slot of the buffer whose padded
      coordinate is the shifted coordinate, and that slot is not a halo slot. */
  lemma InteriorCoordinateLandsInside(shape: seq<nat>, d: nat, c: seq<nat>)
    requires d >= 1 && InExtents(shape, c)
    ensures var rs := RealDims(shape, d);
      && FlatIndex(shape, d, c) < Product(rs)
      && Decode(rs, FlatIndex(shape, d, c)) == Shift(c, d)
      && !IsOutOfBounds(shape, d, Decode(rs, FlatIndex(shape, d, c)))
  {
    var rs, x := RealDims(shape, d), Shift(c, d);
    assert InRange(rs, x);
    WeightedIsEnc(rs, x);
    EncBounds(rs, x);
    DecodeEnc(rs, x);
  }

  /** `getIdx` is injective on interior coordinates. */
  lemma FlatIndexInjective(shape: seq<nat>, d: nat, c1: seq<nat>, c2: seq<nat>)
    requires d >= 1 && InExtents(shape, c1) && InExtents(shape, c2)
    requires FlatIndex(shape, d, c1) == FlatIndex(shape, d, c2)
    ensures c1 == c2
  {
    InteriorCoordinateLandsInside(shape, d, c1);
    InteriorCoordinateLandsInside(shape, d, c2);
    assert Shift(c1, d) == Shift(c2, d);
    assert forall i :: 0 <= i < |c1| ==> c1[i] == Shift(c1, d)[i] - d;
  }

  /** Every interior slot of the buffer is `getIdx` of some interior coordinate:
      its padded coordinate with the halo width taken off. */
  lemma InteriorSlotHasCoordinate(shape: seq<nat>, d: nat, k: nat) returns (c: seq<nat>)
    requires d >= 1 && k < Product(RealDims(shape, d))
    requires !IsOutOfBounds(shape, d, Decode(RealDims(shape, d), k))
    ensures InExtents(shape, c) && FlatIndex(shape, d, c) == k
  {
    var rs := RealDims(shape, d);
    var p := Decode(rs, k);
    assert forall i :: 0 <= i < |shape| ==> d <= p[i] < shape[i] + d;
    c := seq(|shape|, i requires 0 <= i < |shape| => p[i] - d);
    assert Shift(c, d) == p;
    WeightedIsEnc(rs, Shift(c, d));
    EncDecode(rs, k);
  }

  /** How div and mod by r change when k grows by one. */
  lemma SuccessorDivMod(k: nat, r: nat)
    requires r > 0
    ensures k % r + 1 < r ==> (k + 1) % r == k % r + 1 && (k + 1) / r == k / r
    ensures k % r + 1 >= r ==> (k + 1) % r == 0 && (k + 1) / r == k / r + 1
    ensures k % r + 1 >= r ==> k + 1 == r * (k / r + 1)
  {
    var q := k / r;
    assert k == k % r + r * q;
    if k % r + 1 < r {
      DivModUnique(k % r + 1, r, q);
    } else {
      assert k + 1 == 0 + r * (q + 1);
      DivModUnique(0, r, q + 1);
    }
  }

  /** A carry out of dimension 0 before the last slot lands inside the rest. */
  lemma CarryStaysInside(rs: seq<nat>, q: nat)
    requires |rs| >= 1 && rs[0] > 0 && rs[0] * (q + 1) < Product(rs)
    ensures |rs| > 1 && q + 1 < Product(rs[1..])
  {
    var n := Product(rs[1..]);
    assert Product(rs) == rs[0] * n;
    if |rs| == 1 {
      assert n == 1;
      MulMonotone(rs[0], 1, q + 1);
    } else if q + 1 >= n {
      MulMonotone(rs[0], n, q + 1);
    }
  }

  lemma DecodeUnfold(rs: seq<nat>, k: nat)
    requires Positive(rs) && |rs| >= 1
    ensures Positive(rs[1..])
    ensures Decode(rs, k) == [k % rs[0]] + Decode(rs[1..], k / rs[0])
  {
  }

  lemma ModBelow(x: nat, r: nat)
    requires x < r
    ensures x % r == x
  {
    DivModUnique(x, r, 0);
  }

  lemma ModSelf(r: nat)
    requires r > 0
    ensures r % r == 0
  {
    DivModUnique(0, r, 1);
  }

  /** An odometer step whose first component does not wrap. */
  lemma NextNoCarry(rs: seq<nat>, a: nat, rest: seq<nat>)
    requires Positive(rs) && |rs| >= 1 && |rest| == |rs| - 1 && a + 1 < rs[0]
    ensures Next(rs, [a] + rest) == [a + 1] + rest
  {
    var p := [a] + rest;
    assert p[0] == a && p[1..] == rest;
    ModBelow(a + 1, rs[0]);
  }

  /** An odometer step whose first component wraps and carries. */
  lemma NextCarry(rs: seq<nat>, a: nat, rest: seq<nat>)
    requires Positive(rs) && |rs| > 1 && |rest| == |rs| - 1 && a + 1 == rs[0]
    ensures Positive(rs[1..])
    ensures Next(rs, [a] + rest) == [0] + Next(rs[1..], rest)
  {
    var p := [a] + rest;
    assert p[0] == a && p[1..] == rest;
    ModSelf(rs[0]);
  }

  /** The odometer walks the padded box in flat-index order: stepping the
      decoding of slot k gives the decoding of slot k + 1. */
  lemma {:induction false} NextIsSuccessor(rs: seq<nat>, k: nat)
    requires Positive(rs) && |rs| >= 1 && k + 1 < Product(rs)
    ensures Next(rs, Decode(rs, k)) == Decode(rs, k + 1)
  {
    var r := rs[0];
    DecodeUnfold(rs, k);
    DecodeUnfold(rs, k + 1);
    SuccessorDivMod(k, r);
    if k % r + 1 < r {
      NextNoCarry(rs, k % r, Decode(rs[1..], k / r));
    } else {
      CarryStaysInside(rs, k / r);
      NextCarry(rs, k % r, Decode(rs[1..], k / r));
      NextIsSuccessor(rs[1..], k / r);
    }
  }

  /** An offset tuple whose components lie within the halo width, applied to an
      interior slot, stays inside the buffer, and lands on the slot whose padded
      coordinate is the sum. */
  lemma OffsetStaysInBuffer(shape: seq<nat>, d: nat, k: nat, o: seq<int>)
    requires d >= 1 && k < Product(RealDims(shape, d))
    requires !IsOutOfBounds(shape, d, Decode(RealDims(shape, d), k))
    requires |o| == |shape| && forall i :: 0 <= i < |o| ==> -(d as int) <= o[i] <= d
    ensures 0 <= k + OffsetIndex(shape, d, o) < Product(RealDims(shape, d))
    ensures Decode(RealDims(shape, d), k + OffsetIndex(shape, d, o)) == Add(Decode(RealDims(shape, d), k), o)
  {
    var rs := RealDims(shape, d);
    var p := Decode(rs, k);
    var q := Add(p, o);
    assert InRange(rs, q);
    EncDecode(rs, k);
    EncAdd(rs, p, o);
    WeightedIsEnc(rs, o);
    EncBounds(rs, q);
    DecodeEnc(rs, q);
  }

  /** A shifted coordinate fails the bounds test exactly when the coordinate
      lies outside the grid's extents. */
  lemma OutOfBoundsIffOutsideExtents(shape: seq<nat>, d: nat, c: seq<nat>)
    requires |c| == |shape|
    ensures IsOutOfBounds(shape, d, Shift(c, d)) <==> !InExtents(shape, c)
  {
    var p := Shift(c, d);
    if !InExtents(shape, c) {
      var i :| 0 <= i < |shape| && c[i] >= shape[i];
      assert p[i] >= shape[i] + d;
    }
  }

  /** With a halo of width zero the bounds test holds of no slot: every padded
      coordinate counts as interior, border cells included. */
  lemma NoHaloAtZero(shape: seq<nat>, p: seq<int>)
    requires InRange(RealDims(shape, 0), p)
    ensures !IsOutOfBounds(shape, 0, p)
  {
  }

  /** At distance 1 the constructor's padding is exactly the halo volume. */
  lemma PaddingExactAtDistanceOne(shape: seq<nat>)
    ensures PaddingAsWritten(shape, 1) == Padding(shape, 1)
    ensures Product(shape) + PaddingAsWritten(shape, 1) == Product(RealDims(shape, 1))
  {
  }

  /** In one dimension the constructor's padding is right for every distance. */
  lemma PaddingExactInOneDimension(shape: seq<nat>, d: nat)
    requires |shape| == 1
    ensures PaddingAsWritten(shape, d) == Padding(shape, d) == 2 * d
  {
    assert shape == [shape[0]];
    assert RealDims(shape, 1) == [shape[0] + 2];
    assert RealDims(shape, d) == [shape[0] + 2 * d];
    assert forall x: nat :: Product([x]) == x by {
      forall x: nat ensures Product([x]) == x {
        assert [x][1..] == [];
      }
    }
  }

  /** For a 1 x 1 grid at distance 2 the constructor allocates and walks
      1 + 8 * 2 = 17 slots, while the padded box it indexes into has 5 * 5 = 25. */
  lemma PaddingTooSmallForWideHalo()
    ensures Product([1, 1]) + PaddingAsWritten([1, 1], 2) == 17
    ensures Product(RealDims([1, 1], 2)) == 25
    ensures Product([1, 1]) + Padding([1, 1], 2) == 25
  {
    assert RealDims([1, 1], 1) == [3, 3];
    assert RealDims([1, 1], 2) == [5, 5];
  }
}
