/**
 Integer vector arithmetic of the vector index (kernel/peakvec.c): the bounded square root,
 batched dot products, the coarse bucket, milli-cosine scores, and their bounds.
 */
module VecMath {

  const DIM: nat := 64
  const BUCKETS: nat := 16
  const ROOT_MAX: nat := 0xffff
  const LIMIT: int := 0x8000            // components are 16-bit

  predicate IsInt16(x: int) {
    -LIMIT <= x < LIMIT
  }

  type Vec = v: seq<int> | |v| == DIM && forall i :: 0 <= i < DIM ==> IsInt16(v[i]) witness seq(DIM, _ => 0)

  // ---- square root ----

  /** The root of `x` rounded down, and at most 65535. */
  predicate IsRoot(x: nat, r: nat) {
    r <= ROOT_MAX && r * r <= x && (r == ROOT_MAX || x < (r + 1) * (r + 1))
  }

  function RootBelow(x: nat, m: nat): (r: nat)
    ensures r <= m && r * r <= x && (r == m || x < (r + 1) * (r + 1))
  {
    if m == 0 || m * m <= x then m else RootBelow(x, m - 1)
  }

  function Root(x: nat): (r: nat)
    ensures IsRoot(x, r)
  {
    RootBelow(x, ROOT_MAX)
  }

  lemma SquareMono(a: nat, b: nat)
    requires a <= b
    ensures a * a <= b * b
  {
    assert a * a <= a * b <= b * b;
  }

  lemma SquareOrder(a: nat, b: nat)
    requires a * a <= b * b
    ensures a <= b
  {
    assert (b + 1) * (b + 1) == b * b + 2 * b + 1;
    if a > b {
      SquareMono(b + 1, a);
      assert false;
    }
  }

  lemma RootUnique(x: nat, r: nat, s: nat)
    requires IsRoot(x, r) && IsRoot(x, s)
    ensures r == s
  {
    if r < s {
      SquareMono(r + 1, s);
      assert false;
    } else if s < r {
      SquareMono(s + 1, r);
      assert false;
    }
  }

  /** isqrt_u64: the exact root below 2^32, and 65535 from there on. */
  method ISqrt(x: nat) returns (r: nat)
    ensures r == Root(x)
    ensures x < 0x1_0000_0000 ==> r * r <= x < (r + 1) * (r + 1)
  {
    if x == 0 {
      RootUnique(0, 0, Root(0));
      return 0;
    }
    var lo, hi := 1, if x < 0x100_0000 then x else 0x100_0000;
    if hi * hi < x && hi < 0xffff_ffff {
      hi := 0x100_0000;
    }
    RootAtMost(x);
    while lo < hi
      invariant 1 <= lo <= hi && lo <= Root(x) <= hi
    {
      var mid := lo + (hi - lo + 1) / 2;
      HalfStep(x, mid);
      if mid > 0xffff_ffff / mid || mid * mid > x {
        hi := mid - 1;
      } else {
        lo := mid;
      }
    }
    r := lo;
    if r == ROOT_MAX && x < 0x1_0000_0000 {
      assert (r + 1) * (r + 1) == 0x1_0000_0000;
    }
  }

  lemma MulNat(a: int, b: int)
    ensures a >= 0 && b >= 0 ==> a * b >= 0
  {
  }

  lemma RootAtMost(x: nat)
    requires x > 0
    ensures 1 <= Root(x) <= x
  {
    hide Root;
    var r := Root(x);
    assert r == 0 ==> x < (0 + 1) * (0 + 1);
    SelfSquare(r);
  }

  lemma SelfSquare(r: nat)
    ensures r <= r * r
  {
    if r > 0 {
      MulNat(r, r - 1);
      assert r * (r - 1) == r * r - r;
    }
  }

  /** The guard of the binary search decides on which side of `mid` the root lies. */
  lemma HalfStep(x: nat, mid: nat)
    requires mid > 0
    ensures (mid > 0xffff_ffff / mid || mid * mid > x) <==> mid > Root(x)
  {
    hide Root;
    var r := Root(x);
    OverLimit(mid);
    if mid <= r {
      SquareMono(mid, r);
    } else {
      SquareMono(r + 1, mid);
    }
  }

  lemma OverLimit(mid: nat)
    requires mid > 0
    ensures mid > 0xffff_ffff / mid <==> mid > ROOT_MAX
  {
    if mid <= ROOT_MAX {
      SquareMono(mid, ROOT_MAX);
      DivAtLeast(0xffff_ffff, mid, mid);
    } else {
      SquareMono(0x1_0000, mid);
      DivBelow(0xffff_ffff, mid, mid);
    }
  }

  lemma DivAtLeast(n: nat, d: nat, k: nat)
    requires d > 0 && k * d <= n
    ensures n / d >= k
  {
    assert n == (n / d) * d + n % d;
    MulNat(k - 1 - n / d, d);
    assert (k - 1 - n / d) * d == k * d - d - (n / d) * d;
  }

  lemma DivBelow(n: nat, d: nat, k: nat)
    requires d > 0 && n < k * d
    ensures n / d < k
  {
    assert n == (n / d) * d + n % d;
    MulNat(n / d - k, d);
    assert (n / d - k) * d == (n / d) * d - k * d;
  }

  // ---- dot products ----

  /** Sum of the first `n` products. */
  function Dot(a: seq<int>, b: seq<int>, n: nat): int
    requires n <= |a| && n <= |b|
  {
    if n == 0 then 0 else Dot(a, b, n - 1) + a[n - 1] * b[n - 1]
  }

  function Norm(a: seq<int>): (s: nat)
  {
    NormNat(a, |a|);
    Dot(a, a, |a|)
  }

  lemma NormNat(a: seq<int>, n: nat)
    requires n <= |a|
    ensures Dot(a, a, n) >= 0
  {
    if n > 0 {
      NormNat(a, n - 1);
      assert a[n - 1] * a[n - 1] >= 0;
    }
  }

  /** vec_dot_i16: four partial sums make the plain dot product. */
  method DotBatched(a: Vec, b: Vec) returns (d: int)
    ensures d == Dot(a, b, DIM)
  {
    var s0, s1, s2, s3 := 0, 0, 0, 0;
    var i := 0;
    while i < DIM
      invariant i <= DIM && i % 4 == 0
      invariant s0 + s1 + s2 + s3 == Dot(a, b, i)
    {
      DotFour(a, b, i);
      s0 := s0 + a[i] * b[i];
      s1 := s1 + a[i + 1] * b[i + 1];
      s2 := s2 + a[i + 2] * b[i + 2];
      s3 := s3 + a[i + 3] * b[i + 3];
      i := i + 4;
    }
    d := s0 + s1 + s2 + s3;
  }

  lemma DotFour(a: seq<int>, b: seq<int>, i: nat)
    requires i + 4 <= |a| && i + 4 <= |b|
    ensures Dot(a, b, i + 4) ==
            Dot(a, b, i) + a[i] * b[i] + a[i + 1] * b[i + 1] + a[i + 2] * b[i + 2] + a[i + 3] * b[i + 3]
  {
    assert Dot(a, b, i + 4) == Dot(a, b, i + 3) + a[i + 3] * b[i + 3];
    assert Dot(a, b, i + 3) == Dot(a, b, i + 2) + a[i + 2] * b[i + 2];
    assert Dot(a, b, i + 2) == Dot(a, b, i + 1) + a[i + 1] * b[i + 1];
  }

  /** vec_norm_sq_i16 */
  method NormBatched(a: Vec) returns (s: nat)
    ensures s == Norm(a)
  {
    NormNat(a, DIM);
    s := DotBatched(a, a);
  }

  /** A full-scale dot product stays far below the 64-bit range. */
  lemma {:induction false} DotBound(a: Vec, b: Vec, n: nat)
    requires n <= DIM
    ensures -(n * 0x4000_0000) <= Dot(a, b, n) <= n * 0x4000_0000
  {
    if n > 0 {
      DotBound(a, b, n - 1);
      ProductBound(a[n - 1], b[n - 1]);
    }
  }

  lemma ProductBound(x: int, y: int)
    requires IsInt16(x) && IsInt16(y)
    ensures -0x4000_0000 <= x * y <= 0x4000_0000
  {
    MulNat(LIMIT - x, LIMIT - y);
    MulNat(LIMIT + x, LIMIT - y);
    MulNat(LIMIT - x, LIMIT + y);
    MulNat(LIMIT + x, LIMIT + y);
    assert (LIMIT - x) * (LIMIT + y) == LIMIT * LIMIT + LIMIT * y - LIMIT * x - x * y;
    assert (LIMIT + x) * (LIMIT - y) == LIMIT * LIMIT - LIMIT * y + LIMIT * x - x * y;
    assert (LIMIT - x) * (LIMIT - y) == LIMIT * LIMIT - LIMIT * y - LIMIT * x + x * y;
    assert (LIMIT + x) * (LIMIT + y) == LIMIT * LIMIT + LIMIT * y + LIMIT * x + x * y;
  }

  /** Changing one component changes a dot product by that component's share; with nothing in it, it is 0. */
  lemma {:induction false} DotChange(a: seq<int>, b: seq<int>, n: nat, i: nat, x: int)
    requires n <= |a| && n <= |b| && i < |a|
    ensures Dot(a[i := x], b, n) == Dot(a, b, n) + if i < n then (x - a[i]) * b[i] else 0
  {
    if n > 0 {
      DotChange(a, b, n - 1, i, x);
    }
  }

  lemma {:induction false} DotNothing(a: seq<int>, b: seq<int>, n: nat)
    requires n <= |a| && n <= |b| && forall i :: 0 <= i < n ==> a[i] == 0
    ensures Dot(a, b, n) == 0
  {
    if n > 0 {
      DotNothing(a, b, n - 1);
    }
  }

  lemma {:induction false} DotSwaps(a: seq<int>, b: seq<int>, n: nat)
    requires n <= |a| && n <= |b|
    ensures Dot(a, b, n) == Dot(b, a, n)
  {
    if n > 0 {
      DotSwaps(a, b, n - 1);
    }
  }

  lemma {:induction false} DotNegated(a: seq<int>, b: seq<int>, c: seq<int>, n: nat)
    requires n <= |a| && n <= |b| && n <= |c| && forall i :: 0 <= i < n ==> c[i] == -b[i]
    ensures Dot(a, c, n) == -Dot(a, b, n)
  {
    if n > 0 {
      DotNegated(a, b, c, n - 1);
      assert a[n - 1] * -b[n - 1] == -(a[n - 1] * b[n - 1]);
    }
  }

  // ---- Cauchy-Schwarz ----

  lemma {:induction false} CauchySchwarz(a: seq<int>, b: seq<int>, n: nat)
    requires n <= |a| && n <= |b|
    ensures Dot(a, b, n) * Dot(a, b, n) <= Dot(a, a, n) * Dot(b, b, n)
  {
    if n > 0 {
      CauchySchwarz(a, b, n - 1);
      NormNat(a, n - 1);
      NormNat(b, n - 1);
      Extend(Dot(a, a, n - 1), Dot(b, b, n - 1), Dot(a, b, n - 1), a[n - 1], b[n - 1]);
    }
  }

  lemma Extend(p: nat, q: nat, c: int, x: int, y: int)
    requires c * c <= p * q
    ensures (c + x * y) * (c + x * y) <= (p + x * x) * (q + y * y)
  {
    CrossTerm(p, q, c, x, y);
    assert (c + x * y) * (c + x * y) == c * c + 2 * (c * (x * y)) + (x * y) * (x * y);
    assert (p + x * x) * (q + y * y) == p * q + p * (y * y) + (x * x) * q + (x * x) * (y * y);
    assert (x * x) * (y * y) == (x * y) * (x * y);
  }

  /** The mixed term is below the mean of the squares. */
  lemma CrossTerm(p: nat, q: nat, c: int, x: int, y: int)
    requires c * c <= p * q
    ensures 2 * (c * (x * y)) <= p * (y * y) + (x * x) * q
  {
    MulNat(p, y * y);
    MulNat(x * x, q);
    SquaredCross(p, q, c, x, y);
    MeanBound(p * (y * y), (x * x) * q, c * (x * y));
  }

  lemma MeanBound(u: nat, v: nat, m: int)
    requires m * m <= u * v
    ensures 2 * m <= u + v
  {
    if m >= 0 {
      var d := u - v;
      assert (u + v) * (u + v) == d * d + 4 * (u * v);
      assert (2 * m) * (2 * m) == 4 * (m * m);
      SquareOrder(2 * m, u + v);
    }
  }

  lemma SquaredCross(p: nat, q: nat, c: int, x: int, y: int)
    requires c * c <= p * q
    ensures (c * (x * y)) * (c * (x * y)) <= (p * (y * y)) * ((x * x) * q)
  {
    var w := (x * x) * (y * y);
    assert w >= 0;
    assert (c * (x * y)) * (c * (x * y)) == (c * c) * w;
    assert (p * (y * y)) * ((x * x) * q) == (p * q) * w;
    assert (c * c) * w <= (p * q) * w;
  }

  // ---- scores ----

  /** C's division, rounding toward zero. */
  function TruncDiv(a: int, b: int): int
    requires b > 0
  {
    if a >= 0 then a / b else -((-a) / b)
  }

  /** cosine * 1000 as a plain full scan computes it. */
  function Score(q: Vec, v: Vec): int {
    ScoreOf(Dot(q, v, DIM), Root(Norm(q)), Root(Norm(v)))
  }

  function ScoreOf(dot: int, qroot: nat, vroot: nat): int {
    if qroot == 0 || vroot == 0 then 0
    else
      PositiveProduct(qroot, vroot);
      TruncDiv(dot * 1000, qroot * vroot)
  }

  /** `s` is `a` divided by `d` and cut toward zero. */
  predicate Quotient(a: int, d: int, s: int) {
    && (if a >= 0 then 0 <= a - s * d < d else 0 <= s * d - a < d)
    && (s > 0 ==> a > 0) && (s < 0 ==> a < 0)
  }

  lemma TruncDivExact(a: int, d: int)
    requires d > 0
    ensures Quotient(a, d, TruncDiv(a, d))
  {
    DivParts(a, d);
    DivParts(-a, d);
    var s := TruncDiv(a, d);
    TruncDivSign(a, d);
    if a < 0 {
      assert s == -((-a) / d);
      assert s * d == -(((-a) / d) * d);
    }
  }

  lemma DivParts(a: int, d: int)
    requires d > 0
    ensures a >= 0 ==> 0 <= a - (a / d) * d < d
  {
    if a >= 0 {
      assert a == (a / d) * d + a % d;
    }
  }

  lemma QuotientUnique(a: int, d: int, s: int, t: int)
    requires d > 0 && Quotient(a, d, s) && Quotient(a, d, t)
    ensures s == t
  {
    var x := s - t;
    assert x * d == s * d - t * d;
    MulNat(x - 1, d);
    MulNat(-x - 1, d);
    assert (x - 1) * d == x * d - d && (-x - 1) * d == -(x * d) - d;
  }

  /** What a score is: 1000 times the dot product over the product of the bounded roots of the norms, cut toward
      zero.  The roots may be any that meet their own definition. */
  lemma ScoreIs(q: Vec, v: Vec, qr: nat, vr: nat)
    requires IsRoot(Norm(q), qr) && IsRoot(Norm(v), vr)
    ensures qr > 0 && vr > 0 ==> forall s :: Score(q, v) == s <==> Quotient(1000 * Dot(q, v, DIM), qr * vr, s)
    ensures qr == 0 || vr == 0 ==> Score(q, v) == 0
  {
    hide Dot, Norm, Root, TruncDiv, Quotient;
    RootUnique(Norm(q), qr, Root(Norm(q)));
    RootUnique(Norm(v), vr, Root(Norm(v)));
    if qr > 0 && vr > 0 {
      var a, d := 1000 * Dot(q, v, DIM), qr * vr;
      PositiveProduct(qr, vr);
      TruncDivExact(a, d);
      forall s | Quotient(a, d, s) ensures s == TruncDiv(a, d) {
        QuotientUnique(a, d, s, TruncDiv(a, d));
      }
      assert Score(q, v) == TruncDiv(a, d);
    }
  }

  /** A vector that is not zero scores at least 1000 against itself, and orthogonal ones score 0. */
  lemma ScoreSelf(v: Vec)
    ensures Norm(v) > 0 ==> Score(v, v) >= 1000
  {
    hide Dot, Norm, Root, Score, Quotient;
    var n, r := Norm(v), Root(Norm(v));
    if n > 0 {
      RootPositive(n);
      ScoreIs(v, v, r, r);
      NormIs(v);
      SelfQuotient(n, r, Score(v, v));
    }
  }

  lemma SelfQuotient(n: nat, r: nat, s: int)
    requires r > 0 && r * r <= n && Quotient(1000 * n, r * r, s)
    ensures s >= 1000
  {
    var d := r * r;
    PositiveProduct(r, r);
    MulNat(999 - s, d);
    assert (999 - s) * d == 999 * d - s * d;
  }

  lemma ScoreOrthogonal(q: Vec, v: Vec)
    requires Dot(q, v, DIM) == 0
    ensures Score(q, v) == 0
  {
    hide Dot, Norm, Root;
    var qr, vr := Root(Norm(q)), Root(Norm(v));
    if qr > 0 && vr > 0 {
      PositiveProduct(qr, vr);
    }
  }

  lemma ScoreSwaps(q: Vec, v: Vec)
    ensures Score(q, v) == Score(v, q)
  {
    hide Dot, Norm, Root, TruncDiv;
    DotSwaps(q, v, DIM);
    var qr, vr := Root(Norm(q)), Root(Norm(v));
    assert qr * vr == vr * qr;
  }

  /** The opposite vector has the opposite score. */
  lemma ScoreOpposite(q: Vec, v: Vec, w: Vec)
    requires forall i :: 0 <= i < DIM ==> w[i] == -v[i]
    ensures Score(q, w) == -Score(q, v)
    ensures w == q && Norm(q) > 0 ==> Score(q, v) <= -1000
  {
    hide Dot, Norm, Root;
    DotNegated(q, v, w, DIM);
    DotNegated(w, v, w, DIM);
    DotNegated(v, w, v, DIM);
    DotSwaps(w, v, DIM);
    NormIs(v);
    NormIs(w);
    var a, qr, vr := 1000 * Dot(q, v, DIM), Root(Norm(q)), Root(Norm(v));
    if qr > 0 && vr > 0 {
      PositiveProduct(qr, vr);
      TruncDivOpposite(a, qr * vr);
    }
    if w == q {
      ScoreSelf(q);
    }
  }

  lemma TruncDivOpposite(a: int, d: int)
    requires d > 0
    ensures TruncDiv(-a, d) == -TruncDiv(a, d)
  {
  }

  lemma PositiveProduct(a: nat, b: nat)
    requires a > 0 && b > 0
    ensures a * b > 0
  {
  }

  lemma TruncDivBound(a: int, b: int, k: nat)
    requires b > 0 && -(k * b) <= a <= k * b
    ensures -(k as int) <= TruncDiv(a, b) <= k
  {
    if a >= 0 {
      TruncDivAtMost(a, b, k);
    } else {
      TruncDivAtMost(-a, b, k);
      assert TruncDiv(a, b) == -TruncDiv(-a, b);
    }
    TruncDivSign(a, b);
  }

  lemma TruncDivSign(a: int, b: int)
    requires b > 0
    ensures a >= 0 ==> TruncDiv(a, b) >= 0
    ensures a <= 0 ==> TruncDiv(a, b) <= 0
  {
  }

  lemma TruncDivAtMost(a: int, b: int, w: int)
    requires b > 0 && w >= 0 && a <= w * b
    ensures TruncDiv(a, b) <= w
  {
    if a >= 0 {
      assert a < (w + 1) * b;
      DivBelow(a, b, w + 1);
    }
  }

  /** A root is never less than a fifth of what it stands for, and half of it below 2^32. */
  lemma RootClose(n: nat, r: nat)
    requires IsRoot(n, r) && n <= 0x10_0000_0000
    ensures n <= 25 * (r * r)
    ensures n < 0x1_0000_0000 ==> n <= 4 * (r * r)
  {
    assert (r + 1) * (r + 1) == r * r + 2 * r + 1;
    SelfSquare(r);
  }

  lemma NormBound(v: Vec)
    ensures Norm(v) <= 0x10_0000_0000
  {
    DotBound(v, v, DIM);
  }

  /** The dot product is at most `k` times the product of the roots when k*k covers both norms. */
  lemma DotAgainstRoots(q: Vec, v: Vec, qr: nat, vr: nat, k: nat)
    requires Norm(q) <= k * (qr * qr) && Norm(v) <= k * (vr * vr)
    ensures -(k * (qr * vr)) <= Dot(q, v, DIM) <= k * (qr * vr)
  {
    hide Dot, Norm;
    DotSquared(q, v, qr, vr, k);
    SquareBound(Dot(q, v, DIM), k * (qr * vr));
  }

  lemma DotSquared(q: Vec, v: Vec, qr: nat, vr: nat, k: nat)
    requires Norm(q) <= k * (qr * qr) && Norm(v) <= k * (vr * vr)
    ensures Dot(q, v, DIM) * Dot(q, v, DIM) <= (k * (qr * vr)) * (k * (qr * vr))
  {
    hide Dot, Norm;
    NormIs(q);
    NormIs(v);
    CauchySchwarz(q, v, DIM);
    ProductMono(Norm(q), k * (qr * qr), Norm(v), k * (vr * vr));
    Regroup(k, qr, vr);
  }

  lemma SquareBound(d: int, m: nat)
    requires d * d <= m * m
    ensures d <= m && -d <= m
  {
    var a := if d >= 0 then d else -d;
    assert a * a == d * d;
    SquareOrder(a, m);
  }

  lemma NormIs(v: Vec)
    ensures Norm(v) == Dot(v, v, DIM)
  {
  }

  lemma ProductMono(a: nat, b: nat, c: nat, d: nat)
    requires a <= b && c <= d
    ensures a * c <= b * d
  {
    MulNat(b - a, c);
    MulNat(b, d - c);
    assert (b - a) * c == b * c - a * c;
    assert b * (d - c) == b * d - b * c;
  }

  lemma Regroup(k: nat, x: nat, y: nat)
    ensures (k * (x * x)) * (k * (y * y)) == (k * (x * y)) * (k * (x * y))
  {
    var p := x * y;
    assert (x * x) * (y * y) == p * p;
    assert (k * (x * x)) * (k * (y * y)) == (k * k) * ((x * x) * (y * y));
    assert (k * p) * (k * p) == (k * k) * (p * p);
  }

  /** Every score is within 25000, and within 4000 for norms below 2^32, so the sentinel
      -1000000 of an empty hit is below all of them and a score always fits 32 bits. */
  lemma ScoreBound(q: Vec, v: Vec)
    ensures -25000 <= Score(q, v) <= 25000
    ensures Norm(q) < 0x1_0000_0000 && Norm(v) < 0x1_0000_0000 ==> -4000 <= Score(q, v) <= 4000
  {
    hide Dot, Norm, Root;
    NormBound(q);
    NormBound(v);
    var qr, vr := Root(Norm(q)), Root(Norm(v));
    RootClose(Norm(q), qr);
    RootClose(Norm(v), vr);
    ScoreBoundBy(q, v, qr, vr, 25);
    if Norm(q) < 0x1_0000_0000 && Norm(v) < 0x1_0000_0000 {
      ScoreBoundBy(q, v, qr, vr, 4);
    }
  }

  lemma ScoreBoundBy(q: Vec, v: Vec, qr: nat, vr: nat, k: nat)
    requires Norm(q) <= k * (qr * qr) && Norm(v) <= k * (vr * vr)
    ensures -(1000 * k) <= ScoreOf(Dot(q, v, DIM), qr, vr) <= 1000 * k
  {
    hide Dot, Norm, TruncDiv;
    if qr != 0 && vr != 0 {
      PositiveProduct(qr, vr);
      DotAgainstRoots(q, v, qr, vr, k);
      var d := qr * vr;
      assert (1000 * k) * d == 1000 * (k * d);
      TruncDivBound(Dot(q, v, DIM) * 1000, d, 1000 * k);
    }
  }

  /** cosine_milli_roots: a candidate is skipped only if it could not beat the worst hit. */
  method Cosine(q: Vec, qroot: nat, v: Vec, vroot: nat, early: bool, worst: int) returns (sc: int, skipped: bool)
    ensures !skipped ==> sc == ScoreOf(Dot(q, v, DIM), qroot, vroot)
    ensures skipped ==> early && ScoreOf(Dot(q, v, DIM), qroot, vroot) <= worst
  {
    skipped := false;
    if qroot == 0 || vroot == 0 {
      return 0, false;
    }
    var denom := qroot * vroot;
    PositiveProduct(qroot, vroot);
    var dot := DotBatched(q, v);
    if early {
      if dot <= 0 && worst >= 0 {
        TruncDivAtMost(dot * 1000, denom, 0);
        return 0, true;
      }
      if worst > 0 && dot * 1000 <= worst * denom {
        TruncDivAtMost(dot * 1000, denom, worst);
        return 0, true;
      }
    }
    sc := TruncDiv(dot * 1000, denom);
  }

  // ---- coarse buckets ----

  /** The magnitude as a 16-bit negation leaves it: -32768 stays negative. */
  function Abs16(x: int): int
    requires IsInt16(x)
  {
    if x < 0 && x != -LIMIT then -x else x
  }

  /** The first component of greatest positive magnitude, or 0. */
  predicate IsPeak(v: Vec, n: nat, best: nat)
    requires n <= DIM
  {
    && (best < n || best == 0)
    && (forall i :: 0 <= i < n ==> Abs16(v[i]) <= Max0(Abs16(v[best])))
    && (forall i :: 0 <= i < best ==> Max0(Abs16(v[i])) < Abs16(v[best]))
  }

  function Max0(x: int): int {
    if x > 0 then x else 0
  }

  function Peak(v: Vec, n: nat): (p: nat)
    requires n <= DIM
    ensures IsPeak(v, n, p)
  {
    if n == 0 then 0
    else
      var p := Peak(v, n - 1);
      if Abs16(v[n - 1]) > Max0(Abs16(v[p])) then n - 1 else p
  }

  function Bucket(v: Vec): (b: nat)
    ensures b < BUCKETS
  {
    Peak(v, DIM) % BUCKETS
  }

  /** The bucket comes from the first of the components that are greatest in magnitude, leaving out those equal
      to -32768, or from component 0 if there is none but zeros. */
  lemma BucketIs(v: Vec) returns (p: nat)
    ensures p < DIM && Bucket(v) == p % 16
    ensures forall i :: 0 <= i < DIM && v[i] != -0x8000 && v[p] != -0x8000 ==> v[i] * v[i] <= v[p] * v[p]
    ensures forall i :: 0 <= i < p ==> v[i] == -0x8000 || v[i] * v[i] < v[p] * v[p]
    ensures v[p] == -0x8000 ==> p == 0 && forall i :: 0 <= i < DIM ==> v[i] == -0x8000 || v[i] == 0
  {
    p := Peak(v, DIM);
    hide Peak, IsPeak, Abs16, Max0;
    forall i | 0 <= i < DIM ensures Outranked(v[i], v[p], i < p) {
      PeakOutranks(v, p, i);
    }
    PeakOutranks(v, p, p);
    if v[p] == -0x8000 {
      PeakNone(v, p);
    }
  }

  /** A component against the peak; `before` says that it comes before it. */
  predicate Outranked(x: int, y: int, before: bool) {
    && (x != -0x8000 && y != -0x8000 ==> x * x <= y * y)
    && (before ==> x == -0x8000 || x * x < y * y)
  }

  lemma PeakOutranks(v: Vec, p: nat, i: nat)
    requires IsPeak(v, DIM, p) && i < DIM
    ensures p < DIM && Outranked(v[i], v[p], i < p)
  {
    MagnitudeOrder(v[i], v[p]);
    MagnitudeOrder(v[p], v[i]);
    if i < p {
      assert Max0(Abs16(v[i])) < Abs16(v[p]);
    }
  }

  lemma PeakNone(v: Vec, p: nat)
    requires IsPeak(v, DIM, p) && p < DIM && v[p] == -0x8000
    ensures p == 0 && forall i :: 0 <= i < DIM ==> v[i] == -0x8000 || v[i] == 0
  {
    assert Abs16(v[p]) < 0 <= Max0(Abs16(v[0]));
  }

  /** Magnitudes compare as squares do. */
  lemma MagnitudeOrder(x: int, y: int)
    requires IsInt16(x) && IsInt16(y)
    ensures x != -0x8000 && y != -0x8000 ==> (Abs16(x) <= Abs16(y) <==> x * x <= y * y)
    ensures x != -0x8000 && y != -0x8000 ==> Abs16(x) >= 0 && Abs16(y) >= 0
    ensures x == -0x8000 ==> Abs16(x) < 0
    ensures y == -0x8000 ==> Abs16(y) < 0
  {
    if x != -0x8000 && y != -0x8000 {
      var a, b := Abs16(x), Abs16(y);
      assert a * a == x * x && b * b == y * y;
      if a <= b {
        SquareMono(a, b);
      } else {
        SquareMono(b + 1, a);
        assert (b + 1) * (b + 1) == b * b + 2 * b + 1;
      }
    }
  }

  /** vec_bucket */
  method VecBucket(v: Vec) returns (b: nat)
    ensures b == Bucket(v)
  {
    var best, bestAbs := 0, 0;
    for i := 0 to DIM
      invariant best < DIM && best == Peak(v, i) && bestAbs == if i == 0 then 0 else Max0(Abs16(v[best]))
    {
      var a := Abs16(v[i]);
      if a > bestAbs {
        bestAbs := a;
        best := i;
      }
    }
    b := best % BUCKETS;
  }

  /** peakvec_bucket_in_probe: the bucket itself and its two neighbours on the ring. */
  predicate Probed(b: nat, qb: nat) {
    b == qb || b == (qb + BUCKETS - 1) % BUCKETS || b == (qb + 1) % BUCKETS
  }

  /** The probed buckets are those at most one step away on the ring of 16. */
  lemma ProbedIff(b: nat, qb: nat)
    requires b < 16 && qb < 16
    ensures Probed(b, qb) <==> b - qb == 0 || b - qb == 1 || b - qb == -1 || b - qb == 15 || b - qb == -15
  {
  }

  // ---- normalisation of an embedding ----

  function Clamp16(x: int): (y: int)
    ensures IsInt16(y)
  {
    if x >= LIMIT then LIMIT - 1 else if x < -LIMIT then -LIMIT else x
  }

  /** One component scaled to length 10000. */
  function Scaled(a: int, root: nat): (y: int)
    requires root > 0
    ensures IsInt16(y)
  {
    Clamp16(TruncDiv(a * 10000, root))
  }

  function NormalForm(acc: seq<int>): (v: Vec)
    requires |acc| == DIM
  {
    var n := Norm(acc);
    if n == 0 then seq(DIM, _ => 0)
    else
      RootPositive(n);
      seq(DIM, i requires 0 <= i < DIM => Scaled(acc[i], Root(n)))
  }

  lemma RootPositive(n: nat)
    requires n > 0
    ensures Root(n) > 0
  {
    RootAtMost(n);
  }

  /** The last part of peakvec_embed_text. */
  method Normalise(acc: seq<int>) returns (out: Vec)
    requires |acc| == DIM
    ensures out == NormalForm(acc)
  {
    var sumsq := 0;
    for i := 0 to DIM
      invariant sumsq == Dot(acc, acc, i)
    {
      sumsq := sumsq + acc[i] * acc[i];
    }
    NormNat(acc, DIM);
    if sumsq == 0 {
      out := seq(DIM, _ => 0);
      return;
    }
    RootPositive(sumsq);
    var root := ISqrt(sumsq);
    var r: seq<int> := [];
    for i := 0 to DIM
      invariant |r| == i && forall j :: 0 <= j < i ==> r[j] == Scaled(acc[j], root)
    {
      r := r + [Scaled(acc[i], root)];
    }
    out := r;
  }

  /** Below 2^32 nothing is cut off: components stay within 10000 and the squared length within
      four times its nominal value, which keeps embedded vectors in the exact range of the root. */
  lemma NormalFormBound(acc: seq<int>)
    requires |acc| == DIM && Norm(acc) < 0x1_0000_0000
    ensures forall i :: 0 <= i < DIM ==> -10000 <= NormalForm(acc)[i] <= 10000
    ensures Norm(NormalForm(acc)) <= 4_0000_0000 < 0x1_0000_0000
  {
    hide Dot, Root, Scaled;
    var n, v := Norm(acc), NormalForm(acc);
    if n == 0 {
      ZeroNorm(v, DIM);
    } else {
      RootPositive(n);
      var r := Root(n);
      RootClose(n, r);
      forall i | 0 <= i < DIM ensures -10000 <= v[i] <= 10000 {
        ComponentBound(acc, i, r);
      }
      ScaledNorm(acc, v, r, DIM);
      NormIs(v);
      PositiveProduct(r, r);
      ShrinkBy(Norm(v), 4_0000_0000, r * r, 1_0000_0000 * n);
    }
  }

  /** What normalisation computes: below 2^32 every component is 10000 times the given one over the root of the
      norm, cut toward zero. */
  lemma NormalFormIs(acc: seq<int>, r: nat, i: nat)
    requires |acc| == DIM && i < DIM && Norm(acc) < 0x1_0000_0000 && IsRoot(Norm(acc), r)
    ensures r > 0 ==> Quotient(acc[i] * 10000, r, NormalForm(acc)[i])
    ensures r == 0 ==> acc[i] == 0 && NormalForm(acc)[i] == 0
  {
    hide Dot, Root, Quotient, TruncDiv, Scaled;
    var n := Norm(acc);
    RootUnique(n, r, Root(n));
    if n == 0 {
      ComponentNorm(acc, i, DIM);
      assert acc[i] * acc[i] <= 0;
    } else {
      RootPositive(n);
      ComponentBound(acc, i, r);
      TruncDivExact(acc[i] * 10000, r);
    }
  }

  lemma ShrinkBy(a: nat, b: nat, s: nat, t: nat)
    requires s > 0 && a * s <= t <= b * s
    ensures a <= b
  {
    MulNat(a - b - 1, s);
    assert (a - b - 1) * s == a * s - b * s - s;
  }

  lemma ZeroNorm(v: seq<int>, n: nat)
    requires n <= |v| && forall i :: 0 <= i < n ==> v[i] == 0
    ensures Dot(v, v, n) == 0
  {
    if n > 0 {
      ZeroNorm(v, n - 1);
    }
  }

  lemma {:induction false} ComponentNorm(a: seq<int>, i: nat, n: nat)
    requires i < n <= |a|
    ensures a[i] * a[i] <= Dot(a, a, n)
  {
    NormNat(a, n - 1);
    if i < n - 1 {
      ComponentNorm(a, i, n - 1);
      assert a[n - 1] * a[n - 1] >= 0;
    }
  }

  lemma ComponentBound(acc: seq<int>, i: nat, r: nat)
    requires |acc| == DIM && i < DIM && r > 0 && IsRoot(Norm(acc), r) && Norm(acc) < 0x1_0000_0000
    ensures -10000 <= TruncDiv(acc[i] * 10000, r) <= 10000
    ensures Scaled(acc[i], r) == TruncDiv(acc[i] * 10000, r)
  {
    hide Dot, TruncDiv;
    ComponentNorm(acc, i, DIM);
    var a := if acc[i] >= 0 then acc[i] else -acc[i];
    assert a * a == acc[i] * acc[i];
    assert (ROOT_MAX + 1) * (ROOT_MAX + 1) == 0x1_0000_0000;
    Shorter(a, r, Norm(acc));
    TruncDivBound(acc[i] * 10000, r, 10000);
  }

  lemma Shorter(a: nat, r: nat, n: nat)
    requires a * a <= n < (r + 1) * (r + 1)
    ensures a <= r
  {
    if a > r {
      SquareMono(r + 1, a);
      assert false;
    }
  }

  lemma {:induction false} ScaledNorm(acc: seq<int>, v: Vec, r: nat, n: nat)
    requires |acc| == DIM && n <= DIM && r > 0
    requires forall i :: 0 <= i < DIM ==> v[i] == Scaled(acc[i], r)
    ensures Dot(v, v, n) * (r * r) <= 1_0000_0000 * Dot(acc, acc, n)
  {
    hide Scaled;
    if n > 0 {
      ScaledNorm(acc, v, r, n - 1);
      ScaledSquare(acc[n - 1], r);
      var x := v[n - 1];
      assert (Dot(v, v, n - 1) + x * x) * (r * r) == Dot(v, v, n - 1) * (r * r) + (x * x) * (r * r);
    }
  }

  lemma ScaledSquare(a: int, r: nat)
    requires r > 0
    ensures (Scaled(a, r) * Scaled(a, r)) * (r * r) <= 1_0000_0000 * (a * a)
  {
    var y := Scaled(a, r);
    var m, p := if y >= 0 then y else -y, if a >= 0 then a * 10000 else a * -10000;
    ScaledTimes(a, r);
    SquareMono(m * r, p);
    assert p * p == 1_0000_0000 * (a * a);
    Regroup(1, m, r);
    assert (m * m) * (r * r) == (m * r) * (m * r);
    assert m * m == y * y;
  }

  lemma ScaledTimes(a: int, r: nat)
    requires r > 0
    ensures var y := Scaled(a, r);
            (if y >= 0 then y else -y) * r <= if a >= 0 then a * 10000 else a * -10000
  {
    var p := if a >= 0 then a * 10000 else a * -10000;
    var q, y := p / r, Scaled(a, r);
    var m := if y >= 0 then y else -y;
    assert q * r <= p;
    TruncDivSign(a * 10000, r);
    assert m <= q;
    ProductMono(m, q, r, r);
  }
}
