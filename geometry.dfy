/** The size of the character grid for an image (concrete.py:76-78). */
module Geometry {
  import opened Types

  /** The longest side of the grid, in characters (concrete.py:76). */
  const MaxSide: nat := 40

  /** The widening of the columns, 7/4, that makes up for characters being taller
      than wide (concrete.py:76). */
  const SkewNum: nat := 7
  const SkewDen: nat := 4

  /** Columns and rows of the character grid. */
  datatype Size = Size(cols: int, rows: int)

  /** Python's `round` of the rational p/q: the nearest integer, ties to the even
      neighbour. */
  function RoundHalfEven(p: int, q: int): (r: int)
    requires q > 0
    ensures q * (2 * r - 1) <= 2 * p <= q * (2 * r + 1)
    ensures 2 * p == q * (2 * r - 1) || 2 * p == q * (2 * r + 1) ==> r % 2 == 0
  {
    var f := p / q;
    var m := p - f * q;
    var r := if 2 * m < q then f else if 2 * m > q then f + 1 else if f % 2 == 0 then f else f + 1;
    RoundChoice(p, q, f, m, r);
    r
  }

  /** The choice between the floor `f` and `f + 1` made by `RoundHalfEven`
      meets its contract. */
  lemma RoundChoice(p: int, q: int, f: int, m: int, r: int)
    requires q > 0 && f == p / q && m == p - f * q
    requires r == if 2 * m < q then f else if 2 * m > q then f + 1 else if f % 2 == 0 then f else f + 1
    ensures q * (2 * r - 1) <= 2 * p <= q * (2 * r + 1)
    ensures 2 * p == q * (2 * r - 1) || 2 * p == q * (2 * r + 1) ==> r % 2 == 0
  {
    assert 0 <= m < q;
    var x := f * q;
    assert q * (2 * r - 1) == 2 * (r - f) * q + 2 * x - q by {
      assert q * (2 * r - 1) == 2 * (r * q) - q;
      assert r * q == (r - f) * q + x;
    }
    assert q * (2 * r + 1) == 2 * (r - f) * q + 2 * x + q by {
      assert q * (2 * r + 1) == 2 * (r * q) + q;
      assert r * q == (r - f) * q + x;
    }
    assert 2 * p == 2 * x + 2 * m;
  }

  /** Multiplying by a positive factor is order-reflecting. */
  lemma CancelFactor(q: int, a: int, b: int)
    requires q > 0 && q * a <= q * b
    ensures a <= b
  {
    assert q * b - q * a == q * (b - a);
  }

  /** The two facts of `RoundHalfEven`'s contract single out one integer, so they
      are a complete description of Python's rounding. */
  lemma {:induction false} RoundUnique(p: int, q: int, r: int)
    requires q > 0
    requires q * (2 * r - 1) <= 2 * p <= q * (2 * r + 1)
    requires 2 * p == q * (2 * r - 1) || 2 * p == q * (2 * r + 1) ==> r % 2 == 0
    ensures r == RoundHalfEven(p, q)
  {
    var s := RoundHalfEven(p, q);
    CancelFactor(q, 2 * r - 1, 2 * s + 1);
    CancelFactor(q, 2 * s - 1, 2 * r + 1);
    assert r != s + 1 by { assert q * (2 * (s + 1) - 1) == q * (2 * s + 1); }
    assert s != r + 1 by { assert q * (2 * (r + 1) - 1) == q * (2 * r + 1); }
  }

  /** Rounding keeps the order of its inputs. */
  lemma {:induction false} RoundMonotone(p1: int, p2: int, q: int)
    requires q > 0 && p1 <= p2
    ensures RoundHalfEven(p1, q) <= RoundHalfEven(p2, q)
  {
    var r1, r2 := RoundHalfEven(p1, q), RoundHalfEven(p2, q);
    CancelFactor(q, 2 * r1 - 1, 2 * r2 + 1);
    assert r1 != r2 + 1 by { assert q * (2 * (r2 + 1) - 1) == q * (2 * r2 + 1); }
  }

  /** A whole quotient rounds to itself. */
  lemma RoundWhole(k: int, q: int)
    requires q > 0
    ensures RoundHalfEven(k * q, q) == k
  {
    assert q * (2 * k - 1) == 2 * (k * q) - q && q * (2 * k + 1) == 2 * (k * q) + q;
    RoundUnique(k * q, q, k);
  }

  /** The grid size for a `w` by `h` image whose longer side becomes `maxSide`
      rows, or `maxSide` times 7/4 columns (concrete.py:76-78; the program passes
      `MaxSide`). `min(maxSide/w, maxSide/h)` is `maxSide/max(w, h)`, so the exact
      column count is 7*maxSide*w / (4*max(w, h)) and the row count
      maxSide*h / max(w, h); each is rounded as Python's `round` does. A zero side
      makes the division raise. */
  function GridSize(w: nat, h: nat, maxSide: nat): (r: Result<Size>)
    ensures r.Err? <==> w == 0 || h == 0
    ensures r.Err? ==> r.error == ZeroDimension
    ensures r.Ok? ==> var m, c, n := if w < h then h else w, r.value.cols, r.value.rows;
      && SkewDen * m * (2 * c - 1) <= 2 * (SkewNum * maxSide * w) <= SkewDen * m * (2 * c + 1)
      && m * (2 * n - 1) <= 2 * (maxSide * h) <= m * (2 * n + 1)
    ensures r.Ok? ==> var m := if w < h then h else w;
      r.value == Size(RoundHalfEven(SkewNum * maxSide * w, SkewDen * m), RoundHalfEven(maxSide * h, m))
  {
    if w == 0 || h == 0 then Err(ZeroDimension)
    else
      var m := if w < h then h else w;
      Ok(Size(RoundHalfEven(SkewNum * maxSide * w, SkewDen * m), RoundHalfEven(maxSide * h, m)))
  }

  /** Neither side exceeds its bound: at most `maxSide` rows and at most
      `maxSide` times 7/4 (rounded) columns, and neither is negative. */
  lemma SizeBounds(w: nat, h: nat, maxSide: nat)
    requires w > 0 && h > 0
    ensures var s := GridSize(w, h, maxSide).value;
      && 0 <= s.rows <= maxSide
      && 0 <= s.cols <= RoundHalfEven(SkewNum * maxSide, SkewDen)
  {
    var m := if w < h then h else w;
    RowsBound(h, m, maxSide);
    ColsBound(w, m, maxSide);
  }

  lemma RowsBound(h: nat, m: nat, k: nat)
    requires 0 < h <= m
    ensures 0 <= RoundHalfEven(k * h, m) <= k
  {
    MulLeNat(k, h, m);
    RoundMonotone(0, k * h, m);
    RoundWhole(0, m);
    RoundMonotone(k * h, k * m, m);
    RoundWhole(k, m);
  }

  lemma ColsBound(w: nat, m: nat, k: nat)
    requires 0 < w <= m
    ensures 0 <= RoundHalfEven(SkewNum * k * w, SkewDen * m) <= RoundHalfEven(SkewNum * k, SkewDen)
  {
    MulLeNat(SkewNum * k, w, m);
    RoundMonotone(0, SkewNum * k * w, SkewDen * m);
    RoundWhole(0, SkewDen * m);
    RoundMonotone(SkewNum * k * w, SkewNum * k * m, SkewDen * m);
    RoundScaled(SkewNum * k, SkewDen, m);
    assert SkewDen * m == m * SkewDen;
  }

  /** Multiplying by a natural number keeps the order. */
  lemma MulLeNat(k: nat, a: int, b: int)
    requires a <= b
    ensures k * a <= k * b
  {
    assert k * b - k * a == k * (b - a);
  }

  /** Scaling numerator and denominator by the same positive factor does not
      change the rounded quotient. */
  lemma RoundScaled(p: int, q: int, k: int)
    requires q > 0 && k > 0
    ensures RoundHalfEven(p * k, q * k) == RoundHalfEven(p, q)
  {
    var r := RoundHalfEven(p, q);
    assert q * k * (2 * r - 1) == k * (q * (2 * r - 1));
    assert q * k * (2 * r + 1) == k * (q * (2 * r + 1));
    assert 2 * (p * k) == k * (2 * p);
    MulMonotone(k, q * (2 * r - 1), 2 * p);
    MulMonotone(k, 2 * p, q * (2 * r + 1));
    if 2 * (p * k) == q * k * (2 * r - 1) || 2 * (p * k) == q * k * (2 * r + 1) {
      if 2 * (p * k) == q * k * (2 * r - 1) {
        MulCancel(k, 2 * p, q * (2 * r - 1));
      } else {
        MulCancel(k, 2 * p, q * (2 * r + 1));
      }
    }
    RoundUnique(p * k, q * k, r);
  }

  /** Multiplying by a positive factor keeps the order. */
  lemma MulMonotone(k: int, a: int, b: int)
    requires k > 0 && a <= b
    ensures k * a <= k * b
  {
    assert k * b == k * a + k * (b - a);
  }

  /** Multiplying by a positive factor is injective. */
  lemma MulCancel(k: int, a: int, b: int)
    requires k > 0 && k * a == k * b
    ensures a == b
  {
    CancelFactor(k, a, b);
    CancelFactor(k, b, a);
  }

  /** The longer side of the image reaches its bound exactly: `maxSide` rows for
      a portrait or square image, all the columns for a landscape or square one. */
  lemma LongerSideFills(w: nat, h: nat, maxSide: nat)
    requires w > 0 && h > 0
    ensures h >= w ==> GridSize(w, h, maxSide).value.rows == maxSide
    ensures w >= h ==> GridSize(w, h, maxSide).value.cols == RoundHalfEven(SkewNum * maxSide, SkewDen)
  {
    if h >= w {
      RoundWhole(maxSide, h);
    }
    if w >= h {
      RoundScaled(SkewNum * maxSide, SkewDen, w);
      assert SkewNum * maxSide * w == (SkewNum * maxSide) * w;
      assert SkewDen * w == SkewDen * w;
    }
  }

  /** With the program's constants: at most 40 rows and 70 columns, reached by
      the longer side. */
  lemma DefaultBounds(w: nat, h: nat)
    requires w > 0 && h > 0
    ensures var s := GridSize(w, h, MaxSide).value;
      && 0 <= s.rows <= 40 && 0 <= s.cols <= 70
      && (h >= w ==> s.rows == 40) && (w >= h ==> s.cols == 70)
  {
    RoundWhole(70, 4);
    assert SkewNum * MaxSide == 70 * 4;
    SizeBounds(w, h, MaxSide);
    LongerSideFills(w, h, MaxSide);
  }

    /** A 16 by 1 image asks for 2.5 rows, which Python rounds to the even 2. */
  lemma TieExample()
    ensures GridSize(16, 1, MaxSide) == Ok(Size(70, 2))
  {
    RoundWhole(70, 64);
    assert SkewNum * MaxSide * 16 == 70 * 64;
  }

/** An 80 by 40 image becomes 70 columns by 20 rows. */
  lemma LandscapeExample()
    ensures GridSize(80, 40, MaxSide) == Ok(Size(70, 20))
  {
    RoundWhole(70, 320);
    RoundWhole(20, 80);
    assert SkewNum * MaxSide * 80 == 70 * 320;
    assert MaxSide * 40 == 20 * 80;
  }

  /** A larger bound never gives fewer rows or columns. */
  lemma MaxSideMonotone(w: nat, h: nat, a: nat, b: nat)
    requires w > 0 && h > 0 && a <= b
    ensures GridSize(w, h, a).value.cols <= GridSize(w, h, b).value.cols
    ensures GridSize(w, h, a).value.rows <= GridSize(w, h, b).value.rows
  {
    var m := if w < h then h else w;
    MulLeRight(w, SkewNum * a, SkewNum * b);
    RoundMonotone(SkewNum * a * w, SkewNum * b * w, SkewDen * m);
    MulLeRight(h, a, b);
    RoundMonotone(a * h, b * h, m);
  }

  /** Multiplying on the right by a natural number keeps the order. */
  lemma MulLeRight(k: nat, a: int, b: int)
    requires a <= b
    ensures a * k <= b * k
  {
    assert b * k - a * k == (b - a) * k;
  }

  /** The grid gets no row exactly when the image is at least twice `maxSide`
      times wider than tall: then the rounded row count is 0, ties going to the
      even 0, and PIL's resize refuses the size. */
  lemma NoRows(w: nat, h: nat, maxSide: nat)
    requires w > 0 && h > 0
    ensures GridSize(w, h, maxSide).value.rows == 0 <==> 2 * maxSide * h <= w
  {
    var m := if w < h then h else w;
    assert GridSize(w, h, maxSide).value.rows == RoundHalfEven(maxSide * h, m);
    ZeroRound(h, m, maxSide);
    HalfRowAgainstLonger(w, h, maxSide);
  }

  /** At most half a row against the longer side means at most half a row
      against the width. */
  lemma HalfRowAgainstLonger(w: nat, h: nat, k: nat)
    requires w > 0 && h > 0
    ensures 2 * k * h <= (if w < h then h else w) <==> 2 * k * h <= w
  {
    if w < h && k > 0 {
      MulLeNat(2 * h, 1, k);
      assert 2 * h * k == 2 * k * h;
    }
  }

  /** k*h/m rounds to 0 exactly when it is at most one half. */
  lemma ZeroRound(h: nat, m: nat, k: nat)
    requires 0 < h <= m
    ensures RoundHalfEven(k * h, m) == 0 <==> 2 * k * h <= m
  {
    var r := RoundHalfEven(k * h, m);
    if 2 * k * h <= m {
      RoundUnique(k * h, m, 0);
    } else {
      CancelFactor(m, 1, 2 * r + 1);
    }
  }
}
