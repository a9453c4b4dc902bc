/** The neighbourhood convolution of one cell: the scan over the square of
    offsets `[-(ra-1), ra-1]²`, the split of each offset into the inner disk
    (radius `ra/3`) or the outer ring (radius `ra`), the two averages and the
    resulting delta `2*s(n, m) - 1`. */
module Convolution {
  import Torus
  import opened Transition
  import opened GridState

  datatype Ring = Inner | Outer | Beyond

  /** `x * x`, defined by the recurrence `(k+1)² = k² + 2k + 1`. It is a
      solver aid, not a second notion of squaring: it keeps the
      classification of an offset in linear arithmetic, and it equals
      `x * x` by `SquareIsProduct`. */
  function Square(x: int): nat
    decreases if x < 0 then -x else x, if x < 0 then 1 else 0
  {
    if x < 0 then Square(-x) else if x == 0 then 0 else Square(x - 1) + 2 * x - 1
  }

  lemma {:induction false} SquareIsProduct(x: int)
    ensures Square(x) == x * x
    decreases if x < 0 then -x else x, if x < 0 then 1 else 0
  {
    if x < 0 {
      SquareIsProduct(-x);
    } else if x > 0 {
      SquareIsProduct(x - 1);
    }
  }

  /** Classification of an offset by its squared length `dx² + dy²`: at
      most `ri*ri` with `ri = ra/3` is the inner disk, else at most `ra*ra`
      the outer ring. The test is done on integers, `9 * d2 <= ra * ra`
      standing for `d2 <= (ra/3)²`. What the classification means is
      stated by `ClassifyMatchesRealTest`. */
  function Classify(dx: int, dy: int, ra: int): Ring
  {
    var d2 := Square(dx) + Square(dy);
    if 9 * d2 <= Square(ra) then Inner else if d2 <= Square(ra) then Outer else Beyond
  }

  /** The integer test agrees with the source's comparisons of the squared
      distance against `ri*ri = (ra/3)²` and `ra*ra`, carried out on
      reals. */
  lemma ClassifyMatchesRealTest(dx: int, dy: int, ra: int)
    ensures Classify(dx, dy, ra) == Inner <==>
      (dx * dx + dy * dy) as real <= (ra as real / 3.0) * (ra as real / 3.0)
    ensures Classify(dx, dy, ra) == Outer <==>
      (ra as real / 3.0) * (ra as real / 3.0) < (dx * dx + dy * dy) as real <= (ra as real) * (ra as real)
    ensures Classify(dx, dy, ra) == Beyond <==> (dx * dx + dy * dy) as real > (ra as real) * (ra as real)
  {
    SquareIsProduct(dx);
    SquareIsProduct(dy);
    SquareIsProduct(ra);
    RealSquare(ra);
  }

  lemma RealSquare(ra: int)
    ensures (ra as real) * (ra as real) == (ra * ra) as real
    ensures (ra as real / 3.0) * (ra as real / 3.0) == (ra * ra) as real / 9.0
  {
  }

  /** The four accumulators of `compute_grid_diff`: inner sum `m` and count
      `M`, outer sum `n` and count `N`. */
  datatype Sums = Sums(innerSum: real, innerCount: nat, outerSum: real, outerCount: nat)

  const NoSums := Sums(0.0, 0, 0.0, 0)

  function Plus(a: Sums, b: Sums): Sums
  {
    Sums(a.innerSum + b.innerSum, a.innerCount + b.innerCount,
         a.outerSum + b.outerSum, a.outerCount + b.outerCount)
  }

  lemma PlusAssoc(a: Sums, b: Sums, c: Sums)
    ensures Plus(Plus(a, b), c) == Plus(a, Plus(b, c))
  {
  }

  /** What visiting offset `(dx, dy)` of cell `(cx, cy)` adds: the wrapped
      cell's value and a count of one to the ring the offset lies in.
      `VisitCounts` and `VisitAdds` state its effect. */
  function Visit(g: array2<real>, ra: int, cx: int, cy: int, dx: int, dy: int): Sums
    reads g
    requires g.Length0 > 0 && g.Length1 > 0
  {
    match Classify(dx, dy, ra)
    case Inner => Sums(Neighbour(g, cx, cy, dx, dy), 1, 0.0, 0)
    case Outer => Sums(0.0, 0, Neighbour(g, cx, cy, dx, dy), 1)
    case Beyond => NoSums
  }

  /** The accumulators after row `dy` of the scan has visited the offsets
      `dx` in `[1 - ra, hi)`. */
  function RowSums(g: array2<real>, ra: int, cx: int, cy: int, dy: int, hi: int): Sums
    reads g
    requires g.Length0 > 0 && g.Length1 > 0
    decreases hi + ra
  {
    if hi <= 1 - ra then NoSums
    else Plus(RowSums(g, ra, cx, cy, dy, hi - 1), Visit(g, ra, cx, cy, hi - 1, dy))
  }

  /** The accumulators after the complete rows `dy` in `[1 - ra, hiY)`. */
  function BlockSums(g: array2<real>, ra: int, cx: int, cy: int, hiY: int): Sums
    reads g
    requires g.Length0 > 0 && g.Length1 > 0
    decreases hiY + ra
  {
    if hiY <= 1 - ra then NoSums
    else Plus(BlockSums(g, ra, cx, cy, hiY - 1), RowSums(g, ra, cx, cy, hiY - 1, ra))
  }

  /** The accumulators once the whole square of offsets has been scanned. */
  function NeighbourhoodSums(g: array2<real>, ra: int, cx: int, cy: int): Sums
    reads g
    requires g.Length0 > 0 && g.Length1 > 0
  {
    BlockSums(g, ra, cx, cy, ra)
  }

  /** Number of offsets `dx` in `[1 - ra, hi)` of row `dy` in ring `k`. */
  function RowCount(ra: int, dy: int, hi: int, k: Ring): nat
    decreases hi + ra
  {
    if hi <= 1 - ra then 0
    else RowCount(ra, dy, hi - 1, k) + (if Classify(hi - 1, dy, ra) == k then 1 else 0)
  }

  /** Number of offsets in the complete rows `[1 - ra, hiY)` in ring `k`. */
  function BlockCount(ra: int, hiY: int, k: Ring): nat
    decreases hiY + ra
  {
    if hiY <= 1 - ra then 0
    else BlockCount(ra, hiY - 1, k) + RowCount(ra, hiY - 1, ra, k)
  }

  /** `M`: the number of scanned offsets in the inner disk. */
  function InnerCount(ra: int): nat
  {
    BlockCount(ra, ra, Inner)
  }

  /** `N`: the number of scanned offsets in the outer ring. */
  function OuterCount(ra: int): nat
  {
    BlockCount(ra, ra, Outer)
  }

  lemma {:induction false} RowSumsCounts(g: array2<real>, ra: int, cx: int, cy: int, dy: int, hi: int)
    requires g.Length0 > 0 && g.Length1 > 0
    ensures RowSums(g, ra, cx, cy, dy, hi).innerCount == RowCount(ra, dy, hi, Inner)
    ensures RowSums(g, ra, cx, cy, dy, hi).outerCount == RowCount(ra, dy, hi, Outer)
    decreases hi + ra
  {
    if hi > 1 - ra {
      RowSumsCounts(g, ra, cx, cy, dy, hi - 1);
      VisitCounts(g, ra, cx, cy, hi - 1, dy);
      assert RowSums(g, ra, cx, cy, dy, hi) == Plus(RowSums(g, ra, cx, cy, dy, hi - 1), Visit(g, ra, cx, cy, hi - 1, dy));
    }
  }

  /** An offset adds one to the count of its own ring and nothing to the
      other, the two branches of the scan excluding each other. */
  lemma VisitCounts(g: array2<real>, ra: int, cx: int, cy: int, dx: int, dy: int)
    requires g.Length0 > 0 && g.Length1 > 0
    ensures Visit(g, ra, cx, cy, dx, dy).innerCount == if Classify(dx, dy, ra) == Inner then 1 else 0
    ensures Visit(g, ra, cx, cy, dx, dy).outerCount == if Classify(dx, dy, ra) == Outer then 1 else 0
  {
  }

  lemma {:induction false} BlockSumsCounts(g: array2<real>, ra: int, cx: int, cy: int, hiY: int)
    requires g.Length0 > 0 && g.Length1 > 0
    ensures BlockSums(g, ra, cx, cy, hiY).innerCount == BlockCount(ra, hiY, Inner)
    ensures BlockSums(g, ra, cx, cy, hiY).outerCount == BlockCount(ra, hiY, Outer)
    decreases hiY + ra
  {
    if hiY > 1 - ra {
      BlockSumsCounts(g, ra, cx, cy, hiY - 1);
      RowSumsCounts(g, ra, cx, cy, hiY - 1, ra);
      assert BlockSums(g, ra, cx, cy, hiY) == Plus(BlockSums(g, ra, cx, cy, hiY - 1), RowSums(g, ra, cx, cy, hiY - 1, ra));
    }
  }

  /** `M` and `N` do not depend on the cell or on the grid: every cell
      averages over the same numbers of offsets. */
  lemma NeighbourhoodCounts(g: array2<real>, ra: int, cx: int, cy: int)
    requires g.Length0 > 0 && g.Length1 > 0
    ensures NeighbourhoodSums(g, ra, cx, cy).innerCount == InnerCount(ra)
    ensures NeighbourhoodSums(g, ra, cx, cy).outerCount == OuterCount(ra)
  {
    BlockSumsCounts(g, ra, cx, cy, ra);
  }

  lemma {:induction false} RowCountWitness(ra: int, dy: int, hi: int, k: Ring, dx: int)
    requires 1 - ra <= dx < hi
    requires Classify(dx, dy, ra) == k
    ensures RowCount(ra, dy, hi, k) >= 1
    decreases hi + ra
  {
    if dx < hi - 1 {
      RowCountWitness(ra, dy, hi - 1, k, dx);
    }
  }

  lemma {:induction false} BlockCountWitness(ra: int, hiY: int, k: Ring, dx: int, dy: int)
    requires 1 - ra <= dx < ra && 1 - ra <= dy < hiY
    requires Classify(dx, dy, ra) == k
    ensures BlockCount(ra, hiY, k) >= 1
    decreases hiY + ra
  {
    if dy < hiY - 1 {
      BlockCountWitness(ra, hiY - 1, k, dx, dy);
    } else {
      RowCountWitness(ra, dy, ra, k, dx);
    }
  }

  /** The zero-count hazard: the scan reaches the inner disk exactly when
      `ra >= 1` (offset (0,0) is always in it) and the outer ring exactly
      when `ra >= 2`. At `ra = 1` only (0,0) is scanned, `N` is 0 and the
      average `n /= N` divides by zero. */
  lemma RingsNonEmptyIff(ra: int)
    ensures InnerCount(ra) > 0 <==> ra >= 1
    ensures OuterCount(ra) > 0 <==> ra >= 2
  {
    if ra <= 0 {
      assert InnerCount(ra) == 0 && OuterCount(ra) == 0;
    } else {
      assert InnerCount(ra) > 0 by {
        assert Classify(0, 0, ra) == Inner;
        BlockCountWitness(ra, ra, Inner, 0, 0);
      }
      if ra == 1 {
        assert RowCount(1, 0, 1, Outer) == 0 by {
          assert Classify(0, 0, 1) == Inner;
          assert RowCount(1, 0, 0, Outer) == 0;
        }
        assert OuterCount(1) == 0 by {
          assert BlockCount(1, 0, Outer) == 0;
        }
      } else {
        assert OuterCount(ra) > 0 by {
          OuterAtEdge(ra);
          BlockCountWitness(ra, ra, Outer, ra - 1, 0);
        }
      }
    }
  }

  /** For `ra >= 2` the last scanned offset on an axis, `(ra - 1, 0)`, lies in
      the outer ring. */
  lemma OuterAtEdge(ra: int)
    requires ra >= 2
    ensures Classify(ra - 1, 0, ra) == Outer
  {
    var e := ra - 1;
    assert 3 * e > ra;
    assert (3 * e) * (3 * e) > ra * ra by {
      assert (3 * e) * (3 * e) - ra * ra == (3 * e - ra) * (3 * e + ra);
      assert (3 * e - ra) * (3 * e + ra) > 0;
    }
    assert e * e <= ra * ra by {
      assert ra * ra - e * e == (ra - e) * (ra + e);
    }
    assert 9 * (e * e + 0 * 0) > ra * ra;
    SquareIsProduct(e);
    SquareIsProduct(0);
    SquareIsProduct(ra);
  }

  lemma {:induction false} RowSumsBounded(g: array2<real>, ra: int, cx: int, cy: int, dy: int, hi: int)
    requires g.Length0 > 0 && g.Length1 > 0
    requires InUnitRange(g)
    ensures var s := RowSums(g, ra, cx, cy, dy, hi);
      0.0 <= s.innerSum <= s.innerCount as real && 0.0 <= s.outerSum <= s.outerCount as real
    decreases hi + ra
  {
    if hi > 1 - ra {
      RowSumsBounded(g, ra, cx, cy, dy, hi - 1);
    }
  }

  lemma {:induction false} BlockSumsBounded(g: array2<real>, ra: int, cx: int, cy: int, hiY: int)
    requires g.Length0 > 0 && g.Length1 > 0
    requires InUnitRange(g)
    ensures var s := BlockSums(g, ra, cx, cy, hiY);
      0.0 <= s.innerSum <= s.innerCount as real && 0.0 <= s.outerSum <= s.outerCount as real
    decreases hiY + ra
  {
    if hiY > 1 - ra {
      BlockSumsBounded(g, ra, cx, cy, hiY - 1);
      RowSumsBounded(g, ra, cx, cy, hiY - 1, ra);
    }
  }

  /** `m` after `m /= M`: the mean intensity over the inner disk. */
  function InnerFilling(g: array2<real>, ra: int, cx: int, cy: int): (m: real)
    reads g
    requires g.Length0 > 0 && g.Length1 > 0
    requires ra >= 1
    ensures InUnitRange(g) ==> 0.0 <= m <= 1.0
  {
    var s := NeighbourhoodSums(g, ra, cx, cy);
    NeighbourhoodCounts(g, ra, cx, cy);
    RingsNonEmptyIff(ra);
    assert InUnitRange(g) ==> 0.0 <= s.innerSum / s.innerCount as real <= 1.0 by {
      if InUnitRange(g) {
        BlockSumsBounded(g, ra, cx, cy, ra);
        DivideAtMostOne(s.innerSum, s.innerCount as real);
      }
    }
    s.innerSum / s.innerCount as real
  }

  /** `n` after `n /= N`: the mean intensity over the outer ring. */
  function OuterFilling(g: array2<real>, ra: int, cx: int, cy: int): (n: real)
    reads g
    requires g.Length0 > 0 && g.Length1 > 0
    requires ra >= 2
    ensures InUnitRange(g) ==> 0.0 <= n <= 1.0
  {
    var s := NeighbourhoodSums(g, ra, cx, cy);
    NeighbourhoodCounts(g, ra, cx, cy);
    RingsNonEmptyIff(ra);
    assert InUnitRange(g) ==> 0.0 <= s.outerSum / s.outerCount as real <= 1.0 by {
      if InUnitRange(g) {
        BlockSumsBounded(g, ra, cx, cy, ra);
        DivideAtMostOne(s.outerSum, s.outerCount as real);
      }
    }
    s.outerSum / s.outerCount as real
  }

  lemma DivideAtMostOne(a: real, b: real)
    requires 0.0 <= a <= b && b > 0.0
    ensures 0.0 <= a / b <= 1.0
  {
    assert a / b * b == a;
  }

  /** The value `compute_grid_diff` stores for cell `(cx, cy)`: twice the
      target state minus one, which lies strictly between -1 and 1. */
  function CellDelta(exp: ExpFn, p: Params, g: array2<real>, cx: int, cy: int): (d: real)
    reads g
    requires g.Length0 > 0 && g.Length1 > 0
    requires ValidParams(p)
    ensures -1.0 < d < 1.0
  {
    2.0 * S(exp, p, OuterFilling(g, p.ra, cx, cy), InnerFilling(g, p.ra, cx, cy)) - 1.0
  }

  /** With the program's constants, a cell whose outer ring is filled to at
      most `d1` or at least `d2` gets a negative delta: it decays, whatever
      its inner disk holds. */
  lemma ReferenceDeltaNegative(exp: ExpFn, g: array2<real>, cx: int, cy: int)
    requires g.Length0 > 0 && g.Length1 > 0
    requires Increasing(exp) && exp(0.0) == 1.0
    requires OuterFilling(g, Reference.ra, cx, cy) <= Reference.d1 || Reference.d2 <= OuterFilling(g, Reference.ra, cx, cy)
    ensures CellDelta(exp, Reference, g, cx, cy) < 0.0
  {
    ReferenceOutsideBand(exp, OuterFilling(g, Reference.ra, cx, cy), InnerFilling(g, Reference.ra, cx, cy));
  }

  /** Two grids that agree on every scanned offset of the inner disk and the
      outer ring give the same row accumulators: offsets outside the square,
      such as `(ra, 0)`, and corner offsets beyond radius `ra` are never
      read. */
  lemma {:induction false} RowSumsLocal(g1: array2<real>, g2: array2<real>, ra: int, cx: int, cy: int, dy: int, hi: int)
    requires g1.Length0 > 0 && g1.Length1 > 0 && g2.Length0 > 0 && g2.Length1 > 0
    requires hi <= ra
    requires forall dx :: 1 - ra <= dx < hi && Classify(dx, dy, ra) != Beyond ==>
      Neighbour(g1, cx, cy, dx, dy) == Neighbour(g2, cx, cy, dx, dy)
    ensures RowSums(g1, ra, cx, cy, dy, hi) == RowSums(g2, ra, cx, cy, dy, hi)
    decreases hi + ra
  {
    if hi > 1 - ra {
      RowSumsLocal(g1, g2, ra, cx, cy, dy, hi - 1);
    }
  }

  lemma {:induction false} BlockSumsLocal(g1: array2<real>, g2: array2<real>, ra: int, cx: int, cy: int, hiY: int)
    requires g1.Length0 > 0 && g1.Length1 > 0 && g2.Length0 > 0 && g2.Length1 > 0
    requires hiY <= ra
    requires forall dx, dy :: 1 - ra <= dx < ra && 1 - ra <= dy < hiY && Classify(dx, dy, ra) != Beyond ==>
      Neighbour(g1, cx, cy, dx, dy) == Neighbour(g2, cx, cy, dx, dy)
    ensures BlockSums(g1, ra, cx, cy, hiY) == BlockSums(g2, ra, cx, cy, hiY)
    decreases hiY + ra
  {
    if hiY > 1 - ra {
      BlockSumsLocal(g1, g2, ra, cx, cy, hiY - 1);
      RowSumsLocal(g1, g2, ra, cx, cy, hiY - 1, ra);
    }
  }

  /** Locality of the kernel: a cell's delta depends only on the grid values
      at the scanned offsets that fall in the inner disk or the outer ring. */
  lemma CellDeltaLocal(exp: ExpFn, p: Params, g1: array2<real>, g2: array2<real>, cx: int, cy: int)
    requires g1.Length0 > 0 && g1.Length1 > 0 && g2.Length0 > 0 && g2.Length1 > 0
    requires ValidParams(p)
    requires forall dx, dy :: 1 - p.ra <= dx < p.ra && 1 - p.ra <= dy < p.ra && Classify(dx, dy, p.ra) != Beyond ==>
      Neighbour(g1, cx, cy, dx, dy) == Neighbour(g2, cx, cy, dx, dy)
    ensures CellDelta(exp, p, g1, cx, cy) == CellDelta(exp, p, g2, cx, cy)
  {
    BlockSumsLocal(g1, g2, p.ra, cx, cy, p.ra);
  }

  /** One offset more on the current row: `block ⊕ row-so-far ⊕ visit` is the
      block plus the longer row. */
  lemma ScanStep(g: array2<real>, ra: int, cx: int, cy: int, dy: int, dx: int, block: Sums)
    requires g.Length0 > 0 && g.Length1 > 0
    requires 1 - ra <= dx
    ensures Plus(Plus(block, RowSums(g, ra, cx, cy, dy, dx)), Visit(g, ra, cx, cy, dx, dy))
      == Plus(block, RowSums(g, ra, cx, cy, dy, dx + 1))
  {
    PlusAssoc(block, RowSums(g, ra, cx, cy, dy, dx), Visit(g, ra, cx, cy, dx, dy));
  }

  /** Adding one offset's visit to accumulators `acc`, written as the
      source's branches on the ring of the offset. */
  lemma VisitAdds(g: array2<real>, ra: int, cx: int, cy: int, dx: int, dy: int, acc: Sums)
    requires g.Length0 > 0 && g.Length1 > 0
    ensures var v := g[Torus.Emod(cy + dy, g.Length0), Torus.Emod(cx + dx, g.Length1)];
      Plus(acc, Visit(g, ra, cx, cy, dx, dy)) ==
        match Classify(dx, dy, ra)
        case Inner => acc.(innerSum := acc.innerSum + v, innerCount := acc.innerCount + 1)
        case Outer => acc.(outerSum := acc.outerSum + v, outerCount := acc.outerCount + 1)
        case Beyond => acc
  {
  }

  /** A finished row extends the block by one row. */
  lemma ScanRowDone(g: array2<real>, ra: int, cx: int, cy: int, dy: int)
    requires g.Length0 > 0 && g.Length1 > 0
    requires 1 - ra <= dy
    ensures BlockSums(g, ra, cx, cy, dy + 1) == Plus(BlockSums(g, ra, cx, cy, dy), RowSums(g, ra, cx, cy, dy, ra))
  {
  }

  /** The innermost loop of `compute_grid_diff`: row `dy` of the scan for
      cell `(cx, cy)`, visiting the offsets `dx` in `[-(ra-1), ra-1]`. Each
      offset's coordinates are wrapped with `emod`; the cell is added to
      `m` and counted in `M` (the fields `innerSum`, `innerCount` of the
      accumulators) when the offset lies in the inner disk, and likewise to
      `n`/`N` when it lies in the outer ring. */
  method ScanRow(g: array2<real>, ra: int, cx: int, cy: int, dy: int, acc: Sums) returns (r: Sums)
    requires g.Length0 > 0 && g.Length1 > 0
    ensures r == Plus(acc, RowSums(g, ra, cx, cy, dy, ra))
  {
    r := acc;
    var dx := -(ra - 1);
    while dx <= ra - 1
      invariant 1 - ra <= dx <= if ra < 1 then 1 - ra else ra
      invariant r == Plus(acc, RowSums(g, ra, cx, cy, dy, dx))
    {
      ghost var before := r;
      var x := Torus.Emod(cx + dx, g.Length1);
      var y := Torus.Emod(cy + dy, g.Length0);
      var ring := Classify(dx, dy, ra);
      if ring == Inner {
        r := r.(innerSum := r.innerSum + g[y, x], innerCount := r.innerCount + 1);
      } else if ring == Outer {
        r := r.(outerSum := r.outerSum + g[y, x], outerCount := r.outerCount + 1);
      }
      assert r == Plus(acc, RowSums(g, ra, cx, cy, dy, dx + 1)) by {
        VisitAdds(g, ra, cx, cy, dx, dy, before);
        ScanStep(g, ra, cx, cy, dy, dx, acc);
      }
      dx := dx + 1;
    }
    if ra < 1 {
      assert RowSums(g, ra, cx, cy, dy, ra) == NoSums;
    } else {
      assert dx == ra;
    }
  }

  /** The two inner loops of `compute_grid_diff` for cell `(cx, cy)`: the
      rows `dy` in `[-(ra-1), ra-1]`, each scanned by `ScanRow`. The result
      is `NeighbourhoodSums`, and the counts are the grid-independent ring
      sizes. */
  method SumNeighbourhood(g: array2<real>, ra: int, cx: int, cy: int) returns (s: Sums)
    requires g.Length0 > 0 && g.Length1 > 0
    ensures s == NeighbourhoodSums(g, ra, cx, cy)
    ensures s.innerCount == InnerCount(ra) && s.outerCount == OuterCount(ra)
  {
    s := NoSums;
    var dy := -(ra - 1);
    while dy <= ra - 1
      invariant 1 - ra <= dy <= if ra < 1 then 1 - ra else ra
      invariant s == BlockSums(g, ra, cx, cy, dy)
    {
      s := ScanRow(g, ra, cx, cy, dy, s);
      assert s == BlockSums(g, ra, cx, cy, dy + 1) by {
        ScanRowDone(g, ra, cx, cy, dy);
      }
      dy := dy + 1;
    }
    assert s == NeighbourhoodSums(g, ra, cx, cy) by {
      if ra < 1 {
        assert BlockSums(g, ra, cx, cy, ra) == NoSums;
      } else {
        assert dy == ra;
      }
    }
    NeighbourhoodCounts(g, ra, cx, cy);
  }
}
