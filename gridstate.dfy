/** The grid as a height-by-width array of intensities, indexed
    `[row, column]`, with toroidal neighbour lookup and the centred block
    that seeding fills. */
module GridState {
  import Torus

  /** Every cell of `g` holds an intensity in [0,1]. */
  ghost predicate InUnitRange(g: array2<real>)
    reads g
  {
    forall y, x :: 0 <= y < g.Length0 && 0 <= x < g.Length1 ==> 0.0 <= g[y, x] <= 1.0
  }

  /** The cell at offset `(dx, dy)` from `(cx, cy)` on the torus: both
      coordinates are wrapped with `emod`, so the lookup is always in bounds
      and lands on the mathematical residue of the shifted coordinate. */
  function Neighbour(g: array2<real>, cx: int, cy: int, dx: int, dy: int): (v: real)
    reads g
    requires g.Length0 > 0 && g.Length1 > 0
    ensures InUnitRange(g) ==> 0.0 <= v <= 1.0
  {
    g[Torus.Emod(cy + dy, g.Length0), Torus.Emod(cx + dx, g.Length1)]
  }

  /** The lookup wraps around both edges: it reads the cell at the
      mathematical residues of the shifted coordinates, so offset `(1, 1)`
      of the last cell is cell `(0, 0)`. */
  lemma NeighbourWraps(g: array2<real>, cx: int, cy: int, dx: int, dy: int)
    requires g.Length0 > 0 && g.Length1 > 0
    ensures Neighbour(g, cx, cy, dx, dy) == g[(cy + dy) % g.Length0, (cx + dx) % g.Length1]
    ensures Neighbour(g, g.Length1 - 1, g.Length0 - 1, 1, 1) == g[0, 0]
  {
    Torus.EmodResidue(cy + dy, g.Length0);
    Torus.EmodResidue(cx + dx, g.Length1);
    Torus.EmodResidue(g.Length0, g.Length0);
    Torus.EmodResidue(g.Length1, g.Length1);
    Torus.ModUnique(g.Length0, 0, g.Length0, 1);
    Torus.ModUnique(g.Length1, 0, g.Length1, 1);
  }

  /** First index of the seeded block along an axis of length `n`: the block
      has length `n / 3`, fits inside the axis and is centred, its two
      margins differing by at most two cells. */
  function SeedStart(n: nat): (lo: nat)
    ensures lo + n / 3 <= n
    ensures lo <= (n - lo - n / 3) + 2 && (n - lo - n / 3) <= lo + 2
  {
    n / 2 - (n / 3) / 2
  }
}
