/** The simulation state the program keeps in globals — the grid, the delta
    buffer and the parameters — gathered in one object, with the in-place
    operations of one run: seeding, convolution, integration and a step. */
module SmoothLife {
  import opened Transition
  import opened GridState
  import opened Convolution
  import opened Integrator

  class Simulation {
    const width: nat
    const height: nat
    const params: Params
    const exp: ExpFn
    /** `grid[y, x]`: the intensity of row `y`, column `x`. */
    const grid: array2<real>
    /** `gridDiff[y, x]`: the delta computed for that cell in the current step. */
    const gridDiff: array2<real>

    ghost predicate Valid()
    {
      && width > 0 && height > 0
      && ValidParams(params)
      && grid.Length0 == height && grid.Length1 == width
      && gridDiff.Length0 == height && gridDiff.Length1 == width
      && grid != gridDiff
    }

    /** Both buffers start zeroed, as the source's static initialisers do. */
    constructor (width: nat, height: nat, params: Params, exp: ExpFn)
      requires width > 0 && height > 0 && ValidParams(params)
      ensures Valid()
      ensures this.width == width && this.height == height
      ensures this.params == params && this.exp == exp
      ensures fresh(grid) && fresh(gridDiff)
      ensures forall y, x :: 0 <= y < height && 0 <= x < width ==> grid[y, x] == 0.0
      ensures forall y, x :: 0 <= y < height && 0 <= x < width ==> gridDiff[y, x] == 0.0
    {
      this.width := width;
      this.height := height;
      this.params := params;
      this.exp := exp;
      grid := new real[height, width]((y, x) => 0.0);
      gridDiff := new real[height, width]((y, x) => 0.0);
    }

    /** The cells `random_grid` writes: a centred block of
        `(width / 3) x (height / 3)` cells. */
    ghost predicate InSeedBlock(y: int, x: int)
    {
      && SeedStart(height) <= y < SeedStart(height) + height / 3
      && SeedStart(width) <= x < SeedStart(width) + width / 3
    }

    /** `random_grid`: fills the centred block with successive values of
        the random stream, row by row; `draws[j][i]` is the value drawn for
        column `i` of row `j` of the block. Every other cell keeps its
        value. */
    method RandomGrid(draws: seq<seq<real>>)
      requires Valid()
      requires |draws| == height / 3
      requires forall j :: 0 <= j < |draws| ==> |draws[j]| == width / 3
      modifies grid
      ensures forall y, x :: 0 <= y < height && 0 <= x < width ==>
        grid[y, x] == if InSeedBlock(y, x)
          then draws[y - SeedStart(height)][x - SeedStart(width)]
          else old(grid[y, x])
      ensures old(InUnitRange(grid)) && (forall j, i :: 0 <= j < |draws| && 0 <= i < |draws[j]| ==> 0.0 <= draws[j][i] <= 1.0) ==>
        InUnitRange(grid)
    {
      var w, h := width / 3, height / 3;
      var x0, y0 := SeedStart(width), SeedStart(height);
      var dy := 0;
      while dy < h
        invariant 0 <= dy <= h
        invariant forall y, x :: 0 <= y < height && 0 <= x < width ==>
          grid[y, x] == if y0 <= y < y0 + dy && x0 <= x < x0 + w
            then draws[y - y0][x - x0]
            else old(grid[y, x])
      {
        var dx := 0;
        while dx < w
          invariant 0 <= dx <= w
          invariant forall y, x :: 0 <= y < height && 0 <= x < width ==>
            grid[y, x] == if (y0 <= y < y0 + dy && x0 <= x < x0 + w) || (y == y0 + dy && x0 <= x < x0 + dx)
              then draws[y - y0][x - x0]
              else old(grid[y, x])
        {
          var x := dx + x0;
          var y := dy + y0;
          grid[y, x] := draws[dy][dx];
          dx := dx + 1;
        }
        dy := dy + 1;
      }
    }

    /** `compute_grid_diff`: stores every cell's delta into `gridDiff`, in
        row-major order, reading only `grid`, which it leaves untouched. */
    method ComputeGridDiff()
      requires Valid()
      modifies gridDiff
      ensures unchanged(grid)
      ensures forall y, x :: 0 <= y < height && 0 <= x < width ==>
        gridDiff[y, x] == CellDelta(exp, params, grid, x, y)
    {
      var cy := 0;
      while cy < height
        invariant 0 <= cy <= height
        invariant forall y, x :: 0 <= y < height && 0 <= x < width ==>
          gridDiff[y, x] == if y < cy then CellDelta(exp, params, grid, x, y) else old(gridDiff[y, x])
      {
        var cx := 0;
        while cx < width
          invariant 0 <= cx <= width
          invariant forall y, x :: 0 <= y < height && 0 <= x < width ==>
            gridDiff[y, x] == if y < cy || (y == cy && x < cx)
              then CellDelta(exp, params, grid, x, y) else old(gridDiff[y, x])
        {
          var s := SumNeighbourhood(grid, params.ra, cx, cy);
          RingsNonEmptyIff(params.ra);
          var m := s.innerSum / s.innerCount as real;
          var n := s.outerSum / s.outerCount as real;
          var q := S(exp, params, n, m);
          gridDiff[cy, cx] := 2.0 * q - 1.0;
          cx := cx + 1;
        }
        cy := cy + 1;
      }
    }

    /** `apply_grid_diff`: one explicit-Euler update with saturation. Each
        cell becomes its old value plus `dt` times its own delta, clamped to
        [0,1]; the delta buffer is left untouched. */
    method ApplyGridDiff()
      requires Valid()
      modifies grid
      ensures unchanged(gridDiff)
      ensures forall y, x :: 0 <= y < height && 0 <= x < width ==>
        grid[y, x] == EulerStep(old(grid[y, x]), gridDiff[y, x], params.dt)
      ensures InUnitRange(grid)
    {
      var y := 0;
      while y < height
        invariant 0 <= y <= height
        invariant forall j, i :: 0 <= j < y && 0 <= i < width ==>
          grid[j, i] == EulerStep(old(grid[j, i]), gridDiff[j, i], params.dt)
        invariant forall j, i :: y <= j < height && 0 <= i < width ==> grid[j, i] == old(grid[j, i])
      {
        var x := 0;
        while x < width
          invariant 0 <= x <= width
          invariant forall j, i :: 0 <= j < y && 0 <= i < width ==>
            grid[j, i] == EulerStep(old(grid[j, i]), gridDiff[j, i], params.dt)
          invariant forall i :: 0 <= i < x ==> grid[y, i] == EulerStep(old(grid[y, i]), gridDiff[y, i], params.dt)
          invariant forall i :: x <= i < width ==> grid[y, i] == old(grid[y, i])
          invariant forall j, i :: y < j < height && 0 <= i < width ==> grid[j, i] == old(grid[j, i])
        {
          grid[y, x] := grid[y, x] + params.dt * gridDiff[y, x];
          ClampAt(grid, y, x, 0.0, 1.0);
          assert grid[y, x] == EulerStep(old(grid[y, x]), gridDiff[y, x], params.dt);
          x := x + 1;
        }
        y := y + 1;
      }
    }

    /** One iteration of the main loop without the display: convolve, then
        integrate. Every delta comes from the grid as it was before the
        step, and the grid ends in [0,1] whatever it held before. */
    method Step()
      requires Valid()
      modifies grid, gridDiff
      ensures forall y, x :: 0 <= y < height && 0 <= x < width ==>
        gridDiff[y, x] == old(CellDelta(exp, params, grid, x, y))
      ensures forall y, x :: 0 <= y < height && 0 <= x < width ==>
        grid[y, x] == EulerStep(old(grid[y, x]), gridDiff[y, x], params.dt)
      ensures InUnitRange(grid)
    {
      ComputeGridDiff();
      ApplyGridDiff();
    }
  }
}
