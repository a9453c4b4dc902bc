/** Saturation used by the explicit-Euler update: `clamp` as a value and as
    the in-place update through a pointer that the source performs. */
module Integrator {

  /** `clamp(&v, l, h)` as a value: first raise to `l`, then lower to `h`.
      For `l <= h` the result is the point of `[l, h]` nearest to `v`; with
      inverted bounds the second test always wins and the result is `h`. */
  function Clamp(v: real, l: real, h: real): (r: real)
    ensures l <= h ==> l <= r <= h
    ensures l <= v <= h ==> r == v
    ensures l <= h && v < l ==> r == l
    ensures v > h ==> r == h
    ensures h < l ==> r == h
  {
    var raised := if v < l then l else v;
    if raised > h then h else raised
  }

  /** Clamping twice is clamping once. */
  lemma ClampIdempotent(v: real, l: real, h: real)
    requires l <= h
    ensures Clamp(Clamp(v, l, h), l, h) == Clamp(v, l, h)
  {
  }

  /** Clamping preserves order. */
  lemma ClampMonotone(v1: real, v2: real, l: real, h: real)
    requires l <= h && v1 <= v2
    ensures Clamp(v1, l, h) <= Clamp(v2, l, h)
  {
  }

  /** One cell of `apply_grid_diff`: the explicit-Euler update `v + dt * d`
      saturated to [0,1]. It is the plain Euler update whenever that stays
      in range, and 0 or 1 when it undershoots or overshoots. */
  function EulerStep(v: real, d: real, dt: real): (r: real)
    ensures 0.0 <= r <= 1.0
    ensures 0.0 <= v + dt * d <= 1.0 ==> r == v + dt * d
    ensures v + dt * d < 0.0 ==> r == 0.0
    ensures v + dt * d > 1.0 ==> r == 1.0
  {
    Clamp(v + dt * d, 0.0, 1.0)
  }

  /** `clamp(&a[y][x], l, h)`: the two conditional stores through the
      pointer, touching no other cell. */
  method ClampAt(a: array2<real>, y: int, x: int, l: real, h: real)
    requires 0 <= y < a.Length0 && 0 <= x < a.Length1
    modifies a
    ensures a[y, x] == Clamp(old(a[y, x]), l, h)
    ensures forall j, i :: 0 <= j < a.Length0 && 0 <= i < a.Length1 && (j != y || i != x) ==>
      a[j, i] == old(a[j, i])
  {
    if a[y, x] < l {
      a[y, x] := l;
    }
    if a[y, x] > h {
      a[y, x] := h;
    }
  }
}
