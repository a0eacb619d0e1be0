/** The eight data-mask patterns (`shouldMask`) and what `applyMask` does to a grid, stated on
    grid snapshots: a grid is a sequence of rows, indexed `[y][x]` like the Go slices. */
module QrMask {

  /** A square grid of side `n`. */
  ghost predicate Square(g: seq<seq<bool>>, n: int)
  {
    |g| == n && forall y :: 0 <= y < n ==> |g[y]| == n
  }

  /** The rows of a 2-D array as a grid. */
  ghost function Grid(a: array2<bool>): (g: seq<seq<bool>>)
    reads a
    ensures |g| == a.Length0
    ensures forall y :: 0 <= y < a.Length0 ==> |g[y]| == a.Length1
    ensures forall y, x {:trigger a[y, x]} :: 0 <= y < a.Length0 && 0 <= x < a.Length1 ==> g[y][x] == a[y, x]
  {
    seq(a.Length0, y requires 0 <= y < a.Length0 reads a =>
      seq(a.Length1, x requires 0 <= x < a.Length1 reads a => a[y, x]))
  }

  /** Go's `a % m` for `m > 0`: the remainder takes the sign of `a`. */
  function GoRem(a: int, m: int): (r: int)
    requires m > 0
    ensures -m < r < m
    ensures a >= 0 ==> r == a % m
  {
    if a >= 0 then a % m else -((-a) % m)
  }

  /** Go's `a / m` for `m > 0`: the quotient is truncated toward zero. */
  function GoQuot(a: int, m: int): (q: int)
    requires m > 0
    ensures a >= 0 ==> q == a / m
  {
    if a >= 0 then a / m else -((-a) / m)
  }

  /** `shouldMask(x, y, mask)`: whether mask pattern `mask` flips the module at column `x`,
      row `y`; no pattern outside 0..7 flips anything. */
  function ShouldMask(x: int, y: int, mask: int): (r: bool)
    ensures !(0 <= mask < 8) ==> !r
  {
    match mask
    case 0 => GoRem(x + y, 2) == 0
    case 1 => GoRem(y, 2) == 0
    case 2 => GoRem(x, 3) == 0
    case 3 => GoRem(x + y, 3) == 0
    case 4 => GoRem(GoQuot(y, 2) + GoQuot(x, 3), 2) == 0
    case 5 => GoRem(x * y, 2) + GoRem(x * y, 3) == 0
    case 6 => GoRem(GoRem(x * y, 2) + GoRem(x * y, 3), 2) == 0
    case 7 => GoRem(GoRem(x + y, 2) + GoRem(x * y, 3), 2) == 0
    case _ => false
  }

  /** The grid `applyMask(mask)` leaves: every module that is not a function module and that the
      pattern selects is flipped; all others keep their value. */
  ghost function Masked(g: seq<seq<bool>>, f: seq<seq<bool>>, mask: int): (r: seq<seq<bool>>)
    requires |f| == |g| && forall y :: 0 <= y < |g| ==> |f[y]| == |g[y]|
    ensures |r| == |g| && forall y :: 0 <= y < |g| ==> |r[y]| == |g[y]|
    ensures forall y, x :: 0 <= y < |g| && 0 <= x < |g[y]| ==>
      r[y][x] == (g[y][x] != (!f[y][x] && ShouldMask(x, y, mask)))
  {
    seq(|g|, y requires 0 <= y < |g| =>
      seq(|g[y]|, x requires 0 <= x < |g[y]| => g[y][x] != (!f[y][x] && ShouldMask(x, y, mask))))
  }

  /** Masking is an involution: applying the same mask twice restores the grid. */
  lemma MaskedTwice(g: seq<seq<bool>>, f: seq<seq<bool>>, mask: int)
    requires |f| == |g| && forall y :: 0 <= y < |g| ==> |f[y]| == |g[y]|
    ensures Masked(Masked(g, f, mask), f, mask) == g
  {
    var once := Masked(g, f, mask);
    var twice := Masked(once, f, mask);
    forall y | 0 <= y < |g|
      ensures twice[y] == g[y]
    {
    }
  }

  /** Masking never changes a function module, and changes every other module exactly where the
      pattern selects it. */
  lemma MaskedChanges(g: seq<seq<bool>>, f: seq<seq<bool>>, mask: int, x: int, y: int)
    requires |f| == |g| && forall y :: 0 <= y < |g| ==> |f[y]| == |g[y]|
    requires 0 <= y < |g| && 0 <= x < |g[y]|
    ensures f[y][x] ==> Masked(g, f, mask)[y][x] == g[y][x]
    ensures Masked(g, f, mask)[y][x] != g[y][x] <==> !f[y][x] && ShouldMask(x, y, mask)
  {
  }
}
