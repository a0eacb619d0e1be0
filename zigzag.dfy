/** The order in which `addData` visits the modules. The outer loop runs over column pairs from
    the right edge leftwards, skipping the vertical timing column 6; each pair is walked upward or
    downward in turn, the right-hand module of a pair before the left-hand one. A visit is a step
    `(pass, index, side)`: pass `ci` of the outer loop, iteration `i` of the row loop and `c` of
    the inner loop. */
module QrZigzag {
  import opened QrBits
  import opened QrMask

  /** The sides `addData` is used with: every symbol side `21 + 4 * (version - 1)` is odd and at
      least 21. */
  predicate SymbolSide(s: int)
  {
    s >= 21 && s % 2 == 1
  }

  /** Column pairs to the right of the timing column: `s - 1, s - 2` down to `8, 7`. */
  function RightPairs(s: int): int
  {
    (s - 7) / 2
  }

  /** Passes of the outer loop: the pairs on the right, then `5, 4`, `3, 2` and `1, 0`. */
  function PassCount(s: int): int
  {
    RightPairs(s) + 3
  }

  /** `col` at the top of pass `ci` of the outer loop, before the `col == 6` check. */
  function LoopColumn(s: int, ci: int): int
  {
    if ci <= RightPairs(s) then s - 1 - 2 * ci else 5 - 2 * (ci - RightPairs(s))
  }

  /** `col` after the check: on the pass that reaches column 6 it is moved to 5. */
  function PassColumn(s: int, ci: int): int
  {
    if LoopColumn(s, ci) == 6 then 5 else LoopColumn(s, ci)
  }

  /** `upward := ((size - 1 - col) / 2) % 2 == 0`, computed after the check. */
  function Upward(s: int, col: int): bool
    requires col < s
  {
    ((s - 1 - col) / 2) % 2 == 0
  }

  /** How `col` moves in the outer loop: it stays inside the symbol for every pass, the
      `col == 6` check moves it to 5 on one pass only, and `col -= 2` leads to the next pass;
      after the last pass it is negative. */
  lemma ColumnWalk(s: int, ci: int)
    requires SymbolSide(s) && 0 <= ci <= PassCount(s)
    ensures ci < PassCount(s) ==> 0 <= LoopColumn(s, ci) < s
    ensures ci < PassCount(s) ==> PassColumn(s, ci) == if LoopColumn(s, ci) == 6 then LoopColumn(s, ci) - 1 else LoopColumn(s, ci)
    ensures ci < PassCount(s) ==> LoopColumn(s, ci + 1) == PassColumn(s, ci) - 2
    ensures ci == PassCount(s) <==> LoopColumn(s, ci) < 0
  {
  }

  datatype Step = Step(pass: int, index: int, side: int)

  /** A visit that the loops make. */
  predicate IsStep(s: int, st: Step)
  {
    0 <= st.pass < PassCount(s) && 0 <= st.index < s && 0 <= st.side < 2
  }

  /** A point between visits: the loop counters at the top of some loop, with a counter equal to
      its bound standing for the end of that loop. */
  predicate Position(s: int, st: Step)
  {
    && 0 <= st.pass <= PassCount(s) && 0 <= st.index <= s && 0 <= st.side <= 2
    && (st.side > 0 ==> st.index < s)
    && (st.pass == PassCount(s) ==> st.index == 0 && st.side == 0)
  }

  /** Visit `p` happens before point `q`. */
  predicate Before(p: Step, q: Step)
  {
    p.pass < q.pass || (p.pass == q.pass && (p.index < q.index || (p.index == q.index && p.side < q.side)))
  }

  /** The module `(x, y)` visited at step `st`: `x = col - c`, and `y` counts from the bottom on
      an upward pass. Every visit lies inside the symbol and off column 6. */
  function CellOf(s: int, st: Step): (cell: (int, int))
    requires SymbolSide(s) && IsStep(s, st)
    ensures 0 <= cell.0 < s && cell.0 != 6 && 0 <= cell.1 < s
  {
    var col := PassColumn(s, st.pass);
    (col - st.side, if Upward(s, col) then s - 1 - st.index else st.index)
  }

  /** The module the loop counters of step `st` name, `x = col - c` and `y` from `i`, is the
      module visited at `st`. */
  lemma CellOfParts(s: int, st: Step, x: int, y: int)
    requires SymbolSide(s) && IsStep(s, st)
    requires x == PassColumn(s, st.pass) - st.side
    requires y == if Upward(s, PassColumn(s, st.pass)) then s - 1 - st.index else st.index
    ensures CellOf(s, st) == (x, y)
  {
  }

  /** The step at which module `(x, y)` is visited, for every module off column 6. */
  function StepOf(s: int, x: int, y: int): (st: Step)
    requires SymbolSide(s) && 0 <= x < s && x != 6 && 0 <= y < s
    ensures IsStep(s, st) && CellOf(s, st) == (x, y)
  {
    ColumnPass(s, x);
    var pass := if x > 6 then (s - 1 - x) / 2 else RightPairs(s) + (5 - x) / 2;
    var col := PassColumn(s, pass);
    Step(pass, if Upward(s, col) then s - 1 - y else y, col - x)
  }

  /** Column `x` is the right- or left-hand module of the pair of the pass `StepOf` assigns it. */
  lemma ColumnPass(s: int, x: int)
    requires SymbolSide(s) && 0 <= x < s && x != 6
    ensures var pass := if x > 6 then (s - 1 - x) / 2 else RightPairs(s) + (5 - x) / 2;
      0 <= pass < PassCount(s) && 0 <= PassColumn(s, pass) - x < 2
  {
    var r := (s - 7) / 2;
    assert s - 7 == 2 * r;
    if x > 6 {
      var pass := (s - 1 - x) / 2;
      assert 2 * pass <= s - 1 - x <= 2 * pass + 1;
      assert pass <= r;
      assert LoopColumn(s, pass) == s - 1 - 2 * pass;
    } else {
      var d := (5 - x) / 2;
      assert 2 * d <= 5 - x <= 2 * d + 1;
      if d == 0 {
        assert LoopColumn(s, r) == 6;
      } else {
        assert LoopColumn(s, r + d) == 5 - 2 * d;
      }
    }
  }

  /** Column 6 is never visited; every other module is visited exactly once. */
  lemma {:induction false} VisitsAreOneToOne(s: int, st: Step)
    requires SymbolSide(s) && IsStep(s, st)
    ensures var cell := CellOf(s, st); StepOf(s, cell.0, cell.1) == st
  {
  }

  /** Module `(x, y)` of the grid `f`, when `f` says it is not a function module. */
  ghost predicate IsFree(s: int, f: seq<seq<bool>>, st: Step)
    requires SymbolSide(s) && Square(f, s) && IsStep(s, st)
  {
    var cell := CellOf(s, st);
    !f[cell.1][cell.0]
  }

  /** The number of non-function modules visited before point `st`: the value `bitIndex`
      would reach there if it were never capped. */
  ghost function FreeBefore(s: int, f: seq<seq<bool>>, st: Step): nat
    requires SymbolSide(s) && Square(f, s) && Position(s, st)
    decreases st.pass, st.index, st.side
  {
    if st.side > 0 then
      var prev := Step(st.pass, st.index, st.side - 1);
      FreeBefore(s, f, prev) + (if IsFree(s, f, prev) then 1 else 0)
    else if st.index > 0 then FreeBefore(s, f, Step(st.pass, st.index - 1, 2))
    else if st.pass > 0 then FreeBefore(s, f, Step(st.pass - 1, s, 0))
    else 0
  }

  /** A free module visited before a point is counted before that point: so the count grows by
      one at each free module, and two free modules never get the same bit index. */
  lemma {:induction false} FreeBeforeGrows(s: int, f: seq<seq<bool>>, p: Step, q: Step)
    requires SymbolSide(s) && Square(f, s) && IsStep(s, p) && Position(s, q) && Before(p, q)
    ensures FreeBefore(s, f, p) + (if IsFree(s, f, p) then 1 else 0) <= FreeBefore(s, f, q)
    decreases q.pass, q.index, q.side
  {
    if q.side > 0 {
      var prev := Step(q.pass, q.index, q.side - 1);
      if p != prev {
        FreeBeforeGrows(s, f, p, prev);
      }
    } else if q.index > 0 {
      FreeBeforeGrows(s, f, p, Step(q.pass, q.index - 1, 2));
    } else if q.pass > 0 {
      FreeBeforeGrows(s, f, p, Step(q.pass - 1, s, 0));
    }
  }

  /** The bit `addData` writes for bit index `k` of `data`: the stream bit while there is one,
      `false` once the bits are exhausted. */
  function DataBit(data: seq<Byte>, k: int): bool
  {
    0 <= k < 8 * |data| && StreamBit(data, k)
  }

  /** Distinct free modules off column 6 receive distinct bit indices, so no data bit is placed
      twice. */
  lemma DistinctBitIndices(s: int, f: seq<seq<bool>>, x1: int, y1: int, x2: int, y2: int)
    requires SymbolSide(s) && Square(f, s)
    requires 0 <= x1 < s && x1 != 6 && 0 <= y1 < s && !f[y1][x1]
    requires 0 <= x2 < s && x2 != 6 && 0 <= y2 < s && !f[y2][x2]
    requires (x1, y1) != (x2, y2)
    ensures FreeBefore(s, f, StepOf(s, x1, y1)) != FreeBefore(s, f, StepOf(s, x2, y2))
  {
    var p, q := StepOf(s, x1, y1), StepOf(s, x2, y2);
    if Before(p, q) {
      FreeBeforeGrows(s, f, p, q);
    } else {
      assert Before(q, p);
      FreeBeforeGrows(s, f, q, p);
    }
  }

  /** Every bit index below the count at a point went to some free module visited before it:
      when the symbol has at least `8 * |data|` free modules off column 6, every data bit is
      placed. */
  lemma {:induction false} EveryIndexPlaced(s: int, f: seq<seq<bool>>, q: Step, k: int)
    requires SymbolSide(s) && Square(f, s) && Position(s, q) && 0 <= k < FreeBefore(s, f, q)
    ensures exists p :: IsStep(s, p) && Before(p, q) && IsFree(s, f, p) && FreeBefore(s, f, p) == k
    decreases q.pass, q.index, q.side
  {
    if q.side > 0 {
      var prev := Step(q.pass, q.index, q.side - 1);
      if k < FreeBefore(s, f, prev) {
        EveryIndexPlaced(s, f, prev, k);
      } else {
        assert IsStep(s, prev) && Before(prev, q) && IsFree(s, f, prev) && FreeBefore(s, f, prev) == k;
      }
    } else if q.index > 0 {
      EveryIndexPlaced(s, f, Step(q.pass, q.index - 1, 2), k);
    } else if q.pass > 0 {
      EveryIndexPlaced(s, f, Step(q.pass - 1, s, 0), k);
    }
  }

  /** The same in terms of modules: after the whole traversal, every index below the number of
      free modules is the bit index of some free module off column 6. */
  lemma EveryIndexHasModule(s: int, f: seq<seq<bool>>, k: int)
    requires SymbolSide(s) && Square(f, s) && 0 <= k < FreeBefore(s, f, Step(PassCount(s), 0, 0))
    ensures exists x, y :: 0 <= x < s && x != 6 && 0 <= y < s && !f[y][x] && FreeBefore(s, f, StepOf(s, x, y)) == k
  {
    EveryIndexPlaced(s, f, Step(PassCount(s), 0, 0), k);
    var p :| IsStep(s, p) && Before(p, Step(PassCount(s), 0, 0)) && IsFree(s, f, p) && FreeBefore(s, f, p) == k;
    var cell := CellOf(s, p);
    VisitsAreOneToOne(s, p);
    assert StepOf(s, cell.0, cell.1) == p;
  }
}
