/** Where the function patterns go and what they hold: finder patterns, separators, timing
    patterns, alignment patterns and format information, as `addFinderPatterns`,
    `addSeparators`, `addTimingPatterns`, `addAlignmentPatterns` and `addFormatInfo` draw them.
    Coordinates are `(x, y)`, column first, as in the Go calls `setModule(x, y, ...)`. */
module QrPatterns {
  import opened QrWrappers
  import opened QrBits
  import opened QrTables

  /** The top-left corner of a square window. */
  type Origin = (int, int)

  predicate InWindow(o: Origin, w: int, x: int, y: int)
  {
    o.0 <= x < o.0 + w && o.1 <= y < o.1 + w
  }

  /** The window drawn last, among the first `n` windows of side `w` drawn at `origins` in
      order, that holds module `(x, y)`. */
  function CoverUpTo(origins: seq<Origin>, n: nat, w: int, x: int, y: int): (r: Option<Origin>)
    requires n <= |origins|
    ensures r.Some? ==> r.value in origins && InWindow(r.value, w, x, y)
    ensures r.None? <==> forall k :: 0 <= k < n ==> !InWindow(origins[k], w, x, y)
  {
    if n == 0 then None
    else if InWindow(origins[n - 1], w, x, y) then Some(origins[n - 1])
    else CoverUpTo(origins, n - 1, w, x, y)
  }

  /** The window drawn last that holds module `(x, y)`: its pattern is what the module shows. */
  function Cover(origins: seq<Origin>, w: int, x: int, y: int): (r: Option<Origin>)
    ensures r.Some? ==> r.value in origins && InWindow(r.value, w, x, y)
    ensures r.None? <==> forall o :: o in origins ==> !InWindow(o, w, x, y)
  {
    CoverUpTo(origins, |origins|, w, x, y)
  }

  /** Only the first `n` windows matter to `CoverUpTo`. */
  lemma {:induction false} CoverUpToPrefix(a: seq<Origin>, b: seq<Origin>, n: nat, w: int, x: int, y: int)
    requires n <= |a| && n <= |b| && a[..n] == b[..n]
    ensures CoverUpTo(a, n, w, x, y) == CoverUpTo(b, n, w, x, y)
  {
    if n > 0 {
      assert a[n - 1] == a[..n][n - 1] == b[..n][n - 1] == b[n - 1];
      assert a[..n - 1] == a[..n][..n - 1] == b[..n][..n - 1] == b[..n - 1];
      CoverUpToPrefix(a, b, n - 1, w, x, y);
    }
  }

  /** Drawing one more window: it covers its own modules and leaves the others as they were. */
  lemma CoverSnoc(origins: seq<Origin>, o: Origin, w: int)
    ensures forall x, y :: Cover(origins + [o], w, x, y) == if InWindow(o, w, x, y) then Some(o) else Cover(origins, w, x, y)
  {
    forall x, y
      ensures Cover(origins + [o], w, x, y) == if InWindow(o, w, x, y) then Some(o) else Cover(origins, w, x, y)
    {
      assert (origins + [o])[..|origins|] == origins[..|origins|];
      CoverUpToPrefix(origins + [o], origins, |origins|, w, x, y);
    }
  }

  /** The part of window `o` drawn so far by row-by-row loops: `r` complete rows, then `c`
      modules of row `r`. */
  predicate InPartial(o: Origin, w: int, r: int, c: int, x: int, y: int)
  {
    o.0 <= x < o.0 + w && o.1 <= y && (y - o.1 < r || (y - o.1 == r && x - o.0 < c))
  }

  /** Finder patterns: top-left, top-right, bottom-left, in the order they are drawn. */
  function FinderOrigins(s: int): seq<Origin>
  {
    [(0, 0), (s - 7, 0), (0, s - 7)]
  }

  /** The template module a finder pattern at `o` puts at `(x, y)`. */
  function FinderValue(o: Origin, x: int, y: int): bool
    requires InWindow(o, 7, x, y)
  {
    FINDER_PATTERN[y - o.1][x - o.0]
  }

  /** Which finder pattern a module shows: the last one drawn over it. */
  lemma FinderCover(s: int, x: int, y: int)
    ensures Cover(FinderOrigins(s), 7, x, y) ==
      if InWindow((0, s - 7), 7, x, y) then Some((0, s - 7))
      else if InWindow((s - 7, 0), 7, x, y) then Some((s - 7, 0))
      else if InWindow((0, 0), 7, x, y) then Some((0, 0))
      else None
  {
    var os := FinderOrigins(s);
    var one := if InWindow((0, 0), 7, x, y) then Some((0, 0)) else None;
    assert CoverUpTo(os, 1, 7, x, y) == one;
    var two := if InWindow((s - 7, 0), 7, x, y) then Some((s - 7, 0)) else one;
    assert CoverUpTo(os, 2, 7, x, y) == two;
    assert CoverUpTo(os, 3, 7, x, y) == if InWindow((0, s - 7), 7, x, y) then Some((0, s - 7)) else two;
  }

  /** The three finder patterns do not overlap, so each is drawn in full: every module of the 7x7
      block at each origin shows that block's template. */
  lemma FinderBlocksDrawn(s: int, k: int, dx: int, dy: int)
    requires s >= 21 && 0 <= k < 3 && 0 <= dx < 7 && 0 <= dy < 7
    ensures var o := FinderOrigins(s)[k];
      Cover(FinderOrigins(s), 7, o.0 + dx, o.1 + dy) == Some(o)
  {
    var o := FinderOrigins(s)[k];
    FinderCover(s, o.0 + dx, o.1 + dy);
  }

  /** The one-module ring around the finder pattern at `o` (before clipping to the symbol). */
  predicate InRing(o: Origin, x: int, y: int)
  {
    && o.0 - 1 <= x <= o.0 + 7 && o.1 - 1 <= y <= o.1 + 7
    && (x == o.0 - 1 || x == o.0 + 7 || y == o.1 - 1 || y == o.1 + 7)
  }

  /** A ring module among the first `k` finder origins. */
  predicate InSeparators(s: int, k: int, x: int, y: int)
  {
    || (k >= 1 && InRing((0, 0), x, y))
    || (k >= 2 && InRing((s - 7, 0), x, y))
    || (k >= 3 && InRing((0, s - 7), x, y))
  }

  /** The part of the ring around `o` drawn so far: rows `dy = -1 .. r - 2` complete, then
      `c` modules of the next row. */
  predicate InRingPartial(o: Origin, r: int, c: int, x: int, y: int)
  {
    InRing(o, x, y) && InPartial((o.0 - 1, o.1 - 1), 9, r, c, x, y)
  }

  /** Separators never touch a finder pattern. */
  lemma SeparatorsAvoidFinders(s: int, x: int, y: int)
    requires s >= 21 && InSeparators(s, 3, x, y)
    ensures Cover(FinderOrigins(s), 7, x, y).None?
  {
    FinderCover(s, x, y);
  }

  /** The timing patterns: row 6 and column 6, between the separators. */
  predicate InTiming(s: int, x: int, y: int)
  {
    (y == 6 && 8 <= x < s - 8) || (x == 6 && 8 <= y < s - 8)
  }

  /** Timing modules alternate, dark on even coordinates. */
  function TimingValue(x: int, y: int): bool
  {
    if y == 6 then x % 2 == 0 else y % 2 == 0
  }

  /** The two timing patterns meet only at `(6, 6)`, which lies inside the top-left finder
      pattern and outside both of them, so each module of either pattern gets one value. */
  lemma TimingAvoidsFinders(s: int, x: int, y: int)
    requires s >= 21 && InTiming(s, x, y)
    ensures Cover(FinderOrigins(s), 7, x, y).None? && !InSeparators(s, 3, x, y)
  {
    FinderCover(s, x, y);
  }

  /** `addAlignmentPatterns` skips a centre whose pattern would overlap a finder pattern. */
  predicate SkipAlignment(s: int, cx: int, cy: int): (r: bool)
    ensures cx <= 10 && cy <= 10 ==> r
    ensures r ==> cx <= 10 || cy <= 10
    ensures 10 < cx < s - 10 || 10 < cy < s - 10 ==> !r
    ensures cx > 10 && cy > 10 ==> !r
  {
    (cx <= 10 && cy <= 10) || (cx >= s - 10 && cy <= 10) || (cx <= 10 && cy >= s - 10)
  }

  /** Corners of the alignment patterns drawn in row `cy` of centres by the inner loop, for the
      first `b` centres `cx` of `ps`. */
  function AlignmentRow(s: int, ps: seq<int>, cy: int, b: int): seq<Origin>
    requires 0 <= b <= |ps|
  {
    if b == 0 then []
    else AlignmentRow(s, ps, cy, b - 1) + (if SkipAlignment(s, ps[b - 1], cy) then [] else [(ps[b - 1] - 2, cy - 2)])
  }

  /** Corners of the alignment patterns drawn by the first `a` iterations of the outer loop. */
  function AlignmentRows(s: int, ps: seq<int>, a: int): seq<Origin>
    requires 0 <= a <= |ps|
  {
    if a == 0 then [] else AlignmentRows(s, ps, a - 1) + AlignmentRow(s, ps, ps[a - 1], |ps|)
  }

  /** Corners of all alignment patterns of a version, in drawing order. */
  function AlignmentOrigins(s: int, version: int): seq<Origin>
  {
    if version == 1 then [] else AlignmentRows(s, AlignmentPositions(version), |AlignmentPositions(version)|)
  }

  /** The 5x5 alignment pattern: a dark ring, a light ring and a dark centre. */
  function AlignmentValue(o: Origin, x: int, y: int): bool
  {
    var dx, dy := x - (o.0 + 2), y - (o.1 + 2);
    dx == -2 || dx == 2 || dy == -2 || dy == 2 || (dx == 0 && dy == 0)
  }

  /** Every corner drawn comes from a centre the skip test let through. */
  lemma {:induction false} AlignmentRowNotSkipped(s: int, ps: seq<int>, cy: int, b: int)
    requires 0 <= b <= |ps|
    ensures forall o :: o in AlignmentRow(s, ps, cy, b) ==> !SkipAlignment(s, o.0 + 2, o.1 + 2)
  {
    if b > 0 {
      AlignmentRowNotSkipped(s, ps, cy, b - 1);
    }
  }

  lemma {:induction false} AlignmentRowsNotSkipped(s: int, ps: seq<int>, a: int)
    requires 0 <= a <= |ps|
    ensures forall o :: o in AlignmentRows(s, ps, a) ==> !SkipAlignment(s, o.0 + 2, o.1 + 2)
  {
    if a > 0 {
      AlignmentRowsNotSkipped(s, ps, a - 1);
      AlignmentRowNotSkipped(s, ps, ps[a - 1], |ps|);
    }
  }

  /** The skip test keeps every alignment pattern off the finder patterns and their separators. */
  lemma AlignmentAvoidsFinders(s: int, version: int, x: int, y: int)
    requires s >= 21
    ensures Cover(AlignmentOrigins(s, version), 5, x, y).Some? ==>
      Cover(FinderOrigins(s), 7, x, y).None? && !InSeparators(s, 3, x, y)
  {
    FinderCover(s, x, y);
    if version != 1 {
      var ps := AlignmentPositions(version);
      AlignmentRowsNotSkipped(s, ps, |ps|);
    }
  }

  /** A centre coordinate of the alignment table: even, and 6 or at least 18. */
  predicate TableCentre(v: int)
  {
    v % 2 == 0 && (v == 6 || v >= 18)
  }

  /** Where an alignment pattern crosses a timing pattern it shows the timing pattern's value:
      a pattern crossing row 6 is centred on row 6 and at an even column, so redrawing the
      crossing leaves the timing pattern intact (and likewise for column 6). */
  lemma AlignmentAgreesWithTiming(s: int, version: int, x: int, y: int)
    requires 1 <= version <= MAX_VERSION && s == 21 + 4 * (version - 1)
    requires InTiming(s, x, y)
    requires Cover(AlignmentOrigins(s, version), 5, x, y).Some?
    ensures AlignmentValue(Cover(AlignmentOrigins(s, version), 5, x, y).value, x, y) == TimingValue(x, y)
  {
    var ps := AlignmentPositions(version);
    AlignmentPositionsShape(version);
    AlignmentRowsCentres(s, ps, |ps|);
    var o := Cover(AlignmentOrigins(s, version), 5, x, y).value;
    assert o in AlignmentRows(s, ps, |ps|);
    CrossingValue(o, x, y);
  }

  /** The value check for one pattern centred on table coordinates. */
  lemma CrossingValue(o: Origin, x: int, y: int)
    requires TableCentre(o.0 + 2) && TableCentre(o.1 + 2) && InWindow(o, 5, x, y)
    requires y == 6 || x == 6
    ensures AlignmentValue(o, x, y) == TimingValue(x, y)
  {
    if y == 6 {
      assert o.1 + 2 == 6;
    } else {
      assert o.0 + 2 == 6;
    }
  }

  /** Every drawn pattern is centred on table coordinates. */
  lemma {:induction false} AlignmentRowsCentres(s: int, ps: seq<int>, a: int)
    requires 0 <= a <= |ps| && forall j :: 0 <= j < |ps| ==> TableCentre(ps[j])
    ensures forall o :: o in AlignmentRows(s, ps, a) ==> TableCentre(o.0 + 2) && TableCentre(o.1 + 2)
  {
    if a > 0 {
      AlignmentRowsCentres(s, ps, a - 1);
      AlignmentRowCentres(s, ps, ps[a - 1], |ps|);
    }
  }

  lemma {:induction false} AlignmentRowCentres(s: int, ps: seq<int>, cy: int, b: int)
    requires 0 <= b <= |ps| && TableCentre(cy) && forall j :: 0 <= j < |ps| ==> TableCentre(ps[j])
    ensures forall o :: o in AlignmentRow(s, ps, cy, b) ==> TableCentre(o.0 + 2) && TableCentre(o.1 + 2)
  {
    if b > 0 {
      AlignmentRowCentres(s, ps, cy, b - 1);
    }
  }

  /** The modules iteration `i` of the format-information loop writes. */
  predicate FormatWrites(s: int, i: int, x: int, y: int)
  {
    if i < 6 then (x == 8 && y == i) || (x == i && y == 8)
    else if i == 6 then (x == 8 && y == 7) || (x == 7 && y == 8)
    else if i == 7 then x == 8 && y == 8
    else if i == 8 then x == 7 && y == 8
    else (x == 14 - i && y == 8) || (x == 8 && y == s - 15 + i)
  }

  /** The last of the first `n` iterations that wrote module `(x, y)`, or -1: the module holds
      that iteration's bit of the format word. */
  function FormatWriter(s: int, n: nat, x: int, y: int): (i: int)
    ensures -1 <= i < n
    ensures i >= 0 ==> FormatWrites(s, i, x, y)
    ensures forall j :: i < j < n ==> !FormatWrites(s, j, x, y)
  {
    if n == 0 then -1
    else if FormatWrites(s, n - 1, x, y) then n - 1
    else FormatWriter(s, n - 1, x, y)
  }

  /** Which bit of the format word each module holds once all 15 iterations have run. */
  function FormatBitAt(s: int, x: int, y: int): int
  {
    if x == 8 && 0 <= y < 6 then y
    else if x == 8 && y == 7 then 6
    else if x == 8 && y == 8 then 7
    else if x == 7 && y == 8 then 8
    else if 0 <= x < 6 && y == 8 then 14 - x
    else if x == 8 && s - 6 <= y < s then y - s + 15
    else -1
  }

  /** The overwrites of the format loop: `(7, 8)` is written with bit 6 and then bit 8, and each
      `(x, 8)` with `x < 6` with bit `x` and then bit `14 - x`; the later write stays. */
  lemma FormatOverwrites(s: int, x: int, y: int)
    requires s >= 21
    ensures FormatWriter(s, 15, x, y) == FormatBitAt(s, x, y)
  {
    var i := FormatWriter(s, 15, x, y);
    if 0 <= x < 6 && y == 8 {
      assert FormatWrites(s, 14 - x, x, y);
    } else if x == 7 && y == 8 {
      assert FormatWrites(s, 8, x, y);
    } else if x == 8 && 0 <= y < 6 {
      assert FormatWrites(s, y, x, y);
    } else if x == 8 && y == 7 {
      assert FormatWrites(s, 6, x, y);
    } else if x == 8 && y == 8 {
      assert FormatWrites(s, 7, x, y);
    } else if x == 8 && s - 6 <= y < s {
      assert FormatWrites(s, y - s + 15, x, y);
    }
  }

  /** The fixed dark module. */
  function DarkModule(s: int): (cell: (int, int))
  {
    (8, s - 8)
  }
}
