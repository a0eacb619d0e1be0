/** The `QRCode` value and the pipeline that fills its two grids: `NewQRCode`, `initializeGrids`,
    the pattern drawers, `encodeData`, `addData`, `applyMask`, `calculatePenalty`,
    `findBestMask`, `addFormatInfo` and `Generate`. Both grids are indexed `[y, x]`, row first,
    as the Go slices are. */
module QrCode {
  import opened QrWrappers
  import opened QrBits
  import opened QrTables
  import opened QrSizer
  import opened QrStream
  import opened QrMask
  import opened QrPenalty
  import opened QrZigzag
  import opened QrPatterns

  /** The errors of `NewQRCode` (an empty URL, a URL too long for every version) and of
      `Generate` (grids never allocated, grids whose row count is not `Size`). */
  datatype QrError = InvalidUrl | TooLong(length: int) | NotInitialized | SizeMismatch(expected: int, modulesRows: int, functionRows: int)

  /** `isValidURL`: the live part of the check. Everything after its `return true` is
      unreachable, so every non-empty string passes. */
  function IsValidUrl(url: seq<Byte>): (r: bool)
    ensures r <==> |url| > 0
  {
    |url| != 0
  }

  /** The modules the four pattern drawers mark as function modules in a symbol of side `s`:
      the finder blocks, their separators, the timing lines and the alignment blocks. */
  predicate FunctionArea(s: int, version: int, x: int, y: int)
  {
    || Cover(FinderOrigins(s), 7, x, y).Some?
    || InSeparators(s, 3, x, y)
    || InTiming(s, x, y)
    || Cover(AlignmentOrigins(s, version), 5, x, y).Some?
  }

  /** `f` marks the pattern area of a symbol of side `s` on top of what `before` marks. */
  ghost predicate MarksPatterns(s: int, version: int, f: seq<seq<bool>>, before: seq<seq<bool>>)
  {
    && Square(f, s) && Square(before, s)
    && forall y, x :: 0 <= y < s && 0 <= x < s ==> f[y][x] == (FunctionArea(s, version, x, y) || before[y][x])
  }

  /** Every module of `placed` that `f` leaves free, off column 6, holds the bit of `bits` at
      that module's index among the free modules in `addData`'s order, or light past the end of
      `bits`. */
  ghost predicate HoldsStream(s: int, f: seq<seq<bool>>, placed: seq<seq<bool>>, bits: seq<bool>)
  {
    && SymbolSide(s) && Square(f, s) && Square(placed, s)
    && forall y, x :: 0 <= y < s && 0 <= x < s && x != 6 && !f[y][x] ==>
         var k := FreeBefore(s, f, StepOf(s, x, y));
         placed[y][x] == (k < |bits| && bits[k])
  }

  /** `g` is `before` with the dark module set and the 15-bit format word `word` written at the
      format positions. */
  ghost predicate HoldsFormat(s: int, word: int, g: seq<seq<bool>>, before: seq<seq<bool>>)
  {
    && Square(g, s) && Square(before, s)
    && forall y, x :: 0 <= y < s && 0 <= x < s ==>
         g[y][x] ==
           if (x, y) == DarkModule(s) then true
           else if FormatBitAt(s, x, y) >= 0 then Bit(word, FormatBitAt(s, x, y))
           else before[y][x]
  }

  /** `f` marks the dark module and the format positions on top of what `before` marks. */
  ghost predicate MarksFormat(s: int, f: seq<seq<bool>>, before: seq<seq<bool>>)
  {
    && Square(f, s) && Square(before, s)
    && forall y, x :: 0 <= y < s && 0 <= x < s ==>
         f[y][x] == ((x, y) == DarkModule(s) || FormatBitAt(s, x, y) >= 0 || before[y][x])
  }

  /** The value the four drawers leave in a module of the pattern area: the last drawer that
      writes a module wins, so an alignment pattern beats a timing line, a timing line beats a
      separator and a separator beats a finder pattern. */
  function PatternValue(s: int, version: int, x: int, y: int): bool
  {
    var a := Cover(AlignmentOrigins(s, version), 5, x, y);
    if a.Some? then AlignmentValue(a.value, x, y)
    else if InTiming(s, x, y) then TimingValue(x, y)
    else if InSeparators(s, 3, x, y) then false
    else var c := Cover(FinderOrigins(s), 7, x, y); c.Some? && FinderValue(c.value, x, y)
  }

  /** The drawers never spoil each other's work: in a symbol of a supported version every
      finder module shows its template, every separator module is light, every timing module
      alternates and every alignment module shows its template, whichever drawer came last. */
  lemma PatternValueParts(s: int, version: int, x: int, y: int)
    requires 1 <= version <= MAX_VERSION && s == 21 + 4 * (version - 1)
    ensures var c := Cover(FinderOrigins(s), 7, x, y);
      c.Some? ==> PatternValue(s, version, x, y) == FinderValue(c.value, x, y)
    ensures InSeparators(s, 3, x, y) ==> !PatternValue(s, version, x, y)
    ensures InTiming(s, x, y) ==> PatternValue(s, version, x, y) == TimingValue(x, y)
    ensures var a := Cover(AlignmentOrigins(s, version), 5, x, y);
      a.Some? ==> PatternValue(s, version, x, y) == AlignmentValue(a.value, x, y)
  {
    AlignmentAvoidsFinders(s, version, x, y);
    if InTiming(s, x, y) {
      TimingAvoidsFinders(s, x, y);
      if Cover(AlignmentOrigins(s, version), 5, x, y).Some? {
        AlignmentAgreesWithTiming(s, version, x, y);
      }
    }
    if InSeparators(s, 3, x, y) {
      SeparatorsAvoidFinders(s, x, y);
    }
  }

  /** `g` holds the pattern values in the pattern area and what `before` holds elsewhere. */
  ghost predicate DrawsPatterns(s: int, version: int, g: seq<seq<bool>>, before: seq<seq<bool>>)
  {
    && Square(g, s) && Square(before, s)
    && forall y, x :: 0 <= y < s && 0 <= x < s ==>
         g[y][x] == if FunctionArea(s, version, x, y) then PatternValue(s, version, x, y) else before[y][x]
  }

  /** `placed` differs from `before` only in modules that `f` leaves free, off column 6. */
  ghost predicate KeepsOthers(s: int, f: seq<seq<bool>>, placed: seq<seq<bool>>, before: seq<seq<bool>>)
  {
    && Square(f, s) && Square(placed, s) && Square(before, s)
    && forall y, x :: 0 <= y < s && 0 <= x < s && (x == 6 || f[y][x]) ==> placed[y][x] == before[y][x]
  }

  /** Every module of the pattern area of `g`, other than the format positions and the dark
      module, holds its pattern value. */
  ghost predicate ShowsPatterns(s: int, version: int, g: seq<seq<bool>>)
  {
    && Square(g, s)
    && forall y, x :: 0 <= y < s && 0 <= x < s && FunctionArea(s, version, x, y) && (x, y) != DarkModule(s) && FormatBitAt(s, x, y) < 0 ==>
         g[y][x] == PatternValue(s, version, x, y)
  }

  /** The patterns survive the later steps: the pattern area is marked as function modules, so
      `addData` and `applyMask` leave it alone, and `addFormatInfo` writes only the format
      positions and the dark module. */
  lemma PatternsSurvive(s: int, version: int, f: seq<seq<bool>>, before: seq<seq<bool>>, drawn: seq<seq<bool>>,
                        g0: seq<seq<bool>>, placed: seq<seq<bool>>, mask: int, word: int, g: seq<seq<bool>>)
    requires MarksPatterns(s, version, f, before) && DrawsPatterns(s, version, drawn, g0)
    requires KeepsOthers(s, f, placed, drawn)
    requires HoldsFormat(s, word, g, Masked(placed, f, mask))
    ensures ShowsPatterns(s, version, g)
  {
    forall y, x | 0 <= y < s && 0 <= x < s && FunctionArea(s, version, x, y) && (x, y) != DarkModule(s) && FormatBitAt(s, x, y) < 0
      ensures g[y][x] == PatternValue(s, version, x, y)
    {
      MaskedChanges(placed, f, mask, x, y);
    }
  }

  /** Every side `21 + 4 * (version - 1)` is one `addData` walks. */
  lemma SideOfVersion(version: int)
    requires 1 <= version
    ensures SymbolSide(21 + 4 * (version - 1))
  {
    var h := 2 * version + 8;
    assert 21 + 4 * (version - 1) == 2 * h + 1;
    OddIsOdd(h);
  }

  lemma OddIsOdd(h: int)
    ensures (2 * h + 1) % 2 == 1
  {
  }

  /** `math.MaxInt32`, the starting value of the mask search. */
  const MAX_INT32 := 0x7FFF_FFFF

  /** Two square grids that agree module by module are the same grid. */
  lemma SameGrids(a: seq<seq<bool>>, b: seq<seq<bool>>, n: int)
    requires Square(a, n) && Square(b, n)
    requires forall y, x :: 0 <= y < n && 0 <= x < n ==> a[y][x] == b[y][x]
    ensures a == b
  {
    forall y | 0 <= y < n
      ensures a[y] == b[y]
    {
    }
  }

  /** The penalty the grid `g` would score under mask `m`, with `f` marking function modules. */
  ghost function MaskPenalty(g: seq<seq<bool>>, f: seq<seq<bool>>, m: int): int
    requires |f| == |g| && forall y :: 0 <= y < |g| ==> |f[y]| == |g[y]|
  {
    GridPenalty(Masked(g, f, m))
  }

  /** `best` is the mask `findBestMask` settles on: no mask scores lower, and every mask before it
      scores strictly higher, because a later mask replaces the best only when it is strictly
      better. */
  ghost predicate BestMask(g: seq<seq<bool>>, f: seq<seq<bool>>, best: int)
    requires |f| == |g| && forall y :: 0 <= y < |g| ==> |f[y]| == |g[y]|
  {
    && 0 <= best < 8
    && (forall m :: 0 <= m < 8 ==> MaskPenalty(g, f, best) <= MaskPenalty(g, f, m))
    && (forall m :: 0 <= m < best ==> MaskPenalty(g, f, best) < MaskPenalty(g, f, m))
  }

  /** The choice is determined by the grid: at most one mask is the best one. */
  lemma BestMaskUnique(g: seq<seq<bool>>, f: seq<seq<bool>>, a: int, b: int)
    requires |f| == |g| && forall y :: 0 <= y < |g| ==> |f[y]| == |g[y]|
    requires BestMask(g, f, a) && BestMask(g, f, b)
    ensures a == b
  {
    var pa, pb := MaskPenalty(g, f, a), MaskPenalty(g, f, b);
    assert pa <= pb && pb <= pa;
    assert a < b ==> pb < pa;
    assert b < a ==> pa < pb;
  }

  /** Keeping the lower of the best penalty so far and the next one keeps it a lower bound. */
  lemma LowestStep(scores: seq<int>, m: int, low: int, penalty: int)
    requires 0 <= m < |scores| && penalty == scores[m]
    requires forall k :: 0 <= k < m ==> low <= scores[k]
    ensures forall k :: 0 <= k < m + 1 ==> (if penalty < low then penalty else low) <= scores[k]
  {
  }

  /** After the header and payload, `z` zero bits end on a byte boundary exactly when `z` is 4. */
  lemma ByteBoundary(n: nat, z: nat)
    requires z <= 4
    ensures (8 * (n + 1) + 4 + z) % 8 == 0 <==> z == 4
  {
    if z == 4 {
      assert 8 * (n + 1) + 4 + z == 8 * (n + 2);
    } else {
      assert (8 * (n + 1) + (4 + z)) % 8 == 4 + z;
    }
  }

  /** `min(4, maxBits - len(bits))` after the header and payload: the bits left are 4 more than a
      multiple of 8, so the terminator is either whole or not written at all. */
  lemma TerminatorLength(capacity: int, n: nat)
    ensures var t := Min(4, 8 * capacity - (8 * (n + 1) + 4)); t == 4 || t <= 0
    ensures Min(4, 8 * capacity - (8 * (n + 1) + 4)) == 4 <==> capacity >= n + 2
  {
  }

  /** `NewQRCode`: an empty URL is refused; a URL whose length plus the 3-byte overhead exceeds
      the largest capacity (271 bytes) is refused as too long; otherwise the code gets the
      smallest version and strongest level that hold it, mask 0, the URL as its data, and two
      fresh all-light grids with no function modules. */
  method NewQRCode(url: seq<Byte>) returns (r: Result<QRCode, QrError>)
    ensures |url| == 0 ==> r == Failure(InvalidUrl)
    ensures |url| != 0 && |url| + OVERHEAD > MAX_CAPACITY ==> r == Failure(TooLong(|url|))
    ensures r.Success? <==> |url| != 0 && |url| + OVERHEAD <= MAX_CAPACITY
    ensures r.Success? ==>
      var qr := r.value;
      && fresh(qr) && fresh(qr.modules) && fresh(qr.isFunction) && qr.Valid()
      && (qr.version, qr.errorLevel) == SmallestFit(|url|)
      && Capacity(qr.version, qr.errorLevel) >= |url| + OVERHEAD
      && qr.mask == 0 && qr.data == url
      && forall y, x :: 0 <= y < qr.size && 0 <= x < qr.size ==> !qr.modules[y, x] && !qr.isFunction[y, x]
  {
    if !IsValidUrl(url) {
      return Failure(InvalidUrl);
    }
    var data := url;
    var version, errorLevel := DetermineVersionAndErrorLevel(|data|);
    if version == -1 {
      return Failure(TooLong(|data|));
    }
    var size := 21 + (version - 1) * 4;
    var qr := new QRCode(version, size, errorLevel, data);
    qr.InitializeGrids();
    return Success(qr);
  }

  class QRCode {
    var version: int
    var size: int
    var errorLevel: ErrorLevel
    var mask: int
    var modules: array2?<bool>
    var isFunction: array2?<bool>
    var data: seq<Byte>

    /** What `Generate` checks before it starts, and what the rest of the pipeline relies on:
        the version is in the table, the side matches it, and both grids exist, are distinct
        and are `size` by `size`. */
    ghost predicate Valid()
      reads this
    {
      && 1 <= version <= MAX_VERSION && size == 21 + 4 * (version - 1)
      && modules != null && isFunction != null && modules != isFunction
      && modules.Length0 == size && modules.Length1 == size
      && isFunction.Length0 == size && isFunction.Length1 == size
    }

    /** The struct literal of `NewQRCode`: the grids are still `nil`. */
    constructor (version: int, size: int, errorLevel: ErrorLevel, data: seq<Byte>)
      ensures this.version == version && this.size == size && this.errorLevel == errorLevel
      ensures this.data == data && mask == 0 && modules == null && isFunction == null
    {
      this.version := version;
      this.size := size;
      this.errorLevel := errorLevel;
      this.mask := 0;
      this.data := data;
      this.modules := null;
      this.isFunction := null;
    }

    /** What the rest of the code keeps true of a `QRCode` whether or not its grids exist: the
        version is in the table and the side matches it, and grids that exist are square and
        distinct. */
    ghost predicate Sized()
      reads this
    {
      && 1 <= version <= MAX_VERSION && size == 21 + 4 * (version - 1)
      && (modules != null && isFunction != null ==>
            modules != isFunction && modules.Length1 == modules.Length0 && isFunction.Length1 == isFunction.Length0)
    }

    /** `initializeGrids`: two fresh `size` by `size` grids, all light and none marked. */
    method InitializeGrids()
      requires size >= 0
      modifies this
      ensures version == old(version) && size == old(size) && errorLevel == old(errorLevel)
      ensures mask == old(mask) && data == old(data)
      ensures modules != null && isFunction != null && fresh(modules) && fresh(isFunction) && modules != isFunction
      ensures modules.Length0 == size && modules.Length1 == size
      ensures isFunction.Length0 == size && isFunction.Length1 == size
      ensures forall y, x :: 0 <= y < size && 0 <= x < size ==> !modules[y, x] && !isFunction[y, x]
    {
      modules := new bool[size, size]((_, _) => false);
      isFunction := new bool[size, size]((_, _) => false);
    }

    /** `inBounds`: the module `(x, y)` lies in the symbol. */
    function InBounds(x: int, y: int): (r: bool)
      reads this
      ensures r <==> 0 <= x < size && 0 <= y < size
    {
      x >= 0 && x < size && y >= 0 && y < size
    }

    /** `getDataCapacity`: the table entry for the version and level, 0 for a version outside
        the table. */
    function GetDataCapacity(): (capacity: int)
      reads this
      ensures 1 <= version <= MAX_VERSION ==> capacity == Capacity(version, errorLevel)
      ensures !(1 <= version <= MAX_VERSION) ==> capacity == 0
    {
      if version > |VERSION_CAPACITY| || version < 1 then 0 else VERSION_CAPACITY[version - 1][LevelIndex(errorLevel)]
    }

    /** `calculatePenalty`: the row-run penalty of the grid as it stands. */
    method CalculatePenalty() returns (penalty: int)
      requires Valid()
      ensures penalty == GridPenalty(Grid(modules))
    {
      var grid: array2<bool>, n := modules, size;
      ghost var g := Grid(grid);
      penalty := 0;
      for y := 0 to n
        invariant penalty == RowsPenalty(g, y)
      {
        ghost var row, done := g[y], penalty;
        var count := 1;
        ghost var closed: seq<nat> := [];
        for x := 1 to n
          invariant Scan(row, x) == (closed, count)
          invariant penalty == done + SumScores(closed)
        {
          ScanNext(row, x);
          if grid[y, x] == grid[y, x - 1] {
            count := count + 1;
          } else {
            if count >= 5 {
              penalty := penalty + 3 + (count - 5);
            }
            SumScoresSnoc(closed, count);
            closed := closed + [count];
            count := 1;
          }
        }
        if count >= 5 {
          penalty := penalty + 3 + (count - 5);
        }
        RowsPenaltyNext(g, y, done, penalty);
      }
    }

    /** `applyMask`: flips every non-function module the pattern selects; the function modules,
        and the other modules, keep their values. */
    method ApplyMask(m: int)
      requires Valid()
      modifies modules
      ensures Grid(modules) == Masked(old(Grid(modules)), Grid(isFunction), m)
    {
      ghost var g := Grid(modules);
      for y := 0 to size
        invariant forall j, i :: 0 <= j < size && 0 <= i < size ==>
          modules[j, i] == if j < y then (g[j][i] != (!isFunction[j, i] && ShouldMask(i, j, m))) else g[j][i]
      {
        for x := 0 to size
          invariant forall j, i :: 0 <= j < size && 0 <= i < size ==>
            modules[j, i] == if j < y || (j == y && i < x) then (g[j][i] != (!isFunction[j, i] && ShouldMask(i, j, m))) else g[j][i]
        {
          if !isFunction[y, x] && ShouldMask(x, y, m) {
            modules[y, x] := !modules[y, x];
          }
        }
      }
      SameGrids(Grid(modules), Masked(g, Grid(isFunction), m), size);
    }

    /** One round of `findBestMask`'s loop: mask, score, unmask. */
    method TryMask(m: int) returns (penalty: int)
      requires Valid()
      modifies modules
      ensures Grid(modules) == old(Grid(modules))
      ensures penalty == MaskPenalty(old(Grid(modules)), Grid(isFunction), m) < MAX_INT32
    {
      ghost var g, f := Grid(modules), Grid(isFunction);
      ApplyMask(m);
      penalty := CalculatePenalty();
      GridPenaltyBound(Masked(g, f, m));
      ApplyMask(m);
      MaskedTwice(g, f, m);
    }

    /** `findBestMask`: tries the eight masks in turn, undoing each one, and keeps the first
        with the lowest penalty; the grid is left as it was. */
    method FindBestMask() returns (best: int)
      requires Valid()
      modifies modules
      ensures Grid(modules) == old(Grid(modules))
      ensures BestMask(old(Grid(modules)), Grid(isFunction), best)
    {
      ghost var g, f := Grid(modules), Grid(isFunction);
      ghost var scores := seq(8, k => MaskPenalty(g, f, k));
      best := 0;
      var bestPenalty := MAX_INT32;
      for m := 0 to 8
        invariant Valid() && Grid(modules) == g && Grid(isFunction) == f
        invariant 0 <= best < 8 && (m == 0 || best < m)
        invariant bestPenalty == if m == 0 then MAX_INT32 else scores[best]
        invariant forall k :: 0 <= k < m ==> bestPenalty <= scores[k]
        invariant forall k :: 0 <= k < best ==> bestPenalty < scores[k]
      {
        var penalty := TryMask(m);
        LowestStep(scores, m, bestPenalty, penalty);
        if penalty < bestPenalty {
          bestPenalty := penalty;
          best := m;
        }
      }
      assert forall k :: 0 <= k < 8 ==> scores[k] == MaskPenalty(g, f, k);
    }

    /** `encodeData`: builds the bit stream of `Data` for the symbol's capacity and packs it into
        bytes, most significant bit first. It never fails. */
    method EncodeData() returns (bytes: seq<Byte>)
      ensures 8 * |bytes| == |EncodedBits(data, GetDataCapacity())|
      ensures forall p :: 0 <= p < 8 * |bytes| ==> StreamBit(bytes, p) == EncodedBits(data, GetDataCapacity())[p]
    {
      var bits := EncodeBits();
      EncodedWhole(data, GetDataCapacity());
      bytes := PackBits(bits);
    }

    /** The stream-building part of `encodeData`: header, payload, terminator, alignment to a
        byte boundary and pad bytes. */
    method EncodeBits() returns (bits: seq<bool>)
      ensures bits == EncodedBits(data, GetDataCapacity())
    {
      var capacity := GetDataCapacity();
      bits := HeaderBits(data);
      bits := Terminate(bits, capacity, |data|);
      bits := PadToCapacity(bits, capacity, |data|);
    }

    /** Mode indicator, the 8-bit count and the payload bytes. */
    static method HeaderBits(data: seq<Byte>) returns (bits: seq<bool>)
      ensures bits == MODE_BYTE + ByteBits(|data|) + PayloadBits(data)
    {
      bits := MODE_BYTE;
      var lengthBits := IntToBitsLoop(|data|, 8);
      bits := bits + lengthBits;
      ghost var header := bits;
      for i := 0 to |data|
        invariant bits == header + PayloadUpTo(data, i)
      {
        var byteBits := IntToBitsLoop(data[i], 8);
        AppendAssoc(header, PayloadUpTo(data, i), byteBits);
        bits := bits + byteBits;
      }
    }

    /** The terminator, `min(4, maxBits - len(bits))` zero bits, then zero bits up to a byte
        boundary: four zero bits in all, whether or not the terminator was written. */
    static method Terminate(head: seq<bool>, capacity: int, n: nat) returns (bits: seq<bool>)
      requires |head| == 8 * (n + 1) + 4
      ensures bits == head + Zeros(4)
    {
      bits := head;
      var maxBits := capacity * 8;
      var terminatorLength := Min(4, maxBits - |bits|);
      TerminatorLength(capacity, n);
      ghost var zeros := 0;
      var i := 0;
      while i < terminatorLength
        invariant bits == head + Zeros(zeros) && zeros == i <= 4
        invariant i == 0 || i <= terminatorLength
      {
        assert Zeros(zeros) + [false] == Zeros(zeros + 1);
        bits := bits + [false];
        zeros := zeros + 1;
        i := i + 1;
      }
      while |bits| % 8 != 0
        invariant bits == head + Zeros(zeros) && zeros <= 4
        decreases 4 - zeros
      {
        ByteBoundary(n, zeros);
        assert Zeros(zeros) + [false] == Zeros(zeros + 1);
        bits := bits + [false];
        zeros := zeros + 1;
      }
      ByteBoundary(n, zeros);
    }

    /** Pad bytes 0xEC and 0x11 in turn until the stream reaches `capacity` bytes. */
    static method PadToCapacity(head: seq<bool>, capacity: int, n: nat) returns (bits: seq<bool>)
      requires |head| == 8 * (n + 2)
      ensures bits == head + PadBits(PadCount(n, capacity))
    {
      bits := head;
      var maxBits := capacity * 8;
      var padIndex := 0;
      PadsMissing(n, capacity, padIndex);
      while |bits| < maxBits
        invariant bits == head + PadBits(padIndex) && padIndex <= PadCount(n, capacity)
        invariant |bits| == 8 * (n + 2 + padIndex)
        invariant |bits| < maxBits <==> padIndex < PadCount(n, capacity)
        decreases PadCount(n, capacity) - padIndex
      {
        var padByte := PAD_BYTES[padIndex % 2];
        var padBits := IntToBitsLoop(padByte, 8);
        PadStep(head, padIndex);
        bits := bits + padBits;
        padIndex := padIndex + 1;
        PadsMissing(n, capacity, padIndex);
      }
    }

    /** The packing part of `encodeData`: bit `8 * i + j` of the stream sets bit `7 - j` of byte
        `i` of a zeroed slice. */
    static method PackBits(bits: seq<bool>) returns (bytes: seq<Byte>)
      requires |bits| % 8 == 0
      ensures 8 * |bytes| == |bits|
      ensures forall p :: 0 <= p < |bits| ==> StreamBit(bytes, p) == bits[p]
    {
      var out := new Byte[|bits| / 8](_ => 0);
      for i := 0 to out.Length
        invariant forall k :: i <= k < out.Length ==> out[k] == 0
        invariant forall p :: 0 <= p < 8 * i ==> Bit(out[p / 8], 7 - p % 8) == bits[p]
      {
        forall k: nat
          ensures !Bit(0, k)
        {
          ZeroHasNoBits(k);
        }
        for j := 0 to 8
          invariant forall k :: i < k < out.Length ==> out[k] == 0
          invariant forall p :: 0 <= p < 8 * i ==> Bit(out[p / 8], 7 - p % 8) == bits[p]
          invariant forall k: nat :: k < 8 ==> Bit(out[i], k) == (7 - k < j && bits[8 * i + 7 - k])
        {
          if bits[i * 8 + j] {
            out[i] := OrBit(out[i], 7 - j);
          }
        }
      }
      bytes := out[..];
    }

    /** `addFinderPatterns`: the three 7x7 finder patterns; every module of a pattern that lies in
        the symbol takes the template's value and becomes a function module. */
    method AddFinderPatterns()
      requires Valid()
      modifies modules, isFunction
      ensures forall j, i :: 0 <= j < size && 0 <= i < size ==>
        modules[j, i] == (var c := Cover(FinderOrigins(size), 7, i, j); if c.Some? then FinderValue(c.value, i, j) else old(modules[j, i]))
      ensures forall j, i :: 0 <= j < size && 0 <= i < size ==>
        isFunction[j, i] == (Cover(FinderOrigins(size), 7, i, j).Some? || old(isFunction[j, i]))
    {
      var positions := [(0, 0), (size - 7, 0), (0, size - 7)];
      for k := 0 to |positions|
        invariant forall j, i :: 0 <= j < size && 0 <= i < size ==>
          modules[j, i] == (var c := CoverUpTo(positions, k, 7, i, j); if c.Some? then FinderValue(c.value, i, j) else old(modules[j, i]))
        invariant forall j, i :: 0 <= j < size && 0 <= i < size ==>
          isFunction[j, i] == (CoverUpTo(positions, k, 7, i, j).Some? || old(isFunction[j, i]))
      {
        DrawFinder(positions[k]);
      }
    }

    /** One round of `addFinderPatterns`' loop: the 7x7 block at `pos`, row by row. */
    method DrawFinder(pos: Origin)
      requires Valid()
      modifies modules, isFunction
      ensures forall j, i :: 0 <= j < size && 0 <= i < size ==>
        modules[j, i] == if InWindow(pos, 7, i, j) then FinderValue(pos, i, j) else old(modules[j, i])
      ensures forall j, i :: 0 <= j < size && 0 <= i < size ==>
        isFunction[j, i] == (InWindow(pos, 7, i, j) || old(isFunction[j, i]))
    {
      FinderPatternShape();
      for dy := 0 to 7
        invariant forall j, i :: 0 <= j < size && 0 <= i < size ==>
          modules[j, i] == if InPartial(pos, 7, dy, 0, i, j) then FinderValue(pos, i, j) else old(modules[j, i])
        invariant forall j, i :: 0 <= j < size && 0 <= i < size ==>
          isFunction[j, i] == (InPartial(pos, 7, dy, 0, i, j) || old(isFunction[j, i]))
      {
        for dx := 0 to 7
          invariant forall j, i :: 0 <= j < size && 0 <= i < size ==>
            modules[j, i] == if InPartial(pos, 7, dy, dx, i, j) then FinderValue(pos, i, j) else old(modules[j, i])
          invariant forall j, i :: 0 <= j < size && 0 <= i < size ==>
            isFunction[j, i] == (InPartial(pos, 7, dy, dx, i, j) || old(isFunction[j, i]))
        {
          var x, y := pos.0 + dx, pos.1 + dy;
          if InBounds(x, y) {
            SetModule(x, y, FINDER_PATTERN[dy][dx]);
            SetFunction(x, y, true);
          }
        }
      }
    }

    /** `addSeparators`: the one-module ring around each finder pattern, clipped to the symbol,
        becomes light function modules. */
    method AddSeparators()
      requires Valid()
      modifies modules, isFunction
      ensures forall j, i :: 0 <= j < size && 0 <= i < size ==>
        modules[j, i] == (!InSeparators(size, 3, i, j) && old(modules[j, i]))
      ensures forall j, i :: 0 <= j < size && 0 <= i < size ==>
        isFunction[j, i] == (InSeparators(size, 3, i, j) || old(isFunction[j, i]))
    {
      var positions := [(0, 0), (size - 7, 0), (0, size - 7)];
      for k := 0 to |positions|
        invariant forall j, i :: 0 <= j < size && 0 <= i < size ==>
          modules[j, i] == (!InSeparators(size, k, i, j) && old(modules[j, i]))
        invariant forall j, i :: 0 <= j < size && 0 <= i < size ==>
          isFunction[j, i] == (InSeparators(size, k, i, j) || old(isFunction[j, i]))
      {
        DrawSeparator(positions[k]);
      }
    }

    /** One round of `addSeparators`' loop: the ring `dx, dy in -1..7` around `pos`. */
    method DrawSeparator(pos: Origin)
      requires Valid()
      modifies modules, isFunction
      ensures forall j, i :: 0 <= j < size && 0 <= i < size ==>
        modules[j, i] == (!InRing(pos, i, j) && old(modules[j, i]))
      ensures forall j, i :: 0 <= j < size && 0 <= i < size ==>
        isFunction[j, i] == (InRing(pos, i, j) || old(isFunction[j, i]))
    {
      for dy := -1 to 8
        invariant forall j, i :: 0 <= j < size && 0 <= i < size ==>
          modules[j, i] == (!InRingPartial(pos, dy + 1, 0, i, j) && old(modules[j, i]))
        invariant forall j, i :: 0 <= j < size && 0 <= i < size ==>
          isFunction[j, i] == (InRingPartial(pos, dy + 1, 0, i, j) || old(isFunction[j, i]))
      {
        for dx := -1 to 8
          invariant forall j, i :: 0 <= j < size && 0 <= i < size ==>
            modules[j, i] == (!InRingPartial(pos, dy + 1, dx + 1, i, j) && old(modules[j, i]))
          invariant forall j, i :: 0 <= j < size && 0 <= i < size ==>
            isFunction[j, i] == (InRingPartial(pos, dy + 1, dx + 1, i, j) || old(isFunction[j, i]))
        {
          var x, y := pos.0 + dx, pos.1 + dy;
          if InBounds(x, y) && (dx == -1 || dx == 7 || dy == -1 || dy == 7) {
            SetModule(x, y, false);
            SetFunction(x, y, true);
          }
        }
      }
    }

    /** `addTimingPatterns`: row 6 and column 6 between the separators alternate dark and light,
        dark on even coordinates, and become function modules. */
    method AddTimingPatterns()
      requires Valid()
      modifies modules, isFunction
      ensures forall j, i :: 0 <= j < size && 0 <= i < size ==>
        modules[j, i] == if InTiming(size, i, j) then TimingValue(i, j) else old(modules[j, i])
      ensures forall j, i :: 0 <= j < size && 0 <= i < size ==>
        isFunction[j, i] == (InTiming(size, i, j) || old(isFunction[j, i]))
    {
      for t := 8 to size - 8
        invariant forall j, i :: 0 <= j < size && 0 <= i < size ==>
          modules[j, i] == if InTiming(t + 8, i, j) then TimingValue(i, j) else old(modules[j, i])
        invariant forall j, i :: 0 <= j < size && 0 <= i < size ==>
          isFunction[j, i] == (InTiming(t + 8, i, j) || old(isFunction[j, i]))
      {
        SetModule(t, 6, t % 2 == 0);
        SetModule(6, t, t % 2 == 0);
        SetFunction(t, 6, true);
        SetFunction(6, t, true);
      }
    }

    /** `addAlignmentPatterns`: for versions above 1, a 5x5 alignment pattern around every pair
        of table centres that the skip test lets through, drawn row of centres by row; a later
        pattern is drawn over an earlier one. */
    method AddAlignmentPatterns()
      requires Valid()
      modifies modules, isFunction
      ensures forall j, i :: 0 <= j < size && 0 <= i < size ==>
        modules[j, i] == (var c := Cover(AlignmentOrigins(size, version), 5, i, j); if c.Some? then AlignmentValue(c.value, i, j) else old(modules[j, i]))
      ensures forall j, i :: 0 <= j < size && 0 <= i < size ==>
        isFunction[j, i] == (Cover(AlignmentOrigins(size, version), 5, i, j).Some? || old(isFunction[j, i]))
    {
      if version == 1 {
        return;
      }
      var positions := AlignmentPositions(version);
      ghost var g0, f0 := Grid(modules), Grid(isFunction);
      ghost var drawn: seq<Origin> := [];
      for a := 0 to |positions|
        invariant drawn == AlignmentRows(size, positions, a)
        invariant AlignmentsDrawn(drawn, g0, f0)
      {
        var centerY := positions[a];
        drawn := DrawAlignmentRow(positions, centerY, drawn, g0, f0);
      }
    }

    /** One iteration of `addAlignmentPatterns`' outer loop: the centres `(cx, cy)` for every
        `cx` in `positions`, skipping the three corners the finder patterns occupy. */
    method DrawAlignmentRow(positions: seq<int>, centerY: int, ghost drawn: seq<Origin>, ghost g0: seq<seq<bool>>, ghost f0: seq<seq<bool>>)
      returns (ghost drawn': seq<Origin>)
      requires Valid() && AlignmentsDrawn(drawn, g0, f0)
      modifies modules, isFunction
      ensures drawn' == drawn + AlignmentRow(size, positions, centerY, |positions|) && AlignmentsDrawn(drawn', g0, f0)
    {
      drawn' := drawn;
      for b := 0 to |positions|
        invariant drawn' == drawn + AlignmentRow(size, positions, centerY, b)
        invariant AlignmentsDrawn(drawn', g0, f0)
      {
        var centerX := positions[b];
        ghost var row := AlignmentRow(size, positions, centerY, b);
        if SkipAlignment(size, centerX, centerY) {
          assert AlignmentRow(size, positions, centerY, b + 1) == row;
          continue;
        }
        assert AlignmentRow(size, positions, centerY, b + 1) == row + [(centerX - 2, centerY - 2)];
        drawn' := DrawNext(centerX, centerY, drawn', g0, f0);
        assert drawn' == drawn + (row + [(centerX - 2, centerY - 2)]);
      }
    }

    /** The grids once the alignment blocks with top-left corners `drawn` are drawn over `g0`
        and `f0`, later blocks over earlier ones. */
    ghost predicate AlignmentsDrawn(drawn: seq<Origin>, g0: seq<seq<bool>>, f0: seq<seq<bool>>)
      reads this, modules, isFunction
    {
      && Square(g0, size) && Square(f0, size)
      && modules != null && modules.Length0 == size && modules.Length1 == size
      && isFunction != null && isFunction.Length0 == size && isFunction.Length1 == size
      && (forall j, i :: 0 <= j < size && 0 <= i < size ==>
            modules[j, i] == (var c := Cover(drawn, 5, i, j); if c.Some? then AlignmentValue(c.value, i, j) else g0[j][i]))
      && (forall j, i :: 0 <= j < size && 0 <= i < size ==>
            isFunction[j, i] == (Cover(drawn, 5, i, j).Some? || f0[j][i]))
    }

    /** One iteration of `addAlignmentPatterns`' inner loop that is not skipped. */
    method DrawNext(cx: int, cy: int, ghost drawn: seq<Origin>, ghost g0: seq<seq<bool>>, ghost f0: seq<seq<bool>>)
      returns (ghost drawn': seq<Origin>)
      requires Valid() && AlignmentsDrawn(drawn, g0, f0)
      modifies modules, isFunction
      ensures drawn' == drawn + [(cx - 2, cy - 2)] && AlignmentsDrawn(drawn', g0, f0)
    {
      DrawAlignment(cx, cy);
      CoverSnoc(drawn, (cx - 2, cy - 2), 5);
      drawn' := drawn + [(cx - 2, cy - 2)];
    }

    /** One pattern of `addAlignmentPatterns`: the 5x5 block around `(cx, cy)`, dark on its
        border and at its centre. */
    method DrawAlignment(cx: int, cy: int)
      requires Valid()
      modifies modules, isFunction
      ensures forall j, i :: 0 <= j < size && 0 <= i < size ==>
        modules[j, i] == if InWindow((cx - 2, cy - 2), 5, i, j) then AlignmentValue((cx - 2, cy - 2), i, j) else old(modules[j, i])
      ensures forall j, i :: 0 <= j < size && 0 <= i < size ==>
        isFunction[j, i] == (InWindow((cx - 2, cy - 2), 5, i, j) || old(isFunction[j, i]))
    {
      ghost var o := (cx - 2, cy - 2);
      for dy := -2 to 3
        invariant forall j, i :: 0 <= j < size && 0 <= i < size ==>
          modules[j, i] == if InPartial(o, 5, dy + 2, 0, i, j) then AlignmentValue(o, i, j) else old(modules[j, i])
        invariant forall j, i :: 0 <= j < size && 0 <= i < size ==>
          isFunction[j, i] == (InPartial(o, 5, dy + 2, 0, i, j) || old(isFunction[j, i]))
      {
        for dx := -2 to 3
          invariant forall j, i :: 0 <= j < size && 0 <= i < size ==>
            modules[j, i] == if InPartial(o, 5, dy + 2, dx + 2, i, j) then AlignmentValue(o, i, j) else old(modules[j, i])
          invariant forall j, i :: 0 <= j < size && 0 <= i < size ==>
            isFunction[j, i] == (InPartial(o, 5, dy + 2, dx + 2, i, j) || old(isFunction[j, i]))
        {
          var x, y := cx + dx, cy + dy;
          if InBounds(x, y) {
            var dark := dx == -2 || dx == 2 || dy == -2 || dy == 2 || (dx == 0 && dy == 0);
            SetModule(x, y, dark);
            SetFunction(x, y, true);
          }
        }
      }
    }

    /** `addFormatInfo`: the 15 bits of the format word for the level and mask around the
        top-left finder pattern and along column 8 at the bottom, where a later write replaces an
        earlier one, then the dark module; all of them become function modules. */
    method AddFormatInfo()
      requires Valid() && 0 <= mask < 8
      modifies modules, isFunction
      ensures forall y, x :: 0 <= y < size && 0 <= x < size ==>
        modules[y, x] ==
          if (x, y) == DarkModule(size) then true
          else if FormatBitAt(size, x, y) >= 0 then Bit(FormatInfo(errorLevel, mask), FormatBitAt(size, x, y))
          else old(modules[y, x])
      ensures forall y, x :: 0 <= y < size && 0 <= x < size ==>
        isFunction[y, x] == ((x, y) == DarkModule(size) || FormatBitAt(size, x, y) >= 0 || old(isFunction[y, x]))
      ensures HoldsFormat(size, FormatInfo(errorLevel, mask), Grid(modules), old(Grid(modules)))
      ensures MarksFormat(size, Grid(isFunction), old(Grid(isFunction)))
    {
      var formatInfo := FormatInfo(errorLevel, mask);
      for i := 0 to 15
        invariant forall y, x :: 0 <= y < size && 0 <= x < size ==>
          modules[y, x] == (var w := FormatWriter(size, i, x, y); if w >= 0 then Bit(formatInfo, w) else old(modules[y, x]))
        invariant forall y, x :: 0 <= y < size && 0 <= x < size ==>
          isFunction[y, x] == (FormatWriter(size, i, x, y) >= 0 || old(isFunction[y, x]))
      {
        var bit := Bit(formatInfo, i);
        WriteFormatBit(i, bit);
      }
      forall y, x | 0 <= y < size && 0 <= x < size
        ensures FormatWriter(size, 15, x, y) == FormatBitAt(size, x, y)
      {
        FormatOverwrites(size, x, y);
      }
      SetModule(8, size - 8, true);
      SetFunction(8, size - 8, true);
    }

    /** One round of `addFormatInfo`'s loop: bit `i` goes to the one or two modules that
        iteration `i` writes. */
    method WriteFormatBit(i: int, bit: bool)
      requires Valid() && 0 <= i < 15
      modifies modules, isFunction
      ensures forall y, x :: 0 <= y < size && 0 <= x < size ==>
        modules[y, x] == if FormatWrites(size, i, x, y) then bit else old(modules[y, x])
      ensures forall y, x :: 0 <= y < size && 0 <= x < size ==>
        isFunction[y, x] == (FormatWrites(size, i, x, y) || old(isFunction[y, x]))
    {
      if i < 6 {
        SetModule(8, i, bit);
        SetModule(i, 8, bit);
        SetFunction(8, i, true);
        SetFunction(i, 8, true);
      } else if i == 6 {
        SetModule(8, 7, bit);
        SetModule(7, 8, bit);
        SetFunction(8, 7, true);
        SetFunction(7, 8, true);
      } else if i == 7 {
        SetModule(8, 8, bit);
        SetFunction(8, 8, true);
      } else if i == 8 {
        SetModule(7, 8, bit);
        SetFunction(7, 8, true);
      } else {
        SetModule(14 - i, 8, bit);
        SetModule(8, size - 15 + i, bit);
        SetFunction(14 - i, 8, true);
        SetFunction(8, size - 15 + i, true);
      }
    }

    /** `Generate`: refuses grids that were never allocated or whose row count is not `Size`;
        otherwise draws the function patterns, places the encoded stream, picks the mask with the
        lowest penalty, applies it and writes the format information. `f` is the function-module
        map once the patterns are drawn and `placed` the grid once the data is in. */
    method Generate() returns (err: Option<QrError>, ghost placed: seq<seq<bool>>, ghost f: seq<seq<bool>>)
      requires Sized()
      modifies this`mask, modules, isFunction
      ensures modules == null || isFunction == null ==> err == Some(NotInitialized)
      ensures modules != null && isFunction != null && (modules.Length0 != size || isFunction.Length0 != size) ==>
        err == Some(SizeMismatch(size, modules.Length0, isFunction.Length0))
      ensures err.Some? ==> mask == old(mask) && (modules != null ==> unchanged(modules)) && (isFunction != null ==> unchanged(isFunction))
      ensures modules != null && isFunction != null && modules.Length0 == size && isFunction.Length0 == size ==> err.None?
      ensures err.None? ==> Valid() && MarksPatterns(size, version, f, old(Grid(isFunction)))
      ensures err.None? ==> HoldsStream(size, f, placed, EncodedBits(data, GetDataCapacity()))
      ensures err.None? ==> BestMask(placed, f, mask)
      ensures err.None? ==> HoldsFormat(size, FormatInfo(errorLevel, mask), Grid(modules), Masked(placed, f, mask))
      ensures err.None? ==> MarksFormat(size, Grid(isFunction), f)
      ensures err.None? ==> ShowsPatterns(size, version, Grid(modules))
    {
      if modules == null || isFunction == null {
        return Some(NotInitialized), [], [];
      }
      if modules.Length0 != size || isFunction.Length0 != size {
        return Some(SizeMismatch(size, modules.Length0, isFunction.Length0)), [], [];
      }
      placed, f := Build();
      err := None;
    }

    /** The steps of `Generate` once the grids are known to be sized: the four drawing steps in
        order, and what the finished symbol then holds. */
    method Build() returns (ghost placed: seq<seq<bool>>, ghost f: seq<seq<bool>>)
      requires Valid()
      modifies this`mask, modules, isFunction
      ensures Valid() && MarksPatterns(size, version, f, old(Grid(isFunction)))
      ensures HoldsStream(size, f, placed, EncodedBits(data, GetDataCapacity()))
      ensures BestMask(placed, f, mask)
      ensures HoldsFormat(size, FormatInfo(errorLevel, mask), Grid(modules), Masked(placed, f, mask))
      ensures MarksFormat(size, Grid(isFunction), f)
      ensures ShowsPatterns(size, version, Grid(modules))
    {
      ghost var f0, g0 := Grid(isFunction), Grid(modules);
      f := DrawFunctionPatterns();
      ghost var drawn := Grid(modules);
      placed := PlaceData(f);
      MaskAndFormat(placed, f);
      PatternsSurvive(size, version, f, f0, drawn, g0, placed, mask, FormatInfo(errorLevel, mask), Grid(modules));
    }

    /** Step 1 of `Generate`: the four pattern drawers in order. Each only adds to the
        function-module map, so `f` is the old map joined with the pattern area. */
    method DrawFunctionPatterns() returns (ghost f: seq<seq<bool>>)
      requires Valid()
      modifies modules, isFunction
      ensures f == Grid(isFunction) && MarksPatterns(size, version, f, old(Grid(isFunction)))
      ensures DrawsPatterns(size, version, Grid(modules), old(Grid(modules)))
    {
      ghost var f0, g0 := Grid(isFunction), Grid(modules);
      AddFinderPatterns();
      ghost var f1, g1 := Grid(isFunction), Grid(modules);
      AddSeparators();
      ghost var f2, g2 := Grid(isFunction), Grid(modules);
      AddTimingPatterns();
      ghost var f3, g3 := Grid(isFunction), Grid(modules);
      AddAlignmentPatterns();
      f := Grid(isFunction);
      ghost var g := Grid(modules);
      forall y, x | 0 <= y < size && 0 <= x < size
        ensures f[y][x] == (FunctionArea(size, version, x, y) || f0[y][x])
      {
        assert f1[y][x] == (Cover(FinderOrigins(size), 7, x, y).Some? || f0[y][x]);
        assert f2[y][x] == (InSeparators(size, 3, x, y) || f1[y][x]);
        assert f3[y][x] == (InTiming(size, x, y) || f2[y][x]);
      }
      forall y, x | 0 <= y < size && 0 <= x < size
        ensures g[y][x] == if FunctionArea(size, version, x, y) then PatternValue(size, version, x, y) else g0[y][x]
      {
        assert g1[y][x] == (var c := Cover(FinderOrigins(size), 7, x, y); if c.Some? then FinderValue(c.value, x, y) else g0[y][x]);
        assert g2[y][x] == (!InSeparators(size, 3, x, y) && g1[y][x]);
        assert g3[y][x] == if InTiming(size, x, y) then TimingValue(x, y) else g2[y][x];
      }
    }

    /** Step 2 of `Generate`: `encodeData` then `addData`. */
    method PlaceData(ghost f: seq<seq<bool>>) returns (ghost placed: seq<seq<bool>>)
      requires Valid() && f == Grid(isFunction)
      modifies modules
      ensures placed == Grid(modules) && HoldsStream(size, f, placed, EncodedBits(data, GetDataCapacity()))
      ensures KeepsOthers(size, f, placed, old(Grid(modules)))
    {
      SideOfVersion(version);
      assert Square(f, size);
      var encodedData := EncodeData();
      ghost var bits := EncodedBits(data, GetDataCapacity());
      AddData(encodedData);
      placed := Grid(modules);
      forall y, x | 0 <= y < size && 0 <= x < size && x != 6 && !f[y][x]
        ensures var k := FreeBefore(size, f, StepOf(size, x, y)); placed[y][x] == (k < |bits| && bits[k])
      {
        var k := FreeBefore(size, f, StepOf(size, x, y));
        assert placed[y][x] == DataBit(encodedData, k);
      }
    }

    /** Steps 3 and 4 of `Generate`: `findBestMask`, `applyMask` with the mask found, then
        `addFormatInfo`. */
    method MaskAndFormat(ghost placed: seq<seq<bool>>, ghost f: seq<seq<bool>>)
      requires Valid() && placed == Grid(modules) && f == Grid(isFunction)
      modifies this`mask, modules, isFunction
      ensures Valid() && Square(placed, size) && Square(f, size)
      ensures BestMask(placed, f, mask)
      ensures HoldsFormat(size, FormatInfo(errorLevel, mask), Grid(modules), Masked(placed, f, mask))
      ensures MarksFormat(size, Grid(isFunction), f)
    {
      mask := FindBestMask();
      ApplyMask(mask);
      ghost var masked := Grid(modules);
      AddFormatInfo();
    }

    /** The state of `addData` at point `q` of its traversal: `bitIndex` counts the free
        modules visited before `q`, capped at the number of bits; each free module off column 6
        visited before `q` holds the data bit of its index among the free modules; and every
        other module still holds its value in `g0`. */
    ghost predicate Placed(bytes: seq<Byte>, f: seq<seq<bool>>, g0: seq<seq<bool>>, q: Step, bitIndex: int)
      reads this, modules
    {
      && SymbolSide(size) && Square(f, size) && Square(g0, size) && Position(size, q)
      && modules != null && modules.Length0 == size && modules.Length1 == size
      && bitIndex == Min(FreeBefore(size, f, q), 8 * |bytes|)
      && forall y, x :: 0 <= y < size && 0 <= x < size ==>
           modules[y, x] ==
             if x != 6 && !f[y][x] && Before(StepOf(size, x, y), q) then DataBit(bytes, FreeBefore(size, f, StepOf(size, x, y)))
             else g0[y][x]
    }

    /** `addData`: walks the column pairs from the right edge leftwards, skipping column 6, up
        and down in turn, and gives each module that is not a function module the next bit of
        `bytes`, or a light module once the bits run out. Function modules and column 6 keep
        their values. */
    method AddData(bytes: seq<Byte>)
      requires Valid()
      modifies modules
      ensures forall y, x :: 0 <= y < size && 0 <= x < size ==>
        modules[y, x] ==
          if x != 6 && !isFunction[y, x] then DataBit(bytes, FreeBefore(size, Grid(isFunction), StepOf(size, x, y)))
          else old(modules[y, x])
    {
      SideOfVersion(version);
      ghost var f, g0 := Grid(isFunction), Grid(modules);
      var bitIndex := 0;
      var totalBits := |bytes| * 8;
      var col := size - 1;
      ghost var ci := 0;
      ColumnWalk(size, 0);
      while col >= 0
        invariant 0 <= ci <= PassCount(size) && col == LoopColumn(size, ci)
        invariant Placed(bytes, f, g0, Step(ci, 0, 0), bitIndex)
        decreases PassCount(size) - ci
      {
        ColumnWalk(size, ci);
        col, bitIndex := NextPass(bytes, col, ci, bitIndex, f, g0);
        ci := ci + 1;
      }
      ColumnWalk(size, ci);
      AllPlaced(bytes, f, g0, bitIndex);
    }

    /** The body of `addData`'s outer loop: step over column 6, fill the pass, move two columns
        left. */
    method NextPass(bytes: seq<Byte>, col0: int, ghost ci: int, bitIndex0: int, ghost f: seq<seq<bool>>, ghost g0: seq<seq<bool>>)
      returns (col: int, bitIndex: int)
      requires Valid() && f == Grid(isFunction)
      requires 0 <= ci < PassCount(size) && col0 == LoopColumn(size, ci)
      requires Placed(bytes, f, g0, Step(ci, 0, 0), bitIndex0)
      modifies modules
      ensures col == LoopColumn(size, ci + 1) && Placed(bytes, f, g0, Step(ci + 1, 0, 0), bitIndex)
    {
      SideOfVersion(version);
      ColumnWalk(size, ci);
      col := col0;
      if col == 6 {
        col := col - 1;
      }
      bitIndex := FillPass(bytes, col, ci, bitIndex0, f, g0);
      col := col - 2;
    }

    /** After the last pass every module off column 6 has been visited. */
    lemma AllPlaced(bytes: seq<Byte>, f: seq<seq<bool>>, g0: seq<seq<bool>>, bitIndex: int)
      requires Valid() && f == Grid(isFunction)
      requires Placed(bytes, f, g0, Step(PassCount(size), 0, 0), bitIndex)
      ensures forall y, x :: 0 <= y < size && 0 <= x < size ==>
        modules[y, x] ==
          if x != 6 && !isFunction[y, x] then DataBit(bytes, FreeBefore(size, f, StepOf(size, x, y)))
          else g0[y][x]
    {
      forall y, x | 0 <= y < size && 0 <= x < size && x != 6
        ensures Before(StepOf(size, x, y), Step(PassCount(size), 0, 0))
      {
      }
    }

    /** One pass of `addData`'s outer loop: the pair of columns `col, col - 1`, row by row in the
        pass's direction, the right-hand module first. */
    method FillPass(bytes: seq<Byte>, col: int, ghost ci: int, bitIndex0: int, ghost f: seq<seq<bool>>, ghost g0: seq<seq<bool>>)
      returns (bitIndex: int)
      requires Valid() && f == Grid(isFunction)
      requires 0 <= ci < PassCount(size) && col == PassColumn(size, ci)
      requires Placed(bytes, f, g0, Step(ci, 0, 0), bitIndex0)
      modifies modules
      ensures Placed(bytes, f, g0, Step(ci + 1, 0, 0), bitIndex)
    {
      bitIndex := bitIndex0;
      var upward := ((size - 1 - col) / 2) % 2 == 0;
      for i := 0 to size
        invariant Placed(bytes, f, g0, Step(ci, i, 0), bitIndex)
      {
        bitIndex := FillRow(bytes, col, upward, ci, i, bitIndex, f, g0);
      }
      PassDone(bytes, f, g0, ci, bitIndex);
    }

    /** One iteration of a pass's row loop: the two modules of row `i` of the pass, counted from
        the bottom on an upward pass. */
    method FillRow(bytes: seq<Byte>, col: int, upward: bool, ghost ci: int, i: int, bitIndex0: int,
                   ghost f: seq<seq<bool>>, ghost g0: seq<seq<bool>>)
      returns (bitIndex: int)
      requires Valid() && f == Grid(isFunction)
      requires 0 <= ci < PassCount(size) && col == PassColumn(size, ci) && upward == Upward(size, col) && 0 <= i < size
      requires Placed(bytes, f, g0, Step(ci, i, 0), bitIndex0)
      modifies modules
      ensures Placed(bytes, f, g0, Step(ci, i + 1, 0), bitIndex)
    {
      SideOfVersion(version);
      bitIndex := bitIndex0;
      var row := i;
      if upward {
        row := size - 1 - i;
      }
      for c := 0 to 2
        invariant Placed(bytes, f, g0, Step(ci, i, c), bitIndex)
      {
        bitIndex := Visit(bytes, col - c, row, Step(ci, i, c), bitIndex, f, g0);
      }
      RowDone(bytes, f, g0, ci, i, bitIndex);
    }

    /** One visit of `addData`'s inner loop, at step `q` of the traversal: the placement
        reaches the next point. */
    method Visit(bytes: seq<Byte>, x: int, y: int, ghost q: Step, bitIndex0: int, ghost f: seq<seq<bool>>, ghost g0: seq<seq<bool>>)
      returns (bitIndex: int)
      requires Valid() && f == Grid(isFunction)
      requires IsStep(size, q)
      requires x == PassColumn(size, q.pass) - q.side && y == if Upward(size, PassColumn(size, q.pass)) then size - 1 - q.index else q.index
      requires Placed(bytes, f, g0, q, bitIndex0)
      modifies modules
      ensures Placed(bytes, f, g0, Step(q.pass, q.index, q.side + 1), bitIndex)
    {
      CellOfParts(size, q, x, y);
      VisitsAreOneToOne(size, q);
      ghost var next := Step(q.pass, q.index, q.side + 1);
      assert FreeBefore(size, f, next) == FreeBefore(size, f, q) + if f[y][x] then 0 else 1;
      bitIndex := PlaceModule(bytes, x, y, bitIndex0);
      forall j, i | 0 <= j < size && 0 <= i < size
        ensures modules[j, i] ==
          if i != 6 && !f[j][i] && Before(StepOf(size, i, j), next) then DataBit(bytes, FreeBefore(size, f, StepOf(size, i, j)))
          else g0[j][i]
      {
        if (i, j) != (x, y) && i != 6 {
          assert StepOf(size, i, j) != q;
        }
      }
    }

    /** The end of a row of a pass is the start of the next row. */
    lemma RowDone(bytes: seq<Byte>, f: seq<seq<bool>>, g0: seq<seq<bool>>, ci: int, i: int, bitIndex: int)
      requires 0 <= ci < PassCount(size) && 0 <= i < size
      requires Placed(bytes, f, g0, Step(ci, i, 2), bitIndex)
      ensures Placed(bytes, f, g0, Step(ci, i + 1, 0), bitIndex)
    {
      forall j, k | 0 <= j < size && 0 <= k < size && k != 6
        ensures Before(StepOf(size, k, j), Step(ci, i + 1, 0)) == Before(StepOf(size, k, j), Step(ci, i, 2))
      {
      }
    }

    /** The end of a pass is the start of the next one. */
    lemma PassDone(bytes: seq<Byte>, f: seq<seq<bool>>, g0: seq<seq<bool>>, ci: int, bitIndex: int)
      requires 0 <= ci < PassCount(size)
      requires Placed(bytes, f, g0, Step(ci, size, 0), bitIndex)
      ensures Placed(bytes, f, g0, Step(ci + 1, 0, 0), bitIndex)
    {
      forall j, k | 0 <= j < size && 0 <= k < size && k != 6
        ensures Before(StepOf(size, k, j), Step(ci + 1, 0, 0)) == Before(StepOf(size, k, j), Step(ci, size, 0))
      {
      }
    }

    /** The body of `addData`'s inner loop for module `(x, y)`: a module that is not a function
        module takes bit `bitIndex` of `bytes`, or light once the bits are used up, and the index
        moves on only while bits remain. */
    method PlaceModule(bytes: seq<Byte>, x: int, y: int, bitIndex0: int) returns (bitIndex: int)
      requires Valid() && 0 <= bitIndex0
      modifies modules
      ensures InBounds(x, y) && !isFunction[y, x] ==> modules[y, x] == DataBit(bytes, bitIndex0)
      ensures bitIndex == if InBounds(x, y) && !isFunction[y, x] && bitIndex0 < 8 * |bytes| then bitIndex0 + 1 else bitIndex0
      ensures forall j, i :: 0 <= j < size && 0 <= i < size && !(InBounds(x, y) && !isFunction[y, x] && j == y && i == x) ==>
        modules[j, i] == old(modules[j, i])
    {
      bitIndex := bitIndex0;
      var totalBits := |bytes| * 8;
      if InBounds(x, y) && !isFunction[y, x] {
        var bit := false;
        if bitIndex < totalBits {
          var byteIndex := bitIndex / 8;
          var bitPos := 7 - (bitIndex % 8);
          bit := Bit(bytes[byteIndex], bitPos);
          bitIndex := bitIndex + 1;
        }
        SetModule(x, y, bit);
      }
    }

    /** `setModule`: writes one module when it is inside the symbol, and nothing else. */
    method SetModule(x: int, y: int, value: bool)
      requires modules != null && modules.Length0 == size && modules.Length1 == size
      modifies modules
      ensures forall j, i :: 0 <= j < size && 0 <= i < size ==>
        modules[j, i] == if InBounds(x, y) && j == y && i == x then value else old(modules[j, i])
    {
      if InBounds(x, y) {
        modules[y, x] := value;
      }
    }

    /** `setFunction`: marks or unmarks one module when it is inside the symbol. */
    method SetFunction(x: int, y: int, value: bool)
      requires isFunction != null && isFunction.Length0 == size && isFunction.Length1 == size
      modifies isFunction
      ensures forall j, i :: 0 <= j < size && 0 <= i < size ==>
        isFunction[j, i] == if InBounds(x, y) && j == y && i == x then value else old(isFunction[j, i])
    {
      if InBounds(x, y) {
        isFunction[y, x] := value;
      }
    }
  }
}
