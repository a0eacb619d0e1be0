/** The static tables of the encoder: capacities, format words, the finder template and the
    alignment centres. */
module QrTables {

  /** Error correction levels, in Go's `iota` order: Low = 0, Medium = 1, Quartile = 2, High = 3. */
  datatype ErrorLevel = Low | Medium | Quartile | High

  /** The level's integer value in Go, which is also its rank in recovery strength. */
  function LevelIndex(level: ErrorLevel): (r: nat)
    ensures r < 4
  {
    match level
    case Low => 0
    case Medium => 1
    case Quartile => 2
    case High => 3
  }

  const MAX_VERSION := 10

  /** `versionCapacity[version - 1][level]`: usable bytes per version and level. */
  const VERSION_CAPACITY: seq<seq<int>> := [
    [17, 14, 11, 7],
    [32, 26, 20, 14],
    [53, 42, 32, 24],
    [78, 62, 46, 34],
    [106, 84, 60, 44],
    [134, 106, 74, 58],
    [154, 122, 86, 64],
    [192, 152, 108, 84],
    [230, 180, 130, 98],
    [271, 213, 151, 119]
  ]

  /** `versionCapacity[version - 1][level]`: every entry is between the 7 bytes of version 1 at
      level High and the 271 bytes of version 10 at level Low. */
  function Capacity(version: int, level: ErrorLevel): (r: int)
    requires 1 <= version <= MAX_VERSION
    ensures 7 <= r <= 271
    ensures version == 1 && level == High ==> r == 7
    ensures version == MAX_VERSION && level == Low ==> r == 271
  {
    VERSION_CAPACITY[version - 1][LevelIndex(level)]
  }

  /** The capacity table has a row per version and a column per level. */
  lemma CapacityTableShape()
    ensures |VERSION_CAPACITY| == MAX_VERSION
    ensures forall v :: 0 <= v < MAX_VERSION ==> |VERSION_CAPACITY[v]| == 4
  {
  }

  /** The largest capacity in the table, at version 10 level Low. */
  const MAX_CAPACITY := 271

  /** `formatInfos[level][mask]`: 15-bit format words, used as opaque data. */
  const FORMAT_INFOS: seq<seq<int>> := [
    [0x5412, 0x5125, 0x5E7C, 0x5B4B, 0x45F9, 0x40CE, 0x4F97, 0x4AA0],
    [0x5125, 0x5412, 0x4B6B, 0x4E5C, 0x50EE, 0x55D9, 0x5A80, 0x5FB7],
    [0x17F4, 0x1261, 0x1D38, 0x180F, 0x06BD, 0x038A, 0x0CD3, 0x09E4],
    [0x1689, 0x13BE, 0x1CE7, 0x19D0, 0x0762, 0x0255, 0x0D0C, 0x083B]
  ]

  /** `formatInfos[level][mask]`: a word of at most 15 bits, so the 15 iterations of
      `addFormatInfo` write all of its set bits; each level's eight words are distinct, so the
      word records the mask. */
  function FormatInfo(level: ErrorLevel, mask: int): (r: int)
    requires 0 <= mask < 8
    ensures 0 <= r < 0x8000
    ensures forall m :: 0 <= m < 8 && m != mask ==> FORMAT_INFOS[LevelIndex(level)][m] != r
  {
    FORMAT_INFOS[LevelIndex(level)][mask]
  }

  /** The 7x7 finder template, indexed `[dy][dx]`. */
  const FINDER_PATTERN: seq<seq<bool>> := [
    [true, true, true, true, true, true, true],
    [true, false, false, false, false, false, true],
    [true, false, true, true, true, false, true],
    [true, false, true, true, true, false, true],
    [true, false, true, true, true, false, true],
    [true, false, false, false, false, false, true],
    [true, true, true, true, true, true, true]
  ]

  lemma FinderPatternShape()
    ensures |FINDER_PATTERN| == 7 && forall r :: 0 <= r < 7 ==> |FINDER_PATTERN[r]| == 7
  {
  }

  /** The `alignmentPositions` map; a version without an entry gets no centres. */
  function AlignmentPositions(version: int): (ps: seq<int>)
    ensures !(2 <= version <= MAX_VERSION) ==> ps == []
    ensures 2 <= version <= MAX_VERSION ==> |ps| == (if version < 7 then 2 else 3) && ps[0] == 6
    ensures 2 <= version <= MAX_VERSION ==> ps[|ps| - 1] == 21 + 4 * (version - 1) - 7
  {
    match version
    case 2 => [6, 18]
    case 3 => [6, 22]
    case 4 => [6, 26]
    case 5 => [6, 30]
    case 6 => [6, 34]
    case 7 => [6, 22, 38]
    case 8 => [6, 24, 42]
    case 9 => [6, 26, 46]
    case 10 => [6, 28, 50]
    case _ => []
  }

  /** The table is ordered as the level names promise: within a version a stronger level holds
      fewer bytes, a later version holds more at every level, and nothing exceeds version 10 at
      level Low. */
  lemma CapacityOrdering()
    ensures forall v, a: ErrorLevel, b: ErrorLevel :: 1 <= v <= MAX_VERSION && LevelIndex(a) < LevelIndex(b) ==>
      Capacity(v, b) < Capacity(v, a)
    ensures forall v, w, a: ErrorLevel :: 1 <= v < w <= MAX_VERSION ==> Capacity(v, a) < Capacity(w, a)
    ensures forall v, a: ErrorLevel :: 1 <= v <= MAX_VERSION ==> Capacity(v, a) <= MAX_CAPACITY
    ensures Capacity(MAX_VERSION, Low) == MAX_CAPACITY
  {
  }

  /** Alignment centres of a version lie inside the symbol of that version, are even, and are at
      least 12 apart, so the 5x5 patterns around them never overlap one another. */
  lemma AlignmentPositionsShape(version: int)
    requires 1 <= version <= MAX_VERSION
    ensures var ps := AlignmentPositions(version);
      && (version == 1 <==> ps == [])
      && (forall j :: 0 <= j < |ps| ==> 6 <= ps[j] && ps[j] + 2 < 21 + 4 * (version - 1) && ps[j] % 2 == 0)
      && (forall j :: 0 <= j < |ps| ==> ps[j] == 6 || ps[j] >= 18)
      && (forall j, k :: 0 <= j < k < |ps| ==> ps[j] + 12 <= ps[k])
  {
  }
}
