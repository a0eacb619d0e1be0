/** Choosing the version and error level for a payload length
    (`determineVersionAndErrorLevel`). */
module QrSizer {
  import opened QrTables

  /** Bytes added to the payload for the mode indicator, length and terminator. */
  const OVERHEAD := 3

  /** The order in which levels are tried at each version: strongest first. */
  const SEARCH_ORDER: seq<ErrorLevel> := [High, Quartile, Medium, Low]

  /** The inner loop: the first index `k >= j` of `SEARCH_ORDER` whose level holds `required`
      bytes at `version`, or 4 when none does. */
  function FitLevel(version: int, required: int, j: nat): (k: nat)
    requires 1 <= version <= MAX_VERSION && j <= 4
    ensures j <= k <= 4
    ensures k < 4 ==> Capacity(version, SEARCH_ORDER[k]) >= required
    ensures forall i :: j <= i < k ==> Capacity(version, SEARCH_ORDER[i]) < required
    decreases 4 - j
  {
    if j == 4 then 4
    else if Capacity(version, SEARCH_ORDER[j]) >= required then j
    else FitLevel(version, required, j + 1)
  }

  /** Every level appears in `SEARCH_ORDER`, strongest first. */
  lemma SearchOrderLists()
    ensures forall el :: SEARCH_ORDER[3 - LevelIndex(el)] == el
  {
  }

  /** The inner loop in terms of levels: when it finds none, no level holds `required`; when it
      stops at a level, no stronger level does. */
  lemma FitLevelByLevel(version: int, required: int)
    requires 1 <= version <= MAX_VERSION
    ensures var k := FitLevel(version, required, 0);
      k == 4 ==> forall el :: Capacity(version, el) < required
    ensures var k := FitLevel(version, required, 0);
      k < 4 ==> forall el :: LevelIndex(el) > LevelIndex(SEARCH_ORDER[k]) ==> Capacity(version, el) < required
  {
    SearchOrderLists();
  }

  /** The outer loop, from `version` on: the first version at which some level fits, with the
      first fitting level in `SEARCH_ORDER`; `(-1, Low)` when no version up to 10 fits. */
  function SearchFrom(version: int, required: int): (r: (int, ErrorLevel))
    requires 1 <= version <= MAX_VERSION + 1
    ensures r.0 == -1 || (version <= r.0 <= MAX_VERSION && Capacity(r.0, r.1) >= required)
    ensures r.0 == -1 ==> r.1 == Low
    ensures r.0 == -1 ==> forall v, el :: version <= v <= MAX_VERSION ==> Capacity(v, el) < required
    ensures r.0 != -1 ==> forall v, el :: version <= v < r.0 ==> Capacity(v, el) < required
    ensures r.0 != -1 ==> forall el :: LevelIndex(el) > LevelIndex(r.1) ==> Capacity(r.0, el) < required
    decreases MAX_VERSION + 1 - version
  {
    if version > MAX_VERSION then (-1, Low)
    else
      var k := FitLevel(version, required, 0);
      FitLevelByLevel(version, required);
      if k < 4 then (version, SEARCH_ORDER[k]) else SearchFrom(version + 1, required)
  }

  /** What `determineVersionAndErrorLevel(dataLen)` returns: the smallest version at which some
      level holds `dataLen + 3` bytes, with the strongest such level at that version; `(-1, Low)`
      exactly when even version 10 at level Low (271 bytes) is too small. */
  function SmallestFit(dataLen: int): (r: (int, ErrorLevel))
    ensures r.0 == -1 <==> dataLen + OVERHEAD > MAX_CAPACITY
    ensures r.0 == -1 ==> r.1 == Low
    ensures r.0 != -1 ==> 1 <= r.0 <= MAX_VERSION && Capacity(r.0, r.1) >= dataLen + OVERHEAD
    ensures r.0 != -1 ==> forall v, el :: 1 <= v < r.0 ==> Capacity(v, el) < dataLen + OVERHEAD
    ensures r.0 != -1 ==> forall el :: LevelIndex(el) > LevelIndex(r.1) ==> Capacity(r.0, el) < dataLen + OVERHEAD
  {
    CapacityOrdering();
    SearchFrom(1, dataLen + OVERHEAD)
  }

  /** The payload droplink encodes, "http://localhost:" and a 4-digit port, is 21 bytes and needs
      24: nothing at version 1 fits, and at version 2 High (14) and Quartile (20) are too small,
      so Medium (26) wins. */
  lemma LocalhostUrlSizing(dataLen: int)
    requires dataLen == 21
    ensures SmallestFit(dataLen) == (2, Medium)
  {
    var r := SmallestFit(dataLen);
    assert r.0 <= 2 by { assert Capacity(2, Medium) == 26; }
    assert r.0 >= 2 by { assert Capacity(1, Low) == 17; }
    assert Capacity(2, High) == 14 && Capacity(2, Quartile) == 20 && Capacity(2, Medium) == 26;
  }

  /** `determineVersionAndErrorLevel`: versions from 1 up, and at each version the levels from
      High down to Low, returning the first pair whose capacity holds `dataLen + 3` bytes. */
  method DetermineVersionAndErrorLevel(dataLen: int) returns (version: int, errorLevel: ErrorLevel)
    ensures (version, errorLevel) == SmallestFit(dataLen)
  {
    var requiredCapacity := dataLen + OVERHEAD;
    CapacityTableShape();
    for v := 1 to |VERSION_CAPACITY| + 1
      invariant SearchFrom(v, requiredCapacity) == SearchFrom(1, requiredCapacity)
    {
      for j := 0 to |SEARCH_ORDER|
        invariant FitLevel(v, requiredCapacity, j) == FitLevel(v, requiredCapacity, 0)
      {
        var el := SEARCH_ORDER[j];
        if Capacity(v, el) >= requiredCapacity {
          return v, el;
        }
      }
    }
    return -1, Low;
  }
}
