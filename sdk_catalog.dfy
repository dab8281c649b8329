/** The catalogue of known SDKs, a `TreeMap<Integer, Sdk>` keyed by API
    level, and the supersession rule that installs a locally built SDK in it. */
module SdkCatalog {
  import opened JavaInteger
  import opened Sdks

  /** The catalogue with `release` installed at `level`: every entry at or
      above that level is gone and the new one takes its place; the entries
      below it stay as they were. */
  function Superseded(known: map<Int32, Sdk>, level: Int32, release: Sdk): (r: map<Int32, Sdk>)
    ensures level in r && r[level] == release
    ensures forall key: Int32 :: key in r ==> key <= level
    ensures forall key: Int32 :: key < level ==> (key in r <==> key in known)
    ensures forall key: Int32 :: key in r && key < level ==> r[key] == known[key]
  {
    (map key | key in known && key < level :: known[key])[level := release]
  }

  /** The key set after supersession is the lower keys plus the new level. */
  lemma SupersededKeys(known: map<Int32, Sdk>, level: Int32, release: Sdk)
    ensures Superseded(known, level, release).Keys
            == (set key | key in known && key < level) + {level}
  {
  }

  /** The four facts in Superseded's contract leave no freedom: any catalogue
      satisfying them is the superseded one. */
  lemma SupersededUnique(known: map<Int32, Sdk>, level: Int32, release: Sdk, r: map<Int32, Sdk>)
    requires level in r && r[level] == release
    requires forall key: Int32 :: key in r ==> key <= level
    requires forall key: Int32 :: key < level ==> (key in r <==> key in known)
    requires forall key: Int32 :: key in r && key < level ==> r[key] == known[key]
    ensures r == Superseded(known, level, release)
  {
    var s := Superseded(known, level, release);
    assert r.Keys == s.Keys;
  }

  /** Installing the same release twice is the same as installing it once. */
  lemma SupersededIdempotent(known: map<Int32, Sdk>, level: Int32, release: Sdk)
    ensures Superseded(Superseded(known, level, release), level, release)
            == Superseded(known, level, release)
  {
    var once := Superseded(known, level, release);
    SupersededUnique(once, level, release, Superseded(once, level, release));
  }

  /** A later release at a lower or equal level wins over an earlier one:
      installing k then k' (k' <= k) is installing k' alone. */
  lemma SupersededLowerWins(known: map<Int32, Sdk>, k: Int32, first: Sdk, k': Int32, second: Sdk)
    requires k' <= k
    ensures Superseded(Superseded(known, k, first), k', second) == Superseded(known, k', second)
  {
    var once := Superseded(known, k, first);
    SupersededUnique(known, k', second, Superseded(once, k', second));
  }

  /** {28, 29, 30} with a new 29 gives {28, 29}, the new entry at 29. */
  lemma SupersededScenarioMiddle(e28: Sdk, e29: Sdk, e30: Sdk, release: Sdk)
    ensures Superseded(map[28 := e28, 29 := e29, 30 := e30], 29, release)
            == map[28 := e28, 29 := release]
  {
    var known := map[28 := e28, 29 := e29, 30 := e30];
    SupersededUnique(known, 29, release, map[28 := e28, 29 := release]);
  }

  /** An empty catalogue with a new 34 gives {34}. */
  lemma SupersededScenarioEmpty(release: Sdk)
    ensures Superseded(map[], 34, release) == map[34 := release]
  {
    SupersededUnique(map[], 34, release, map[34 := release]);
  }

  /** The mutable `TreeMap<Integer, Sdk>` that populateSdks receives. */
  class SdkMap {
    var entries: map<Int32, Sdk>

    constructor (initial: map<Int32, Sdk>)
      ensures entries == initial
    {
      entries := initial;
    }

    /** `TreeMap.remove(key)`. */
    method Remove(key: Int32)
      modifies this
      ensures entries == old(entries) - {key}
    {
      entries := entries - {key};
    }

    /** `TreeMap.put(key, sdk)`. */
    method Put(key: Int32, sdk: Sdk)
      modifies this
      ensures entries == old(entries)[key := sdk]
    {
      entries := entries[key := sdk];
    }
  }

  /** The merge step of populateSdks: remove every key at or above `level`,
      one at a time, then put `release` at `level`. */
  method Supersede(known: SdkMap, level: Int32, release: Sdk)
    modifies known
    ensures known.entries == Superseded(old(known.entries), level, release)
  {
    var doomed := set key | key in known.entries && key >= level;
    while doomed != {}
      invariant forall key :: key in doomed ==> key in known.entries && key >= level
      invariant forall key: Int32 :: key in known.entries <==>
                  key in old(known.entries) && (key < level || key in doomed)
      invariant forall key :: key in known.entries ==> known.entries[key] == old(known.entries)[key]
      decreases doomed
    {
      var key :| key in doomed;
      known.Remove(key);
      doomed := doomed - {key};
    }
    known.Put(level, release);
    SupersededUnique(old(known.entries), level, release, known.entries);
  }
}
