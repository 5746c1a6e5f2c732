/** The result accumulator `resultMap` (main.go:140-162): for each command,
    the set of distinct paths matched for it. Go maps are unordered, so the
    paths of a command form a set. */
module Results {

  /** The contents of a result map. */
  type Entries = map<string, set<string>>

  /** Path `v` is recorded for command `k`. */
  predicate Recorded(m: Entries, k: string, v: string) {
    k in m && v in m[k]
  }

  /** A command is a key only together with at least one path: `add` is the
      only operation and creates a key with its first path. */
  predicate WellFormed(m: Entries) {
    forall k | k in m :: m[k] != {}
  }

  /** The entries after `m.add(k, v)`. */
  function AddTo(m: Entries, k: string, v: string): (m': Entries)
    ensures forall k', v' :: Recorded(m', k', v') <==> Recorded(m, k', v') || (k' == k && v' == v)
    ensures m'.Keys == m.Keys + {k}
  {
    m[k := (if k in m then m[k] else {}) + {v}]
  }

  /** Adding a pair that is already recorded changes nothing. */
  lemma AddToRecorded(m: Entries, k: string, v: string)
    requires Recorded(m, k, v)
    ensures AddTo(m, k, v) == m
  {
    assert m[k] + {v} == m[k];
  }

  /** Adding the same pair twice is adding it once. */
  lemma AddToTwice(m: Entries, k: string, v: string)
    ensures AddTo(AddTo(m, k, v), k, v) == AddTo(m, k, v)
  {
    AddToRecorded(AddTo(m, k, v), k, v);
  }

  /** Adding keeps every key a non-empty set of paths. */
  lemma AddToWellFormed(m: Entries, k: string, v: string)
    requires WellFormed(m)
    ensures WellFormed(AddTo(m, k, v))
  {
  }

  /** Adding a pair for a new command adds one key; otherwise the number of
      keys stays the same. */
  lemma AddToSize(m: Entries, k: string, v: string)
    ensures |AddTo(m, k, v)| == |m| + (if k in m then 0 else 1)
  {
    var m' := AddTo(m, k, v);
    assert |m'.Keys| == |m'|;
    if k !in m {
      assert |m.Keys + {k}| == |m.Keys| + 1;
    } else {
      assert m.Keys + {k} == m.Keys;
    }
  }

  /** `resultMap`, updated in place by `add`. */
  class ResultMap {
    var entries: Entries

    ghost predicate Valid()
      reads this
    {
      WellFormed(entries)
    }

    /** `newResultMap()` (main.go:142-144). */
    constructor ()
      ensures Valid() && entries == map[]
    {
      entries := map[];
    }

    /** `add(key, value)` (main.go:146-157): records `value` for `key` and
        tells whether the pair was new. */
    method Add(key: string, value: string) returns (added: bool)
      requires Valid()
      modifies this
      ensures Valid()
      ensures added <==> !Recorded(old(entries), key, value)
      ensures entries == AddTo(old(entries), key, value)
    {
      if key in entries {
        if value in entries[key] {
          AddToRecorded(entries, key, value);
          return false;
        }
        entries := entries[key := entries[key] + {value}];
        return true;
      }
      assert {} + {value} == {value};
      entries := entries[key := {value}];
      return true;
    }

    /** The walk visitor's calls of `add` (main.go:113), applied at once:
        the entries become `m`, which holds every pair recorded so far. */
    method Replace(m: Entries)
      requires Valid() && WellFormed(m)
      requires forall k, v | Recorded(entries, k, v) :: Recorded(m, k, v)
      modifies this
      ensures Valid() && entries == m
      ensures forall k | k in old(entries) :: HasKey(k)
    {
      ghost var m0 := entries;
      entries := m;
      forall k | k in m0 ensures k in m {
        var v :| v in m0[k];
        assert Recorded(m0, k, v);
      }
    }

    /** `hasKey(key)` (main.go:159-162): at least one path is recorded for
        `key`. */
    function HasKey(key: string): (has: bool)
      reads this
      requires Valid()
      ensures has <==> key in entries && entries[key] != {}
    {
      key in entries
    }
  }
}
