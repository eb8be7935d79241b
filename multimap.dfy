/**
 * SetMultimap (src/com/readytalk/revori/util/SetMultimap.java): a map
 * from keys to sets of values that keeps a running count of its
 * (key, value) pairs in `size`.  Keys and values are integers here.
 */
module Multimaps {

  /** The set a key maps to, empty when it has none. */
  function Get(m: map<int, set<int>>, k: int): set<int>
  {
    if k in m then m[k] else {}
  }

  /** The (key, value) pairs a map of sets holds. */
  ghost function Pairs(m: map<int, set<int>>): set<(int, int)>
  {
    set k, v | k in m && v in m[k] :: (k, v)
  }

  ghost function PairsExcept(m: map<int, set<int>>, key: int): set<(int, int)>
  {
    set k, v | k in m && k != key && v in m[k] :: (k, v)
  }

  ghost function Row(key: int, s: set<int>): set<(int, int)>
  {
    set v | v in s :: (key, v)
  }

  /** A set with no element is empty. */
  lemma Inhabited(s: set<int>)
    ensures s == {} || exists e :: e in s
  {
    if !(exists e :: e in s) {
      assert s == {};
    }
  }

  lemma {:induction false} RowSize(key: int, s: set<int>)
    ensures |Row(key, s)| == |s|
    decreases |s|
  {
    if s != {} {
      Inhabited(s);
      var x :| x in s;
      assert Row(key, s) == Row(key, s - {x}) + {(key, x)};
      RowSize(key, s - {x});
    }
  }

  /** The pairs of a map split into those of one key and the rest. */
  lemma PairsSplit(m: map<int, set<int>>, key: int)
    ensures |Pairs(m)| == |PairsExcept(m, key)| + |Get(m, key)|
  {
    assert Pairs(m) == PairsExcept(m, key) + Row(key, Get(m, key));
    assert PairsExcept(m, key) * Row(key, Get(m, key)) == {};
    RowSize(key, Get(m, key));
  }

  /** Replacing the set of one key changes the number of pairs by the change in that set's size. */
  lemma PairsUpdate(m: map<int, set<int>>, key: int, s: set<int>)
    ensures |Pairs(m[key := s])| == |Pairs(m)| - |Get(m, key)| + |s|
  {
    PairsSplit(m, key);
    PairsSplit(m[key := s], key);
    assert PairsExcept(m[key := s], key) == PairsExcept(m, key);
  }

  /** Dropping a key loses exactly the pairs of its set. */
  lemma PairsRemove(m: map<int, set<int>>, key: int)
    ensures |Pairs(m - {key})| == |Pairs(m)| - |Get(m, key)|
  {
    PairsSplit(m, key);
    PairsSplit(m - {key}, key);
    assert PairsExcept(m - {key}, key) == PairsExcept(m, key);
  }

  /** The map that holds, for every key of either map, the union of their sets. */
  function Merged(a: map<int, set<int>>, b: map<int, set<int>>): map<int, set<int>>
  {
    map k | k in a.Keys + b.Keys :: Get(a, k) + Get(b, k)
  }

  /** The entries of `m` whose keys are among `ks`. */
  function Only(m: map<int, set<int>>, ks: set<int>): map<int, set<int>>
  {
    map k | k in m.Keys * ks :: m[k]
  }

  lemma MergeNothing(a: map<int, set<int>>, b: map<int, set<int>>)
    ensures Merged(a, Only(b, {})) == a
  {
    assert Only(b, {}) == map[];
    var m := Merged(a, map[]);
    assert m.Keys == a.Keys;
    forall k | k in a
      ensures m[k] == a[k]
    {
    }
  }

  lemma OnlyAll(m: map<int, set<int>>, ks: set<int>)
    requires m.Keys == ks
    ensures Only(m, ks) == m
  {
  }

  /** Adding the set of one more key of `b` merges one more entry. */
  lemma MergeStep(a: map<int, set<int>>, b: map<int, set<int>>, done: set<int>, k: int,
                  before: map<int, set<int>>, after: map<int, set<int>>)
    requires k in b
    requires before == Merged(a, Only(b, done))
    requires after == before[k := Get(before, k) + b[k]]
    ensures after == Merged(a, Only(b, done + {k}))
  {
    var o, o' := Only(b, done), Only(b, done + {k});
    var n := Merged(a, o');
    assert o'.Keys == o.Keys + {k};
    assert after.Keys == n.Keys;
    forall j | j in n
      ensures after[j] == n[j]
    {
      if j == k {
        assert Get(o', k) == b[k];
        assert Get(o, k) == if k in done then b[k] else {};
      } else {
        assert Get(o', j) == Get(o, j);
      }
    }
  }

  /** Putting a value adds exactly its pair. */
  lemma PairsPut(m: map<int, set<int>>, key: int, value: int)
    ensures Pairs(m[key := Get(m, key) + {value}]) == Pairs(m) + {(key, value)}
  {
  }

  /** Removing a value drops exactly its pair. */
  lemma PairsTake(m: map<int, set<int>>, key: int, value: int)
    requires key in m
    ensures Pairs(m[key := m[key] - {value}]) == Pairs(m) - {(key, value)}
  {
  }

  /** Merging two maps of sets unites their pairs. */
  lemma PairsMerged(a: map<int, set<int>>, b: map<int, set<int>>)
    ensures Pairs(Merged(a, b)) == Pairs(a) + Pairs(b)
  {
  }

  class SetMultimap {
    var entries: map<int, set<int>>
    var size: int

    /** `size` counts the pairs. */
    ghost predicate Valid()
      reads this
    {
      size == |Pairs(entries)|
    }

    constructor()
      ensures Valid() && entries == map[] && size == 0
    {
      entries := map[];
      size := 0;
      new;
      assert Pairs(entries) == {};
    }

    /** `put`: the value joins the key's set (which is created if missing); `size` grows only for a new pair. */
    method Put(key: int, value: int)
      requires Valid()
      modifies this
      ensures Valid()
      ensures entries == old(entries)[key := Get(old(entries), key) + {value}]
      ensures size == old(size) + (if value in Get(old(entries), key) then 0 else 1)
      ensures Pairs(entries) == old(Pairs(entries)) + {(key, value)}
    {
      PairsPut(entries, key, value);
      var s := Get(entries, key);
      PairsUpdate(entries, key, s + {value});
      entries := entries[key := s + {value}];
      if value !in s {
        assert |s + {value}| == |s| + 1;
        size := size + 1;
      } else {
        assert s + {value} == s;
      }
    }

    /** `remove`: false for a missing key or value; otherwise the pair goes and `size` drops by one. */
    method Remove(key: int, value: int) returns (removed: bool)
      requires Valid()
      modifies this
      ensures Valid()
      ensures removed <==> key in old(entries) && value in old(entries)[key]
      ensures key in old(entries) ==> entries == old(entries)[key := old(entries)[key] - {value}]
      ensures key !in old(entries) ==> entries == old(entries)
      ensures size == old(size) - (if removed then 1 else 0)
      ensures Pairs(entries) == old(Pairs(entries)) - {(key, value)}
    {
      if key in entries {
        PairsTake(entries, key, value);
        var s := entries[key];
        removed := value in s;
        PairsUpdate(entries, key, s - {value});
        entries := entries[key := s - {value}];
        if removed {
          size := size - 1;
        }
        return removed;
      }
      return false;
    }

    /** `add` on the view `get(key)`: true exactly for a new pair, which is then held and counted. */
    method ViewAdd(key: int, value: int) returns (added: bool)
      requires Valid()
      modifies this
      ensures Valid()
      ensures added <==> (key, value) !in old(Pairs(entries))
      ensures Pairs(entries) == old(Pairs(entries)) + {(key, value)}
    {
      added := value !in Get(entries, key);
      Put(key, value);
    }

    /** `contains` on the view `get(key)`: a missing set contains nothing. */
    function ViewContains(key: int, value: int): (r: bool)
      reads this
      ensures r <==> (key, value) in Pairs(entries)
    {
      key in entries && value in entries[key]
    }

    /** `size` on the view `get(key)`: a missing set has none. */
    function ViewSize(key: int): (r: int)
      reads this
      ensures r == |Row(key, Get(entries, key))|
      ensures r == 0 <==> forall v :: (key, v) !in Pairs(entries)
    {
      RowSize(key, Get(entries, key));
      if key in entries then
        if entries[key] != {} then
          Inhabited(entries[key]);
          var v :| v in entries[key];
          assert (key, v) in Pairs(entries);
          |entries[key]|
        else |entries[key]|
      else 0
    }

    /** `size`. */
    function Size(): (r: int)
      requires Valid()
      reads this
      ensures r == |Pairs(entries)|
    {
      size
    }

    /** `clear`. */
    method Clear()
      modifies this
      ensures Valid() && entries == map[] && size == 0
    {
      entries := map[];
      size := 0;
      assert Pairs(entries) == {};
    }

    /**
     * `addAll` on the view `get(key)`: the view first resolves the key's
     * set, creating it if missing, and `size` grows by what the set grew.
     */
    method AddAll(key: int, values: set<int>)
      requires Valid()
      modifies this
      ensures Valid()
      ensures entries == old(entries)[key := Get(old(entries), key) + values]
    {
      var s := Get(entries, key);
      var before := |s|;
      PairsUpdate(entries, key, s + values);
      entries := entries[key := s + values];
      size := size + (|s + values| - before);
    }

    /** `putAll`: every set of `other` added to the same key here. */
    method PutAll(other: SetMultimap)
      requires Valid()
      modifies this
      ensures Valid()
      ensures entries == Merged(old(entries), old(other.entries))
      ensures Pairs(entries) == old(Pairs(entries)) + old(Pairs(other.entries))
    {
      PairsMerged(entries, other.entries);
      AddEach(other.entries);
    }

    /** The loop of `putAll`: `addAll` on the view of each key of `snapshot`. */
    method AddEach(snapshot: map<int, set<int>>)
      requires Valid()
      modifies this
      ensures Valid()
      ensures entries == Merged(old(entries), snapshot)
    {
      var done: set<int> := {};
      MergeNothing(entries, snapshot);
      while done != snapshot.Keys
        invariant Valid()
        invariant done <= snapshot.Keys
        invariant entries == Merged(old(entries), Only(snapshot, done))
        decreases |snapshot.Keys - done|
      {
        var rest := snapshot.Keys - done;
        Inhabited(rest);
        var k :| k in rest;
        AddKey(old(entries), snapshot, done, k);
        done := done + {k};
      }
      OnlyAll(snapshot, done);
    }

    /** One turn of that loop: the set of one more key of `snapshot` merged in. */
    method AddKey(ghost start: map<int, set<int>>, snapshot: map<int, set<int>>, ghost done: set<int>, k: int)
      requires Valid() && k in snapshot
      requires entries == Merged(start, Only(snapshot, done))
      modifies this
      ensures Valid()
      ensures entries == Merged(start, Only(snapshot, done + {k}))
    {
      ghost var before := entries;
      AddAll(k, snapshot[k]);
      MergeStep(start, snapshot, done, k, before, entries);
    }

    /**
     * `clear` on the view `get(key)` as written: `size` drops only when the
     * view has already resolved its set (`resolved`), yet the key's set
     * goes either way.
     */
    method ViewClearAsWritten(key: int, resolved: bool)
      modifies this
      ensures entries == old(entries) - {key}
      ensures size == old(size) - (if resolved then |Get(old(entries), key)| else 0)
    {
      if resolved {
        size := size - |Get(entries, key)|;
      }
      entries := entries - {key};
    }

    /** `clear` on the view `get(key)`: the key's set goes, and its pairs leave the count. */
    method ViewClear(key: int)
      requires Valid()
      modifies this
      ensures Valid()
      ensures entries == old(entries) - {key}
      ensures size == old(size) - |Get(old(entries), key)|
    {
      PairsRemove(entries, key);
      size := size - |Get(entries, key)|;
      entries := entries - {key};
    }
  }

  /** `put(1, 2)` and then `get(1).clear()` on a fresh view: the pair is gone, `size` still counts it. */
  method FreshViewClearKeepsCount() returns (size: int, keys: int)
    ensures size == 1 && keys == 0
  {
    var m := new SetMultimap();
    m.Put(1, 2);
    m.ViewClearAsWritten(1, false);
    assert m.entries == map[];
    assert Pairs(m.entries) == {};
    return m.size, |m.entries|;
  }
}
