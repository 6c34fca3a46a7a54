/** core/collection/safemap.go: a map kept in two generations, merged when many keys have been
    deleted. Its clients see one plain map, `Contents`. */
module SafeMaps {
  import opened Options

  const COPY_THRESHOLD := 1000
  const MAX_DELETION := 10000

  lemma DisjointUnionCommutes<K, V>(a: map<K, V>, b: map<K, V>)
    requires a.Keys !! b.Keys
    ensures a + b == b + a
  {}

  lemma UnionWithNothing<K, V>(a: map<K, V>)
    ensures a + map[] == a
  {}

  class SafeMap<K(==), V> {
    var deletionOld: nat
    var deletionNew: nat
    var dirtyOld: map<K, V>
    var dirtyNew: map<K, V>

    /** No key lives in both generations. */
    ghost predicate Valid()
      reads this
    {
      dirtyOld.Keys !! dirtyNew.Keys
    }

    ghost function Contents(): (m: map<K, V>)
      reads this
    {
      dirtyOld + dirtyNew
    }

    constructor ()
      ensures Valid() && Contents() == map[]
    {
      deletionOld, deletionNew := 0, 0;
      dirtyOld, dirtyNew := map[], map[];
    }

    method Del(key: K)
      requires Valid()
      modifies this
      ensures Valid() && Contents() == old(Contents()) - {key}
    {
      if key in dirtyOld {
        dirtyOld := dirtyOld - {key};
        deletionOld := deletionOld + 1;
      } else if key in dirtyNew {
        dirtyNew := dirtyNew - {key};
        deletionNew := deletionNew + 1;
      }
      assert Valid() && Contents() == old(Contents()) - {key};
      Compact();
    }

    /** The two merges at the end of Del. */
    method Compact()
      requires Valid()
      modifies this
      ensures Valid() && Contents() == old(Contents())
    {
      if deletionOld >= MAX_DELETION && |dirtyOld| < COPY_THRESHOLD {
        DisjointUnionCommutes(dirtyOld, dirtyNew);
        dirtyNew := CopyInto(dirtyOld, dirtyNew);
        dirtyOld := dirtyNew;
        deletionOld := deletionNew;
        dirtyNew := map[];
        deletionNew := 0;
        UnionWithNothing(dirtyOld);
      }
      assert Valid() && Contents() == old(Contents());
      if deletionNew >= MAX_DELETION && |dirtyNew| < COPY_THRESHOLD {
        dirtyOld := CopyInto(dirtyNew, dirtyOld);
        dirtyNew := map[];
        deletionNew := 0;
        UnionWithNothing(dirtyOld);
      }
    }

    /** A merge loop, in the arbitrary order of a map iteration. */
    static method CopyInto(from: map<K, V>, into: map<K, V>) returns (merged: map<K, V>)
      ensures merged == into + from
    {
      merged := into;
      var rest := from.Keys;
      while rest != {}
        invariant rest <= from.Keys
        invariant merged == into + (from - rest)
      {
        var k :| k in rest;
        merged := merged[k := from[k]];
        rest := rest - {k};
      }
      assert from - rest == from;
    }

    method Get(key: K) returns (r: Option<V>)
      requires Valid()
      ensures r == if key in Contents() then Some(Contents()[key]) else None
    {
      if key in dirtyOld {
        return Some(dirtyOld[key]);
      }
      r := Lookup(dirtyNew, key);
    }

    method Set(key: K, value: V)
      requires Valid()
      modifies this
      ensures Valid() && Contents() == old(Contents())[key := value]
    {
      if deletionOld <= MAX_DELETION {
        if key in dirtyNew {
          dirtyNew := dirtyNew - {key};
          deletionNew := deletionNew + 1;
        }
        dirtyOld := dirtyOld[key := value];
      } else {
        if key in dirtyOld {
          dirtyOld := dirtyOld - {key};
          deletionOld := deletionOld + 1;
        }
        dirtyNew := dirtyNew[key := value];
      }
    }

    method Size() returns (n: nat)
      requires Valid()
      ensures n == |Contents()|
    {
      n := |dirtyOld| + |dirtyNew|;
      assert Contents().Keys == dirtyOld.Keys + dirtyNew.Keys;
    }
  }
}
