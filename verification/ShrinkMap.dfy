/** A map in two generations: deletions are counted, and when a generation has seen enough of
    them and is small, its entries move so that its storage can be dropped. */
module ShrinkMap {
  import opened Bits

  const COPY_THRESHOLD: nat := 1000
  const MAX_DELETION: nat := 10000

  // ----- the two generations as values -----

  datatype State<K, V> = State(older: map<K, V>, newer: map<K, V>, deletionOld: nat, deletionNew: nat) {

    /** The one map that the two generations stand for. */
    ghost function Contents(): map<K, V> {
      older + newer
    }

    ghost predicate Disjoint() {
      older.Keys !! newer.Keys
    }

    /** What holds in every state that `Set` and `Del` can reach: the new generation is used only
        once the old one has seen more than the maximum of deletions, and once the new one has
        seen the maximum it is not small. */
    ghost predicate Reachable() {
      && Disjoint()
      && (newer != map[] ==> deletionOld > MAX_DELETION)
      && (deletionNew >= MAX_DELETION ==> |newer| >= COPY_THRESHOLD)
    }

    /** `Set`. */
    ghost function Set(key: K, value: V): State<K, V> {
      if deletionOld <= MAX_DELETION then
        State(older[key := value], newer - {key}, deletionOld, if key in newer then deletionNew + 1 else deletionNew)
      else
        State(older - {key}, newer[key := value], if key in older then deletionOld + 1 else deletionOld, deletionNew)
    }

    /** The first half of `Del`: the entry goes and its generation counts it. */
    ghost function Drop(key: K): State<K, V> {
      if key in older then State(older - {key}, newer, deletionOld + 1, deletionNew)
      else if key in newer then State(older, newer - {key}, deletionOld, deletionNew + 1)
      else this
    }

    /** The old generation moves into the new one, which takes its place. */
    ghost function MigrateOld(): State<K, V> {
      if deletionOld >= MAX_DELETION && |older| < COPY_THRESHOLD
      then State(newer + older, map[], deletionNew, 0) else this
    }

    /** The new generation moves into the old one. */
    ghost function MigrateNew(): State<K, V> {
      if deletionNew >= MAX_DELETION && |newer| < COPY_THRESHOLD
      then State(older + newer, map[], deletionOld, 0) else this
    }

    /** `Del`. */
    ghost function Del(key: K): State<K, V> {
      Drop(key).MigrateOld().MigrateNew()
    }
  }

  lemma DisjointUnionCommutes<K, V>(a: map<K, V>, b: map<K, V>)
    requires a.Keys !! b.Keys
    ensures a + b == b + a
  {
  }

  /** Moving entries between generations leaves the map alone. */
  lemma MigrationsKeepContents<K, V>(s: State<K, V>)
    requires s.Disjoint()
    ensures s.MigrateOld().Disjoint() && s.MigrateOld().Contents() == s.Contents()
    ensures s.MigrateNew().Disjoint() && s.MigrateNew().Contents() == s.Contents()
  {
    DisjointUnionCommutes(s.older, s.newer);
    EmptyUnion(s.newer + s.older);
  }

  lemma EmptyUnion<K, V>(a: map<K, V>)
    ensures a + map[] == a
  {
  }

  lemma SetIsUpdate<K, V>(s: State<K, V>, key: K, value: V)
    requires s.Disjoint()
    ensures s.Set(key, value).Disjoint()
    ensures s.Set(key, value).Contents() == s.Contents()[key := value]
  {
  }

  lemma DelIsRemove<K, V>(s: State<K, V>, key: K)
    requires s.Disjoint()
    ensures s.Del(key).Disjoint()
    ensures s.Del(key).Contents() == s.Contents() - {key}
  {
    var d := s.Drop(key);
    assert d.Contents() == s.Contents() - {key};
    MigrationsKeepContents(d);
    MigrationsKeepContents(d.MigrateOld());
  }

  lemma SetKeepsReachable<K, V>(s: State<K, V>, key: K, value: V)
    requires s.Reachable()
    ensures s.Set(key, value).Reachable()
    ensures s.deletionOld <= MAX_DELETION ==> key !in s.newer && s.Set(key, value).deletionNew == s.deletionNew
  {
  }

  lemma DelKeepsReachable<K, V>(s: State<K, V>, key: K)
    requires s.Reachable()
    ensures s.Del(key).Reachable()
  {
  }

  // ----- every sequence of operations -----

  datatype Op<K, V> = SetOp(key: K, value: V) | DelOp(key: K)

  /** After a deletion no generation that has seen 10000 deletions holds fewer than 1000 entries, and a
      deletion that moves nothing only removes its key. */
  lemma DelShrinks<K, V>(s: State<K, V>, key: K)
    requires s.Reachable()
    ensures s.Del(key).deletionOld >= 10000 ==> |s.Del(key).older| >= 1000 || s.Del(key).newer == map[]
    ensures s.Del(key).deletionNew >= 10000 ==> |s.Del(key).newer| >= 1000
    ensures (key !in s.older || s.deletionOld + 1 < 10000) && (key in s.older || s.deletionOld < 10000)
            && (key !in s.newer || s.deletionNew + 1 < 10000) && s.deletionNew < 10000
            ==> s.Del(key).older == s.older - {key} && s.Del(key).newer == s.newer - {key}
  {
  }

  ghost function Run<K, V>(ops: seq<Op<K, V>>): State<K, V> {
    if ops == [] then State(map[], map[], 0, 0)
    else
      var s := Run(ops[..|ops| - 1]);
      match ops[|ops| - 1]
      case SetOp(k, v) => s.Set(k, v)
      case DelOp(k) => s.Del(k)
  }

  ghost function RunPlain<K, V>(ops: seq<Op<K, V>>): map<K, V> {
    if ops == [] then map[]
    else
      var m := RunPlain(ops[..|ops| - 1]);
      match ops[|ops| - 1]
      case SetOp(k, v) => m[k := v]
      case DelOp(k) => m - {k}
  }

  /** After any sequence of `Set` and `Del`, the two generations hold exactly what one plain map
      would, share no key, and satisfy the reachability invariant. */
  lemma {:induction false} RunRefinesMap<K, V>(ops: seq<Op<K, V>>)
    ensures Run(ops).Contents() == RunPlain(ops) && Run(ops).Reachable()
    ensures |Run(ops).older| + |Run(ops).newer| == |RunPlain(ops)|
    decreases |ops|
  {
    var s := Run(ops);
    if ops != [] {
      var prev := ops[..|ops| - 1];
      RunRefinesMap(prev);
      match ops[|ops| - 1]
      case SetOp(k, v) =>
        SetIsUpdate(Run(prev), k, v);
        SetKeepsReachable(Run(prev), k, v);
      case DelOp(k) =>
        DelIsRemove(Run(prev), k);
        DelKeepsReachable(Run(prev), k);
    }
    assert s.Contents().Keys == s.older.Keys + s.newer.Keys;
    assert |s.older.Keys + s.newer.Keys| == |s.older.Keys| + |s.newer.Keys|;
  }

  /** The clean-up of the new generation inside `Set` never fires: whenever the old generation is
      written, the new one is empty. */
  lemma {:induction false} CleanUpNeverFires<K, V>(ops: seq<Op<K, V>>, key: K)
    ensures Run(ops).deletionOld <= MAX_DELETION ==> Run(ops).newer == map[] && key !in Run(ops).newer
  {
    RunRefinesMap(ops);
  }

  // ----- the map itself, with its generations on the heap -----

  /** A Go map: a reference to entries that are updated in place. */
  class Dict<K(==), V> {
    var entries: map<K, V>

    constructor ()
      ensures entries == map[]
    {
      entries := map[];
    }
  }

  /** `for k, v := range from { to[k] = v }`, in whatever order the keys come. */
  method CopyAll<K(==), V>(from: Dict<K, V>, to: Dict<K, V>)
    requires from != to
    modifies to
    ensures to.entries == old(to.entries) + from.entries
  {
    var rest := from.entries.Keys;
    while rest != {}
      invariant rest <= from.entries.Keys
      invariant to.entries == old(to.entries) + (from.entries - rest)
      decreases rest
    {
      var k :| k in rest;
      to.entries := to.entries[k := from.entries[k]];
      rest := rest - {k};
    }
    assert from.entries - {} == from.entries;
  }

  /** Appends the keys of one generation, each once. */
  method AppendKeys<K(==), V>(from: Dict<K, V>, before: seq<K>) returns (keys: seq<K>)
    requires forall k :: k in before ==> k !in from.entries
    requires forall i, j :: 0 <= i < j < |before| ==> before[i] != before[j]
    ensures forall i, j :: 0 <= i < j < |keys| ==> keys[i] != keys[j]
    ensures forall k :: k in keys <==> k in before || k in from.entries
    ensures |keys| == |before| + |from.entries|
  {
    keys := before;
    var rest := from.entries.Keys;
    while rest != {}
      invariant rest <= from.entries.Keys && |keys| + |rest| == |before| + |from.entries|
      invariant forall k :: k in keys <==> k in before || (k in from.entries && k !in rest)
      invariant forall i, j :: 0 <= i < j < |keys| ==> keys[i] != keys[j]
      decreases rest
    {
      var k :| k in rest;
      assert k !in keys;
      keys := keys + [k];
      rest := rest - {k};
    }
  }

  ghost predicate DistinctKeys<K, V>(calls: seq<(K, V)>) {
    forall i, j :: 0 <= i < j < |calls| ==> calls[i].0 != calls[j].0
  }

  /** Calls back for the entries of one generation, each once. */
  method AppendCalls<K(==), V>(from: Dict<K, V>, before: seq<(K, V)>) returns (calls: seq<(K, V)>)
    requires forall k, v :: (k, v) in before ==> k !in from.entries
    requires DistinctKeys(before)
    ensures DistinctKeys(calls)
    ensures forall k, v :: (k, v) in calls <==> (k, v) in before || (k in from.entries && v == from.entries[k])
  {
    calls := before;
    var rest := from.entries.Keys;
    while rest != {}
      invariant rest <= from.entries.Keys && DistinctKeys(calls)
      invariant forall k, v :: (k, v) in calls
                  <==> (k, v) in before || (k in from.entries && k !in rest && v == from.entries[k])
      decreases rest
    {
      var k :| k in rest;
      assert forall i :: 0 <= i < |calls| ==> calls[i].0 != k by {
        forall i | 0 <= i < |calls|
          ensures calls[i].0 != k
        {
          assert (calls[i].0, calls[i].1) in calls;
        }
      }
      calls := calls + [(k, from.entries[k])];
      rest := rest - {k};
    }
  }

  class ShrinkableMap<K(==), V> {
    var deletionOld: nat
    var deletionNew: nat
    var dirtyOld: Dict<K, V>
    var dirtyNew: Dict<K, V>

    ghost function Val(): State<K, V>
      reads this, dirtyOld, dirtyNew
    {
      State(dirtyOld.entries, dirtyNew.entries, deletionOld, deletionNew)
    }

    /** The two generations are separate objects with no common key. */
    ghost predicate Valid()
      reads this, dirtyOld, dirtyNew
    {
      dirtyOld != dirtyNew && Val().Disjoint()
    }

    constructor ()
      ensures Valid() && fresh(dirtyOld) && fresh(dirtyNew)
      ensures Val() == Run<K, V>([])
    {
      dirtyOld := new Dict();
      dirtyNew := new Dict();
      deletionOld, deletionNew := 0, 0;
    }

    method Set(key: K, value: V)
      requires Valid()
      modifies this`deletionOld, this`deletionNew, dirtyOld, dirtyNew
      ensures Valid() && Val() == old(Val()).Set(key, value)
      ensures Val().Contents() == old(Val()).Contents()[key := value]
    {
      SetIsUpdate(Val(), key, value);
      if deletionOld <= MAX_DELETION {
        if key in dirtyNew.entries {
          dirtyNew.entries := dirtyNew.entries - {key};
          deletionNew := deletionNew + 1;
        }
        dirtyOld.entries := dirtyOld.entries[key := value];
      } else {
        if key in dirtyOld.entries {
          dirtyOld.entries := dirtyOld.entries - {key};
          deletionOld := deletionOld + 1;
        }
        dirtyNew.entries := dirtyNew.entries[key := value];
      }
    }

    /** Moves the old generation into the new one, which becomes the old one. */
    method MigrateOld()
      requires Valid()
      modifies this, dirtyNew
      ensures Valid() && Val() == old(Val()).MigrateOld()
      ensures fresh({dirtyOld, dirtyNew} - old({dirtyOld, dirtyNew}))
    {
      if deletionOld >= MAX_DELETION && |dirtyOld.entries| < COPY_THRESHOLD {
        CopyAll(dirtyOld, dirtyNew);
        dirtyOld := dirtyNew;
        deletionOld := deletionNew;
        dirtyNew := new Dict();
        deletionNew := 0;
      }
    }

    /** Moves the new generation into the old one. */
    method MigrateNew()
      requires Valid()
      modifies this, dirtyOld
      ensures Valid() && Val() == old(Val()).MigrateNew()
      ensures fresh({dirtyOld, dirtyNew} - old({dirtyOld, dirtyNew}))
    {
      if deletionNew >= MAX_DELETION && |dirtyNew.entries| < COPY_THRESHOLD {
        CopyAll(dirtyNew, dirtyOld);
        dirtyNew := new Dict();
        deletionNew := 0;
      }
    }

    /** Removes the entry from the generation that holds it, which counts the deletion. */
    method Drop(key: K)
      requires Valid()
      modifies this`deletionOld, this`deletionNew, dirtyOld, dirtyNew
      ensures Valid() && Val() == old(Val()).Drop(key)
    {
      if key in dirtyOld.entries {
        dirtyOld.entries := dirtyOld.entries - {key};
        deletionOld := deletionOld + 1;
      } else if key in dirtyNew.entries {
        dirtyNew.entries := dirtyNew.entries - {key};
        deletionNew := deletionNew + 1;
      }
    }

    method Del(key: K)
      requires Valid()
      modifies this, dirtyOld, dirtyNew
      ensures Valid() && fresh({dirtyOld, dirtyNew} - old({dirtyOld, dirtyNew}))
      ensures Val() == old(Val()).Del(key)
    {
      Drop(key);
      MigrateOld();
      MigrateNew();
    }

    method Get(key: K) returns (r: Option<V>)
      requires Valid()
      ensures r == if key in Val().Contents() then Some(Val().Contents()[key]) else None
    {
      if key in dirtyOld.entries {
        return Some(dirtyOld.entries[key]);
      }
      return if key in dirtyNew.entries then Some(dirtyNew.entries[key]) else None;
    }

    /** The calls made to the callback: every entry once, in some order. */
    method IterateCallback() returns (calls: seq<(K, V)>)
      requires Valid()
      ensures DistinctKeys(calls)
      ensures forall k, v :: (k, v) in calls <==> k in Val().Contents() && v == Val().Contents()[k]
    {
      calls := AppendCalls(dirtyOld, []);
      calls := AppendCalls(dirtyNew, calls);
    }

    /** Every key once, in some order. */
    method AllKeys() returns (keys: seq<K>)
      requires Valid()
      ensures forall i, j :: 0 <= i < j < |keys| ==> keys[i] != keys[j]
      ensures forall k :: k in keys <==> k in Val().Contents()
      ensures |keys| == |Val().Contents()|
    {
      keys := AppendKeys(dirtyOld, []);
      keys := AppendKeys(dirtyNew, keys);
      assert Val().Contents().Keys == dirtyOld.entries.Keys + dirtyNew.entries.Keys;
    }

    method Size() returns (n: nat)
      requires Valid()
      ensures n == |Val().Contents()|
    {
      n := |dirtyOld.entries| + |dirtyNew.entries|;
      assert Val().Contents().Keys == dirtyOld.entries.Keys + dirtyNew.entries.Keys;
    }
  }
}
