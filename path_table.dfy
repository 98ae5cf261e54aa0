/** The path table of the JSON indexer: a JavaScript `Map` from dotted path
    to stored entry. Such a map remembers the order in which keys were first
    inserted; writing an existing key replaces its entry but keeps its place. */
module PathTable {
  import opened Wrappers

  /** `keys` is the insertion order, `entries` the stored values. */
  datatype Table<V> = Table(keys: seq<string>, entries: map<string, V>)

  /** Every key is listed exactly once, and exactly the stored keys are listed. */
  ghost predicate Valid<V>(t: Table<V>) {
    (forall i, j :: 0 <= i < j < |t.keys| ==> t.keys[i] != t.keys[j]) &&
    (forall k :: k in t.entries <==> k in t.keys)
  }

  /** `new Map()`, and the table after `clear()`. */
  function Empty<V>(): (t: Table<V>)
    ensures Valid(t) && t.keys == []
    ensures forall k :: Get(t, k).None?
  {
    Table([], map[])
  }

  /** `map.set(k, v)`. */
  function Put<V>(t: Table<V>, k: string, v: V): Table<V> {
    Table(if k in t.entries then t.keys else t.keys + [k], t.entries[k := v])
  }

  /** `map.get(k)`, with `undefined` as `None`. */
  function Get<V>(t: Table<V>, k: string): Option<V> {
    if k in t.entries then Some(t.entries[k]) else None
  }

  /** The table after the writes `ws`, performed in order. */
  function PutAll<V>(t: Table<V>, ws: seq<(string, V)>): Table<V>
    decreases |ws|
  {
    if ws == [] then t else PutAll(Put(t, ws[0].0, ws[0].1), ws[1..])
  }

  /** The value of the last write to `k` in `ws`, if there is one. */
  function LastWrite<V>(ws: seq<(string, V)>, k: string): (r: Option<V>)
    ensures r.Some? <==> exists i :: 0 <= i < |ws| && ws[i].0 == k
    ensures r.Some? ==> (k, r.value) in ws
    decreases |ws|
  {
    if ws == [] then None
    else if ws[|ws| - 1].0 == k then Some(ws[|ws| - 1].1)
    else
      var r := LastWrite(ws[..|ws| - 1], k);
      assert forall i :: 0 <= i < |ws| - 1 ==> ws[..|ws| - 1][i] == ws[i];
      r
  }

  /** The keys written by `ws` that are not in `seen`, in order of their first
      write, each once. */
  function NewKeys<V>(ws: seq<(string, V)>, seen: seq<string>): seq<string>
    decreases |ws|
  {
    if ws == [] then []
    else if ws[0].0 in seen then NewKeys(ws[1..], seen)
    else [ws[0].0] + NewKeys(ws[1..], seen + [ws[0].0])
  }

  /** A write keeps the table well formed. */
  lemma PutValid<V>(t: Table<V>, k: string, v: V)
    requires Valid(t)
    ensures Valid(Put(t, k, v))
  {
  }

  /** The last write to a key wins; other keys are untouched. */
  lemma GetPut<V>(t: Table<V>, k: string, v: V, k': string)
    ensures Get(Put(t, k, v), k') == if k' == k then Some(v) else Get(t, k')
  {
  }

  /** A listed key has an entry. */
  lemma GetListed<V>(t: Table<V>, k: string)
    requires Valid(t)
    ensures Get(t, k).Some? <==> k in t.keys
  {
  }

  lemma {:induction false} PutAllValid<V>(t: Table<V>, ws: seq<(string, V)>)
    requires Valid(t)
    ensures Valid(PutAll(t, ws))
    decreases |ws|
  {
    if ws != [] {
      PutValid(t, ws[0].0, ws[0].1);
      PutAllValid(Put(t, ws[0].0, ws[0].1), ws[1..]);
    }
  }

  /** Writing `a` and then `b` is writing `a + b`. */
  lemma {:induction false} PutAllAppend<V>(t: Table<V>, a: seq<(string, V)>, b: seq<(string, V)>)
    ensures PutAll(t, a + b) == PutAll(PutAll(t, a), b)
    decreases |a|
  {
    if a != [] {
      assert (a + b)[0] == a[0] && (a + b)[1..] == a[1..] + b;
      PutAllAppend(Put(t, a[0].0, a[0].1), a[1..], b);
    } else {
      assert a + b == b;
    }
  }

  /** After a series of writes, a key holds the value of its last write, or
      its old value when the series never wrote it. */
  lemma {:induction false} GetPutAll<V>(t: Table<V>, ws: seq<(string, V)>, k: string)
    ensures Get(PutAll(t, ws), k) == if LastWrite(ws, k).Some? then LastWrite(ws, k) else Get(t, k)
    decreases |ws|
  {
    if ws != [] {
      var init := ws[..|ws| - 1];
      var last := ws[|ws| - 1];
      assert ws == init + [last];
      PutAllAppend(t, init, [last]);
      GetPutAll(t, init, k);
      assert [last][1..] == [];
      GetPut(PutAll(t, init), last.0, last.1, k);
    }
  }

  /** After a series of writes, the listed keys are the old ones followed by
      the newly written keys in order of their first write. */
  lemma {:induction false} KeysPutAll<V>(t: Table<V>, ws: seq<(string, V)>)
    requires Valid(t)
    ensures PutAll(t, ws).keys == t.keys + NewKeys(ws, t.keys)
    decreases |ws|
  {
    if ws != [] {
      var k := ws[0].0;
      var t' := Put(t, k, ws[0].1);
      PutValid(t, k, ws[0].1);
      KeysPutAll(t', ws[1..]);
      assert PutAll(t, ws) == PutAll(t', ws[1..]);
      if k in t.keys {
        assert t'.keys == t.keys;
      } else {
        var rest := NewKeys(ws[1..], t.keys + [k]);
        assert t'.keys == t.keys + [k];
        assert NewKeys(ws, t.keys) == [k] + rest;
        assert t.keys + ([k] + rest) == t.keys + [k] + rest;
      }
    }
  }
}
