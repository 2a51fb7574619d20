/** PHP arrays with string keys, as the readme parser and the metadata normaliser use
    them: an insertion-ordered list of key/value pairs. */
module OrderedMaps {
  import opened PhpStrings

  type Entries = seq<(string, string)>

  /** array_keys($m) */
  function KeysOf(m: Entries): (ks: seq<string>)
    ensures |ks| == |m|
    decreases |m|
  {
    if m == [] then [] else [m[0].0] + KeysOf(m[1..])
  }

  lemma {:induction false} KeysOfIndex(m: Entries, i: nat)
    requires i < |m|
    ensures KeysOf(m)[i] == m[i].0
    decreases |m|
  {
    if i > 0 {
      KeysOfIndex(m[1..], i - 1);
    }
  }

  lemma {:induction false} KeysOfSnoc(m: Entries)
    requires m != []
    ensures KeysOf(m) == KeysOf(m[..|m| - 1]) + [m[|m| - 1].0]
  {
    assert m[..|m| - 1] + [m[|m| - 1]] == m;
    KeysOfAppend(m[..|m| - 1], [m[|m| - 1]]);
    assert KeysOf([m[|m| - 1]]) == [m[|m| - 1].0];
  }

  lemma {:induction false} KeysOfAppend(a: Entries, b: Entries)
    ensures KeysOf(a + b) == KeysOf(a) + KeysOf(b)
    decreases |a|
  {
    if a != [] {
      KeysOfAppend(a[1..], b);
      assert (a + b)[1..] == a[1..] + b;
    } else {
      assert a + b == b;
    }
  }

  predicate DistinctKeys(m: Entries) {
    forall i, j :: 0 <= i < j < |m| ==> m[i].0 != m[j].0
  }

  /** $m[$k], when the key is set. */
  function Lookup(m: Entries, k: string): (r: Option<string>)
    ensures r.Some? <==> k in KeysOf(m)
    decreases |m|
  {
    if m == [] then None
    else if m[0].0 == k then Some(m[0].1)
    else
      assert KeysOf(m) == [m[0].0] + KeysOf(m[1..]);
      Lookup(m[1..], k)
  }

  /** `$m[$k] = $v`: a key already present keeps its position and takes the new value,
      a new key is appended. */
  function Put(m: Entries, k: string, v: string): Entries
    decreases |m|
  {
    if m == [] then [(k, v)]
    else if m[0].0 == k then [(k, v)] + m[1..]
    else [m[0]] + Put(m[1..], k, v)
  }

  /** `$m[$k] = $v` keeps the key order when `k` is present and appends `k` otherwise. */
  lemma {:induction false} PutKeys(m: Entries, k: string, v: string)
    ensures KeysOf(Put(m, k, v)) == if k in KeysOf(m) then KeysOf(m) else KeysOf(m) + [k]
    decreases |m|
  {
    if m != [] {
      var ks := KeysOf(m);
      assert ks == [m[0].0] + KeysOf(m[1..]);
      if m[0].0 != k {
        PutKeys(m[1..], k, v);
        var r := Put(m, k, v);
        assert r == [m[0]] + Put(m[1..], k, v);
        assert KeysOf(r) == [m[0].0] + KeysOf(Put(m[1..], k, v));
        assert k in ks <==> k in KeysOf(m[1..]);
      }
    }
  }

  /** After `$m[$k] = $v`, `$m[$k]` is `v` and every other key holds what it held. */
  lemma {:induction false} PutLookup(m: Entries, k: string, v: string, k': string)
    ensures Lookup(Put(m, k, v), k') == if k' == k then Some(v) else Lookup(m, k')
    decreases |m|
  {
    if m != [] && m[0].0 != k {
      PutLookup(m[1..], k, v, k');
      var r := Put(m, k, v);
      assert r[0] == m[0] && r[1..] == Put(m[1..], k, v);
    }
  }

  /** The foreach of `$m[$k] = $v` over `ps`, in order. */
  function PutAll(m: Entries, ps: Entries): Entries
    decreases |ps|
  {
    if ps == [] then m
    else Put(PutAll(m, ps[..|ps| - 1]), ps[|ps| - 1].0, ps[|ps| - 1].1)
  }

  /** `ks` without repetitions, each kept at its first position. */
  function Dedup(ks: seq<string>): (r: seq<string>)
    ensures forall k :: k in r <==> k in ks
    ensures forall i, j :: 0 <= i < j < |r| ==> r[i] != r[j]
    decreases |ks|
  {
    if ks == [] then []
    else
      var r := Dedup(ks[..|ks| - 1]);
      assert ks == ks[..|ks| - 1] + [ks[|ks| - 1]];
      if ks[|ks| - 1] in r then r else r + [ks[|ks| - 1]]
  }

  /** The value of the last pair of `ps` whose key is `k`. */
  function LastValue(ps: Entries, k: string): (r: Option<string>)
    ensures r.None? <==> k !in KeysOf(ps)
    ensures forall i :: 0 <= i < |ps| && ps[i].0 == k && (forall j :: i < j < |ps| ==> ps[j].0 != k) ==>
              r == Some(ps[i].1)
    decreases |ps|
  {
    if ps == [] then None
    else if ps[|ps| - 1].0 == k then KeysOfSnoc(ps); Some(ps[|ps| - 1].1)
    else
      KeysOfSnoc(ps);
      LastValue(ps[..|ps| - 1], k)
  }

  /** Assigning the pairs `ps` one after another to an empty array leaves each distinct
      key once, at the position where it first appeared. */
  lemma {:induction false} PutAllKeys(ps: Entries)
    ensures KeysOf(PutAll([], ps)) == Dedup(KeysOf(ps))
    decreases |ps|
  {
    if ps != [] {
      var init := ps[..|ps| - 1];
      PutAllKeys(init);
      PutKeys(PutAll([], init), ps[|ps| - 1].0, ps[|ps| - 1].1);
      KeysOfSnoc(ps);
      assert KeysOf(ps)[..|ps| - 1] == KeysOf(init);
    }
  }

  /** ... and each key holds the value of the last pair that named it. */
  lemma {:induction false} PutAllLookup(m: Entries, ps: Entries, k: string)
    ensures Lookup(PutAll(m, ps), k) == if k in KeysOf(ps) then LastValue(ps, k) else Lookup(m, k)
    decreases |ps|
  {
    if ps != [] {
      var init := ps[..|ps| - 1];
      PutAllLookup(m, init, k);
      PutLookup(PutAll(m, init), ps[|ps| - 1].0, ps[|ps| - 1].1, k);
      KeysOfSnoc(ps);
    }
  }

  /** The keys of an array built by assignments are distinct. */
  lemma {:induction false} PutAllDistinct(ps: Entries)
    ensures DistinctKeys(PutAll([], ps))
  {
    PutAllKeys(ps);
    var r := PutAll([], ps);
    forall i, j | 0 <= i < j < |r| ensures r[i].0 != r[j].0 {
      KeysOfIndex(r, i);
      KeysOfIndex(r, j);
    }
  }

  /** array_map($f, $m): the same keys in the same order, each value passed through `f`. */
  function MapValues(m: Entries, f: string -> string): (r: Entries)
    ensures KeysOf(r) == KeysOf(m)
    decreases |m|
  {
    if m == [] then [] else [(m[0].0, f(m[0].1))] + MapValues(m[1..], f)
  }

  /** Looking a key up after array_map() gives the mapped value of the original. */
  lemma {:induction false} MapValuesLookup(m: Entries, f: string -> string, k: string)
    ensures Lookup(MapValues(m, f), k) == match Lookup(m, k) case Some(v) => Some(f(v)) case None => None
    decreases |m|
  {
    if m != [] {
      MapValuesLookup(m[1..], f, k);
      assert MapValues(m, f)[1..] == MapValues(m[1..], f);
    }
  }
}
