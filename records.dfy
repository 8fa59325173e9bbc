/** Python dicts as the pipeline builds them: an insertion order over distinct
    keys together with the value stored under each key. */
module Records {
  import opened Wrappers

  /** A value held in a result record: Python's `None` or a string. */
  datatype Cell = Null | Str(s: string)

  predicate Distinct(s: seq<string>)
  {
    forall i, j :: 0 <= i < j < |s| ==> s[i] != s[j]
  }

  /** An insertion-ordered dict: `keys` is `list(d)`, `values` maps each key to
      `d[key]`. */
  datatype Dict = Dict(keys: seq<string>, values: map<string, Cell>)
  {
    /** What every Python dict satisfies: each key once, and a value for
        exactly the listed keys. */
    ghost predicate Valid()
    {
      Distinct(keys) && forall k :: k in values <==> k in keys
    }

    /** `d.get(k)`, with a missing key as None. */
    function Get(k: string): Option<Cell>
    {
      if k in values then Some(values[k]) else None
    }
  }

  /** A Python dict: a Dict that is Valid. */
  type PyDict = d: Dict | d.Valid() witness Dict([], map[])

  /** `d[k] = v`: an existing key keeps its position and takes the new value; a
      new key is appended at the end. */
  function Put(d: Dict, k: string, v: Cell): (r: Dict)
    requires d.Valid()
    ensures r.Valid()
    ensures r.values == d.values[k := v]
    ensures r.keys == if k in d.values then d.keys else d.keys + [k]
  {
    if k in d.values then Dict(d.keys, d.values[k := v])
    else Dict(d.keys + [k], d.values[k := v])
  }

  /** `{**d, **e}`: the entries of `e`, in `e`'s order, stored into `d`. */
  function Merge(d: Dict, e: Dict): (r: Dict)
    requires d.Valid() && e.Valid()
    ensures r.Valid()
  {
    StoreAll(d, e.keys, e.values)
  }

  /** Stores `vals[k]` under `k` into `d` for each `k` of `ks` in turn. */
  function StoreAll(d: Dict, ks: seq<string>, vals: map<string, Cell>): (r: Dict)
    requires d.Valid() && forall k :: k in ks ==> k in vals
    ensures r.Valid()
  {
    if ks == [] then d
    else
      var k := ks[|ks| - 1];
      Put(StoreAll(d, ks[..|ks| - 1], vals), k, vals[k])
  }

  /** The keys of `ks` that `d` does not have yet, in their order in `ks`. */
  function NewKeys(d: Dict, ks: seq<string>): seq<string>
  {
    if ks == [] then []
    else
      var k := ks[|ks| - 1];
      NewKeys(d, ks[..|ks| - 1]) + if k in d.values then [] else [k]
  }

  lemma DistinctPrefix(s: seq<string>)
    requires Distinct(s) && s != []
    ensures Distinct(s[..|s| - 1]) && s[|s| - 1] !in s[..|s| - 1]
  {
    var p := s[..|s| - 1];
    forall i | 0 <= i < |p| ensures p[i] != s[|s| - 1] {
      assert p[i] == s[i];
    }
  }

  /** Storing keys one after another: the values are those of `d` overridden
      by the stored ones. */
  lemma {:induction false} StoreAllValues(d: Dict, ks: seq<string>, vals: map<string, Cell>)
    requires d.Valid() && forall k :: k in ks ==> k in vals
    ensures var r := StoreAll(d, ks, vals).values;
      && (forall x :: x in r <==> x in d.values || x in ks)
      && (forall x :: x in ks ==> r[x] == vals[x])
      && (forall x :: x in d.values && x !in ks ==> r[x] == d.values[x])
    decreases |ks|
  {
    if ks != [] {
      var ks' := ks[..|ks| - 1];
      assert ks == ks' + [ks[|ks| - 1]];
      StoreAllValues(d, ks', vals);
    }
  }

  /** Storing distinct keys one after another: the keys of `d` keep their
      positions and the new keys follow in the order they were stored. */
  lemma {:induction false} StoreAllKeys(d: Dict, ks: seq<string>, vals: map<string, Cell>)
    requires d.Valid() && Distinct(ks) && forall k :: k in ks ==> k in vals
    ensures StoreAll(d, ks, vals).keys == d.keys + NewKeys(d, ks)
    decreases |ks|
  {
    if ks != [] {
      var ks' := ks[..|ks| - 1];
      var k := ks[|ks| - 1];
      DistinctPrefix(ks);
      StoreAllKeys(d, ks', vals);
      StoreAllValues(d, ks', vals);
      var prev := StoreAll(d, ks', vals);
      assert k in prev.values <==> k in d.values;
    }
  }

  /** Python's merge semantics for values: a key of `e` holds its value in
      `e`, any other key its value in `d`. */
  lemma MergeValues(d: Dict, e: Dict)
    requires d.Valid() && e.Valid()
    ensures Merge(d, e).values == d.values + e.values
  {
    StoreAllValues(d, e.keys, e.values);
    var r := Merge(d, e).values;
    var u := d.values + e.values;
    forall x ensures x in r <==> x in u {
      assert x in e.keys <==> x in e.values;
    }
    forall x | x in r ensures r[x] == u[x] {
      assert x in e.keys <==> x in e.values;
    }
  }

  /** Python's merge semantics for the order: the keys of `d` come first in
      their order, then the keys only `e` has, in `e`'s order. */
  lemma MergeKeys(d: Dict, e: Dict)
    requires d.Valid() && e.Valid()
    ensures Merge(d, e).keys == d.keys + NewKeys(d, e.keys)
  {
    StoreAllKeys(d, e.keys, e.values);
  }

  /** When `d` and `e` share no key, the new keys are all of `e`'s. */
  lemma {:induction false} NewKeysDisjoint(d: Dict, ks: seq<string>)
    requires forall k :: k in ks ==> k !in d.values
    ensures NewKeys(d, ks) == ks
    decreases |ks|
  {
    if ks != [] {
      NewKeysDisjoint(d, ks[..|ks| - 1]);
      assert ks == ks[..|ks| - 1] + [ks[|ks| - 1]];
    }
  }
}
