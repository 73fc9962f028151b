/** A Python `dict` from text to text as the scrapers build it: an association list in
    insertion order. Assigning to an existing key replaces its value in place, and
    assigning to a new key appends an entry. Key order is what becomes column order. */
module OrderedDict {
  import opened Wrappers

  type Dict = seq<(string, string)>

  /** `list(d.keys())`. */
  function Keys(d: Dict): (ks: seq<string>)
    ensures |ks| == |d|
    ensures forall i :: 0 <= i < |d| ==> ks[i] == d[i].0
  {
    if d == [] then [] else [d[0].0] + Keys(d[1..])
  }

  /** `list(d.values())`, in key order: one row of the table a DataFrame builds. */
  function Values(d: Dict): (vs: seq<string>)
    ensures |vs| == |d|
    ensures forall i :: 0 <= i < |d| ==> vs[i] == d[i].1
  {
    if d == [] then [] else [d[0].1] + Values(d[1..])
  }

  predicate Distinct(ks: seq<string>) {
    forall i, j :: 0 <= i < j < |ks| ==> ks[i] != ks[j]
  }

  /** No key occurs twice: true of every dictionary `Put` builds. */
  predicate UniqueKeys(d: Dict) {
    Distinct(Keys(d))
  }

  /** `d.get(k)`. */
  function Get(d: Dict, k: string): Option<string> {
    if d == [] then None else if d[0].0 == k then Some(d[0].1) else Get(d[1..], k)
  }

  /** A key is found exactly when it is one of the keys. */
  lemma {:induction false} GetFound(d: Dict, k: string)
    ensures Get(d, k).Some? <==> k in Keys(d)
  {
    if d != [] {
      assert Keys(d) == [d[0].0] + Keys(d[1..]);
      GetFound(d[1..], k);
    }
  }

  /** `d[k] = v`: the entry for `k` gets the new value where it stands, or a new entry is
      added at the end when there is none (see `PutSpec`). */
  function Put(d: Dict, k: string, v: string): Dict {
    if d == [] then [(k, v)]
    else if d[0].0 == k then [(k, v)] + d[1..]
    else [d[0]] + Put(d[1..], k, v)
  }

  /** After `d[k] = v`, `k` maps to `v` and every other key keeps its value; the key order
      is unchanged when `k` was present, and gains `k` at the end otherwise. */
  lemma {:induction false} PutSpec(d: Dict, k: string, v: string)
    ensures Get(Put(d, k, v), k) == Some(v)
    ensures forall j :: j != k ==> Get(Put(d, k, v), j) == Get(d, j)
    ensures Keys(Put(d, k, v)) == if k in Keys(d) then Keys(d) else Keys(d) + [k]
  {
    var r := Put(d, k, v);
    if d == [] {
    } else if d[0].0 == k {
      assert r[1..] == d[1..];
      assert Keys(r) == Keys(d);
    } else {
      PutSpec(d[1..], k, v);
      var rest := Put(d[1..], k, v);
      assert r[1..] == rest;
      assert Keys(d) == [d[0].0] + Keys(d[1..]);
      assert Keys(r) == [d[0].0] + Keys(rest);
      assert (k in Keys(d)) == (k in Keys(d[1..]));
    }
  }

  /** Assignment never repeats a key. */
  lemma PutKeepsUnique(d: Dict, k: string, v: string)
    requires UniqueKeys(d)
    ensures UniqueKeys(Put(d, k, v))
  {
    PutSpec(d, k, v);
  }

  /** Assigning a key that is not yet present appends one entry. */
  lemma {:induction false} PutFresh(d: Dict, k: string, v: string)
    requires k !in Keys(d)
    ensures Put(d, k, v) == d + [(k, v)]
  {
    if d != [] {
      assert k !in Keys(d[1..]);
      PutFresh(d[1..], k, v);
      assert d == [d[0]] + d[1..];
    }
  }

  /** In a dictionary without repeated keys, looking up the key of an entry finds that
      entry's value. */
  lemma {:induction false} GetEntry(d: Dict, i: nat)
    requires UniqueKeys(d) && i < |d|
    ensures Get(d, d[i].0) == Some(d[i].1)
  {
    if i > 0 {
      assert Keys(d)[0] != Keys(d)[i];
      assert UniqueKeys(d[1..]) by {
        forall a, b | 0 <= a < b < |d| - 1 ensures Keys(d[1..])[a] != Keys(d[1..])[b] {
          assert Keys(d)[a + 1] != Keys(d)[b + 1];
        }
      }
      GetEntry(d[1..], i - 1);
    }
  }

  /** `if node: d[key] = value`, for a value that is only there when its node was found. */
  function AssignIf(d: Dict, key: string, value: Option<string>): Dict {
    if value.Some? then Put(d, key, value.value) else d
  }

  /** A conditional assignment sets `key` when the value is there and leaves every other
      lookup alone; it never repeats a key. */
  lemma AssignIfSpec(d: Dict, key: string, value: Option<string>)
    ensures forall j :: Get(AssignIf(d, key, value), j) == if j == key && value.Some? then value else Get(d, j)
    ensures UniqueKeys(d) ==> UniqueKeys(AssignIf(d, key, value))
  {
    if value.Some? {
      PutSpec(d, key, value.value);
      if UniqueKeys(d) {
        PutKeepsUnique(d, key, value.value);
      }
    }
  }

  /** The conditional assignments `keys[i] = values[i]` made in order, starting from `d`. */
  function AssignAll(d: Dict, keys: seq<string>, values: seq<Option<string>>): Dict
    requires |values| == |keys|
    decreases |keys|
  {
    if keys == [] then d else AssignAll(AssignIf(d, keys[0], values[0]), keys[1..], values[1..])
  }

  /** With keys that are all different and not yet in `d`, each key ends up holding its value
      exactly when that value is there, every other key keeps its value from `d`, and no key
      is repeated. */
  lemma {:induction false} AssignAllGet(d: Dict, keys: seq<string>, values: seq<Option<string>>)
    requires |values| == |keys| && Distinct(keys) && UniqueKeys(d)
    requires forall i :: 0 <= i < |keys| ==> Get(d, keys[i]) == None
    ensures UniqueKeys(AssignAll(d, keys, values))
    ensures forall i :: 0 <= i < |keys| ==> Get(AssignAll(d, keys, values), keys[i]) == values[i]
    ensures forall k :: k !in keys ==> Get(AssignAll(d, keys, values), k) == Get(d, k)
    decreases |keys|
  {
    if keys != [] {
      var next := AssignIf(d, keys[0], values[0]);
      AssignIfSpec(d, keys[0], values[0]);
      assert forall i :: 0 <= i < |keys| - 1 ==> keys[1..][i] == keys[i + 1] && keys[i + 1] != keys[0];
      AssignAllGet(next, keys[1..], values[1..]);
      forall i | 0 <= i < |keys|
        ensures Get(AssignAll(d, keys, values), keys[i]) == values[i]
      {
        if i > 0 {
          assert keys[i] == keys[1..][i - 1];
          assert values[i] == values[1..][i - 1];
        } else {
          assert keys[0] !in keys[1..];
        }
      }
    }
  }
}
