/**
  Python's built-in `dict`: a finite map that remembers the order in which
  its keys were first inserted. Assigning to a key that is already present
  replaces its value and keeps its place; a new key goes to the end.
*/
module OrderedDict {

  /** The keys in insertion order, and the value bound to each. */
  datatype Dict<K, V> = Dict(keys: seq<K>, vals: map<K, V>) {

    /** The keys are listed once each, and they are exactly the keys bound in `vals`. */
    ghost predicate Valid() {
      && NoDups(keys)
      && (forall k | k in vals :: k in keys)
      && (forall i | 0 <= i < |keys| :: keys[i] in vals)
    }
  }

  /** No element of `ks` occurs twice. */
  ghost predicate NoDups<K>(ks: seq<K>) {
    |ks| == 0 || (ks[0] !in ks[1..] && NoDups(ks[1..]))
  }

  lemma {:induction false} NoDupsSnoc<K>(ks: seq<K>, k: K)
    requires NoDups(ks) && k !in ks
    ensures NoDups(ks + [k])
  {
    if |ks| > 0 {
      assert (ks + [k])[1..] == ks[1..] + [k];
      NoDupsSnoc(ks[1..], k);
    }
  }

  /** In a list without repeats, no element occurs again after its position. */
  lemma {:induction false} NoDupsAt<K>(ks: seq<K>, j: nat)
    requires NoDups(ks) && j < |ks|
    ensures ks[j] !in ks[j + 1..]
  {
    if j > 0 {
      NoDupsAt(ks[1..], j - 1);
      assert ks[1..][j - 1] == ks[j] && ks[1..][j..] == ks[j + 1..];
    }
  }

  /** `{}` */
  function Empty<K, V>(): (d: Dict<K, V>)
    ensures d.Valid() && d.keys == [] && d.vals == map[]
  {
    Dict([], map[])
  }

  /** `d.get(k, default)` */
  function GetOr<K, V>(d: Dict<K, V>, k: K, default: V): V {
    if k in d.vals then d.vals[k] else default
  }

  /** `d[k] = v`: the new value replaces the old one in place, or the key is appended. */
  function Put<K, V>(d: Dict<K, V>, k: K, v: V): (r: Dict<K, V>)
    requires d.Valid()
    ensures r.Valid()
    ensures r.vals == d.vals[k := v]
    ensures r.keys == if k in d.vals then d.keys else d.keys + [k]
  {
    if k in d.vals then Dict(d.keys, d.vals[k := v])
    else
      NoDupsSnoc(d.keys, k);
      Dict(d.keys + [k], d.vals[k := v])
  }

  /** A valid dictionary has no keys exactly when it binds nothing. */
  lemma EmptyIff<K, V>(d: Dict<K, V>)
    requires d.Valid()
    ensures d.keys == [] <==> d.vals == map[]
  {
    if d.keys != [] {
      assert d.keys[0] in d.vals;
    }
  }

  /**
    `seq` with each element kept only at its first occurrence, appended in
    order after the elements of `acc` (which are not repeated either).
  */
  function Dedup<K(==)>(acc: seq<K>, xs: seq<K>): seq<K>
    decreases |xs|
  {
    if xs == [] then acc
    else Dedup(if xs[0] in acc then acc else acc + [xs[0]], xs[1..])
  }

  lemma {:induction false} DedupConcat<K>(acc: seq<K>, xs: seq<K>, ys: seq<K>)
    ensures Dedup(acc, xs + ys) == Dedup(Dedup(acc, xs), ys)
    decreases |xs|
  {
    if xs != [] {
      assert (xs + ys)[1..] == xs[1..] + ys;
      DedupConcat(if xs[0] in acc then acc else acc + [xs[0]], xs[1..], ys);
    } else {
      assert xs + ys == ys;
    }
  }

  /**
    The keys of a dictionary built by a run of assignments are the assigned
    keys in order of first assignment.
  */
  lemma PutKeysDedup<K, V>(d: Dict<K, V>, k: K, v: V)
    requires d.Valid()
    ensures Put(d, k, v).keys == Dedup(d.keys, [k])
  {
  }
}
