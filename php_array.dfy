/**
  A PHP array with string keys: an insertion-ordered dictionary. Writing to an
  existing key keeps that key's position; a new key goes last. Iterating with
  `foreach` visits the keys in `keys` order.
*/
module PhpArray {
  import opened Text

  datatype OMap<V> = OMap(keys: seq<string>, vals: map<string, V>) {

    /** The key order lists every key of the dictionary exactly once. */
    predicate Valid() {
      NoDup(keys) && (forall k :: k in vals ==> k in keys) && (forall i :: 0 <= i < |keys| ==> keys[i] in vals)
    }

    /** `isset($a[$k]) ? $a[$k] : $default` */
    function GetOr(k: string, default: V): V {
      if k in vals then vals[k] else default
    }

    /** `$a[$k] = $v` */
    function Put(k: string, v: V): (r: OMap<V>)
      ensures Valid() ==> r.Valid()
      ensures r.vals == vals[k := v]
      ensures k in vals ==> r.keys == keys
      ensures k !in vals ==> r.keys == keys + [k]
    {
      if k in vals then OMap(keys, vals[k := v]) else OMap(keys + [k], vals[k := v])
    }

    /** `array_merge($this, $other)` for string keys: assigns the other array's entries in its order. */
    function Merge(other: OMap<V>): (r: OMap<V>)
      requires Valid() && other.Valid()
      ensures r.Valid()
    {
      PutAll(other.keys, other.vals)
    }

    /** Assigns `src[k]` to each key of `ks` in order. */
    function PutAll(ks: seq<string>, src: map<string, V>): (r: OMap<V>)
      requires forall k :: k in ks ==> k in src
      ensures Valid() ==> r.Valid()
      decreases |ks|
    {
      if ks == [] then this else Put(ks[0], src[ks[0]]).PutAll(ks[1..], src)
    }
  }

  function Empty<V>(): (r: OMap<V>)
    ensures r.Valid() && r.keys == [] && r.vals == map[]
  {
    OMap([], map[])
  }

  /** The keys of `ks` that are not yet in `present`, in order. */
  function NewKeys<V>(ks: seq<string>, present: map<string, V>): seq<string> {
    if ks == [] then []
    else (if ks[0] in present then [] else [ks[0]]) + NewKeys(ks[1..], present)
  }

  /** The dictionary `src` restricted to the keys listed in `ks`. */
  function Restrict<V>(src: map<string, V>, ks: seq<string>): map<string, V> {
    map k | k in ks && k in src :: src[k]
  }

  lemma {:induction false} NewKeysIgnoresAbsent<V>(ks: seq<string>, present: map<string, V>, k: string, v: V)
    requires k !in ks
    ensures NewKeys(ks, present[k := v]) == NewKeys(ks, present)
    decreases |ks|
  {
    if ks != [] {
      NewKeysIgnoresAbsent(ks[1..], present, k, v);
    }
  }

  /** The tail of a duplicate-free list does not contain its head, and is itself duplicate-free. */
  lemma NoDupTail(ks: seq<string>)
    requires ks != [] && NoDup(ks)
    ensures ks[0] !in ks[1..] && NoDup(ks[1..])
  {
    forall i | 0 <= i < |ks[1..]| ensures ks[1..][i] != ks[0] {
      assert ks[1..][i] == ks[i + 1];
    }
    forall i, j | 0 <= i < j < |ks[1..]| ensures ks[1..][i] != ks[1..][j] {
      assert ks[1..][i] == ks[i + 1] && ks[1..][j] == ks[j + 1];
    }
  }

  /**
    Assigning a duplicate-free list of keys keeps every existing key where it
    was and appends the new keys in the order given.
  */
  lemma {:induction false} PutAllKeys<V>(m: OMap<V>, ks: seq<string>, src: map<string, V>)
    requires NoDup(ks)
    requires forall k :: k in ks ==> k in src
    ensures m.PutAll(ks, src).keys == m.keys + NewKeys(ks, m.vals)
    decreases |ks|
  {
    if ks != [] {
      var k := ks[0];
      var m1 := m.Put(k, src[k]);
      var added: seq<string> := if k in m.vals then [] else [k];
      NoDupTail(ks);
      PutAllKeys(m1, ks[1..], src);
      NewKeysIgnoresAbsent(ks[1..], m.vals, k, src[k]);
      PutAllCons(m, ks, src);
      NewKeysCons(ks, m.vals);
      ConcatAssoc(m.PutAll(ks, src).keys, m1.keys, NewKeys(ks[1..], m.vals), m.keys, added, NewKeys(ks, m.vals));
    }
  }

  lemma PutAllCons<V>(m: OMap<V>, ks: seq<string>, src: map<string, V>)
    requires ks != []
    requires forall k :: k in ks ==> k in src
    ensures m.PutAll(ks, src) == m.Put(ks[0], src[ks[0]]).PutAll(ks[1..], src)
  {
  }

  lemma NewKeysCons<V>(ks: seq<string>, present: map<string, V>)
    requires ks != []
    ensures NewKeys(ks, present) == (if ks[0] in present then [] else [ks[0]]) + NewKeys(ks[1..], present)
  {
  }

  lemma ConcatAssoc(a: seq<string>, b: seq<string>, c: seq<string>, d: seq<string>, e: seq<string>, f: seq<string>)
    requires a == b + c && b == d + e && f == e + c
    ensures a == d + f
  {
  }

  /** Assigning a list of keys lets the assigned values win over the old ones. */
  lemma {:induction false} PutAllVals<V>(m: OMap<V>, ks: seq<string>, src: map<string, V>)
    requires forall k :: k in ks ==> k in src
    ensures m.PutAll(ks, src).vals == m.vals + Restrict(src, ks)
    decreases |ks|
  {
    if ks == [] {
      assert Restrict(src, ks) == map[];
    } else {
      PutAllVals(m.Put(ks[0], src[ks[0]]), ks[1..], src);
      RestrictCons(m.vals, src, ks);
    }
  }

  lemma RestrictCons<V>(old_: map<string, V>, src: map<string, V>, ks: seq<string>)
    requires ks != [] && ks[0] in src
    ensures old_[ks[0] := src[ks[0]]] + Restrict(src, ks[1..]) == old_ + Restrict(src, ks)
  {
    var l := old_[ks[0] := src[ks[0]]] + Restrict(src, ks[1..]);
    var r := old_ + Restrict(src, ks);
    assert l.Keys == r.Keys;
    forall k | k in l ensures l[k] == r[k] {
      if k == ks[0] || k in ks[1..] {
        assert k in ks;
      }
    }
  }

  /**
    `array_merge` on string keys: the first array's keys stay in place, the
    second array's new keys follow in its order, and on a shared key the
    second array's value replaces the first's.
  */
  lemma MergeEffect<V>(a: OMap<V>, b: OMap<V>)
    requires a.Valid() && b.Valid()
    ensures a.Merge(b).keys == a.keys + NewKeys(b.keys, a.vals)
    ensures a.Merge(b).vals == a.vals + b.vals
  {
    PutAllKeys(a, b.keys, b.vals);
    PutAllVals(a, b.keys, b.vals);
    assert Restrict(b.vals, b.keys) == b.vals;
  }
}
