/**
 Python's built-in `dict` as `fetch_epidata` uses it, keyed by parameter
 names: a finite map whose keys remember the order in which they were first
 inserted. Assigning to a key that is already present replaces its value and leaves it where it was; assigning to
 a new key appends it. `update` assigns the other dict's entries one by one, in
 that dict's order.
 */
module PyDict {

  /** No element occurs twice. */
  ghost predicate Distinct<K>(s: seq<K>) {
    forall i, j :: 0 <= i < j < |s| ==> s[i] != s[j]
  }

  /** The elements of `ks` that are not in `seen`, in the order of `ks`. */
  function Unseen(ks: seq<string>, seen: set<string>): (r: seq<string>)
    ensures forall k :: k in r <==> k in ks && k !in seen
    ensures |r| <= |ks|
  {
    if ks == [] then []
    else (if ks[0] in seen then [] else [ks[0]]) + Unseen(ks[1..], seen)
  }

  /**
   `Unseen` keeps the order of `ks`: filtering a concatenation filters each part
   and keeps them in sequence, and a single key is kept exactly when it is not in
   `seen`. Together these say that `Unseen(ks, seen)` is `ks` with the elements
   of `seen` removed and the rest left in place.
   */
  lemma {:induction false} UnseenKeepsOrder(a: seq<string>, b: seq<string>, seen: set<string>)
    ensures Unseen(a + b, seen) == Unseen(a, seen) + Unseen(b, seen)
    ensures forall k :: Unseen([k], seen) == if k in seen then [] else [k]
  {
    if a != [] {
      assert (a + b)[1..] == a[1..] + b;
      UnseenKeepsOrder(a[1..], b, seen);
    } else {
      assert a + b == b;
    }
    forall k ensures Unseen([k], seen) == if k in seen then [] else [k] {
      assert [k][1..] == [];
    }
  }

  /** Leaving out a key that does not occur in `ks` anyway changes nothing. */
  lemma {:induction false} UnseenIgnoresAbsent(ks: seq<string>, seen: set<string>, x: string)
    requires x !in ks
    ensures Unseen(ks, seen + {x}) == Unseen(ks, seen)
  {
    if ks != [] {
      UnseenIgnoresAbsent(ks[1..], seen, x);
    }
  }

  /** Insertion-ordered dictionary: `keys` is the insertion order, `items` the contents. */
  datatype Dict<V> = Dict(keys: seq<string>, items: map<string, V>) {

    /** Every key occurs once in `keys`, and `keys` lists exactly the keys of `items`. */
    ghost predicate Valid() {
      && Distinct(keys)
      && forall k :: k in items <==> k in keys
    }

    /** `d[k] = v`: the value of `k` becomes `v`; a new key goes to the end. */
    function Set(k: string, v: V): (r: Dict<V>)
      requires Valid()
      ensures r.Valid()
      ensures r.items == items[k := v]
      ensures k in items ==> r.keys == keys
      ensures k !in items ==> r.keys == keys + [k]
    {
      if k in items then Dict(keys, items[k := v]) else Dict(keys + [k], items[k := v])
    }

    /** Assign `src[k]` for every `k` of `ks`, first to last. */
    function UpdateFrom(ks: seq<string>, src: map<string, V>): (r: Dict<V>)
      requires Valid()
      requires forall k :: k in ks ==> k in src
      ensures r.Valid()
      decreases |ks|
    {
      if ks == [] then this else Set(ks[0], src[ks[0]]).UpdateFrom(ks[1..], src)
    }

    /**
     `d.update(src)`: afterwards every key of `src` carries `src`'s value, every
     other key keeps its value, the old keys keep their positions and the keys
     new to `d` follow them in `src`'s order.
     */
    function Update(src: Dict<V>): (r: Dict<V>)
      requires Valid() && src.Valid()
      ensures r.Valid()
      ensures r.items == items + src.items
      ensures r.keys == keys + Unseen(src.keys, items.Keys)
    {
      UpdateFromItems(this, src.keys, src.items);
      UpdateFromKeys(this, src.keys, src.items);
      assert (map k | k in src.keys :: src.items[k]) == src.items;
      UpdateFrom(src.keys, src.items)
    }
  }

  /** What `UpdateFrom` does to the contents: a map union. */
  lemma {:induction false} UpdateFromItems<V>(d: Dict<V>, ks: seq<string>, src: map<string, V>)
    requires d.Valid()
    requires forall k :: k in ks ==> k in src
    ensures d.UpdateFrom(ks, src).items == d.items + map k | k in ks :: src[k]
    decreases |ks|
  {
    if ks != [] {
      var k0, rest := ks[0], ks[1..];
      assert ks == [k0] + rest;
      var d' := d.Set(k0, src[k0]);
      UpdateFromItems(d', rest, src);
      AssignFirst(d.items, k0, rest, src);
    }
  }

  /** What `UpdateFrom` does to the key order: new keys are appended in the order of `ks`. */
  lemma {:induction false} UpdateFromKeys<V>(d: Dict<V>, ks: seq<string>, src: map<string, V>)
    requires d.Valid() && Distinct(ks)
    requires forall k :: k in ks ==> k in src
    ensures d.UpdateFrom(ks, src).keys == d.keys + Unseen(ks, d.items.Keys)
    decreases |ks|
  {
    if ks != [] {
      var d' := d.Set(ks[0], src[ks[0]]);
      DistinctTail(ks);
      UpdateFromKeys(d', ks[1..], src);
      assert d.UpdateFrom(ks, src) == d'.UpdateFrom(ks[1..], src);
      assert d'.keys == d.keys + (if ks[0] in d.items.Keys then [] else [ks[0]]);
      assert d'.items.Keys == d.items.Keys + {ks[0]};
      UnseenStep(d.keys, ks, d.items.Keys);
    }
  }

  /** Dropping the head of a duplicate-free sequence leaves one without it. */
  lemma DistinctTail<K>(ks: seq<K>)
    requires ks != [] && Distinct(ks)
    ensures Distinct(ks[1..]) && ks[0] !in ks[1..]
  {
    forall j | 0 <= j < |ks| - 1 ensures ks[1..][j] != ks[0] {
      assert ks[1..][j] == ks[j + 1];
    }
  }

  /** One step of `UpdateFrom` on the key order: the head of `ks` is appended if it is new. */
  lemma UnseenStep(prefix: seq<string>, ks: seq<string>, seen: set<string>)
    requires ks != [] && ks[0] !in ks[1..]
    ensures (prefix + (if ks[0] in seen then [] else [ks[0]])) + Unseen(ks[1..], seen + {ks[0]})
         == prefix + Unseen(ks, seen)
  {
    UnseenIgnoresAbsent(ks[1..], seen, ks[0]);
    var head := if ks[0] in seen then [] else [ks[0]];
    assert (prefix + head) + Unseen(ks[1..], seen) == prefix + (head + Unseen(ks[1..], seen));
  }

  /** Assigning the first key and then the rest is the same as assigning them all. */
  lemma AssignFirst<V>(m: map<string, V>, k0: string, rest: seq<string>, src: map<string, V>)
    requires k0 in src && forall k :: k in rest ==> k in src
    ensures m[k0 := src[k0]] + (map k | k in rest :: src[k]) == m + (map k | k in [k0] + rest :: src[k])
  {
    var lhs := m[k0 := src[k0]] + (map k | k in rest :: src[k]);
    var rhs := m + (map k | k in [k0] + rest :: src[k]);
    assert lhs.Keys == rhs.Keys;
    forall k | k in lhs.Keys
      ensures lhs[k] == rhs[k]
    {
    }
  }
}
