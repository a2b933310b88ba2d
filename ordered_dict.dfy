/** Python dictionaries: a mapping that remembers the order in which its keys
    were inserted. Rows, column batches, split collections and the column
    mapping a frame is built from are all dictionaries of this kind. */
module OrderedDicts {
  import opened Outcomes

  type Key = string

  /** The key sequence in insertion order and the value stored under each key. */
  datatype RawDict<V> = RawDict(keys: seq<Key>, entries: map<Key, V>)

  predicate NoDup<T(==)>(s: seq<T>) {
    forall i, j :: 0 <= i < j < |s| ==> s[i] != s[j]
  }

  /** Keys are distinct and are exactly the domain of the mapping. */
  predicate WellFormed<V>(d: RawDict<V>) {
    NoDup(d.keys) && d.entries.Keys == set k | k in d.keys
  }

  type Dict<V> = d: RawDict<V> | WellFormed(d) witness RawDict([], map[])

  /** A dict display `{keys[0]: values[0], ...}` with distinct keys, in order. */
  function DictOf<V>(keys: seq<Key>, values: seq<V>): (d: Dict<V>)
    requires |keys| == |values| && NoDup(keys)
    ensures d.keys == keys
    ensures forall i :: 0 <= i < |keys| ==> d.entries[keys[i]] == values[i]
  {
    var entries := map i | 0 <= i < |keys| :: keys[i] := values[i];
    assert entries.Keys == set k | k in keys by {
      forall k | k in keys ensures k in entries.Keys {
        var i :| 0 <= i < |keys| && keys[i] == k;
      }
    }
    RawDict(keys, entries)
  }

  /** `d.get(k)`: the value under `k`, or nothing when `k` is absent. */
  function Lookup<V>(d: Dict<V>, k: Key): (r: Option<V>)
    ensures r.Some? <==> k in d.keys
    ensures r.Some? ==> k in d.entries && r.value == d.entries[k]
  {
    assert k in d.entries <==> k in d.keys by {
      assert k in d.entries <==> k in set k | k in d.keys;
    }
    if k in d.entries then Some(d.entries[k]) else None
  }

  /** `len(next(iter(d.values())))`: the length of the first value, and 0 for
      an empty dictionary. */
  function FirstLength<V>(d: Dict<seq<V>>): nat {
    if |d.keys| == 0 then 0
    else
      assert d.keys[0] in set k | k in d.keys;
      |d.entries[d.keys[0]]|
  }

  /** The elements of `s` that are not in `xs`, in their original order. */
  function Without(s: seq<Key>, xs: set<Key>): (r: seq<Key>)
    ensures forall x :: x in r <==> x in s && x !in xs
    ensures |r| <= |s|
    ensures NoDup(s) ==> NoDup(r)
  {
    if s == [] then []
    else
      var rest := Without(s[1..], xs);
      if s[0] in xs then rest else [s[0]] + rest
  }

  /** Removal works element by element: it keeps the order of what is left. */
  lemma {:induction false} WithoutAppend(a: seq<Key>, b: seq<Key>, xs: set<Key>)
    ensures Without(a + b, xs) == Without(a, xs) + Without(b, xs)
  {
    if a == [] {
      assert a + b == b;
    } else {
      assert (a + b)[0] == a[0] && (a + b)[1..] == a[1..] + b;
      WithoutAppend(a[1..], b, xs);
    }
  }

  lemma WithoutOne(x: Key, xs: set<Key>)
    ensures Without([x], xs) == if x in xs then [] else [x]
  {
    assert [x][1..] == [];
  }

  /** The dictionary after `d.pop(x, None)` for every `x` in `xs`: the removed
      keys are gone, every other key keeps its value and its position. */
  function RemoveKeys<V>(d: Dict<V>, xs: set<Key>): (r: Dict<V>)
    ensures forall x :: x in xs ==> x !in r.entries
    ensures forall k :: k !in xs ==> (k in r.entries <==> k in d.entries)
    ensures forall k :: k in r.entries ==> r.entries[k] == d.entries[k]
    ensures r.keys == Without(d.keys, xs)
  {
    var ks := Without(d.keys, xs);
    assert (d.entries - xs).Keys == set k | k in ks;
    RawDict(ks, d.entries - xs)
  }

  lemma {:induction false} WithoutNothing(s: seq<Key>, xs: set<Key>)
    requires forall i :: 0 <= i < |s| ==> s[i] !in xs
    ensures Without(s, xs) == s
  {
    if s != [] {
      WithoutNothing(s[1..], xs);
      assert [s[0]] + s[1..] == s;
    }
  }

  lemma {:induction false} WithoutTwice(s: seq<Key>, xs: set<Key>, ys: set<Key>)
    ensures Without(Without(s, xs), ys) == Without(s, xs + ys)
  {
    if s != [] {
      WithoutTwice(s[1..], xs, ys);
      if s[0] !in xs {
        assert Without(s, xs)[1..] == Without(s[1..], xs);
      }
    }
  }

  /** Removing names that are not keys changes nothing and raises nothing. */
  lemma RemoveAbsentKeys<V>(d: Dict<V>, xs: set<Key>)
    requires forall x :: x in xs ==> x !in d.entries
    ensures RemoveKeys(d, xs) == d
  {
    WithoutNothing(d.keys, xs);
    assert d.entries - xs == d.entries;
  }

  /** Popping the names one after another is the same as removing them all. */
  lemma RemoveKeysTwice<V>(d: Dict<V>, xs: set<Key>, ys: set<Key>)
    ensures RemoveKeys(RemoveKeys(d, xs), ys) == RemoveKeys(d, xs + ys)
  {
    WithoutTwice(d.keys, xs, ys);
    MinusTwice(d.entries, xs, ys);
  }

  lemma MinusTwice<V>(m: map<Key, V>, xs: set<Key>, ys: set<Key>)
    ensures (m - xs) - ys == m - (xs + ys)
  {
  }
}
