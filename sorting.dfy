/** Python's `sorted(rows, key=lambda row: row[idx], reverse=...)` on the rows
    of a frame: a stable sort of the rows by the value in one position. */
module Sorting {

  /** What Python's `<` is on the values of a sortable column. */
  ghost predicate StrictWeakOrder<V(!new)>(lt: (V, V) -> bool) {
    && (forall a :: !lt(a, a))
    && (forall a, b, c :: lt(a, b) && lt(b, c) ==> lt(a, c))
    && (forall a, b, c :: lt(a, c) ==> lt(a, b) || lt(b, c))
  }

  /** Neither value sorts before the other. */
  predicate Ties<V>(lt: (V, V) -> bool, a: V, b: V) {
    !lt(a, b) && !lt(b, a)
  }

  /** The comparison `reverse=True` sorts by. */
  function Flip<V>(lt: (V, V) -> bool): (V, V) -> bool {
    (a, b) => lt(b, a)
  }

  lemma FlipIsStrictWeakOrder<V(!new)>(lt: (V, V) -> bool)
    requires StrictWeakOrder(lt)
    ensures StrictWeakOrder(Flip(lt))
  {
  }

  /** Every row has a value at position `idx`. */
  predicate Keyed<V>(rows: seq<seq<V>>, idx: nat) {
    forall i :: 0 <= i < |rows| ==> idx < |rows[i]|
  }

  /** No row sorts before an earlier one. */
  predicate SortedBy<V>(rows: seq<seq<V>>, idx: nat, lt: (V, V) -> bool)
    requires Keyed(rows, idx)
  {
    forall i, j :: 0 <= i < j < |rows| ==> !lt(rows[j][idx], rows[i][idx])
  }

  /** The rows whose key ties with `k`, in their order. */
  function TiedWith<V>(rows: seq<seq<V>>, idx: nat, lt: (V, V) -> bool, k: V): (r: seq<seq<V>>)
    requires Keyed(rows, idx)
    ensures |r| <= |rows|
  {
    if rows == [] then []
    else (if Ties(lt, rows[0][idx], k) then [rows[0]] else []) + TiedWith(rows[1..], idx, lt, k)
  }

  /** Insert `x` after every row that does not sort after it. */
  function Insert<V>(x: seq<V>, rows: seq<seq<V>>, idx: nat, lt: (V, V) -> bool): (r: seq<seq<V>>)
    requires idx < |x| && Keyed(rows, idx)
    ensures Keyed(r, idx)
    ensures |r| == |rows| + 1
  {
    if rows == [] then [x]
    else if lt(x[idx], rows[0][idx]) then [x] + rows
    else
      assert rows == [rows[0]] + rows[1..];
      [rows[0]] + Insert(x, rows[1..], idx, lt)
  }

  /** The rows sorted by position `idx`, each taken in turn and inserted after
      the rows already placed that it does not sort before. */
  function SortRows<V>(rows: seq<seq<V>>, idx: nat, lt: (V, V) -> bool): (r: seq<seq<V>>)
    requires Keyed(rows, idx)
    ensures Keyed(r, idx)
    ensures |r| == |rows|
  {
    if rows == [] then []
    else
      var init := rows[..|rows| - 1];
      assert rows == init + [rows[|rows| - 1]];
      Insert(rows[|rows| - 1], SortRows(init, idx, lt), idx, lt)
  }

  /** One insertion step adds exactly `x` to the records. */
  lemma {:induction false} InsertPermutation<V>(x: seq<V>, rows: seq<seq<V>>, idx: nat, lt: (V, V) -> bool)
    requires idx < |x| && Keyed(rows, idx)
    ensures multiset(Insert(x, rows, idx, lt)) == multiset(rows) + multiset{x}
    ensures forall y :: y in Insert(x, rows, idx, lt) ==> y == x || y in rows
  {
    if rows != [] && !lt(x[idx], rows[0][idx]) {
      InsertPermutation(x, rows[1..], idx, lt);
      assert rows == [rows[0]] + rows[1..];
    }
  }

  /** The sort rearranges its input and nothing more. */
  lemma {:induction false} SortRowsPermutation<V>(rows: seq<seq<V>>, idx: nat, lt: (V, V) -> bool)
    requires Keyed(rows, idx)
    ensures multiset(SortRows(rows, idx, lt)) == multiset(rows)
  {
    if rows != [] {
      var init := rows[..|rows| - 1];
      SortRowsPermutation(init, idx, lt);
      InsertPermutation(rows[|rows| - 1], SortRows(init, idx, lt), idx, lt);
      assert rows == init + [rows[|rows| - 1]];
    }
  }

  lemma {:induction false} InsertSorted<V(!new)>(x: seq<V>, rows: seq<seq<V>>, idx: nat, lt: (V, V) -> bool)
    requires StrictWeakOrder(lt)
    requires idx < |x| && Keyed(rows, idx) && SortedBy(rows, idx, lt)
    ensures SortedBy(Insert(x, rows, idx, lt), idx, lt)
  {
    if rows != [] && !lt(x[idx], rows[0][idx]) {
      InsertSorted(x, rows[1..], idx, lt);
      InsertPermutation(x, rows[1..], idx, lt);
      var r := Insert(x, rows, idx, lt);
      forall j | 0 < j < |r| ensures !lt(r[j][idx], rows[0][idx]) {
        assert r[j] in Insert(x, rows[1..], idx, lt);
      }
    }
  }

  /** The rows at the front of a sorted run all sort after `k`, so none ties with it. */
  lemma {:induction false} NoneTied<V(!new)>(rows: seq<seq<V>>, idx: nat, lt: (V, V) -> bool, k: V)
    requires StrictWeakOrder(lt)
    requires Keyed(rows, idx)
    requires forall i :: 0 <= i < |rows| ==> lt(k, rows[i][idx])
    ensures TiedWith(rows, idx, lt, k) == []
  {
    if rows != [] {
      NoneTied(rows[1..], idx, lt, k);
    }
  }

  /** `x` sorts before the first row of a sorted run: if it ties with `k`,
      no row of the run does. */
  lemma BeforeAllNoneTied<V(!new)>(x: seq<V>, rows: seq<seq<V>>, idx: nat, lt: (V, V) -> bool, k: V)
    requires StrictWeakOrder(lt)
    requires idx < |x| && Keyed(rows, idx) && SortedBy(rows, idx, lt)
    requires rows != [] && lt(x[idx], rows[0][idx]) && Ties(lt, x[idx], k)
    ensures TiedWith(rows, idx, lt, k) == []
  {
    assert lt(x[idx], k) || lt(k, rows[0][idx]);
    forall i | 0 <= i < |rows| ensures lt(k, rows[i][idx]) {
      var a, b := rows[i][idx], rows[0][idx];
      assert !lt(a, b);
      assert lt(k, b) ==> lt(k, a) || lt(a, b);
    }
    NoneTied(rows, idx, lt, k);
  }

  lemma InsertFrontTied<V(!new)>(x: seq<V>, rows: seq<seq<V>>, idx: nat, lt: (V, V) -> bool, k: V)
    requires StrictWeakOrder(lt)
    requires idx < |x| && Keyed(rows, idx) && SortedBy(rows, idx, lt)
    requires rows != [] && lt(x[idx], rows[0][idx])
    ensures TiedWith(Insert(x, rows, idx, lt), idx, lt, k)
            == TiedWith(rows, idx, lt, k) + (if Ties(lt, x[idx], k) then [x] else [])
  {
    var tx := if Ties(lt, x[idx], k) then [x] else [];
    assert ([x] + rows)[1..] == rows;
    assert TiedWith([x] + rows, idx, lt, k) == tx + TiedWith(rows, idx, lt, k);
    assert Insert(x, rows, idx, lt) == [x] + rows;
    if Ties(lt, x[idx], k) {
      BeforeAllNoneTied(x, rows, idx, lt, k);
    }
  }

  lemma Associative<T>(a: seq<T>, b: seq<T>, c: seq<T>)
    ensures a + (b + c) == (a + b) + c
  {
  }

  /** If `x` goes after the first row `h`, the ties of the insertion are the
      tie of `h` followed by the ties of inserting into the rest `t`. */
  lemma InsertLaterTied<V>(x: seq<V>, h: seq<V>, t: seq<seq<V>>, idx: nat, lt: (V, V) -> bool, k: V)
    requires idx < |x| && idx < |h| && Keyed(t, idx)
    requires !lt(x[idx], h[idx])
    requires TiedWith(Insert(x, t, idx, lt), idx, lt, k)
             == TiedWith(t, idx, lt, k) + (if Ties(lt, x[idx], k) then [x] else [])
    ensures Keyed([h] + t, idx)
    ensures TiedWith(Insert(x, [h] + t, idx, lt), idx, lt, k)
            == TiedWith([h] + t, idx, lt, k) + (if Ties(lt, x[idx], k) then [x] else [])
  {
    var tx := if Ties(lt, x[idx], k) then [x] else [];
    var th := if Ties(lt, h[idx], k) then [h] else [];
    var rows := [h] + t;
    assert rows[0] == h && rows[1..] == t;
    var tail := Insert(x, t, idx, lt);
    assert Insert(x, rows, idx, lt) == [h] + tail;
    assert ([h] + tail)[1..] == tail;
    assert TiedWith([h] + tail, idx, lt, k) == th + TiedWith(tail, idx, lt, k);
    assert TiedWith(rows, idx, lt, k) == th + TiedWith(t, idx, lt, k);
    Associative(th, TiedWith(t, idx, lt, k), tx);
  }

  /** Inserting `x` into a sorted run adds `x` at the end of the rows that tie
      with any `k`, if it ties with `k` itself: it goes after every earlier tie. */
  lemma {:induction false} InsertTied<V(!new)>(x: seq<V>, rows: seq<seq<V>>, idx: nat, lt: (V, V) -> bool, k: V)
    requires StrictWeakOrder(lt)
    requires idx < |x| && Keyed(rows, idx) && SortedBy(rows, idx, lt)
    ensures TiedWith(Insert(x, rows, idx, lt), idx, lt, k)
            == TiedWith(rows, idx, lt, k) + (if Ties(lt, x[idx], k) then [x] else [])
  {
    if rows == [] {
      assert TiedWith([x], idx, lt, k) == (if Ties(lt, x[idx], k) then [x] else []) + TiedWith([], idx, lt, k);
    } else if lt(x[idx], rows[0][idx]) {
      InsertFrontTied(x, rows, idx, lt, k);
    } else {
      InsertTied(x, rows[1..], idx, lt, k);
      InsertLaterTied(x, rows[0], rows[1..], idx, lt, k);
      assert [rows[0]] + rows[1..] == rows;
    }
  }

  lemma {:induction false} TiedAppend<V>(rows: seq<seq<V>>, x: seq<V>, idx: nat, lt: (V, V) -> bool, k: V)
    requires Keyed(rows, idx) && idx < |x|
    ensures Keyed(rows + [x], idx)
    ensures TiedWith(rows + [x], idx, lt, k)
            == TiedWith(rows, idx, lt, k) + (if Ties(lt, x[idx], k) then [x] else [])
  {
    if rows != [] {
      assert (rows + [x])[1..] == rows[1..] + [x];
      TiedAppend(rows[1..], x, idx, lt, k);
    }
  }

  /** The sort is non-decreasing. */
  lemma {:induction false} SortRowsSorted<V(!new)>(rows: seq<seq<V>>, idx: nat, lt: (V, V) -> bool)
    requires StrictWeakOrder(lt)
    requires Keyed(rows, idx)
    ensures SortedBy(SortRows(rows, idx, lt), idx, lt)
  {
    if rows != [] {
      var init := rows[..|rows| - 1];
      SortRowsSorted(init, idx, lt);
      InsertSorted(rows[|rows| - 1], SortRows(init, idx, lt), idx, lt);
    }
  }

  /** One insertion step keeps the ties of the sorted prefix equal to those of
      the original prefix, given that inserting the last row appends it to its ties. */
  lemma StableStep<V>(init: seq<seq<V>>, x: seq<V>, idx: nat, lt: (V, V) -> bool, k: V)
    requires Keyed(init, idx) && idx < |x|
    requires TiedWith(SortRows(init, idx, lt), idx, lt, k) == TiedWith(init, idx, lt, k)
    requires TiedWith(Insert(x, SortRows(init, idx, lt), idx, lt), idx, lt, k)
             == TiedWith(SortRows(init, idx, lt), idx, lt, k) + (if Ties(lt, x[idx], k) then [x] else [])
    ensures Keyed(init + [x], idx)
    ensures TiedWith(SortRows(init + [x], idx, lt), idx, lt, k) == TiedWith(init + [x], idx, lt, k)
  {
    var rows := init + [x];
    assert rows[..|rows| - 1] == init;
    assert rows[|rows| - 1] == x;
    TiedAppend(init, x, idx, lt, k);
  }

  /** Inserting the last row into the sorted prefix keeps every tie group in
      its original order. */
  lemma StableAll<V(!new)>(init: seq<seq<V>>, x: seq<V>, idx: nat, lt: (V, V) -> bool)
    requires StrictWeakOrder(lt)
    requires Keyed(init, idx) && idx < |x|
    requires SortedBy(SortRows(init, idx, lt), idx, lt)
    requires forall k :: TiedWith(SortRows(init, idx, lt), idx, lt, k) == TiedWith(init, idx, lt, k)
    ensures Keyed(init + [x], idx)
    ensures forall k :: TiedWith(SortRows(init + [x], idx, lt), idx, lt, k) == TiedWith(init + [x], idx, lt, k)
  {
    TiedAppend(init, x, idx, lt, x[idx]);
    forall k ensures TiedWith(SortRows(init + [x], idx, lt), idx, lt, k) == TiedWith(init + [x], idx, lt, k) {
      InsertTied(x, SortRows(init, idx, lt), idx, lt, k);
      StableStep(init, x, idx, lt, k);
    }
  }

  /** The sort is stable: the rows whose keys tie with any `k` keep their
      original relative order. */
  lemma {:induction false} SortRowsStable<V(!new)>(rows: seq<seq<V>>, idx: nat, lt: (V, V) -> bool)
    requires StrictWeakOrder(lt)
    requires Keyed(rows, idx)
    ensures forall k :: TiedWith(SortRows(rows, idx, lt), idx, lt, k) == TiedWith(rows, idx, lt, k)
  {
    if rows != [] {
      var init := rows[..|rows| - 1];
      var x := rows[|rows| - 1];
      assert init + [x] == rows;
      SortRowsStable(init, idx, lt);
      SortRowsSorted(init, idx, lt);
      StableAll(init, x, idx, lt);
    }
  }

  /** The sort is non-decreasing, a permutation, and stable: the rows whose
      keys tie keep their original relative order. */
  lemma SortRowsCorrect<V(!new)>(rows: seq<seq<V>>, idx: nat, lt: (V, V) -> bool)
    requires StrictWeakOrder(lt)
    requires Keyed(rows, idx)
    ensures SortedBy(SortRows(rows, idx, lt), idx, lt)
    ensures multiset(SortRows(rows, idx, lt)) == multiset(rows)
    ensures forall k :: TiedWith(SortRows(rows, idx, lt), idx, lt, k) == TiedWith(rows, idx, lt, k)
  {
    SortRowsSorted(rows, idx, lt);
    SortRowsPermutation(rows, idx, lt);
    SortRowsStable(rows, idx, lt);
  }
}
