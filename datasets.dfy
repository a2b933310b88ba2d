/** The row store (`SimpleDataset`) and the split collection (`DatasetDict`).
    A dataset is an ordered sequence of rows; a row is a Python dict from field
    name to value. Every operation returns a new value and leaves its receiver
    as it was. */
module Datasets {
  import opened Outcomes
  import opened OrderedDicts

  type Row<V> = Dict<V>

  /** The column-major form of a dataset a batched transform receives and returns:
      one value sequence per field name. */
  type Batch<V> = Dict<seq<V>>

  /** The `function` argument of `map` together with its `batched` flag. */
  datatype Transform<!V> =
    | RowWise(f: Row<V> -> Row<V>)
    | Batched(g: Batch<V> -> Batch<V>)

  // ---------------------------------------------------------------------------
  // Slicing: `range(*slice.indices(len))`
  // ---------------------------------------------------------------------------

  /** How `slice.indices` clips an explicit bound against the length: negative
      bounds count from the end, and what still falls outside is moved to the
      nearest end that the step direction allows. */
  function ClipBound(i: int, len: nat, step: int): (r: int)
    ensures step > 0 ==> 0 <= r <= len
    ensures step < 0 ==> -1 <= r <= len - 1
    ensures 0 <= i < len ==> r == i
    ensures i < 0 && 0 <= i + len ==> r == i + len
    ensures i + len < 0 ==> r == (if step < 0 then -1 else 0)
    ensures i >= len ==> r == (if step < 0 then len - 1 else len)
  {
    if i < 0 then (if i + len < 0 then (if step < 0 then -1 else 0) else i + len)
    else if i >= len then (if step < 0 then len - 1 else len)
    else i
  }

  /** `range(a, b, step)` as the sequence of integers it yields. */
  function Range(a: int, b: int, step: int): (r: seq<int>)
    requires step != 0
    ensures |r| > 0 ==> r[0] == a
    ensures forall k :: 0 <= k < |r| - 1 ==> r[k + 1] == r[k] + step
    ensures step > 0 ==> forall k :: 0 <= k < |r| ==> a <= r[k] < b
    ensures step < 0 ==> forall k :: 0 <= k < |r| ==> b < r[k] <= a
    ensures |r| == 0 <==> (step > 0 && a >= b) || (step < 0 && a <= b)
    ensures |r| > 0 && step > 0 ==> b <= r[|r| - 1] + step
    ensures |r| > 0 && step < 0 ==> r[|r| - 1] + step <= b
    decreases if step > 0 then b - a else a - b
  {
    if (step > 0 && a < b) || (step < 0 && a > b) then [a] + Range(a + step, b, step) else []
  }

  /** The row positions a slice `[start:stop:step]` selects on `len` rows. */
  function SliceIndices(len: nat, start: Option<int>, stop: Option<int>, step: int): (ix: seq<int>)
    requires step != 0
    ensures forall k :: 0 <= k < |ix| ==> 0 <= ix[k] < len
  {
    var lo := if start.None? then (if step < 0 then len - 1 else 0) else ClipBound(start.value, len, step);
    var hi := if stop.None? then (if step < 0 then -1 else len) else ClipBound(stop.value, len, step);
    Range(lo, hi, step)
  }

  // ---------------------------------------------------------------------------
  // Filtering
  // ---------------------------------------------------------------------------

  /** `[row for row in rows if p(row)]`. */
  function FilterRows<V>(rows: seq<Row<V>>, p: Row<V> -> bool): (r: seq<Row<V>>)
    ensures |r| <= |rows|
    ensures forall i :: 0 <= i < |r| ==> p(r[i])
  {
    if rows == [] then []
    else
      var init := FilterRows(rows[..|rows| - 1], p);
      if p(rows[|rows| - 1]) then init + [rows[|rows| - 1]] else init
  }

  /** The positions of the rows that satisfy `p`, in increasing order. */
  function KeptIndices<V>(rows: seq<Row<V>>, p: Row<V> -> bool): (ix: seq<int>)
    ensures forall k :: 0 <= k < |ix| ==> 0 <= ix[k] < |rows| && p(rows[ix[k]])
    ensures forall k, l :: 0 <= k < l < |ix| ==> ix[k] < ix[l]
    ensures forall i :: 0 <= i < |rows| && p(rows[i]) ==> i in ix
  {
    if rows == [] then []
    else
      var init := KeptIndices(rows[..|rows| - 1], p);
      if p(rows[|rows| - 1]) then init + [|rows| - 1] else init
  }

  /** The filtered rows are exactly the rows at the kept positions, in order:
      a row is in the output if and only if it satisfies the predicate. */
  lemma {:induction false} FilterIsKeptRows<V>(rows: seq<Row<V>>, p: Row<V> -> bool)
    ensures |FilterRows(rows, p)| == |KeptIndices(rows, p)|
    ensures forall k :: 0 <= k < |KeptIndices(rows, p)| ==>
              FilterRows(rows, p)[k] == rows[KeptIndices(rows, p)[k]]
  {
    if rows != [] {
      var init := rows[..|rows| - 1];
      FilterIsKeptRows(init, p);
      forall k | 0 <= k < |KeptIndices(init, p)|
        ensures 0 <= KeptIndices(init, p)[k] < |init|
        ensures init[KeptIndices(init, p)[k]] == rows[KeptIndices(init, p)[k]]
      {
      }
    }
  }

  // ---------------------------------------------------------------------------
  // Batches
  // ---------------------------------------------------------------------------

  predicate HasAll<V>(rows: seq<Row<V>>, names: seq<Key>) {
    forall j, i :: 0 <= j < |names| && 0 <= i < |rows| ==> names[j] in rows[i].entries
  }

  /** The first name (in the order given) that some row lacks. */
  function FirstMissing<V>(rows: seq<Row<V>>, names: seq<Key>): (r: Option<Key>)
    ensures r.None? <==> HasAll(rows, names)
    ensures r.Some? ==> r.value in names && exists i :: 0 <= i < |rows| && r.value !in rows[i].entries
    ensures r.Some? ==> exists j :: 0 <= j < |names| && names[j] == r.value && HasAll(rows, names[..j])
  {
    if names == [] then None
    else if exists i :: 0 <= i < |rows| && names[0] !in rows[i].entries then Some(names[0])
    else
      var r := FirstMissing(rows, names[1..]);
      if r.Some? then
        FirstMissingShift(rows, names, r.value);
        r
      else
        assert HasAll(rows, names) by {
          forall j, i | 0 <= j < |names| && 0 <= i < |rows| ensures names[j] in rows[i].entries {
            if j > 0 { assert names[j] == names[1..][j - 1]; }
          }
        }
        r
  }

  /** A first missing name of `names[1..]` is one of `names` when every row
      holds `names[0]`. */
  lemma FirstMissingShift<V>(rows: seq<Row<V>>, names: seq<Key>, k: Key)
    requires |names| > 0 && forall i :: 0 <= i < |rows| ==> names[0] in rows[i].entries
    requires exists j :: 0 <= j < |names| - 1 && names[1..][j] == k && HasAll(rows, names[1..][..j])
    ensures exists j :: 0 <= j < |names| && names[j] == k && HasAll(rows, names[..j])
  {
    var j :| 0 <= j < |names| - 1 && names[1..][j] == k && HasAll(rows, names[1..][..j]);
    var before := names[..j + 1];
    assert names[j + 1] == k;
    forall m, i | 0 <= m < |before| && 0 <= i < |rows| ensures before[m] in rows[i].entries {
      if m > 0 { assert before[m] == names[1..][..j][m - 1]; }
    }
  }

  /** `{key: [row[key] for row in rows] for key in names}`: a KeyError for the
      first name some row lacks, otherwise one column per name, in row order. */
  function BatchOf<V>(rows: seq<Row<V>>, names: seq<Key>): (r: Result<Batch<V>>)
    requires NoDup(names)
    ensures r.Ok? <==> HasAll(rows, names)
    ensures r.Err? ==> r.error.KeyError? && r.error.key in names
                       && exists i :: 0 <= i < |rows| && r.error.key !in rows[i].entries
    ensures r.Err? ==> exists j :: 0 <= j < |names| && r.error == KeyError(names[j]) && HasAll(rows, names[..j])
    ensures r.Ok? ==> r.value.keys == names
    ensures r.Ok? ==> forall j, i :: 0 <= j < |names| && 0 <= i < |rows| ==>
                        |r.value.entries[names[j]]| == |rows| && r.value.entries[names[j]][i] == rows[i].entries[names[j]]
  {
    match FirstMissing(rows, names)
    case Some(k) => Err(KeyError(k))
    case None =>
      var cols := map k | k in names :: seq(|rows|, i requires 0 <= i < |rows| => rows[i].entries[k]);
      Ok(RawDict(names, cols))
  }

  predicate AllLongerThan<V>(b: Batch<V>, i: nat) {
    forall k :: k in b.entries ==> i < |b.entries[k]|
  }

  /** `{key: result[key][i] for key in result}`. */
  function RowAt<V>(b: Batch<V>, i: nat): (r: Row<V>)
    requires AllLongerThan(b, i)
    ensures r.keys == b.keys
    ensures forall k :: k in b.entries ==> k in r.entries && r.entries[k] == b.entries[k][i]
  {
    RawDict(b.keys, map k | k in b.entries :: b.entries[k][i])
  }

  /** Rows rebuilt from a non-empty batch result: as many as the first value is
      long, and an IndexError when another value is shorter than that. */
  function Unbatch<V>(b: Batch<V>): (r: Result<seq<Row<V>>>)
    requires |b.keys| > 0
    ensures r.Err? <==> exists k :: k in b.entries && |b.entries[k]| < FirstLength(b)
    ensures r.Err? ==> r.error == IndexError
    ensures r.Ok? ==> |r.value| == FirstLength(b)
    ensures r.Ok? ==> forall i :: 0 <= i < |r.value| ==> AllLongerThan(b, i) && r.value[i] == RowAt(b, i)
  {
    var n := FirstLength(b);
    if exists k :: k in b.keys && |b.entries[k]| < n then Err(IndexError)
    else Ok(seq(n, i requires 0 <= i < n => RowAt(b, i)))
  }

  /** Every produced row after `row.pop(column, None)` for each removed name. */
  function StripAll<V>(rows: seq<Row<V>>, xs: set<Key>): (r: seq<Row<V>>)
    ensures |r| == |rows|
    ensures forall i :: 0 <= i < |r| ==> r[i] == RemoveKeys(rows[i], xs)
  {
    seq(|rows|, i requires 0 <= i < |rows| => RemoveKeys(rows[i], xs))
  }

  // ---------------------------------------------------------------------------
  // The row store
  // ---------------------------------------------------------------------------

  datatype Dataset<V> = Dataset(rows: seq<Row<V>>) {

    /** `column_names`: the keys of the first row, in order, or none at all. */
    function ColumnNames(): (names: seq<Key>)
      ensures NoDup(names)
      ensures forall k :: k in names <==> |rows| > 0 && k in rows[0].entries
      ensures |rows| > 0 ==> names == rows[0].keys
    {
      if |rows| == 0 then [] else rows[0].keys
    }

    /** `len(ds)`; iterating a dataset yields `rows` in order. */
    function Length(): (n: nat)
      ensures n == 0 <==> rows == []
      ensures forall i :: 0 <= i < |rows| ==> Get(i) == Ok(rows[i]) && Get(i - n) == Ok(rows[i])
      ensures Get(n).Err? && Get(-(n as int) - 1).Err?
    {
      |rows|
    }

    /** `ds[idx]` for an integer: negative positions count from the end. */
    function Get(idx: int): (r: Result<Row<V>>)
      ensures r.Ok? <==> -|rows| <= idx < |rows|
      ensures r.Err? ==> r.error == IndexError
      ensures 0 <= idx < |rows| ==> r == Ok(rows[idx])
    {
      if 0 <= idx < |rows| then Ok(rows[idx])
      else if -|rows| <= idx < 0 then Ok(rows[idx + |rows|])
      else Err(IndexError)
    }

    /** `ds[start:stop:step]`, a list of rows; only a zero step fails. */
    function Slice(start: Option<int>, stop: Option<int>, step: Option<int>): (r: Result<seq<Row<V>>>)
      ensures r.Err? <==> step == Some(0)
      ensures r.Err? ==> r.error == ZeroSliceStep
      ensures r.Ok? ==> forall k :: 0 <= k < |r.value| ==> r.value[k] in rows
      ensures r.Ok? ==>
        var ix := SliceIndices(|rows|, start, stop, if step.Some? then step.value else 1);
        |r.value| == |ix| && forall k :: 0 <= k < |ix| ==> r.value[k] == rows[ix[k]]
    {
      var st := if step.Some? then step.value else 1;
      if st == 0 then Err(ZeroSliceStep)
      else
        var ix := SliceIndices(|rows|, start, stop, st);
        Ok(seq(|ix|, k requires 0 <= k < |ix| => rows[ix[k]]))
    }

    /** `ds.filter(p)`. */
    function Filter(p: Row<V> -> bool): (r: Dataset<V>)
      ensures |r.rows| <= |rows|
      ensures forall i :: 0 <= i < |r.rows| ==> p(r.rows[i])
    {
      Dataset(FilterRows(rows, p))
    }

    /** The rows a transform produces, before any column is removed. */
    function Produced(t: Transform<V>): (r: Result<seq<Row<V>>>)
      ensures t.RowWise? ==> r.Ok? && |r.value| == |rows|
      ensures t.RowWise? ==> forall i :: 0 <= i < |rows| ==> r.value[i] == t.f(rows[i])
      ensures t.Batched? && !HasAll(rows, ColumnNames()) ==> r.Err? && r.error.KeyError?
      ensures r.Err? ==> r.error.KeyError? || r.error == IndexError
    {
      match t
      case RowWise(f) => Ok(seq(|rows|, i requires 0 <= i < |rows| => f(rows[i])))
      case Batched(g) =>
        match BatchOf(rows, ColumnNames())
        case Err(e) => Err(e)
        case Ok(batch) =>
          var result := g(batch);
          if |result.keys| == 0 then Ok([]) else Unbatch(result)
    }

    /** What `ds.map(function, batched, remove_columns)` returns. */
    function Mapped(t: Transform<V>, removeColumns: seq<Key> := []): (r: Result<Dataset<V>>)
      ensures r.Ok? <==> Produced(t).Ok?
      ensures r.Err? ==> r.error == Produced(t).error
      ensures r.Ok? ==> |r.value.rows| == |Produced(t).value|
      ensures r.Ok? ==> forall i, c :: 0 <= i < |r.value.rows| && c in removeColumns ==> c !in r.value.rows[i].entries
    {
      match Produced(t)
      case Err(e) => Err(e)
      case Ok(newRows) =>
        if |removeColumns| == 0 then Ok(Dataset(newRows))
        else Ok(Dataset(StripAll(newRows, set c | c in removeColumns)))
    }

    /** `ds.map(...)` as the Python code runs it: build the rows, then pop the
        removed names from each of them. */
    method Map(t: Transform<V>, removeColumns: seq<Key> := []) returns (r: Result<Dataset<V>>)
      ensures r == Mapped(t, removeColumns)
    {
      var newRows: seq<Row<V>>;
      match t {
        case RowWise(f) =>
          newRows := seq(|rows|, i requires 0 <= i < |rows| => f(rows[i]));
        case Batched(g) =>
          var batch := BatchOf(rows, ColumnNames());
          if batch.Err? {
            return Err(batch.error);
          }
          var result := g(batch.value);
          if |result.keys| == 0 {
            return Ok(Dataset([]));
          }
          var rebuilt := RebuildRows(result);
          if rebuilt.Err? {
            return Err(rebuilt.error);
          }
          newRows := rebuilt.value;
      }
      if |removeColumns| > 0 {
        newRows := RemoveColumns(newRows, set c | c in removeColumns);
      }
      r := Ok(Dataset(newRows));
    }
  }

  /** The batched half of `map`: one new row per index below the length of
      the first result value, appended in order. */
  method RebuildRows<V>(result: Batch<V>) returns (r: Result<seq<Row<V>>>)
    requires |result.keys| > 0
    ensures r == Unbatch(result)
  {
    var length := FirstLength(result);
    var newRows := [];
    var i := 0;
    while i < length
      invariant 0 <= i <= length
      invariant forall k :: k in result.entries ==> i <= |result.entries[k]|
      invariant |newRows| == i
      invariant forall j :: 0 <= j < i ==> AllLongerThan(result, j) && newRows[j] == RowAt(result, j)
    {
      if exists k :: k in result.keys && |result.entries[k]| <= i {
        return Err(IndexError);
      }
      newRows := newRows + [RowAt(result, i)];
      i := i + 1;
    }
    assert forall k :: k in result.keys ==> k in result.entries;
    assert newRows == seq(length, i requires 0 <= i < length => RowAt(result, i));
    return Ok(newRows);
  }

  /** `row.pop(column, None)` for every removed name, on every produced row. */
  method RemoveColumns<V>(produced: seq<Row<V>>, removeSet: set<Key>) returns (newRows: seq<Row<V>>)
    ensures newRows == StripAll(produced, removeSet)
  {
    newRows := produced;
    var j := 0;
    while j < |newRows|
      invariant 0 <= j <= |newRows| == |produced|
      invariant forall m :: 0 <= m < j ==> newRows[m] == RemoveKeys(produced[m], removeSet)
      invariant forall m :: j <= m < |newRows| ==> newRows[m] == produced[m]
    {
      var row := PopAll(newRows[j], removeSet);
      newRows := newRows[j := row];
      j := j + 1;
    }
    assert forall m :: 0 <= m < |newRows| ==> newRows[m] == StripAll(produced, removeSet)[m];
  }

  /** The inner loop of the removal: pop the names one at a time. */
  method PopAll<V>(row: Row<V>, removeSet: set<Key>) returns (r: Row<V>)
    ensures r == RemoveKeys(row, removeSet)
  {
    r := row;
    var todo := removeSet;
    RemoveAbsentKeys(row, {});
    assert removeSet - todo == {};
    while todo != {}
      invariant todo <= removeSet
      invariant r == RemoveKeys(row, removeSet - todo)
      decreases todo
    {
      var column :| column in todo;
      RemoveKeysTwice(row, removeSet - todo, {column});
      assert removeSet - todo + {column} == removeSet - (todo - {column});
      r := RemoveKeys(r, {column});
      todo := todo - {column};
    }
    assert removeSet - todo == removeSet;
  }

  // ---------------------------------------------------------------------------
  // Properties of access and slicing
  // ---------------------------------------------------------------------------

  /** A negative position names the same row as its non-negative counterpart. */
  lemma GetFromEnd<V>(ds: Dataset<V>, i: int)
    requires 0 <= i < |ds.rows|
    ensures ds.Get(i - |ds.rows|) == ds.Get(i) == Ok(ds.rows[i])
  {
  }

  lemma {:induction false} RangeUp(a: int, b: int)
    requires a <= b
    ensures Range(a, b, 1) == seq(b - a, k => a + k)
    decreases b - a
  {
    if a < b {
      RangeUp(a + 1, b);
      var r := Range(a, b, 1);
      var rest := Range(a + 1, b, 1);
      assert r == [a] + rest;
      forall k | 0 <= k < |r| ensures r[k] == a + k {
        if k > 0 { assert r[k] == rest[k - 1]; }
      }
    }
  }

  lemma {:induction false} RangeDown(a: int, b: int)
    requires b <= a
    ensures Range(a, b, -1) == seq(a - b, k => a - k)
    decreases a - b
  {
    if b < a {
      RangeDown(a - 1, b);
      var r := Range(a, b, -1);
      var rest := Range(a - 1, b, -1);
      assert r == [a] + rest;
      forall k | 0 <= k < |r| ensures r[k] == a - k {
        if k > 0 { assert r[k] == rest[k - 1]; }
      }
    }
  }

  /** With the default step, the positions `a:b` selects on `n` rows are the
      consecutive ones from the clipped start to the clipped stop. */
  lemma ForwardIndices(n: nat, a: nat, b: nat)
    ensures var lo := if a < n then a else n;
            var hi := if b < lo then lo else if b < n then b else n;
            var ix := SliceIndices(n, Some(a), Some(b), 1);
            |ix| == hi - lo && forall k :: 0 <= k < |ix| ==> ix[k] == lo + k
  {
    var lo := if a < n then a else n;
    var hiClip := if b < n then b else n;
    assert ClipBound(a, n, 1) == lo && ClipBound(b, n, 1) == hiClip;
    assert SliceIndices(n, Some(a), Some(b), 1) == Range(lo, hiClip, 1);
    if lo <= hiClip {
      RangeUp(lo, hiClip);
    }
  }

  /** With the default step, `ds[a:b]` is the contiguous run of rows between
      the two bounds, each clipped to the length. */
  lemma SliceForward<V>(ds: Dataset<V>, a: nat, b: nat)
    ensures var n := |ds.rows|;
            var lo := if a < n then a else n;
            var hi := if b < lo then lo else if b < n then b else n;
            ds.Slice(Some(a), Some(b), None) == Ok(ds.rows[lo..hi])
  {
    var n := |ds.rows|;
    var lo := if a < n then a else n;
    var hi := if b < lo then lo else if b < n then b else n;
    var ix := SliceIndices(n, Some(a), Some(b), 1);
    ForwardIndices(n, a, b);
    var run := seq(|ix|, k requires 0 <= k < |ix| => ds.rows[ix[k]]);
    assert ds.Slice(Some(a), Some(b), None) == Ok(run);
    forall k | 0 <= k < |run| ensures run[k] == ds.rows[lo + k] {
      assert ix[k] == lo + k;
    }
    SameRun(run, ds.rows, lo, hi);
  }

  /** A sequence that holds `rows[lo + k]` at every `k` is the run `rows[lo..hi]`. */
  lemma SameRun<T>(s: seq<T>, rows: seq<T>, lo: nat, hi: nat)
    requires lo <= hi <= |rows| && |s| == hi - lo
    requires forall k :: 0 <= k < |s| ==> s[k] == rows[lo + k]
    ensures s == rows[lo..hi]
  {
  }

  /** `ds[::-1]` lists every row, last first. */
  lemma SliceReversed<V>(ds: Dataset<V>)
    ensures ds.Slice(None, None, Some(-1)).Ok?
    ensures var r := ds.Slice(None, None, Some(-1)).value;
            |r| == |ds.rows| && forall k :: 0 <= k < |r| ==> r[k] == ds.rows[|ds.rows| - 1 - k]
  {
    RangeDown(|ds.rows| - 1, -1);
  }

  // ---------------------------------------------------------------------------
  // Properties of map
  // ---------------------------------------------------------------------------

  /** Row-wise `map` without removal: one output row per input row, the
      transform applied to it. */
  lemma MapRowWise<V>(ds: Dataset<V>, f: Row<V> -> Row<V>)
    ensures ds.Mapped(RowWise(f), []).Ok?
    ensures var out := ds.Mapped(RowWise(f), []).value;
            |out.rows| == |ds.rows| && forall i :: 0 <= i < |ds.rows| ==> out.rows[i] == f(ds.rows[i])
  {
  }

  /** `remove_columns` never adds an error, never changes the number of rows,
      and turns each produced row into that row without the removed names;
      every other key keeps its value and its position. */
  lemma MapRemoveColumns<V>(ds: Dataset<V>, t: Transform<V>, removeColumns: seq<Key>)
    ensures ds.Mapped(t, removeColumns).Ok? <==> ds.Mapped(t, []).Ok?
    ensures ds.Mapped(t, removeColumns).Err? ==> ds.Mapped(t, removeColumns) == ds.Mapped(t, [])
    ensures ds.Mapped(t, removeColumns).Ok? ==>
              var out := ds.Mapped(t, removeColumns).value.rows;
              var plain := ds.Mapped(t, []).value.rows;
              |out| == |plain| &&
              forall i :: 0 <= i < |out| ==>
                (forall c :: c in removeColumns ==> c !in out[i].entries) &&
                (forall k :: k !in removeColumns ==> (k in out[i].entries <==> k in plain[i].entries)) &&
                (forall k :: k in out[i].entries ==> out[i].entries[k] == plain[i].entries[k]) &&
                out[i].keys == Without(plain[i].keys, set c | c in removeColumns)
  {
    if ds.Mapped(t, removeColumns).Ok? && |removeColumns| == 0 {
      var plain := ds.Mapped(t, []).value.rows;
      forall i | 0 <= i < |plain| ensures plain[i].keys == Without(plain[i].keys, set c | c in removeColumns) {
        WithoutNothing(plain[i].keys, set c | c in removeColumns);
      }
    }
  }

  /** Names that no produced row holds are ignored: removing them changes nothing. */
  lemma MapRemoveAbsent<V>(ds: Dataset<V>, t: Transform<V>, removeColumns: seq<Key>)
    requires ds.Mapped(t, []).Ok?
    requires forall i, c :: 0 <= i < |ds.Mapped(t, []).value.rows| && c in removeColumns ==>
               c !in ds.Mapped(t, []).value.rows[i].entries
    ensures ds.Mapped(t, removeColumns) == ds.Mapped(t, [])
  {
    var plain := ds.Mapped(t, []).value.rows;
    if |removeColumns| > 0 {
      var xs := set c | c in removeColumns;
      forall i | 0 <= i < |plain| ensures RemoveKeys(plain[i], xs) == plain[i] {
        RemoveAbsentKeys(plain[i], xs);
      }
      assert StripAll(plain, xs) == plain;
    }
  }

  /** Batched `map`: the transform receives one column per column name, fails
      with a KeyError when some row lacks a column name, yields no rows for an
      empty result, and otherwise rebuilds as many rows as the first result
      value is long, row i holding the i-th element of every result value;
      a shorter result value is an IndexError. */
  lemma MapBatched<V>(ds: Dataset<V>, g: Batch<V> -> Batch<V>)
    ensures !HasAll(ds.rows, ds.ColumnNames()) ==>
              ds.Mapped(Batched(g), []).Err? && ds.Mapped(Batched(g), []).error.KeyError?
    ensures HasAll(ds.rows, ds.ColumnNames()) ==>
              var batch := BatchOf(ds.rows, ds.ColumnNames()).value;
              var res := g(batch);
              var out := ds.Mapped(Batched(g), []);
              batch.keys == ds.ColumnNames() &&
              (forall j, i :: 0 <= j < |batch.keys| && 0 <= i < |ds.rows| ==>
                 batch.entries[batch.keys[j]][i] == ds.rows[i].entries[batch.keys[j]]) &&
              (|res.keys| == 0 ==> out == Ok(Dataset([]))) &&
              (|res.keys| > 0 ==>
                 (out.Err? <==> exists k :: k in res.entries && |res.entries[k]| < FirstLength(res)) &&
                 (out.Err? ==> out.error == IndexError) &&
                 (out.Ok? ==> (|out.value.rows| == FirstLength(res) &&
                    forall i :: 0 <= i < |out.value.rows| ==>
                      out.value.rows[i].keys == res.keys &&
                      forall k :: k in res.entries ==>
                        k in out.value.rows[i].entries && out.value.rows[i].entries[k] == res.entries[k][i])))
  {
  }

  /** Batching is undone by rebuilding: the identity batch transform returns
      the dataset it was given, provided every row has the first row's keys
      and there is at least one key to batch. */
  lemma BatchedIdentity<V>(ds: Dataset<V>)
    requires forall i :: 0 <= i < |ds.rows| ==> ds.rows[i].keys == ds.ColumnNames()
    requires |ds.rows| == 0 || |ds.ColumnNames()| > 0
    ensures ds.Mapped(Batched(b => b), []) == Ok(ds)
  {
    var names := ds.ColumnNames();
    if |ds.rows| > 0 {
      assert HasAll(ds.rows, names) by {
        forall j, i | 0 <= j < |names| && 0 <= i < |ds.rows| ensures names[j] in ds.rows[i].entries {
          assert names[j] in set k | k in ds.rows[i].keys;
        }
      }
      var batch := BatchOf(ds.rows, names).value;
      assert names[0] in names;
      assert FirstLength(batch) == |ds.rows|;
      var rebuilt := Unbatch(batch);
      assert rebuilt.Ok?;
      forall i | 0 <= i < |ds.rows| ensures rebuilt.value[i] == ds.rows[i] {
        var r := rebuilt.value[i];
        assert r.keys == ds.rows[i].keys;
        assert r.entries.Keys == ds.rows[i].entries.Keys;
        forall k | k in r.entries ensures r.entries[k] == ds.rows[i].entries[k] {
          var j :| 0 <= j < |names| && names[j] == k;
        }
        assert r.entries == ds.rows[i].entries;
      }
      assert rebuilt.value == ds.rows;
    }
  }

  /** Rows without keys give nothing to batch, so the identity batch transform
      returns an empty dataset however many such rows there were. */
  lemma BatchedIdentityOnKeylessRows<V>(ds: Dataset<V>)
    requires |ds.rows| > 0 && |ds.rows[0].keys| == 0
    ensures ds.Mapped(Batched(b => b), []) == Ok(Dataset([]))
  {
  }

  // ---------------------------------------------------------------------------
  // The split collection
  // ---------------------------------------------------------------------------

  /** `DatasetDict`: split name to dataset, in insertion order. */
  type DatasetDict<V> = Dict<Dataset<V>>

  /** `dd.filter(p)`: the same split names in the same order, each split
      filtered on its own rows. */
  function FilterSplits<V>(dd: DatasetDict<V>, p: Row<V> -> bool): (r: DatasetDict<V>)
    ensures r.keys == dd.keys && r.entries.Keys == dd.entries.Keys
    ensures forall s :: s in dd.entries ==> r.entries[s] == dd.entries[s].Filter(p)
  {
    RawDict(dd.keys, map s | s in dd.entries :: dd.entries[s].Filter(p))
  }

  /** `{s: step(dd[s]) for s in ks}` for a step that may fail: the splits are
      visited in the order of `ks` and the first failure is the result. */
  function EachSplit<V>(dd: DatasetDict<V>, ks: seq<Key>, step: Dataset<V> -> Result<Dataset<V>>)
    : (r: Result<map<Key, Dataset<V>>>)
    requires forall s :: s in ks ==> s in dd.entries
    ensures r.Ok? <==> forall s :: s in ks ==> step(dd.entries[s]).Ok?
    ensures r.Ok? ==> r.value.Keys == set s | s in ks
    ensures r.Ok? ==> forall s :: s in ks ==> step(dd.entries[s]) == Ok(r.value[s])
    ensures r.Err? ==> exists j :: 0 <= j < |ks| && step(dd.entries[ks[j]]) == Err(r.error)
                                   && forall i :: 0 <= i < j ==> step(dd.entries[ks[i]]).Ok?
  {
    if ks == [] then Ok(map[])
    else
      match step(dd.entries[ks[0]])
      case Err(e) => Err(e)
      case Ok(d) =>
        var rest := EachSplit(dd, ks[1..], step);
        assert forall s :: s in ks ==> s == ks[0] || s in ks[1..];
        match rest
        case Err(e) =>
          FirstFailureLater(dd, ks, step, e);
          Err(e)
        case Ok(m) => Ok(m[ks[0] := d])
  }

  lemma FirstFailureLater<V>(dd: DatasetDict<V>, ks: seq<Key>, step: Dataset<V> -> Result<Dataset<V>>, e: Error)
    requires |ks| > 0 && forall s :: s in ks ==> s in dd.entries
    requires step(dd.entries[ks[0]]).Ok?
    requires exists j :: 0 <= j < |ks[1..]| && step(dd.entries[ks[1..][j]]) == Err(e)
                         && forall i :: 0 <= i < j ==> step(dd.entries[ks[1..][i]]).Ok?
    ensures exists j :: 0 <= j < |ks| && step(dd.entries[ks[j]]) == Err(e)
                        && forall i :: 0 <= i < j ==> step(dd.entries[ks[i]]).Ok?
  {
    var j :| 0 <= j < |ks[1..]| && step(dd.entries[ks[1..][j]]) == Err(e)
             && forall i :: 0 <= i < j ==> step(dd.entries[ks[1..][i]]).Ok?;
    assert step(dd.entries[ks[j + 1]]) == Err(e);
    forall i | 0 <= i < j + 1 ensures step(dd.entries[ks[i]]).Ok? {
      if i > 0 { assert ks[i] == ks[1..][i - 1]; }
    }
  }

  /** `dd.map(...)`: when every split maps, the same split names in the same
      order, each holding its own split's map; otherwise the error of the first
      split (in split order) whose map fails. */
  function MapSplits<V>(dd: DatasetDict<V>, t: Transform<V>, removeColumns: seq<Key>): (r: Result<DatasetDict<V>>)
    ensures r.Ok? <==> forall s :: s in dd.entries ==> dd.entries[s].Mapped(t, removeColumns).Ok?
    ensures r.Ok? ==> r.value.keys == dd.keys && r.value.entries.Keys == dd.entries.Keys
    ensures r.Ok? ==> forall s :: s in dd.entries ==> dd.entries[s].Mapped(t, removeColumns) == Ok(r.value.entries[s])
    ensures r.Err? ==> exists j :: 0 <= j < |dd.keys| && dd.entries[dd.keys[j]].Mapped(t, removeColumns) == Err(r.error)
                                   && forall i :: 0 <= i < j ==> dd.entries[dd.keys[i]].Mapped(t, removeColumns).Ok?
  {
    match EachSplit(dd, dd.keys, (d: Dataset<V>) => d.Mapped(t, removeColumns))
    case Err(e) => Err(e)
    case Ok(m) => Ok(RawDict(dd.keys, m))
  }
}
