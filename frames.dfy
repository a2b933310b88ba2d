/** The columnar table (`DataFrame`) and its column view (`Series`).
    A frame holds a list of column names and a row-major matrix; every
    operation returns a new frame and leaves the receiver as it was. */
module Frames {
  import opened Outcomes
  import opened OrderedDicts
  import opened Text
  import opened Sorting

  // ---------------------------------------------------------------------------
  // Series
  // ---------------------------------------------------------------------------

  datatype Series<V> = Series(data: seq<V>) {
    /** `len(series)`: the number of values iteration yields. */
    function Length(): (n: nat)
      ensures n == |data|
      ensures n == 0 <==> data == []
    {
      |data|
    }
  }

  /** Python's `sum`: 0 plus each value in turn. */
  function SumOf(s: seq<int>): int {
    if s == [] then 0 else SumOf(s[..|s| - 1]) + s[|s| - 1]
  }

  /** `series.sum()`: 0 for an empty series, otherwise the first value plus
      the sum of the others. */
  function Sum(s: Series<int>): (r: int)
    ensures s.data == [] ==> r == 0
    ensures s.data != [] ==> r == s.data[0] + SumOf(s.data[1..])
  {
    if s.data != [] then SumFromFront(s.data); SumOf(s.data) else SumOf(s.data)
  }

  /** The sum of a concatenation is the sum of the parts; the empty series sums to 0. */
  lemma {:induction false} SumAppend(a: seq<int>, b: seq<int>)
    ensures SumOf(a + b) == SumOf(a) + SumOf(b)
    decreases |b|
  {
    if b == [] {
      assert a + b == a;
    } else {
      assert (a + b)[..|a + b| - 1] == a + b[..|b| - 1];
      SumAppend(a, b[..|b| - 1]);
    }
  }

  /** Adding the values from the front gives the same total. */
  lemma {:induction false} SumFromFront(s: seq<int>)
    requires s != []
    ensures SumOf(s) == s[0] + SumOf(s[1..])
  {
    SumAppend([s[0]], s[1..]);
    assert [s[0]] + s[1..] == s;
    assert SumOf([s[0]]) == SumOf([]) + s[0];
  }

  /** A series of non-negative values has a non-negative sum that is at least
      each of its values. */
  lemma {:induction false} SumBounds(s: seq<int>)
    requires forall i :: 0 <= i < |s| ==> s[i] >= 0
    ensures SumOf(s) >= 0
    ensures forall i :: 0 <= i < |s| ==> s[i] <= SumOf(s)
  {
    if s != [] {
      SumBounds(s[..|s| - 1]);
      forall i | 0 <= i < |s| - 1 ensures s[i] <= SumOf(s) {
        assert s[..|s| - 1][i] == s[i];
      }
    }
  }

  // ---------------------------------------------------------------------------
  // Names and positions
  // ---------------------------------------------------------------------------

  /** `columns.index(name)`: the first position holding `name`. */
  function IndexOfName(columns: seq<string>, name: string): (r: Option<nat>)
    ensures r.None? <==> name !in columns
    ensures r.Some? ==> r.value < |columns| && columns[r.value] == name
                        && forall j :: 0 <= j < r.value ==> columns[j] != name
  {
    if columns == [] then None
    else if columns[0] == name then Some(0)
    else match IndexOfName(columns[1..], name)
      case None => None
      case Some(j) => Some(j + 1)
  }

  /** `[columns.index(n) for n in names]`: the first missing name is an error. */
  function IndicesOf(columns: seq<string>, names: seq<string>): (r: Result<seq<nat>>)
    ensures r.Ok? <==> forall j :: 0 <= j < |names| ==> names[j] in columns
    ensures r.Err? ==> exists j :: 0 <= j < |names| && r.error == UnknownColumn(names[j]) && names[j] !in columns
                                   && forall i :: 0 <= i < j ==> names[i] in columns
    ensures r.Ok? ==> |r.value| == |names| && forall j :: 0 <= j < |names| ==> IndexOfName(columns, names[j]) == Some(r.value[j])
  {
    if names == [] then Ok([])
    else match IndexOfName(columns, names[0])
      case None => Err(UnknownColumn(names[0]))
      case Some(i) =>
        match IndicesOf(columns, names[1..])
        case Err(e) =>
          assert exists j :: 0 <= j < |names| && e == UnknownColumn(names[j]) && names[j] !in columns
                             && forall i :: 0 <= i < j ==> names[i] in columns by {
            var j :| 0 <= j < |names[1..]| && e == UnknownColumn(names[1..][j]) && names[1..][j] !in columns
                     && forall i :: 0 <= i < j ==> names[1..][i] in columns;
            assert names[j + 1] == names[1..][j];
            forall i | 0 <= i < j + 1 ensures names[i] in columns {
              if i > 0 { assert names[i] == names[1..][i - 1]; }
            }
          }
          Err(e)
        case Ok(rest) =>
          assert forall j :: 0 < j < |names| ==> names[j] == names[1..][j - 1];
          Ok([i] + rest)
  }

  /** `[f"col_{i}" for i in range(n)]`. */
  function DefaultColumns(n: nat): (r: seq<string>)
    ensures |r| == n
    ensures forall i :: 0 <= i < n ==> r[i] == "col_" + NatToString(i)
  {
    seq(n, i requires 0 <= i < n => "col_" + NatToString(i))
  }

  /** The generated names are pairwise distinct. */
  lemma DefaultColumnsDistinct(n: nat)
    ensures NoDup(DefaultColumns(n))
  {
    var r := DefaultColumns(n);
    forall i, j | 0 <= i < j < n ensures r[i] != r[j] {
      NatToStringInjective(i, j);
      assert r[i][4..] == NatToString(i) && r[j][4..] == NatToString(j);
    }
  }

  // ---------------------------------------------------------------------------
  // Construction
  // ---------------------------------------------------------------------------

  /** The two kinds of `data` a frame is built from. */
  datatype FrameData<V> =
    | ColumnData(d: Dict<seq<V>>)       // a dict from column name to values
    | RecordData(records: seq<seq<V>>)  // a list of positional records

  /** Cell `data[c][i]` cannot be read: the name is missing or its list is too short. */
  predicate CellFails<V>(d: Dict<seq<V>>, c: string, i: nat) {
    c !in d.entries || i >= |d.entries[c]|
  }

  /** The exception reading a failing cell raises. */
  function CellError<V>(d: Dict<seq<V>>, c: string): Error {
    if c in d.entries then IndexError else KeyError(c)
  }

  /** Row `i` can be built: every named cell can be read. */
  predicate RowBuilds<V>(d: Dict<seq<V>>, names: seq<string>, i: nat) {
    forall j :: 0 <= j < |names| ==> !CellFails(d, names[j], i)
  }

  /** Cell `(i, names[j])` is the first failing one in row-major order. */
  predicate FirstFailure<V>(d: Dict<seq<V>>, names: seq<string>, i: nat, j: nat)
    requires j < |names|
  {
    CellFails(d, names[j], i)
    && (forall m :: 0 <= m < j ==> !CellFails(d, names[m], i))
    && forall p :: 0 <= p < i ==> RowBuilds(d, names, p)
  }

  /** `[data[col][i] for col in columns]`: a KeyError for a name the dict lacks,
      an IndexError for a value list too short, whichever comes first. */
  function CellsAt<V>(d: Dict<seq<V>>, columns: seq<string>, i: nat): (r: Result<seq<V>>)
    ensures r.Ok? <==> forall j :: 0 <= j < |columns| ==> columns[j] in d.entries && i < |d.entries[columns[j]]|
    ensures r.Ok? ==> |r.value| == |columns| && forall j :: 0 <= j < |columns| ==> r.value[j] == d.entries[columns[j]][i]
    ensures r.Err? ==> exists j :: 0 <= j < |columns| && CellFails(d, columns[j], i)
                                   && (forall m :: 0 <= m < j ==> !CellFails(d, columns[m], i))
                                   && r.error == CellError(d, columns[j])
  {
    if columns == [] then Ok([])
    else if columns[0] !in d.entries then Err(KeyError(columns[0]))
    else if i >= |d.entries[columns[0]]| then Err(IndexError)
    else
      match CellsAt(d, columns[1..], i)
      case Err(e) =>
        FirstFailingCellShift(d, columns, i, e);
        Err(e)
      case Ok(rest) =>
        assert forall j :: 0 < j < |columns| ==> columns[j] == columns[1..][j - 1];
        Ok([d.entries[columns[0]][i]] + rest)
  }

  /** A first failing cell of `columns[1..]` is one of `columns` when the
      first column can be read. */
  lemma FirstFailingCellShift<V>(d: Dict<seq<V>>, columns: seq<string>, i: nat, e: Error)
    requires |columns| > 0 && !CellFails(d, columns[0], i)
    requires exists j :: 0 <= j < |columns| - 1 && CellFails(d, columns[1..][j], i)
                         && (forall m :: 0 <= m < j ==> !CellFails(d, columns[1..][m], i))
                         && e == CellError(d, columns[1..][j])
    ensures exists j :: 0 <= j < |columns| && CellFails(d, columns[j], i)
                        && (forall m :: 0 <= m < j ==> !CellFails(d, columns[m], i))
                        && e == CellError(d, columns[j])
  {
    var j :| 0 <= j < |columns| - 1 && CellFails(d, columns[1..][j], i)
             && (forall m :: 0 <= m < j ==> !CellFails(d, columns[1..][m], i))
             && e == CellError(d, columns[1..][j]);
    assert columns[j + 1] == columns[1..][j];
    forall m | 0 <= m < j + 1 ensures !CellFails(d, columns[m], i) {
      if m > 0 { assert columns[m] == columns[1..][m - 1]; }
    }
  }

  /** The rows numbered `from` up to `length`, stopping at the first failure. */
  function RowsFrom<V>(d: Dict<seq<V>>, columns: seq<string>, from: nat, length: nat): (r: Result<seq<seq<V>>>)
    requires from <= length
    ensures r.Ok? <==> forall i :: from <= i < length ==> CellsAt(d, columns, i).Ok?
    ensures r.Ok? ==> |r.value| == length - from
                      && forall k :: 0 <= k < length - from ==> r.value[k] == CellsAt(d, columns, from + k).value
    ensures r.Err? ==> exists i :: from <= i < length && CellsAt(d, columns, i) == Err(r.error)
    decreases length - from
  {
    if from == length then Ok([])
    else
      var first := CellsAt(d, columns, from);
      if first.Err? then
        assert from <= from < length && !CellsAt(d, columns, from).Ok?;
        Err(first.error)
      else
        var rest := RowsFrom(d, columns, from + 1, length);
        if rest.Err? then
          assert exists i :: from <= i < length && !CellsAt(d, columns, i).Ok?;
          Err(rest.error)
        else
          Ok([first.value] + rest.value)
  }

  /** The rows are built in order, so a failure is that of the first row that
      cannot be built. */
  lemma {:induction false} RowsFromFirstRow<V>(d: Dict<seq<V>>, columns: seq<string>, from: nat, length: nat)
    requires from <= length
    ensures RowsFrom(d, columns, from, length).Err? ==>
              exists i :: from <= i < length && CellsAt(d, columns, i) == Err(RowsFrom(d, columns, from, length).error)
                          && forall m :: from <= m < i ==> RowBuilds(d, columns, m)
    decreases length - from
  {
    if RowsFrom(d, columns, from, length).Err? {
      var first := CellsAt(d, columns, from);
      if first.Ok? {
        assert RowBuilds(d, columns, from);
        var rest := RowsFrom(d, columns, from + 1, length);
        assert rest.Err? && RowsFrom(d, columns, from, length).error == rest.error;
        RowsFromFirstRow(d, columns, from + 1, length);
      } else {
        assert RowsFrom(d, columns, from, length).error == first.error;
      }
    }
  }

  /** A failed row build reports the first failing cell in row-major order. */
  lemma RowsFromFirstFailure<V>(d: Dict<seq<V>>, names: seq<string>, length: nat)
    requires RowsFrom(d, names, 0, length).Err?
    ensures exists i, j :: 0 <= i < length && 0 <= j < |names| && FirstFailure(d, names, i, j)
                           && RowsFrom(d, names, 0, length).error == CellError(d, names[j])
  {
    var e := RowsFrom(d, names, 0, length).error;
    RowsFromFirstRow(d, names, 0, length);
    var i :| 0 <= i < length && CellsAt(d, names, i) == Err(e)
             && forall m :: 0 <= m < i ==> RowBuilds(d, names, m);
    var j :| 0 <= j < |names| && CellFails(d, names[j], i)
             && (forall m :: 0 <= m < j ==> !CellFails(d, names[m], i))
             && e == CellError(d, names[j]);
    assert FirstFailure(d, names, i, j);
  }

  /** `DataFrame(data, columns)`. */
  function NewFrame<V>(data: FrameData<V>, columns: Option<seq<string>> := None): (r: Result<DataFrame<V>>)
    ensures data.RecordData? ==> r.Ok? && r.value.data == data.records
    ensures r.Ok? && columns.Some? ==> r.value.columns == columns.value
    ensures r.Ok? && columns.None? && data.ColumnData? ==> r.value.columns == data.d.keys
    ensures r.Ok? && data.ColumnData? ==> |r.value.data| == FirstLength(data.d)
    ensures r.Err? ==> data.ColumnData? && (r.error == IndexError || r.error.KeyError?)
  {
    match data
    case ColumnData(d) =>
      var names := if columns.Some? then columns.value else d.keys;
      (match RowsFrom(d, names, 0, FirstLength(d))
       case Err(e) => Err(e)
       case Ok(rows) => Ok(DataFrame(names, rows)))
    case RecordData(records) =>
      var names := if columns.Some? then columns.value
                   else if records != [] then DefaultColumns(|records[0]|)
                   else [];
      Ok(DataFrame(names, records))
  }

  // ---------------------------------------------------------------------------
  // The frame
  // ---------------------------------------------------------------------------

  /** `[[row[i] for i in indices] for row in rows]`. */
  function Project<V>(rows: seq<seq<V>>, indices: seq<nat>): (r: Result<seq<seq<V>>>)
    ensures r.Err? <==> exists i, j :: 0 <= i < |rows| && 0 <= j < |indices| && indices[j] >= |rows[i]|
    ensures r.Err? ==> r.error == IndexError
    ensures r.Ok? ==> |r.value| == |rows| && forall i :: 0 <= i < |rows| ==>
                        |r.value[i]| == |indices| && forall j :: 0 <= j < |indices| ==> r.value[i][j] == rows[i][indices[j]]
  {
    if exists i, j :: 0 <= i < |rows| && 0 <= j < |indices| && indices[j] >= |rows[i]| then Err(IndexError)
    else Ok(seq(|rows|, i requires 0 <= i < |rows| =>
                  seq(|indices|, j requires 0 <= j < |indices| => rows[i][indices[j]])))
  }

  datatype DataFrame<V> = DataFrame(columns: seq<string>, data: seq<seq<V>>) {

    /** `len(frame)`: the row count, so the first that many rows are all of them. */
    function Length(): (n: nat)
      ensures n == 0 <==> data == []
      ensures Head(n) == this
    {
      assert data[..|data|] == data;
      |data|
    }

    /** Every row has one value per column. */
    predicate Rectangular() {
      forall i :: 0 <= i < |data| ==> |data[i]| == |columns|
    }

    /** `frame[names]` for a list of names: those columns, in that order. */
    function Select(names: seq<string>): (r: Result<DataFrame<V>>)
      ensures r.Ok? <==> (forall j :: 0 <= j < |names| ==> names[j] in columns)
                         && forall i, j :: 0 <= i < |data| && 0 <= j < |names| ==> IndexOfName(columns, names[j]).value < |data[i]|
      ensures (exists j :: 0 <= j < |names| && names[j] !in columns) ==>
                r.Err? && exists j :: 0 <= j < |names| && r.error == UnknownColumn(names[j]) && names[j] !in columns
                                      && forall i :: 0 <= i < j ==> names[i] in columns
      ensures (forall j :: 0 <= j < |names| ==> names[j] in columns) && r.Err? ==> r.error == IndexError
      ensures r.Ok? ==> r.value.columns == names && |r.value.data| == |data|
                        && forall i :: 0 <= i < |data| ==>
                             (|r.value.data[i]| == |names| &&
                              forall j :: 0 <= j < |names| ==> r.value.data[i][j] == data[i][IndexOfName(columns, names[j]).value])
    {
      match IndicesOf(columns, names)
      case Err(e) => Err(e)
      case Ok(indices) =>
        match Project(data, indices)
        case Err(e) => Err(e)
        case Ok(rows) => NewFrame(RecordData(rows), Some(names))
    }

    /** `frame[name]` for one name: that column's values, in row order. */
    function Column(name: string): (r: Result<Series<V>>)
      ensures r.Ok? <==> name in columns && forall i :: 0 <= i < |data| ==> IndexOfName(columns, name).value < |data[i]|
      ensures r.Err? ==> (name !in columns && r.error == UnknownColumn(name)) || (name in columns && r.error == IndexError)
      ensures r.Ok? ==> name in columns && |r.value.data| == |data|
                        && forall i :: 0 <= i < |data| ==>
                             IndexOfName(columns, name).value < |data[i]| && r.value.data[i] == data[i][IndexOfName(columns, name).value]
    {
      match IndexOfName(columns, name)
      case None => Err(UnknownColumn(name))
      case Some(index) =>
        if exists i :: 0 <= i < |data| && index >= |data[i]| then Err(IndexError)
        else Ok(Series(seq(|data|, i requires 0 <= i < |data| => data[i][index])))
    }

    /** `frame.sort_values(column, ascending)`, values compared with `lt`. */
    function SortValues(column: string, lt: (V, V) -> bool, ascending: bool := true): (r: Result<DataFrame<V>>)
      ensures column !in columns ==> r == Err(UnknownColumn(column))
      ensures r.Ok? ==> r.value.columns == columns && |r.value.data| == |data|
    {
      match IndexOfName(columns, column)
      case None => Err(UnknownColumn(column))
      case Some(index) =>
        if !Keyed(data, index) then Err(IndexError)
        else
          var sorted := SortRows(data, index, if ascending then lt else Flip(lt));
          NewFrame(RecordData(sorted), Some(columns))
    }

    /** `frame.head(n)`: the rows of `data[:n]`. */
    function Head(n: int := 5): (r: DataFrame<V>)
      ensures r.columns == columns
      ensures |r.data| <= |data| && r.data == data[..|r.data|]
      ensures 0 <= n ==> |r.data| == if n < |data| then n else |data|
      ensures n < 0 ==> |r.data| == if -n < |data| then |data| + n else 0
    {
      var stop := if n >= 0 then (if n < |data| then n else |data|)
                  else (if -n < |data| then |data| + n else 0);
      DataFrame(columns, data[..stop])
    }
  }

  // ---------------------------------------------------------------------------
  // Properties
  // ---------------------------------------------------------------------------

  /** Built from a dict without explicit columns: the columns are the dict's
      keys in order, there are as many rows as the first value is long, row i
      holds the i-th value of every column, and every row has one value per
      column. A value shorter than the first one is an IndexError. */
  lemma FromColumns<V>(d: Dict<seq<V>>)
    ensures var r := NewFrame(ColumnData(d), None);
            (r.Ok? <==> forall k :: k in d.entries ==> FirstLength(d) <= |d.entries[k]|) &&
            (r.Err? ==> r.error == IndexError) &&
            (r.Ok? ==> r.value.columns == d.keys && |r.value.data| == FirstLength(d) && r.value.Rectangular() &&
                       forall i, j :: 0 <= i < |r.value.data| && 0 <= j < |d.keys| ==>
                         r.value.data[i][j] == d.entries[d.keys[j]][i])
  {
    var n := FirstLength(d);
    var rows := RowsFrom(d, d.keys, 0, n);
    assert forall j :: 0 <= j < |d.keys| ==> d.keys[j] in d.entries by {
      forall j | 0 <= j < |d.keys| ensures d.keys[j] in d.entries {
        assert d.keys[j] in set k | k in d.keys;
      }
    }
    if forall k :: k in d.entries ==> n <= |d.entries[k]| {
      assert rows.Ok?;
    } else {
      var k :| k in d.entries && |d.entries[k]| < n;
      assert k in set k | k in d.keys;
      assert !CellsAt(d, d.keys, |d.entries[k]|).Ok?;
    }
    if rows.Ok? {
      assert NewFrame(ColumnData(d), None) == Ok(DataFrame(d.keys, rows.value));
      forall i | 0 <= i < |rows.value|
        ensures |rows.value[i]| == |d.keys|
        ensures forall j :: 0 <= j < |d.keys| ==> rows.value[i][j] == d.entries[d.keys[j]][i]
      {
        assert rows.value[i] == CellsAt(d, d.keys, i).value;
      }
    }
    if rows.Err? {
      FromColumnsError(d, None);
      var i, j :| 0 <= i < n && 0 <= j < |d.keys| && FirstFailure(d, d.keys, i, j)
                  && rows.error == CellError(d, d.keys[j]);
      assert d.keys[j] in d.entries;
    }
  }

  /** A dict-built frame that fails raises the error of the first cell, in
      row-major order, that cannot be read: KeyError for a missing name,
      IndexError for a list too short. */
  lemma FromColumnsError<V>(d: Dict<seq<V>>, columns: Option<seq<string>>)
    ensures var r := NewFrame(ColumnData(d), columns);
            var names := if columns.Some? then columns.value else d.keys;
            r.Err? ==> exists i, j :: 0 <= i < FirstLength(d) && 0 <= j < |names|
                                      && FirstFailure(d, names, i, j) && r.error == CellError(d, names[j])
  {
    var names := if columns.Some? then columns.value else d.keys;
    if RowsFrom(d, names, 0, FirstLength(d)).Err? {
      RowsFromFirstFailure(d, names, FirstLength(d));
    }
  }

  /** Built from a dict with explicit column names: the row count still comes
      from the dict's first value, so an empty dict (or an empty first value)
      gives a frame with those names and no rows, and no name is looked up;
      otherwise a name the dict lacks fails in the first row, with the error
      of that row's first failing cell, and a successful frame holds, in
      row i, the i-th value of each named column. */
  lemma FromColumnsNamed<V>(d: Dict<seq<V>>, names: seq<string>)
    ensures var r := NewFrame(ColumnData(d), Some(names));
            (FirstLength(d) == 0 ==> r == Ok(DataFrame(names, []))) &&
            (FirstLength(d) > 0 && (exists j :: 0 <= j < |names| && names[j] !in d.entries) ==>
               r.Err? && exists j :: 0 <= j < |names| && FirstFailure(d, names, 0, j) && r.error == CellError(d, names[j])) &&
            (r.Ok? ==> r.value.columns == names && |r.value.data| == FirstLength(d) && r.value.Rectangular() &&
                       forall i, j :: 0 <= i < |r.value.data| && 0 <= j < |names| ==>
                         r.value.data[i][j] == d.entries[names[j]][i])
  {
    if FirstLength(d) > 0 && exists j :: 0 <= j < |names| && names[j] !in d.entries {
      var k :| 0 <= k < |names| && names[k] !in d.entries;
      MissingNameFailsFirstRow(d, names, k);
    }
  }

  /** With a name the dict lacks, row 0 already fails, so the error is that
      of row 0's first failing cell. */
  lemma MissingNameFailsFirstRow<V>(d: Dict<seq<V>>, names: seq<string>, k: nat)
    requires FirstLength(d) > 0 && k < |names| && names[k] !in d.entries
    ensures var r := NewFrame(ColumnData(d), Some(names));
            r.Err? && exists j :: 0 <= j < |names| && FirstFailure(d, names, 0, j) && r.error == CellError(d, names[j])
  {
    var r := NewFrame(ColumnData(d), Some(names));
    assert CellFails(d, names[k], 0);
    assert !CellsAt(d, names, 0).Ok?;
    assert RowsFrom(d, names, 0, FirstLength(d)).Err?;
    FromColumnsError(d, Some(names));
    var i, j :| 0 <= i < FirstLength(d) && 0 <= j < |names|
                && FirstFailure(d, names, i, j) && r.error == CellError(d, names[j]);
    FirstFailureInFailingRow(d, names, i, j, k);
  }

  /** A row with a failing cell bounds the first failing row. */
  lemma FirstFailureInFailingRow<V>(d: Dict<seq<V>>, names: seq<string>, i: nat, j: nat, k: nat)
    requires j < |names| && k < |names| && FirstFailure(d, names, i, j) && CellFails(d, names[k], 0)
    ensures i == 0
  {
    assert !RowBuilds(d, names, 0);
  }

  /** A column taken from a frame built from a dict of equally long value
      lists is that column's value list. */
  lemma FromColumnsColumn<V>(d: Dict<seq<V>>, name: string)
    requires forall k :: k in d.entries ==> |d.entries[k]| == FirstLength(d)
    requires name in d.entries
    ensures NewFrame(ColumnData(d), None).Ok?
    ensures NewFrame(ColumnData(d), None).value.Column(name) == Ok(Series(d.entries[name]))
  {
    FromColumns(d);
    var f := NewFrame(ColumnData(d), None).value;
    assert name in set k | k in d.keys;
    var j := IndexOfName(d.keys, name).value;
    assert d.keys[j] == name;
    assert f.Column(name).Ok?;
    assert f.Column(name).value.data == d.entries[name];
  }

  /** Built from records without explicit columns: the records are kept as
      they are and the columns are named col_0, col_1, ... after the length
      of the first record (none at all for no records). */
  lemma FromRecords<V>(records: seq<seq<V>>)
    ensures var r := NewFrame(RecordData(records), None);
            r.Ok? && r.value.data == records &&
            |r.value.columns| == (if records == [] then 0 else |records[0]|) &&
            forall i :: 0 <= i < |r.value.columns| ==> r.value.columns[i] == "col_" + NatToString(i)
  {
  }

  /** Projection then column access is column access on the original frame. */
  lemma SelectThenColumn<V>(f: DataFrame<V>, names: seq<string>, name: string)
    requires f.Select(names).Ok?
    requires name in names
    ensures f.Select(names).value.Column(name) == f.Column(name)
  {
    var g := f.Select(names).value;
    var j := IndexOfName(names, name).value;
    assert names[j] == name;
    var c := f.Column(name);
    assert c.Ok?;
    assert g.Column(name).Ok?;
    assert g.Column(name).value.data == c.value.data;
  }

  /** Ties under the flipped comparison are ties under the original. */
  lemma {:induction false} TiedWithFlip<V>(rows: seq<seq<V>>, idx: nat, lt: (V, V) -> bool, k: V)
    requires Keyed(rows, idx)
    ensures TiedWith(rows, idx, Flip(lt), k) == TiedWith(rows, idx, lt, k)
  {
    if rows != [] {
      TiedWithFlip(rows[1..], idx, lt, k);
    }
  }

  /** `sort_values`: an unknown column is an error, so is a row without a
      value in that column; otherwise the columns stay, the rows are a
      permutation of the original ones, in non-decreasing order of the column
      when ascending and non-increasing otherwise, and rows whose values in
      the column tie keep their original relative order in both directions. */
  lemma SortValuesCorrect<V(!new)>(f: DataFrame<V>, column: string, ascending: bool, lt: (V, V) -> bool)
    requires StrictWeakOrder(lt)
    ensures var r := f.SortValues(column, lt, ascending);
            (column !in f.columns ==> r == Err(UnknownColumn(column))) &&
            (column in f.columns ==>
               var ix := IndexOfName(f.columns, column).value;
               (r.Err? <==> !Keyed(f.data, ix)) &&
               (r.Err? ==> r.error == IndexError) &&
               (r.Ok? ==>
                  var out := r.value.data;
                  r.value.columns == f.columns &&
                  multiset(out) == multiset(f.data) && |out| == |f.data| && Keyed(out, ix) &&
                  (ascending ==> forall i, j :: 0 <= i < j < |out| ==> !lt(out[j][ix], out[i][ix])) &&
                  (!ascending ==> forall i, j :: 0 <= i < j < |out| ==> !lt(out[i][ix], out[j][ix])) &&
                  forall k :: TiedWith(out, ix, lt, k) == TiedWith(f.data, ix, lt, k)))
  {
    if column in f.columns {
      var ix := IndexOfName(f.columns, column).value;
      if Keyed(f.data, ix) {
        var cmp := if ascending then lt else Flip(lt);
        FlipIsStrictWeakOrder(lt);
        SortRowsCorrect(f.data, ix, cmp);
        var out := SortRows(f.data, ix, cmp);
        assert |multiset(out)| == |multiset(f.data)|;
        forall k ensures TiedWith(out, ix, lt, k) == TiedWith(f.data, ix, lt, k) {
          if !ascending {
            TiedWithFlip(out, ix, lt, k);
            TiedWithFlip(f.data, ix, lt, k);
          }
        }
      }
    }
  }

  /** `head(0)` is empty and `head(n)` for `n` at least the row count is the
      whole frame. */
  lemma HeadBounds<V>(f: DataFrame<V>, n: int)
    ensures f.Head(0).data == [] && f.Head(0).columns == f.columns
    ensures n >= |f.data| ==> f.Head(n) == f
  {
    if n >= |f.data| {
      assert f.data[..|f.data|] == f.data;
    }
  }
}
