/** The synthetic question-answering corpus that `load_dataset("squad")`
    builds: every row is a pure function of its sample number. */
module Corpus {
  import opened Outcomes
  import opened OrderedDicts
  import opened Text
  import opened Datasets

  /** The Python values the generated rows hold. */
  datatype Value =
    | Str(s: string)
    | Int(n: int)
    | List(items: seq<Value>)
    | Object(fields: Dict<Value>)

  function CityName(sampleId: int): string {
    "City " + IntToString(sampleId)
  }

  function CountryName(sampleId: int): string {
    "Country " + IntToString(sampleId)
  }

  const CapitalIn := " has its capital in "
  const Tail := " is internationally recognised for its cultural heritage and innovation hubs."

  function ContextText(sampleId: int): string {
    CountryName(sampleId) + CapitalIn + CityName(sampleId) + ". " + CityName(sampleId) + Tail
  }

  function QuestionText(sampleId: int): string {
    "What is the capital of " + CountryName(sampleId) + "?"
  }

  /** `context.index(city)`. */
  function AnswerStart(sampleId: int): int {
    IndexOf(ContextText(sampleId), CityName(sampleId))
  }

  /** The row `_build_split` appends for one sample number. */
  function SampleRow(sampleId: int): (row: Row<Value>)
    ensures row.keys == ["id", "title", "context", "question", "answers"]
  {
    var city := CityName(sampleId);
    var answers := DictOf(["text", "answer_start"], [List([Str(city)]), List([Int(AnswerStart(sampleId))])]);
    DictOf(["id", "title", "context", "question", "answers"],
           [Str(IntToString(sampleId)), Str(CountryName(sampleId)), Str(ContextText(sampleId)),
            Str(QuestionText(sampleId)), Object(answers)])
  }

  /** A text whose only character equal to the first of `sub` is its first
      one, and is not followed by the second of `sub`: `sub` is first found
      right after it. */
  lemma {:induction false} FoundAfterPrefix(prefix: string, sub: string, rest: string)
    requires |prefix| >= 2 && |sub| >= 2 && prefix[1] != sub[1]
    requires forall p :: 0 < p < |prefix| ==> prefix[p] != sub[0]
    ensures IndexOf(prefix + sub + rest, sub) == |prefix|
    ensures (prefix + sub + rest)[|prefix|..|prefix| + |sub|] == sub
  {
    var s := prefix + sub + rest;
    assert s[|prefix|..|prefix| + |sub|] == sub;
    forall p | 0 <= p < |prefix| ensures !OccursAt(s, sub, p) {
      assert s[p] == prefix[p] && s[1] == prefix[1];
    }
    IndexOfFirstOccurrence(s, sub, |prefix|);
  }

  /** In "Country <id> has its capital in " only the first character is a 'C'. */
  lemma OnlyLeadingC(sampleId: int)
    ensures var prefix := CountryName(sampleId) + CapitalIn;
            |prefix| == 28 + |IntToString(sampleId)| && prefix[1] == 'o' &&
            forall p :: 0 < p < |prefix| ==> prefix[p] != 'C'
  {
    var id := IntToString(sampleId);
    var prefix := CountryName(sampleId) + CapitalIn;
    assert prefix == "Country " + id + CapitalIn;
    forall p | 0 < p < |prefix| ensures prefix[p] != 'C' {
      if p < 8 {
        assert prefix[p] == "Country "[p];
        assert 'C' !in "ountry ";
        assert "Country "[p] in "ountry ";
      } else if p < 8 + |id| {
        assert prefix[p] == id[p - 8];
      } else {
        assert prefix[p] == CapitalIn[p - 8 - |id|];
        assert 'C' !in CapitalIn;
      }
    }
  }

  /** The context is the prefix "Country <id> has its capital in ", the city,
      and the rest; the city starts with "Ci". */
  lemma ContextParts(sampleId: int)
    ensures ContextText(sampleId) == (CountryName(sampleId) + CapitalIn) + CityName(sampleId)
                                     + (". " + CityName(sampleId) + Tail)
    ensures |CityName(sampleId)| >= 2 && CityName(sampleId)[0] == 'C' && CityName(sampleId)[1] == 'i'
  {
  }

  /** The answer span: the city name is first found right after
      "Country <id> has its capital in ", so `answer_start` is 28 plus the
      length of the id, and the context holds the answer text there. */
  lemma AnswerSpan(sampleId: int)
    ensures AnswerStart(sampleId) == 28 + |IntToString(sampleId)|
    ensures var start := AnswerStart(sampleId);
            ContextText(sampleId)[start..start + |CityName(sampleId)|] == CityName(sampleId)
  {
    var city := CityName(sampleId);
    var prefix := CountryName(sampleId) + CapitalIn;
    var rest := ". " + city + Tail;
    ContextParts(sampleId);
    OnlyLeadingC(sampleId);
    FoundAfterPrefix(prefix, city, rest);
  }

  /** The fields of a generated row: its id is the decimal sample number and
      its answer is the city name at the offset `AnswerSpan` gives. */
  lemma SampleRowFields(sampleId: int)
    ensures var row := SampleRow(sampleId);
            var city := CityName(sampleId);
            row.keys == ["id", "title", "context", "question", "answers"] &&
            Lookup(row, "id") == Some(Str(IntToString(sampleId))) &&
            Lookup(row, "title") == Some(Str(CountryName(sampleId))) &&
            Lookup(row, "context") == Some(Str(ContextText(sampleId))) &&
            Lookup(row, "question") == Some(Str(QuestionText(sampleId))) &&
            Lookup(row, "answers") == Some(Object(DictOf(["text", "answer_start"],
                                                         [List([Str(city)]), List([Int(28 + |IntToString(sampleId)|)])])))
  {
    var row := SampleRow(sampleId);
    var keys := row.keys;
    assert keys[0] == "id" && keys[1] == "title" && keys[2] == "context" && keys[3] == "question" && keys[4] == "answers";
    AnswerSpan(sampleId);
  }

  /** Different sample numbers give rows with different ids, so no id of the
      train split (0 to 3465) is reused by the validation split (10000 to 10344). */
  lemma SampleIdsDistinct(a: int, b: int)
    requires a != b
    ensures Lookup(SampleRow(a), "id") != Lookup(SampleRow(b), "id")
  {
    SampleRowFields(a);
    SampleRowFields(b);
    IntToStringInjective(a, b);
  }

  /** The loop of `_build_split`: for each `idx` in `range(size)`, the row for
      sample number `offset + idx` is appended. The row is built by `sample`. */
  method AppendSamples(size: int, offset: int, sample: int -> Row<Value>) returns (rows: seq<Row<Value>>)
    ensures |rows| == if size < 0 then 0 else size
    ensures forall i :: 0 <= i < |rows| ==> rows[i] == sample(offset + i)
  {
    rows := [];
    var idx := 0;
    while idx < size
      invariant size >= 0 ==> 0 <= idx <= size
      invariant size < 0 ==> idx == 0
      invariant |rows| == idx
      invariant forall i :: 0 <= i < idx ==> rows[i] == sample(offset + i)
    {
      var sampleId := offset + idx;
      rows := rows + [sample(sampleId)];
      idx := idx + 1;
    }
  }

  /** `_build_split(size, offset)`: rows for the sample numbers
      offset, offset + 1, ..., appended in order. */
  method BuildSplit(size: int, offset: int := 0) returns (ds: Dataset<Value>)
    ensures |ds.rows| == if size < 0 then 0 else size
    ensures forall i :: 0 <= i < |ds.rows| ==> ds.rows[i] == SampleRow(offset + i)
  {
    var rows := AppendSamples(size, offset, SampleRow);
    ds := Dataset(rows);
  }

  /** `load_dataset(name)`: only "squad" is known; it has a train split of
      3466 rows numbered from 0 and a validation split of 345 rows numbered
      from 10000. */
  method LoadDataset(name: string) returns (r: Result<DatasetDict<Value>>)
    ensures r.Err? <==> name != "squad"
    ensures r.Err? ==> r.error == UnsupportedDataset(name)
    ensures r.Ok? ==> r.value.keys == ["train", "validation"]
    ensures r.Ok? ==> |r.value.entries["train"].rows| == 3466
                      && forall i :: 0 <= i < 3466 ==> r.value.entries["train"].rows[i] == SampleRow(i)
    ensures r.Ok? ==> |r.value.entries["validation"].rows| == 345
                      && forall i :: 0 <= i < 345 ==> r.value.entries["validation"].rows[i] == SampleRow(10000 + i)
  {
    if name != "squad" {
      return Err(UnsupportedDataset(name));
    }
    var trainSplit := BuildSplit(3466);
    var validationSplit := BuildSplit(345, 10000);
    var splits: DatasetDict<Value> := RawDict(["train", "validation"],
      map["train" := trainSplit, "validation" := validationSplit]);
    r := Ok(splits);
  }
}
