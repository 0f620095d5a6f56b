/** `predict_salary` and `get_local_currency`: the vocabulary gate, the
    one-row frame, `prepare_features`, the alignment onto the frozen training
    columns (`reindex`), the model call and the non-negative clamp. The model,
    the vocabulary, the column list and the currency table are parameters. */
module Infer {
  import opened Wrappers
  import opened Text
  import opened Categories
  import opened Encoding
  import opened Preprocessing
  import opened Schema

  /** The frozen vocabulary (`valid_categories`): the allowed values per field. */
  datatype Vocabulary = Vocabulary(
    country: seq<string>, edLevel: seq<string>, devType: seq<string>,
    industry: seq<string>, age: seq<string>, icOrPm: seq<string>)
  {
    function Of(f: Field): seq<string>
    {
      match f
      case Country => country
      case EdLevel => edLevel
      case DevType => devType
      case Industry => industry
      case Age => age
      case ICorPM => icOrPm
    }
  }

  /** The `ValueError` of the gate: the field, the offending value and the vocabulary size. */
  datatype InferError = InvalidCategory(field: Field, value: string, vocabularySize: nat)

  /** The request's value for a categorical field. */
  function Value(input: SalaryInput, f: Field): string
  {
    match f
    case Country => input.country
    case EdLevel => input.educationLevel
    case DevType => input.devType
    case Industry => input.industry
    case Age => input.age
    case ICorPM => input.icOrPm
  }

  function Reject(input: SalaryInput, vocab: Vocabulary, f: Field): InferError
  {
    InvalidCategory(f, Value(input, f), |vocab.Of(f)|)
  }

  /** The six membership checks, in the order they are written: the request is
      rejected exactly when some value is outside its field's vocabulary, and
      the error names the first such field in field order. */
  function Gate(input: SalaryInput, vocab: Vocabulary): (r: Option<InferError>)
    ensures r.None? <==> forall f: Field :: Value(input, f) in vocab.Of(f)
    ensures r.Some? ==>
      && Value(input, r.value.field) !in vocab.Of(r.value.field)
      && r.value == Reject(input, vocab, r.value.field)
      && forall f: Field :: FieldIndex(f) < FieldIndex(r.value.field) ==> Value(input, f) in vocab.Of(f)
  {
    if input.country !in vocab.country then Some(Reject(input, vocab, Country))
    else if input.educationLevel !in vocab.edLevel then Some(Reject(input, vocab, EdLevel))
    else if input.devType !in vocab.devType then Some(Reject(input, vocab, DevType))
    else if input.industry !in vocab.industry then Some(Reject(input, vocab, Industry))
    else if input.age !in vocab.age then Some(Reject(input, vocab, Age))
    else if input.icOrPm !in vocab.icOrPm then Some(Reject(input, vocab, ICorPM))
    else None
  }

  /** The one-row frame built from a request: six text columns and the two
      experience amounts. */
  function RequestFrame(input: SalaryInput): Frame
  {
    Frame(1,
          map["Country" := [Some(input.country)], "EdLevel" := [Some(input.educationLevel)],
              "DevType" := [Some(input.devType)], "Industry" := [Some(input.industry)],
              "Age" := [Some(input.age)], "ICorPM" := [Some(input.icOrPm)]],
          map["YearsCode" := [Some(input.yearsCode)], "WorkExp" := [Some(input.workExp)]])
  }

  /** The request frame is well formed, has the dtypes `prepare_features` expects,
      and holds each request value in its own column. */
  lemma RequestFrameShape(input: SalaryInput)
    ensures var df := RequestFrame(input);
      && df.Valid() && df.Typed() && df.nrows == 1
      && YearsSource(df) == "YearsCode"
      && df.numeric["YearsCode"] == [Some(input.yearsCode)]
      && df.numeric["WorkExp"] == [Some(input.workExp)]
      && forall f: Field :: FieldName(f) in df.text && df.text[FieldName(f)] == [Some(Value(input, f))]
  {
    var df := RequestFrame(input);
    forall f: Field ensures FieldName(f) in df.text && df.text[FieldName(f)] == [Some(Value(input, f))] {
      match f
      case Country =>
      case EdLevel =>
      case DevType =>
      case Industry =>
      case Age =>
      case ICorPM =>
    }
  }

  /** What the request frame looks like after the rewrites of `prepare_features`:
      apostrophes fixed, then an Other-variant renamed. */
  function Rewrite(v: string, otherName: string): string
  {
    CellValue(Some(v), otherName)
  }

  /** What the encoded request holds under a column name, defined without
      reference to the encoder: the amounts under the experience names, and for
      a dummy name 1 exactly when its level is the field's rewritten value. */
  function RequestEntry(input: SalaryInput, otherName: string, c: string): real
  {
    if c == "YearsCode" then input.yearsCode
    else if c == "WorkExp" then input.workExp
    else match Decode(c)
      case None => 0.0
      case Some(ind) => if ind.level == Rewrite(Value(input, ind.field), otherName) then 1.0 else 0.0
  }

  /** Encoding a request never raises. */
  lemma RequestEncodes(input: SalaryInput, dropFirstConfig: bool, otherName: string)
    ensures RequestFrame(input).Valid()
    ensures Prepared(RequestFrame(input), dropFirstConfig, otherName).Success?
  {
    var df := RequestFrame(input);
    RequestFrameShape(input);
    FeaturizeFailsOnFirstAbsent(df, otherName);
    assert FirstAbsent(df, FillOrder).None? by {
      forall name | name in FillOrder ensures Preprocessing.Fillable(df, name) {
      }
    }
  }

  /** The encoded request's layout: the two amounts, then one dummy per field
      for the field's rewritten value, each holding 1. */
  predicate RequestLayout(input: SalaryInput, otherName: string, t: Table)
  {
    && |t.columns| == 8 && Distinct(t.columns) && |t.rows| == 1 && |t.rows[0]| == 8
    && t.columns[0] == "YearsCode" && t.rows[0][0] == input.yearsCode
    && t.columns[1] == "WorkExp" && t.rows[0][1] == input.workExp
    && forall k :: 2 <= k < 8 ==>
         t.columns[k] == ColumnName(Indicator(Fields[k - 2], Rewrite(Value(input, Fields[k - 2]), otherName)))
         && t.rows[0][k] == 1.0
  }

  /** The encoded request has that layout. */
  lemma RequestTable(input: SalaryInput, dropFirstConfig: bool, otherName: string)
    ensures RequestFrame(input).Valid()
    ensures Prepared(RequestFrame(input), dropFirstConfig, otherName).Success?
    ensures RequestLayout(input, otherName, Prepared(RequestFrame(input), dropFirstConfig, otherName).value)
  {
    var df := RequestFrame(input);
    RequestEncodes(input, dropFirstConfig, otherName);
    RequestFrameShape(input);
    var x := Featurize(df, otherName).value;
    PreparedSingleRow(df, dropFirstConfig, otherName);
    FeaturizeExperienceCells(df, otherName);
    assert Prepared(df, dropFirstConfig, otherName).value == GetDummies(x, false);
  }

  /** A table with that layout holds `RequestEntry` in every column. */
  lemma LayoutEntries(input: SalaryInput, otherName: string, t: Table)
    requires RequestLayout(input, otherName, t)
    ensures forall k :: 0 <= k < |t.columns| ==> t.rows[0][k] == RequestEntry(input, otherName, t.columns[k])
  {
    forall k | 2 <= k < |t.columns|
      ensures t.rows[0][k] == RequestEntry(input, otherName, t.columns[k])
    {
      LayoutDummy(input, otherName, t, k);
    }
  }

  lemma LayoutDummy(input: SalaryInput, otherName: string, t: Table, k: nat)
    requires RequestLayout(input, otherName, t)
    requires 2 <= k < 8
    ensures t.rows[0][k] == RequestEntry(input, otherName, t.columns[k])
  {
    var f := Fields[k - 2];
    var ind := Indicator(f, Rewrite(Value(input, f), otherName));
    assert t.columns[k] == ColumnName(ind);
    ExperienceNamesAreNotIndicators();
    DecodeColumnName(ind);
  }

  /** Under a name that is not a column of a table with that layout,
      `RequestEntry` reads 0. */
  lemma LayoutAbsent(input: SalaryInput, otherName: string, t: Table, c: string)
    requires RequestLayout(input, otherName, t)
    requires c !in t.columns
    ensures RequestEntry(input, otherName, c) == 0.0
  {
    if Decode(c).Some? {
      var ind := Decode(c).value;
      var k := FieldIndex(ind.field) + 2;
      assert Fields[k - 2] == ind.field;
      var own := Indicator(ind.field, Rewrite(Value(input, ind.field), otherName));
      assert t.columns[k] == ColumnName(own);
      EncodeDecoded(c);
      ColumnNameInjective(ind, own);
      assert ind != own;
    }
  }

  /** Every column of the one encoded row holds `RequestEntry`, and every name
      that is not a column would read 0 there. */
  lemma EncodedRequest(input: SalaryInput, dropFirstConfig: bool, otherName: string)
    ensures RequestFrame(input).Valid()
    ensures Prepared(RequestFrame(input), dropFirstConfig, otherName).Success?
    ensures var t := Prepared(RequestFrame(input), dropFirstConfig, otherName).value;
      && Distinct(t.columns) && |t.rows| == 1 && |t.rows[0]| == |t.columns|
      && (forall k :: 0 <= k < |t.columns| ==> t.rows[0][k] == RequestEntry(input, otherName, t.columns[k]))
      && (forall c :: c !in t.columns ==> RequestEntry(input, otherName, c) == 0.0)
  {
    RequestTable(input, dropFirstConfig, otherName);
    var t := Prepared(RequestFrame(input), dropFirstConfig, otherName).value;
    LayoutEntries(input, otherName, t);
    forall c | c !in t.columns ensures RequestEntry(input, otherName, c) == 0.0 {
      LayoutAbsent(input, otherName, t, c);
    }
  }

  /** The position of the first `c` in `cols`, or `|cols|` when there is none. */
  function IndexOf(cols: seq<string>, c: string): (r: nat)
    ensures r <= |cols|
    ensures r < |cols| ==> cols[r] == c
    ensures r == |cols| <==> c !in cols
  {
    if cols == [] then 0
    else if cols[0] == c then 0
    else 1 + IndexOf(cols[1..], c)
  }

  /** One row of `reindex(columns=columns, fill_value=0)`. */
  function AlignRow(cols: seq<string>, row: seq<real>, columns: seq<string>): (r: seq<real>)
    requires Distinct(cols) && |row| == |cols|
    ensures |r| == |columns|
    ensures forall j :: 0 <= j < |columns| && columns[j] !in cols ==> r[j] == 0.0
    ensures forall j, k :: 0 <= j < |columns| && 0 <= k < |cols| && cols[k] == columns[j] ==> r[j] == row[k]
  {
    seq(|columns|, j requires 0 <= j < |columns| =>
      var k := IndexOf(cols, columns[j]);
      if k < |cols| then row[k] else 0.0)
  }

  /** `t.reindex(columns=columns, fill_value=0)`: exactly the requested columns in
      the requested order; a column the table has keeps its values, any other
      reads 0, and the table's remaining columns are dropped. pandas refuses to
      reindex a table whose own column names repeat. */
  function Reindex(t: Table, columns: seq<string>): (r: Table)
    requires Distinct(t.columns)
    requires forall i :: 0 <= i < |t.rows| ==> |t.rows[i]| == |t.columns|
    ensures r.columns == columns && |r.rows| == |t.rows|
    ensures forall i :: 0 <= i < |r.rows| ==> |r.rows[i]| == |columns|
    ensures forall i, j :: 0 <= i < |r.rows| && 0 <= j < |columns| && columns[j] !in t.columns ==>
      r.rows[i][j] == 0.0
    ensures forall i, j, k ::
      (0 <= i < |r.rows| && 0 <= j < |columns| && 0 <= k < |t.columns| && t.columns[k] == columns[j]) ==>
      r.rows[i][j] == t.rows[i][k]
  {
    Table(columns, seq(|t.rows|, i requires 0 <= i < |t.rows| => AlignRow(t.columns, t.rows[i], columns)))
  }

  /** Reindexing a table onto its own columns gives it back. */
  lemma ReindexOwnColumns(t: Table)
    requires Distinct(t.columns)
    requires forall i :: 0 <= i < |t.rows| ==> |t.rows[i]| == |t.columns|
    ensures Reindex(t, t.columns) == t
  {
    var r := Reindex(t, t.columns);
    forall i | 0 <= i < |t.rows| ensures r.rows[i] == t.rows[i] {
      forall j | 0 <= j < |t.columns| ensures r.rows[i][j] == t.rows[i][j] {
      }
    }
  }

  /** The encoded request aligned onto the frozen training columns. */
  function Aligned(input: SalaryInput, featureColumns: seq<string>, dropFirstConfig: bool, otherName: string): (r: Table)
    ensures r.columns == featureColumns && |r.rows| == 1
  {
    EncodedRequest(input, dropFirstConfig, otherName);
    Reindex(Prepared(RequestFrame(input), dropFirstConfig, otherName).value, featureColumns)
  }

  /** The row the model should see, from the reference definition alone. */
  function ReferenceRow(input: SalaryInput, otherName: string, featureColumns: seq<string>): (r: seq<real>)
    ensures |r| == |featureColumns|
  {
    seq(|featureColumns|, j requires 0 <= j < |featureColumns| => RequestEntry(input, otherName, featureColumns[j]))
  }

  /** The aligned table has exactly the frozen columns, in their order, and its
      one row is the reference row, whatever `drop_first` is configured to. */
  lemma AlignedIsReference(input: SalaryInput, featureColumns: seq<string>, dropFirstConfig: bool, otherName: string)
    ensures Aligned(input, featureColumns, dropFirstConfig, otherName)
         == Table(featureColumns, [ReferenceRow(input, otherName, featureColumns)])
  {
    EncodedRequest(input, dropFirstConfig, otherName);
    var t := Prepared(RequestFrame(input), dropFirstConfig, otherName).value;
    var a := Aligned(input, featureColumns, dropFirstConfig, otherName);
    var ref := ReferenceRow(input, otherName, featureColumns);
    forall j | 0 <= j < |featureColumns| ensures a.rows[0][j] == ref[j] {
      var c := featureColumns[j];
      if c in t.columns {
        var k :| 0 <= k < |t.columns| && t.columns[k] == c;
        assert a.rows[0][j] == t.rows[0][k];
      }
    }
    assert a.rows[0] == ref;
    assert a.rows == [ref];
  }

  /** `max(0.0, prediction)`. */
  function Clamp(p: real): (r: real)
    ensures r >= 0.0 && r >= p
    ensures r == p || r == 0.0
  {
    if p > 0.0 then p else 0.0
  }

  /** `predict_salary`: a request outside the vocabulary is rejected with the
      gate's error before anything is encoded; otherwise the model is applied to
      the aligned row, which is the reference row over the frozen columns, and
      the prediction is clamped at 0. */
  function PredictSalary(input: SalaryInput, vocab: Vocabulary, featureColumns: seq<string>,
                         dropFirstConfig: bool, otherName: string, model: Table -> real): (r: Result<real, InferError>)
    ensures r.Failure? <==> Gate(input, vocab).Some?
    ensures r.Failure? ==> r.error == Gate(input, vocab).value
    ensures r.Success? ==> r.value >= 0.0
    ensures r.Success? ==>
      r.value == Clamp(model(Table(featureColumns, [ReferenceRow(input, otherName, featureColumns)])))
  {
    match Gate(input, vocab)
    case Some(e) => Failure(e)
    case None =>
      AlignedIsReference(input, featureColumns, dropFirstConfig, otherName);
      Success(Clamp(model(Aligned(input, featureColumns, dropFirstConfig, otherName))))
  }

  /** A rejected request never reaches encoding or the model: the outcome does
      not depend on the column list, the configuration or the model. */
  lemma RejectionIgnoresModel(input: SalaryInput, vocab: Vocabulary,
                              columns1: seq<string>, dropFirst1: bool, otherName1: string, model1: Table -> real,
                              columns2: seq<string>, dropFirst2: bool, otherName2: string, model2: Table -> real)
    requires Gate(input, vocab).Some?
    ensures PredictSalary(input, vocab, columns1, dropFirst1, otherName1, model1)
         == PredictSalary(input, vocab, columns2, dropFirst2, otherName2, model2)
  {
  }

  /** A value the rewrites of `prepare_features` leave alone: no typographic
      apostrophe and no Other-variant besides the other-category name itself. */
  predicate FixedPoint(v: string, otherName: string)
  {
    RightQuote !in v && (IsOtherVariant(v) ==> v == otherName)
  }

  lemma RewriteFixedPoint(v: string, otherName: string)
    requires FixedPoint(v, otherName)
    ensures Rewrite(v, otherName) == v
  {
  }

  /** For an accepted request whose vocabulary values are all fixed points, the
      row the model sees holds 1 under the field's own dummy `F_v` and 0 under
      every other dummy of that field. */
  lemma AcceptedOneHot(input: SalaryInput, vocab: Vocabulary, featureColumns: seq<string>,
                       dropFirstConfig: bool, otherName: string, f: Field)
    requires Gate(input, vocab).None?
    requires forall v :: v in vocab.Of(f) ==> FixedPoint(v, otherName)
    ensures var row := Aligned(input, featureColumns, dropFirstConfig, otherName).rows[0];
      forall j ::
        (0 <= j < |featureColumns| && Decode(featureColumns[j]).Some? && Decode(featureColumns[j]).value.field == f) ==>
        (row[j] == 1.0 <==> featureColumns[j] == ColumnName(Indicator(f, Value(input, f))))
  {
    AlignedIsReference(input, featureColumns, dropFirstConfig, otherName);
    RewriteFixedPoint(Value(input, f), otherName);
    ExperienceNamesAreNotIndicators();
    forall j | 0 <= j < |featureColumns| && Decode(featureColumns[j]).Some? && Decode(featureColumns[j]).value.field == f
      ensures RequestEntry(input, otherName, featureColumns[j]) == 1.0
          <==> featureColumns[j] == ColumnName(Indicator(f, Value(input, f)))
    {
      var c := featureColumns[j];
      EncodeDecoded(c);
      ColumnNameInjective(Decode(c).value, Indicator(f, Value(input, f)));
      assert c != "YearsCode" && c != "WorkExp";
    }
  }

  /** When the dummy of the request's rewritten value is not among the frozen
      columns, every dummy of that field reads 0: the field is lost to the model. */
  lemma UnfrozenValueReadsZero(input: SalaryInput, featureColumns: seq<string>,
                               dropFirstConfig: bool, otherName: string, f: Field)
    requires ColumnName(Indicator(f, Rewrite(Value(input, f), otherName))) !in featureColumns
    ensures var row := Aligned(input, featureColumns, dropFirstConfig, otherName).rows[0];
      forall j ::
        (0 <= j < |featureColumns| && Decode(featureColumns[j]).Some? && Decode(featureColumns[j]).value.field == f) ==>
        row[j] == 0.0
  {
    AlignedIsReference(input, featureColumns, dropFirstConfig, otherName);
    ExperienceNamesAreNotIndicators();
    forall j | 0 <= j < |featureColumns| && Decode(featureColumns[j]).Some? && Decode(featureColumns[j]).value.field == f
      ensures RequestEntry(input, otherName, featureColumns[j]) == 0.0
    {
      var c := featureColumns[j];
      EncodeDecoded(c);
      assert c != "YearsCode" && c != "WorkExp";
      assert Decode(c).value != Indicator(f, Rewrite(Value(input, f), otherName));
    }
  }

  /** One entry of `currency_rates`; the name is missing when the survey's
      currency string has no name part. */
  datatype CurrencyInfo = CurrencyInfo(code: string, name: Option<string>, rate: real)

  /** The result of `get_local_currency`. */
  datatype LocalCurrency = LocalCurrency(code: string, name: Option<string>, rate: real, salaryLocal: real)

  /** `get_local_currency`: nothing for a country the table lacks; otherwise its
      code, name and rate as stored and the salary converted at that rate. */
  function GetLocalCurrency(rates: map<string, CurrencyInfo>, country: string, salaryUsd: real): (r: Option<LocalCurrency>)
    ensures r.None? <==> country !in rates
    ensures r.Some? ==>
      && r.value.code == rates[country].code
      && r.value.name == rates[country].name
      && r.value.rate == rates[country].rate
      && r.value.salaryLocal == salaryUsd * rates[country].rate
  {
    if country !in rates then None
    else
      var info := rates[country];
      Some(LocalCurrency(info.code, info.name, info.rate, salaryUsd * info.rate))
  }
}
