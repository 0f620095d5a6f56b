/** The artefacts `train.main` freezes for inference: the vocabulary of each
    categorical field, the rows that survive the `drop_other_from` filter, the
    per-country currency table and the training column list. The salary
    filters before them and the model fitting after them are not modelled:
    the survey rows come in after the salary filters. */
module Train {
  import opened Wrappers
  import opened Text
  import opened Categories
  import opened Encoding
  import opened Preprocessing
  import opened Infer
  import opened Schema

  /** One survey response, restricted to the columns the script reads. */
  datatype SurveyRow = SurveyRow(
    country: Option<string>, yearsCode: Option<real>, workExp: Option<real>,
    edLevel: Option<string>, devType: Option<string>, industry: Option<string>,
    age: Option<string>, icOrPm: Option<string>,
    currency: Option<string>, compTotal: Option<real>, convertedCompYearly: Option<real>)
  {
    function Cat(f: Field): Option<string>
    {
      match f
      case Country => country
      case EdLevel => edLevel
      case DevType => devType
      case Industry => industry
      case Age => age
      case ICorPM => icOrPm
    }
  }

  /** The cardinality settings and the `drop_other_from` list of the configuration,
      with the tie order `value_counts` uses among equally frequent values. */
  datatype TrainConfig = TrainConfig(
    otherName: string, maxCategories: nat, minFrequency: nat,
    dropOtherFrom: seq<Field>, dropFirst: bool, rank: Ranker)

  /** A categorical column of the survey. */
  function Col(rows: seq<SurveyRow>, f: Field): (c: Column)
    ensures |c| == |rows|
  {
    seq(|rows|, i requires 0 <= i < |rows| => rows[i].Cat(f))
  }

  function FixRow(row: SurveyRow): SurveyRow
  {
    row.(country := FixApostrophe(row.country), edLevel := FixApostrophe(row.edLevel),
         devType := FixApostrophe(row.devType), industry := FixApostrophe(row.industry),
         age := FixApostrophe(row.age), icOrPm := FixApostrophe(row.icOrPm))
  }

  /** The six `str.replace("’", "'")` statements on the copy. */
  function FixAll(rows: seq<SurveyRow>): (r: seq<SurveyRow>)
    ensures |r| == |rows|
  {
    seq(|rows|, i requires 0 <= i < |rows| => FixRow(rows[i]))
  }

  lemma FixAllColumns(rows: seq<SurveyRow>)
    ensures forall f :: Col(FixAll(rows), f) == FixApostrophes(Col(rows, f))
  {
    forall f ensures Col(FixAll(rows), f) == FixApostrophes(Col(rows, f)) {
      FixAllColumn(rows, f);
    }
  }

  lemma FixAllColumn(rows: seq<SurveyRow>, f: Field)
    ensures Col(FixAll(rows), f) == FixApostrophes(Col(rows, f))
  {
    match f
    case Country =>
    case EdLevel =>
    case DevType =>
    case Industry =>
    case Age =>
    case ICorPM =>
  }

  /** `reduce_cardinality(column)` with the configured settings and tie order. */
  function Reduce(col: Column, cfg: TrainConfig): (r: Column)
    ensures |r| == |col|
    ensures forall i :: 0 <= i < |r| ==> r[i].Some?
  {
    ReduceCardinality(col, cfg.rank(NormalizeOtherCategories(col, cfg.otherName)),
                      cfg.otherName, cfg.maxCategories, cfg.minFrequency)
  }

  function Reduced(rows: seq<SurveyRow>, f: Field, cfg: TrainConfig): (r: Column)
    ensures |r| == |rows|
  {
    Reduce(Col(rows, f), cfg)
  }

  /** The rows with their six categorical columns replaced, column by column. */
  function WithCategories(rows: seq<SurveyRow>, c: Column, e: Column, d: Column, n: Column, a: Column, p: Column)
    : (r: seq<SurveyRow>)
    requires |c| == |e| == |d| == |n| == |a| == |p| == |rows|
    ensures |r| == |rows|
  {
    seq(|rows|, i requires 0 <= i < |rows| =>
      rows[i].(country := c[i], edLevel := e[i], devType := d[i], industry := n[i], age := a[i], icOrPm := p[i]))
  }

  /** The six `reduce_cardinality` statements: each categorical column is
      replaced by its reduction; the other columns are untouched. */
  function ReduceAll(rows: seq<SurveyRow>, cfg: TrainConfig): (r: seq<SurveyRow>)
    ensures |r| == |rows|
  {
    WithCategories(rows, Reduced(rows, Country, cfg), Reduced(rows, EdLevel, cfg), Reduced(rows, DevType, cfg),
                   Reduced(rows, Industry, cfg), Reduced(rows, Age, cfg), Reduced(rows, ICorPM, cfg))
  }

  lemma ReduceAllColumns(rows: seq<SurveyRow>, cfg: TrainConfig)
    ensures forall f :: Col(ReduceAll(rows, cfg), f) == Reduced(rows, f, cfg)
  {
    forall f ensures Col(ReduceAll(rows, cfg), f) == Reduced(rows, f, cfg) {
      ReduceAllColumn(rows, cfg, f);
    }
  }

  lemma ReduceAllColumn(rows: seq<SurveyRow>, cfg: TrainConfig, f: Field)
    ensures Col(ReduceAll(rows, cfg), f) == Reduced(rows, f, cfg)
  {
    match f
    case Country =>
    case EdLevel =>
    case DevType =>
    case Industry =>
    case Age =>
    case ICorPM =>
  }

  /** `df[df[col] != other_name]`: the rows whose value in `f` is not the
      other-category name, in their order. A missing value is kept. */
  function DropRows(rows: seq<SurveyRow>, f: Field, otherName: string): (r: seq<SurveyRow>)
  {
    if rows == [] then []
    else (if rows[0].Cat(f) == Some(otherName) then [] else [rows[0]]) + DropRows(rows[1..], f, otherName)
  }

  /** The `for col in drop_other_from` loop: one `DropRows` per listed field, in order. */
  function DropOther(rows: seq<SurveyRow>, fields: seq<Field>, otherName: string): seq<SurveyRow>
  {
    if fields == [] then rows
    else DropRows(DropOther(rows, fields[..|fields| - 1], otherName), fields[|fields| - 1], otherName)
  }

  /** A row free of the other-category name in every listed field. */
  predicate Clean(row: SurveyRow, fields: seq<Field>, otherName: string)
  {
    forall f :: f in fields ==> row.Cat(f) != Some(otherName)
  }

  /** The clean rows, in order: the reference for the filter loop. */
  function CleanRows(rows: seq<SurveyRow>, fields: seq<Field>, otherName: string): seq<SurveyRow>
  {
    if rows == [] then []
    else (if Clean(rows[0], fields, otherName) then [rows[0]] else []) + CleanRows(rows[1..], fields, otherName)
  }

  /** `a` is `b` with some rows left out, the rest unchanged and in order. */
  predicate Subsequence<T(==)>(a: seq<T>, b: seq<T>)
    decreases |b|
  {
    if a == [] then true
    else if b == [] then false
    else if a[0] == b[0] then Subsequence(a[1..], b[1..])
    else Subsequence(a, b[1..])
  }

  lemma {:induction false} CleanRowsFacts(rows: seq<SurveyRow>, fields: seq<Field>, otherName: string)
    ensures Subsequence(CleanRows(rows, fields, otherName), rows)
    ensures forall row :: row in CleanRows(rows, fields, otherName) <==> row in rows && Clean(row, fields, otherName)
  {
    if rows != [] {
      CleanRowsFacts(rows[1..], fields, otherName);
      assert rows == [rows[0]] + rows[1..];
      var r := CleanRows(rows, fields, otherName);
      if Clean(rows[0], fields, otherName) {
        assert r[0] == rows[0] && r[1..] == CleanRows(rows[1..], fields, otherName);
      } else {
        assert r == CleanRows(rows[1..], fields, otherName);
      }
    }
  }

  lemma CleanAppend(row: SurveyRow, fields: seq<Field>, g: Field, otherName: string)
    ensures Clean(row, fields + [g], otherName) <==> Clean(row, fields, otherName) && row.Cat(g) != Some(otherName)
  {
    assert forall f :: f in fields + [g] <==> f in fields || f == g;
  }

  /** Dropping one more field's other-category rows keeps exactly the rows
      clean in that field too. */
  lemma {:induction false} DropRowsClean(rows: seq<SurveyRow>, fields: seq<Field>, g: Field, otherName: string)
    ensures DropRows(CleanRows(rows, fields, otherName), g, otherName) == CleanRows(rows, fields + [g], otherName)
  {
    if rows != [] {
      var rest := CleanRows(rows[1..], fields, otherName);
      var rest' := CleanRows(rows[1..], fields + [g], otherName);
      DropRowsClean(rows[1..], fields, g, otherName);
      assert DropRows(rest, g, otherName) == rest';
      CleanAppend(rows[0], fields, g, otherName);
      var c := CleanRows(rows, fields, otherName);
      assert CleanRows(rows, fields + [g], otherName)
          == (if Clean(rows[0], fields + [g], otherName) then [rows[0]] else []) + rest';
      if Clean(rows[0], fields, otherName) {
        assert c == [rows[0]] + rest;
        assert c[0] == rows[0] && c[1..] == rest;
        assert DropRows(c, g, otherName)
            == (if rows[0].Cat(g) == Some(otherName) then [] else [rows[0]]) + DropRows(rest, g, otherName);
      } else {
        assert c == rest;
      }
    }
  }

  /** The filter loop keeps exactly the clean rows, unchanged and in order. */
  lemma {:induction false} DropOtherIsClean(rows: seq<SurveyRow>, fields: seq<Field>, otherName: string)
    ensures DropOther(rows, fields, otherName) == CleanRows(rows, fields, otherName)
    decreases |fields|
  {
    if fields == [] {
      NoFieldsClean(rows, otherName);
    } else {
      var init := fields[..|fields| - 1];
      DropOtherIsClean(rows, init, otherName);
      DropRowsClean(rows, init, fields[|fields| - 1], otherName);
      assert init + [fields[|fields| - 1]] == fields;
    }
  }

  lemma {:induction false} NoFieldsClean(rows: seq<SurveyRow>, otherName: string)
    ensures CleanRows(rows, [], otherName) == rows
  {
    if rows != [] {
      NoFieldsClean(rows[1..], otherName);
      assert rows == [rows[0]] + rows[1..];
    }
  }

  /** After the filter no row holds the other-category name in a listed field;
      the surviving rows are the clean input rows, unchanged and in order. */
  lemma DropOtherFacts(rows: seq<SurveyRow>, fields: seq<Field>, otherName: string)
    ensures Subsequence(DropOther(rows, fields, otherName), rows)
    ensures forall row :: row in DropOther(rows, fields, otherName) <==> row in rows && Clean(row, fields, otherName)
    ensures forall f, i :: f in fields && 0 <= i < |DropOther(rows, fields, otherName)| ==>
      DropOther(rows, fields, otherName)[i].Cat(f) != Some(otherName)
  {
    DropOtherIsClean(rows, fields, otherName);
    CleanRowsFacts(rows, fields, otherName);
    var r := DropOther(rows, fields, otherName);
    forall f, i | f in fields && 0 <= i < |r| ensures r[i].Cat(f) != Some(otherName) {
      assert r[i] in r;
    }
  }

  /** `sorted(column.dropna().unique().tolist())`. */
  function Frozen(col: Column): (r: seq<string>)
    ensures StrictlySorted(r)
    ensures forall v :: v in r <==> Some(v) in col
  {
    SortedUnique(Unique(Categories.Present(col)))
  }

  /** `valid_categories`: the frozen values of each field. */
  function Freeze(rows: seq<SurveyRow>): Vocabulary
  {
    Vocabulary(Frozen(Col(rows, Country)), Frozen(Col(rows, EdLevel)), Frozen(Col(rows, DevType)),
               Frozen(Col(rows, Industry)), Frozen(Col(rows, Age)), Frozen(Col(rows, ICorPM)))
  }

  /** Each frozen list is ascending and duplicate-free, and holds exactly the
      values present in its column; missing values are not among them. */
  lemma FreezeFacts(rows: seq<SurveyRow>)
    ensures forall f :: Freeze(rows).Of(f) == Frozen(Col(rows, f))
    ensures forall f :: StrictlySorted(Freeze(rows).Of(f)) && Distinct(Freeze(rows).Of(f))
    ensures forall f, v :: v in Freeze(rows).Of(f) <==> Some(v) in Col(rows, f)
  {
    forall f ensures Freeze(rows).Of(f) == Frozen(Col(rows, f)) {
      FreezeOf(rows, f);
    }
    forall f ensures Distinct(Freeze(rows).Of(f)) {
      SortedIsDistinct(Freeze(rows).Of(f));
    }
  }

  lemma FreezeOf(rows: seq<SurveyRow>, f: Field)
    ensures Freeze(rows).Of(f) == Frozen(Col(rows, f))
  {
    match f
    case Country =>
    case EdLevel =>
    case DevType =>
    case Industry =>
    case Age =>
    case ICorPM =>
  }

  /** The training frame handed to `prepare_features`: the six categorical
      columns and the currency text, the experience columns and the two
      compensation columns. */
  function ToFrame(rows: seq<SurveyRow>): Frame
  {
    Frame(|rows|,
          map["Country" := Col(rows, Country), "EdLevel" := Col(rows, EdLevel), "DevType" := Col(rows, DevType),
              "Industry" := Col(rows, Industry), "Age" := Col(rows, Age), "ICorPM" := Col(rows, ICorPM),
              "Currency" := seq(|rows|, i requires 0 <= i < |rows| => rows[i].currency)],
          map["YearsCode" := seq(|rows|, i requires 0 <= i < |rows| => rows[i].yearsCode),
              "WorkExp" := seq(|rows|, i requires 0 <= i < |rows| => rows[i].workExp),
              "CompTotal" := seq(|rows|, i requires 0 <= i < |rows| => rows[i].compTotal),
              "ConvertedCompYearly" := seq(|rows|, i requires 0 <= i < |rows| => rows[i].convertedCompYearly)])
  }

  lemma ToFrameShape(rows: seq<SurveyRow>)
    ensures var df := ToFrame(rows);
      && df.Valid() && df.Typed() && df.nrows == |rows|
      && forall f: Field :: FieldName(f) in df.text && df.text[FieldName(f)] == Col(rows, f)
  {
    var df := ToFrame(rows);
    forall f: Field ensures FieldName(f) in df.text && df.text[FieldName(f)] == Col(rows, f) {
      ToFrameColumn(rows, f);
    }
    ToFrameValid(rows);
  }

  lemma ToFrameColumn(rows: seq<SurveyRow>, f: Field)
    ensures FieldName(f) in ToFrame(rows).text && ToFrame(rows).text[FieldName(f)] == Col(rows, f)
  {
    match f
    case Country =>
    case EdLevel =>
    case DevType =>
    case Industry =>
    case Age =>
    case ICorPM =>
  }

  lemma ToFrameValid(rows: seq<SurveyRow>)
    ensures ToFrame(rows).Valid() && ToFrame(rows).Typed() && ToFrame(rows).nrows == |rows|
  {
    ToFrameKeys(rows);
  }

  lemma ToFrameKeys(rows: seq<SurveyRow>)
    ensures ToFrame(rows).text.Keys == {"Country", "EdLevel", "DevType", "Industry", "Age", "ICorPM", "Currency"}
    ensures ToFrame(rows).numeric.Keys == {"YearsCode", "WorkExp", "CompTotal", "ConvertedCompYearly"}
    ensures forall name :: name in ToFrame(rows).text ==> |ToFrame(rows).text[name]| == |rows|
    ensures forall name :: name in ToFrame(rows).numeric ==> |ToFrame(rows).numeric[name]| == |rows|
  {
  }

  /** `prepare_features(df)` on the training rows never raises. */
  lemma TrainingEncodes(rows: seq<SurveyRow>, cfg: TrainConfig)
    ensures ToFrame(rows).Valid()
    ensures Prepared(ToFrame(rows), cfg.dropFirst, cfg.otherName).Success?
  {
    var df := ToFrame(rows);
    ToFrameShape(rows);
    FeaturizeFailsOnFirstAbsent(df, cfg.otherName);
    assert FirstAbsent(df, FillOrder).None? by {
      forall name | name in FillOrder ensures Preprocessing.Fillable(df, name) {
      }
    }
  }

  /** `list(X.columns)` for `X = prepare_features(df)`. */
  function FeatureColumns(rows: seq<SurveyRow>, cfg: TrainConfig): seq<string>
  {
    TrainingEncodes(rows, cfg);
    Prepared(ToFrame(rows), cfg.dropFirst, cfg.otherName).value.columns
  }

  /** The position of the first whitespace character, or `|s|`. */
  function FirstSpace(s: string): (k: nat)
    ensures k <= |s|
    ensures k < |s| ==> IsSpace(s[k])
    ensures forall i :: 0 <= i < k ==> !IsSpace(s[i])
  {
    if s == [] then 0
    else if IsSpace(s[0]) then 0
    else 1 + FirstSpace(s[1..])
  }

  /** The end of the whitespace run that starts at `k`. */
  function SpaceRunEnd(s: string, k: nat): (e: nat)
    requires k <= |s|
    ensures k <= e <= |s|
    ensures forall i :: k <= i < e ==> IsSpace(s[i])
    ensures e < |s| ==> !IsSpace(s[e])
    decreases |s| - k
  {
    if k == |s| || !IsSpace(s[k]) then k else SpaceRunEnd(s, k + 1)
  }

  /** The two parts of a survey currency string such as "EUR European Euro". */
  datatype CurrencyParts = CurrencyParts(code: string, name: Option<string>)

  /** `str.split(r"\s+", n=1)`: the code is the text before the first whitespace
      run and the name the text after it; without whitespace there is no name. */
  function SplitCurrency(s: string): CurrencyParts
  {
    var k := FirstSpace(s);
    if k == |s| then CurrencyParts(s, None)
    else CurrencyParts(s[..k], Some(s[SpaceRunEnd(s, k)..]))
  }

  predicate NoSpace(s: string)
  {
    forall i :: 0 <= i < |s| ==> !IsSpace(s[i])
  }

  predicate AllSpace(s: string)
  {
    forall i :: 0 <= i < |s| ==> IsSpace(s[i])
  }

  /** Splitting loses nothing: the code has no whitespace, and the string is
      the code alone or the code, a non-empty whitespace run and the name,
      which does not start with whitespace. */
  lemma SplitCurrencyParts(s: string)
    ensures var p := SplitCurrency(s);
      && NoSpace(p.code)
      && (p.name.None? ==> p.code == s)
      && (p.name.Some? ==> exists sep ::
            |sep| > 0 && AllSpace(sep) && s == p.code + sep + p.name.value
            && (p.name.value == [] || !IsSpace(p.name.value[0])))
  {
    var k := FirstSpace(s);
    var p := SplitCurrency(s);
    if k < |s| {
      var e := SpaceRunEnd(s, k);
      var sep := s[k..e];
      assert p == CurrencyParts(s[..k], Some(s[e..]));
      assert NoSpace(p.code) by {
        forall i | 0 <= i < |p.code| ensures !IsSpace(p.code[i]) {
          assert p.code[i] == s[i];
        }
      }
      assert AllSpace(sep) by {
        forall i | 0 <= i < |sep| ensures IsSpace(sep[i]) {
          assert sep[i] == s[k + i];
        }
      }
      assert s == p.code + sep + p.name.value;
      assert p.name.value == [] || p.name.value[0] == s[e];
    } else {
      assert p == CurrencyParts(s, None);
    }
  }

  /** Joining a code, a whitespace run and a name splits back into that code and name. */
  lemma SplitCurrencyJoin(code: string, sep: string, name: string)
    requires NoSpace(code) && |sep| > 0 && AllSpace(sep)
    requires name == [] || !IsSpace(name[0])
    ensures SplitCurrency(code + sep + name) == CurrencyParts(code, Some(name))
  {
    var s := code + sep + name;
    FirstSpaceAt(s, |code|);
    assert s[..|code|] == code;
    SpaceRunEndAt(s, |code|, |code| + |sep|);
    assert s[|code| + |sep|..] == name;
  }

  /** A string without whitespace is a bare code. */
  lemma SplitCurrencyCode(code: string)
    requires NoSpace(code)
    ensures SplitCurrency(code) == CurrencyParts(code, None)
  {
    FirstSpaceAt(code, |code|);
  }

  lemma {:induction false} FirstSpaceAt(s: string, k: nat)
    requires k <= |s|
    requires forall i :: 0 <= i < k ==> !IsSpace(s[i])
    requires k < |s| ==> IsSpace(s[k])
    ensures FirstSpace(s) == k
  {
    if s != [] && k > 0 {
      FirstSpaceAt(s[1..], k - 1);
    }
  }

  lemma {:induction false} SpaceRunEndAt(s: string, k: nat, e: nat)
    requires k <= e <= |s|
    requires forall i :: k <= i < e ==> IsSpace(s[i])
    requires e < |s| ==> !IsSpace(s[e])
    ensures SpaceRunEnd(s, k) == e
    decreases e - k
  {
    if k < e {
      SpaceRunEndAt(s, k + 1, e);
    }
  }

  /** The candidate at the first position with the highest count in `codes`. */
  function Best(cands: seq<string>, codes: seq<string>): (b: nat)
    requires cands != []
    ensures b < |cands|
    ensures forall k :: 0 <= k < |cands| ==> Occurrences(codes, cands[k]) <= Occurrences(codes, cands[b])
    ensures forall k :: 0 <= k < b ==> Occurrences(codes, cands[k]) < Occurrences(codes, cands[b])
  {
    if |cands| == 1 then 0
    else
      var b := 1 + Best(cands[1..], codes);
      assert forall k :: 1 <= k < |cands| ==> cands[k] == cands[1..][k - 1];
      if Occurrences(codes, cands[0]) >= Occurrences(codes, cands[b]) then 0 else b
  }

  /** `series.mode().iloc[0]`: the most frequent code, the least one among equally frequent. */
  function Mode(codes: seq<string>): (m: string)
    requires codes != []
  {
    var cands := SortedUnique(codes);
    assert codes[0] in cands;
    cands[Best(cands, codes)]
  }

  /** The mode occurs in the list, no code is more frequent, and every other
      code as frequent comes after it in `str` order. */
  lemma ModeFacts(codes: seq<string>)
    requires codes != []
    ensures Mode(codes) in codes
    ensures forall c :: c in codes ==> Occurrences(codes, c) <= Occurrences(codes, Mode(codes))
    ensures forall c :: c in codes && c != Mode(codes) && Occurrences(codes, c) == Occurrences(codes, Mode(codes)) ==>
      Less(Mode(codes), c)
  {
    var cands := SortedUnique(codes);
    assert codes[0] in cands;
    var b := Best(cands, codes);
    forall c | c in codes && c != cands[b] && Occurrences(codes, c) == Occurrences(codes, cands[b])
      ensures Less(cands[b], c)
    {
      var k :| 0 <= k < |cands| && cands[k] == c;
      assert k > b;
    }
  }

  /** A row `currency_df` keeps: country, currency and both compensation
      figures present, and a conversion rate inside the accepted window. */
  predicate Usable(row: SurveyRow)
  {
    && row.country.Some? && row.currency.Some? && row.compTotal.Some? && row.convertedCompYearly.Some?
    && row.convertedCompYearly.value != 0.0
    && 0.001 < row.compTotal.value / row.convertedCompYearly.value < 100000.0
  }

  function Rate(row: SurveyRow): real
    requires Usable(row)
  {
    row.compTotal.value / row.convertedCompYearly.value
  }

  function Code(row: SurveyRow): string
    requires Usable(row)
  {
    SplitCurrency(row.currency.value).code
  }

  /** `currency_df[currency_df["Country"] == country]`. */
  function CountryRows(rows: seq<SurveyRow>, country: string): (r: seq<SurveyRow>)
    ensures forall row :: row in r <==> row in rows && Usable(row) && row.country == Some(country)
    ensures forall i :: 0 <= i < |r| ==> Usable(r[i])
  {
    if rows == [] then []
    else
      assert rows == [rows[0]] + rows[1..];
      (if Usable(rows[0]) && rows[0].country == Some(country) then [rows[0]] else []) + CountryRows(rows[1..], country)
  }

  function Codes(rows: seq<SurveyRow>): (r: seq<string>)
    requires forall row :: row in rows ==> Usable(row)
    ensures |r| == |rows|
  {
    seq(|rows|, i requires 0 <= i < |rows| => Code(rows[i]))
  }

  /** `country_data[country_data["CurrencyCode"] == code]`. */
  function WithCode(rows: seq<SurveyRow>, code: string): (r: seq<SurveyRow>)
    requires forall row :: row in rows ==> Usable(row)
    ensures forall row :: row in r <==> row in rows && Code(row) == code
    ensures code in Codes(rows) ==> r != []
  {
    if rows == [] then []
    else
      assert rows == [rows[0]] + rows[1..];
      assert code in Codes(rows) && Code(rows[0]) != code ==> code in Codes(rows[1..]) by {
        if code in Codes(rows) && Code(rows[0]) != code {
          var k :| 0 <= k < |rows| && Codes(rows)[k] == code;
          assert Codes(rows[1..])[k - 1] == code;
        }
      }
      (if Code(rows[0]) == code then [rows[0]] else []) + WithCode(rows[1..], code)
  }

  function Rates(rows: seq<SurveyRow>): (r: seq<real>)
    requires forall row :: row in rows ==> Usable(row)
  {
    seq(|rows|, i requires 0 <= i < |rows| => Rate(rows[i]))
  }

  /** One iteration of the currency loop: nothing for a country without usable
      rows; otherwise the country's most common code, the name written on its
      first row with that code, and `median` (the rounded median) of those rows' rates. */
  function CountryCurrency(rows: seq<SurveyRow>, country: string, median: seq<real> -> real): (r: Option<CurrencyInfo>)
    ensures r.None? <==> CountryRows(rows, country) == []
  {
    var data := CountryRows(rows, country);
    if data == [] then None
    else
      var code := Mode(Codes(data));
      ModeFacts(Codes(data));
      var named := WithCode(data, code);
      Some(CurrencyInfo(code, SplitCurrency(named[0].currency.value).name, median(Rates(named))))
  }

  /** The first row carrying `code` leads the rows with that code. */
  lemma {:induction false} WithCodeFirst(rows: seq<SurveyRow>, code: string)
    requires forall row :: row in rows ==> Usable(row)
    requires WithCode(rows, code) != []
    ensures exists i :: (0 <= i < |rows| && WithCode(rows, code)[0] == rows[i] && Code(rows[i]) == code
      && forall j :: 0 <= j < i ==> Code(rows[j]) != code)
  {
    var tail := rows[1..];
    assert rows == [rows[0]] + tail;
    if Code(rows[0]) == code {
      assert WithCode(rows, code)[0] == rows[0];
      assert WithCodeLeads(rows, code, 0);
    } else {
      assert WithCode(rows, code) == WithCode(tail, code);
      WithCodeFirst(tail, code);
      var i :| 0 <= i < |tail| && WithCode(tail, code)[0] == tail[i] && Code(tail[i]) == code
        && forall j :: 0 <= j < i ==> Code(tail[j]) != code;
      assert rows[i + 1] == tail[i];
      forall j | 0 <= j < i + 1 ensures Code(rows[j]) != code {
        if j > 0 {
          assert rows[j] == tail[j - 1];
        }
      }
      assert WithCodeLeads(rows, code, i + 1);
    }
  }

  predicate WithCodeLeads(rows: seq<SurveyRow>, code: string, i: int)
    requires forall row :: row in rows ==> Usable(row)
    requires WithCode(rows, code) != []
  {
    0 <= i < |rows| && WithCode(rows, code)[0] == rows[i] && Code(rows[i]) == code
    && forall j :: 0 <= j < i ==> Code(rows[j]) != code
  }

  /** A country's entry holds its most common currency code (the least such code
      when several are equally common), the name written on the first of its
      rows with that code, and the median of the rates of exactly those rows. */
  lemma CountryCurrencyFacts(rows: seq<SurveyRow>, country: string, median: seq<real> -> real)
    requires CountryRows(rows, country) != []
    ensures var data := CountryRows(rows, country);
      var info := CountryCurrency(rows, country, median).value;
      var codes := Codes(data);
      && info.code in codes
      && (forall c :: c in codes ==> Occurrences(codes, c) <= Occurrences(codes, info.code))
      && (forall c :: c in codes && c != info.code && Occurrences(codes, c) == Occurrences(codes, info.code) ==>
            Less(info.code, c))
      && (exists i :: (0 <= i < |data| && Code(data[i]) == info.code
            && info.name == SplitCurrency(data[i].currency.value).name
            && forall j :: 0 <= j < i ==> Code(data[j]) != info.code))
      && info.rate == median(Rates(WithCode(data, info.code)))
  {
    var data := CountryRows(rows, country);
    ModeFacts(Codes(data));
    WithCodeFirst(data, Mode(Codes(data)));
  }

  /** The currency table after the loop has visited `countries`. */
  function CurrencyRates(rows: seq<SurveyRow>, countries: seq<string>, median: seq<real> -> real): map<string, CurrencyInfo>
  {
    if countries == [] then map[]
    else
      var table := CurrencyRates(rows, countries[..|countries| - 1], median);
      var country := countries[|countries| - 1];
      match CountryCurrency(rows, country, median)
      case None => table
      case Some(info) => table[country := info]
  }

  /** The table has an entry exactly for the listed countries with usable rows,
      and that entry is the country's own currency. */
  lemma {:induction false} CurrencyRatesKeys(rows: seq<SurveyRow>, countries: seq<string>, median: seq<real> -> real)
    ensures forall c :: c in CurrencyRates(rows, countries, median) <==> c in countries && CountryRows(rows, c) != []
    ensures forall c :: c in CurrencyRates(rows, countries, median) ==>
      CurrencyRates(rows, countries, median)[c] == CountryCurrency(rows, c, median).value
  {
    if countries != [] {
      var init := countries[..|countries| - 1];
      CurrencyRatesKeys(rows, init, median);
      assert countries == init + [countries[|countries| - 1]];
    }
  }

  lemma CurrencyRatesStep(rows: seq<SurveyRow>, countries: seq<string>, k: nat, median: seq<real> -> real)
    requires k < |countries|
    ensures CurrencyRates(rows, countries[..k + 1], median)
         == match CountryCurrency(rows, countries[k], median)
            case None => CurrencyRates(rows, countries[..k], median)
            case Some(info) => CurrencyRates(rows, countries[..k], median)[countries[k] := info]
  {
    assert countries[..k + 1][..k] == countries[..k];
  }

  /** The currency loop: one `CountryCurrency` step per vocabulary country. */
  method BuildCurrencyRates(rows: seq<SurveyRow>, countries: seq<string>, median: seq<real> -> real)
    returns (rates: map<string, CurrencyInfo>)
    ensures rates == CurrencyRates(rows, countries, median)
  {
    rates := map[];
    for k := 0 to |countries|
      invariant rates == CurrencyRates(rows, countries[..k], median)
    {
      CurrencyRatesStep(rows, countries, k, median);
      var country := countries[k];
      var data := CountryRows(rows, country);
      if data == [] {
        continue;
      }
      var code := Mode(Codes(data));
      ModeFacts(Codes(data));
      var named := WithCode(data, code);
      var fullName := SplitCurrency(named[0].currency.value).name;
      assert CountryCurrency(rows, country, median) == Some(CurrencyInfo(code, fullName, median(Rates(named))));
      rates := rates[country := CurrencyInfo(code, fullName, median(Rates(named)))];
    }
    assert countries[..|countries|] == countries;
  }

  /** What training leaves for inference. */
  datatype Artifacts = Artifacts(vocabulary: Vocabulary, currencyRates: map<string, CurrencyInfo>,
                                 featureColumns: seq<string>)

  /** `df_copy` after its rewrites and the filter: apostrophes fixed, then reduced. */
  function CopyRows(raw: seq<SurveyRow>, cfg: TrainConfig): seq<SurveyRow>
  {
    DropOther(ReduceAll(FixAll(raw), cfg), cfg.dropOtherFrom, cfg.otherName)
  }

  /** `df` after its rewrites and the filter: reduced with the apostrophes as given. */
  function MainRows(raw: seq<SurveyRow>, cfg: TrainConfig): seq<SurveyRow>
  {
    DropOther(ReduceAll(raw, cfg), cfg.dropOtherFrom, cfg.otherName)
  }

  /** The artefacts as `train.main` computes them: the vocabulary from `df_copy`,
      the currency table and the training columns from `df`. */
  function TrainAsWritten(raw: seq<SurveyRow>, cfg: TrainConfig, median: seq<real> -> real): Artifacts
  {
    var vocabulary := Freeze(CopyRows(raw, cfg));
    var rows := MainRows(raw, cfg);
    Artifacts(vocabulary, CurrencyRates(rows, vocabulary.country, median), FeatureColumns(rows, cfg))
  }

  /** The artefacts when `df` gets the same apostrophe fix before its reduction,
      so that vocabulary, currency table and columns come from one frame. */
  function TrainCorrected(raw: seq<SurveyRow>, cfg: TrainConfig, median: seq<real> -> real): Artifacts
  {
    var rows := CopyRows(raw, cfg);
    var vocabulary := Freeze(rows);
    Artifacts(vocabulary, CurrencyRates(rows, vocabulary.country, median), FeatureColumns(rows, cfg))
  }

  /** The `for col in drop_other_from` loop, which filters `df` and `df_copy`
      field by field in the same pass. */
  method DropOtherBoth(df0: seq<SurveyRow>, copy0: seq<SurveyRow>, fields: seq<Field>, otherName: string)
    returns (df: seq<SurveyRow>, copy: seq<SurveyRow>)
    ensures df == DropOther(df0, fields, otherName)
    ensures copy == DropOther(copy0, fields, otherName)
  {
    df, copy := df0, copy0;
    for k := 0 to |fields|
      invariant df == DropOther(df0, fields[..k], otherName)
      invariant copy == DropOther(copy0, fields[..k], otherName)
    {
      assert fields[..k + 1][..k] == fields[..k];
      df := DropRows(df, fields[k], otherName);
      copy := DropRows(copy, fields[k], otherName);
    }
    assert fields[..|fields|] == fields;
  }

  /** `main` from the salary-filtered rows to the artefacts: the two frames are
      rewritten, the `drop_other_from` loop filters both, then the vocabulary,
      the training columns and the currency table are taken. */
  method TrainArtifacts(raw: seq<SurveyRow>, cfg: TrainConfig, median: seq<real> -> real) returns (a: Artifacts)
    ensures a == TrainAsWritten(raw, cfg, median)
  {
    var copy := FixAll(raw);
    copy := ReduceAll(copy, cfg);
    var df := ReduceAll(raw, cfg);
    df, copy := DropOtherBoth(df, copy, cfg.dropOtherFrom, cfg.otherName);
    var columns := FeatureColumns(df, cfg);
    var vocabulary := Freeze(copy);
    var rates := BuildCurrencyRates(df, vocabulary.country, median);
    a := Artifacts(vocabulary, rates, columns);
  }

  /** Every currency-table key is a country of the frozen vocabulary with usable
      rows; a vocabulary country without usable rows is skipped. */
  lemma CurrencyKeysInVocabulary(raw: seq<SurveyRow>, cfg: TrainConfig, median: seq<real> -> real)
    ensures var a := TrainAsWritten(raw, cfg, median);
      forall c :: c in a.currencyRates <==> c in a.vocabulary.country && CountryRows(MainRows(raw, cfg), c) != []
  {
    var a := TrainAsWritten(raw, cfg, median);
    CurrencyRatesKeys(MainRows(raw, cfg), a.vocabulary.country, median);
  }

  /** Hence inference finds no local currency for a country outside the vocabulary. */
  lemma NoCurrencyOutsideVocabulary(raw: seq<SurveyRow>, cfg: TrainConfig, median: seq<real> -> real,
                                    country: string, salaryUsd: real)
    requires country !in TrainAsWritten(raw, cfg, median).vocabulary.country
    ensures GetLocalCurrency(TrainAsWritten(raw, cfg, median).currencyRates, country, salaryUsd).None?
  {
    CurrencyKeysInVocabulary(raw, cfg, median);
  }

  /** The values `reduce_cardinality` counts when the vocabulary of `f` is made:
      the apostrophe-fixed column with its Other-variants renamed. */
  function CopyCounted(raw: seq<SurveyRow>, f: Field, cfg: TrainConfig): Column
  {
    NormalizeOtherCategories(FixApostrophes(Col(raw, f)), cfg.otherName)
  }

  /** A value that survives that reduction: among the top `max_categories` and
      at least `min_frequency` times present. */
  predicate KeptValue(raw: seq<SurveyRow>, f: Field, cfg: TrainConfig, v: string)
  {
    var n := CopyCounted(raw, f, cfg);
    Some(v) in n && v in Head(cfg.rank(n), cfg.maxCategories) && Count(n, v) >= cfg.minFrequency
  }

  /** Every cell of `df_copy` after the filter is present, and is either the
      other-category name or a kept value, free of the typographic apostrophe
      and of Other-variants. */
  lemma CopyCell(raw: seq<SurveyRow>, cfg: TrainConfig, f: Field, i: nat)
    requires i < |CopyRows(raw, cfg)|
    ensures var c := CopyRows(raw, cfg)[i].Cat(f);
      && c.Some?
      && (c.value == cfg.otherName || KeptValue(raw, f, cfg, c.value))
      && (c.value == cfg.otherName || (RightQuote !in c.value && !IsOtherVariant(c.value)))
  {
    var j := CopyRowOrigin(raw, cfg, i);
    ReducedFixedCell(raw, cfg, f, j);
  }

  /** Each row of the filtered copy is a row of the reduced copy. */
  lemma CopyRowOrigin(raw: seq<SurveyRow>, cfg: TrainConfig, i: nat) returns (j: nat)
    requires i < |CopyRows(raw, cfg)|
    ensures j < |raw| && CopyRows(raw, cfg)[i] == ReduceAll(FixAll(raw), cfg)[j]
  {
    var reduced := ReduceAll(FixAll(raw), cfg);
    DropOtherFacts(reduced, cfg.dropOtherFrom, cfg.otherName);
    assert CopyRows(raw, cfg)[i] in reduced;
    var k :| 0 <= k < |reduced| && reduced[k] == CopyRows(raw, cfg)[i];
    j := k;
  }

  /** A cell of the reduced copy is the other-category name or a kept value of
      the counted column, left there unchanged. */
  lemma ReducedFixedCell(raw: seq<SurveyRow>, cfg: TrainConfig, f: Field, j: nat)
    requires j < |raw|
    ensures var c := ReduceAll(FixAll(raw), cfg)[j].Cat(f);
      && c.Some?
      && (c.value == cfg.otherName || (KeptValue(raw, f, cfg, c.value) && c == CopyCounted(raw, f, cfg)[j]))
      && (c.value == cfg.otherName || (RightQuote !in c.value && !IsOtherVariant(c.value)))
  {
    ReduceAllColumn(FixAll(raw), cfg, f);
    FixAllColumn(raw, f);
    var col := FixApostrophes(Col(raw, f));
    var c := ReduceAll(FixAll(raw), cfg)[j].Cat(f);
    assert Col(ReduceAll(FixAll(raw), cfg), f)[j] == c;
    assert c == Reduce(col, cfg)[j];
    var n := CopyCounted(raw, f, cfg);
    if c != Some(cfg.otherName) {
      assert c == n[j];
      assert n[j] in n;
      assert c == col[j];
    }
  }

  /** Each vocabulary value is the other-category name or a value kept by the
      reduction of the apostrophe-fixed column; when the other-category name has
      no typographic apostrophe, every vocabulary value is left alone by the
      rewrites of `prepare_features`. */
  lemma VocabularyValues(raw: seq<SurveyRow>, cfg: TrainConfig, f: Field, v: string)
    requires v in Freeze(CopyRows(raw, cfg)).Of(f)
    ensures v == cfg.otherName || KeptValue(raw, f, cfg, v)
    ensures RightQuote !in cfg.otherName ==> FixedPoint(v, cfg.otherName)
  {
    var i := FrozenRow(CopyRows(raw, cfg), f, v);
    CopyCell(raw, cfg, f, i);
  }

  /** A frozen value comes from some row of the frame it was frozen from. */
  lemma FrozenRow(rows: seq<SurveyRow>, f: Field, v: string) returns (i: nat)
    requires v in Freeze(rows).Of(f)
    ensures i < |rows| && rows[i].Cat(f) == Some(v)
  {
    FreezeOf(rows, f);
    var col := Col(rows, f);
    assert Some(v) in col;
    var k :| 0 <= k < |col| && col[k] == Some(v);
    i := k;
  }

  /** `other_name` is never frozen for a field listed in `drop_other_from`. */
  lemma OtherNotFrozen(raw: seq<SurveyRow>, cfg: TrainConfig, f: Field)
    requires f in cfg.dropOtherFrom
    ensures cfg.otherName !in Freeze(CopyRows(raw, cfg)).Of(f)
  {
    var rows := CopyRows(raw, cfg);
    FreezeFacts(rows);
    DropOtherFacts(ReduceAll(FixAll(raw), cfg), cfg.dropOtherFrom, cfg.otherName);
  }

  /** The values a categorical column of the training rows ends up with after
      the rewrites and fills of `prepare_features`. */
  function Cells(rows: seq<SurveyRow>, f: Field, otherName: string): (r: seq<string>)
    ensures |r| == |rows|
  {
    seq(|rows|, i requires 0 <= i < |rows| => CellValue(rows[i].Cat(f), otherName))
  }

  /** The dummy levels of `f` in the training matrix, stated on the rows: the
      distinct rewritten values ascending, without the least when `drop_first`
      applies. */
  function TrainingLevels(rows: seq<SurveyRow>, f: Field, cfg: TrainConfig): seq<string>
  {
    var l := SortedUnique(Cells(rows, f, cfg.otherName));
    if DropFirst(|rows|, cfg.dropFirst) && l != [] then l[1..] else l
  }

  /** The persisted column list is the training matrix's: the two experience
      columns, then a dummy `F_v` exactly for each training level `v` of `F`. */
  lemma FeatureColumnsLayout(rows: seq<SurveyRow>, cfg: TrainConfig)
    ensures var fc := FeatureColumns(rows, cfg);
      && |fc| >= 2 && fc[0] == "YearsCode" && fc[1] == "WorkExp" && Distinct(fc)
      && forall f, v :: ColumnName(Indicator(f, v)) in fc <==> v in TrainingLevels(rows, f, cfg)
  {
    var df := ToFrame(rows);
    TrainingEncodes(rows, cfg);
    var x := Featurize(df, cfg.otherName).value;
    var d := DropFirst(df.nrows, cfg.dropFirst);
    assert FeatureColumns(rows, cfg) == GetDummies(x, d).columns;
    forall f, v ensures ColumnName(Indicator(f, v)) in GetDummies(x, d).columns <==> v in TrainingLevels(rows, f, cfg) {
      TrainingCells(rows, cfg.otherName, f);
      DummyColumnIn(x, d, f, v);
    }
  }

  /** The categorical columns of the featurized training rows are their `Cells`. */
  lemma TrainingCells(rows: seq<SurveyRow>, otherName: string, f: Field)
    requires Featurize(ToFrame(rows), otherName).Success?
    ensures Featurize(ToFrame(rows), otherName).value.Cat(f) == Cells(rows, f, otherName)
  {
    var df := ToFrame(rows);
    ToFrameShape(rows);
    FeaturizeCategoryCells(df, otherName);
  }

  /** Where every cell of a field is present and left alone by the rewrites,
      the training levels before any `drop_first` are the frozen values. */
  lemma FixedCellsFrozen(rows: seq<SurveyRow>, f: Field, otherName: string)
    requires forall i :: 0 <= i < |rows| ==> rows[i].Cat(f).Some? && FixedPoint(rows[i].Cat(f).value, otherName)
    ensures SortedUnique(Cells(rows, f, otherName)) == Frozen(Col(rows, f))
  {
    var cells := Cells(rows, f, otherName);
    forall y ensures y in cells <==> Some(y) in Col(rows, f) {
      if y in cells {
        var i :| 0 <= i < |cells| && cells[i] == y;
        RewriteFixedPoint(rows[i].Cat(f).value, otherName);
        assert Col(rows, f)[i] == Some(y);
      }
      if Some(y) in Col(rows, f) {
        var i :| 0 <= i < |Col(rows, f)| && Col(rows, f)[i] == Some(y);
        RewriteFixedPoint(y, otherName);
        assert cells[i] == y;
      }
    }
    SortedDetermined(SortedUnique(cells), Frozen(Col(rows, f)));
  }

  /** On the filtered copy the rewrites of `prepare_features` change nothing, so
      its training levels before any `drop_first` are exactly the frozen values. */
  lemma CopyLevelsFrozen(raw: seq<SurveyRow>, cfg: TrainConfig, f: Field)
    requires RightQuote !in cfg.otherName
    ensures SortedUnique(Cells(CopyRows(raw, cfg), f, cfg.otherName)) == Freeze(CopyRows(raw, cfg)).Of(f)
  {
    var rows := CopyRows(raw, cfg);
    FreezeFacts(rows);
    forall i | 0 <= i < |rows| ensures rows[i].Cat(f).Some? && FixedPoint(rows[i].Cat(f).value, cfg.otherName) {
      CopyCell(raw, cfg, f, i);
    }
    FixedCellsFrozen(rows, f, cfg.otherName);
  }

  /** With `df` fixed like the copy, every vocabulary value has its training
      column, except the least one of a field when `drop_first` applies. */
  lemma CorrectedCoverage(raw: seq<SurveyRow>, cfg: TrainConfig, median: seq<real> -> real, f: Field, v: string)
    requires RightQuote !in cfg.otherName
    ensures var a := TrainCorrected(raw, cfg, median);
      var l := a.vocabulary.Of(f);
      ColumnName(Indicator(f, v)) in a.featureColumns <==>
        v in (if DropFirst(|CopyRows(raw, cfg)|, cfg.dropFirst) && l != [] then l[1..] else l)
  {
    var rows := CopyRows(raw, cfg);
    CopyLevelsFrozen(raw, cfg, f);
    FeatureColumnsLayout(rows, cfg);
    assert TrainCorrected(raw, cfg, median).featureColumns == FeatureColumns(rows, cfg);
    assert TrainCorrected(raw, cfg, median).vocabulary == Freeze(rows);
  }

  /** Raw categorical values free of the typographic apostrophe. */
  predicate NoRightQuote(raw: seq<SurveyRow>)
  {
    forall i, f :: 0 <= i < |raw| && raw[i].Cat(f).Some? ==> RightQuote !in raw[i].Cat(f).value
  }

  lemma FixAllIdentity(raw: seq<SurveyRow>)
    requires NoRightQuote(raw)
    ensures FixAll(raw) == raw
  {
    forall i | 0 <= i < |raw| ensures FixRow(raw[i]) == raw[i] {
      var row := raw[i];
      forall f ensures FixApostrophe(row.Cat(f)) == row.Cat(f) {
      }
      assert FixApostrophe(row.Cat(Country)) == row.country;
      assert FixApostrophe(row.Cat(EdLevel)) == row.edLevel;
      assert FixApostrophe(row.Cat(DevType)) == row.devType;
      assert FixApostrophe(row.Cat(Industry)) == row.industry;
      assert FixApostrophe(row.Cat(Age)) == row.age;
      assert FixApostrophe(row.Cat(ICorPM)) == row.icOrPm;
    }
  }

  /** Without typographic apostrophes in the raw values, the two frames get the
      same rewrites and `train.main` produces the corrected artefacts. */
  lemma AsWrittenAgrees(raw: seq<SurveyRow>, cfg: TrainConfig, median: seq<real> -> real)
    requires NoRightQuote(raw)
    ensures TrainAsWritten(raw, cfg, median) == TrainCorrected(raw, cfg, median)
  {
    FixAllIdentity(raw);
  }

  /** Hence, under that hypothesis, every vocabulary value of the artefacts as
      written has its training column (the least one aside under `drop_first`). */
  lemma AsWrittenCoverage(raw: seq<SurveyRow>, cfg: TrainConfig, median: seq<real> -> real, f: Field, v: string)
    requires NoRightQuote(raw) && RightQuote !in cfg.otherName
    ensures var a := TrainAsWritten(raw, cfg, median);
      var l := a.vocabulary.Of(f);
      ColumnName(Indicator(f, v)) in a.featureColumns <==>
        v in (if DropFirst(|MainRows(raw, cfg)|, cfg.dropFirst) && l != [] then l[1..] else l)
  {
    AsWrittenAgrees(raw, cfg, median);
    FixAllIdentity(raw);
    CorrectedCoverage(raw, cfg, median, f, v);
  }

  /** A country spelled with the typographic apostrophe, and the same country
      with the ASCII one. */
  const Curly: string := ['A', RightQuote, 'B']
  const Straight: string := "A'B"

  function SampleRow(country: string): SurveyRow
  {
    SurveyRow(Some(country), None, None, Some("x"), Some("x"), Some("x"), Some("x"), Some("x"), None, None, None)
  }

  /** Two responses naming one country in its two spellings. */
  function DivergentSurvey(): seq<SurveyRow>
  {
    [SampleRow(Curly), SampleRow(Straight)]
  }

  /** Categories need two responses to be kept; nothing is dropped. */
  function DivergentConfig(): TrainConfig
  {
    TrainConfig("Other", 10, 2, [], false, ValueCounts)
  }

  lemma FixedPair(col: Column)
    requires col == [Some(Curly), Some(Straight)]
    ensures FixApostrophes(col) == [Some(Straight), Some(Straight)]
  {
    assert ReplaceChar(Curly, RightQuote, '\'') == Straight;
    assert RightQuote !in Straight;
    assert FixApostrophes(col)[1] == Some(Straight);
  }

  lemma CountPair(a: Option<string>, b: Option<string>, v: string)
    ensures Count([a, b], v) == (if a == Some(v) then 1 else 0) + (if b == Some(v) then 1 else 0)
  {
    assert [a, b][1..] == [b];
    assert [b][1..] == [];
    assert Occurrences([a, b], Some(v)) == (if a == Some(v) then 1 else 0) + Occurrences([b], Some(v));
    assert Occurrences([b], Some(v)) == (if b == Some(v) then 1 else 0) + Occurrences([], Some(v));
  }

  /** Two equal values meeting a threshold of two are kept. */
  lemma KeptPair(col: Column, cfg: TrainConfig)
    requires col == [Some(Straight), Some(Straight)]
    requires cfg.maxCategories >= 1 && cfg.minFrequency <= 2
    ensures Reduce(col, cfg)[0] == Some(Straight)
  {
    var n := NormalizeOtherCategories(col, cfg.otherName);
    assert n == col;
    CountPair(Some(Straight), Some(Straight), Straight);
    var ranking := cfg.rank(n);
    assert Straight in ranking;
    RankingLength(n, ranking);
    assert Values(n) == {Straight} by {
      assert n[0] == Some(Straight);
    }
    assert Straight in Head(ranking, cfg.maxCategories);
  }

  /** Two different values, each below a threshold of two, are both folded. */
  lemma FoldedPair(col: Column, cfg: TrainConfig)
    requires col == [Some(Curly), Some(Straight)]
    requires cfg.minFrequency >= 2
    ensures Reduce(col, cfg) == [Some(cfg.otherName), Some(cfg.otherName)]
  {
    var n := NormalizeOtherCategories(col, cfg.otherName);
    assert n == col;
    assert Curly != Straight by { assert Curly[1] != Straight[1]; }
    CountPair(Some(Curly), Some(Straight), Curly);
    CountPair(Some(Curly), Some(Straight), Straight);
  }

  /** A survey whose country column holds the two spellings, under settings
      that need two responses per category and drop nothing. */
  predicate Divergent(raw: seq<SurveyRow>, cfg: TrainConfig)
  {
    && |raw| == 2 && raw[0].country == Some(Curly) && raw[1].country == Some(Straight)
    && cfg.otherName == "Other" && RightQuote !in cfg.otherName && cfg.maxCategories >= 1 && cfg.minFrequency == 2
    && cfg.dropOtherFrom == [] && !cfg.dropFirst
  }

  lemma DivergentColumn(raw: seq<SurveyRow>)
    requires |raw| == 2 && raw[0].country == Some(Curly) && raw[1].country == Some(Straight)
    ensures Col(raw, Country) == [Some(Curly), Some(Straight)]
  {
  }

  lemma DivergentSurveyIsDivergent()
    ensures Divergent(DivergentSurvey(), DivergentConfig())
  {
  }

  /** On the copy both spellings become `A'B`, which is then frequent enough. */
  lemma CopyKeepsStraight(raw: seq<SurveyRow>, cfg: TrainConfig)
    requires Divergent(raw, cfg)
    ensures Some(Straight) in Col(CopyRows(raw, cfg), Country)
  {
    DivergentColumn(raw);
    var reduced := ReduceAll(FixAll(raw), cfg);
    assert CopyRows(raw, cfg) == reduced;
    ReduceAllColumns(FixAll(raw), cfg);
    FixAllColumns(raw);
    FixedPair(Col(raw, Country));
    KeptPair(Col(FixAll(raw), Country), cfg);
    assert Col(reduced, Country)[0] == Some(Straight);
  }

  /** The other-category name is left alone by the rewrites. */
  lemma OtherCell()
    ensures CellValue(Some("Other"), "Other") == "Other"
  {
    assert ReplaceChar("Other", RightQuote, '\'') == "Other";
    assert IsOtherVariant("Other");
  }

  /** On `df` each spelling is counted once, so both fall into the other category. */
  lemma MainFoldsBoth(raw: seq<SurveyRow>, cfg: TrainConfig)
    requires Divergent(raw, cfg)
    ensures Col(MainRows(raw, cfg), Country) == [Some("Other"), Some("Other")]
  {
    var reduced := ReduceAll(raw, cfg);
    assert MainRows(raw, cfg) == reduced;
    ReduceAllColumns(raw, cfg);
    DivergentColumn(raw);
    FoldedPair(Col(raw, Country), cfg);
  }

  /** A country column of two other-category names encodes to two such names. */
  lemma FoldedCells(rows: seq<SurveyRow>)
    requires Col(rows, Country) == [Some("Other"), Some("Other")]
    ensures Cells(rows, Country, "Other") == ["Other", "Other"]
  {
    OtherCell();
    var cells := Cells(rows, Country, "Other");
    assert cells[0] == CellValue(Col(rows, Country)[0], "Other");
    assert cells[1] == CellValue(Col(rows, Country)[1], "Other");
  }

  /** As written, `A'B` is a valid country for the gate, yet the training
      matrix has no `Country_A'B` column. */
  lemma VocabularyOutrunsColumns(raw: seq<SurveyRow>, cfg: TrainConfig, median: seq<real> -> real)
    requires Divergent(raw, cfg)
    ensures var a := TrainAsWritten(raw, cfg, median);
      Straight in a.vocabulary.country && ColumnName(Indicator(Country, Straight)) !in a.featureColumns
  {
    CopyKeepsStraight(raw, cfg);
    FreezeFacts(CopyRows(raw, cfg));
    MainFoldsBoth(raw, cfg);
    FoldedRowsLackColumn(MainRows(raw, cfg), cfg, Straight);
  }

  /** Rows whose country column is all other-category names yield no dummy for
      any other country. */
  lemma FoldedRowsLackColumn(rows: seq<SurveyRow>, cfg: TrainConfig, v: string)
    requires cfg.otherName == "Other" && v != "Other"
    requires Col(rows, Country) == [Some("Other"), Some("Other")]
    ensures ColumnName(Indicator(Country, v)) !in FeatureColumns(rows, cfg)
  {
    FoldedCells(rows);
    FeatureColumnsLayout(rows, cfg);
    var l := SortedUnique(Cells(rows, Country, cfg.otherName));
    assert v !in l;
    if l != [] {
      assert l == [l[0]] + l[1..];
    }
  }

  /** The same on the concrete two-row survey. */
  lemma DivergentSurveyOutruns(median: seq<real> -> real)
    ensures var a := TrainAsWritten(DivergentSurvey(), DivergentConfig(), median);
      Straight in a.vocabulary.country && ColumnName(Indicator(Country, Straight)) !in a.featureColumns
  {
    DivergentSurveyIsDivergent();
    VocabularyOutrunsColumns(DivergentSurvey(), DivergentConfig(), median);
  }

  lemma StraightFixed()
    ensures Rewrite(Straight, "Other") == Straight
  {
    RewriteFixedPoint(Straight, "Other");
  }

  /** So a request from that country passes the country check, and every
      `Country_` entry of the row the model sees is 0: the country is lost. */
  lemma DivergentRequestLosesCountry(raw: seq<SurveyRow>, cfg: TrainConfig, median: seq<real> -> real, input: SalaryInput)
    requires Divergent(raw, cfg) && input.country == Straight
    ensures var a := TrainAsWritten(raw, cfg, median);
      var row := Aligned(input, a.featureColumns, cfg.dropFirst, cfg.otherName).rows[0];
      && Value(input, Country) in a.vocabulary.Of(Country)
      && forall j ::
           (0 <= j < |a.featureColumns| && Decode(a.featureColumns[j]).Some? &&
            Decode(a.featureColumns[j]).value.field == Country) ==> row[j] == 0.0
  {
    var a := TrainAsWritten(raw, cfg, median);
    VocabularyOutrunsColumns(raw, cfg, median);
    StraightFixed();
    UnfrozenValueReadsZero(input, a.featureColumns, cfg.dropFirst, cfg.otherName, Country);
  }

  /** With the fix, the same survey yields the `Country_A'B` column. */
  lemma CorrectedKeepsColumn(raw: seq<SurveyRow>, cfg: TrainConfig, median: seq<real> -> real)
    requires Divergent(raw, cfg)
    ensures var a := TrainCorrected(raw, cfg, median);
      Straight in a.vocabulary.country && ColumnName(Indicator(Country, Straight)) in a.featureColumns
  {
    CopyKeepsStraight(raw, cfg);
    PresentValueHasColumn(raw, cfg, median, Country, Straight);
  }

  /** Without `drop_first`, a value present on the filtered copy is frozen and,
      in the corrected artefacts, has its training column. */
  lemma PresentValueHasColumn(raw: seq<SurveyRow>, cfg: TrainConfig, median: seq<real> -> real, f: Field, v: string)
    requires RightQuote !in cfg.otherName && !cfg.dropFirst
    requires Some(v) in Col(CopyRows(raw, cfg), f)
    ensures var a := TrainCorrected(raw, cfg, median);
      v in a.vocabulary.Of(f) && ColumnName(Indicator(f, v)) in a.featureColumns
  {
    FreezeFacts(CopyRows(raw, cfg));
    CorrectedCoverage(raw, cfg, median, f, v);
  }
}
