/** `prepare_features`: the frame-level feature pipeline shared by training and
    inference. It copies the input frame, rewrites the categorical columns
    (apostrophes, then Other-variants), renames the legacy experience column,
    fills missing values, selects the eight features and one-hot encodes them. */
module Preprocessing {
  import opened Wrappers
  import opened Text
  import opened Categories
  import opened Encoding

  type RealColumn = seq<Option<real>>

  /** A frame's contents: row count, the text (object-dtype) columns and the
      numeric columns, by name. */
  datatype Frame = Frame(nrows: nat, text: map<string, Column>, numeric: map<string, RealColumn>)
  {
    /** Every column has `nrows` entries and no name is used twice. */
    predicate Valid()
    {
      && (forall name :: name in text ==> |text[name]| == nrows)
      && (forall name :: name in numeric ==> |numeric[name]| == nrows)
      && (forall name :: name in text ==> name !in numeric)
    }

    /** The dtypes `prepare_features` is written for: the categorical features
        hold strings and the experience columns hold numbers. */
    predicate Typed()
    {
      && (forall name :: name in CategoricalNames ==> name !in numeric)
      && "YearsCode" !in text && "WorkExp" !in text && "YearsCodePro" !in text
    }

    predicate HasColumn(name: string)
    {
      name in text || name in numeric
    }
  }

  /** `prepare_features` raises `KeyError` on the first absent fill column. */
  datatype EncodeError = MissingColumn(name: string)

  /** The two column-wide rewrites `prepare_features` runs over the categorical columns. */
  datatype Pass = FixApostrophesPass | NormalizeOtherPass(otherName: string)

  function Run(pass: Pass, col: Column): (r: Column)
    ensures |r| == |col|
  {
    match pass
    case FixApostrophesPass => FixApostrophes(col)
    case NormalizeOtherPass(otherName) => NormalizeOtherCategories(col, otherName)
  }

  /** `for col in names: if col in df.columns: df[col] = pass(df[col])`. */
  function ApplyPass(text: map<string, Column>, names: seq<string>, pass: Pass): (r: map<string, Column>)
    ensures r.Keys == text.Keys
    ensures forall name :: name in r ==> |r[name]| == |text[name]|
  {
    if names == [] then text
    else
      var t := ApplyPass(text, names[..|names| - 1], pass);
      var name := names[|names| - 1];
      if name in t then t[name := Run(pass, t[name])] else t
  }

  /** One more name rewrites that name's column, if present, on top of the earlier ones. */
  lemma ApplyPassStep(text: map<string, Column>, names: seq<string>, k: nat, pass: Pass)
    requires k < |names|
    ensures var t := ApplyPass(text, names[..k], pass);
      ApplyPass(text, names[..k + 1], pass) == if names[k] in t then t[names[k] := Run(pass, t[names[k]])] else t
  {
    assert names[..k + 1][..k] == names[..k];
  }

  /** Over distinct names, each present column is rewritten once and the others are untouched. */
  lemma {:induction false} ApplyPassColumns(text: map<string, Column>, names: seq<string>, pass: Pass)
    requires Distinct(names)
    ensures forall name :: name in text ==>
      ApplyPass(text, names, pass)[name] == if name in names then Run(pass, text[name]) else text[name]
  {
    if names != [] {
      var init := names[..|names| - 1];
      assert Distinct(init);
      ApplyPassColumns(text, init, pass);
      forall name | name in text
        ensures ApplyPass(text, names, pass)[name] == if name in names then Run(pass, text[name]) else text[name]
      {
        assert names == init + [names[|names| - 1]];
        if name == names[|names| - 1] {
          assert name !in init;
        }
      }
    }
  }

  /** `df.rename(columns={source: target})`: a no-op when `source` is absent. */
  function RenameColumn(f: Frame, source: string, target: string): Frame
  {
    if source in f.numeric then f.(numeric := (f.numeric - {source})[target := f.numeric[source]])
    else if source in f.text then f.(text := (f.text - {source})[target := f.text[source]])
    else f
  }

  /** The legacy rename: `YearsCodePro` becomes `YearsCode` when only the former is present. */
  function Renamed(f: Frame): Frame
  {
    if f.HasColumn("YearsCodePro") && !f.HasColumn("YearsCode") then RenameColumn(f, "YearsCodePro", "YearsCode")
    else f
  }

  /** The fill statements, in source order. */
  const FillOrder: seq<string> := ["YearsCode", "WorkExp"] + CategoricalNames

  predicate IsExperience(name: string)
  {
    name == "YearsCode" || name == "WorkExp"
  }

  function FillZero(col: RealColumn): (r: RealColumn)
    ensures |r| == |col|
    ensures forall i :: 0 <= i < |r| ==> r[i] == if col[i].Some? then col[i] else Some(0.0)
  {
    seq(|col|, i requires 0 <= i < |col| => if col[i].Some? then col[i] else Some(0.0))
  }

  function FillUnknown(col: Column): (r: Column)
    ensures |r| == |col|
    ensures forall i :: 0 <= i < |r| ==> r[i] == if col[i].Some? then col[i] else Some("Unknown")
  {
    seq(|col|, i requires 0 <= i < |col| => if col[i].Some? then col[i] else Some("Unknown"))
  }

  /** `df[name] = df[name].fillna(0)` for the experience columns and
      `.fillna("Unknown")` for the others; `None` when the column is absent. */
  function FillOne(f: Frame, name: string): Option<Frame>
  {
    if IsExperience(name) then
      if name in f.numeric then Some(f.(numeric := f.numeric[name := FillZero(f.numeric[name])])) else None
    else
      if name in f.text then Some(f.(text := f.text[name := FillUnknown(f.text[name])])) else None
  }

  /** The fill statements run in order; the first absent column raises. */
  function FillAll(f: Frame, names: seq<string>): Result<Frame, EncodeError>
    decreases |names|
  {
    if names == [] then Success(f)
    else match FillOne(f, names[0])
      case None => Failure(MissingColumn(names[0]))
      case Some(g) => FillAll(g, names[1..])
  }

  function Strings(col: Column): (r: seq<string>)
    requires forall i :: 0 <= i < |col| ==> col[i].Some?
    ensures |r| == |col|
  {
    seq(|col|, i requires 0 <= i < |col| => col[i].value)
  }

  function Reals(col: RealColumn): (r: seq<real>)
    requires forall i :: 0 <= i < |col| ==> col[i].Some?
    ensures |r| == |col|
  {
    seq(|col|, i requires 0 <= i < |col| => col[i].value)
  }

  /** A frame whose eight feature columns are present and have no missing value. */
  predicate Filled(f: Frame)
  {
    && (forall name :: name in FillOrder && IsExperience(name) ==>
          name in f.numeric && forall i :: 0 <= i < |f.numeric[name]| ==> f.numeric[name][i].Some?)
    && (forall name :: name in CategoricalNames ==>
          name in f.text && forall i :: 0 <= i < |f.text[name]| ==> f.text[name][i].Some?)
  }

  /** `df[feature_cols]`. */
  function Select(f: Frame): (x: Features)
    requires Filled(f)
  {
    FilledFields(f);
    Features(Reals(f.numeric["YearsCode"]), Reals(f.numeric["WorkExp"]),
             Strings(f.text["Country"]), Strings(f.text["EdLevel"]), Strings(f.text["DevType"]),
             Strings(f.text["Industry"]), Strings(f.text["Age"]), Strings(f.text["ICorPM"]))
  }

  /** The rows `prepare_features` feeds to `get_dummies`: the input after the
      two passes, the legacy rename and the fills, cut down to the eight features. */
  function Featurize(df: Frame, otherName: string): (r: Result<Features, EncodeError>)
    requires df.Valid()
    ensures r.Success? ==> r.value.Rows(df.nrows)
  {
    match FillAll(Rewritten(df, otherName), FillOrder)
    case Failure(e) => Failure(e)
    case Success(filled) =>
      RewrittenValid(df, otherName);
      FillAllFills(Rewritten(df, otherName));
      SelectRows(filled);
      Success(Select(filled))
  }

  /** The frame `Featurize` fills: apostrophes fixed, then Other-variants
      renamed, then the legacy column renamed. */
  function Rewritten(df: Frame, otherName: string): Frame
  {
    var fixed := df.(text := ApplyPass(df.text, CategoricalNames, FixApostrophesPass));
    Renamed(fixed.(text := ApplyPass(fixed.text, CategoricalNames, NormalizeOtherPass(otherName))))
  }

  lemma RewrittenValid(df: Frame, otherName: string)
    requires df.Valid()
    ensures Rewritten(df, otherName).Valid() && Rewritten(df, otherName).nrows == df.nrows
  {
  }

  /** `drop_first` is off for a single row and follows the configuration otherwise. */
  function DropFirst(nrows: nat, dropFirstConfig: bool): bool
  {
    if nrows == 1 then false else dropFirstConfig
  }

  /** What `prepare_features(df)` returns. */
  function Prepared(df: Frame, dropFirstConfig: bool, otherName: string): Result<Table, EncodeError>
    requires df.Valid()
  {
    match Featurize(df, otherName)
    case Failure(e) => Failure(e)
    case Success(x) => Success(GetDummies(x, DropFirst(df.nrows, dropFirstConfig)))
  }

  /** A successful fill leaves a filled frame of the same height and the same column names. */
  lemma FillAllFills(f: Frame)
    requires f.Valid()
    ensures FillAll(f, FillOrder).Success? ==>
      var g := FillAll(f, FillOrder).value;
      g.Valid() && Filled(g) && g.nrows == f.nrows && g.text.Keys == f.text.Keys && g.numeric.Keys == f.numeric.Keys
  {
    FillAllCompletes(f, [], FillOrder);
    if FillAll(f, FillOrder).Success? {
      assert [] + FillOrder == FillOrder;
      FilledFromColumns(FillAll(f, FillOrder).value);
    }
  }

  /** Columns already complete stay complete, and each fill completes its own. */
  lemma {:induction false} FillAllCompletes(f: Frame, done: seq<string>, names: seq<string>)
    requires f.Valid()
    requires forall name :: name in done ==> FilledColumn(f, name)
    ensures FillAll(f, names).Success? ==>
      var g := FillAll(f, names).value;
      && g.Valid() && g.nrows == f.nrows && g.text.Keys == f.text.Keys && g.numeric.Keys == f.numeric.Keys
      && forall name :: name in done + names ==> FilledColumn(g, name)
    decreases |names|
  {
    if names == [] {
      assert done + names == done;
    } else {
      match FillOne(f, names[0])
      case None =>
      case Some(g) =>
        forall name | name in done + [names[0]] ensures FilledColumn(g, name) {
          FillOneFilled(f, names[0], name);
        }
        FillAllCompletes(g, done + [names[0]], names[1..]);
        assert done + [names[0]] + names[1..] == done + names;
    }
  }

  /** A fill completes its own column and keeps the columns already complete. */
  lemma FillOneFilled(f: Frame, n0: string, name: string)
    requires FillOne(f, n0).Some?
    requires name == n0 || FilledColumn(f, name)
    ensures FilledColumn(FillOne(f, n0).value, name)
  {
    var g := FillOne(f, n0).value;
    if name != n0 {
      if IsExperience(name) {
        assert g.numeric[name] == f.numeric[name];
      } else {
        assert g.text[name] == f.text[name];
      }
    }
  }

  /** The column of `name` is present in the map its kind uses and has no missing value. */
  predicate FilledColumn(f: Frame, name: string)
  {
    if IsExperience(name) then
      name in f.numeric && forall i :: 0 <= i < |f.numeric[name]| ==> f.numeric[name][i].Some?
    else
      name in f.text && forall i :: 0 <= i < |f.text[name]| ==> f.text[name][i].Some?
  }

  lemma FilledFromColumns(f: Frame)
    requires forall name :: name in FillOrder ==> FilledColumn(f, name)
    ensures Filled(f)
  {
    forall name | name in CategoricalNames ensures FilledColumn(f, name) && !IsExperience(name) {
      assert name in FillOrder;
    }
  }

  /** The columns a filled frame is known to have, field by field. */
  lemma FilledFields(f: Frame)
    requires Filled(f)
    ensures "YearsCode" in f.numeric && "WorkExp" in f.numeric
    ensures forall i :: 0 <= i < |f.numeric["YearsCode"]| ==> f.numeric["YearsCode"][i].Some?
    ensures forall i :: 0 <= i < |f.numeric["WorkExp"]| ==> f.numeric["WorkExp"][i].Some?
    ensures forall fd: Field :: FieldName(fd) in f.text
    ensures forall fd: Field, i :: 0 <= i < |f.text[FieldName(fd)]| ==> f.text[FieldName(fd)][i].Some?
  {
    assert FillOrder[0] == "YearsCode" && FillOrder[1] == "WorkExp";
    forall fd: Field ensures FieldName(fd) in CategoricalNames {
      FieldNameCategorical(fd);
    }
  }

  lemma SelectRows(f: Frame)
    requires Filled(f) && f.Valid()
    ensures Select(f).Rows(f.nrows)
  {
    FilledFields(f);
    forall fd: Field ensures |Select(f).Cat(fd)| == f.nrows {
      SelectCat(f, fd);
    }
  }

  /** Running the fills over distinct names fills exactly those columns, each
      from its own value, and leaves every other column as it was. */
  lemma FillAllResult(f: Frame, names: seq<string>)
    requires Distinct(names)
    requires FillAll(f, names).Success?
    ensures var g := FillAll(f, names).value;
      && g.nrows == f.nrows
      && (forall name :: name in names && IsExperience(name) ==> name in f.numeric)
      && (forall name :: name in names && !IsExperience(name) ==> name in f.text)
      && g.numeric.Keys == f.numeric.Keys && g.text.Keys == f.text.Keys
      && (forall name :: name in g.numeric ==>
            g.numeric[name] == if name in names && IsExperience(name) then FillZero(f.numeric[name]) else f.numeric[name])
      && (forall name :: name in g.text ==>
            g.text[name] == if name in names && !IsExperience(name) then FillUnknown(f.text[name]) else f.text[name])
  {
    FillAllShape(f, names);
    forall name | name in FillAll(f, names).value.numeric
      ensures FillAll(f, names).value.numeric[name] ==
        if name in names && IsExperience(name) then FillZero(f.numeric[name]) else f.numeric[name]
    {
      FillAllNumeric(f, names, name);
    }
    forall name | name in FillAll(f, names).value.text
      ensures FillAll(f, names).value.text[name] ==
        if name in names && !IsExperience(name) then FillUnknown(f.text[name]) else f.text[name]
    {
      FillAllText(f, names, name);
    }
  }

  lemma {:induction false} FillAllShape(f: Frame, names: seq<string>)
    requires FillAll(f, names).Success?
    ensures var g := FillAll(f, names).value;
      && g.nrows == f.nrows
      && (forall name :: name in names && IsExperience(name) ==> name in f.numeric)
      && (forall name :: name in names && !IsExperience(name) ==> name in f.text)
      && g.numeric.Keys == f.numeric.Keys && g.text.Keys == f.text.Keys
    decreases |names|
  {
    if names != [] {
      FillAllShape(FillOne(f, names[0]).value, names[1..]);
      assert names == [names[0]] + names[1..];
    }
  }

  lemma {:induction false} FillAllNumeric(f: Frame, names: seq<string>, name: string)
    requires Distinct(names)
    requires FillAll(f, names).Success?
    requires name in FillAll(f, names).value.numeric
    ensures name in f.numeric
    ensures FillAll(f, names).value.numeric[name] ==
      if name in names && IsExperience(name) then FillZero(f.numeric[name]) else f.numeric[name]
    decreases |names|
  {
    if names != [] {
      var n0, rest := names[0], names[1..];
      var g1 := FillOne(f, n0).value;
      assert Distinct(rest);
      FillAllNumeric(g1, rest, name);
      assert names == [n0] + rest;
      if name == n0 {
        assert name !in rest;
      }
    }
  }

  lemma {:induction false} FillAllText(f: Frame, names: seq<string>, name: string)
    requires Distinct(names)
    requires FillAll(f, names).Success?
    requires name in FillAll(f, names).value.text
    ensures name in f.text
    ensures FillAll(f, names).value.text[name] ==
      if name in names && !IsExperience(name) then FillUnknown(f.text[name]) else f.text[name]
    decreases |names|
  {
    if names != [] {
      var n0, rest := names[0], names[1..];
      var g1 := FillOne(f, n0).value;
      assert Distinct(rest);
      FillAllText(g1, rest, name);
      assert names == [n0] + rest;
      if name == n0 {
        assert name !in rest;
      }
    }
  }

  /** The value a categorical cell ends up with: missing becomes "Unknown";
      otherwise apostrophes are fixed, then Other-variants are renamed. */
  function CellValue(c: Option<string>, otherName: string): string
  {
    match c
    case None => "Unknown"
    case Some(_) => NormalizeValue(FixApostrophe(c), otherName).value
  }

  /** The value an experience cell ends up with: missing becomes 0. */
  function ExperienceValue(c: Option<real>): real
  {
    match c
    case None => 0.0
    case Some(y) => y
  }

  /** The column `YearsCode` is read from, after the legacy rename. */
  function YearsSource(df: Frame): string
  {
    if df.HasColumn("YearsCode") then "YearsCode" else "YearsCodePro"
  }

  lemma FillOrderDistinct()
    ensures Distinct(FillOrder) && Distinct(CategoricalNames)
    ensures forall name :: name in CategoricalNames ==> name in FillOrder && !IsExperience(name)
  {
  }

  /** The rewrites change the categorical columns cell by cell and leave the
      experience columns alone (the legacy one may be renamed). */
  lemma RewrittenColumns(df: Frame, otherName: string)
    requires df.Valid() && df.Typed()
    ensures var w := Rewritten(df, otherName);
      && w.text.Keys == df.text.Keys
      && (forall name :: name in CategoricalNames && name in df.text ==>
            |w.text[name]| == |df.text[name]|
            && forall i :: 0 <= i < |df.text[name]| ==>
                 w.text[name][i] == NormalizeValue(FixApostrophe(df.text[name][i]), otherName))
      && (YearsSource(df) in df.numeric ==> "YearsCode" in w.numeric && w.numeric["YearsCode"] == df.numeric[YearsSource(df)])
      && ("YearsCode" in w.numeric ==> YearsSource(df) in df.numeric)
      && ("WorkExp" in w.numeric <==> "WorkExp" in df.numeric)
      && ("WorkExp" in df.numeric ==> w.numeric["WorkExp"] == df.numeric["WorkExp"])
  {
    var fixed := df.(text := ApplyPass(df.text, CategoricalNames, FixApostrophesPass));
    FillOrderDistinct();
    ApplyPassColumns(df.text, CategoricalNames, FixApostrophesPass);
    ApplyPassColumns(fixed.text, CategoricalNames, NormalizeOtherPass(otherName));
  }

  /** After a successful fill, each feature column is its rewritten column, filled. */
  lemma FilledFeatureColumns(df: Frame, otherName: string)
    requires df.Valid() && Featurize(df, otherName).Success?
    ensures FillAll(Rewritten(df, otherName), FillOrder).Success?
    ensures var w := Rewritten(df, otherName);
      var filled := FillAll(w, FillOrder).value;
      && "YearsCode" in w.numeric && "WorkExp" in w.numeric
      && filled.numeric.Keys == w.numeric.Keys && filled.text.Keys == w.text.Keys
      && Filled(filled)
      && filled.numeric["YearsCode"] == FillZero(w.numeric["YearsCode"])
      && filled.numeric["WorkExp"] == FillZero(w.numeric["WorkExp"])
      && (forall name :: name in CategoricalNames ==> name in w.text && filled.text[name] == FillUnknown(w.text[name]))
  {
    var w := Rewritten(df, otherName);
    RewrittenValid(df, otherName);
    FillAllFills(w);
    FillOrderDistinct();
    FillAllResult(w, FillOrder);
    assert "YearsCode" in FillOrder && "WorkExp" in FillOrder;
  }

  /** Each experience cell is the input cell, 0 where missing. */
  lemma FeaturizeExperienceCells(df: Frame, otherName: string)
    requires df.Valid() && df.Typed()
    requires Featurize(df, otherName).Success?
    ensures var x := Featurize(df, otherName).value;
      && YearsSource(df) in df.numeric && "WorkExp" in df.numeric
      && forall i :: 0 <= i < df.nrows ==>
           x.yearsCode[i] == ExperienceValue(df.numeric[YearsSource(df)][i])
           && x.workExp[i] == ExperienceValue(df.numeric["WorkExp"][i])
  {
    FilledFeatureColumns(df, otherName);
    RewrittenColumns(df, otherName);
  }

  lemma FieldNameCategorical(f: Field)
    ensures FieldName(f) in CategoricalNames
  {
  }

  /** One categorical cell is the input cell after the rewrites, "Unknown" where missing. */
  lemma FeaturizeCategoryCell(df: Frame, otherName: string, f: Field, i: nat)
    requires df.Valid() && df.Typed()
    requires Featurize(df, otherName).Success?
    requires i < df.nrows
    ensures FieldName(f) in df.text
    ensures Featurize(df, otherName).value.Cat(f)[i] == CellValue(df.text[FieldName(f)][i], otherName)
  {
    var name := FieldName(f);
    FieldNameCategorical(f);
    FilledFeatureColumns(df, otherName);
    RewrittenColumns(df, otherName);
    var w := Rewritten(df, otherName);
    var filled := FillAll(w, FillOrder).value;
    assert Featurize(df, otherName).value == Select(filled);
    SelectCat(filled, f);
    assert filled.text[name] == FillUnknown(w.text[name]);
    assert w.text[name][i] == NormalizeValue(FixApostrophe(df.text[name][i]), otherName);
  }

  lemma SelectCat(f: Frame, fd: Field)
    requires Filled(f)
    ensures FieldName(fd) in f.text
    ensures Select(f).Cat(fd) == Strings(f.text[FieldName(fd)])
  {
    FieldNameCategorical(fd);
  }

  /** Each categorical cell is the input cell after the rewrites, "Unknown" where missing. */
  lemma FeaturizeCategoryCells(df: Frame, otherName: string)
    requires df.Valid() && df.Typed()
    requires Featurize(df, otherName).Success?
    ensures var x := Featurize(df, otherName).value;
      && (forall f: Field :: FieldName(f) in df.text)
      && (forall f: Field, i :: 0 <= i < df.nrows ==> x.Cat(f)[i] == CellValue(df.text[FieldName(f)][i], otherName))
  {
    forall f: Field ensures FieldName(f) in df.text {
      FieldNameCategorical(f);
      FilledFeatureColumns(df, otherName);
      RewrittenColumns(df, otherName);
    }
    forall f: Field, i | 0 <= i < df.nrows
      ensures Featurize(df, otherName).value.Cat(f)[i] == CellValue(df.text[FieldName(f)][i], otherName)
    {
      FeaturizeCategoryCell(df, otherName, f, i);
    }
  }

  /** Whether the fill statement for `name` finds its column, judged on the
      input frame (the legacy name counts for `YearsCode`). */
  predicate Fillable(df: Frame, name: string)
  {
    if name == "YearsCode" then df.HasColumn("YearsCode") || df.HasColumn("YearsCodePro")
    else df.HasColumn(name)
  }

  /** The first column of `names` whose fill statement would raise. */
  function FirstAbsent(df: Frame, names: seq<string>): (r: Option<string>)
    ensures r.Some? ==> r.value in names && !Fillable(df, r.value)
    ensures r.None? <==> forall name :: name in names ==> Fillable(df, name)
  {
    if names == [] then None
    else if !Fillable(df, names[0]) then Some(names[0])
    else FirstAbsent(df, names[1..])
  }

  /** `prepare_features` raises exactly when a feature column (or its legacy
      name) is absent, and then names the first one in fill order. */
  lemma FeaturizeFailsOnFirstAbsent(df: Frame, otherName: string)
    requires df.Valid() && df.Typed()
    ensures Featurize(df, otherName).Failure? <==> FirstAbsent(df, FillOrder).Some?
    ensures Featurize(df, otherName).Failure? ==>
      Featurize(df, otherName).error == MissingColumn(FirstAbsent(df, FillOrder).value)
  {
    var w := Rewritten(df, otherName);
    forall name | name in FillOrder
      ensures FillOne(w, name).Some? <==> Fillable(df, name)
    {
      RewrittenFinds(df, otherName, name);
    }
    FillAllFirstAbsent(w, df, FillOrder);
  }

  /** After the rewrites, a fill finds its column exactly when the input has
      it (or, for `YearsCode`, its legacy name). */
  lemma RewrittenFinds(df: Frame, otherName: string, name: string)
    requires df.Valid() && df.Typed()
    requires name in FillOrder
    ensures FillOne(Rewritten(df, otherName), name).Some? <==> Fillable(df, name)
  {
    RewrittenColumns(df, otherName);
  }

  /** `FillAll` fails at the first name whose fill finds no column. */
  lemma {:induction false} FillAllFirstAbsent(f: Frame, df: Frame, names: seq<string>)
    requires forall name :: name in names ==> (FillOne(f, name).Some? <==> Fillable(df, name))
    ensures FillAll(f, names).Failure? <==> FirstAbsent(df, names).Some?
    ensures FillAll(f, names).Failure? ==> FillAll(f, names).error == MissingColumn(FirstAbsent(df, names).value)
    decreases |names|
  {
    if names != [] && Fillable(df, names[0]) {
      var g := FillOne(f, names[0]).value;
      forall name | name in names[1..] ensures FillOne(g, name).Some? <==> Fillable(df, name) {
        FillOneKeepsColumns(f, names[0], name);
      }
      FillAllFirstAbsent(g, df, names[1..]);
    }
  }

  /** A fill changes no column name, so later fills find what they found before. */
  lemma FillOneKeepsColumns(f: Frame, name: string, other: string)
    requires FillOne(f, name).Some?
    ensures FillOne(FillOne(f, name).value, other).Some? <==> FillOne(f, other).Some?
  {
  }

  /** Missing values are filled before encoding: a missing experience value
      reads 0 and a missing categorical value is encoded as the level "Unknown". */
  lemma PreparedFillsDefaults(df: Frame, dropFirstConfig: bool, otherName: string, i: nat)
    requires df.Valid() && df.Typed() && i < df.nrows
    requires Prepared(df, dropFirstConfig, otherName).Success?
    ensures YearsSource(df) in df.numeric && "WorkExp" in df.numeric
    ensures var t := Prepared(df, dropFirstConfig, otherName).value;
      && (df.numeric[YearsSource(df)][i].None? ==> t.rows[i][0] == 0.0)
      && (df.numeric["WorkExp"][i].None? ==> t.rows[i][1] == 0.0)
      && forall f: Field, k ::
           (0 <= k < |t.columns| && FieldName(f) in df.text && df.text[FieldName(f)][i].None?
            && Decode(t.columns[k]) == Some(Indicator(f, "Unknown"))) ==> t.rows[i][k] == 1.0
  {
    FeaturizeExperienceCells(df, otherName);
    var t := Prepared(df, dropFirstConfig, otherName).value;
    forall f: Field, k | (0 <= k < |t.columns| && FieldName(f) in df.text && df.text[FieldName(f)][i].None?
                          && Decode(t.columns[k]) == Some(Indicator(f, "Unknown")))
      ensures t.rows[i][k] == 1.0
    {
      PreparedUnknownCell(df, dropFirstConfig, otherName, i, f, k);
    }
  }

  /** A missing categorical cell sets the "Unknown" dummy of its field. */
  lemma PreparedUnknownCell(df: Frame, dropFirstConfig: bool, otherName: string, i: nat, f: Field, k: nat)
    requires df.Valid() && df.Typed() && i < df.nrows
    requires Prepared(df, dropFirstConfig, otherName).Success?
    requires FieldName(f) in df.text && df.text[FieldName(f)][i].None?
    requires var t := Prepared(df, dropFirstConfig, otherName).value;
      k < |t.columns| && Decode(t.columns[k]) == Some(Indicator(f, "Unknown"))
    ensures Prepared(df, dropFirstConfig, otherName).value.rows[i][k] == 1.0
  {
    var x := Featurize(df, otherName).value;
    var t := Prepared(df, dropFirstConfig, otherName).value;
    assert t == GetDummies(x, DropFirst(df.nrows, dropFirstConfig));
    FeaturizeCategoryCell(df, otherName, f, i);
    EncodeDecoded(t.columns[k]);
    EntryOfIndicator(x, i, Indicator(f, "Unknown"));
  }

  /** With exactly one row `drop_first` is off whatever the configuration:
      the table has the two experience columns and one dummy per field, for
      the row's rewritten value, each holding 1. */
  lemma PreparedSingleRow(df: Frame, dropFirstConfig: bool, otherName: string)
    requires df.Valid() && df.Typed() && df.nrows == 1
    ensures Prepared(df, dropFirstConfig, otherName) == Prepared(df, false, otherName)
    ensures Prepared(df, dropFirstConfig, otherName).Success? ==>
      var t := Prepared(df, dropFirstConfig, otherName).value;
      && |t.columns| == 8
      && (forall f: Field :: FieldName(f) in df.text)
      && (forall k :: 2 <= k < 8 ==>
            t.columns[k] == ColumnName(Indicator(Fields[k - 2], CellValue(df.text[FieldName(Fields[k - 2])][0], otherName)))
            && t.rows[0][k] == 1.0)
  {
    if Featurize(df, otherName).Success? {
      var x := Featurize(df, otherName).value;
      FeaturizeCategoryCells(df, otherName);
      SingleRowDummies(x);
    }
  }

  /** A pandas DataFrame as `prepare_features` changes it: columns are
      overwritten, renamed and refilled in place. */
  class DataFrame {
    var nrows: nat
    var text: map<string, Column>
    var numeric: map<string, RealColumn>

    function Value(): Frame
      reads this
    {
      Frame(nrows, text, numeric)
    }

    /** `df.copy()`. */
    constructor Copy(df: DataFrame)
      ensures Value() == df.Value()
    {
      nrows := df.nrows;
      text := df.text;
      numeric := df.numeric;
    }

    /** `df[name] = col` for a text column. */
    method SetText(name: string, col: Column)
      requires |col| == nrows
      modifies this
      ensures Value() == old(Value()).(text := old(text)[name := col])
    {
      text := text[name := col];
    }

    /** `df.rename(columns={source: target}, inplace=True)`. */
    method Rename(source: string, target: string)
      modifies this
      ensures Value() == RenameColumn(old(Value()), source, target)
    {
      if source in numeric {
        numeric := (numeric - {source})[target := numeric[source]];
      } else if source in text {
        text := (text - {source})[target := text[source]];
      }
    }

    /** `df[name] = df[name].fillna(default)`; `found` is false where pandas raises `KeyError`. */
    method FillMissing(name: string) returns (found: bool)
      modifies this
      ensures found == FillOne(old(Value()), name).Some?
      ensures Value() == if found then FillOne(old(Value()), name).value else old(Value())
    {
      if IsExperience(name) {
        found := name in numeric;
        if found {
          numeric := numeric[name := FillZero(numeric[name])];
        }
      } else {
        found := name in text;
        if found {
          text := text[name := FillUnknown(text[name])];
        }
      }
    }
  }

  /** `for col in [...]: if col in df.columns: df[col] = pass(df[col])`, run in place. */
  method RunPass(work: DataFrame, pass: Pass)
    requires work.Value().Valid()
    modifies work
    ensures work.Value() == old(work.Value()).(text := ApplyPass(old(work.text), CategoricalNames, pass))
  {
    ghost var start := work.Value();
    for k := 0 to |CategoricalNames|
      invariant work.Value() == start.(text := ApplyPass(start.text, CategoricalNames[..k], pass))
    {
      ApplyPassStep(start.text, CategoricalNames, k, pass);
      var name := CategoricalNames[k];
      if name in work.text {
        work.SetText(name, Run(pass, work.text[name]));
      }
    }
    assert CategoricalNames[..|CategoricalNames|] == CategoricalNames;
  }

  /** The eight `fillna` statements of `prepare_features`, taken one after
      another in source order (`FillOrder`); the first absent column ends the
      run with its `KeyError`. */
  method FillColumns(work: DataFrame) returns (err: Option<EncodeError>)
    modifies work
    ensures FillAll(old(work.Value()), FillOrder) == if err.Some? then Failure(err.value) else Success(work.Value())
  {
    ghost var start := work.Value();
    for k := 0 to |FillOrder|
      invariant FillAll(start, FillOrder) == FillAll(work.Value(), FillOrder[k..])
    {
      var found := work.FillMissing(FillOrder[k]);
      assert FillOrder[k..][0] == FillOrder[k] && FillOrder[k..][1..] == FillOrder[k + 1..];
      if !found {
        return Some(MissingColumn(FillOrder[k]));
      }
    }
    err := None;
  }

  /** Once the fills succeed, the features are the selection of the filled frame. */
  lemma FeaturizeFilled(df: Frame, otherName: string, filled: Frame)
    requires df.Valid()
    requires FillAll(Rewritten(df, otherName), FillOrder) == Success(filled)
    ensures Filled(filled) && filled.nrows == df.nrows
    ensures Featurize(df, otherName) == Success(Select(filled))
  {
    RewrittenValid(df, otherName);
    FillAllFills(Rewritten(df, otherName));
  }

  /** The rewrites `prepare_features` makes before filling: the apostrophe pass,
      the Other-variant pass, then the legacy rename. */
  method RewriteColumns(work: DataFrame, otherName: string)
    requires work.Value().Valid()
    modifies work
    ensures work.Value() == Rewritten(old(work.Value()), otherName)
  {
    ghost var input := work.Value();
    ghost var fixed := input.(text := ApplyPass(input.text, CategoricalNames, FixApostrophesPass));
    RunPass(work, FixApostrophesPass);
    assert work.Value() == fixed;
    RunPass(work, NormalizeOtherPass(otherName));
    if work.Value().HasColumn("YearsCodePro") && !work.Value().HasColumn("YearsCode") {
      work.Rename("YearsCodePro", "YearsCode");
    }
  }

  /** `prepare_features(df)`: works on a copy, so `df` itself is left as it was. */
  method PrepareFeatures(df: DataFrame, dropFirstConfig: bool, otherName: string)
    returns (r: Result<Table, EncodeError>)
    requires df.Value().Valid()
    ensures r == Prepared(df.Value(), dropFirstConfig, otherName)
  {
    var work := new DataFrame.Copy(df);
    ghost var input := df.Value();
    RewriteColumns(work, otherName);
    var err := FillColumns(work);
    if err.Some? {
      return Failure(err.value);
    }
    FeaturizeFilled(input, otherName, work.Value());
    var x := Select(work.Value());
    var dropFirst := if work.nrows == 1 then false else dropFirstConfig;
    r := Success(GetDummies(x, dropFirst));
  }
}
