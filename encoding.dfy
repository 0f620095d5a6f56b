/** One-hot encoding of the eight model features (`pd.get_dummies` as
    `prepare_features` calls it): the two experience columns first, then one
    indicator column `<Field>_<Value>` per level of each categorical field. */
module Encoding {
  import opened Wrappers
  import opened Text

  /** The six categorical features, in the order of the feature selection. */
  datatype Field = Country | EdLevel | DevType | Industry | Age | ICorPM

  const Fields: seq<Field> := [Country, EdLevel, DevType, Industry, Age, ICorPM]

  /** The frame column that holds a field. */
  function FieldName(f: Field): string
  {
    match f
    case Country => "Country"
    case EdLevel => "EdLevel"
    case DevType => "DevType"
    case Industry => "Industry"
    case Age => "Age"
    case ICorPM => "ICorPM"
  }

  const CategoricalNames: seq<string> := ["Country", "EdLevel", "DevType", "Industry", "Age", "ICorPM"]

  lemma FieldsComplete(f: Field)
    ensures f in Fields
  {
  }

  lemma CategoricalNamesAreFieldNames()
    ensures |CategoricalNames| == |Fields|
    ensures forall k :: 0 <= k < |Fields| ==> CategoricalNames[k] == FieldName(Fields[k])
  {
  }

  /** One dummy column: a field and one of its levels. */
  datatype Indicator = Indicator(field: Field, level: string)

  /** `get_dummies`' column name: field name, `_`, level. */
  function ColumnName(ind: Indicator): string
  {
    FieldName(ind.field) + "_" + ind.level
  }

  function Prefix(f: Field): string
  {
    FieldName(f) + "_"
  }

  predicate StartsWith(s: string, p: string)
  {
    |p| <= |s| && s[..|p|] == p
  }

  /** Reads a column name back as an indicator; `None` for any other name. */
  function Decode(c: string): Option<Indicator>
  {
    if StartsWith(c, Prefix(Country)) then Some(Indicator(Country, c[|Prefix(Country)|..]))
    else if StartsWith(c, Prefix(EdLevel)) then Some(Indicator(EdLevel, c[|Prefix(EdLevel)|..]))
    else if StartsWith(c, Prefix(DevType)) then Some(Indicator(DevType, c[|Prefix(DevType)|..]))
    else if StartsWith(c, Prefix(Industry)) then Some(Indicator(Industry, c[|Prefix(Industry)|..]))
    else if StartsWith(c, Prefix(Age)) then Some(Indicator(Age, c[|Prefix(Age)|..]))
    else if StartsWith(c, Prefix(ICorPM)) then Some(Indicator(ICorPM, c[|Prefix(ICorPM)|..]))
    else None
  }

  /** The first two characters of a field's prefix; they tell the fields apart. */
  function Tag(f: Field): string
  {
    match f
    case Country => "Co"
    case EdLevel => "Ed"
    case DevType => "De"
    case Industry => "In"
    case Age => "Ag"
    case ICorPM => "IC"
  }

  lemma PrefixTag(f: Field)
    ensures |Prefix(f)| >= 2 && Prefix(f)[..2] == Tag(f)
  {
    match f
    case Country => assert Prefix(f) == "Country_";
    case EdLevel => assert Prefix(f) == "EdLevel_";
    case DevType => assert Prefix(f) == "DevType_";
    case Industry => assert Prefix(f) == "Industry_";
    case Age => assert Prefix(f) == "Age_";
    case ICorPM => assert Prefix(f) == "ICorPM_";
  }

  /** A name that starts with a field's prefix starts with its tag. */
  lemma StartsWithTag(c: string, f: Field)
    requires StartsWith(c, Prefix(f))
    ensures |c| >= 2 && c[..2] == Tag(f)
  {
    PrefixTag(f);
    assert c[..|Prefix(f)|][..2] == c[..2];
  }

  /** Decoding inverts naming. */
  lemma DecodeColumnName(ind: Indicator)
    ensures Decode(ColumnName(ind)) == Some(ind)
  {
    var c := ColumnName(ind);
    var p := Prefix(ind.field);
    assert c == p + ind.level;
    assert c[..|p|] == p && c[|p|..] == ind.level;
    StartsWithTag(c, ind.field);
    forall g | g != ind.field ensures !StartsWith(c, Prefix(g)) {
      if StartsWith(c, Prefix(g)) {
        StartsWithTag(c, g);
      }
    }
  }

  /** Distinct indicators get distinct names. */
  lemma ColumnNameInjective(a: Indicator, b: Indicator)
    ensures ColumnName(a) == ColumnName(b) <==> a == b
  {
    DecodeColumnName(a);
    DecodeColumnName(b);
  }

  /** No indicator is named like an experience column. */
  lemma ExperienceNamesAreNotIndicators()
    ensures Decode("YearsCode") == None && Decode("WorkExp") == None
  {
    forall f ensures !StartsWith("YearsCode", Prefix(f)) && !StartsWith("WorkExp", Prefix(f)) {
      assert "YearsCode"[..2] == "Ye" && "WorkExp"[..2] == "Wo";
      if StartsWith("YearsCode", Prefix(f)) { StartsWithTag("YearsCode", f); }
      if StartsWith("WorkExp", Prefix(f)) { StartsWithTag("WorkExp", f); }
    }
  }

  /** The position of a field in the feature selection. */
  function FieldIndex(f: Field): nat
  {
    match f
    case Country => 0
    case EdLevel => 1
    case DevType => 2
    case Industry => 3
    case Age => 4
    case ICorPM => 5
  }

  /** The column order of `get_dummies`: fields in selection order, and the
      levels of one field ascending. */
  predicate Before(a: Indicator, b: Indicator)
  {
    FieldIndex(a.field) < FieldIndex(b.field) || (a.field == b.field && Less(a.level, b.level))
  }

  /** The selected feature frame after the fills: two experience columns and
      six categorical columns, none missing. */
  datatype Features = Features(
    yearsCode: seq<real>, workExp: seq<real>,
    country: seq<string>, edLevel: seq<string>, devType: seq<string>,
    industry: seq<string>, age: seq<string>, icOrPm: seq<string>)
  {
    function Cat(f: Field): seq<string>
    {
      match f
      case Country => country
      case EdLevel => edLevel
      case DevType => devType
      case Industry => industry
      case Age => age
      case ICorPM => icOrPm
    }

    /** Every column has `n` rows. */
    predicate Rows(n: nat)
    {
      |yearsCode| == n && |workExp| == n && forall f :: |Cat(f)| == n
    }
  }

  /** An encoded frame: column names and, per row, one value per column. */
  datatype Table = Table(columns: seq<string>, rows: seq<seq<real>>)

  /** The dummy levels of a field: its distinct values ascending, without the
      least one when `dropFirst` (`LevelsContents` states which values these are). */
  function Levels(x: Features, f: Field, dropFirst: bool): (r: seq<string>)
    ensures StrictlySorted(r)
    ensures forall v :: v in r ==> v in x.Cat(f)
  {
    var l := SortedUnique(x.Cat(f));
    if dropFirst && l != [] then
      HeadPrecedesTail(l);
      assert forall i, j :: 0 <= i < j < |l[1..]| ==> l[1..][i] == l[i + 1] && l[1..][j] == l[j + 1];
      l[1..]
    else
      l
  }

  /** Without `dropFirst` the levels are exactly the field's values; with it,
      exactly those values that some other value of the field precedes. */
  lemma LevelsContents(x: Features, f: Field, dropFirst: bool)
    ensures !dropFirst ==> forall v :: v in Levels(x, f, dropFirst) <==> v in x.Cat(f)
    ensures dropFirst ==> forall v :: v in Levels(x, f, dropFirst) <==> v in x.Cat(f) && exists w :: w in x.Cat(f) && Less(w, v)
  {
    var l := SortedUnique(x.Cat(f));
    if dropFirst && l != [] {
      DropLeast(l);
    }
  }

  lemma DropLeast(l: seq<string>)
    requires StrictlySorted(l) && l != []
    ensures forall v :: v in l[1..] <==> v in l && exists w :: w in l && Less(w, v)
  {
    HeadPrecedesTail(l);
    forall v ensures v in l[1..] <==> v in l && exists w :: w in l && Less(w, v) {
      assert l == [l[0]] + l[1..];
      if v in l && exists w :: w in l && Less(w, v) {
        var w :| w in l && Less(w, v);
        LessIrreflexive(v);
        if w != l[0] {
          LessTransitive(l[0], w, v);
        }
        LessIrreflexive(l[0]);
        assert v != l[0];
      }
    }
  }

  /** The value a cell of row `i` holds under column name `c`: the experience
      value, or 1 exactly when the row's field value is the column's level. */
  function Entry(x: Features, i: nat, c: string): real
    requires x.Rows(|x.yearsCode|) && i < |x.yearsCode|
  {
    if c == "YearsCode" then x.yearsCode[i]
    else if c == "WorkExp" then x.workExp[i]
    else match Decode(c)
      case None => 0.0
      case Some(ind) => if x.Cat(ind.field)[i] == ind.level then 1.0 else 0.0
  }

  /** The dummy columns of the fields `fs`, group by group. */
  function Indicators(x: Features, dropFirst: bool, fs: seq<Field>): seq<Indicator>
  {
    if fs == [] then []
    else
      var levels := Levels(x, fs[0], dropFirst);
      seq(|levels|, k requires 0 <= k < |levels| => Indicator(fs[0], levels[k]))
        + Indicators(x, dropFirst, fs[1..])
  }

  function Names(inds: seq<Indicator>): (r: seq<string>)
    ensures |r| == |inds|
  {
    seq(|inds|, k requires 0 <= k < |inds| => ColumnName(inds[k]))
  }

  /** Row `i` of the dummy part: 1 where the row holds the column's level. */
  function IndicatorRow(x: Features, inds: seq<Indicator>, i: nat): (r: seq<real>)
    requires x.Rows(|x.yearsCode|) && i < |x.yearsCode|
    ensures |r| == |inds|
  {
    seq(|inds|, k requires 0 <= k < |inds| => if x.Cat(inds[k].field)[i] == inds[k].level then 1.0 else 0.0)
  }

  predicate FieldsOrdered(fs: seq<Field>)
  {
    forall i, j :: 0 <= i < j < |fs| ==> FieldIndex(fs[i]) < FieldIndex(fs[j])
  }

  /** The dummy columns of `fs` are exactly the pairs of a field of `fs` and one of its levels. */
  lemma {:induction false} IndicatorsContents(x: Features, dropFirst: bool, fs: seq<Field>)
    ensures forall ind: Indicator :: ind in Indicators(x, dropFirst, fs) <==>
      ind.field in fs && ind.level in Levels(x, ind.field, dropFirst)
  {
    if fs != [] {
      var levels := Levels(x, fs[0], dropFirst);
      var g := seq(|levels|, k requires 0 <= k < |levels| => Indicator(fs[0], levels[k]));
      IndicatorsContents(x, dropFirst, fs[1..]);
      forall ind: Indicator
        ensures ind in g <==> ind.field == fs[0] && ind.level in levels
      {
        if ind.field == fs[0] && ind.level in levels {
          var k :| 0 <= k < |levels| && levels[k] == ind.level;
          assert g[k] == ind;
        }
      }
      assert fs == [fs[0]] + fs[1..];
    }
  }

  /** Indicators listed in `Before` order. */
  predicate InOrder(inds: seq<Indicator>)
  {
    forall k1, k2 :: 0 <= k1 < k2 < |inds| ==> Before(inds[k1], inds[k2])
  }

  lemma InOrderAppend(g: seq<Indicator>, rest: seq<Indicator>)
    requires InOrder(g) && InOrder(rest)
    requires forall a, b :: a in g && b in rest ==> Before(a, b)
    ensures InOrder(g + rest)
  {
    var inds := g + rest;
    forall k1, k2 | 0 <= k1 < k2 < |inds| ensures Before(inds[k1], inds[k2]) {
      if k1 < |g| {
        if k2 >= |g| {
          assert inds[k1] == g[k1] && inds[k2] == rest[k2 - |g|];
        }
      } else {
        assert inds[k1] == rest[k1 - |g|] && inds[k2] == rest[k2 - |g|];
      }
    }
  }

  /** The dummies of one field, its levels ascending. */
  lemma GroupInOrder(f: Field, levels: seq<string>)
    requires StrictlySorted(levels)
    ensures InOrder(seq(|levels|, k requires 0 <= k < |levels| => Indicator(f, levels[k])))
  {
  }

  /** Dummy columns come group by group in the order of `fs`, levels ascending
      within a group. */
  lemma {:induction false} IndicatorsOrdered(x: Features, dropFirst: bool, fs: seq<Field>)
    requires FieldsOrdered(fs)
    ensures InOrder(Indicators(x, dropFirst, fs))
  {
    if fs != [] {
      var levels := Levels(x, fs[0], dropFirst);
      var g := seq(|levels|, k requires 0 <= k < |levels| => Indicator(fs[0], levels[k]));
      var rest := Indicators(x, dropFirst, fs[1..]);
      IndicatorsOrdered(x, dropFirst, fs[1..]);
      IndicatorsContents(x, dropFirst, fs[1..]);
      GroupInOrder(fs[0], levels);
      forall a, b | a in g && b in rest ensures Before(a, b) {
        var j :| 0 <= j < |fs[1..]| && fs[1..][j] == b.field;
        assert fs[j + 1] == b.field;
      }
      InOrderAppend(g, rest);
    }
  }

  /** `Before` orders indicators strictly, so ordered indicators are distinct. */
  lemma BeforeIrreflexive(a: Indicator)
    ensures !Before(a, a)
  {
    LessIrreflexive(a.level);
  }

  /** Every name that decodes is the name of what it decodes to. */
  lemma EncodeDecoded(c: string)
    requires Decode(c).Some?
    ensures ColumnName(Decode(c).value) == c
  {
    var f := Decode(c).value.field;
    assert StartsWith(c, Prefix(f));
    assert c == c[..|Prefix(f)|] + c[|Prefix(f)|..];
  }

  /** The dummy names of `fs`, as listed by `Indicators`, name what they decode to. */
  lemma NamesDecode(inds: seq<Indicator>)
    ensures forall k :: 0 <= k < |inds| ==> Decode(Names(inds)[k]) == Some(inds[k])
    ensures forall c :: c in Names(inds) <==> Decode(c).Some? && Decode(c).value in inds
  {
    forall k | 0 <= k < |inds| ensures Decode(Names(inds)[k]) == Some(inds[k]) {
      DecodeColumnName(inds[k]);
    }
    forall c ensures c in Names(inds) <==> Decode(c).Some? && Decode(c).value in inds {
      if Decode(c).Some? && Decode(c).value in inds {
        var k :| 0 <= k < |inds| && inds[k] == Decode(c).value;
        EncodeDecoded(c);
        assert Names(inds)[k] == c;
      }
    }
  }

  /** The header of the encoded table: the experience columns, then the dummies. */
  function Header(inds: seq<Indicator>): (cols: seq<string>)
    ensures |cols| == |inds| + 2
  {
    ["YearsCode", "WorkExp"] + Names(inds)
  }

  lemma HeaderDecodes(inds: seq<Indicator>)
    ensures var cols := Header(inds);
      && cols[0] == "YearsCode" && cols[1] == "WorkExp"
      && Decode(cols[0]).None? && Decode(cols[1]).None?
      && forall k :: 2 <= k < |cols| ==> cols[k] == ColumnName(inds[k - 2]) && Decode(cols[k]) == Some(inds[k - 2])
  {
    var cols := Header(inds);
    ExperienceNamesAreNotIndicators();
    forall k | 2 <= k < |cols| ensures cols[k] == ColumnName(inds[k - 2]) && Decode(cols[k]) == Some(inds[k - 2]) {
      DecodeColumnName(inds[k - 2]);
    }
  }

  lemma HeaderContents(inds: seq<Indicator>)
    ensures forall c :: c in Header(inds)[2..] <==> Decode(c).Some? && Decode(c).value in inds
  {
    assert Header(inds)[2..] == Names(inds);
    NamesDecode(inds);
  }

  lemma HeaderDistinct(inds: seq<Indicator>)
    requires InOrder(inds)
    ensures Distinct(Header(inds))
  {
    var cols := Header(inds);
    HeaderDecodes(inds);
    forall k1, k2 | 0 <= k1 < k2 < |cols| ensures cols[k1] != cols[k2] {
      if k1 >= 2 {
        BeforeIrreflexive(inds[k1 - 2]);
        assert Decode(cols[k1]) == Some(inds[k1 - 2]) && Decode(cols[k2]) == Some(inds[k2 - 2]);
      } else if k2 >= 2 {
        assert Decode(cols[k2]).Some? && Decode(cols[k1]).None?;
      } else {
        assert |cols[0]| != |cols[1]|;
      }
    }
  }

  /** `pd.get_dummies(df_features, drop_first=dropFirst)`: the experience
      columns first, then every (field, level) dummy in field order with levels
      ascending, each exactly once; every cell holds what its column name calls for. */
  function GetDummies(x: Features, dropFirst: bool): (t: Table)
    requires x.Rows(|x.yearsCode|)
    ensures |t.rows| == |x.yearsCode|
    ensures |t.columns| >= 2 && t.columns[0] == "YearsCode" && t.columns[1] == "WorkExp"
    ensures forall k :: 2 <= k < |t.columns| ==> Decode(t.columns[k]).Some?
    ensures forall c :: c in t.columns[2..] <==>
      Decode(c).Some? && Decode(c).value.level in Levels(x, Decode(c).value.field, dropFirst)
    ensures forall k1, k2 :: 2 <= k1 < k2 < |t.columns| ==>
      Before(Decode(t.columns[k1]).value, Decode(t.columns[k2]).value)
    ensures Distinct(t.columns)
    ensures forall i :: 0 <= i < |t.rows| ==> |t.rows[i]| == |t.columns|
    ensures forall i, k :: 0 <= i < |t.rows| && 0 <= k < |t.columns| ==>
      t.rows[i][k] == Entry(x, i, t.columns[k])
  {
    var inds := Indicators(x, dropFirst, Fields);
    DummyColumnsFacts(x, dropFirst);
    var rows := seq(|x.yearsCode|, i requires 0 <= i < |x.yearsCode| =>
                  [x.yearsCode[i], x.workExp[i]] + IndicatorRow(x, inds, i));
    DummyRowsFacts(x, inds, rows);
    Table(Header(inds), rows)
  }

  /** The dummy `F_v` is a column of the encoded table exactly when `v` is a level of `F`. */
  lemma DummyColumnIn(x: Features, dropFirst: bool, f: Field, v: string)
    requires x.Rows(|x.yearsCode|)
    ensures ColumnName(Indicator(f, v)) in GetDummies(x, dropFirst).columns <==> v in Levels(x, f, dropFirst)
  {
    var t := GetDummies(x, dropFirst);
    var c := ColumnName(Indicator(f, v));
    DecodeColumnName(Indicator(f, v));
    ExperienceNamesAreNotIndicators();
    assert c != "YearsCode" && c != "WorkExp";
    assert t.columns == t.columns[..2] + t.columns[2..];
  }

  lemma DummyColumnsFacts(x: Features, dropFirst: bool)
    ensures var inds := Indicators(x, dropFirst, Fields);
      var cols := Header(inds);
      && (forall k :: 2 <= k < |cols| ==> Decode(cols[k]) == Some(inds[k - 2]))
      && (forall c :: c in cols[2..] <==>
           Decode(c).Some? && Decode(c).value.level in Levels(x, Decode(c).value.field, dropFirst))
      && (forall k1, k2 :: 2 <= k1 < k2 < |cols| ==> Before(Decode(cols[k1]).value, Decode(cols[k2]).value))
      && Distinct(cols)
  {
    var inds := Indicators(x, dropFirst, Fields);
    HeaderDecodes(inds);
    DummyColumnsContents(x, dropFirst);
    FieldsInOrder();
    IndicatorsOrdered(x, dropFirst, Fields);
    DummyColumnsOrder(inds);
    HeaderDistinct(inds);
  }

  lemma FieldsInOrder()
    ensures FieldsOrdered(Fields)
  {
    forall i, j | 0 <= i < j < |Fields| ensures FieldIndex(Fields[i]) < FieldIndex(Fields[j]) {
      assert FieldIndex(Fields[i]) == i && FieldIndex(Fields[j]) == j;
    }
  }

  lemma DummyColumnsContents(x: Features, dropFirst: bool)
    ensures forall c :: c in Header(Indicators(x, dropFirst, Fields))[2..] <==>
      Decode(c).Some? && Decode(c).value.level in Levels(x, Decode(c).value.field, dropFirst)
  {
    HeaderContents(Indicators(x, dropFirst, Fields));
    IndicatorsContents(x, dropFirst, Fields);
    forall ind: Indicator ensures ind.field in Fields { FieldsComplete(ind.field); }
  }

  lemma DummyColumnsOrder(inds: seq<Indicator>)
    requires InOrder(inds)
    ensures var cols := Header(inds);
      forall k :: 2 <= k < |cols| ==> Decode(cols[k]) == Some(inds[k - 2])
    ensures var cols := Header(inds);
      forall k1, k2 :: 2 <= k1 < k2 < |cols| ==> Before(Decode(cols[k1]).value, Decode(cols[k2]).value)
  {
    HeaderDecodes(inds);
  }

  lemma DummyRowsFacts(x: Features, inds: seq<Indicator>, rows: seq<seq<real>>)
    requires x.Rows(|x.yearsCode|)
    requires rows == seq(|x.yearsCode|, i requires 0 <= i < |x.yearsCode| =>
                       [x.yearsCode[i], x.workExp[i]] + IndicatorRow(x, inds, i))
    ensures var cols := Header(inds);
      && (forall i :: 0 <= i < |rows| ==> |rows[i]| == |cols|)
      && (forall i, k :: 0 <= i < |rows| && 0 <= k < |cols| ==> rows[i][k] == Entry(x, i, cols[k]))
  {
    var cols := Header(inds);
    HeaderDecodes(inds);
    forall i, k | 0 <= i < |rows| && 0 <= k < |cols| ensures rows[i][k] == Entry(x, i, cols[k]) {
      if k >= 2 {
        assert cols[k] != "YearsCode" && cols[k] != "WorkExp";
      }
    }
  }

  /** The cell under a dummy's own name is 1 exactly when the row holds its level. */
  lemma EntryOfIndicator(x: Features, i: nat, ind: Indicator)
    requires x.Rows(|x.yearsCode|) && i < |x.yearsCode|
    ensures Entry(x, i, ColumnName(ind)) == if x.Cat(ind.field)[i] == ind.level then 1.0 else 0.0
  {
    DecodeColumnName(ind);
    ExperienceNamesAreNotIndicators();
  }

  /** Without `drop_first` every row has exactly one 1 per field: the column of
      the row's own value is there, and among the field's columns only it holds 1. */
  lemma OneHotPerField(x: Features, i: nat, f: Field)
    requires x.Rows(|x.yearsCode|) && i < |x.yearsCode|
    ensures var t := GetDummies(x, false);
      var own := ColumnName(Indicator(f, x.Cat(f)[i]));
      && own in t.columns
      && forall k :: 2 <= k < |t.columns| && Decode(t.columns[k]).value.field == f ==>
           (t.rows[i][k] == 1.0 <==> t.columns[k] == own)
  {
    var t := GetDummies(x, false);
    var ind := Indicator(f, x.Cat(f)[i]);
    OwnColumnPresent(x, i, f);
    forall k | 2 <= k < |t.columns| && Decode(t.columns[k]).value.field == f
      ensures t.rows[i][k] == 1.0 <==> t.columns[k] == ColumnName(ind)
    {
      var c := t.columns[k];
      var d := Decode(c).value;
      EncodeDecoded(c);
      EntryOfIndicator(x, i, d);
      ColumnNameInjective(d, ind);
    }
  }

  lemma OwnColumnPresent(x: Features, i: nat, f: Field)
    requires x.Rows(|x.yearsCode|) && i < |x.yearsCode|
    ensures ColumnName(Indicator(f, x.Cat(f)[i])) in GetDummies(x, false).columns
  {
    var t := GetDummies(x, false);
    var ind := Indicator(f, x.Cat(f)[i]);
    var own := ColumnName(ind);
    LevelsContents(x, f, false);
    DecodeColumnName(ind);
    assert own in t.columns[2..];
    var k :| 0 <= k < |t.columns[2..]| && t.columns[2..][k] == own;
    assert t.columns[k + 2] == own;
  }

  /** A single row has one level per field. */
  lemma SingleRowLevels(x: Features, f: Field)
    requires x.Rows(1)
    ensures Levels(x, f, false) == [x.Cat(f)[0]]
  {
    var s := x.Cat(f);
    assert s[..0] == [];
    assert SortedUnique(s) == Insert(s[0], SortedUnique([]));
  }

  lemma {:induction false} SingleRowIndicators(x: Features, fs: seq<Field>)
    requires x.Rows(1)
    ensures |Indicators(x, false, fs)| == |fs|
    ensures forall k :: 0 <= k < |fs| ==> Indicators(x, false, fs)[k] == Indicator(fs[k], x.Cat(fs[k])[0])
  {
    if fs != [] {
      SingleRowLevels(x, fs[0]);
      SingleRowIndicators(x, fs[1..]);
    }
  }

  /** With one row and no dropping, the table has the two experience columns and
      six dummies, one per field, each holding 1. */
  lemma SingleRowDummies(x: Features)
    requires x.Rows(1)
    ensures var t := GetDummies(x, false);
      && |t.columns| == 8
      && (forall k :: 2 <= k < 8 ==> t.columns[k] == ColumnName(Indicator(Fields[k - 2], x.Cat(Fields[k - 2])[0])))
      && (forall k :: 2 <= k < 8 ==> t.rows[0][k] == 1.0)
  {
    var t := GetDummies(x, false);
    var inds := Indicators(x, false, Fields);
    SingleRowIndicators(x, Fields);
    assert t.columns == Header(inds);
    HeaderDecodes(inds);
  }
}

