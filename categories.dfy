/** The two whole-column transforms of the preprocessing module:
    `normalize_other_categories` (rewrite every "Other..." variant to the
    configured other-category name) and `reduce_cardinality` (keep the
    frequent, top-ranked values and fold the rest into that name).
    The configured name is the parameter `otherName` throughout. */
module Categories {
  import opened Wrappers
  import opened Text

  /** One categorical column; `None` is a missing value. */
  type Column = seq<Option<string>>

  /** A character that Python's `\w` matches, restricted to ASCII. */
  predicate IsWordChar(c: char)
  {
    ('a' <= c <= 'z') || ('A' <= c <= 'Z') || ('0' <= c <= '9') || c == '_'
  }

  /** Where `r"^Other\b.*$"` matches `s`: the word `Other` opens the string
      and is not followed by a word character, and the rest holds no newline
      (`.` stops at one) except as its last character (`$` also matches just
      before a final newline). */
  predicate IsOtherVariant(s: string)
  {
    |s| >= 5 && s[..5] == "Other" && (|s| == 5 || (!IsWordChar(s[5]) && '\n' !in s[5..|s| - 1]))
  }

  function NormalizeValue(v: Option<string>, otherName: string): Option<string>
  {
    if v.Some? && IsOtherVariant(v.value) then Some(otherName) else v
  }

  /** `normalize_other_categories`: `series.replace(r"^Other\b.*$", other_name, regex=True)`. */
  function NormalizeOtherCategories(col: Column, otherName: string): (r: Column)
    ensures |r| == |col|
    ensures forall i :: 0 <= i < |col| ==>
      if col[i].Some? && IsOtherVariant(col[i].value) then r[i] == Some(otherName) else r[i] == col[i]
  {
    seq(|col|, i requires 0 <= i < |col| => NormalizeValue(col[i], otherName))
  }

  /** The values the repository's tests pin down. */
  lemma NormalizeOtherExamples(otherName: string)
    ensures NormalizeOtherCategories(
              [Some("Other (please specify):"), Some("Other:"), Some("Other"), Some("Others"),
               Some("Otherwise"), Some("Developer, back-end"), None], otherName)
         == [Some(otherName), Some(otherName), Some(otherName), Some("Others"),
             Some("Otherwise"), Some("Developer, back-end"), None]
  {
    var col := [Some("Other (please specify):"), Some("Other:"), Some("Other"), Some("Others"),
                Some("Otherwise"), Some("Developer, back-end"), None];
    assert IsOtherVariant("Other (please specify):") && IsOtherVariant("Other:") && IsOtherVariant("Other");
    assert !IsOtherVariant("Others") && !IsOtherVariant("Otherwise");
    assert "Developer, back-end"[..5] == "Devel";
  }

  /** The newline cases: `.` stops at a newline, `$` may precede a final one. */
  lemma OtherVariantNewlines()
    ensures IsOtherVariant("Other:\n") && IsOtherVariant("Other\n")
    ensures !IsOtherVariant("Other\nDeveloper") && !IsOtherVariant("Other:\n\n")
  {
    assert "Other:\n"[5..6] == ":";
    assert "Other\nDeveloper"[5..14] == "\nDevelope";
    assert "Other:\n\n"[5..7] == ":\n";
  }

  /** A value changes exactly when it is an Other-variant other than the name itself. */
  lemma NormalizeChangesOnlyVariants(col: Column, otherName: string, i: nat)
    requires i < |col|
    ensures NormalizeOtherCategories(col, otherName)[i] != col[i]
        <==> col[i].Some? && IsOtherVariant(col[i].value) && col[i].value != otherName
  {
  }

  /** Normalising twice is normalising once, whatever the other-category name. */
  lemma NormalizeIdempotent(col: Column, otherName: string)
    ensures NormalizeOtherCategories(NormalizeOtherCategories(col, otherName), otherName)
         == NormalizeOtherCategories(col, otherName)
  {
    var once := NormalizeOtherCategories(col, otherName);
    var twice := NormalizeOtherCategories(once, otherName);
    forall i | 0 <= i < |col| ensures twice[i] == once[i] {
    }
  }

  /** The typographic apostrophe U+2019. */
  const RightQuote: char := '\U{2019}'

  function FixApostrophe(v: Option<string>): Option<string>
  {
    match v
    case None => None
    case Some(s) => Some(ReplaceChar(s, RightQuote, '\''))
  }

  /** `series.str.replace("’", "'", regex=False)`; missing values stay missing. */
  function FixApostrophes(col: Column): (r: Column)
    ensures |r| == |col|
    ensures forall i :: 0 <= i < |col| ==> r[i].Some? == col[i].Some?
    ensures forall i :: 0 <= i < |col| && r[i].Some? ==> RightQuote !in r[i].value
    ensures forall i :: 0 <= i < |col| && col[i].Some? && RightQuote !in col[i].value ==> r[i] == col[i]
  {
    seq(|col|, i requires 0 <= i < |col| => FixApostrophe(col[i]))
  }

  /** The number of times `v` occurs in the column. */
  function Count(col: Column, v: string): nat
  {
    Occurrences(col, Some(v))
  }

  /** Non-increasing by count in `col`. */
  predicate ByCount(ranking: seq<string>, col: Column)
  {
    forall i, j :: 0 <= i < j < |ranking| ==> Count(col, ranking[i]) >= Count(col, ranking[j])
  }

  /** `ranking` is a possible `series.value_counts().index`: every non-missing
      value of `col` once, by non-increasing count; the order of ties is left open. */
  ghost predicate IsRanking(col: Column, ranking: seq<string>)
  {
    && Distinct(ranking)
    && (forall v :: v in ranking <==> Some(v) in col)
    && ByCount(ranking, col)
  }

  /** The present values of `col`, in order (pandas `dropna`). */
  function Present(col: Column): (r: seq<string>)
    ensures forall v :: v in r <==> Some(v) in col
  {
    if col == [] then []
    else
      assert col == [col[0]] + col[1..];
      (if col[0].Some? then [col[0].value] else []) + Present(col[1..])
  }

  /** The distinct values of `s`, in order of first appearance (pandas `unique`). */
  function Unique(s: seq<string>): (r: seq<string>)
    ensures Distinct(r)
    ensures forall v :: v in r <==> v in s
  {
    if s == [] then []
    else
      var u := Unique(s[..|s| - 1]);
      assert s == s[..|s| - 1] + [s[|s| - 1]];
      if s[|s| - 1] in u then u else u + [s[|s| - 1]]
  }

  lemma PrependByCount(h: string, t: seq<string>, col: Column)
    requires ByCount(t, col) && Distinct(t) && h !in t
    requires forall y :: y in t ==> Count(col, y) <= Count(col, h)
    ensures ByCount([h] + t, col) && Distinct([h] + t)
  {
    var s := [h] + t;
    forall i, j | 0 <= i < j < |s| ensures Count(col, s[i]) >= Count(col, s[j]) && s[i] != s[j] {
      assert s[j] == t[j - 1] && t[j - 1] in t;
      if i > 0 {
        assert s[i] == t[i - 1];
      }
    }
  }

  /** Inserts `x` after every value at least as frequent. */
  function InsertByCount(x: string, r: seq<string>, col: Column): (r': seq<string>)
    requires ByCount(r, col) && Distinct(r) && x !in r
    ensures ByCount(r', col) && Distinct(r')
    ensures forall y :: y in r' <==> y == x || y in r
  {
    if r == [] then [x]
    else if Count(col, r[0]) < Count(col, x) then
      PrependByCount(x, r, col);
      [x] + r
    else
      assert r == [r[0]] + r[1..];
      var t := InsertByCount(x, r[1..], col);
      PrependByCount(r[0], t, col);
      [r[0]] + t
  }

  function SortByCount(vals: seq<string>, col: Column): (r: seq<string>)
    requires Distinct(vals)
    ensures ByCount(r, col) && Distinct(r)
    ensures forall y :: y in r <==> y in vals
  {
    if vals == [] then []
    else
      assert vals == [vals[0]] + vals[1..];
      InsertByCount(vals[0], SortByCount(vals[1..], col), col)
  }

  /** One admissible `value_counts` order: ties keep the order of first appearance. */
  function ValueCounts(col: Column): (r: seq<string>)
    ensures IsRanking(col, r)
  {
    SortByCount(Unique(Present(col)), col)
  }

  /** `rank` is a `value_counts` for every column: it fixes one tie order among
      equally frequent values, whichever the sort produces. */
  ghost predicate Ranks(rank: Column -> seq<string>)
  {
    forall col :: IsRanking(col, rank(col))
  }

  type Ranker = rank: Column -> seq<string> | Ranks(rank) witness ValueCounts

  /** `value_counts().head(n)`. */
  function Head(ranking: seq<string>, n: nat): (r: seq<string>)
    ensures |r| <= n && |r| <= |ranking|
    ensures forall v :: v in r <==> exists k :: 0 <= k < |ranking| && k < n && ranking[k] == v
  {
    if n >= |ranking| then ranking else ranking[..n]
  }

  /** `top_categories[top_categories >= min_frequency].index.tolist()`. */
  function Frequent(top: seq<string>, col: Column, minFrequency: nat): (r: seq<string>)
    ensures |r| <= |top|
    ensures forall v :: v in r <==> v in top && Count(col, v) >= minFrequency
  {
    if top == [] then []
    else
      assert top == [top[0]] + top[1..];
      (if Count(col, top[0]) >= minFrequency then [top[0]] else []) + Frequent(top[1..], col, minFrequency)
  }

  /** `kept_categories` of `reduce_cardinality`, computed on the normalised column. */
  function KeptCategories(n: Column, ranking: seq<string>, maxCategories: nat, minFrequency: nat): (r: seq<string>)
    ensures |r| <= maxCategories
    ensures forall v :: v in r <==> v in Head(ranking, maxCategories) && Count(n, v) >= minFrequency
  {
    Frequent(Head(ranking, maxCategories), n, minFrequency)
  }

  /** `reduce_cardinality(series, max_categories, min_frequency)`. `ranking` is
      the `value_counts` order of the normalised column that pandas happens to
      produce. A position keeps its normalised value exactly when that value is
      among the first `maxCategories` ranked values and occurs at least
      `minFrequency` times; every other position, missing ones included,
      becomes `otherName`. */
  function ReduceCardinality(col: Column, ranking: seq<string>, otherName: string,
                             maxCategories: nat, minFrequency: nat): (r: Column)
    requires IsRanking(NormalizeOtherCategories(col, otherName), ranking)
    ensures |r| == |col|
    ensures forall i :: 0 <= i < |r| ==> r[i].Some?
    ensures var n := NormalizeOtherCategories(col, otherName);
      forall i :: 0 <= i < |r| ==>
        if n[i].Some? && n[i].value in Head(ranking, maxCategories) && Count(n, n[i].value) >= minFrequency
        then r[i] == n[i]
        else r[i] == Some(otherName)
  {
    var n := NormalizeOtherCategories(col, otherName);
    var kept := KeptCategories(n, ranking, maxCategories, minFrequency);
    seq(|n|, i requires 0 <= i < |n| => if n[i].Some? && n[i].value in kept then n[i] else Some(otherName))
  }

  /** The values other than `otherName` that appear in a column. */
  function Survivors(r: Column, otherName: string): set<string>
  {
    set i | 0 <= i < |r| && r[i].Some? && r[i].value != otherName :: r[i].value
  }

  /** The set of values that occur in a column. */
  function Values(col: Column): set<string>
  {
    set i | 0 <= i < |col| && col[i].Some? :: col[i].value
  }

  /** At most `maxCategories` distinct values besides `otherName` survive. */
  lemma ReduceKeepsAtMostMaxCategories(col: Column, ranking: seq<string>, otherName: string,
                                       maxCategories: nat, minFrequency: nat)
    requires IsRanking(NormalizeOtherCategories(col, otherName), ranking)
    ensures |Survivors(ReduceCardinality(col, ranking, otherName, maxCategories, minFrequency), otherName)|
            <= maxCategories
  {
    var n := NormalizeOtherCategories(col, otherName);
    var r := ReduceCardinality(col, ranking, otherName, maxCategories, minFrequency);
    var kept := KeptCategories(n, ranking, maxCategories, minFrequency);
    assert Survivors(r, otherName) <= Elems(kept);
    ElemsCardinality(kept);
    SubsetCardinality(Survivors(r, otherName), Elems(kept));
  }

  lemma {:induction false} SubsetCardinality<T>(a: set<T>, b: set<T>)
    requires a <= b
    ensures |a| <= |b|
  {
    if a != {} {
      var x :| x in a;
      SubsetCardinality(a - {x}, b - {x});
    }
  }

  /** A ranking lists each distinct value once. */
  lemma RankingLength(n: Column, ranking: seq<string>)
    requires IsRanking(n, ranking)
    ensures |ranking| == |Values(n)|
  {
    DistinctCardinality(ranking);
    assert Elems(ranking) == Values(n) by {
      forall v ensures v in Elems(ranking) <==> v in Values(n) {
        if v in Values(n) {
          var i :| 0 <= i < |n| && n[i].Some? && n[i].value == v;
          assert n[i] == Some(v);
        }
      }
    }
  }

  /** With no more distinct values than `maxCategories`, every value that
      occurs at least `minFrequency` times is kept unchanged, whatever the
      order of ties. */
  lemma ReduceKeepsFrequentWhenFew(col: Column, ranking: seq<string>, otherName: string,
                                   maxCategories: nat, minFrequency: nat)
    requires IsRanking(NormalizeOtherCategories(col, otherName), ranking)
    requires |Values(NormalizeOtherCategories(col, otherName))| <= maxCategories
    ensures var n := NormalizeOtherCategories(col, otherName);
      var r := ReduceCardinality(col, ranking, otherName, maxCategories, minFrequency);
      forall i :: 0 <= i < |n| && n[i].Some? && Count(n, n[i].value) >= minFrequency ==> r[i] == n[i]
  {
    var n := NormalizeOtherCategories(col, otherName);
    RankingLength(n, ranking);
    assert Head(ranking, maxCategories) == ranking;
  }

  function Repeat(v: Option<string>, k: nat): (r: Column)
    ensures |r| == k && forall i :: 0 <= i < k ==> r[i] == v
  {
    seq(k, _ => v)
  }

  lemma {:induction false} CountRepeat(v: string, w: string, k: nat)
    ensures Count(Repeat(Some(v), k), w) == if v == w then k else 0
  {
    if k > 0 {
      assert Repeat(Some(v), k)[1..] == Repeat(Some(v), k - 1);
      CountRepeat(v, w, k - 1);
    }
  }

  /** A column whose only Other-variant is the name itself is its own normalisation. */
  lemma NormalizeWithoutVariants(col: Column, otherName: string)
    requires forall i :: 0 <= i < |col| && col[i].Some? ==> !IsOtherVariant(col[i].value) || col[i].value == otherName
    ensures NormalizeOtherCategories(col, otherName) == col
  {
  }

  /** The column of the repository's rare-category test: `k` x "Common" and
      one each of "Rare1", "Rare2", "Rare3". */
  function RareColumn(k: nat): Column
  {
    Repeat(Some("Common"), k) + [Some("Rare1"), Some("Rare2"), Some("Rare3")]
  }

  lemma RareColumnNormal(k: nat)
    ensures NormalizeOtherCategories(RareColumn(k), "Other") == RareColumn(k)
    ensures forall i :: 0 <= i < k ==> RareColumn(k)[i] == Some("Common")
    ensures forall i :: k <= i < k + 3 ==> RareColumn(k)[i] in [Some("Rare1"), Some("Rare2"), Some("Rare3")]
  {
    var col := RareColumn(k);
    assert "Common"[..5] == "Commo" && "Rare1"[..5] == "Rare1";
    assert "Rare2"[..5] == "Rare2" && "Rare3"[..5] == "Rare3";
    forall i | 0 <= i < |col| ensures col[i].Some? && !IsOtherVariant(col[i].value) {
      if i >= k {
        assert col[i] in [Some("Rare1"), Some("Rare2"), Some("Rare3")];
      }
    }
    NormalizeWithoutVariants(col, "Other");
  }

  lemma RareColumnCount(k: nat, v: string)
    ensures Count(RareColumn(k), v) == if v == "Common" then k else if v in ["Rare1", "Rare2", "Rare3"] then 1 else 0
  {
    var rares := [Some("Rare1"), Some("Rare2"), Some("Rare3")];
    CountRepeat("Common", v, k);
    OccurrencesAppend(Repeat(Some("Common"), k), rares, Some(v));
    assert rares[1..][1..][1..] == [];
  }

  lemma RareColumnValues(k: nat)
    requires k > 0
    ensures |Values(RareColumn(k))| == 4
  {
    var col := RareColumn(k);
    RareColumnNormal(k);
    assert Values(col) == {"Common", "Rare1", "Rare2", "Rare3"} by {
      forall v ensures v in Values(col) <==> v in {"Common", "Rare1", "Rare2", "Rare3"} {
        if v in {"Common", "Rare1", "Rare2", "Rare3"} {
          if v == "Common" { assert col[0] == Some(v); }
          else if v == "Rare1" { assert col[k] == Some(v); }
          else if v == "Rare2" { assert col[k + 1] == Some(v); }
          else { assert col[k + 2] == Some(v); }
        }
      }
    }
  }

  /** The fate of one cell of the rare-category column. */
  lemma RareCell(k: nat, ranking: seq<string>, i: nat)
    requires k >= 10 && i < k + 3
    requires IsRanking(NormalizeOtherCategories(RareColumn(k), "Other"), ranking)
    ensures ReduceCardinality(RareColumn(k), ranking, "Other", 5, 10)[i]
         == if i < k then Some("Common") else Some("Other")
  {
    var col := RareColumn(k);
    RareColumnNormal(k);
    var v := col[i].value;
    RareColumnCount(k, v);
    if i < k {
      RareColumnValues(k);
      ReduceKeepsFrequentWhenFew(col, ranking, "Other", 5, 10);
    } else {
      assert v in ["Rare1", "Rare2", "Rare3"];
    }
  }

  /** `k` x "Common" (the repository's test uses 100) and one each of "Rare1",
      "Rare2", "Rare3", with `max_categories=5, min_frequency=10`: every "Common"
      cell stays and the three rare cells become `otherName`, whatever the tie order. */
  lemma GroupsRareCategories(k: nat, ranking: seq<string>)
    requires k >= 10
    requires IsRanking(NormalizeOtherCategories(RareColumn(k), "Other"), ranking)
    ensures ReduceCardinality(RareColumn(k), ranking, "Other", 5, 10)
         == Repeat(Some("Common"), k) + Repeat(Some("Other"), 3)
  {
    var r := ReduceCardinality(RareColumn(k), ranking, "Other", 5, 10);
    var expected := Repeat(Some("Common"), k) + Repeat(Some("Other"), 3);
    forall i | 0 <= i < |r| ensures r[i] == expected[i] {
      RareCell(k, ranking, i);
    }
  }

  /** The instance of the test: "Common" survives, "Rare1" does not, and exactly
      three cells read "Other". */
  lemma GroupsRareCategoriesInstance(ranking: seq<string>)
    requires IsRanking(NormalizeOtherCategories(RareColumn(100), "Other"), ranking)
    ensures var r := ReduceCardinality(RareColumn(100), ranking, "Other", 5, 10);
      && Some("Common") in r
      && Some("Rare1") !in r
      && Occurrences(r, Some("Other")) == 3
  {
    GroupsRareCategories(100, ranking);
    TwoBlocks("Common", "Other", "Rare1", 100, 3);
  }

  /** `k` copies of `a` then `m` of `b`: `a` occurs, `c` does not, and `b` occurs `m` times. */
  lemma TwoBlocks(a: string, b: string, c: string, k: nat, m: nat)
    requires k > 0 && a != b && c != a && c != b
    ensures var r := Repeat(Some(a), k) + Repeat(Some(b), m);
      Some(a) in r && Some(c) !in r && Occurrences(r, Some(b)) == m
  {
    var r := Repeat(Some(a), k) + Repeat(Some(b), m);
    assert r[0] == Some(a);
    CountRepeat(a, b, k);
    CountRepeat(b, b, m);
    CountRepeat(a, c, k);
    CountRepeat(b, c, m);
    OccurrencesAppend(Repeat(Some(a), k), Repeat(Some(b), m), Some(b));
    OccurrencesAppend(Repeat(Some(a), k), Repeat(Some(b), m), Some(c));
    OccurrencesPositive(r, Some(c));
  }

  /** Every position of the result is `otherName` or its normalised input
      value, and a value kept that way occurs at least `minFrequency` times. */
  lemma ReduceKeepsOrFolds(col: Column, ranking: seq<string>, otherName: string,
                           maxCategories: nat, minFrequency: nat, i: nat)
    requires IsRanking(NormalizeOtherCategories(col, otherName), ranking)
    requires i < |col|
    ensures var n := NormalizeOtherCategories(col, otherName);
      var r := ReduceCardinality(col, ranking, otherName, maxCategories, minFrequency);
      r[i] == Some(otherName) || (r[i] == n[i] && r[i].Some? && Count(n, r[i].value) >= minFrequency)
  {
  }

  /** When there are few distinct values and all are frequent, reduction only normalises. */
  lemma ReduceOnlyNormalizesWhenAllFrequent(col: Column, ranking: seq<string>, otherName: string,
                                            maxCategories: nat, minFrequency: nat)
    requires IsRanking(NormalizeOtherCategories(col, otherName), ranking)
    requires |Values(NormalizeOtherCategories(col, otherName))| <= maxCategories
    requires forall i :: 0 <= i < |col| ==> col[i].Some?
    requires var n := NormalizeOtherCategories(col, otherName);
      forall v :: v in Values(n) ==> Count(n, v) >= minFrequency
    ensures ReduceCardinality(col, ranking, otherName, maxCategories, minFrequency)
         == NormalizeOtherCategories(col, otherName)
  {
    var n := NormalizeOtherCategories(col, otherName);
    var r := ReduceCardinality(col, ranking, otherName, maxCategories, minFrequency);
    ReduceKeepsFrequentWhenFew(col, ranking, otherName, maxCategories, minFrequency);
    forall i | 0 <= i < |r| ensures r[i] == n[i] {
      assert n[i].value in Values(n);
    }
  }

  /** The column of the repository's frequent-category test: `a` x "A",
      `b` x "B", `c` x "C". */
  function ThreeGroups(a: nat, b: nat, c: nat): Column
  {
    Repeat(Some("A"), a) + Repeat(Some("B"), b) + Repeat(Some("C"), c)
  }

  lemma ThreeGroupsCell(a: nat, b: nat, c: nat, i: nat)
    requires i < a + b + c
    ensures ThreeGroups(a, b, c)[i] == if i < a then Some("A") else if i < a + b then Some("B") else Some("C")
  {
    var ab := Repeat(Some("A"), a) + Repeat(Some("B"), b);
    if i < a + b {
      assert ThreeGroups(a, b, c)[i] == ab[i];
    }
  }

  lemma ThreeGroupsCount(a: nat, b: nat, c: nat, v: string)
    ensures Count(ThreeGroups(a, b, c), v) == if v == "A" then a else if v == "B" then b else if v == "C" then c else 0
  {
    CountRepeat("A", v, a);
    CountRepeat("B", v, b);
    CountRepeat("C", v, c);
    OccurrencesAppend(Repeat(Some("A"), a), Repeat(Some("B"), b), Some(v));
    OccurrencesAppend(Repeat(Some("A"), a) + Repeat(Some("B"), b), Repeat(Some("C"), c), Some(v));
  }

  lemma ThreeGroupsValues(a: nat, b: nat, c: nat)
    requires a > 0 && b > 0 && c > 0
    ensures Values(ThreeGroups(a, b, c)) == {"A", "B", "C"}
    ensures NormalizeOtherCategories(ThreeGroups(a, b, c), "Other") == ThreeGroups(a, b, c)
  {
    var col := ThreeGroups(a, b, c);
    forall i | 0 <= i < |col| ensures col[i] in {Some("A"), Some("B"), Some("C")} {
      ThreeGroupsCell(a, b, c, i);
    }
    ThreeGroupsCell(a, b, c, 0);
    ThreeGroupsCell(a, b, c, a);
    ThreeGroupsCell(a, b, c, a + b);
    NormalizeWithoutVariants(col, "Other");
  }

  /** `a` x "A", `b` x "B", `c` x "C" (the test uses 100, 80, 60) with
      `max_categories=5, min_frequency=50`: the result holds exactly the
      values "A", "B" and "C". */
  lemma KeepsFrequentCategories(a: nat, b: nat, c: nat, ranking: seq<string>)
    requires a >= 50 && b >= 50 && c >= 50
    requires IsRanking(NormalizeOtherCategories(ThreeGroups(a, b, c), "Other"), ranking)
    ensures Values(ReduceCardinality(ThreeGroups(a, b, c), ranking, "Other", 5, 50)) == {"A", "B", "C"}
  {
    var col := ThreeGroups(a, b, c);
    ThreeGroupsValues(a, b, c);
    forall v | v in Values(col) ensures Count(col, v) >= 50 {
      ThreeGroupsCount(a, b, c, v);
    }
    forall i | 0 <= i < |col| ensures col[i].Some? {
      ThreeGroupsCell(a, b, c, i);
    }
    ReduceOnlyNormalizesWhenAllFrequent(col, ranking, "Other", 5, 50);
  }

  /** A value strictly more frequent than every other one heads any ranking. */
  lemma MostFrequentHeadsRanking(col: Column, ranking: seq<string>, v: string)
    requires IsRanking(col, ranking)
    requires Some(v) in col
    requires forall w :: Some(w) in col && w != v ==> Count(col, w) < Count(col, v)
    ensures ranking != [] && ranking[0] == v
  {
    assert v in ranking;
    var j :| 0 <= j < |ranking| && ranking[j] == v;
    assert Some(ranking[0]) in col;
    ByCountHead(col, ranking, j);
  }

  /** The head of a ranking is at least as frequent as any entry. */
  lemma ByCountHead(col: Column, ranking: seq<string>, j: nat)
    requires ByCount(ranking, col) && j < |ranking|
    ensures Count(col, ranking[0]) >= Count(col, ranking[j])
  {
  }

  /** The column `[A, A, B, C, D]`. */
  function SkewedColumn(): Column
  {
    [Some("A"), Some("A"), Some("B"), Some("C"), Some("D")]
  }

  /** `[A, A, Other, Other, Other]`. */
  function FoldedColumn(): Column
  {
    [Some("A"), Some("A"), Some("Other"), Some("Other"), Some("Other")]
  }

  lemma SkewedCounts()
    ensures NormalizeOtherCategories(SkewedColumn(), "Other") == SkewedColumn()
    ensures Count(SkewedColumn(), "A") == 2
    ensures forall w :: Some(w) in SkewedColumn() && w != "A" ==> Count(SkewedColumn(), w) < 2
  {
    var col := SkewedColumn();
    NormalizeWithoutVariants(col, "Other");
    assert Count(col, "A") == 2;
    forall w | Some(w) in col && w != "A" ensures Count(col, w) < 2 {
      assert w == "B" || w == "C" || w == "D";
    }
  }

  lemma SkewedHead(ranking: seq<string>)
    requires IsRanking(NormalizeOtherCategories(SkewedColumn(), "Other"), ranking)
    ensures Head(ranking, 1) == ["A"]
  {
    SkewedCounts();
    MostFrequentHeadsRanking(SkewedColumn(), ranking, "A");
  }

  lemma FirstPassFolds(ranking: seq<string>)
    requires IsRanking(NormalizeOtherCategories(SkewedColumn(), "Other"), ranking)
    ensures ReduceCardinality(SkewedColumn(), ranking, "Other", 1, 1) == FoldedColumn()
  {
    var r := ReduceCardinality(SkewedColumn(), ranking, "Other", 1, 1);
    forall i | 0 <= i < 5 ensures r[i] == FoldedColumn()[i] {
      FirstPassCell(ranking, i);
    }
  }

  lemma FirstPassCell(ranking: seq<string>, i: nat)
    requires IsRanking(NormalizeOtherCategories(SkewedColumn(), "Other"), ranking)
    requires i < 5
    ensures ReduceCardinality(SkewedColumn(), ranking, "Other", 1, 1)[i] == FoldedColumn()[i]
  {
    var col := SkewedColumn();
    SkewedCounts();
    SkewedHead(ranking);
    ReduceNormalCell(col, ranking, "Other", 1, 1, i);
    if i < 2 {
      assert col[i] == Some("A") && FoldedColumn()[i] == Some("A");
    } else {
      assert col[i].value != "A" && FoldedColumn()[i] == Some("Other");
    }
  }

  /** On a column that normalisation leaves alone, a present cell is kept
      exactly when it is ranked high enough and frequent enough. */
  lemma ReduceNormalCell(col: Column, ranking: seq<string>, otherName: string,
                         maxCategories: nat, minFrequency: nat, i: nat)
    requires IsRanking(NormalizeOtherCategories(col, otherName), ranking)
    requires NormalizeOtherCategories(col, otherName) == col
    requires i < |col| && col[i].Some?
    ensures ReduceCardinality(col, ranking, otherName, maxCategories, minFrequency)[i]
         == if col[i].value in Head(ranking, maxCategories) && Count(col, col[i].value) >= minFrequency
            then col[i] else Some(otherName)
  {
  }

  lemma SecondPassSwallows(ranking: seq<string>)
    requires IsRanking(NormalizeOtherCategories(FoldedColumn(), "Other"), ranking)
    ensures ReduceCardinality(FoldedColumn(), ranking, "Other", 1, 1) == Repeat(Some("Other"), 5)
  {
    var col := FoldedColumn();
    NormalizeWithoutVariants(col, "Other");
    assert Count(col, "Other") == 3;
    forall w | Some(w) in col && w != "Other" ensures Count(col, w) < 3 {
      assert w == "A";
    }
    MostFrequentHeadsRanking(col, ranking, "Other");
    assert Head(ranking, 1) == ["Other"];
  }

  /** `reduce_cardinality` is not idempotent: on `[A, A, B, C, D]` with
      `max_categories=1, min_frequency=1` the first pass folds B, C, D into a
      bucket of three, which then outranks A on a second pass and swallows it,
      whatever order `value_counts` gives to ties. */
  lemma ReduceNotIdempotent(ranking1: seq<string>, ranking2: seq<string>)
    requires IsRanking(NormalizeOtherCategories(SkewedColumn(), "Other"), ranking1)
    requires IsRanking(NormalizeOtherCategories(
               ReduceCardinality(SkewedColumn(), ranking1, "Other", 1, 1), "Other"), ranking2)
    ensures var once := ReduceCardinality(SkewedColumn(), ranking1, "Other", 1, 1);
      ReduceCardinality(once, ranking2, "Other", 1, 1) != once
  {
    FirstPassFolds(ranking1);
    SecondPassSwallows(ranking2);
    assert Repeat(Some("Other"), 5)[0] != FoldedColumn()[0];
  }
}
