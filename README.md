# Developer salary prediction: encoding and validation core

This project models the feature pipeline of a salary predictor trained on the
Stack Overflow developer survey, and proves properties of that model. The
pipeline has four parts.

- **Category clean-up** (`Categories`): `normalize_other_categories` folds
  "Other" variants such as `Other (please specify):` into one name.
  `reduce_cardinality` keeps the `max_categories` most frequent values that
  occur at least `min_frequency` times and maps every other cell to that name.
- **Feature encoding** (`Encoding`, `Preprocessing`): `prepare_features` copies
  the frame and rewrites typographic apostrophes (U+2019) to `'`. It then
  normalises the Other variants, renames the legacy `YearsCodePro` column, and
  fills missing values (0 for the amounts, `Unknown` for the categories). Next
  it selects the eight feature columns. Last it one-hot encodes them with
  `get_dummies`, and `drop_first` is forced off for a single row.
- **Request handling** (`Schema`, `Infer`): `SalaryInput` validates a request.
  `predict_salary` checks the six categorical values against the frozen
  vocabulary, in order. An accepted request is encoded, reindexed onto the
  frozen training columns, passed to the model and clamped at 0.
  `get_local_currency` looks up the per-country currency table.
- **Training artefacts** (`Train`): the part of `train.main` that freezes the
  artefacts.
  - The vocabulary comes from an apostrophe-fixed and reduced copy of the
    survey.
  - The feature columns come from the reduced survey.
  - Both are filtered by `drop_other_from`.
  - The currency table has one entry per vocabulary country that has usable
    rows (complete, with a rate strictly between 0.001 and 100000): the most
    common currency code, the name from the first row with that code, and the
    median rate.

`Preprocessing.DataFrame` is a class whose methods update the frame in place.
`prepare_features` works on a fresh copy of it (`Preprocessing.PrepareFeatures`).
The training loops are methods with loop invariants: `Train.DropOtherBoth`
(the `drop_other_from` loop, called by `Train.TrainArtifacts`) and
`Train.BuildCurrencyRates`. Each method is proved equal to a specification
function, and the properties are proved about that function.

Three things are parameters rather than loaded globals: the configuration
(`other_category`, `max_categories`, `min_frequency`, `drop_other_from`,
`drop_first`, and `rank`, the order `value_counts` gives equally frequent
values), the vocabulary and feature-column list, and the currency table.
The model is a parameter `Table -> real`, and the median is a parameter
`seq<real> -> real`.

Where the design description and the code disagree, the model follows the code.
- Equal counts in `value_counts` keep whatever order pandas gives. They are not
  sorted by label, so any ranking consistent with the counts is allowed
  (`Categories.IsRanking`).
- The vocabulary and the feature columns come from two different frames (see
  Findings).

## Model

| member | source | states |
|---|---|---|
| Categories.NormalizeOtherCategories | developer_salary_prediction/src/preprocessing.py:18-30 | length is kept; a cell is replaced by the other-category name exactly when it starts with the word "Other" (followed by a non-word character or the end of the text) and has no newline after it except a final one; every other cell, and every missing cell, is unchanged |
| Categories.NormalizeOtherExamples | developer_salary_prediction/tests/test_preprocessing.py:16-40 | "Other (please specify):", "Other:" and "Other" become the other name; "Others", "Otherwise", an ordinary category and a missing cell are unchanged |
| Categories.OtherVariantNewlines | developer_salary_prediction/src/preprocessing.py:26-30 | "Other:" or "Other" followed by one final newline is a variant; "Other" followed by a newline and more text, or by two newlines, is not |
| Categories.NormalizeChangesOnlyVariants | developer_salary_prediction/src/preprocessing.py:26-30 | a cell changes if and only if it is a variant different from the other name |
| Categories.NormalizeIdempotent | developer_salary_prediction/src/preprocessing.py:26-30 | normalising twice equals normalising once |
| Categories.FixApostrophes | developer_salary_prediction/src/preprocessing.py:101-105 | missing cells stay missing, no U+2019 remains, and a value without U+2019 is unchanged |
| Categories.Present | developer_salary_prediction/src/train.py:122-127 | the non-missing values are exactly the values present in the column |
| Categories.SortByCount | developer_salary_prediction/src/preprocessing.py:61 | the result is a duplicate-free ordering of the given values by non-increasing count |
| Categories.ValueCounts | developer_salary_prediction/src/preprocessing.py:61 | yields a ranking: every present value once, ordered by non-increasing count |
| Categories.Head | developer_salary_prediction/src/preprocessing.py:66 | at most n values, exactly those at the first n ranks |
| Categories.Frequent | developer_salary_prediction/src/preprocessing.py:67 | exactly the given values whose count reaches the minimum frequency |
| Categories.KeptCategories | developer_salary_prediction/src/preprocessing.py:66-67 | at most max_categories values, exactly those in the top max_categories with count at least min_frequency |
| Categories.ReduceCardinality | developer_salary_prediction/src/preprocessing.py:33-70 | length is kept and no cell is missing; a cell keeps its normalised value exactly when that value is in the top max_categories and frequent enough, and otherwise becomes the other name |
| Categories.ReduceKeepsAtMostMaxCategories | developer_salary_prediction/src/preprocessing.py:66-67 | at most max_categories distinct values other than the other name survive |
| Categories.RankingLength | developer_salary_prediction/src/preprocessing.py:61 | a ranking has one entry per distinct value |
| Categories.ReduceKeepsFrequentWhenFew | developer_salary_prediction/src/preprocessing.py:66-70 | with no more distinct values than max_categories, every frequent value is kept unchanged |
| Categories.ReduceKeepsOrFolds | developer_salary_prediction/src/preprocessing.py:58-70 | every output cell is the other name, or the normalised input value with count at least min_frequency |
| Categories.ReduceOnlyNormalizesWhenAllFrequent | developer_salary_prediction/src/preprocessing.py:58-70 | a complete column with few, all-frequent values is only normalised |
| Categories.NormalizeWithoutVariants | developer_salary_prediction/src/preprocessing.py:26-30 | a column without variants (other than the name itself) is unchanged |
| Categories.RareCell | developer_salary_prediction/tests/test_preprocessing.py:46-54 | with Common k ≥ 10 times and three singletons, max 5 and min 10, Common cells stay and the singletons become Other |
| Categories.GroupsRareCategories | developer_salary_prediction/tests/test_preprocessing.py:46-54 | that reduction yields k Common followed by three Other, whatever the tie order |
| Categories.GroupsRareCategoriesInstance | developer_salary_prediction/tests/test_preprocessing.py:46-54 | for k = 100: Common present, Rare1 gone, exactly 3 Other |
| Categories.KeepsFrequentCategories | developer_salary_prediction/tests/test_preprocessing.py:56-61 | three values each at least 50 times, max 5 and min 50, keep exactly {A, B, C} |
| Categories.MostFrequentHeadsRanking | developer_salary_prediction/src/preprocessing.py:61 | a strictly most frequent value leads every ranking |
| Categories.FirstPassFolds | developer_salary_prediction/src/preprocessing.py:66-70 | with max 1, [A,A,B,C,D] keeps the two A cells and folds the rest |
| Categories.SecondPassSwallows | developer_salary_prediction/src/preprocessing.py:66-70 | reducing that output again turns every cell into Other |
| Categories.ReduceNotIdempotent | developer_salary_prediction/src/preprocessing.py:33-70 | reduction is not idempotent: a second pass can change an already reduced column |
| Encoding.FieldsComplete | developer_salary_prediction/src/preprocessing.py:134-143 | every categorical field is in `Fields` |
| Encoding.DecodeColumnName | developer_salary_prediction/src/preprocessing.py:154 | an indicator column name `<Field>_<value>` decodes back to its field and value |
| Encoding.ColumnNameInjective | developer_salary_prediction/src/preprocessing.py:154 | two indicators have the same column name if and only if they are equal |
| Encoding.ExperienceNamesAreNotIndicators | developer_salary_prediction/src/preprocessing.py:134-143 | YearsCode and WorkExp are not indicator names |
| Encoding.EncodeDecoded | developer_salary_prediction/src/preprocessing.py:154 | a name that decodes is the column name of what it decodes to |
| Encoding.Levels | developer_salary_prediction/src/preprocessing.py:154 | a field's levels are sorted, duplicate-free and drawn from the column |
| Encoding.LevelsContents | developer_salary_prediction/src/preprocessing.py:150-154 | without drop_first the levels are exactly the values present; with it, exactly those above the least value |
| Encoding.DropLeast | developer_salary_prediction/src/preprocessing.py:154 | dropping the first of a sorted list removes exactly its least element |
| Encoding.IndicatorsContents | developer_salary_prediction/src/preprocessing.py:154 | an indicator is generated if and only if its field is encoded and its value is a level |
| Encoding.IndicatorsOrdered | developer_salary_prediction/src/preprocessing.py:154 | indicators follow field order, then value order |
| Encoding.NamesDecode | developer_salary_prediction/src/preprocessing.py:154 | each name decodes to its indicator, and the names are exactly the decodings of the indicators |
| Encoding.GetDummies | developer_salary_prediction/src/preprocessing.py:154 | one row per input row; YearsCode and WorkExp first; then exactly one column per level, in field and value order, with no duplicates; each cell is the amount or the 1/0 indicator of its column |
| Encoding.OneHotPerField | developer_salary_prediction/src/preprocessing.py:154 | without drop_first each row has its own value's column, and within a field a cell is 1 exactly at that column |
| Encoding.SingleRowDummies | developer_salary_prediction/src/preprocessing.py:150-154 | one row gives 8 columns: the two amounts and one indicator per field for the row's value, each equal to 1 |
| Preprocessing.ApplyPassColumns | developer_salary_prediction/src/preprocessing.py:101-110 | a rewrite applies to exactly the listed columns that exist and leaves every other column as it was |
| Preprocessing.FillZero | developer_salary_prediction/src/preprocessing.py:120-121 | missing amounts become 0 and given ones are kept |
| Preprocessing.FillUnknown | developer_salary_prediction/src/preprocessing.py:122-127 | missing categories become Unknown and given ones are kept |
| Preprocessing.Featurize | developer_salary_prediction/src/preprocessing.py:97-144 | a successful rewrite, fill and selection has one value per input row in every feature |
| Preprocessing.RewrittenValid | developer_salary_prediction/src/preprocessing.py:97-117 | the rewrites and the rename keep the frame well formed and its row count |
| Preprocessing.FillAllFills | developer_salary_prediction/src/preprocessing.py:120-127 | after the eight fills no feature column has a missing value; the row count and column names are kept |
| Preprocessing.FillAllResult | developer_salary_prediction/src/preprocessing.py:120-127 | each filled column is the fill of the original, every other column is unchanged, and a fill succeeds only when its column exists |
| Preprocessing.RewrittenColumns | developer_salary_prediction/src/preprocessing.py:101-117 | each categorical cell is apostrophe-fixed then normalised; YearsCode comes from YearsCodePro only when YearsCode is absent; WorkExp is untouched |
| Preprocessing.FilledFeatureColumns | developer_salary_prediction/src/preprocessing.py:120-127 | a successful encoding fills both amounts with 0 and all six categories with Unknown |
| Preprocessing.FeaturizeExperienceCells | developer_salary_prediction/src/preprocessing.py:112-121 | the encoded amounts are the given amounts, or 0 where missing, with YearsCodePro standing in for YearsCode |
| Preprocessing.FeaturizeCategoryCells | developer_salary_prediction/src/preprocessing.py:101-127 | each encoded category is the input cell, apostrophe-fixed and normalised, or Unknown where missing |
| Preprocessing.FirstAbsent | developer_salary_prediction/src/preprocessing.py:120-127 | names the first required column that is absent, and nothing only when all are present |
| Preprocessing.FeaturizeFailsOnFirstAbsent | developer_salary_prediction/src/preprocessing.py:120-127 | encoding fails exactly when a required column is absent, with a KeyError for the first one in fill order |
| Preprocessing.PreparedFillsDefaults | developer_salary_prediction/src/preprocessing.py:120-127 | a missing amount encodes as 0, and a missing category sets its Unknown indicator to 1 |
| Preprocessing.PreparedSingleRow | developer_salary_prediction/src/preprocessing.py:150-154 | with one row drop_first is ignored; the table has 8 columns, one indicator per field for the row's value, all 1 |
| Preprocessing.DataFrame.Copy | developer_salary_prediction/src/preprocessing.py:97 | the copy holds the same frame as the original |
| Preprocessing.DataFrame.SetText | developer_salary_prediction/src/preprocessing.py:103-110 | assigns one text column and changes nothing else |
| Preprocessing.DataFrame.Rename | developer_salary_prediction/src/preprocessing.py:113-117 | the frame becomes `RenameColumn(source, target)` of the old frame: the column `source` moves to `target` in whichever map holds it, and an absent `source` leaves the frame unchanged |
| Preprocessing.DataFrame.FillMissing | developer_salary_prediction/src/preprocessing.py:120-127 | fills one column, reporting whether the column exists, and leaves the frame unchanged when it does not |
| Preprocessing.RunPass | developer_salary_prediction/src/preprocessing.py:101-110 | the per-column loop rewrites exactly the categorical columns present |
| Preprocessing.RewriteColumns | developer_salary_prediction/src/preprocessing.py:101-117 | the apostrophe pass, the Other-variant pass and the legacy rename leave the frame `Rewritten` describes |
| Preprocessing.FillColumns | developer_salary_prediction/src/preprocessing.py:120-127 | the eight fills in order, stopping with the error of the first absent column |
| Preprocessing.PrepareFeatures | developer_salary_prediction/src/preprocessing.py:73-156 | returns the encoded table of the caller's frame and does not modify it |
| Schema.FieldErrors | developer_salary_prediction/src/schema.py:9-24 | each field reports at most one violation, about itself |
| Schema.ErrorsExact | developer_salary_prediction/src/schema.py:9-24 | the violations are exactly the omitted fields and the negative amounts, in field order |
| Schema.NoErrorsAcceptable | developer_salary_prediction/src/schema.py:9-24 | no violation if and only if every field is given and both amounts are at least 0 |
| Schema.MakeSalaryInput | developer_salary_prediction/src/schema.py:6-24 | succeeds exactly on acceptable requests and keeps each value as given; otherwise fails with the non-empty violation list |
| Schema.MakeRawRoundTrip | developer_salary_prediction/tests/test_schema.py:9-19 | constructing from a valid input's own fields returns that input |
| Schema.RejectsNegative | developer_salary_prediction/src/schema.py:10-19 | a negative years_code or work_exp is reported, whatever the other fields hold |
| Schema.RejectsMissingField | developer_salary_prediction/tests/test_schema.py:36-61 | omitting any one field fails with that field reported missing |
| Schema.AcceptsZero | developer_salary_prediction/tests/test_schema.py:64-75 | 0 is accepted for both amounts and kept |
| Infer.Gate | developer_salary_prediction/src/infer.py:74-114 | rejects if and only if some categorical value is outside its vocabulary; the error names the first failing field in check order, its value and its vocabulary size |
| Infer.RequestFrameShape | developer_salary_prediction/src/infer.py:117-128 | the request frame has one row holding the request's eight values |
| Infer.RequestTable | developer_salary_prediction/src/infer.py:131 | a request encodes to YearsCode, WorkExp and one indicator per field for its rewritten value, each 1 |
| Infer.EncodedRequest | developer_salary_prediction/src/infer.py:131 | each encoded cell is the reference entry of its column, and every column not produced has reference entry 0 |
| Infer.IndexOf | developer_salary_prediction/src/infer.py:135 | finds the position of a column, or reports it absent |
| Infer.AlignRow | developer_salary_prediction/src/infer.py:135 | the aligned row follows the target columns; shared columns keep their value, missing ones are 0 |
| Infer.Reindex | developer_salary_prediction/src/infer.py:135 | the table gets exactly the frozen columns, in order; shared columns keep their values, absent ones are 0, extra ones are dropped |
| Infer.ReindexOwnColumns | developer_salary_prediction/src/infer.py:135 | reindexing onto a table's own columns changes nothing |
| Infer.Aligned | developer_salary_prediction/src/infer.py:131-135 | the aligned request has exactly the frozen columns and one row |
| Infer.AlignedIsReference | developer_salary_prediction/src/infer.py:131-135 | the aligned row equals a reference row built directly from the request and the frozen columns |
| Infer.Clamp | developer_salary_prediction/src/infer.py:141 | the result is at least 0 and at least the prediction, and is one of the two |
| Infer.PredictSalary | developer_salary_prediction/src/infer.py:61-141 | fails exactly when the gate rejects, with the gate's error; otherwise returns the clamped model output on the aligned row, which is never negative |
| Infer.RejectionIgnoresModel | developer_salary_prediction/src/infer.py:74-138 | a rejected request gives the same outcome whatever the columns, configuration and model |
| Infer.RewriteFixedPoint | developer_salary_prediction/src/preprocessing.py:101-110 | a value without U+2019 and without an Other variant passes through the rewrites unchanged |
| Infer.AcceptedOneHot | developer_salary_prediction/src/infer.py:131-135 | for an accepted request over a fixed-point vocabulary, a field's columns read 1 exactly at the request's own value |
| Infer.UnfrozenValueReadsZero | developer_salary_prediction/src/infer.py:135 | if the request's rewritten value has no frozen column, all that field's columns read 0 |
| Infer.GetLocalCurrency | developer_salary_prediction/src/infer.py:44-58 | nothing if and only if the country is not in the table; otherwise the stored code, name and rate, and the salary times the rate |
| Train.FixAllColumns | developer_salary_prediction/src/train.py:79-84 | every categorical column of the copy is apostrophe-fixed |
| Train.ReduceAllColumns | developer_salary_prediction/src/train.py:87-101 | every categorical column is reduced independently |
| Train.Reduce | developer_salary_prediction/src/train.py:87-101 | a reduced column keeps its length and has no missing cell; the tie order among equally frequent values is the configuration's `rank`, which may be any `value_counts` order |
| Train.CleanRowsFacts | developer_salary_prediction/src/train.py:104-110 | the kept rows are an order-preserving subsequence, exactly the rows with no other name in a listed field |
| Train.DropRowsClean | developer_salary_prediction/src/train.py:108-110 | one more filter pass equals the clean filter for the extended field list |
| Train.DropOtherIsClean | developer_salary_prediction/src/train.py:104-110 | the loop of filters equals the single clean filter |
| Train.DropOtherFacts | developer_salary_prediction/src/train.py:104-110 | no surviving row has the other name in a listed field; survivors are unchanged and keep their order |
| Train.Frozen | developer_salary_prediction/src/train.py:122-136 | a frozen list is sorted ascending, duplicate-free, and holds exactly the values present |
| Train.FreezeFacts | developer_salary_prediction/src/train.py:122-136 | each field's vocabulary is sorted, duplicate-free and exactly the non-missing values of that column |
| Train.ToFrameShape | developer_salary_prediction/src/train.py:117 | the survey rows form a well-formed frame whose columns are the rows' fields |
| Train.TrainingEncodes | developer_salary_prediction/src/train.py:117 | encoding the training rows always succeeds |
| Train.FirstSpace | developer_salary_prediction/src/train.py:152 | the position of the first whitespace character, or the length when there is none |
| Train.SpaceRunEnd | developer_salary_prediction/src/train.py:152-153 | the end of the whitespace run starting at a position |
| Train.SplitCurrencyParts | developer_salary_prediction/src/train.py:152-153 | the code has no whitespace; without a name it is the whole text, otherwise the text is code, a whitespace run, then the name |
| Train.SplitCurrencyJoin | developer_salary_prediction/src/train.py:152-153 | splitting code + separator + name gives back that code and name |
| Train.SplitCurrencyCode | developer_salary_prediction/src/train.py:152-153 | a text without whitespace is all code, with no name |
| Train.Best | developer_salary_prediction/src/train.py:167-170 | picks the earliest candidate with the highest count |
| Train.ModeFacts | developer_salary_prediction/src/train.py:167-170 | the mode occurs in the codes, no code is more frequent, and it is the least code among equally frequent ones |
| Train.CountryRows | developer_salary_prediction/src/train.py:149-163 | exactly the complete rows of the country whose rate lies in the window |
| Train.WithCode | developer_salary_prediction/src/train.py:172-175 | exactly the rows with the given code, non-empty when the code occurs |
| Train.CountryCurrency | developer_salary_prediction/src/train.py:161-181 | a country gets no entry exactly when it has no usable rows |
| Train.WithCodeFirst | developer_salary_prediction/src/train.py:172-173 | the first row with a code is the earliest such row |
| Train.CountryCurrencyFacts | developer_salary_prediction/src/train.py:161-181 | an entry holds the most common code (the least on ties), the name of the first row with it, and the median of exactly its rows' rates |
| Train.CurrencyRatesKeys | developer_salary_prediction/src/train.py:161-181 | the table's keys are exactly the visited countries with usable rows, each with its country entry |
| Train.CurrencyRatesStep | developer_salary_prediction/src/train.py:161-181 | one loop iteration adds the country's entry or skips it |
| Train.BuildCurrencyRates | developer_salary_prediction/src/train.py:161-181 | the loop builds exactly the specified currency table |
| Train.DropOtherBoth | developer_salary_prediction/src/train.py:106-110 | the loop filters `df` and `df_copy` by the same fields in the same pass, each as `DropOther` describes |
| Train.TrainArtifacts | developer_salary_prediction/src/train.py:76-181 | the statements of `main` produce the artefacts as written: vocabulary from the fixed copy, columns and currency rows from the reduced survey |
| Train.CurrencyKeysInVocabulary | developer_salary_prediction/src/train.py:161-165 | a country has a currency entry exactly when it is in the Country vocabulary and has usable rows |
| Train.NoCurrencyOutsideVocabulary | developer_salary_prediction/src/train.py:161-165 | a country outside the vocabulary never gets a local currency |
| Train.CopyCell | developer_salary_prediction/src/train.py:79-110 | every cell of the copy is present; it is the other name or a value kept by reduction, without U+2019 and not an Other variant |
| Train.VocabularyValues | developer_salary_prediction/src/train.py:79-92 | every vocabulary value is the other name or a kept value, and is left unchanged by the rewrites of `prepare_features` |
| Train.OtherNotFrozen | developer_salary_prediction/src/train.py:108-136 | the other name is absent from the vocabulary of every field in drop_other_from |
| Train.FeatureColumnsLayout | developer_salary_prediction/src/train.py:434-437 | the persisted columns start with YearsCode and WorkExp, have no duplicates, and have an indicator exactly for each training level |
| Train.CopyLevelsFrozen | developer_salary_prediction/src/train.py:117-136 | the encoding levels of the copy are its frozen vocabulary |
| Train.CorrectedCoverage | developer_salary_prediction/src/train.py:79-136 | in the corrected pipeline a field's columns are exactly its vocabulary, minus the least value under drop_first |
| Train.FixAllIdentity | developer_salary_prediction/src/train.py:79-84 | without U+2019 in the survey, fixing apostrophes changes nothing |
| Train.AsWrittenAgrees | developer_salary_prediction/src/train.py:76-136 | without U+2019 in the survey, the code as written and the corrected pipeline produce the same artefacts |
| Train.AsWrittenCoverage | developer_salary_prediction/src/train.py:76-136 | without U+2019 in the survey, the columns as written are exactly the vocabulary, minus the least value under drop_first |
| Train.CopyKeepsStraight | developer_salary_prediction/src/train.py:79-92 | in the divergent survey the apostrophe-fixed copy keeps the straight value |
| Train.MainFoldsBoth | developer_salary_prediction/src/train.py:96-101 | in the divergent survey the unfixed reduction folds both spellings into Other |
| Train.VocabularyOutrunsColumns | developer_salary_prediction/src/train.py:79-117 | in the divergent survey a vocabulary country has no feature column |
| Train.FoldedRowsLackColumn | developer_salary_prediction/src/train.py:117 | rows whose countries are all Other give no column for any other country |
| Train.DivergentSurveyOutruns | developer_salary_prediction/src/train.py:79-117 | the two-row survey exhibits the divergence |
| Train.DivergentRequestLosesCountry | developer_salary_prediction/src/infer.py:74-135 | a request for that country passes the gate yet every Country column reads 0 |
| Train.CorrectedKeepsColumn | developer_salary_prediction/src/train.py:79-117 | the corrected pipeline keeps the column for that country |
| Train.PresentValueHasColumn | developer_salary_prediction/src/train.py:79-136 | in the corrected pipeline without drop_first, every value in the copy is in the vocabulary and has a column |

## Left out

- Preprocessing.Frame.Typed: the dtype guess of pandas is not modelled. The amounts are numeric columns and the categories are text columns by hypothesis.
- Encoding.GetDummies: boolean dummies are modelled as 1.0 and 0.0.
- Categories.IsOtherVariant: `\w` is modelled by ASCII letters, digits and `_`; Python's Unicode word characters are not modelled.
- NormalizeOtherCategories: when a matched value ends in a newline, `re.sub` keeps that newline after the replacement, so the source yields the other name followed by "\n"; the model yields the other name alone. The replacement string is used literally: backslash escapes in `other_category` are not interpreted as they are by `re.sub`.
- Column order inside a dictionary-built frame is fixed by the model's frame layout, not by insertion order.
- Infer.GetLocalCurrency: does not round salary_local to 2 decimals, because rounding on floats is out of scope; the stored values are copied exactly.
- Train.CountryCurrency: the median and its rounding to 2 decimals are a parameter `median`. Floating-point division in the rate is exact real division.
- The model's `predict` is a parameter. XGBoost fitting, cross-validation, early stopping and scoring (train.py:357-428) are not modelled.
- Reading the CSV, YAML and pickle files and the module-level globals are not modelled. The vocabulary, columns, currency table and configuration are parameters.
- Pydantic's type coercion is not modelled: amounts arrive as reals and categories as strings. NaN is not modelled.
- The salary floor and per-country percentile trim (train.py:56-73) are not modelled. The survey passed to `Train` is the filtered one.
- Categories.ReduceCardinality: takes the `value_counts` tie order as a parameter ranking. Training takes it from the configuration field `rank`, a `Categories.Ranker` that may order ties in any way; the pandas sort that picks one order is not modelled.
- Train.TrainConfig: `drop_other_from` names only the six categorical fields.
- Train.CountryCurrency: the "mode is empty" skip (train.py:167-169) cannot happen for a non-empty country sample, so it has no branch.
- The Streamlit app and the diagnostic and demo scripts are not part of this model.

## Findings

| source | as written | input that shows it | evidently intended | confidence | as-written member | corrected member |
|---|---|---|---|---|---|---|
| developer_salary_prediction/src/train.py:79-117 | The vocabulary is frozen from a copy whose apostrophes were fixed before reduction. The feature columns come from `df`, which is reduced without that fix. | Two rows with Country "A’B" (U+2019) and "A'B", min_frequency 2, max_categories ≥ 1, other name "Other", no drop_other_from, drop_first off. The copy keeps "A'B" twice, so it is in the vocabulary. `df` sees each spelling once and folds both into Other, so "Country_A'B" is not a column. A request for "A'B" passes the gate but all its Country columns read 0. | Fix apostrophes in `df` before its reduction too, so every vocabulary value has a feature column | not executed | Train.VocabularyOutrunsColumns | Train.CorrectedKeepsColumn |

`Train.TrainArtifacts` follows the code as written. `Train.TrainCorrected` is the corrected pipeline. Its coverage property (`Train.CorrectedCoverage`, `Train.PresentValueHasColumn`) is proved for any survey. The code as written agrees with it on every survey without U+2019 (`Train.AsWrittenAgrees`).
