# whiledrilling_trans — a verified model of the core

whiledrilling_trans catalogues the image files and PDF logs produced while a
well is being drilled. It reads the well name, the depth interval, the sample
type and the image category from each file name, and it groups the images
into depth segments. It can also read a PDF mud log's depth axis from the
text layer of each page.

This project models the deterministic core of that application in Dafny and
proves what it promises:

- **`LogPdf*`** (`app/routes_logpdf.py`): the depth-axis digitiser.
  - It rebuilds tokens from positioned characters.
  - It finds DEPTH / MD / 深度 / 井深 title bands.
  - It unfolds abbreviated tick labels into absolute depths.
  - It makes the least-squares fit `y = a·depth + b` and computes R².
  - It gates and scores candidate columns.
  - Calibration upserts into a page-keyed list.
- **`Classifier`** (`app/classifier.py`): rule-based image classification.
- **`Normalizer`** and **`LegacyNormalize`** (`app/normalizer.py`,
  `app/normalize.py`): text normalisation and canonicalisation.
- **`Parser`** (`app/parser.py`): depth and well-name extraction from paths.
- **`Security`** (`app/security.py`): file-name sanitising, validators and the
  sliding-window rate limiter.
- **`Middleware`** (`app/middleware.py`): the middleware decisions and state.
- **`Database`** (`app/database.py`): the TTL query cache and the pagination
  arithmetic.
- **`Grouping`** (`app/grouping.py`): depth-segment grouping.
- **`WellParser`** and **`WellLearner`** (`app/enhanced_well_parser.py`,
  `app/well_name_learner.py`): well-name parsing and learning.
- **`RuleLearner`**, **`CsvAnalyzer`** and **`MlClassifier`**
  (`app/rule_learner.py`, `app/csv_analyzer.py`, `app/ml_classifier.py`):
  anomaly scoring and rule tables; the ML model is a parameter.
- **`MainApp`**, **`Models`**, **`Extract`** and **`EncodingUtils`**
  (`app/main.py`, `app/models.py`, `app/extract.py`,
  `app/encoding_utils.py`): web-app helpers, archive extraction and
  file-name encoding repair.

Shared helpers live in three modules:

- `Text`: Option, string operations, Python-style character classes, a stable
  sort, round-half-to-even and decimal parsing.
- `Regex`: a backtracking matcher over a regular-expression syntax tree, with
  Python's leftmost, greedy/lazy and ordered-alternation semantics. Every
  regular expression of the source is written out as such a tree.
- `Counters`: Python `Counter`/`dict` behaviour in insertion order.

The form follows the code:

- Expressions and comprehensions are functions.
- Loops that update variables are methods, proved equal to the specification
  functions.
- Objects whose fields the code updates are classes. These are `RateLimiter`,
  `QueryCache`, the middleware state, `WellNameLearner`, `ExtractSummary` and
  the stored depth map.
- Coordinates, depths, scores and ratios are `real`, so the arithmetic is
  exact.

## Model

| member | source | states |
|---|---|---|
| LogPdfFit.PdfYInverse | app/routes_logpdf.py:40-42 | converting a top coordinate to PDF y twice gives it back; a smaller top gives a larger y |
| LogPdfFit.FitLinear | app/routes_logpdf.py:44-56 | the fit raises (`Degenerate`) exactly when `n·Σd² − (Σd)² = 0`; the partner lemmas below show the result is the least-squares line |
| LogPdfFit.EmptyDegenerate | app/routes_logpdf.py:46-53 | no pairs at all make a zero determinant, so the fit raises |
| LogPdfFit.FitSolvesNormal | app/routes_logpdf.py:44-56 | the fitted (a, b) solves the least-squares normal equations of the pairs |
| LogPdfFit.NormalUnique | app/routes_logpdf.py:51-55 | with a non-zero determinant the normal equations have exactly one solution, so the fit is the least-squares line |
| LogPdfFit.FitRecoversAxis | app/routes_logpdf.py:44-56 | points lying exactly on `y = a·d + b` with two distinct depths fit to exactly (a, b) |
| LogPdfFit.DenominatorNonNeg | app/routes_logpdf.py:51 | the determinant is never negative |
| LogPdfFit.DistinctDepthsPositive | app/routes_logpdf.py:51-53 | two distinct depths make the determinant positive, so the fit succeeds |
| LogPdfFit.DegenerateIffOneDepth | app/routes_logpdf.py:51-53 | the fit raises exactly when all depths are equal or there are no pairs |
| LogPdfFit.R2 | app/routes_logpdf.py:58-65 | R² is 0.0 for no points and never exceeds 1; when the y values do not vary, the total sum of squares is taken as 1e-9 |
| LogPdfFit.R2Perfect | app/routes_logpdf.py:58-65 | R² is exactly 1 when every point lies on the axis |
| LogPdfTokens.CharsToTokens | app/routes_logpdf.py:68-140 | the method's tokens equal the specification's grouping, merging and filtering of the characters |
| LogPdfTokens.GroupChars | app/routes_logpdf.py:86-99 | the grouping loop equals first-fit placement: a character joins the first line within `line_tol` of its top, else opens a line |
| LogPdfTokens.GroupLinesCorrect | app/routes_logpdf.py:86-99 | grouping keeps every accepted character exactly once (as a multiset) and each line holds only characters within tolerance of its top |
| LogPdfTokens.LineItems | app/routes_logpdf.py:102-126 | the merge loop over one sorted line pushes exactly the merged runs |
| LogPdfTokens.MergeRunsText | app/routes_logpdf.py:102-126 | merging neither loses nor reorders text; the first run starts at the first x0 and the last run ends at the last x1 and top |
| LogPdfTokens.MergeRunsSeparated | app/routes_logpdf.py:111 | two consecutive runs that were not merged are more than `gap_tol` apart |
| LogPdfTokens.MergeRunsDigits | app/routes_logpdf.py:102-126 | merging digit characters gives digit strings |
| LogPdfTokens.FilterTokens | app/routes_logpdf.py:129-140 | the filter loop keeps exactly the items that pass the mode's test, in order |
| LogPdfTokens.KeepTokensExact | app/routes_logpdf.py:129-140 | an item is kept if and only if its stripped text passes the test |
| LogPdfTokens.NoCharsNoTokens | app/routes_logpdf.py:83-140 | no characters give no tokens |
| LogPdfTokens.RawTokensY | app/routes_logpdf.py:116-125 | every token's y is the page height minus its top |
| LogPdfTokens.DigitLines | app/routes_logpdf.py:88 | in digit mode every line holds only digit characters |
| LogPdfTokens.KeptDigits | app/routes_logpdf.py:133 | a digit-mode token that passes the filter is a depth number |
| LogPdfTokens.DigitTokensAreNumbers | app/routes_logpdf.py:128-134 | digit-mode output tokens are exactly two to four ASCII digits |
| LogPdfTokens.TitleTokensHaveWord | app/routes_logpdf.py:136-139 | title-mode tokens contain DEPTH, 井深, 深度 or MD once upper-cased with '：' replaced by ':' |
| LogPdfTokens.FindBandsByChars | app/routes_logpdf.py:142-158 | the band loop equals the specification's bands of the title tokens |
| LogPdfTokens.BandScore | app/routes_logpdf.py:156 | the score is 1.0 exactly when the folded text holds 井深, 深度 or DEPTH, and 0.9 exactly when it does not (an MD-only title) |
| LogPdfTokens.BandShape | app/routes_logpdf.py:148-157 | every band is the band of a title token of the page: `[x0 − 12, x1 + 80]` at the token's y, scoring 1.0 exactly when the token's folded text holds 井深, 深度 or DEPTH and 0.9 exactly when it does not |
| LogPdfTokens.OneBandPerTitleToken | app/routes_logpdf.py:146-158 | the band check drops no title token: there is exactly one band per token |
| LogPdfUnfold.UnfoldPairsFromTokens | app/routes_logpdf.py:160-193 | sorting from the top down, scanning and de-duplicating give the specification's pairs |
| LogPdfUnfold.ScanLabels | app/routes_logpdf.py:166-186 | the scan loop equals the specification's scan over the sorted labels |
| LogPdfUnfold.DedupByY | app/routes_logpdf.py:188-193 | the de-duplication loop keeps a pair exactly when it is the first or lies more than 2 from the last kept y |
| LogPdfUnfold.StepReading | app/routes_logpdf.py:173-186 | an anchor reads as its own value and sets the hundred to `(v // 100) * 100`; a short label keeps its last two digits and is read in the current hundred, which advances by exactly 100 exactly when that reading lies more than 30 below the previous depth, so it never lands there; a short label before any anchor adds nothing |
| LogPdfUnfold.NoAnchorNoPairs | app/routes_logpdf.py:179-180 | short labels before any anchor produce no pair |
| LogPdfUnfold.ScanLength | app/routes_logpdf.py:170-186 | each label adds at most one pair |
| LogPdfUnfold.ScanInHundred | app/routes_logpdf.py:170-186 | the scan keeps its current hundred a whole multiple of 100 |
| LogPdfUnfold.ScanTopDown | app/routes_logpdf.py:166-186 | labels read from the top down give pairs from the top down, none below the last label |
| LogPdfUnfold.DedupFalling | app/routes_logpdf.py:188-193 | after de-duplication each kept pair lies more than 2 points below the one before, none below the last input pair |
| LogPdfUnfold.DedupSpread | app/routes_logpdf.py:188-193 | the first pair is always kept, every kept pair comes from the input, and kept pairs are more than 2 apart in y |
| LogPdfUnfold.UnfoldPairsFalling | app/routes_logpdf.py:166-193 | output pairs run from the top of the page down, each more than 2 below the previous, and are no more than the labels |
| LogPdfUnfold.ExampleWithinHundred | app/routes_logpdf.py:166-193 | 2800, 20, 40, 2900 read from the top down give 2800, 2820, 2840, 2900 |
| LogPdfUnfold.ExampleRollOver | app/routes_logpdf.py:181-184 | 2880, 90, 10 give 2880, 2890, 2910: the 10 rolls over to the next hundred |
| LogPdfUnfold.ExampleLeadingShort | app/routes_logpdf.py:179-180 | a short label before the first anchor is dropped |
| LogPdfUnfold.ExampleSameRow | app/routes_logpdf.py:190-192 | of two labels on almost the same row only the first is kept |
| LogPdfMap.BuildBuckets | app/routes_logpdf.py:223-226 | the bucketing loop equals the specification's buckets keyed by `round(x0/8)` with half-to-even rounding |
| LogPdfMap.BucketsCorrect | app/routes_logpdf.py:223-226 | every token is filed exactly once, under its own key; buckets are non-empty and keys are distinct |
| LogPdfMap.BuildCandidates | app/routes_logpdf.py:228-240 | the candidate loops equal the specification's anchored candidates, or the clusters when there are none |
| LogPdfMap.AnchoredExact | app/routes_logpdf.py:228-235 | a candidate is anchored exactly when some band contains some bucket's mean x0, and it carries that band and bucket |
| LogPdfMap.NoBandsClusters | app/routes_logpdf.py:236-240 | without anchored candidates every non-empty bucket is tried as a cluster |
| LogPdfMap.AnchoredForExact | app/routes_logpdf.py:228-235 | the anchored candidates of a band are exactly the buckets inside it, each carrying the band |
| LogPdfMap.ClustersExact | app/routes_logpdf.py:236-240 | the cluster candidates are exactly the non-empty buckets, without a band |
| LogPdfMap.MinDepth | app/routes_logpdf.py:252 | the result is one of the depths and no depth is smaller |
| LogPdfMap.MaxDepth | app/routes_logpdf.py:252 | the result is one of the depths and no depth is larger |
| LogPdfMap.EvaluateGate | app/routes_logpdf.py:243-271 | a kept candidate has at least four pairs, a non-degenerate fit, a < 0, span ≥ 60 and R² ≥ 0.97, and its score lies between 1.03 and 1.67 |
| LogPdfMap.SelectBest | app/routes_logpdf.py:243-271 | the scoring loop's result is the running best of the evaluations |
| LogPdfMap.RunningCorrect | app/routes_logpdf.py:266-271 | the best is one of the evaluations; none scores higher and every earlier one scores strictly lower, so the earliest maximum wins; it is absent only when every candidate was skipped |
| LogPdfMap.BestOfCorrect | app/routes_logpdf.py:243-271 | the page's best column is the evaluation of some candidate, at least as high as every surviving candidate and strictly above every earlier one |
| LogPdfMap.CandidatesTriable | app/routes_logpdf.py:241-248 | every candidate built from digit-token buckets is non-empty and numeric, so it can be tried |
| LogPdfMap.PageBestByText | app/routes_logpdf.py:214-271 | a page without characters is skipped; otherwise the result is the best-scoring candidate |
| LogPdfMap.DepthMapByText | app/routes_logpdf.py:214-285 | the page loop's entries equal the specification's depth map |
| LogPdfMap.EntriesCorrect | app/routes_logpdf.py:273-285 | entries are in increasing page order, each one is its page's best column, and every page with a best column has one |
| LogPdfMap.EntriesOrdered | app/routes_logpdf.py:273-285 | the entries come in increasing page order |
| LogPdfMap.EntriesCover | app/routes_logpdf.py:273-285 | every page with a best column has an entry |
| LogPdfMap.DepthMapCorrect | app/routes_logpdf.py:195-292 | a page has an entry exactly when it has a best column, and then the entry holds that column's axis and depth range |
| LogPdfMap.MissingPagesCorrect | app/routes_logpdf.py:311-313 | a page is reported missing exactly when it has no best column, which includes every page without characters |
| LogPdfMap.MissingPagesExact | app/routes_logpdf.py:311-313 | the missing pages are exactly the pages without an entry, in increasing order |
| LogPdfMap.Ingest | app/routes_logpdf.py:304-313 | the depth map is the specification's, and `missing_pages` lists, in ascending order, exactly the pages without a best column |
| LogPdfMap.DropWellSuffixShape | app/routes_logpdf.py:306-308 | the reported well is the name shortened by exactly one character when and only when it ends in 井, and the name itself otherwise |
| LogPdfMap.CalibrationAccepts | app/routes_logpdf.py:349-357 | calibration succeeds exactly for a payload with a PDF id, a page and pairs with two distinct depths, whatever the slope or fit quality; the entry is the least-squares fit of the pairs |
| LogPdfMap.CalibrationTwoPoint | app/routes_logpdf.py:355-357 | two pairs of different depth calibrate to the exact line through both |
| LogPdfMap.UpsertCorrect | app/routes_logpdf.py:365-373 | upserting adds the new entry, removes at most the first old entry for its page, and keeps every entry for any other page with its multiplicity |
| LogPdfMap.UpsertDistinct | app/routes_logpdf.py:365-373 | on a map with one entry per page the result still has one entry per page, and the calibrated page's entry is the new one |
| LogPdfMap.StoredCorrect | app/routes_logpdf.py:365-375 | the stored map is sorted by page and holds exactly the upserted entries |
| LogPdfMap.DepthMapFile.constructor | app/routes_logpdf.py:359-363 | the file starts with the entries read; a missing or unreadable file reads as empty |
| LogPdfMap.DepthMapFile.Store | app/routes_logpdf.py:315 | ingesting writes the map just built |
| LogPdfMap.DepthMapFile.Calibrate | app/routes_logpdf.py:349-376 | on success the entry is upserted and the file re-sorted by page; on failure the file is unchanged |
| Classifier.NeedlesInCount | app/classifier.py:9-14 | each needle appears in `_contains_any`'s result exactly as often as in the input when it is non-empty and its lower-case form occurs in the text, and not at all otherwise |
| Classifier.NeedlesInOrder | app/classifier.py:9-14 | the hits keep the input order: the hits of `a + b` are the hits of `a` followed by the hits of `b` |
| Classifier.NeedlesInSingle | app/classifier.py:11-13 | a single needle is returned exactly when it is non-empty and its lower-case form occurs in the text |
| Classifier.ContainsAnyHits | app/classifier.py:9-14 | the loop's hits equal the specification's in-order filter of the needles |
| Classifier.SplitDirFileCorrect | app/classifier.py:16-21 | directory part + base give the input with '\\' turned into '/'; the base has no '/' and a non-empty directory part ends in '/' |
| Classifier.OccurringExact | app/classifier.py:71-82 | each hit list keeps exactly the tokens that occur in its scope, and keeps them all exactly when every token occurs |
| Classifier.AllHitTest | app/classifier.py:71-73 | the require_all test fails exactly when some token is missing from the scope |
| Classifier.AnyHitTest | app/classifier.py:75-77 | the require_any test fails exactly when no token occurs |
| Classifier.AssessSurvives | app/classifier.py:44-77 | a rule survives exactly when no exclusion token (`exclude_any`, falling back to `reject_any`) occurs in its scope, every require_all token does and, when there are any, some require_any token does; the scope is the file name for mode "file" and the whole path otherwise |
| Classifier.AssessDetail | app/classifier.py:79-105 | a surviving rule's detail holds its index, name and priority and exactly the hits of each list; the score weighs them 2, 1, 1, 0.5 and 0.2 and adds +0.5 or −0.2 for the sample type |
| Classifier.BestCorrect | app/classifier.py:107-108 | the running best is present exactly when some rule survives, is one of the survivors, and outranks every other by (score, priority, −index), so the earlier rule wins full ties |
| Classifier.OutranksOrder | app/classifier.py:107-108 | the ranking of surviving rules is a strict total order on rules of different index |
| Classifier.DecideCorrect | app/classifier.py:110-113 | over any indexed assessments, no rule is chosen exactly when every survivor scores at most 0; otherwise the chosen one scores above 0 and outranks the others |
| Classifier.OutcomeCorrect | app/classifier.py:40-113 | `classify` returns `no_rule_matched` exactly when every surviving rule scores at most 0; otherwise the chosen rule survives with a positive score and outranks every other survivor |
| Classifier.RuleLoop | app/classifier.py:42-108 | the rule loop's result equals the specification's decision over the rules |
| Classifier.Classify | app/classifier.py:23-113 | `classify` equals the specification: the normalised path's scopes, then the rule decision, then the `KeyError` of reading the winner's name when its rule has no "name" entry |
| Classifier.ClassificationKeyError | app/classifier.py:110-113 | `classify` raises exactly when a winner is chosen whose rule has no "name" entry; otherwise it returns the rule decision, and the winner's name is `rule.get("name")` (None when given as None) |
| Normalizer.Half | app/normalizer.py:12-46 | a translated character is never a key of `FULL_TO_HALF`, and a character that is not a key is kept |
| Normalizer.CollapseClean | app/normalizer.py:65 | after collapsing there is no tab and no double space, and the characters other than spaces and tabs are kept in order |
| Normalizer.CollapseNoop | app/normalizer.py:65 | a string without tabs or double spaces is its own collapse |
| Normalizer.NormalizeWithTidy | app/normalizer.py:59-66 | the normal form is tidy, and each of its characters is a space or the translation of an input character, with '\\' turned into '/' |
| Normalizer.NormalizeWithFixed | app/normalizer.py:59-66 | a tidy string that the table leaves alone is its own normal form |
| Normalizer.NormalizeTextClean | app/normalizer.py:59-66 | the output has no backslash, no tab, no double space, no white space at either end and no key of `FULL_TO_HALF` |
| Normalizer.NormalizeTextIdempotent | app/normalizer.py:59-66 | normalising twice is the same as normalising once |
| Normalizer.DashSubAsWritten | app/normalizer.py:72 | on text without a backslash the dash substitution replaces each '—' and '~' with '-' |
| Normalizer.LaterSubsIdle | app/normalizer.py:73-76 | as written, the thousands, decimal and unit substitutions need a literal backslash, so they leave backslash-free text alone |
| Normalizer.DepthRewriteAsWritten | app/normalizer.py:72-76 | on normalised text the depth rewrite turns every '—' and '~' into '-' and does nothing else |
| Normalizer.NormalizeForDepthAsWritten | app/normalizer.py:68-77 | the depth form is the normalised text with dashes and tildes turned into '-', so no '—' or '~' remains |
| Normalizer.Runs | app/normalizer.py:86-87 | every piece kept from `re.split` is non-empty and made only of characters in the class |
| Normalizer.RunsFilter | app/normalizer.py:86-87 | the tokens of one part, run together, are exactly its characters in the class: the split loses only separators |
| Normalizer.TokenizePathTokens | app/normalizer.py:80-88 | every token is non-empty and free of '/'; as written, no token holds an ideograph |
| Normalizer.TokenizePathIntendedTokens | app/normalizer.py:80-88 | with the intended class every token is non-empty, free of '/' and made of letters, digits and ideographs, and a part made only of those is one token |
| Normalizer.TokenizeFinding | app/normalizer.py:86 | as written, 岩屑 gives no token and "a:b" gives one; with the intended class 岩屑 is a token and "a:b" gives two |
| Normalizer.CanonSampleTypeFullCases | app/normalizer.py:96-110 | the result is rejected exactly when a QC word occurs in the path or the raw label, and the rejected value is None; otherwise a mud word in either gives 泥浆; with no mud word, a core word in either gives 岩心; with no QC, mud or core word, a cuttings word in either gives 岩屑; a result that is none of these is the raw label or None, and the raw label then holds none of those words |
| Normalizer.CanonSampleTypeFullStable | app/normalizer.py:96-110 | feeding an accepted result back in as the raw label gives it again |
| Normalizer.LabelWords | app/normalizer.py:49-52 | the canonical labels hold no QC word and no keyword of a list that takes precedence over them |
| Normalizer.CanonSampleTypeSimpleIdempotent | app/normalizer.py:113-120 | the result is a canonical name or the stripped input (None reads as ""), is never itself a synonym, and a second application changes nothing |
| Normalizer.CanonCategoryRejects | app/normalizer.py:123-131 | rejection happens exactly for the category 轻烃谱图 on a path containing 热解 |
| Normalizer.CanonCategoryAccepted | app/normalizer.py:128-131 | an accepted category is the stripped input, or None when that is empty, and a second pass gives it back |
| Normalizer.HotWordsTest | app/normalizer.py:53 | some pyrolysis keyword occurs exactly when 热解 does |
| Normalizer.CanonCategoryStable | app/normalizer.py:123-131 | a stripped category comes back unchanged from a second pass |
| LegacyNormalize.LegacyHalf | app/normalize.py:5-26 | a translated character is never a key of the smaller table, and a character that is not a key is kept |
| LegacyNormalize.NormalizeTextClean | app/normalize.py:28-35 | empty input comes back unchanged; otherwise the output has no backslash, tab, double space or white space at either end, and no key of the table |
| LegacyNormalize.NormalizeTextIdempotent | app/normalize.py:28-35 | normalising twice is the same as normalising once |
| LegacyNormalize.AgreesWithNormalizer | app/normalize.py:5-26 | on text without full-width letters other than Ｍ and ｍ both versions give the same result |
| LegacyNormalize.NormalizeForDepthAsWritten | app/normalize.py:37-46 | as written only '—' and '~' are rewritten (to '-'), so neither remains |
| LegacyNormalize.TokenizePathTokens | app/normalize.py:48-55 | every token is non-empty and free of '/' |
| Parser.UnitsToM | app/parser.py:12-18 | only the unit "cm" (in any case) changes the value, dividing it by 100; no unit, "m", "米", "mm" and any other unit keep it; a non-negative value stays non-negative |
| Parser.WellSegment | app/parser.py:23-26 | the scan stops at the last segment holding '井' after position 0, and finds none exactly when no segment does |
| Parser.ScanSegments | app/parser.py:23-26 | the reversed loop over the segments stops at the same segment as the specification |
| Parser.LegacyWell | app/parser.py:20-28 | `_legacy_well` equals the specification: the stripped text before 井 in that segment, else the pattern's first match, else None |
| Parser.LegacyWellFallback | app/parser.py:27-28 | without such a segment, the result is present exactly when the well-code pattern matches, and it is then never empty |
| Parser.NumberTexts | app/parser.py:35 | every text `re.findall` returns has the shape of a number |
| Parser.DepthPair | app/parser.py:36-41 | no numbers give (None, None); one number d gives (d, d); more give the first two in ascending order; both ends are present together and start ≤ end |
| Parser.PairsMembers | app/parser.py:105-109 | the flattened list holds exactly the (label, token) combinations of the entries |
| Parser.RankedStable | app/parser.py:110 | sorting by token length keeps tokens of equal length in the order of the rule table, as Python's stable sort does |
| Parser.SampleTypeByRules | app/parser.py:100-115 | the shadowing `_determine_sample_type_by_rules` equals the specification: longest token first, the label of the first one that occurs |
| Parser.SampleTypeLongest | app/parser.py:100-115 | no pair is chosen exactly when no token occurs case-insensitively (a chosen entry without a "label" still gives None); otherwise the winning pair is one of the rules' pairs and its token is at least as long as every token that occurs |
| Parser.UnitDepth | app/parser.py:76-86 | a unit-marked depth is found exactly when the range or the single-value pattern matches; values are non-negative, and a single value has end = start |
| Parser.SettleWell | app/parser.py:59-63 | the well is the legacy reading, else the stripped `WELL_RE` match |
| Parser.OrderDepths | app/parser.py:83-88 | the unit-marked pair comes out ascending, with "深度顺序已更正" exactly when it was swapped |
| Parser.LegacyDepths | app/parser.py:89-91 | the legacy pair is kept, with "缺少深度" exactly when an end is missing |
| Parser.SettleDepth | app/parser.py:70-91 | both depths are set together with start ≤ end; "缺少深度" is noted exactly when none is found; a unit match wins and is noted when swapped, otherwise the legacy pair is used |
| Parser.ParseMetadata | app/parser.py:53-99 | "缺少井号" is noted exactly when no well is found; both depths are set together with start ≤ end; "缺少深度" is noted exactly when there is no depth; swaps are noted; the sample type is the rules' label; at most two anomalies |
| Parser.FirstHit | app/parser.py:100-115 | the index of the first (label, token) pair whose lower-cased token the name contains, or −1 when none does |
| Parser.PairsOf | app/parser.py:100-115 | a rule gives one (label, token) pair per token, in order |
| Parser.ParseNormalized | app/parser.py:53-99 | the method meets the metadata specification of the normalised name |
| Security.Cleaned | app/security.py:155-157 | the replacement loop keeps the length and turns each of / \ : * ? " < > \| NUL into '_' one for one, keeping every other character |
| Security.CleanedClean | app/security.py:155-157 | no dangerous character survives, and a clean name is unchanged |
| Security.SliceTo | app/security.py:163 | `name[:n]` is a prefix of the name with Python's length rule, counting a negative n from the end |
| Security.Suffix | app/security.py:161 | `Path.suffix` is a suffix of the name that starts with its only '.', and is shorter than the name |
| Security.Stem | app/security.py:161 | stem and suffix put together give the name back |
| Security.SanitizeFilename | app/security.py:144-165 | the method's result is the limit applied to the cleaned name |
| Security.LimitCorrect | app/security.py:160-163 | the limit keeps a clean name clean; a name of at most 255 characters is kept; a longer one whose suffix leaves room becomes exactly 255 characters ending in that suffix |
| Security.SanitizeFilenameCorrect | app/security.py:144-165 | no dangerous character survives; a name of at most 255 characters keeps its length; a longer one whose suffix leaves room becomes exactly 255 characters ending in its suffix |
| Security.SanitizeLongSuffix | app/security.py:160-163 | as written, a name whose suffix alone is longer than 255 characters comes out longer than 255 |
| Security.LongSuffixExample | app/security.py:160-163 | "a." followed by 300 letters has a 301-character suffix and is returned with 301 characters |
| Security.LimitBounded | app/security.py:160-163 | the intended limit is never longer than 255, keeps short names, agrees with the code whenever the suffix leaves room, and keeps clean names clean |
| Security.SanitizeFilenameBounded | app/security.py:144-165 | with the intended limit the result is clean and at most 255 characters, and a short name is only cleaned |
| Security.SanitizeExamples | app/security.py:144-165 | "test<>.jpg" gives "test__.jpg"; "test/../file.jpg" gives "test_.._file.jpg"; 300 a's with ".jpg" give 255 characters ending in ".jpg" |
| Security.ValidateWellNameChars | app/security.py:168-183 | a well name is valid exactly when it is a non-empty run of letters, digits and '-', optionally followed by one final newline, as Python's `$` allows |
| Security.WellNameSound | app/security.py:180-183 | every name the pattern accepts is a non-empty run of letters, digits and `-`, possibly followed by one final newline |
| Security.WellNameComplete | app/security.py:180-183 | every such name is accepted by the pattern |
| Security.ValidateDepthValueRange | app/security.py:186-196 | a depth is valid exactly when it is numeric and lies in [0, 10000] |
| Security.CheckRelPathCorrect | app/security.py:67-72 | the path that goes on has no '\\' and no leading '/', and it is rejected with 400 exactly when it contains ".." |
| Security.CheckRelPathAbsolute | app/security.py:68-71 | an absolute path is accepted: "/etc/passwd" goes on as "etc/passwd" |
| Security.RateLimiter.constructor | app/security.py:225-228 | a new limiter has the given limits and no entries |
| Security.RateLimiter.IsAllowed | app/security.py:230-261 | entries at least `window` old are dropped; the call is allowed exactly when fewer than `max_requests` remain, and then (now, 1) is recorded; no other client's list changes; no client ever holds more than `max_requests` entries |
| Security.AllowedCall | app/security.py:243-261 | a call with fewer than `max_requests` entries kept is allowed and recorded, and stays in the window at a later time within it |
| Security.FourthRequestRefused | app/security.py:230-261 | with a limit of 3 per window, three calls pass and the fourth is refused |
| Security.InWindowFresh | app/security.py:245-248 | entries all inside the window are all kept |
| Security.InWindow | app/security.py:245-248 | exactly the entries less than the window old are kept |
| Middleware.ErrorHandling | app/middleware.py:21-46 | the handler's response goes out unchanged exactly when nothing is raised; an HTTPException gives its own status and detail with type http_exception; any other exception gives 500/internal_error, with its text only at DEBUG level |
| Middleware.Recent | app/middleware.py:132-136 | the kept timestamps are exactly those less than `window` old, and all are kept when all are fresh |
| Middleware.SameCount | app/middleware.py:127-147 | this limiter counts in-window timestamps where `Security.RateLimiter` sums counts of 1, so both see the same number of requests |
| Middleware.RateLimitMiddleware.constructor | app/middleware.py:104-108 | a new limiter has the given limits and no timestamps |
| Middleware.RateLimitMiddleware.IsAllowed | app/middleware.py:127-147 | old timestamps are pruned; the call is allowed exactly when fewer than `max_requests` remain, and only then is `now` recorded; other clients are untouched; no client holds more than `max_requests` timestamps |
| Middleware.RateLimitMiddleware.Dispatch | app/middleware.py:110-125 | a refused client gets the 429 rate_limit_exceeded reply; any other request goes on |
| Middleware.AllowedRequest | app/middleware.py:110-147 | a request with fewer than `max_requests` timestamps kept goes on and is recorded |
| Middleware.FourthRequestGets429 | app/middleware.py:110-147 | with a limit of 3, the first three requests go on and the fourth in the window gets 429 |
| Middleware.ParseIntRoundTrip | app/middleware.py:160 | `int()` reads back the decimal text of any integer |
| Middleware.ValidateRequest | app/middleware.py:155-183 | the handler is called exactly when the length, read as `int()` reads it (sign, white space and underscore groups included), is not an integer above 10 MiB and the method is GET, POST, PUT, DELETE, HEAD or OPTIONS; the size check comes first (413), then the method (405) |
| Middleware.GroupedLengthRefused | app/middleware.py:157-168 | `int()` reads "20_000_000" as 20000000, so a GET declaring that length is refused with 413 |
| Middleware.DigitsGrouped | app/middleware.py:160 | a plain run of digits is also a well-formed grouped number, and dropping its (absent) underscores leaves it unchanged |
| Middleware.GroupedDropDigits | app/middleware.py:160 | a well-formed grouped number with its underscores dropped is a non-empty run of digits |
| Middleware.RestConcat | app/middleware.py:160 | two runs of digits and underscore groups make one |
| Middleware.DropConcat | app/middleware.py:160 | dropping underscores commutes with concatenation |
| Middleware.ValidateRequestLength | app/middleware.py:157-170 | an integer length above 10 MiB is refused with 413 whatever the method; one within the limit lets an allowed method through |
| Middleware.ValidateRequestExamples | app/middleware.py:157-180 | TRACE is refused with 405, and a length that is not an integer is ignored |
| Middleware.CacheKeyCollides | app/middleware.py:198 | the key `path:query` cannot tell a ':' in the path from the separator |
| Middleware.CachingMiddleware.constructor | app/middleware.py:188-190 | a new cache is empty |
| Middleware.CachingMiddleware.Dispatch | app/middleware.py:192-217 | only a GET with an entry under 300 s old is a hit, served unchanged from the cache; otherwise the handler's response goes out, and only a GET with status 200 is stored, with its time; nothing else changes the cache |
| Middleware.HandleAppException | app/middleware.py:268-278 | the reply carries the exception's status, message and type |
| Middleware.ExceptionReplies | app/middleware.py:241-266 | AppException answers 500/app_error by default; ValidationException 400/validation_error; SecurityException 403/security_error; NotFoundException 404/not_found; each keeps its message |
| Database.Appended | app/database.py:112-115 | storing a key keeps the dictionary's keys plus that key, once each; an overwritten key keeps its place |
| Database.Without | app/database.py:101-110 | deleting a key removes exactly that key and leaves the others in order |
| Database.OldestIndex | app/database.py:108-109 | `min(..., key=timestamp)` picks a key with the smallest timestamp, the first such key in insertion order |
| Database.AfterGet | app/database.py:94-102 | `get` deletes exactly the expired entry under the key, and the keys it keeps are all stored |
| Database.AfterSet | app/database.py:104-115 | `set` stores the entry under the key unless there is no room and nothing to evict, in which case nothing changes |
| Database.QueryCache.constructor | app/database.py:83-86 | a new cache has the given limits and no entries |
| Database.QueryCache.Get | app/database.py:94-102 | a value is returned exactly when its entry is younger than ttl; an expired entry is deleted and None returned; an absent key reads as None and changes nothing |
| Database.QueryCache.Set | app/database.py:104-115 | when the cache is full, the key with the smallest timestamp is removed first, even when the key being set exists; then the value is stored with the current time; the size never exceeds max_size; with max_size ≤ 0 and nothing stored, `min` raises and nothing changes |
| Database.QueryCache.Clear | app/database.py:117-119 | the cache is emptied |
| Database.EvictsOldest | app/database.py:94-115 | with max_size 2, after key1 and key2 are stored and read back, storing key3 evicts key1 and keeps key2 and key3 |
| Database.Expires | app/database.py:94-102 | an entry read within its ttl is returned, and read after it is gone |
| Database.CachedQuery | app/database.py:124-142 | a fresh cached value other than None is returned without calling the function and changes nothing; otherwise the computed result is returned, and the cache becomes exactly what `get` (deleting an expired entry) and then `set` (evicting the oldest when full) leave, so a None result is computed again on every call; a cache with no room makes the call fail, changing nothing |
| Database.FloorDiv | app/database.py:215 | Python's `//` rounds down for either sign of divisor and raises on 0 |
| Database.Paginate | app/database.py:196-216 | offset is (page − 1)·per_page; per_page 0 raises ZeroDivisionError |
| Database.PagesCeiling | app/database.py:215 | with a positive page size, `pages` is the ceiling of total / per_page: the pages hold every match and the last page is not empty |
| Database.EveryMatchOnOnePage | app/database.py:201-215 | every match lies on exactly one page, between 1 and `pages`, whose offset window contains it |
| Grouping.CatIndex | app/grouping.py:12 | `cat in cat_map` holds exactly for the seven listed categories, and then gives that category's column |
| Grouping.Center | app/grouping.py:35-40 | the recorded centre wins; otherwise the centre exists exactly when both depths do, and is then their midpoint |
| Grouping.BucketNearest | app/grouping.py:56-58 | the bucket is a multiple of `gran` within `gran/2` of the value, using round-half-to-even |
| Grouping.BucketIdempotent | app/grouping.py:56-58 | bucketing a bucket changes nothing |
| Grouping.Overlap | app/grouping.py:125-126 | the overlap is never negative, is positive exactly when both intervals are proper and intersect, and is no longer than either interval |
| Grouping.Dist | app/grouping.py:165-184 | the distance to the bucket centre is |centre − b|, except that a missing centre or a centre of 0.0 (falsy in Python) counts as distance 0 |
| Grouping.CountPositive | app/grouping.py:69-72 | a name is counted exactly when some row carries it |
| Grouping.FirstSeenExact | app/grouping.py:68-72 | the dictionary's keys are the non-empty names of the rows, each once |
| Grouping.FirstMaxIndex | app/grouping.py:75 | `max(..., key=count)` picks an entry of greatest count, the first such in key order |
| Grouping.CountWells | app/grouping.py:68-72 | the counting loop's dictionary holds, in first-seen order, exactly the non-empty names with their counts |
| Grouping.FirstMax | app/grouping.py:75 | the loop finds the first entry of greatest count |
| Grouping.PickDefaultWell | app/grouping.py:65-75 | `_pick_default_well` equals the specification's choice |
| Grouping.PickDefaultWellNone | app/grouping.py:73-74 | there is no default well exactly when no row names one; otherwise the default is a non-empty name some row carries |
| Grouping.PickDefaultWellMost | app/grouping.py:75 | no non-empty name is carried by more rows than the default well |
| Grouping.PickDefaultWellFirst | app/grouping.py:75 | among names with the default's count, the default is seen first |
| Grouping.RowsOfWell | app/grouping.py:92-93 | with a well, exactly that well's rows are selected; without one, every row |
| Grouping.ItemsOfExact | app/grouping.py:105-109 | every row with a usable depth contributes its light record, and nothing else does |
| Grouping.CollectItems | app/grouping.py:105-109 | the loop's items equal the specification's filtered records |
| Grouping.Anchors | app/grouping.py:112-113 | the anchors are exactly the fluorescence scans when there are any, otherwise all items |
| Grouping.MembersExact | app/grouping.py:116-119 | a bucket holds exactly the anchors whose centre rounds to it |
| Grouping.KeysOfExact | app/grouping.py:116-119 | the keys are the non-empty buckets, each once |
| Grouping.BucketAnchors | app/grouping.py:116-119 | the bucketing loop's keys and map equal the specification's |
| Grouping.SortedKeysAscending | app/grouping.py:141 | segments are visited in strictly ascending bucket order; every anchor's bucket is visited, and every visited bucket is non-empty |
| Grouping.MinStart | app/grouping.py:147 | the result is one of the starts and none is smaller |
| Grouping.MaxEnd | app/grouping.py:148 | the result is one of the ends and none is larger |
| Grouping.TolDyn | app/grouping.py:154 | the tolerance is the larger of the global tolerance and half the segment width |
| Grouping.MatchesExact | app/grouping.py:158-169 | a column after matching holds exactly the items of its category that overlap the widened segment or lie within `tol_dyn` of the centre |
| Grouping.OfCategoryExact | app/grouping.py:158-169 | the items of a category are exactly those whose category it is |
| Grouping.Nearest | app/grouping.py:176 | `min(..., key=distance)` picks a candidate of least distance, the first such |
| Grouping.Fallback | app/grouping.py:172-178 | an empty column gets at most one image: the nearest of its category, and only when within 3·gran; none exactly when every image of the category is farther |
| Grouping.MatchCategories | app/grouping.py:157-169 | the matching loop fills each column with exactly the matching items of its category |
| Grouping.ApplyFallback | app/grouping.py:172-178 | the fallback loop gives the specification's chosen columns |
| Grouping.SortColumns | app/grouping.py:181-194 | each column is sorted by distance, and each counter is its column's length |
| Grouping.Columns | app/grouping.py:157-194 | matching, fallback and sorting give the specification's columns and counters |
| Grouping.BuildSegment | app/grouping.py:141-195 | one iteration of the segment loop equals the specification's segment |
| Grouping.SegmentBounds | app/grouping.py:145-150 | with fluorescence the segment is [least start, greatest end] of the bucket's anchors, which are offered sorted by centre; otherwise it is bucket ± gran/2 and offers no anchors |
| Grouping.SegmentColumn | app/grouping.py:157-194 | each column holds items of its category only, sorted by distance to the centre, with the counter equal to its length; when some item matches, the column holds exactly the matches |
| Grouping.SegmentColumnFallback | app/grouping.py:171-178 | a category with no match holds at most the nearest image, within 3·gran |
| Grouping.SegmentColumnComplete | app/grouping.py:158-169 | a column gathers every image of its category that matches the segment |
| Grouping.SegmentsOf | app/grouping.py:141-195 | there is one segment per bucket, centred on the ascending bucket keys |
| Grouping.SegmentLoop | app/grouping.py:141-195 | the segment loop gives the specification's segments for the keys |
| Grouping.BuildSegments | app/grouping.py:116-195 | bucketing and the segment loop give the specification's segments |
| Grouping.BucketedSegments | app/grouping.py:116-141 | segments built from the bucket map are the segments of the anchors |
| Grouping.SegmentsAscending | app/grouping.py:141 | segments come out strictly ascending by centre |
| Grouping.AnchorsCovered | app/grouping.py:141-187 | with fluorescence anchors, every anchor is offered by some segment |
| Grouping.AnchorSegmentUnique | app/grouping.py:116-119 | an anchor is offered only by the segment of its own bucket, which lies within gran/2 of its centre |
| Grouping.GroupedShape | app/grouping.py:78-204 | the result carries the seven categories, the granularity, the tolerance and the selected well; only a zero granularity with anchors to bucket raises (ZeroDivisionError) |
| Grouping.GroupedNoDepths | app/grouping.py:94-102 | without a row that has a usable depth there are no segments |
| Grouping.GroupedFromWell | app/grouping.py:92-93 | every image shown in a segment comes from a row of the selected well |
| Grouping.BuildGroupedData | app/grouping.py:78-204 | `build_grouped_data` equals the specification's grouping |
| Wells.PotentialWells | app/enhanced_well_parser.py:97-114 | the candidates are both patterns' matches in the name without its extension, each once (the set's order is left open) |
| Wells.CapitalRun | app/enhanced_well_parser.py:127 | the leading run of capitals, cut at n, is as long as it can be |
| Wells.PrefixOf | app/enhanced_well_parser.py:127-129 | a prefix exists exactly when the name starts with two capitals; it is the greedy two to four leading capitals |
| Wells.TextEnd | app/enhanced_well_parser.py:137 | `$` matches before a final newline or at the end |
| Wells.LetterRunBefore | app/enhanced_well_parser.py:137 | the letters ending the text before `$` form a maximal run |
| Wells.SuffixOf | app/enhanced_well_parser.py:137-139 | a suffix exists exactly when the text before `$` ends in a letter |
| Wells.SuffixOfShape | app/enhanced_well_parser.py:137-139 | the suffix is the maximal non-empty run of letters that ends where `$` matches |
| Wells.BaseOf | app/well_name_learner.py:190 | removing every 井 leaves no 井 and does not lengthen the name |
| Wells.StructureChar | app/enhanced_well_parser.py:166-175 | 'L' exactly for a capital letter, 'l' for any other letter, 'N' for a digit, the character itself otherwise |
| Wells.ExtractStructurePattern | app/enhanced_well_parser.py:163-177 | the pattern has the name's length and maps each character by the L/l/N rule |
| Wells.ValidStructureNeedsThreeCapitals | app/enhanced_well_parser.py:179-191 | every listed structure starts with LLL, so only a name starting with three capitals can have one |
| Wells.StructureExamplesRejected | app/enhanced_well_parser.py:182-189 | as written, none of the names the table is annotated with (BZ26-6-B6H …) has a listed structure |
| Wells.StructureExamplesIntended | app/enhanced_well_parser.py:182-189 | each annotated name has the structure of the intended table (LLNN-N-LNL …) |
| WellParser.LengthScore | app/enhanced_well_parser.py:146-152 | the length term lies in [0, 0.1], is positive exactly for lengths 8 to 15, and is 0.1 exactly at 12 |
| WellParser.Confidence | app/enhanced_well_parser.py:116-161 | the confidence is the sum of the prefix, suffix, length and structure terms, capped at 1.0, and is non-negative with valid rules |
| WellParser.ConfidenceNeedsBothRules | app/enhanced_well_parser.py:126-161 | a confidence above 0.5 needs both a prefix rule and a suffix rule; without either it is at most 0.2 |
| WellParser.ConfidenceOfEmpty | app/enhanced_well_parser.py:116-161 | the empty name scores 0 |
| WellParser.FirstMappedIndex | app/enhanced_well_parser.py:59-66 | the scan returns on the first candidate the direct mapping knows, and finds none exactly when it knows none |
| WellParser.FirstBest | app/enhanced_well_parser.py:69-78 | the running best starts at 0.0 and is replaced only on a strictly greater confidence: it is the first maximum, and absent exactly when no confidence is positive |
| WellParser.FirstBestStep | app/enhanced_well_parser.py:73-78 | one more candidate replaces the best exactly when it scores strictly more |
| WellParser.BestValueCovers | app/enhanced_well_parser.py:73-78 | more scores never lower the best |
| WellParser.ScoresCover | app/enhanced_well_parser.py:73-78 | more candidates never lower the best confidence |
| WellParser.MappedCover | app/enhanced_well_parser.py:59-66 | if some candidate is mapped, it stays found among more candidates |
| WellParser.Decide | app/enhanced_well_parser.py:42-95 | an empty name gives (None, 0.0, "none"); a `…井` match gives the first match with 1.0; otherwise a mapped candidate gives its mapping with 0.9; otherwise the best candidate plus 井 when its confidence exceeds 0.5; otherwise (None, 0.0) |
| WellParser.DecideOrderFree | app/enhanced_well_parser.py:114 | the set's order decides only which of several equal candidates is named, never the method or the confidence |
| WellParser.RuleBasedNeedsBothRules | app/enhanced_well_parser.py:68-89 | a rule-based prediction needs a candidate with both a prefix rule and a suffix rule |
| WellParser.FindMapped | app/enhanced_well_parser.py:59-66 | the loop stops at the first mapped candidate |
| WellParser.FindBest | app/enhanced_well_parser.py:69-78 | the loop keeps the first candidate of greatest positive confidence, or none |
| WellParser.ParseWellName | app/enhanced_well_parser.py:42-95 | `parse_well_name` equals the specification's decision |
| WellParser.Bump | app/enhanced_well_parser.py:209-213 | `counter[key] += 1` adds one to that key only |
| WellParser.Truncate | app/enhanced_well_parser.py:212 | Python's `int()` truncates toward zero |
| WellParser.Tenth | app/enhanced_well_parser.py:212 | the confidence range is the tenth the confidence falls in |
| WellParser.TallyCounts | app/enhanced_well_parser.py:204-224 | every file is counted once, as a success or a failure; the examples are the first twenty successes; each example's method is counted |
| WellParser.TallyStep | app/enhanced_well_parser.py:204-224 | one more file records one more parse |
| WellParser.BatchCounts | app/enhanced_well_parser.py:193-226 | successes plus failures make the total, and at most twenty examples are kept, the first successes in file order |
| WellParser.BatchParseWellNames | app/enhanced_well_parser.py:193-226 | the loop's counters equal the specification's tally |
| WellParser.CountParse | app/enhanced_well_parser.py:205-224 | one iteration records one parse as the specification says |
| WellLearner.DigitRuns | app/well_name_learner.py:84-86 | each run found is a non-empty string of digits |
| WellLearner.Separators | app/well_name_learner.py:95-97 | the separators are no longer than the name and contain no letter or digit |
| WellLearner.DistributionsExact | app/well_name_learner.py:63-107 | each of the six distributions counts, for every key, exactly the known wells with that key |
| WellLearner.GroupedExact | app/well_name_learner.py:127-160 | a prefix (suffix) has statistics exactly when some well has it; its examples are those wells in order, its count their number, its partners the tally of their suffixes (prefixes) |
| WellLearner.Trimmed | app/well_name_learner.py:162-176 | the same keys, each keeping at most the first five examples |
| WellLearner.DirectMappingsAt | app/well_name_learner.py:189-193 | a base is mapped exactly when some known well has that base, and it is mapped to such a well |
| WellLearner.DirectMappingsInverse | app/well_name_learner.py:189-193 | when no two known wells share a base, each well is what its base maps to |
| WellLearner.PatternMappingsExact | app/well_name_learner.py:195-205 | a `prefix*suffix` key lists exactly the known wells with that prefix and suffix, in order |
| WellLearner.RuleConfidence | app/well_name_learner.py:222-236 | a rule's confidence lies in [0.3, 1.0] and reaches 1.0 exactly from ten occurrences |
| WellLearner.MostCommon | app/well_name_learner.py:223-237 | at most n keys, and no more than the counter holds |
| WellLearner.MostCommonSpec | app/well_name_learner.py:223-237 | the keys are in the counter, in non-increasing count, and no key left out counts more than one kept |
| WellLearner.RulesSpec | app/well_name_learner.py:214-240 | a rule exists exactly for a pattern seen at least three times; it carries that confidence, up to three common partners from the counter and the pattern's examples |
| WellLearner.GenerateRules | app/well_name_learner.py:214-240 | the loop builds the rules the specification gives |
| WellLearner.FrequencyTerm | app/well_name_learner.py:312-324 | the length and structure terms lie in [0, 0.1] and are positive exactly when the key was seen |
| WellLearner.LearnedConfidence | app/well_name_learner.py:290-326 | the confidence lies in [0, 1] and is at least 0.8 for a directly mapped candidate |
| WellLearner.ConfidenceEvidence | app/well_name_learner.py:290-326 | above 0.5 a candidate is directly mapped or has both a prefix and a suffix rule plus a known length or structure; unmapped it scores at most 0.7 |
| WellLearner.Predicted | app/well_name_learner.py:242-268 | an empty name gives (None, 0.0); a `…井` match gives the first with 1.0; otherwise the first best candidate plus 井 exactly when its confidence exceeds 0.5; a None prediction has confidence 0 |
| WellLearner.LearnedScoresCover | app/well_name_learner.py:258-262 | more candidates never lower the best confidence |
| WellLearner.PredictedOrderFree | app/well_name_learner.py:288 | the set's order changes neither the confidence nor whether a well is predicted |
| WellLearner.PredictionEvidence | app/well_name_learner.py:242-268 | a rule-based prediction is a potential well plus 井 that is directly mapped or has both rules |
| WellLearner.CollectInto | app/well_name_learner.py:48-59 | the known wells become the old ones plus every `…井` match of every non-empty file name, each once |
| WellLearner.AddWells | app/well_name_learner.py:58-59 | adding matches to the set keeps each once |
| WellLearner.Analyze | app/well_name_learner.py:63-107 | the loop computes the six distributions |
| WellLearner.AnalyzeWell | app/well_name_learner.py:75-105 | one well adds one to each distribution at its key, and a missing key adds nothing |
| WellLearner.GroupPrefixesSuffixes | app/well_name_learner.py:127-160 | the loop builds both groupings the specification gives |
| WellLearner.MapWells | app/well_name_learner.py:183-205 | the loop builds the direct and the pattern mappings |
| WellLearner.CalculateWellConfidence | app/well_name_learner.py:290-326 | the method equals the specification's confidence |
| WellLearner.FindBestLearned | app/well_name_learner.py:255-262 | the loop keeps the first candidate of greatest positive confidence, or none with 0.0 |
| WellLearner.WellNameLearner.constructor | app/well_name_learner.py:13-18 | a learner starts with no wells, patterns or mapping |
| WellLearner.WellNameLearner.CollectKnownWells | app/well_name_learner.py:48-59 | the known wells grow by exactly the new matches, each once; nothing else changes |
| WellLearner.WellNameLearner.AnalyzeWellPatterns | app/well_name_learner.py:63-107 | the stored patterns become the distributions of the known wells; nothing else changes |
| WellLearner.WellNameLearner.LearnPrefixSuffixPatterns | app/well_name_learner.py:127-176 | the stored prefix and suffix statistics become the trimmed groupings; nothing else changes |
| WellLearner.WellNameLearner.GenerateWellMappingRules | app/well_name_learner.py:178-212 | the stored mapping becomes the direct and pattern mappings plus the rules of both statistics |
| WellLearner.WellNameLearner.LearnFromFilenames | app/well_name_learner.py:20-34 | the four learning steps run in order, each on the previous one's result |
| WellLearner.WellNameLearner.PredictWellName | app/well_name_learner.py:242-268 | after learning, the prediction equals the specification's; before learning, the call raises `KeyError` exactly when a non-empty name without a `…井` match yields a candidate to score, and otherwise returns (None, 0.0) or the first `…井` match with 1.0 |
| WellLearner.DedupNoop | app/well_name_learner.py:59 | a list without duplicates is its own set |
| RuleLearner.ExtractKeywords | app/rule_learner.py:259-270 | every keyword is longer than one character and made only of letters and Han characters |
| RuleLearner.KeywordsOfName | app/rule_learner.py:259-270 | without its extension, the name contains every keyword, its letter and Han runs are exactly its letter and Han characters, and every run longer than one character is a keyword |
| RuleLearner.IdentifySampleType | app/rule_learner.py:304-310 | None exactly when the name contains none of the five types; otherwise the first listed type it contains |
| RuleLearner.Weight | app/rule_learner.py:593-641 | each anomaly weighs 1 to 3 |
| RuleLearner.KindAt | app/rule_learner.py:598-641 | the n-th check raises the n-th anomaly kind |
| RuleLearner.ListedFromSpec | app/rule_learner.py:598-641 | the first n checks list exactly the anomalies they raise, in check order |
| RuleLearner.Listed | app/rule_learner.py:593-646 | an anomaly is listed exactly when its check fires, in check order |
| RuleLearner.CheckFilenameAnomalies | app/rule_learner.py:593-646 | the method lists the name's anomalies and their total weight |
| RuleLearner.NoteChecks | app/rule_learner.py:598-646 | the six checks in turn build the list and the severity |
| RuleLearner.Check | app/rule_learner.py:598-641 | one check extends the list by its anomaly when it fires |
| RuleLearner.Note | app/rule_learner.py:600-601 | noting an anomaly appends it and adds its weight |
| RuleLearner.SeverityListedFrom | app/rule_learner.py:593-646 | the severity is the sum of the weights of the raised anomalies |
| RuleLearner.SeverityFormula | app/rule_learner.py:593-646 | severity = 3·no well + 2·no depth + 2·no sample type + 2·no category + special characters + over 100 characters; it is at most 11 and 0 exactly when nothing is listed |
| RuleLearner.RankAnomalies | app/rule_learner.py:570 | sorting keeps the length |
| RuleLearner.RankAnomaliesStable | app/rule_learner.py:570 | names of equal severity keep the order in which they were found, as Python's stable sort does |
| RuleLearner.RankAnomaliesSpec | app/rule_learner.py:570-575 | the ranking is a permutation in non-increasing severity, and none of the names outside the first hundred is more severe than one inside |
| RuleLearner.CountWhere | app/rule_learner.py:161-166 | a count never exceeds the number of names |
| RuleLearner.CountPositive | app/rule_learner.py:169-179 | a count is positive exactly when some name qualifies |
| RuleLearner.CountDisjoint | app/rule_learner.py:162-166 | the `if … elif` counts of two exclusive tests add up to at most the number of names |
| RuleLearner.CountStep | app/rule_learner.py:162-166 | counting one more name adds one exactly when it qualifies |
| RuleLearner.Learned | app/rule_learner.py:170-254 | a learned rule carries its API source and a confidence in (0, 1] |
| RuleLearner.LearnCategoryRules | app/rule_learner.py:147-257 | the method learns the rules of the category's branch, and none for any other category |
| RuleLearner.LearnThinSection | app/rule_learner.py:159-187 | the loop learns the single-polar and cross-polar rules |
| RuleLearner.LearnThreeD | app/rule_learner.py:189-221 | the loop learns the fingerprint and stereo rules |
| RuleLearner.LearnFluorescence | app/rule_learner.py:223-234 | the loop learns the one fluorescence rule |
| RuleLearner.LearnSpectrum | app/rule_learner.py:236-255 | the loop learns the spectrum rules |
| RuleLearner.CountSpectra | app/rule_learner.py:238-242 | each spectrum type counts the names that contain it and no 标样 |
| RuleLearner.SpectrumRulesWellFormed | app/rule_learner.py:245-255 | every spectrum rule carries the source and a confidence in (0, 1] |
| RuleLearner.CategoryRulesWellFormed | app/rule_learner.py:147-257 | every learned rule carries the source and a confidence in (0, 1]; an unknown category learns none |
| RuleLearner.ThinSectionRulesSpec | app/rule_learner.py:159-187 | a single-polar (cross-polar) rule exists exactly when some name counts for it; at most two rules, whose confidences add up to at most 1 |
| RuleLearner.ThreeDRulesSpec | app/rule_learner.py:189-221 | a fingerprint (stereo) rule exists exactly when some name counts for it; at most two rules, whose confidences add up to at most 1 |
| RuleLearner.FluorescenceRuleSpec | app/rule_learner.py:223-234 | the fluorescence rule has confidence 1.0 and lists 精选 exactly when some name contains it |
| RuleLearner.SpectrumRulesMembers | app/rule_learner.py:245-255 | the rules are exactly those of the spectrum types seen |
| RuleLearner.SpectrumRulesSpec | app/rule_learner.py:236-255 | a type has a rule exactly when some name contains it and no 标样; the rule's priority is 65 − 5·index, it requires the type and rejects 标样 |
| RuleLearner.SpectrumRulesMatchAnalyser | app/rule_learner.py:245-255 | every learned spectrum rule selects what a fixed analyser rule of that source selects |
| RuleLearner.ImageNames | app/rule_learner.py:136-139 | the names kept are exactly the column's image names |
| RuleLearner.LearnClassificationRules | app/rule_learner.py:111-145 | the rules of all sources are concatenated in source order |
| RuleLearner.SourceLearnedSpec | app/rule_learner.py:121-143 | a rule learned from a source carries that source, which is one of the four known ones, and a confidence in (0, 1] |
| RuleLearner.ImageNamesOf | app/rule_learner.py:134-139 | the loop keeps the image names |
| RuleLearner.ClassificationRulesSpec | app/rule_learner.py:111-145 | every learned rule has a confidence in (0, 1] and comes from one of the given sources |
| RuleLearner.GenerateRuleSuggestions | app/rule_learner.py:312-358 | the pattern suggestions come first, then one per low-confidence rule |
| RuleLearner.SuggestFromPatterns | app/rule_learner.py:316-347 | the method emits the pattern suggestions |
| RuleLearner.SuggestFromRules | app/rule_learner.py:349-356 | the loop emits the rule-confidence suggestions |
| RuleLearner.ConfidenceSuggestionsMembers | app/rule_learner.py:350-356 | a rule-confidence suggestion is emitted exactly for each rule below 0.8 |
| RuleLearner.SuggestionsSpec | app/rule_learner.py:312-358 | a well-pattern suggestion exactly when more than ten patterns, a depth one exactly when some pattern is a range, a special-token one exactly for 精选, an exclusion one exactly for a 标样 token, and a rule-confidence one exactly for a rule below 0.8 |
| RuleLearner.SuggestionsOfLearned | app/rule_learner.py:312-358 | learned rules always have a confidence, and there are at most four suggestions plus one per rule |
| RuleLearner.ConfidenceSuggestionsLength | app/rule_learner.py:350-356 | at most one suggestion per rule |
| CsvAnalyzer.PathName | app/csv_analyzer.py:29 | `Path(name).name` holds no `/` and is never `.` |
| CsvAnalyzer.Suffix | app/csv_analyzer.py:29 | `Path.suffix` is empty or a final `.`-led part of the name, with no other dot, that is not the whole name |
| CsvAnalyzer.ExtensionShapes | app/csv_analyzer.py:21 | each of the eight image extensions is a dot followed by lower-case letters |
| CsvAnalyzer.ImageFileByEnding | app/csv_analyzer.py:23-30 | a name is an image file exactly when it is non-empty and its last path part, lower-cased, ends in one of the eight extensions after at least one more character |
| CsvAnalyzer.FirstIndex | app/csv_analyzer.py:139-142 | the index of the first listed word the name contains, or −1 when it contains none |
| CsvAnalyzer.FirstIn | app/csv_analyzer.py:139-142 | the loop breaks at the first listed word contained |
| CsvAnalyzer.FirstWordDistribution | app/csv_analyzer.py:129-161 | the loop tallies each image name under its first contained word |
| CsvAnalyzer.SampleTypeDistribution | app/csv_analyzer.py:129-144 | the sample-type distribution is that tally over the five types |
| CsvAnalyzer.CategoryDistribution | app/csv_analyzer.py:146-161 | the category distribution is that tally over the six categories |
| CsvAnalyzer.KeyedImages | app/csv_analyzer.py:134-142 | a tally over image names counts each at most once, so its total is at most the number of image names, and exactly that when every image name has a key |
| CsvAnalyzer.FirstWordDistributionSpec | app/csv_analyzer.py:129-161 | the keys are distinct listed words; each counts exactly the image names whose first contained word it is; the total is at most the number of image names |
| CsvAnalyzer.ExtensionOf | app/csv_analyzer.py:172-174 | the extension found is a non-empty run of letters |
| CsvAnalyzer.ExtensionDistribution | app/csv_analyzer.py:163-177 | the loop tallies each image name under its lower-cased extension |
| CsvAnalyzer.ImageExtensionCounted | app/csv_analyzer.py:163-177 | an image name ending in its path part has an extension, which is its suffix without the dot |
| CsvAnalyzer.ExtensionDistributionSpec | app/csv_analyzer.py:163-177 | the keys are lower-case letters; the total is at most the number of image names, and exactly that when every name ends in its path part |
| CsvAnalyzer.SourceRules | app/csv_analyzer.py:244-325 | a known API source gives its fixed rules, carrying that source and no confidence; any other source gives none |
| CsvAnalyzer.GenerateRulesFromStats | app/csv_analyzer.py:234-339 | the categories are the fixed rules of each source in turn, and the sample types and filters are fixed |
| CsvAnalyzer.StatsRulesKeysOnly | app/csv_analyzer.py:244 | the rules depend only on which sources are present, not on their statistics |
| CsvAnalyzer.StatsRulesMembers | app/csv_analyzer.py:244-325 | a rule is generated exactly when it is a fixed rule of a present source |
| MlClassifier.ApplyTwo | app/ml_classifier.py:304-315 | a two-word `all` test needs both words and a two-word `any` test one of them |
| MlClassifier.ApplyOne | app/ml_classifier.py:318-327 | a one-word test needs that word; an empty `any` never holds |
| MlClassifier.ChainConditions | app/ml_classifier.py:303-327 | each of the eight links of the chain applies exactly under the source's `in` tests |
| MlClassifier.UnrollChain | app/ml_classifier.py:296-329 | the first applying link is what the nested `if` chain returns |
| MlClassifier.RuleChainIsTable | app/ml_classifier.py:296-329 | `_rule_based_classify` is the first applying link, or no match |
| MlClassifier.FirstApplyingSpec | app/ml_classifier.py:296-329 | nothing applies exactly when no link does; otherwise the first link that applies, with none before it |
| MlClassifier.LearnedRulesInChain | app/ml_classifier.py:296-329 | every rule the rule learner can learn tests the same words as some link of the chain |
| MlClassifier.SpectrumInChain | app/ml_classifier.py:321-327 | every learned spectrum rule tests the words of a chain link |
| MlClassifier.ThreeDInChain | app/ml_classifier.py:311-315 | every learned three-dimensional rule tests the words of the fingerprint or the stereo link |
| MlClassifier.ThinSectionInChain | app/ml_classifier.py:304-308 | every learned thin-section rule tests the words of the single-polar or the cross-polar link |
| MlClassifier.Classify | app/ml_classifier.py:261-294 | a rule result is returned with method rule_based and 1.0; otherwise a prediction of confidence at least 0.8 is returned as ml_based; otherwise (None, none, 0.0) |
| MlClassifier.ClassifySpec | app/ml_classifier.py:261-294 | a category is returned exactly when a rule applies or the prediction reaches 0.8, always with confidence at least 0.8; when a rule applies, the prediction is ignored |
| MlClassifier.BucketSpec | app/ml_classifier.py:74-80 | shallow exactly below 1000, deep exactly from 3000, and the bucket never falls as the depth grows |
| MlClassifier.RenderAll | app/ml_classifier.py:103 | one text per feature |
| MlClassifier.DecimalOf | app/ml_classifier.py:73 | `float` of a digit string is its value |
| MlClassifier.ExtractFeatures | app/ml_classifier.py:54-104 | the method builds the specification's feature text |
| MlClassifier.WellTags | app/ml_classifier.py:66-68 | the well feature is the first `…井` match, if any |
| MlClassifier.DepthTags | app/ml_classifier.py:71-80 | the depth feature is the bucket of the first `…m` number, if any |
| MlClassifier.FirstTag | app/ml_classifier.py:83-94 | the loop tags the first listed sample type or category the name contains, if any |
| MlClassifier.SpecialTags | app/ml_classifier.py:97-100 | the loop tags every special token the name contains |
| MlClassifier.SpecialFeaturesMembers | app/ml_classifier.py:97-100 | a special tag is present exactly for the listed tokens the name contains |
| MlClassifier.FeaturesSpec | app/ml_classifier.py:54-104 | the text starts with the normalised name and a space; a depth tag is present exactly for the bucket of the depth found, a sample or category tag exactly for the first listed word contained, a special tag exactly for a listed token contained |
| MlClassifier.SuccessRate | app/ml_classifier.py:366-370 | the rate lies in [0, 1], is 1 exactly when every try succeeded, and is 0 exactly when none did (or there were none) |
| MlClassifier.RateFacts | app/ml_classifier.py:368 | a success ratio lies in [0, 1], reaching 1 exactly on full success and 0 exactly on none |
| MlClassifier.EvaluateHybridPerformance | app/ml_classifier.py:338-372 | without a model object the evaluation fails exactly when the list is non-empty, and an empty list gives the all-zero report; otherwise it tallies the image names by method, the rule rate is 1 whenever a rule applied, and the model rate is its success ratio |
| MlClassifier.ImagesOf | app/ml_classifier.py:347 | the loop keeps exactly the image names, in order |
| MlClassifier.RuleResultsNonEmpty | app/ml_classifier.py:358-360 | a rule result is never empty, so every rule-based name counts as a success |
| MlClassifier.TalliedSpec | app/ml_classifier.py:352-363 | every image name is counted under exactly one method, and successes never exceed their counts |
| MainApp.SafeFilenameSpec | app/main.py:82-84 | the cleaned name holds no `/`, `\`, CR, LF or TAB; a name without any of them is kept; cleaning twice is cleaning once |
| MainApp.SafeFilenameClean | app/main.py:82-84 | the text after the last separator, without the three control characters, holds none of the five characters |
| MainApp.SafeNameKept | app/main.py:82-84 | a name without any of the five characters is kept as it is |
| MainApp.UploadPercentSpec | app/main.py:139-141 | with a total, the percent is the largest whole percent not beyond done/total: it lies in [0, 100], is 100 exactly when all is done, and never falls as more is done |
| MainApp.BestPreviewFormatSpec | app/main.py:224-230 | AVIF when the client accepts it; JPEG exactly when it accepts neither AVIF nor WEBP; otherwise WEBP |
| MainApp.ClampPreviewSizeSpec | app/main.py:239 | the preview size lies in [64, 1600], a size within those bounds is kept, and clamping twice is clamping once |
| MainApp.ResizeTargetSpec | app/main.py:196-203 | the target never exceeds the image; an image within the bound is kept; otherwise the longer side (the width on a tie) becomes the bound and the other side is scaled by truncation |
| MainApp.ShrinkSide | app/main.py:199-202 | `int(short * max_side / long)` is the truncated scaled side |
| MainApp.ScaledBelow | app/main.py:199-202 | the scaled shorter side is at most the bound |
| MainApp.ScaledShrinks | app/main.py:199-202 | the scaled side never grows |
| MainApp.NormalizeWell | app/main.py:298-308 | the normal form holds no lower-case letter |
| MainApp.NormalizeWellExample | app/main.py:299-301 | `BZ8-3S-11井` and `bz8-3s-11井` both normalise to `BZ8-3S-11` |
| MainApp.DropsWellSuffix | app/main.py:303-308 | a name in normal form ending in 井 loses exactly that 井 and is upper-cased |
| MainApp.StrLeTotal | app/main.py:314-326 | Python's string order is total |
| MainApp.StrLeTrans | app/main.py:314-326 | Python's string order is transitive |
| MainApp.InsertStringSpec | app/main.py:314 | inserting into a sorted list keeps it sorted and adds exactly the one name |
| MainApp.SortStringsSpec | app/main.py:314 | `sorted` gives a sorted permutation |
| MainApp.MatchesNest | app/main.py:319-328 | an exact match is a prefix match and a prefix match an infix match |
| MainApp.CascadeFits | app/main.py:316-332 | every candidate is a well whose normal form contains the query's |
| MainApp.CascadeFinds | app/main.py:316-332 | some candidate is found exactly when some well's normal form contains the query's |
| MainApp.CascadeResolves | app/main.py:319-330 | a resolved well is an exact-match candidate; otherwise the candidates are sorted and distinct |
| MainApp.ResolveWellsSpec | app/main.py:310-332 | the candidates fit the query; a resolved well has the query's normal form; a non-empty query finds candidates exactly when some well's normal form contains it; unresolved candidates are sorted (and distinct for a query); an empty query lists every non-empty well |
| MainApp.ResolveEmpty | app/main.py:311-314 | an empty query resolves nothing and lists all non-empty wells, sorted |
| MainApp.ResolveQuery | app/main.py:316-332 | a non-empty query's resolution, as the cascade gives it |
| MainApp.QueryFits | app/main.py:316-332 | a non-empty query's candidates fit it |
| MainApp.QueryFinds | app/main.py:316-332 | a non-empty query finds candidates exactly when some well's normal form contains it |
| MainApp.NonEmptyFinds | app/main.py:311-328 | dropping empty names loses no match |
| MainApp.DedupSorted | app/main.py:326-330 | `sorted(set(…))` is sorted, distinct, has the same members, and is empty only for an empty list |
| MainApp.SliceBound | app/main.py:450 | a Python slice bound is clipped to the length |
| MainApp.GalleryPageNegativeSize | app/main.py:446-450 | as written, page 1 with a page size of −1 over three items lists the first two |
| MainApp.GalleryPageIntendedSpec | app/main.py:446-450 | with the size taken as at least 0, page p holds the items from (p − 1)·size to p·size, clipped, never more than the size; for sizes ≥ 0 it agrees with the code |
| MainApp.PagesTile | app/main.py:446-450 | the first n pages together are exactly the first n·size items |
| MainApp.SynonymTargets | app/main.py:387 | a synonym maps to a non-empty, unpadded sample type that is not itself a synonym |
| MainApp.SynonymSpec | app/main.py:387-389 | mapping a stripped name gives a non-synonym, unpadded name, empty only for the empty name |
| MainApp.CanonSampleTypeSpec | app/main.py:386-389 | `canon_st` gives None or a non-empty non-synonym, and applying it twice is applying it once |
| Models.AnomaliesToStr | app/models.py:45-47 | None exactly for an empty list; a single item is stored as itself |
| Models.AnomaliesRoundTrip | app/models.py:47 | when no item contains `;`, splitting the stored text on `;` gives the list back |
| Models.AnomaliesStable | app/models.py:47 | storing the items of a stored text gives that text again |
| EncodingUtils.InCjkRanges | app/encoding_utils.py:5-17 | the inner loop finds the code point exactly when it lies in one of the five ranges |
| EncodingUtils.HasCjk | app/encoding_utils.py:13-19 | `_has_cjk` is true exactly when some character lies in one of the five ranges |
| EncodingUtils.CjkCountSpec | app/encoding_utils.py:24-30 | the count is at most the length, 0 exactly without CJK, and the length exactly when every character is CJK |
| EncodingUtils.CjkRatioSpec | app/encoding_utils.py:21-31 | the ratio lies in [0, 1], is 0 exactly without CJK, and for a non-empty text is 1 exactly when every character is CJK |
| EncodingUtils.CjkRatioOf | app/encoding_utils.py:21-31 | the loop computes the CJK ratio |
| EncodingUtils.LooksMojibakeSpec | app/encoding_utils.py:67-69 | mojibake exactly when fewer than one character in twenty is CJK and some character is a box-drawing or Latin-1 letter; a text without CJK holding such a character is mojibake; an all-CJK text never is |
| EncodingUtils.FixZipName | app/encoding_utils.py:33-51 | the result is the name or its CP437-to-GB18030 recoding, never less CJK than the name, and differs only when it gains CJK or the name held a box or arrow character |
| EncodingUtils.FixSegments | app/encoding_utils.py:56 | each segment is repaired on its own |
| EncodingUtils.Segments | app/encoding_utils.py:55 | splitting always gives at least one segment |
| EncodingUtils.NormalizeZipNameSegments | app/encoding_utils.py:53-57 | when no repaired segment holds `/`, the segments of the result are the repaired segments |
| EncodingUtils.NormalizeZipNameKeeps | app/encoding_utils.py:53-57 | when no segment is recoded, the result is the name with `\` turned into `/` |
| EncodingUtils.Latin1 | app/encoding_utils.py:65 | Latin-1 decoding maps each byte to the character of that code |
| EncodingUtils.Latin1Encode | app/encoding_utils.py:65 | a text encodes to Latin-1 exactly when every character is below 256 |
| EncodingUtils.Latin1RoundTrip | app/encoding_utils.py:65 | encoding the Latin-1 text of bytes gives the bytes back |
| EncodingUtils.Latin1EncodeRoundTrip | app/encoding_utils.py:65 | decoding the Latin-1 bytes of a text gives the text back |
| EncodingUtils.FirstDecodingSpec | app/encoding_utils.py:59-64 | no decoding exactly when every encoding fails; otherwise the text of the first encoding that succeeds |
| EncodingUtils.TryDecode | app/encoding_utils.py:59-65 | the loop returns the first successful decoding, else the Latin-1 text |
| Extract.Percent | app/extract.py:79-80 | 100 when there is no total |
| Extract.PercentFull | app/extract.py:79-80 | a job with everything done is at 100 percent |
| Extract.PercentBounds | app/extract.py:79-80 | while no more than the total is done, the percent lies in [0, 100] |
| Extract.NestedIsSupported | app/extract.py:82-84 | a member is reported as nested exactly when its lower-cased name ends in an extension the extractor supports |
| Extract.SameExtensions | app/extract.py:32-43 | the nested and the supported extension sets hold the same thirteen extensions |
| Extract.DispatchSupported | app/extract.py:270-285 | an archive is dispatched to an extractor exactly when its lower-cased name ends in a supported extension; any other name raises |
| Extract.DispatchLowerSupported | app/extract.py:274-285 | the same for an already lower-cased name |
| Extract.SupportedSplits | app/extract.py:274-283 | every supported name falls into one of the five branches |
| Extract.TarIsSupported | app/extract.py:280 | every tar ending is supported |
| Extract.StreamIsSupported | app/extract.py:282 | every single-stream ending is supported |
| Extract.TarballsAreTar | app/extract.py:274-281 | `.tar.gz`, `.tar.bz2` and `.tar.xz` go to the tar extractor, not the single-stream one |
| Extract.PathSuffix | app/extract.py:235-244 | `Path.suffix` is a final part of the name, empty or a dot with no other dot, not the whole name |
| Extract.PathStem | app/extract.py:69-70 | the stem followed by the suffix is the name |
| Extract.StreamTargetSpec | app/extract.py:230-244 | a single stream's output name is the non-empty name without its suffix; a bare `.gz`, `.bz2` or `.xz` is refused |
| Extract.BareExtension | app/extract.py:230-244 | a name that lowers to `.gz`, `.bz2` or `.xz` has its only dot in front |
| Extract.OnlyLeadingDot | app/extract.py:230-244 | a name whose only dot is its first character has no path suffix and is not taken as a stream |
| Extract.StreamNamesAccepted | app/extract.py:235-244 | a longer name ending in one of the three stream extensions is accepted and loses exactly that extension |
| Extract.CandidateInjective | app/extract.py:74 | different counters give different candidate names |
| Extract.CandidatesMembers | app/extract.py:72-77 | the first n candidates are `stem(j)suffix` for j from 1 to n |
| Extract.CandidatesSize | app/extract.py:72-77 | the first n candidates are n distinct names |
| Extract.CandidateDiffers | app/extract.py:74 | a candidate is never the path itself |
| Extract.Crowded | app/extract.py:72-77 | if the path and its first n candidates all exist, more than n paths exist, so the search ends |
| Extract.EnsureUnique | app/extract.py:66-77 | the result does not exist; an absent path is kept; otherwise it is the candidate with the smallest free counter |
| Extract.ZipRelKeeps | app/extract.py:96-101 | when no segment is recoded, the entry name is the name with `\` turned into `/`, and holds no `\` |
| Extract.TarRelSpec | app/extract.py:137-143 | a tar member name changes only when it looks like mojibake, is Latin-1, and then becomes its first successful decoding |
| Extract.RarRel | app/extract.py:210-215 | a RAR name that does not look like mojibake is kept, and it changes only when it encodes as CP437 |
| Extract.ReadableCount | app/extract.py:152-158 | no more members are extracted than listed |
| Extract.ReportsSpec | app/extract.py:115-118 | one progress report per extracted member, counting up from the starting count, each with the total; the percents lie in [0, 100] |
| Extract.NestedOfSpec | app/extract.py:103-104 | the nested archives are exactly the members with a nested-archive name, at most one per member |
| Extract.ExtractSummary.constructor | app/extract.py:45-53 | a summary starts with zero counters and empty lists |
| Extract.ExtractSummary.ExtractMembers | app/extract.py:89-228 | the total grows by the members listed, the extracted count by those with a stream, the nested list by the nested names; the reports count up from the old extracted count |
| Extract.ExtractSummary.ExtractStream | app/extract.py:230-254 | one stream adds one to the total and to the extracted count and reports its output name |
| Extract.WalkMembers | app/extract.py:95-160 | the loop counts the extracted members, collects the nested names and the reports |
| Extract.ExtractArchive | app/extract.py:256-287 | an unsupported name fails; a bare stream extension fails; otherwise the summary counts the members (or the one stream), and the extracted count never exceeds the total |

## Left out

- PDF access is not modelled: opening files with pdfplumber, extracting characters, SHA-1 ids and reading or writing the depth-map JSON (`app/routes_logpdf.py`). The digitiser takes each page's character list as input, and calibration works on an in-memory entry list.
- Floating point is not modelled. Coordinates, depths, scores and ratios are exact reals, so `math.isfinite` always holds and rounding error is absent. Python's `round` is modelled as round-half-to-even.
- The label strings built for segments (`app/grouping.py:26-32,152`) and the free-text messages of reports and suggestions are not modelled. Only their kinds and numbers are.
- Grouping.BuildGroupedData: the segment id `f"{well or '-'}#{bucket_center:.2f}"` (`app/grouping.py:143`) and the `imagesBySegment` dictionary keyed by it (`app/grouping.py:181-194`) are not modelled; segments are told apart by their bucket centre. Two bucket centres that print alike to two decimals would share one `imagesBySegment` entry in the source (the later segment's images overwrite the earlier's); the model keeps them apart.
- Web and transport code is not modelled: FastAPI routing, templates, static files, middleware `dispatch` plumbing and response headers (`LoggingMiddleware`, `SecurityMiddleware`), PIL resizing and encoding, the preview caches, upload background jobs and `subprocess` calls (`app/main.py:86-116,161-292`). Only the decisions and the arithmetic those handlers use are modelled.
- Database and configuration access is not modelled: SQLModel sessions and queries, engine and index creation, `app/ingest.py`, `app/recalc.py`, `app/maintenance.py`, YAML loading in `app/config.py`, and the pydantic settings in `app/settings.py`. Rows, rules and configuration values are parameters.
- Hashing is not modelled (MD5 and SHA-1 in `app/security.py`, `app/database.py` and `app/main.py`). The cache key is a parameter.
- Reading and writing CSV, JSON and report files in `app/rule_learner.py`, `app/well_name_learner.py`, `app/csv_analyzer.py` and `app/learn_rules.py` is not modelled. Their inputs are sequences of file names or rows.
- Time is not read from a clock: `now` is a parameter of the rate limiters, the query cache and the caching middleware.
- NFKC normalisation (Unicode Standard Annex #15) is a function parameter. So are the CP437 → GB 18030 re-decoding and the codec attempts of `try_decode`. Latin-1 decoding is defined concretely.
- Unicode character classes are approximated. `isdigit`, `isupper`, `islower`, `lower()` and `upper()` are ASCII-only, with one exception: the well-name structure strings (Wells.IsDecimal, Wells.IsUpperAlpha) also count the full-width digits U+FF10–U+FF19 as digits, and the Latin-1 and full-width capitals as upper case. Other Unicode digits and cases are not covered. Letters and `\w` cover ASCII, Latin-1 letters, the CJK ideograph blocks and the full-width forms.
- WellParser.ParseOf: the candidates of `_extract_potential_wells` are a Python `set` (`app/enhanced_well_parser.py:114`), and the learner scores the same set (`app/well_name_learner.py:288`). WellParser.ParseOf and WellLearner.Prediction fix its order as the order in which Wells.PotentialWells first finds each candidate in the name. Python promises no order there. WellParser.Decide and WellLearner.Predicted accept any enumeration of the candidates. Two outputs follow the model's order, not a guaranteed one: which of several mapped candidates is named (the first mapped one), and which of several equally scored candidates is named (the first best). WellParser.DecideOrderFree and WellLearner.PredictedOrderFree prove that the method, the confidence and whether a well is predicted do not depend on the order.
- LogPdfMap.Score, LogPdfMap.Evaluate, LogPdfMap.Evaluations, LogPdfMap.BestOf, LogPdfMap.SelectBest, LogPdfMap.PageBest, LogPdfMap.PageBests, LogPdfMap.DepthMap, LogPdfMap.PageBestByText, LogPdfMap.DepthMapByText, LogPdfMap.Ingest and the lemmas about them assume that every page width is positive. The source does not check this:
  - It divides by `page_w` only for a band-anchored candidate that passes the quality gate (`app/routes_logpdf.py:262-264`).
  - A page of width 0 or less whose candidates are all clusters is still scored.
  - On a page of width 0, such a band candidate raises `ZeroDivisionError`. Only `_fit_linear` is inside the `try`, so the error ends the whole ingest.
  - On a page of negative width, the band bonus exceeds 0.12 without bound, so the score bound of LogPdfMap.EvaluateGate does not hold.
  - The model covers none of these cases.
- WellLearner.WellNameLearner.CollectKnownWells: `self.known_wells` is a Python `set` (`app/well_name_learner.py:14`), iterated at `app/well_name_learner.py:74`, `:132` and `:189`. The model fixes its order as the order in which the wells were first collected; Python promises no order there (string hashing is randomised per process). Everything that depends on that order follows the model's order, not a guaranteed one:
  - which five examples each prefix and suffix keeps (WellLearner.Trimmed, WellLearner.GroupedExact);
  - the order of the wells listed under each `prefix*suffix` key (WellLearner.PatternMappingsExact);
  - the tie-breaks of `most_common` among equally frequent partners behind WellLearner.RulesSpec;
  - which well a base shared by several wells maps to in the direct mappings (the last one iterated; WellLearner.DirectMappingsAt states only that it is one of them).
- The archive libraries are not modelled (zipfile, tarfile, py7zr, rarfile, unar), nor the errors raised when py7zr or rarfile is missing, the unar fallback, or the `resolve()` checks of `_safe_join` and `is_safe_path`. The members of an archive are given as a list.
- Middleware.ParseInt: reads ASCII digits only. Python's `int()` also accepts the decimal digits of other scripts (full-width, Arabic-Indic and so on); such a length reads here as not an integer, so the size check is skipped.
- Extract.ExtractArchive: takes the archive's members already listed and their names already repaired (Extract.ZipRel, Extract.TarRel, Extract.RarRel), so it does not follow the libraries' own iteration or I/O failures.
- The scikit-learn model is not modelled: training, `predict`, `predict_batch`, saving, loading and feature importance in `app/ml_classifier.py`. The model's prediction is an `Option` of a label and a confidence passed in.
- In `app/rule_learner.py`, `_learn_filename_patterns`, `_extract_patterns_from_filename`, `_learn_sample_type_rules`, the anomaly-type tallies, the report writers and `evaluate_learned_rules` are not modelled. They feed only the written reports.
- In `app/csv_analyzer.py`, `analyze_csv`, `_extract_patterns`, `_analyze_depth_patterns` and the file output of `generate_enhanced_rules` are not modelled. They are CSV I/O and set accumulation feeding reports.
- In `app/well_name_learner.py`, `_validate_learning_results` (which draws a `random.sample`), `save_learned_rules` and the report are not modelled.
- In `app/enhanced_well_parser.py`, loading the rule files and `get_well_statistics` are not modelled. The mapping and patterns are parameters.
- In `app/security.py`, `validate_upload_file`, `validate_image_content`, `generate_safe_filename` and `is_safe_path` are not modelled. They read files, hash or use the clock.
- `app/validate.py` is not modelled. It reads zip files and calls `decode_zip_name` and `synth_path`, which the repository never defines.
- The first `_determine_sample_type_by_rules` in `app/parser.py` is not modelled, because the second definition shadows it.
- Scripts and tooling outside `app/` are not part of this model (load tests, deployment and verification runners, repository setup).

## Findings

| source | as written | input that shows it | evidently intended | confidence | as-written member | corrected member |
|---|---|---|---|---|---|---|
| app/main.py:446-450 | the gallery slice is `items[start:start + per_page]` with `start = max(0, (page − 1)·per_page)`, and `per_page` is never clamped | page 1 with `per_page` −1 over `[10, 20, 30]` lists `[10, 20]` | a negative page size yields an empty page | not executed | MainApp.GalleryPageNegativeSize | MainApp.GalleryPageIntendedSpec |
| app/normalizer.py:86 | the split class `[^0-9A-Za-z\\u4e00-\\u9fa5]+` is in a raw string, so `\\u4e00` is not an escape: the class keeps exactly U+0030–U+005C (`0` to `\`) and `a`–`z`, and ideographs count as separators | "岩屑" gives no token; "a:b" gives the single token "a:b" | ASCII letters, digits and the ideographs U+4E00–U+9FA5 form tokens, so "岩屑" is one token and "a:b" gives "a" and "b" | not executed | Normalizer.TokenizeFinding | Normalizer.TokenizePathIntendedTokens |
| app/security.py:160-163 | a long name keeps its whole suffix and its stem is cut to `255 − len(suffix)`, which is negative when the suffix alone is longer than 255 | "a." followed by 300 letters comes back with 301 characters | the result is never longer than 255 characters | not executed | Security.LongSuffixExample | Security.LimitBounded |

The model also follows three other places where the code does something other than what it appears to aim for. None is a finding, because the intended behaviour is not evident from the code:

- The structure table of `_is_valid_structure` (`app/enhanced_well_parser.py:179-191`) lists only patterns that start with three capitals. The well names it is annotated with all start with two capitals, so none of them passes (Wells.StructureExamplesRejected, Wells.StructureExamplesIntended). WellParser.Confidence uses the table as written.
- In `normalize_for_depth`, the substitutions after the dash rewrite need a literal backslash, which `normalize_text` has already removed. So only '—' and '~' are ever rewritten (Normalizer.LaterSubsIdle).
- `evaluate_hybrid_performance` dereferences the ML model for every name it filters, even when none was given. Given a non-empty list and no model, the model reports a failure (MlClassifier.EvaluateHybridPerformance); an empty list never reaches the lookup.

Where the repository's tests disagree with the code, the model follows the code:

- `tests/test_security.py:75` expects "test___file.jpg" for "test/../file.jpg". The code keeps the dots: "test_.._file.jpg" (Security.SanitizeExamples).
- `tests/test_security.py:39-41` expects "/etc/passwd" to be rejected. `lstrip('/')` runs first, so the check never fires (Security.CheckRelPathAbsolute).
- `tests/test_integration.py:64-76` expects a list from `resolve_wells`. `app/main.py:337` returns a dictionary.
- `app/main.py:501` calls `build_grouped_data` with four arguments, but `app/grouping.py:78` declares two. The model takes the granularity and tolerance as parameters.
