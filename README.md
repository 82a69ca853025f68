# AutoInsight core, modelled in Dafny

AutoInsight is a Streamlit application that lets a user upload a table,
clean it, analyse it and buy a bigger package. This project models the
decision logic at its centre and proves properties of it:

- **DataCleaner** (`core/cleaner.py`). It covers:
  - the missing-value summary;
  - the four-way column typing;
  - `handle_missing`: the threshold drop, then the auto, drop, mean, median, mode or forward_fill strategies;
  - IQR and z-score outlier detection;
  - the cleaning report.

  A frame is a `Tables.Table`: a row count and columns of typed, possibly
  missing cells. The class `Cleaner.DataCleaner` keeps the frame and the report
  as fields. Its methods update them with the source's loops, and each method
  is proved against the specification functions of module `Cleaning`.
- **DataAnalyzer** (`core/analyzer.py`). It covers:
  - the column lists by dtype;
  - the descriptive-statistics table;
  - the categorical summaries;
  - the strong-correlation list and its strength labels;
  - the size of the variance table;
  - the gating of the normality tests;
  - the trend rule;
  - the generated insights.

  `Analyzer.DataAnalyzer` runs the loops; module `Analysis` holds the
  functions they are proved to compute, and the properties of those functions.
- **StudentVerification** (`student_verification.py`). It covers:
  - the university-domain tables;
  - the e-mail rule, including the university name derived from the matching domain;
  - the document upload checks;
  - the student discount table.
- **AuthManager** (`auth.py`, local store). It covers:
  - registration;
  - login;
  - package update;
  - usage counting.

  The users file is the field `users: map<string, User>`. The password hash is
  a parameter of the class: any function, assumed injective only where a lemma
  says so.
- **PaymentManager** (`payments.py`). It covers:
  - the PRICES table;
  - the choice of price key for a checkout;
  - the request a checkout hands to Stripe;
  - how `verify_subscription` reads the package back;
  - the data limit shown per package.

  Stripe's answers are inputs.
- **PACKAGE_INFO** and `get_package_info` (`__init__.py`).

Missing cells are `Option` values. Real numbers are Dafny `real`s, which are
exact. pandas' mean, median, quantile, variance and mode are written out as
functions of the present values. Correlation coefficients, Shapiro-Wilk
results, regression slopes, clock readings and Stripe replies are parameters.

## Model

| member | source | states |
|---|---|---|
| Cleaner.DataCleaner.constructor | core/cleaner.py:13-15 | the cleaner starts from the given frame and an empty report |
| Cleaner.DataCleaner.AnalyzeMissing | core/cleaner.py:17-35 | returns the missing-value summary of the current frame, records it under missing_analysis, and leaves the frame unchanged |
| Cleaning.MissingStatsBounds | core/cleaner.py:19-22 | the missing cell count is at most the frame's size, and the missing percentage lies in [0, 100] |
| Cleaning.MissingCellsAreListed | core/cleaner.py:21-32 | missing_cells equals the sum of the per-column counts listed in columns_with_missing |
| Cleaning.ColumnsWithMissingExact | core/cleaner.py:26-32 | columns_with_missing lists exactly the columns with a missing cell, in column order, each with its count and its percentage of the rows |
| Cleaner.ScanMissing | core/cleaner.py:19-33 | the loop over the columns produces the summary the frame determines: size, missing cells, their percentage and one entry per column with a missing cell, in column order |
| Cleaning.ColumnsWithMissingLength | core/cleaner.py:26-32 | columns_with_missing has at most one entry per column |
| Cleaning.MissingEntrySound | core/cleaner.py:26-32 | each entry names a column with that many (and at least one) missing cells, and its percentage is of the row count |
| Cleaning.MissingEntryListed | core/cleaner.py:26-32 | a column with a missing cell has its entry in columns_with_missing |
| Cleaning.MissingCountBound | core/cleaner.py:27 | a column's missing count is at most the row count |
| Cleaning.PercentBound | core/cleaner.py:31 | a count of at most n, taken as a percentage of n, lies in [0, 100] |
| Cleaning.TotalMissingBound | core/cleaner.py:21 | the frame's missing cells number at most rows times columns |
| Cleaner.DataCleaner.DetectColumnTypes | core/cleaner.py:37-61 | each column's name goes to the datetime, numeric, categorical or text list by the source's rule; the lists are recorded under column_types |
| Cleaning.TypeInfoExact | core/cleaner.py:46-58 | each column's name is listed under its own type and no other, and the four lists together have one entry per column |
| Cleaning.TypeInfoCount | core/cleaner.py:46-58 | the four lists together hold exactly one name per column |
| Cleaning.TypeInfoSound | core/cleaner.py:46-58 | a name listed under a type belongs to a column classified as that type |
| Cleaning.TypeInfoListed | core/cleaner.py:46-58 | every column's name is listed under the type it is classified as |
| Cleaning.SmallFrameIsCategorical | core/cleaner.py:54 | in a frame of fewer than 20 rows, every column that is neither datetime nor numeric is categorical |
| Cleaner.DataCleaner.HandleMissing | core/cleaner.py:63-120 | drops the columns over the threshold, then applies the strategy; the new frame and the report entry are those of Cleaning's specification of handle_missing |
| Cleaner.DataCleaner.FillAuto | core/cleaner.py:82-90 | the auto loop fills, in place, each column that has a missing cell, as AutoFill specifies |
| Cleaner.DataCleaner.FillMode | core/cleaner.py:102-106 | the mode loop fills columns with their first mode and stops at the first wholly missing column, reporting its position |
| Cleaning.KeptColumnsExact | core/cleaner.py:71-79 | a column is kept exactly when its missing ratio is at most the threshold, and dropped by name otherwise; kept and dropped together account for every column |
| Cleaning.KeptDroppedCount | core/cleaner.py:71-79 | the kept columns and the dropped names together number the columns |
| Cleaning.DroppedByName | core/cleaner.py:71-79 | with distinct names, a column's name is in dropped_columns exactly when its missing ratio exceeds the threshold |
| Cleaning.KeptColumnsWellFormed | core/cleaner.py:75-76 | keeping a subset of the columns, in order, keeps the frame well formed |
| Cleaning.IndicesSplit | core/cleaner.py:75 | when dropping is the negation of keeping, the kept and the dropped positions together number exactly the columns |
| Cleaning.FillCellsSpec | core/cleaner.py:86-106 | fillna(v) keeps the length and every present cell, puts v in every missing cell, and leaves no cell missing |
| Cleaning.AutoFillSpec | core/cleaner.py:82-90 | numeric columns get their median, other columns their first mode or 'Unknown' when they hold no value; afterwards nothing is missing except in a wholly missing numeric column |
| Cleaning.AutoFillTyped | core/cleaner.py:82-90 | after the auto fill every value still fits the column's dtype |
| Cleaning.NumericFillSpec | core/cleaner.py:95-100 | mean and median leave columns that are not numeric unchanged, and remove every missing cell from a numeric column that has a value |
| Cleaning.ModeFillSpec | core/cleaner.py:102-106 | on a column the mode strategy does not fail on, the fill keeps the present cells and the dtype, and puts the first mode in every missing cell |
| Cleaning.ModeFillTyped | core/cleaner.py:102-106 | after the mode fill every value still fits the column's dtype |
| Cleaning.FirstModeFailure | core/cleaner.py:102-106 | the position where the mode strategy fails is that of the first non-empty, wholly missing column, or the column count when there is none |
| Cleaning.ModeFailsIff | core/cleaner.py:104-106 | the mode strategy fails on a column exactly when the column is non-empty and has no present value |
| Cleaning.FFill | core/cleaner.py:108-109 | forward fill keeps the column's length |
| Cleaning.FFillFrom | core/cleaner.py:108-109 | forward fill from a carried value keeps the column's length |
| Cleaning.FFillFromSource | core/cleaner.py:108-109 | each filled cell is copied from a present cell at or before it, or is the carried value when there is none |
| Cleaning.FFillNearest | core/cleaner.py:108-109 | each cell gets the value of the nearest present cell at or before it; a cell with none before it stays missing |
| Cleaning.FFillTyped | core/cleaner.py:108-109 | after forward fill every value still fits the column's dtype |
| Cleaning.DropIncompleteRowsSpec | core/cleaner.py:92-93 | dropna() keeps exactly the complete rows, in their order, and leaves no cell missing; names and dtypes are unchanged |
| Cleaning.DropIncompleteRowsWellFormed | core/cleaner.py:92-93 | dropping the incomplete rows keeps the frame well formed |
| Cleaning.KeptFitting | core/cleaner.py:75-76 | the columns left by the threshold step still have one cell per row |
| Cleaning.HandleSpec | core/cleaner.py:63-120 | defines handle_missing: the threshold drop, then the strategy (auto, drop, mean or median, mode, forward_fill, anything else leaves the frame), with the mode failure as a result; its properties are the HandleSpec* and Handle* lemmas |
| Cleaning.HandleSpecWellFormed | core/cleaner.py:63-112 | every strategy leaves a well-formed frame: columns of equal length, typed, with distinct names |
| Cleaning.AutoFilledWellFormed | core/cleaner.py:82-90 | the auto strategy keeps every column typed, named and sized as before |
| Cleaning.NumericFilledWellFormed | core/cleaner.py:95-100 | the mean and median strategies keep every column typed, named and sized as before |
| Cleaning.ModeFilledWellFormed | core/cleaner.py:102-106 | the mode strategy keeps every column typed, named and sized as before |
| Cleaning.FFilledWellFormed | core/cleaner.py:108-109 | forward fill keeps every column typed, named and sized as before |
| Cleaning.HandleKeepsKeptColumns | core/cleaner.py:75-112 | every strategy keeps the columns that passed the threshold step, by name and in order |
| Cleaning.HandleDropSpec | core/cleaner.py:92-93 | drop leaves no missing cell, and exactly the complete rows of the surviving columns, in order |
| Cleaning.HandleModeSpec | core/cleaner.py:102-106 | a mode run fails exactly when some surviving column is non-empty and wholly missing, and then names the first such column |
| Cleaning.HandleUnknownSpec | core/cleaner.py:82-112 | a strategy name outside the six fills nothing: only the threshold step happens, and the run completes |
| Cleaning.IsOutlier | core/cleaner.py:133-143 | defines the two rules: outside the Tukey fences Q1 - 1.5 IQR and Q3 + 1.5 IQR for iqr, and a squared deviation above 9 times the sample variance (abs z > 3) for zscore; any other method flags nothing |
| Cleaning.OutliersOf | core/cleaner.py:122-153 | defines detect_outliers' result: none when a numeric column meets an unknown method, otherwise the flagged numeric columns in column order; stated by OutlierEntriesSound, OutlierEntriesComplete and ScanOutliers |
| Cleaner.DataCleaner.DetectOutliers | core/cleaner.py:122-153 | records under outliers the numeric columns that have flagged cells; an unknown method fails once a numeric column is reached |
| Cleaning.OutlierEntrySpec | core/cleaner.py:145-150 | a column's entry exists only for a numeric column; it carries the column's name and flagged count, which lies in (0, rows], and a percentage in [0, 100] |
| Cleaning.OutlierEntriesSound | core/cleaner.py:129-150 | every entry is a numeric column with at least one and at most all of its rows flagged |
| Cleaning.OutlierEntriesComplete | core/cleaner.py:129-150 | every numeric column with a flagged cell has its entry |
| Cleaning.OutlierEntryListed | core/cleaner.py:129-150 | a numeric column with a flagged cell has its entry in the result |
| Cleaner.ScanOutliers | core/cleaner.py:129-150 | the loop gives no result when a numeric column meets a method other than iqr and zscore, and otherwise the entries of the flagged numeric columns in column order |
| Cleaning.FlagCountBound | core/cleaner.py:145 | the flagged count is at most the number of cells |
| Cleaning.FlagCountZero | core/cleaner.py:145 | a column none of whose values is flagged has count 0 |
| Cleaning.InterquartileNotFlagged | core/cleaner.py:133-139 | a value between Q1 and Q3 is never flagged by the IQR rule |
| Cleaning.ConstantQuantile | core/cleaner.py:134-135 | every quantile of a constant column is that constant |
| Cleaning.ConstantColumnNoOutliers | core/cleaner.py:133-143 | a column whose values are all equal has no outliers under either rule |
| Cleaning.NumValuesMembers | core/cleaner.py:131 | every present number of the column is in the numeric sample |
| Cleaning.SumCountsAppend | core/cleaner.py:21 | the per-column missing counts add up over a split of the columns |
| Cleaning.WellFormedFitting | core/cleaner.py:13-15 | each column of a well-formed frame has as many cells as the frame has rows |
| Cleaning.PresentLength | core/cleaner.py:54 | a column has at most as many present values as cells |
| Cleaner.DataCleaner.GetCleanedData | core/cleaner.py:165-167 | returns the current frame and changes nothing |
| Cleaner.DataCleaner.GetReport | core/cleaner.py:169-171 | returns the current report and changes nothing |
| Tables.Mode | core/cleaner.py:104 | mode()[0] is a present value that occurs at least as often as any other, and is the least such value; it is None exactly when no value is present |
| Tables.FirstModeUnique | core/cleaner.py:104 | there is only one first mode |
| Tables.FirstModeOccurs | core/cleaner.py:104 | the first mode occurs in the column |
| Tables.Distinct | core/analyzer.py:66 | the distinct values are exactly the input's values, without repeats |
| Tables.PresentFits | core/cleaner.py:127-131 | every present value of a typed column has the column's dtype |
| Stats.QuantileBounds | core/cleaner.py:134-135 | every quantile lies between the least and the greatest value |
| Stats.QuantileMonotone | core/cleaner.py:134-135 | the quantile is monotone in q, so Q1 is at most Q3 |
| Stats.MeanBounds | core/cleaner.py:97-98 | the mean lies between the least and the greatest value |
| Stats.ConstantVariance | core/cleaner.py:142-143 | a constant column has that value as its mean and variance zero |
| Stats.SortAsc | core/cleaner.py:134-135 | the values in ascending order: sorted, and a permutation of the input |
| Stats.FiveNumberOrder | core/analyzer.py:43 | describe()'s order: min <= 25% <= 50% <= 75% <= max |
| Analyzer.DataAnalyzer.constructor | core/analyzer.py:14-18 | the three name lists are select_dtypes of the frame, in column order |
| Analyzer.DataAnalyzer.ColumnListsPartition | core/analyzer.py:16-18 | a column's name is in exactly the list of its dtype |
| Analysis.OfKindPartition | core/analyzer.py:16-18 | every column is selected under its own dtype and under no other |
| Analysis.OfKindDistinct | core/analyzer.py:16-18 | the selected columns keep their order, so their names stay distinct |
| Analysis.OfKindEmpty | core/analyzer.py:16-18 | nothing is selected for a dtype exactly when no column has it |
| Analyzer.DataAnalyzer.ListedIff | core/analyzer.py:16-18 | a column's name is in the list of a dtype exactly when the column has that dtype |
| Analyzer.KindListed | core/analyzer.py:16-18 | a column of a dtype has its name in that dtype's list |
| Analyzer.ListedKind | core/analyzer.py:16-18 | with distinct names, a name in a dtype's list belongs to a column of that dtype |
| Analysis.DescribeSpec | core/analyzer.py:43-56 | one table row: count plus missing is the row count, the percentage lies in [0, 100], the summary is ordered and present exactly when the column has a value, and the variance is non-negative |
| Analysis.SummaryOrdered | core/analyzer.py:43 | min <= 25% <= 50% <= 75% <= max, with the mean between min and max |
| Analysis.VarianceNonNegative | core/analyzer.py:46 | the variance is never negative |
| Analysis.DescriptiveStatisticsSpec | core/analyzer.py:40-56 | the table is empty exactly when there is no numeric column; otherwise its rows follow the numeric columns |
| Analyzer.DataAnalyzer.CategoricalAnalysis | core/analyzer.py:58-73 | the loop builds one summary per categorical column, in column order |
| Analyzer.CategoricalNames | core/analyzer.py:58-73 | the entries are named after the categorical columns, in order |
| Analysis.ValueCounts | core/analyzer.py:63 | defines value_counts(): the distinct present values with their counts, most frequent first; stated by ValueCountsMembers and ValueCountsLength |
| Analysis.Summarize | core/analyzer.py:58-73 | defines one categorical_analysis entry: unique count, top five, most common value, its count and its share; stated by TopFiveSpec and MostCommonSpec |
| Analysis.TopFiveSpec | core/analyzer.py:63-67 | at most five value counts, all of present values, and no value left out is more frequent than one kept; the unique count is the number of distinct values |
| Analysis.MostCommonSpec | core/analyzer.py:68-70 | the most common value has the greatest count and the concentration is its share of the rows; a column without a value gives None, 0 and 0 |
| Analysis.ValueCountsMembers | core/analyzer.py:63 | the value counts list exactly the present values, each with its number of occurrences |
| Analysis.ValueCountsLength | core/analyzer.py:66 | there are as many value counts as distinct values |
| Analysis.CorrelationStrength | core/analyzer.py:108-119 | defines _correlation_strength: the cuts at 0.9, 0.7, 0.5 and 0.3, in that order; stated by StrengthMonotone |
| Analysis.StrengthMonotone | core/analyzer.py:108-119 | a larger absolute correlation never gets a weaker label |
| Analysis.StrengthLabelsDistinct | core/analyzer.py:108-119 | distinct strengths have distinct labels |
| Analyzer.DataAnalyzer.CorrelationAnalysis | core/analyzer.py:75-106 | the nested loops over i < j collect the pairs whose absolute correlation reaches the threshold, then sort them by descending absolute correlation |
| Analysis.PairsBeforeExact | core/analyzer.py:88-96 | the loops emit exactly the strong pairs (i, j) with i < j, at most one per pair of columns |
| Analyzer.CollectPairs | core/analyzer.py:88-96 | the nested loops collect the strong pairs (i, j), i < j, in loop order |
| Analyzer.CollectRow | core/analyzer.py:90-96 | the inner loop for row i collects the strong pairs (i, j) in order of j |
| Analysis.RowPairsCount | core/analyzer.py:90-96 | row i contributes at most one pair per later column |
| Analysis.PairsBeforeCount | core/analyzer.py:88-96 | the first n rows contribute at most the number of pairs i < j they contain |
| Analysis.StrongCorrelationsTri | core/analyzer.py:88-96 | the strong pairs are at most the pairs i < j of the columns |
| Analysis.StrongCorrelationsMembers | core/analyzer.py:88-104 | the list holds exactly the pairs i < j whose absolute correlation reaches the threshold; a NaN never does |
| Analysis.StrongCorrelationsCount | core/analyzer.py:90-91 | k columns give at most k(k-1)/2 strong pairs |
| Analysis.StrongCorrelationsOrder | core/analyzer.py:103-104 | the list is in descending absolute correlation, is a permutation of what the loops emit, and keeps the loops' order among equal values |
| Analysis.ReportedIffStrong | core/analyzer.py:93 | a pair is reported exactly when its absolute correlation is at or above the threshold |
| Sorting.SortDesc | core/analyzer.py:104 | the sort is descending by key and a permutation of its input |
| Sorting.SortDescStable | core/analyzer.py:104 | the sort is stable: each class of equal keys keeps its original order |
| Analysis.VarianceAnalysisSizeSpec | core/analyzer.py:121-137 | the variance table has at most one row per numeric column; it is empty when there is no numeric column, and non-empty when there is one and top_n is positive |
| Analyzer.DataAnalyzer.DistributionTests | core/analyzer.py:139-160 | each numeric column with at least three values gets its test outcome, in column order |
| Analysis.NormalityOf | core/analyzer.py:143-158 | defines one column's distribution_tests entry from its capped sample and the test's outcome; stated by NormalityEntriesSpec |
| Analysis.NormalityEntriesSpec | core/analyzer.py:143-158 | a column gets an entry exactly when it has at least three values; it is judged normal exactly when p > 0.05; the sample has at most 5000 values |
| Analyzer.TestColumns | core/analyzer.py:143-158 | the loop gives each numeric column with at least three values the outcome of its test, in column order |
| Analysis.DetectTrendAsWritten | core/analyzer.py:184-198 | defines _detect_trend as written, with the strict test abs(slope) < 0.01 * std; stated by ConstantSeriesNotFlatAsWritten |
| Analysis.ConstantSeriesNotFlatAsWritten | core/analyzer.py:193-198 | as written, a constant series (standard deviation 0) is never labelled flat, and a zero slope gives 'Azalan' |
| Analysis.DetectTrend | core/analyzer.py:184-198 | the corrected rule of the Findings row, flat when abs(slope) <= 0.01 * std; stated by DetectTrendSpec |
| Analysis.DetectTrendSpec | core/analyzer.py:184-198 | about the corrected rule of the Findings row (flat when abs(slope) <= 0.01 * std), not the cited lines as written: fewer than two points give 'Yetersiz veri'; otherwise a zero slope is flat, 'Artan' needs a positive slope and 'Azalan' a negative one |
| Analyzer.DataAnalyzer.GenerateInsights | core/analyzer.py:200-232 | the method builds, step by step, the list that Analysis.Insights specifies, with the correlations taken at threshold 0.7 |
| Analysis.Insights | core/analyzer.py:200-232 | defines generate_insights' list from the frame and the correlation matrix; stated by InsightsSpec, InsightListOrdered and InsightListRanks |
| Analysis.InsightsSpec | core/analyzer.py:200-232 | the list starts with the size summary, has one to five entries in a fixed order, and holds each later entry exactly when its condition holds |
| Analysis.InsightListOrdered | core/analyzer.py:205-230 | the list starts with the size summary and holds one to five insights in rank order |
| Analysis.InsightListRanks | core/analyzer.py:209-230 | each insight after the first is present exactly when its condition holds |
| StudentVerification.IsStudentEmail | student_verification.py:83-106 | defines is_student_email: normalise, search the Turkish domains in order, then the international ones; stated by StudentIffDomain, TurkishFirstWins, StudentIffUniversity and NormalizedVerdict |
| StudentVerification.UniversityName | student_verification.py:96-97 | defines the university name derived from a Turkish domain; stated by TurkishNameNonEmpty, PrefixedName and NotInternationalName |
| StudentVerification.VerifyWithDocument | student_verification.py:108-127 | defines verify_with_document's checks: file present, then MIME type, then at most 5 MiB; stated by DocumentChecks |
| StudentVerification.GetStudentPrice | student_verification.py:130-132 | defines get_student_price, the STUDENT_DISCOUNTS lookup; stated by StudentPriceSpec |
| StudentVerification.FirstMatch | student_verification.py:93-98 | the position of the first domain the test accepts, or None exactly when it accepts none |
| StudentVerification.NormalizeIdempotent | student_verification.py:90 | normalising twice is normalising once |
| StudentVerification.NormalizedVerdict | student_verification.py:90 | the verdict depends only on the lower-cased, stripped address |
| StudentVerification.TurkishMatchIsContains | student_verification.py:94 | the endswith test adds nothing: a Turkish domain matches exactly when '@' followed by it occurs in the address |
| StudentVerification.TurkishFirstWins | student_verification.py:93-98 | the first Turkish domain whose '@' form occurs decides: the answer is a student of the name derived from that domain, with the Turkish reason |
| StudentVerification.TurkishSearch | student_verification.py:93-98 | the Turkish search finds a domain exactly when some domain's '@' form occurs |
| StudentVerification.StudentIffDomain | student_verification.py:90-105 | an address is a student's exactly when a Turkish domain follows an '@' in it, or an international domain ends it after a dot or follows an '@' |
| StudentVerification.TurkishNameNonEmpty | student_verification.py:96-97 | every Turkish domain yields a non-empty university name |
| StudentVerification.StudentIffUniversity | student_verification.py:98-105 | the university is empty exactly when the address is not a student's |
| StudentVerification.NotInternationalName | student_verification.py:97-103 | a derived Turkish name is upper case, so it is never the international label |
| StudentVerification.PrefixedName | student_verification.py:96-97 | a domain pre + name + '.edu.tr', with pre one of std., ogr., stu., yields the upper-cased name |
| StudentVerification.BounName | student_verification.py:96-97 | the name derived from std.boun.edu.tr is BOUN |
| StudentVerification.BounExample | student_verification.py:90-98 | ad@std.boun.edu.tr is a student of BOUN with the Turkish reason |
| StudentVerification.DocumentChecks | student_verification.py:115-127 | a document is accepted exactly when it is a JPEG, PNG or PDF of at most 5 MiB; each refusal has its own message, and a PDF of exactly 5 MiB passes |
| StudentVerification.StudentPriceSpec | student_verification.py:69-80 | only pro and business have a student price; it is positive and below the original, and the stated percentage is within one point of the actual saving |
| Strings.StripIsSlice | student_verification.py:90 | strip() returns a contiguous part of its input with no whitespace at either end |
| Strings.StripIdempotent | student_verification.py:90 | strip() is idempotent |
| Strings.LowerIdempotent | student_verification.py:90 | lower() is idempotent |
| Strings.RemoveAbsent | student_verification.py:96 | replace(p, '') leaves a string without p unchanged |
| Strings.RemoveLeading | student_verification.py:96 | replace(p, '') removes a leading occurrence of p |
| Strings.EndsWithContains | student_verification.py:94 | a string that ends with p contains p |
| Auth.AuthManager.constructor | auth.py:24-36 | the store starts from the users the file holds |
| Auth.AuthManager.RegisterUser | auth.py:76-118 | the new store and the reply are those of Register on the old store |
| Auth.AuthManager.LoginUser | auth.py:178-195 | the new store and the reply are those of Login on the old store |
| Auth.AuthManager.UpdateUserPackage | auth.py:239-256 | the new store and the result are those of UpdatePackage on the old store |
| Auth.AuthManager.IncrementAnalysis | auth.py:258-279 | the new store is that of IncrementAnalysisCount on the old store |
| Auth.Register | auth.py:76-118 | defines _register_local on the store; stated by RegisterDuplicate, RegisterShortPassword, RegisterSuccess and RegisterStudentFields |
| Auth.Login | auth.py:178-195 | defines _login_local on the store; stated by LoginFailure and LoginSuccess |
| Auth.UpdatePackage | auth.py:239-256 | defines the local branch of update_user_package; stated by UpdatePackageSpec |
| Auth.IncrementAnalysisCount | auth.py:258-279 | defines the local branch of increment_analysis_count; stated by IncrementSpec |
| Auth.RegisterDuplicate | auth.py:80-82 | a known address is refused before the password is looked at, and nothing changes |
| Auth.RegisterShortPassword | auth.py:84-86 | a new address with a password under six characters is refused, and nothing changes |
| Auth.RegisterSuccess | auth.py:80-118 | registration succeeds exactly for a new address with a password of at least six characters; it then adds exactly that key (package free, the password's hash, creation time now, no login, zero counters) and leaves every other user unchanged; on failure nothing changes and no user is returned |
| Auth.RegisterStudentFields | auth.py:88-110 | the new record's student and verified flags are both the e-mail verdict, its university is that verdict's, and the university is empty exactly for a non-student |
| Auth.LoginFailure | auth.py:182-188 | an unknown address and a wrong password get the same refusal, and nothing changes |
| Auth.LoginSuccess | auth.py:185-195 | a successful login changes only that user's last_login, and returns the updated record |
| Auth.RegisterThenLogin | auth.py:178-195 | after a successful registration, logging in with the same password succeeds; with an injective hash, another password fails |
| Auth.UpdatePackageSpec | auth.py:248-256 | reports success exactly for a known address, and changes only that user's package |
| Auth.IncrementSpec | auth.py:271-276 | both counters of a known user rise by exactly one and its last analysis is now; an unknown address changes nothing |
| Auth.RegisterConsistent | auth.py:89-110 | registration keeps the store consistent: every record is stored under its own address, verified equals student, and a student has a university |
| Auth.UpdatesConsistent | auth.py:178-279 | login, package update and usage counting keep the store consistent |
| Payments.CheckoutKey | payments.py:81-84 | defines the price key a checkout looks up; stated by CheckoutKeySpec |
| Payments.CreateCheckout | payments.py:63-126 | defines create_checkout_session up to the Stripe call; stated by CheckoutRefusals, CheckoutContents, CheckoutDiscounts |
| Payments.VerifySubscription | payments.py:128-168 | defines verify_subscription on Stripe's answers; stated by VerifyDefaults, VerifyMissingMetadata and CheckoutVerifyRoundTrip |
| Payments.LimitMb | payments.py:517-518 | defines the limit_mb lookup with default 1; stated by LimitMbSpec |
| Payments.CheckoutKeySpec | payments.py:81-84 | the key is the package's student variant exactly for a student buying pro or business; otherwise it is the package |
| Payments.PurchasableKeys | payments.py:25-60 | exactly the four paid keys have a price id |
| Payments.CheckoutRefusals | payments.py:75-90 | a request is made exactly when Stripe is available and the key has a price id; never for free, and never for a name outside the table |
| Payments.CheckoutContents | payments.py:92-118 | a request charges the key's price id, attaches the coupon exactly for a student, carries the entry's discount or 0, and records the package as asked |
| Payments.CheckoutDiscounts | payments.py:103-108 | a student buying pro or business records 45 or 48 percent; a non-student records 0 |
| Payments.CheckoutVerifyRoundTrip | payments.py:103-163 | the subscription metadata a checkout writes, read back as the first active subscription, give back the key that checkout charged |
| Payments.VerifyDefaults | payments.py:135-153 | without Stripe, a customer or an active subscription, the answer is free |
| Payments.VerifyMissingMetadata | payments.py:155-160 | a subscription without package metadata counts as free; one without is_student counts as a non-student |
| Payments.StudentPrices | payments.py:25-60 | each student entry costs less than its base entry and records the base amount as its original amount |
| Payments.StudentPricesAgree | payments.py:25-60 | the student entries agree with STUDENT_DISCOUNTS, in cents and in percent |
| Payments.LimitMbSpec | payments.py:517-518 | a student variant has its base tier's limit, the three tiers agree with PACKAGE_INFO, and every other name gets 1 MB |
| Packages.GetPackageInfo | __init__.py:44-46 | defines get_package_info; stated by CaseInsensitive and LookupSpec |
| Packages.CaseInsensitive | __init__.py:44-46 | the lookup ignores ASCII case |
| Packages.UpperCaseExample | __init__.py:44-46 | get_package_info("PRO") is the pro record |
| Packages.LookupSpec | __init__.py:44-46 | a name whose lower-cased form is a tier gets that tier's record; any other name gets the free record; the result is always one of the three records |
| Packages.TierFeatures | __init__.py:23-42 | PDF export is missing exactly on free, and several files are allowed exactly on business |
| Packages.LimitsIncrease | __init__.py:23-42 | the size limit strictly increases from free to pro to business |

## Left out

- Reading and rendering: the file loader, and every Streamlit page (`APP.py`, the `show_*` functions). Also the command line (`cli.py`), the visualiser and the report generator. None of them decides anything the model states. The upload limits also disagree between `APP.py` and the loader.
- `DataCleaner.convert_dtypes`: it tries pandas conversions inside try/except, and its outcome depends on pandas' parsers.
- `DataAnalyzer.get_basic_stats` and `detect_time_patterns`: they only collect pandas values. The trend rule that `detect_time_patterns` uses, `_detect_trend`, is modelled as written (strict `<`) by `Analysis.DetectTrendAsWritten`. `Analysis.DetectTrend` is the corrected rule (`<=`) from the Findings table.
- `Analysis.DescribeSpec`: the standard deviation, skewness and kurtosis columns are not modelled, because they need square roots and floating point. The table's rounding to two decimals is not modelled either.
- `Analysis.StrongCorrelationsOrder`: the source sorts by the rounded |r|, the model by the exact |r|. Rounding is floating-point behaviour.
- `Analysis.NormalityOf`: `distribution_tests` rounds the statistic and the p-value to four places (core/analyzer.py:153-154). The model stores them unrounded, and judges normality on the unrounded p-value, as the source does.
- `Analysis.VarianceAnalysisSizeSpec`: only the size of the table is stated. Its row order comes from pandas' index alignment.
- Correlation coefficients, Shapiro-Wilk statistics, regression slopes and random sampling are inputs. The model states how the source uses them, not how numpy computes them.
- pandas 3: the model follows pandas 2.x. The chained `self.df[col].fillna(..., inplace=True)` calls of the auto and mode strategies (core/cleaner.py:87, 90, 106) change the frame there only without pandas 3's copy-on-write. `fillna(method='ffill')` (core/cleaner.py:109) no longer exists in pandas 3.
- The 'category' and bool dtypes: a column is numeric, datetime or object.
- `Tables.Mode`: pandas' mode breaks ties by the least value, and the model follows that. Values of different kinds are ordered by a fixed rank, numbers before timestamps before strings (`Tables.ValueLess`). Numbers before strings matches pandas' mixed sort. pandas cannot compare a number with a Timestamp, though: it warns and leaves such modes unsorted, in order of first occurrence. So an object column holding a timestamp and a number with equal counts is filled with the timestamp by pandas and with the number by the model.
- `Analysis.ValueCounts`: tied counts are placed in order of first occurrence. pandas does not promise any order for ties, and that order decides which values enter `top_5_values` when fifth place is tied.
- Exceptions that the source's own try/except blocks swallow are not modelled, with two exceptions. A failing Shapiro-Wilk test (core/analyzer.py:157-158) is the outcome `ShapiroOutcome.Raised`, which gives the entry `TestFailed`. A failing Stripe lookup in `verify_subscription` (payments.py:165-167) is `StripeLookup.LookupFailed`, which gives 'free'. Two uncaught failures are modelled as failure results: the mode strategy on a wholly missing column, and an unknown outlier method.
- `lower()` and `upper()` are modelled on ASCII letters only; other characters are left as they are. `strip()` removes Python's full `str.isspace` set (`Strings.IsSpace`).
- The Firebase branches of registration, login, package update and usage counting (`auth.py:120-161, 197-222`). `get_user_data` and `save_student_status` are not modelled either; they only read or write the store.
- The JSON users file (`auth.py:38-59`). It is the in-memory map `users`. The clock is a parameter `now`.
- `_hash_password`: SHA-256 is a parameter of the class. The round-trip lemma assumes it is injective.
- Stripe itself: the session URL returned by checkout, `cancel_subscription` and `get_subscription_info`. The model states the request that is handed to Stripe and how Stripe's answers are read.
- StudentVerification: the generic `edu.tr` entry matches only when `@edu.tr` occurs in the address. That covers `x@edu.tr`, but also `x@edu.tr.example.com` and `x@edu.track.io`, both students of `EDU`. So `x@unknown.edu.tr` is not a student. The model keeps this behaviour (`StudentVerification.TurkishMatchIsContains`).

## Findings

| source | as written | input that shows it | evidently intended | confidence | as-written member | corrected member |
|---|---|---|---|---|---|---|
| core/analyzer.py:193-198 | a series is flat only when abs(slope) < 0.01 * std, strictly | a constant series such as [5, 5, 5]: std is 0, the slope is 0, and the label is 'Azalan' (decreasing) | a constant series is 'Sabit' (flat), i.e. abs(slope) <= 0.01 * std | not executed | Analysis.ConstantSeriesNotFlatAsWritten | Analysis.DetectTrendSpec |
