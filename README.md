# Lenient diff-payload parsing and chart rules of the financial audit-log anomaly detector

The repository scores financial audit-log records for anomalousness and draws charts for an analyst.
Its hand-written logic sits in two places, and this Dafny project models both:

- `data/preprocessing.py` derives the `valor_transferencia` column. It applies a lenient parser row by row
  to the `key=value|key=value` payload in `dados_novos`. Only rows whose `tabela` is `"transferencia"` are
  parsed. The first `|`-token that starts with `valor=` is read, and the text between its first and second
  `=` goes to `float()`. Every failure yields a missing value. The column is added to a copy of the table,
  and only when both the `tabela` and `dados_novos` columns exist.
- `visualization/financial_charts.py` holds a second, different parser (`extract_value`). It also holds
  the rules behind the charts:
  - a login outcome from the `SUCESSO` substring;
  - the per-user error rate and the 0.5 highlight threshold;
  - the default-0 score lookup;
  - the 24 hourly login counts and the business-hours split;
  - the per-operation anomaly summary, sorted by percentage.

Modules:

- `Wrappers` (wrappers.dfy) has `Option` and `Result`.
- `PyStr` (pystr.dfy) models Python's `str.split` with a one-character separator exactly. Empty tokens are
  kept, so `"".split("|") == [""]`. It also models `sep.join`, `startswith` and the substring `in`.
- `Cells` (cells.dfy) has the pandas cell type and `FloatParser`. Python's `float()` on a string is a
  parameter `parse: string -> Option<real>`, and every property holds for all such parsers.
- `Preprocessing` (preprocessing.dfy) has the transfer-value parser and its reference reading of the raw
  payload. It also has the `Frame` class, the table that `preprocess` copies and extends.
- `PreprocessingExamples` (preprocessing.dfy) has the edge cases as lemmas.
- `FinancialCharts` (financial_charts.dfy) has the chart rules.
- `ParserDivergence` (divergence.dfy) states where the two parsers agree and where they differ.

Three details of the preprocessing parser decide its results:

- The key test is `part.startswith('valor=')` on the raw token. It is case-sensitive, with no trimming and
  no parsing of the key.
- The number text lies between the first and second `=`, so `"valor=10=3"` gives `10`.
- Only the first matching token is consulted. A failed parse of that token ends the search, because the
  `try` encloses the whole loop.

## Model

| member | source | states |
|---|---|---|
| `PyStr.Split` | data/preprocessing.py:18 | every token of `s.split(sep)` is free of `sep`, and there is always at least one token |
| `PyStr.JoinSplit` | data/preprocessing.py:18 | joining the split tokens with the same separator gives back the original string |
| `PyStr.SplitJoin` | data/preprocessing.py:18 | splitting a join of separator-free tokens gives back the tokens |
| `PyStr.SplitSecond` | data/preprocessing.py:21 | when the separator occurs, index 1 of the split exists and is the text between the first and second separator |
| `PyStr.ContainsIff` | visualization/financial_charts.py:10 | the substring test `needle in hay` holds exactly when `needle` occurs at some position of `hay` |
| `Preprocessing.FirstValorToken` | data/preprocessing.py:19-21 | the loop returns at the first token starting with `valor=`; no earlier token starts with it; `None` means no token does |
| `Preprocessing.FirstValorTokenIs` | data/preprocessing.py:19-21 | when token `i` is the first to start with `valor=`, the loop stops exactly there |
| `Preprocessing.FirstValorTokenNone` | data/preprocessing.py:19-24 | with no token starting with `valor=`, the loop falls through |
| `Preprocessing.ValorNumberText` | data/preprocessing.py:20-21 | on a `valor=` token, `part.split('=')[1]` always exists, so `IndexError` cannot happen; it is the text after `valor=` up to the next `=` or the end |
| `Preprocessing.ExtractTransferValue` | data/preprocessing.py:14-24 | a row whose `tabela` is not exactly `"transferencia"` gives `None`; a payload that is not a string (missing, NaN, number) gives `None`; the function is total, so it never raises |
| `Preprocessing.ValorFoundAt` | data/preprocessing.py:16-23 | on a transfer row, the result is `float()` of the number text of the FIRST `valor=` token; later tokens are never consulted |
| `Preprocessing.NoValorToken` | data/preprocessing.py:18-24 | a payload with no `\|`-token starting with `valor=` gives `None` |
| `Preprocessing.LoneValorToken` | data/preprocessing.py:18-21 | a payload without `\|` that starts with `valor=` is read as that single token |
| `Preprocessing.LeadingValorToken` | data/preprocessing.py:18-21 | a payload whose first token starts with `valor=` is read from that token alone, whatever follows the `\|` |
| `Preprocessing.SkipNonValorToken` | data/preprocessing.py:19-20 | a leading token that does not start with `valor=` is skipped: the payload gives the same value as the text after its `\|` |
| `Preprocessing.RawValorTextAgrees` | data/preprocessing.py:18-21 | the split-and-search finds the same number text as a direct scan of the raw payload |
| `Preprocessing.TransferValueFromRawPayload` | data/preprocessing.py:14-24 | a transfer row's value is `float()` of the raw scan's number text, and `None` when the scan finds none |
| `Preprocessing.Frame.Copy` | data/preprocessing.py:10 | `df.copy()` is a fresh table with the same columns and rows |
| `Preprocessing.Frame.AssignColumn` | data/preprocessing.py:25 | assigning a column overwrites it if present, else appends it; each row gets its own value; the row count is unchanged; the table stays well formed |
| `Preprocessing.TransferColumn` | data/preprocessing.py:25 | the derived column has one cell per row |
| `Preprocessing.TransferColumnAt` | data/preprocessing.py:14-25 | cell `i` of the derived column is what `extract_transfer_value` gives row `i` (the helper `TransferCell`), with `None` stored as a missing cell |
| `Preprocessing.TransferColumnAppend` | data/preprocessing.py:25 | the column is computed row by row: appending a row appends exactly that row's cell |
| `Preprocessing.ApplyTransferExtraction` | data/preprocessing.py:25 | the row-by-row application computes exactly the derived column |
| `Preprocessing.DeriveTransferValue` | data/preprocessing.py:10-25 | the result is a fresh copy; `valor_transferencia` is added only when `tabela` and `dados_novos` are both columns, otherwise the copy equals the input; the caller's table is not modified |
| `PreprocessingExamples.TrailingEqualsIgnored` | data/preprocessing.py:21 | `"valor=10=3"` parses `"10"` |
| `PreprocessingExamples.FirstValorFailureIsFinal` | data/preprocessing.py:16-23 | `"valor=abc\|valor=5"` gives `None` when `"abc"` does not parse |
| `PreprocessingExamples.PayloadWithoutValorKey` | data/preprocessing.py:18-24 | `""`, `"garbage"` and `"tipo=x"` give `None` |
| `PreprocessingExamples.EmptyNumberText` | data/preprocessing.py:21-23 | `"valor="` passes the empty string to `float()` and gives `None` |
| `PreprocessingExamples.KeyMatchIsExact` | data/preprocessing.py:20 | `"Valor=5"` and `" valor=5"` give `None`: the key match is case-sensitive and untrimmed |
| `FinancialCharts.ExtractValue` | visualization/financial_charts.py:66-73 | a missing or non-string payload gives `None`, as does a payload without `\|` (even `"valor=5"`); it never raises |
| `FinancialCharts.ExtractValueSpec` | visualization/financial_charts.py:69-73 | only the text before the first `\|` is read; the result is `float()` of what lies between its first and second `=`, and `None` when it has no `=` |
| `FinancialCharts.FirstTokenKeyIgnored` | visualization/financial_charts.py:70-71 | for `key=num\|rest`, whatever the key, the result is `float()` of `num` cut at any further `=` |
| `FinancialCharts.ScoreColumn` | visualization/financial_charts.py:80-81 | one score per index label, in order: `scores[idx]` when `idx < len(scores)`, else 0 (the lambda is the helper `ScoreAt`) |
| `FinancialCharts.ScoresCoverLabels` | visualization/financial_charts.py:80-81 | when every label is within the score array, each row gets its own score and the default is never used |
| `FinancialCharts.ClassifyLogin` | visualization/financial_charts.py:9-10 | a description gives `Sucesso` iff it contains `SUCESSO` (case-sensitive), else `Erro`; a non-string description raises `TypeError` |
| `FinancialCharts.ClassifyLogins` | visualization/financial_charts.py:9-10 | the whole column classifies iff every description is a string; results are in row order, one per row |
| `FinancialCharts.UserKeys` | visualization/financial_charts.py:17 | the group keys are every user once, in ascending order |
| `FinancialCharts.TallyNonEmpty` | visualization/financial_charts.py:17 | every grouped user has at least one attempt, so the rate's denominator is never 0 |
| `FinancialCharts.CountAbsentOutcome` | visualization/financial_charts.py:17 | an outcome that no login has is filled with 0 for every user |
| `FinancialCharts.TallyByUser` | visualization/financial_charts.py:17 | one row per user in ascending order, holding that user's success and error counts, never both 0 |
| `FinancialCharts.Rate` | visualization/financial_charts.py:28-29 | the error rate lies in [0, 1], and it is above 0.5 iff the user has more errors than successes |
| `FinancialCharts.ErrorRates` | visualization/financial_charts.py:27-31 | as written: raises `KeyError('Sucesso')` exactly when some login failed and none succeeded; otherwise one rate per user |
| `FinancialCharts.ErrorRatesFixed` | visualization/financial_charts.py:27-31 | the intended rates: one per user, in [0, 1], above 0.5 iff that user has more errors than successes |
| `FinancialCharts.ErrorRatesAgree` | visualization/financial_charts.py:27-31 | outside the all-failures case, the code as written computes the intended rates, including 0 when there is no `Erro` column |
| `FinancialCharts.AllFailuresRaise` | visualization/financial_charts.py:27-29 | every log in which some login failed and none succeeded makes the code raise `KeyError('Sucesso')`, where the intended rate of every user is 1.0 |
| `FinancialCharts.SingleFailedLogin` | visualization/financial_charts.py:27-29 | one failed login by user 7 raises `KeyError('Sucesso')`; the intended rates are `[1.0]` |
| `FinancialCharts.HighlightedUsers` | visualization/financial_charts.py:42-46 | the loop marks exactly the positions whose rate is strictly above 0.5, in increasing order |
| `FinancialCharts.HighlightedUsersOf` | visualization/financial_charts.py:42-46 | over the corrected rates of `ErrorRatesFixed`, a user is highlighted iff they have more failed than successful logins (on all-failure input the code as written raises first) |
| `FinancialCharts.HourCounts` | visualization/financial_charts.py:191-195 | exactly 24 counts; the count for hour `h` is the number of logins at `h`, and 0 for hours without logins |
| `FinancialCharts.HourCountsTotal` | visualization/financial_charts.py:191-195 | the 24 counts add up to the number of logins that have an hour |
| `FinancialCharts.LoginHourTable` | visualization/financial_charts.py:194-202 | hours 0..23 in order, each with its count; 8..18 inclusive are business hours, every other hour is off-hours (the conditional at lines 201-202 is the helper `HourTypeOf`) |
| `FinancialCharts.CountAnomalies` | visualization/financial_charts.py:137 | the `-1` labels in a group never outnumber the group |
| `FinancialCharts.Keys` | visualization/financial_charts.py:135 | each operation type once, exactly those in the log |
| `FinancialCharts.Percent` | visualization/financial_charts.py:140-142 | the anomaly percentage lies in [0, 100] |
| `FinancialCharts.GroupByOperation` | visualization/financial_charts.py:135-142 | one row per operation type: its row count, its `-1` count and its percentage, with 1 <= total and anomalies <= total |
| `FinancialCharts.SortByPercent` | visualization/financial_charts.py:145 | the result is a permutation of the rows, ordered by non-increasing percentage |
| `FinancialCharts.AnomalySummary` | visualization/financial_charts.py:127-145 | an empty figure exactly when the prediction count differs from the row count; otherwise `ValueError` exactly when the score count differs from the row count; otherwise the groups, as a permutation, ordered by non-increasing percentage |
| `FinancialCharts.AnomalySummaryRows` | visualization/financial_charts.py:135-145 | every summary row is well formed and counts its own group; every operation type has exactly one row |
| `ParserDivergence.AgreeOnLeadingValor` | visualization/financial_charts.py:70-71 | on a payload with a `\|` whose first token is the `valor=` pair, both parsers give the same value |
| `ParserDivergence.DisagreeWithoutPipe` | visualization/financial_charts.py:70-71 | a lone `valor=` pair without `\|` is parsed by the preprocessing parser and gives `None` in the charts |
| `ParserDivergence.LoneValorPair` | visualization/financial_charts.py:70 | `"valor=5"` gives `float("5")` in preprocessing and `None` in the charts |
| `ParserDivergence.OtherKeyFirst` | visualization/financial_charts.py:70-71 | for `key=num\|valor=v`, as in `"tipo=x\|valor=5"`: preprocessing parses `v`, the charts parse `num` |

## Left out

- `get_dummies(drop_first=True)`, `SimpleImputer` and `StandardScaler` (data/preprocessing.py:27-32) are left out. So are the feature selection `df_processed[features]` and the `@st.cache_data` decorator. They are library calls whose source is not part of this model, and they work in floating point.
- Python's `float()` grammar (`"inf"`, `"nan"`, whitespace, underscores) is left out. It is the `FloatParser` parameter, so a parse that returns NaN is kept as a number, not as a missing cell.
- `Preprocessing.DeriveTransferValue`: for a table with no rows, the model adds an empty column. What pandas' `apply(axis=1)` does on an empty frame is library behaviour this model does not capture.
- algorithms/isolation_forest.py, visualization/explainability.py, visualization/charts.py, data/loader.py and app.py are not part of this model. They are randomised or floating-point library wrappers, HTTP, plotting and UI wiring.
- `FinancialCharts.AnomalySummary`: only the length of `scores` is used. The score values are stored in a column that the summary never reads.
- All matplotlib drawing is left out. So is the float quantile threshold for annotations (visualization/financial_charts.py:98-106) and the bar labels (158-166). The empty figure is the `EmptyFigure` value.
- The row filters on `tabela` (visualization/financial_charts.py:8, 63, 184) are taken as given: the modelled chart rules receive the login or transfer rows already selected.
- The `dropna(subset=['valor'])` filter (visualization/financial_charts.py:76) is left out. It only feeds the scatter plot.
- `pd.to_datetime(...).dt.hour` is left out. Hours arrive as given values 0..23, and a missing timestamp (`NaT`) is `None`.
- `FinancialCharts.ScoreColumn`: index labels are non-negative. The table carries a default `RangeIndex`, so Python's negative indexing never applies.
- The `userId` to `user_id` fallback (visualization/financial_charts.py:13-14) is a column rename. It is left out, and user ids are non-missing integers.
- `FinancialCharts.GroupByOperation`: `count('id')` is taken to equal the group size, because every log record has an id. Rows whose `tipo_operacao` is missing, which pandas drops from the groups, are not modelled.
- `FinancialCharts.Rate` and `FinancialCharts.Percent` compute in exact reals, while Python computes in doubles. Rounding is monotone, so the [0, 1] and [0, 100] bounds and the `> 0.5` test give the same answers for any realistic row count, but the model does not state the rounded values.
- `FinancialCharts.SortByPercent`: pandas' default sort is not stable. The contract fixes only the permutation and the non-increasing order, not the order of ties.
- Groups are built in first-seen order and then sorted. pandas sorts the keys before `sort_values`; that only affects ties, which the contract leaves open.
- The chart functions assign columns to their own local frames (`resultado`, `taxa_erro`, `valor`, `anomaly_score`, `hora`). These frames are modelled as value sequences, since no caller can see them. `FinancialCharts.HighlightedUsers` returns the highlighted positions instead of recolouring tick labels.

## Findings

| source | as written | input that shows it | evidently intended | confidence | as-written member | corrected member |
|---|---|---|---|---|---|---|
| visualization/financial_charts.py:27-29 | the rate reads `user_login_counts['Sucesso']` whenever an `Erro` column exists, but the unstacked table has a `Sucesso` column only if some login succeeded | login rows that all lack `SUCESSO`, e.g. one failed login by user 7 (`FinancialCharts.SingleFailedLogin`) | every such user has error rate 1.0 and is highlighted | high, not executed | `FinancialCharts.AllFailuresRaise` | `FinancialCharts.ErrorRatesFixed` |
