# check-coverage in Dafny

This Dafny model covers the coverage-evaluation core of the check-coverage GitHub Action, found in `index.js`. The action is meant to compare the Clover XML coverage report of a pull request with that of the base branch. It turns a report into a metric with four categories: statements, lines, methods and branches. Each category has a total, a covered count and a rate. From two metrics it decides a commit status, and it can render a markdown comment with a badge.

As written, `run()` (index.js:225-261) does less than that design:
- Both metrics come from `clover_file`. Line 240 starts the baseline from the current report. When `original_clover_file` exists, line 242 reads `cloverFile` again.
- `run()` never calls `createStatus` or `generateTable`. It passes the status description to `core.setFailed` when the state is "failure" and to `core.setOutput` otherwise (lines 253-257).

The model covers the functions `run()` builds on, each as index.js defines it.

Modules, one per area of the source:

| module | models |
|---|---|
| `Coverage` (coverage.dfy) | `calcRate`, `readMetric`: rates in hundredths of a percent, rounded half up |
| `Status` (status.dfy) | `generateStatus`: the intended regression rule, proved, and the code as written, with its defects exhibited |
| `Comment` (comment.dfy) | `generateCommentHeader`, `generateEmoji`, `generateBadgeUrl`, `generateInfo`, `generateTable` |
| `Config` (config.dfy) | `toBool`, `toInt`, `loadConfig` over a map of action inputs |
| `Webhook` (webhook.dfy) | `parseWebhook` over an event whose fields may be absent |
| `Decimal` (decimal.dfy) | how JavaScript prints counts and two-decimal rates, with parsers that undo it |
| `Text`, `Wrappers` | splitting on a separator, joining lines; `Option`, `Result` |

Rates are natural numbers of hundredths: 95.5% is 9550. `CalcRate` rounds half up, which matches `toFixed(2)` for the exact quotient. `ReadMetric`, `GenerateStatus` (with `FailureDescription` and `CheckCategory`) and `LoadConfig` are methods, because the source builds their results step by step. Each method is proved equal to a specification function or to explicit field-by-field postconditions. Everything else is a pure function.

The inputs are modelled as follows:
- Reading a file and XML parsing are replaced by the `CloverMetrics` record of the eight report attributes.
- The environment that `@actions/core`'s `getInput` reads is replaced by a map from input names to their values as set, before trimming.
- The GitHub event is replaced by the `Request` datatype.

## Model

| member | source | states |
|---|---|---|
| Coverage.CalcRate | index.js:34-36 | a zero total gives 0; otherwise the rate `r` satisfies 20000·covered − total < 2·total·r ≤ 20000·covered + total, i.e. r is covered/total·100 rounded to the nearest hundredth, halves up |
| Coverage.CalcRateUnique | index.js:34-36 | exactly one number of hundredths meets that rounding condition, and it is `CalcRate` |
| Coverage.CalcRateBounded | index.js:34-36 | covered ≤ total gives a rate of at most 100% |
| Coverage.CalcRateFull | index.js:34-36 | all covered with a positive total is exactly 100% |
| Coverage.ExampleRates | index.js:34-36 | 0/0 → 0, 50/100 → 50%, 1/3 → 33.33%, 2/3 → 66.67% |
| Coverage.ReadMetric | index.js:38-65 | statements come from `elements`, lines from `statements`, methods from `methods`, branches from `conditionals`; each category's rate is `CalcRate` of its own counts; the result is `MetricOf(data)` |
| Coverage.MetricRatesBounded | index.js:38-62 | a report whose covered counts do not exceed their totals has every rate within 0–100% |
| Coverage.ExampleMetric | index.js:38-62 | 90/100 elements, 95/100 statements, 18/20 methods, 40/50 conditionals give 90, 95, 90 and 80% |
| Decimal.NatToString | index.js:78 | a printed count is a non-empty string of digits that starts with '0' only for 0 (no leading zeros); `ParseNatToString` reads it back |
| Decimal.HundredthsToString | index.js:78 | a printed non-negative rate consists of digits and '.' only; `ParseHundredthsToString` reads it back |
| Decimal.NumberToString | index.js:78 | a printed rate is non-empty and consists of digits, '.', and '-' only for a negative value |
| Decimal.ParseHundredthsToString | index.js:78 | a printed rate reads back as the same number of hundredths |
| Decimal.HundredthsToStringInjective | index.js:78 | different rates never print alike |
| Decimal.ParseNatToString | index.js:78 | a printed count reads back as the same count |
| Status.SuccessDescription | index.js:148-153 | with one-line rate texts, the success description is exactly four lines: "Success: ", the line rate, the statement rate, and the methods rate with "Branchs Coverage - …%" on the same line (the source's `\B` is not a line break) |
| Status.StatusOf | index.js:95-154 | the intended status: target URL and context pass through, and the state is success iff there is no baseline or every category's rate stayed level or rose |
| Status.CheckCategory | index.js:120-124 | one comparison step: the description gains the decrease line of category `k` exactly when `k` dropped, and is otherwise unchanged |
| Status.FailureDescription | index.js:119-139 | the accumulated description is "Failure: " followed by one decrease line per dropped category in the order branches, lines, methods, statements |
| Status.GenerateStatus | index.js:95-154 | the status equals `StatusOf`: failure with the decrease lines when a baseline exists and some rate dropped, otherwise success with the four current rates; URL and context passed through |
| Status.DecreasesInSound | index.js:113-139 | every reported decrease names a category that dropped, with the size of its drop |
| Status.DecreasesInComplete | index.js:113-139 | every category that dropped is reported |
| Status.DecreasesInOrdered | index.js:120-139 | decreases are reported in the order of the checks, no category twice |
| Status.DecreasesExact | index.js:113-139 | a category is reported iff its rate dropped; each delta is the positive difference of its own baseline and current rate; report order holds; there is a report iff some category regressed |
| Status.NoBaselineSucceeds | index.js:102-153 | without a baseline the state is "success"; target URL and context are always passed through |
| Status.FailsExactlyOnDrop | index.js:113-118 | with a baseline, failure iff some category's baseline rate is strictly above its current rate |
| Status.NoDropSucceeds | index.js:113-153 | equal or improved rates in every category give success |
| Status.FailureDescriptionLines | index.js:119-139 | a failure description splits into the line "Failure: " followed by one text per reported decrease |
| Status.BranchesDropExample | index.js:119-124 | branches falling from 80% to 70% with nothing else moving gives "Failure: \nBranches Coverage decrease - 10%" |
| Status.Property | index.js:96-111 | on a category record `{total, covered, rate}`, each of the eight names lines 97-100 and 108-111 destructure reads `undefined`, and `rate` reads the rate |
| Status.RegressionAsWritten | index.js:113-139 | lines 113-139 as written, on the eight values read: on failure, the description keeps its "Failure: " head iff the methods comparison of line 130 is false, because line 131 assigns instead of appending |
| Status.GenerateStatusAsWritten | index.js:95-154 | the code as written: target URL and context pass through; `AsWrittenNeverFails` states its result |
| Status.AsWrittenNeverFails | index.js:95-154 | as written, the status is success whatever the rates, with "undefined" for all four rates in the description |
| Status.AsWrittenMissesDrop | index.js:95-154 | as written, a branches drop that the intended rule fails is reported as success |
| Status.RegressionWithRates | index.js:113-139 | lines 113-139 as written, with each record's `rate` read: on failure, the description starts with "Failure: " iff the methods rate did not drop |
| Status.CrossComparisonMissesDrop | index.js:113-117 | with the rates read correctly, a statements drop no larger than the current lines rate allows is not caught |
| Status.CrossComparisonFailsWithoutDrop | index.js:113-119 | with the rates read correctly, a baseline statements rate above the current lines rate fails a run in which nothing dropped, with the bare "Failure: " description |
| Status.OverwriteDropsEarlierLines | index.js:119-139 | with the rates read correctly, a methods drop replaces the whole description, so the "Failure: " head and any branches or lines line are lost |
| Status.IntendedKeepsEveryLine | index.js:119-139 | under the intended rule, the same run fails with "Failure: " as its first line, the branches line as its second, and the methods line among its lines |
| Comment.GenerateCommentHeader | index.js:81-83 | the context can be read back from the marker line |
| Comment.HeaderInjective | index.js:81-83 | different contexts give different markers |
| Comment.GenerateEmoji | index.js:73-75 | the suffix is `Celebration` exactly when the lines rate is 100%, and "" otherwise; `Celebration` is the source's text, a blank and the four characters U+00F0 U+0178 U+017D U+2030 (the UTF-8 bytes of 🎉 read as Windows-1252) |
| Comment.RoundRate | index.js:68-69 | `Math.round` of a rate: the nearest whole percent, halves up |
| Comment.GenerateBadgeUrl | index.js:67-71 | the shields.io prefix, the rounded lines rate, then "%&color=undefined" |
| Comment.GenerateInfo | index.js:77-79 | a detail cell never contains a line break, so it stays on its table row; `ParseGenerateInfo` reads its three numbers back |
| Comment.ParseGenerateInfo | index.js:77-79 | a detail cell `{rate}% ( {covered} / {total} )` can be read back into its three numbers |
| Comment.TableRows | index.js:85-92 | six rows, and the context can be read back from the first |
| Comment.GenerateTable | index.js:85-93 | whatever the context, the comment body opens with the marker line and a line break |
| Comment.TableLayout | index.js:85-93 | for a one-line context the body has exactly 6 lines and a trailing break: the marker (context recoverable), the heading with the suffix only at 100%, the badge row with `GenerateBadgeUrl`, the rule "| :-- | --: |", the "Statements:" row showing the lines category, and the "Methods:" row |
| Config.ToBool | index.js:156-158 | true exactly for boolean true or the string "true" |
| Config.ToInt | index.js:160-162 | booleans give 1/0, integers are kept, a digit string gives its value, "" gives 0 |
| Config.ToIntOfDecimal | index.js:160-162 | a decimal threshold read through `toInt` gives back its number |
| Config.TrimSlice | index.js:165-176 | every input is read trimmed: the value is a stretch of the value as set, with only JavaScript white space and line terminators cut from either end, and it neither starts nor ends with one |
| Config.GetRequired | index.js:167-171 | a required input succeeds iff its value as set is non-empty, and then reads trimmed; otherwise the error "Input required and not supplied: name" |
| Config.BlankRequiredReadsEmpty | index.js:167-171 | a required input set to white space only is accepted and reads as "" |
| Config.OrNumber | index.js:172-173 | `toInt(input \|\| fallback)`: an empty input gives the fallback number, any other input is converted by `ToInt` |
| Config.LoadConfig | index.js:164-194 | fails iff a required input is unset or empty before trimming, naming the first in reading order; otherwise each field as read, thresholds default to 90 and 50, contexts to "Coverage Report", and a comment mode outside replace/update/insert becomes "replace" |
| Webhook.ParseWebhook | index.js:196-216 | an accepted event is a pull-request event whose number, URL and head SHA are truthy and returned unchanged; any refusal carries "Action supports only pull_request event" |
| Webhook.ParseWebhookAccepts | index.js:196-216 | every pull-request event with truthy fields is accepted with exactly those fields |
| Webhook.ParseWebhookExactly | index.js:196-216 | an event is accepted iff it is the encoding of some truthy pull-request reference |

## Left out

- Reading files (`fs.readFileAsync`, `fs.writeFileAsync`, the byte-order-mark strip) and XML parsing with xml2js are I/O and a foreign library. The model starts from the eight attributes of `metrics.$`.
- `run()` and `createStatus` (index.js:218-263) are not part of this model. They are I/O: Octokit client creation, file reads, `core.setFailed`, `core.setOutput` and debug output. What `run()` does as written is described at the top of this file. `createStatus` is defined but never called.
- Coverage.CalcRate: floating-point division and `toFixed` are modelled by exact rational rounding. A quotient whose binary value falls just below a hundredths half-way point can round down in JavaScript and up here.
- Status.DecreaseText: the delta is the exact difference of two hundredths, not the float subtraction of two rounded rates. JavaScript can print artefacts such as `0.09999999999999432` that the model does not.
- Decimal.NatToString: JavaScript's exponent notation for numbers of 1e21 and above is not modelled.
- Config.ToInt: only digit strings, "", booleans and integers are decoded. Any other string (signs, blanks, hex, exponents, non-numbers giving `NaN`) is kept as `Other(source)` rather than converted.
- Config.GetInput: `getInput` reads the environment variable `INPUT_<NAME>`. The input name is upper-cased and blanks become `_`. The model looks the name up in a map of values as set. The trimming, and the `required` test done before it, are modelled.
- Webhook.ParseWebhook: a `null` (as opposed to absent) payload, pull request or head makes the destructuring throw a TypeError. That case is not modelled. Field values are restricted to their usual types (an integer number, string URL and SHA).
- Status.Property: only the record's own three names and the eight names the source destructures are modelled. Names a record inherits from `Object.prototype` (`toString`, `constructor` and the like) read a function or an object in JavaScript and are outside this model.
- Report values: counts are natural numbers. Non-numeric or negative attribute values (`NaN` after `* 1`) are not modelled.
- Status.CheckCategory: the four `if` blocks of lines 120-139 are one method applied per category. The methods step is modelled with `+=`, the intended form (see Findings).
- Behaviour a reader might expect that index.js does not have. The model follows index.js in each case:
  - One might expect the marker "<!-- coverage: {context} -->". index.js writes "<!-- coverage-monitor-action: {context} -->" (line 82).
  - One might expect a celebration for a good average rate. index.js celebrates only a lines rate of exactly 100% (line 74).
  - One might expect the badge to show an average rate in green or red. index.js shows the rounded lines rate with the colour "undefined" (lines 67-71).
  - One might expect a detail row for each of the four categories. index.js renders two: the "Statements:" row shows the lines category, and the "Methods:" row (lines 90-91).
  - One might expect an average rate over the categories. index.js computes none, so `Metric` has no such field.
  - One might expect earlier comments to be edited or deleted according to the comment mode. `loadConfig` reads the mode, but nothing in index.js uses it (lines 176-191), so comment reconciliation is not part of this model.
- The success description keeps the source's `\B` escape, which is a plain "B". So "Branchs Coverage" follows the comma without a line break.

## Findings

| source | as written | input that shows it | evidently intended | confidence | as-written member | corrected member |
|---|---|---|---|---|---|---|
| index.js:96-111 | the destructuring reads `lines.lineRate`, `originalMetric.lines.originalLineRate` and so on, properties a category record `{total, covered, rate}` does not have, so all eight values are `undefined` | any baseline whose branches rate is above the current one, e.g. 80% → 70% | read each category's `rate` | not executed | Status.GenerateStatusAsWritten, lemmas Status.AsWrittenNeverFails and Status.AsWrittenMissesDrop | Status.GenerateStatus proved equal to Status.StatusOf, with Status.FailsExactlyOnDrop |
| index.js:117 | the fourth condition compares the baseline statements rate with the current lines rate | once the rates are read (96-111 fixed): statements 90% → 80% while lines stay at 95% gives no failure; baseline statements 96% above current lines 95% with no category dropping gives a failure. As written, the 96-111 defect hides both, and every run succeeds | compare the baseline statements rate with the current statements rate | not executed | Status.RegressionWithRates, lemmas Status.CrossComparisonMissesDrop and Status.CrossComparisonFailsWithoutDrop | Status.StatusOf with Status.FailsExactlyOnDrop and Status.DecreasesExact |
| index.js:131 | `description = …` assigns the methods line instead of appending it | once the rates are read (96-111 fixed): branches 80% → 70% and methods 90% → 85% give the description "\nMethods Coverage decrease - 5%" alone. As written, the 96-111 defect hides it, and every run succeeds | `description += …` | not executed | Status.RegressionWithRates, lemma Status.OverwriteDropsEarlierLines | Status.FailureDescription, lemmas Status.FailureDescriptionLines and Status.IntendedKeepsEveryLine |
