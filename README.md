# dstestapi matching and reporting engine, in Dafny

This project models the decision logic of the dstestapi test-verification backend.
Clients register test cases: a URL, an expected HTTP status code, and JSON-path
predicates on the request body. Test cases are grouped into test suites. A test
run ties a suite to the HTTP transactions captured while the run was open. The
engine does four things:

- It evaluates predicates against a transaction's request body.
- It matches URLs, exactly or through a URL-template library.
- It picks one transaction per test case and classifies the case as
  Success, Failure or NotAttempted.
- It collects the results into the run and compiles a summary report.

The project also models how one test case is rendered as plain text.

Modules:

- `Types` (types.dfy): the records (predicates, test cases, suites,
  transactions, results, case reports), the status enums, and `Libraries`.
  `Libraries` holds the two foreign libraries as function values:
  - `jsonRaw(body, path)` stands for gjson's `Get(body, path).Raw`; the empty
    string means the path is absent.
  - `templateMatch(pattern, url)` stands for urlpath's `New(pattern).Match(url)`.
- `Text` (text.dfy): ASCII lower-casing, `strings.Trim(s, "\"")`, `%d`
  rendering of integers with its inverse, and joining strings with a separator.
- `Matching` (matching.dfy): `cleanse`, `matchPredicate`,
  `validatePredicatesForTransaction`, `urlMatches` and
  `matchTransactionToTestCase`. The tie-break rule has two statements:
  - `IsSelection` is a declarative one: the first success; otherwise the
    last full match; otherwise the zero transaction.
  - `Select` is an independent recursive one.
  
  Lemmas show the two agree and admit exactly one answer. The loop method is
  proved against both.
- `Collector` (collector.dfy): the `TestRun` class. Its method
  `MatchTransactionsToTestRun` replaces the results and sets the status.
- `Report` (report.dfy): `getTestResultforTestCase` and `compileTestRunReport`,
  the counting functions, and lemmas that link a collected run to its report.
- `PrettyPrint` (prettyprint.dfy): `prettyFormatTestCase`, proved equal to a
  header followed by the predicate texts joined with `" AND\n"`.

The engine is given transactions newest first; the database query sorts them
by document id, descending. The model's statements about "first" and "last"
refer to the order the sequence has.

Three behaviours of the code that are easy to misread:

- `strings.Trim` strips every leading and trailing quote, not one layer, so
  `""a""` compares as `a` (`NestedQuotesAllStripped`).
- For the same reason a JSON string whose text ends in an escaped quote
  loses that quote: `"say \"hi\""` cleanses to `say \"hi\` and does not
  match its own text `say \"hi\"` (`EscapedTrailingQuoteLost`).
- Template matching is urlpath's decision; `templateMatch` is left
  uninterpreted, so nothing is claimed about segments or trailing slashes.

## Model

| member | source | states |
|---|---|---|
| `Text.Lower` | testcollectorhelpers.go:157 | ASCII lower-casing keeps the length of the string |
| `Text.LowerPointwise` | testcollectorhelpers.go:157 | ASCII lower-casing maps each character through `LowerChar` and keeps the length |
| `Text.LowerIdempotent` | testcollectorhelpers.go:157 | lower-casing twice is the same as lower-casing once |
| `Text.TrimQuotes` | testcollectorhelpers.go:145-147 | the trimmed string neither starts nor ends with a double quote and is no longer than the input |
| `Text.TrimQuotesWindow` | testcollectorhelpers.go:145-147 | what is left is a contiguous part of the input with only double quotes before and after it |
| `Text.TrimQuotesUnique` | testcollectorhelpers.go:145-147 | any quote-free window of the input bordered only by quotes is exactly the trimmed string (the characterisation is complete) |
| `Text.TrimQuotesIdempotent` | testcollectorhelpers.go:145-147 | trimming a trimmed string changes nothing |
| `Text.NatToDecimal` | testsuiteops.go:167 | the rendering is one or more decimal digits with no leading zero |
| `Text.IntToDecimal` | testsuiteops.go:167 | the `%d` rendering starts with `-` exactly for negative numbers |
| `Text.NatToDecimalRoundTrip` | testsuiteops.go:167 | reading the digits back gives the number |
| `Text.IntToDecimalRoundTrip` | testsuiteops.go:167 | reading a rendered integer back, sign included, gives the integer |
| `Matching.Cleanse` | testcollectorhelpers.go:145-147 | `cleanse` is `TrimQuotes`: its result is no longer than the input and neither starts nor ends with a quote; `TrimQuotesWindow` and `TrimQuotesUnique` say exactly which part is kept |
| `Matching.CleanseIdempotent` | testcollectorhelpers.go:145-147 | `cleanse`'s result has no leading or trailing quote, and cleansing it again changes nothing |
| `Matching.MatchPredicate` | testcollectorhelpers.go:149-163 | a predicate whose path is absent (empty raw value) never matches |
| `Matching.MatchPredicateCaseInsensitive` | testcollectorhelpers.go:157-161 | two expected values that agree up to ASCII case give the same verdict |
| `Matching.MatchPredicateAbcExample` | testcollectorhelpers.go:157-161 | expecting "abc" and expecting "ABC" give the same verdict on every body and path |
| `Matching.QuotedValueMatches` | testcollectorhelpers.go:151-161 | a JSON string value `"v"`, where `v` neither starts nor ends with a quote, matches `v` in any letter case |
| `Matching.RawTextMatchesItself` | testcollectorhelpers.go:151-161 | a non-empty raw value with no quote at either end matches its own text |
| `Matching.EscapedTrailingQuoteLost` | testcollectorhelpers.go:145-161 | a JSON string whose text `w\"` ends in an escaped quote (`w` non-empty, not starting with a quote) cleanses to `w\` and does not match its own text |
| `Matching.NumbersCompareAsText` | testcollectorhelpers.go:151-161 | raw `300` matches "300"; raw `300.0` does not match "300" |
| `Matching.NestedQuotesAllStripped` | testcollectorhelpers.go:145-147 | every layer of quotes goes: `""a""` cleanses to `a` |
| `Matching.ValidatePredicatesForTransaction` | testcollectorhelpers.go:44-56 | true exactly when every predicate in the list matches the request body; true for an empty list |
| `Matching.UrlMatches` | testcollectorhelpers.go:58-69 | equal strings match; otherwise the verdict is the template library's |
| `Matching.UrlMatchesItself` | testcollectorhelpers.go:61-63 | a URL matches itself whatever the library does with it as a template |
| `Matching.SelectIsSelection` | testcollectorhelpers.go:78-110 | the recursive tie-break `Select` meets `IsSelection`: the first success; when there is no success, the last full match as Failure; when nothing fully matches, the zero transaction as NotAttempted |
| `Matching.SelectionUnique` | testcollectorhelpers.go:78-110 | at most one (transaction, status) pair meets that description |
| `Matching.SelectionStatus` | testcollectorhelpers.go:82-101 | NotAttempted exactly when nothing fully matches; Success exactly when some full match has the expected status; a Success or Failure transaction passed the URL check and all predicates; a Failure transaction's status differs from the expected one |
| `Matching.MatchTransactionToTestCase` | testcollectorhelpers.go:72-111 | the loop returns the pair described by `IsSelection`, equal to `Select`'s, and a nil error |
| `Matching.NoPredicatesDecidedByStatus` | testcollectorhelpers.go:82-93 | with no predicates, a URL-matching transaction gives Success exactly when its status is the expected one, else Failure |
| `Matching.SuccessFoundPastFailure` | testcollectorhelpers.go:89-100 | for [partial match, failing full match, success] the result is the success |
| `Matching.LastFailureKept` | testcollectorhelpers.go:96 | for two failing full matches and no success, the second (older) one is kept |
| `Collector.TestRun.constructor` | testrunops.go:22-26 | a submitted run keeps the fields it was submitted with, including any results, and gets the submission time as its timestamp and status Created |
| `Collector.TestRun.MatchTransactionsToTestRun` | testcollectorhelpers.go:114-143 | old results are gone; one result per test case in suite order, carrying that case's selected transaction and status and the given time; status Complete; nil error; other fields unchanged |
| `Report.FindResult` | testcollectorhelpers.go:166-177 | found exactly when some result has the case's id; then it is the first such result; otherwise the source's error message |
| `Report.GetTestResultForTestCase` | testcollectorhelpers.go:166-177 | the linear search returns the first result with the case's id, and an error exactly when there is none |
| `Report.ReportStatus` | testcollectorhelpers.go:266-278 | a found result's status is reported as it is; a failed lookup is reported as NotAttempted |
| `Report.CountsByStatus` | testcollectorhelpers.go:262-287 | passed counts the Success entries, attempted counts the Success and Failure entries, and passed <= attempted <= number of entries |
| `Report.CompileTestRunReport` | testcollectorhelpers.go:257-290 | one entry per test case in suite order, each with that case's looked-up status; numTestCases is the number of cases; the counters are the counts above with their bounds; the run's suite, the run and its status carried over; nil error |
| `Report.CollectedResultsAreFound` | testcollectorhelpers.go:169-176 | after collection every test case's lookup succeeds, so the error path is not taken |
| `Report.CollectedResultFoundAtIndex` | testcollectorhelpers.go:169-176 | with distinct test-case ids, case i's lookup returns result i |
| `Report.CollectedReportStatus` | testcollectorhelpers.go:265-283 | when suite entries that share an id are the same test case (resolution by id makes them so), report entry i of a collected run shows the status the matcher selects for case i |
| `PrettyPrint.CriteriaPrefixIsJoin` | testsuiteops.go:171-178 | every predicate line except the last ends in " AND\n" and the last in "\n", so the lines are the predicate texts joined by n-1 joiners plus a final newline |
| `PrettyPrint.PrettyFormatTestCase` | testsuiteops.go:162-182 | the output is the header, then for n >= 1 predicates the texts `\t<attribute> == <expected>` joined by " AND\n" and a final "\n"; nothing more when there are none |
| `PrettyPrint.RenderingStartsWithNameAndUrl` | testsuiteops.go:165-166 | the output begins with "Test Case Name: <name>\n" followed by "URL: <url>\n" |
| `PrettyPrint.RenderingStatusLine` | testsuiteops.go:167-168 | the status-code digits read back as the expected status; the output starts with the whole header, ends in a newline, and is just the header when there are no predicates |

## Left out

- Database access is not modelled: `findTransactionsForTestRun`, `persistTestRun`, `fetchTestRun` and `collectTestRun` (testcollectorhelpers.go:20-41, 179-255). They are reads and writes against MongoDB. This includes the delete-then-insert replace and the forced `Status = Complete` when the run is stored.
- The newest-first order of transactions comes from that database query. The model takes the sequence as given and does not require any order.
- Resolving references (dbhelpers.go), the HTTP handlers, connection setup and `main` are not modelled. Test cases and predicates arrive fully resolved.
- gjson path evaluation and urlpath template matching are not modelled. Both are foreign code, passed in as the function values of `Libraries`.
- `strings.ToLower` is modelled on ASCII letters only. Other Unicode case mappings are not.
- Go strings are byte sequences; the model uses Dafny strings (sequences of characters).
- `MatchTransactionsToTestRun`: the source reads `time.Now()` once per result. The model takes one clock reading, `now`, and stamps every result with it. The run's own timestamp is an opaque parameter of the constructor.
- `fmt.Println` logging is not modelled.
- Pointers are not modelled: results hold copies of their test case and transaction. `TestRunReport.testRun` refers to the run that was reported on, while Go's report points to a copy of it.
- `ReportStatus`: on a failed lookup, Go reads the status of the zero `TestResult` returned at testcollectorhelpers.go:176. The type definitions that fix that zero value are not part of this model. The model assumes the zero status is NotAttempted, or some value that is neither Success nor Failure, and so shows NotAttempted. If the enum's zero value were Success, line 268 would count a missing result as attempted and passed; the model does not capture that layout.
- `getTestSuiteSummary`, which concatenates the renderings of a suite's test cases, is not modelled. It is an HTTP handler.
- Integer width is not modelled: status codes are unbounded integers. Nothing in the core does arithmetic that could overflow, other than counters bounded by the number of test cases.
