/** Result lookup and report compilation (`getTestResultforTestCase` and
    `compileTestRunReport` in testcollectorhelpers.go). */
module Report {
  import opened Types
  import opened Matching
  import opened Collector

  /** The aggregate view of one run. `testRun` refers to the run reported on. */
  datatype TestRunReport = TestRunReport(
    testSuite: TestSuite,
    testRun: TestRun,
    status: TestRunStatus,
    testCaseReports: seq<TestCaseReport>,
    numTestCases: nat,
    numTestsAttempted: nat,
    numTestsPassed: nat)

  function NoResultMessage(testCase: TestCase): (r: string) {
    "Could not find a test result for test case " + testCase.name
  }

  /** The first result recorded for the test case's id, or the source's
      error when there is none. */
  function FindResult(results: seq<TestResult>, testCase: TestCase): (r: Lookup<TestResult>)
    ensures r.Found? <==> exists i :: 0 <= i < |results| && results[i].testCase.id == testCase.id
    ensures r.Found? ==>
      exists i :: 0 <= i < |results| && results[i] == r.value
        && results[i].testCase.id == testCase.id
        && forall j :: 0 <= j < i ==> results[j].testCase.id != testCase.id
    ensures r.Missing? ==> r.error == NoResultMessage(testCase)
  {
    if results == [] then Missing(NoResultMessage(testCase))
    else if results[0].testCase.id == testCase.id then Found(results[0])
    else
      var r := FindResult(results[1..], testCase);
      assert forall i :: 0 < i < |results| ==> results[i] == results[1..][i - 1];
      r
  }

  /** `getTestResultforTestCase`: a linear search by test-case id. */
  method GetTestResultForTestCase(testCase: TestCase, testRun: TestRun) returns (r: Lookup<TestResult>)
    ensures r == FindResult(testRun.testResults, testCase)
    ensures r.Found? ==>
      exists i :: 0 <= i < |testRun.testResults| && testRun.testResults[i] == r.value
        && r.value.testCase.id == testCase.id
        && forall j :: 0 <= j < i ==> testRun.testResults[j].testCase.id != testCase.id
    ensures r.Missing? <==> forall i :: 0 <= i < |testRun.testResults| ==> testRun.testResults[i].testCase.id != testCase.id
  {
    var results := testRun.testResults;
    var i := 0;
    while i < |results|
      invariant 0 <= i <= |results|
      invariant forall j :: 0 <= j < i ==> results[j].testCase.id != testCase.id
    {
      if results[i].testCase.id == testCase.id {
        ghost var found := FindResult(results, testCase);
        if found.Found? {
          ghost var k :| 0 <= k < |results| && results[k] == found.value
            && results[k].testCase.id == testCase.id
            && forall j :: 0 <= j < k ==> results[j].testCase.id != testCase.id;
          assert k == i;
        }
        return Found(results[i]);
      }
      i := i + 1;
    }
    return Missing(NoResultMessage(testCase));
  }

  /** The status a report shows for a lookup: the result's Success or Failure,
      and NotAttempted for anything else, including a failed lookup. */
  function ReportStatus(lookup: Lookup<TestResult>): (s: TestStatus)
    ensures lookup.Missing? ==> s == NotAttempted
    ensures lookup.Found? ==> s == lookup.value.status
  {
    match lookup
    case Found(result) =>
      if result.status == Success || result.status == Failure then
        if result.status == Success then Success else Failure
      else assert result.status.NotAttempted?; NotAttempted
    case Missing(_) => NotAttempted
  }

  function CountPassed(reports: seq<TestCaseReport>): (r: nat) {
    if reports == [] then 0
    else
      var last := reports[|reports| - 1];
      CountPassed(reports[..|reports| - 1]) + (if last.status == Success then 1 else 0)
  }

  function CountAttempted(reports: seq<TestCaseReport>): (r: nat) {
    if reports == [] then 0
    else
      var last := reports[|reports| - 1];
      CountAttempted(reports[..|reports| - 1]) + (if last.status == Success || last.status == Failure then 1 else 0)
  }

  function Statuses(reports: seq<TestCaseReport>): (r: seq<TestStatus>)
    ensures |r| == |reports|
    ensures forall i :: 0 <= i < |reports| ==> r[i] == reports[i].status
  {
    seq(|reports|, i requires 0 <= i < |reports| => reports[i].status)
  }

  /** Passed counts the Success entries and attempted the Success and Failure
      entries, so passed <= attempted <= the number of entries. */
  lemma {:induction false} CountsByStatus(reports: seq<TestCaseReport>)
    ensures CountPassed(reports) == multiset(Statuses(reports))[Success]
    ensures CountAttempted(reports) == multiset(Statuses(reports))[Success] + multiset(Statuses(reports))[Failure]
    ensures CountPassed(reports) <= CountAttempted(reports) <= |reports|
  {
    if reports != [] {
      var init := reports[..|reports| - 1];
      CountsByStatus(init);
      assert Statuses(reports) == Statuses(init) + [reports[|reports| - 1].status];
      assert multiset(Statuses(reports)) == multiset(Statuses(init)) + multiset{reports[|reports| - 1].status};
    }
  }

  /** `compileTestRunReport`: one entry per test case, in suite order, with
      the counts of attempted and passed cases. */
  method CompileTestRunReport(testRun: TestRun) returns (report: TestRunReport, err: Option<string>)
    ensures err == None
    ensures report.testSuite == testRun.testSuite && report.testRun == testRun && report.status == testRun.status
    ensures |report.testCaseReports| == report.numTestCases == |testRun.testSuite.testCases|
    ensures forall i :: 0 <= i < report.numTestCases ==>
      report.testCaseReports[i] == TestCaseReport(testRun.testSuite.testCases[i],
                                                  ReportStatus(FindResult(testRun.testResults, testRun.testSuite.testCases[i])))
    ensures report.numTestsPassed == CountPassed(report.testCaseReports)
    ensures report.numTestsAttempted == CountAttempted(report.testCaseReports)
    ensures report.numTestsPassed <= report.numTestsAttempted <= report.numTestCases
  {
    var testCases := testRun.testSuite.testCases;
    var reports := new TestCaseReport[|testCases|];
    var numSuccess := 0;
    var numAttempted := 0;
    for i := 0 to |testCases|
      invariant forall j :: 0 <= j < i ==>
        reports[j] == TestCaseReport(testCases[j], ReportStatus(FindResult(testRun.testResults, testCases[j])))
      invariant numSuccess == CountPassed(reports[..i])
      invariant numAttempted == CountAttempted(reports[..i])
    {
      var testCase := testCases[i];
      var testResult := GetTestResultForTestCase(testCase, testRun);
      var testStatus := NotAttempted;
      if testResult.Found? && (testResult.value.status == Success || testResult.value.status == Failure) {
        numAttempted := numAttempted + 1;
        if testResult.value.status == Success {
          numSuccess := numSuccess + 1;
          testStatus := Success;
        } else {
          testStatus := Failure;
        }
      }
      ghost var before := reports[..i];
      reports[i] := TestCaseReport(testCase, testStatus);
      assert reports[..i + 1][..i] == before;
    }
    assert reports[..] == reports[..|testCases|];
    CountsByStatus(reports[..]);
    report := TestRunReport(testRun.testSuite, testRun, testRun.status, reports[..],
                            |testCases|, numAttempted, numSuccess);
    err := None;
  }

  /** After collection every test case has a result, so the lookup never fails. */
  lemma {:induction false} CollectedResultsAreFound(results: seq<TestResult>, testCases: seq<TestCase>, i: nat)
    requires |results| == |testCases| && i < |testCases|
    requires forall k :: 0 <= k < |results| ==> results[k].testCase == testCases[k]
    ensures FindResult(results, testCases[i]).Found?
  {
    assert results[i].testCase.id == testCases[i].id;
  }

  /** When the suite's ids are distinct, the lookup finds the case's own result. */
  lemma {:induction false} CollectedResultFoundAtIndex(results: seq<TestResult>, testCases: seq<TestCase>, i: nat)
    requires |results| == |testCases| && i < |testCases|
    requires forall k :: 0 <= k < |results| ==> results[k].testCase == testCases[k]
    requires forall j, k :: 0 <= j < k < |testCases| ==> testCases[j].id != testCases[k].id
    ensures FindResult(results, testCases[i]) == Found(results[i])
  {
    var r := FindResult(results, testCases[i]);
    assert results[i].testCase.id == testCases[i].id;
    var k :| 0 <= k < |results| && results[k] == r.value && results[k].testCase.id == testCases[i].id
      && forall j :: 0 <= j < k ==> results[j].testCase.id != testCases[i].id;
    assert testCases[k].id == testCases[i].id;
    if k < i { assert false; }
    if i < k { assert false; }
  }

  /** Collection followed by compilation: when entries that share an id are
      the same test case (as resolution by id makes them), report entry i
      shows what the matcher selects for test case i. */
  lemma CollectedReportStatus(lib: Libraries, transactions: seq<Transaction>, testRun: TestRun, i: nat)
    requires testRun.CollectedFrom(lib, transactions)
    requires i < |testRun.testSuite.testCases|
    requires forall j, k ::
      0 <= j < |testRun.testSuite.testCases| && 0 <= k < |testRun.testSuite.testCases|
      && testRun.testSuite.testCases[j].id == testRun.testSuite.testCases[k].id
      ==> testRun.testSuite.testCases[j] == testRun.testSuite.testCases[k]
    ensures ReportStatus(FindResult(testRun.testResults, testRun.testSuite.testCases[i]))
      == Select(lib, testRun.testSuite.testCases[i], transactions).1
  {
    var cs := testRun.testSuite.testCases;
    var results := testRun.testResults;
    var r := FindResult(results, cs[i]);
    assert results[i].testCase.id == cs[i].id;
    var k :| 0 <= k < |results| && results[k] == r.value && results[k].testCase.id == cs[i].id
      && forall j :: 0 <= j < k ==> results[j].testCase.id != cs[i].id;
    assert cs[k] == cs[i];
  }
}
