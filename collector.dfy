/** A test run and its collection: every test case of the run's suite is
    matched against the run's transactions and the results replace the old
    ones (`matchTransactionsToTestRun` in testcollectorhelpers.go). */
module Collector {
  import opened Types
  import opened Matching

  /** A test run. A submitted run holds its suite as submitted; collection
      assumes the suite has been resolved, with every test case and predicate
      in full, and rewrites the results and the status in place. */
  class TestRun {
    var id: ObjectId
    var testRunHeaderId: string
    var testSuite: TestSuite
    var testResults: seq<TestResult>
    var status: TestRunStatus
    var timestamp: Timestamp

    /** A submitted run: whatever results it was submitted with, stamped with
        the submission time and marked Created. */
    constructor (id: ObjectId, testRunHeaderId: string, testSuite: TestSuite,
                 testResults: seq<TestResult>, now: Timestamp)
      ensures this.id == id && this.testRunHeaderId == testRunHeaderId
      ensures this.testSuite == testSuite && this.testResults == testResults
      ensures timestamp == now && status == Created
    {
      this.id := id;
      this.testRunHeaderId := testRunHeaderId;
      this.testSuite := testSuite;
      this.testResults := testResults;
      this.status := Created;
      this.timestamp := now;
    }

    /** Result i is for test case i and records what MatchTransactionToTestCase
        selects for it among `transactions`. */
    ghost predicate CollectedFrom(lib: Libraries, transactions: seq<Transaction>)
      reads this
    {
      |testResults| == |testSuite.testCases|
      && forall i :: 0 <= i < |testResults| ==>
           testResults[i].testCase == testSuite.testCases[i]
           && (testResults[i].transaction, testResults[i].status)
              == Select(lib, testSuite.testCases[i], transactions)
    }

    /** `matchTransactionsToTestRun`. The clock reading `now` stamps every
        result; `transactions` come newest first. */
    method MatchTransactionsToTestRun(lib: Libraries, transactions: seq<Transaction>, now: Timestamp)
      returns (err: Option<string>)
      modifies this
      ensures err == None
      ensures status == Complete
      ensures CollectedFrom(lib, transactions)
      ensures forall i :: 0 <= i < |testResults| ==>
        IsSelection(lib, testSuite.testCases[i], transactions, testResults[i].transaction, testResults[i].status)
        && testResults[i].timestamp == now
      ensures id == old(id) && testRunHeaderId == old(testRunHeaderId)
      ensures testSuite == old(testSuite) && timestamp == old(timestamp)
    {
      var testRunStatus := Complete;
      testResults := [];
      var testCases := testSuite.testCases;
      var n := 0;
      while n < |testCases|
        invariant 0 <= n <= |testCases|
        invariant testSuite == old(testSuite) && testCases == testSuite.testCases
        invariant id == old(id) && testRunHeaderId == old(testRunHeaderId) && timestamp == old(timestamp)
        invariant testRunStatus == Complete
        invariant |testResults| == n
        invariant forall i :: 0 <= i < n ==>
          testResults[i].testCase == testCases[i]
          && (testResults[i].transaction, testResults[i].status) == Select(lib, testCases[i], transactions)
          && IsSelection(lib, testCases[i], transactions, testResults[i].transaction, testResults[i].status)
          && testResults[i].timestamp == now
      {
        var testCase := testCases[n];
        var transaction, testStatus, matchErr := MatchTransactionToTestCase(lib, testCase, transactions);
        // Both branches of the source append the same result; the error
        // branch, which cannot be taken, would also mark the run InProgress.
        testResults := testResults + [TestResult(testCase, testStatus, transaction, now)];
        if matchErr.Some? {
          testRunStatus := InProgress;
        }
        n := n + 1;
      }
      status := testRunStatus;
      err := None;
    }
  }
}
