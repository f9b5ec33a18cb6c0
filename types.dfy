/** The records the matching and reporting engine works on, and the two
    foreign libraries it consults, passed in as values. */
module Types {

  /** `None` plays the role of Go's nil error. */
  datatype Option<+T> = None | Some(value: T)

  /** A lookup that either finds a value or fails with an error message. */
  datatype Lookup<+T> = Found(value: T) | Missing(error: string)

  /** Document identifiers are compared for equality only. */
  type ObjectId = string

  /** Timestamps come from the caller's clock and are opaque here. */
  type Timestamp = int

  datatype TestStatus = NotAttempted | Success | Failure

  datatype TestRunStatus = Created | InProgress | Complete

  /** One JSON-path equality assertion on a request body. */
  datatype TestCasePredicate = TestCasePredicate(id: ObjectId, attribute: string, expectedValue: string)

  /** A test case with its predicates fully resolved. */
  datatype TestCase = TestCase(
    id: ObjectId,
    name: string,
    url: string,
    expectedStatus: int,
    predicates: seq<TestCasePredicate>)

  datatype TestSuite = TestSuite(id: ObjectId, name: string, testCases: seq<TestCase>)

  /** A captured HTTP exchange; `request` is the serialized JSON body. */
  datatype Transaction = Transaction(
    id: ObjectId,
    testRunId: string,
    url: string,
    status: int,
    request: string,
    timestamp: Timestamp)

  /** Go's zero value of a transaction, returned when nothing matches. */
  const ZeroTransaction := Transaction("", "", "", 0, "", 0)

  datatype TestResult = TestResult(
    testCase: TestCase,
    status: TestStatus,
    transaction: Transaction,
    timestamp: Timestamp)

  datatype TestCaseReport = TestCaseReport(testCase: TestCase, status: TestStatus)

  /** The two libraries whose code is not part of this model.
      `jsonRaw(body, path)` is the raw JSON text that gjson finds at `path`
      in `body`, the empty string when the path is absent;
      `templateMatch(pattern, url)` is urlpath's verdict on whether `url`
      fits the template `pattern`. */
  datatype Libraries = Libraries(
    jsonRaw: (string, string) -> string,
    templateMatch: (string, string) -> bool)
}
