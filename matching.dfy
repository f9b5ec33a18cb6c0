/** Predicate evaluation, URL matching and the choice of one transaction per
    test case (testcollectorhelpers.go). */
module Matching {
  import opened Types
  import opened Text

  /** `cleanse`: every leading and trailing double quote removed. */
  function Cleanse(input: string): (r: string)
    ensures |r| <= |input|
    ensures QuoteFree(r)
  {
    TrimQuotes(input)
  }

  lemma CleanseIdempotent(input: string)
    ensures QuoteFree(Cleanse(input))
    ensures Cleanse(Cleanse(input)) == Cleanse(input)
  {
    TrimQuotesIdempotent(input);
  }

  /** `matchPredicate`: the value gjson finds at `path` in `requestString`,
      stripped of quotes, equals `expectedValue` up to ASCII case; an absent
      path never matches. */
  function MatchPredicate(lib: Libraries, requestString: string, path: string, expectedValue: string): (r: bool)
    ensures lib.jsonRaw(requestString, path) == "" ==> !r
  {
    var raw := lib.jsonRaw(requestString, path);
    if raw == "" then false
    else Lower(Cleanse(raw)) == Lower(expectedValue)
  }

  /** The expected value is compared without regard to ASCII case. */
  lemma MatchPredicateCaseInsensitive(lib: Libraries, body: string, path: string, e1: string, e2: string)
    requires Lower(e1) == Lower(e2)
    ensures MatchPredicate(lib, body, path, e1) == MatchPredicate(lib, body, path, e2)
  {
  }

  lemma MatchPredicateAbcExample(lib: Libraries, body: string, path: string)
    ensures MatchPredicate(lib, body, path, "abc") == MatchPredicate(lib, body, path, "ABC")
  {
    assert Lower("ABC") == "abc";
    MatchPredicateCaseInsensitive(lib, body, path, "abc", "ABC");
  }

  /** A JSON string value matches its unquoted text, in any case. */
  lemma {:induction false} QuotedValueMatches(lib: Libraries, body: string, path: string, v: string, e: string)
    requires lib.jsonRaw(body, path) == "\"" + v + "\""
    requires QuoteFree(v) && Lower(e) == Lower(v)
    ensures MatchPredicate(lib, body, path, e)
  {
    var raw := "\"" + v + "\"";
    assert raw[1..1 + |v|] == v && raw[..1] == "\"" && raw[1 + |v|..] == "\"";
    assert QuotedWindow(raw, 1, v);
    TrimQuotesUnique(raw, 1, v);
  }

  /** A raw value with no quote at either end, a number or a literal, matches its own text. */
  lemma {:induction false} RawTextMatchesItself(lib: Libraries, body: string, path: string)
    requires lib.jsonRaw(body, path) != "" && QuoteFree(lib.jsonRaw(body, path))
    ensures MatchPredicate(lib, body, path, lib.jsonRaw(body, path))
  {
    var raw := lib.jsonRaw(body, path);
    assert raw[0..|raw|] == raw && raw[..0] == [] && raw[|raw|..] == [];
    assert QuotedWindow(raw, 0, raw);
    TrimQuotesUnique(raw, 0, raw);
  }

  /** A JSON string whose text ends in an escaped quote loses that quote to
      the trimming, so it does not match its own text. */
  lemma {:induction false} EscapedTrailingQuoteLost(lib: Libraries, body: string, path: string, w: string)
    requires w != [] && w[0] != '"'
    requires lib.jsonRaw(body, path) == "\"" + w + "\\\"" + "\""
    ensures Cleanse(lib.jsonRaw(body, path)) == w + "\\"
    ensures !MatchPredicate(lib, body, path, w + "\\\"")
  {
    var raw := lib.jsonRaw(body, path);
    var t := w + "\\";
    assert raw[1..1 + |t|] == t && raw[..1] == "\"" && raw[1 + |t|..] == "\"\"";
    assert QuotedWindow(raw, 1, t);
    assert t[0] == w[0] && t[|t| - 1] == '\\';
    TrimQuotesUnique(raw, 1, t);
    assert |Lower(Cleanse(raw))| != |Lower(w + "\\\"")|;
  }

  /** Numbers are compared by their JSON text: `300` matches "300", `300.0` does not. */
  lemma NumbersCompareAsText(lib: Libraries, body: string, path: string)
    ensures lib.jsonRaw(body, path) == "300" ==> MatchPredicate(lib, body, path, "300")
    ensures lib.jsonRaw(body, path) == "300.0" ==> !MatchPredicate(lib, body, path, "300")
  {
    if lib.jsonRaw(body, path) == "300" {
      assert "300"[0..3] == "300" && QuotedWindow("300", 0, "300");
      TrimQuotesUnique("300", 0, "300");
    }
    if lib.jsonRaw(body, path) == "300.0" {
      assert "300.0"[0..5] == "300.0" && QuotedWindow("300.0", 0, "300.0");
      TrimQuotesUnique("300.0", 0, "300.0");
      assert |Lower(Cleanse("300.0"))| == 5;
    }
  }

  /** All layers of quotes go, not just one: `""a""` compares as `a`. */
  lemma NestedQuotesAllStripped()
    ensures Cleanse("\"\"a\"\"") == "a"
  {
    var s := "\"\"a\"\"";
    assert s[2..3] == "a" && s[..2] == "\"\"" && s[3..] == "\"\"";
    assert QuotedWindow(s, 2, "a");
    TrimQuotesUnique(s, 2, "a");
  }

  /** Every predicate of a test case holds on the transaction's request body. */
  predicate AllPredicatesMatch(lib: Libraries, predicates: seq<TestCasePredicate>, transaction: Transaction) {
    forall i :: 0 <= i < |predicates| ==>
      MatchPredicate(lib, transaction.request, predicates[i].attribute, predicates[i].expectedValue)
  }

  /** `validatePredicatesForTransaction`: stops at the first failing predicate. */
  method ValidatePredicatesForTransaction(lib: Libraries, predicates: seq<TestCasePredicate>, transaction: Transaction)
    returns (allMatched: bool)
    ensures allMatched <==> AllPredicatesMatch(lib, predicates, transaction)
    ensures predicates == [] ==> allMatched
  {
    allMatched := true;
    var k := 0;
    while k < |predicates|
      invariant 0 <= k <= |predicates|
      invariant allMatched
      invariant AllPredicatesMatch(lib, predicates[..k], transaction)
    {
      var p := predicates[k];
      if !MatchPredicate(lib, transaction.request, p.attribute, p.expectedValue) {
        allMatched := false;
        break;
      }
      assert predicates[..k + 1] == predicates[..k] + [p];
      k := k + 1;
    }
    assert allMatched ==> predicates[..k] == predicates;
  }

  /** `urlMatches`: exact equality, else the URL-template library decides. */
  function UrlMatches(lib: Libraries, url: string, urlPattern: string): (r: bool)
    ensures url == urlPattern ==> r
    ensures url != urlPattern ==> r == lib.templateMatch(urlPattern, url)
  {
    if url == urlPattern then true else lib.templateMatch(urlPattern, url)
  }

  /** A URL always matches itself, whatever the library makes of it as a template. */
  lemma UrlMatchesItself(lib: Libraries, url: string)
    ensures UrlMatches(lib, url, url)
  {
  }

  /** The transaction passes the test case's URL check and all its predicates. */
  predicate FullMatch(lib: Libraries, testCase: TestCase, transaction: Transaction) {
    UrlMatches(lib, transaction.url, testCase.url) && AllPredicatesMatch(lib, testCase.predicates, transaction)
  }

  /** A full match that also carries the expected status code. */
  predicate Succeeds(lib: Libraries, testCase: TestCase, transaction: Transaction) {
    FullMatch(lib, testCase, transaction) && transaction.status == testCase.expectedStatus
  }

  /** What `matchTransactionToTestCase` may return: the first successful
      transaction; failing that, the last full match; failing that, the zero
      transaction with NotAttempted. */
  predicate IsSelection(lib: Libraries, testCase: TestCase, transactions: seq<Transaction>,
                        transaction: Transaction, status: TestStatus)
  {
    match status
    case NotAttempted =>
      transaction == ZeroTransaction
      && forall k :: 0 <= k < |transactions| ==> !FullMatch(lib, testCase, transactions[k])
    case Success =>
      exists k :: 0 <= k < |transactions| && transactions[k] == transaction
        && Succeeds(lib, testCase, transactions[k])
        && forall j :: 0 <= j < k ==> !Succeeds(lib, testCase, transactions[j])
    case Failure =>
      (forall k :: 0 <= k < |transactions| ==> !Succeeds(lib, testCase, transactions[k]))
      && (exists k :: 0 <= k < |transactions| && transactions[k] == transaction
            && FullMatch(lib, testCase, transactions[k])
            && forall j :: k < j < |transactions| ==> !FullMatch(lib, testCase, transactions[j]))
  }

  /** An independent, recursive statement of the tie-break rule: a success at
      the head wins; otherwise the rest decides, and the head counts as a
      failure only when the rest has no full match at all. */
  function Select(lib: Libraries, testCase: TestCase, transactions: seq<Transaction>): (r: (Transaction, TestStatus))
  {
    if transactions == [] then (ZeroTransaction, NotAttempted)
    else if Succeeds(lib, testCase, transactions[0]) then (transactions[0], Success)
    else
      var rest := Select(lib, testCase, transactions[1..]);
      if rest.1 == NotAttempted && FullMatch(lib, testCase, transactions[0]) then (transactions[0], Failure)
      else rest
  }

  lemma {:induction false} SelectIsSelection(lib: Libraries, testCase: TestCase, transactions: seq<Transaction>)
    ensures IsSelection(lib, testCase, transactions, Select(lib, testCase, transactions).0, Select(lib, testCase, transactions).1)
  {
    if transactions != [] && !Succeeds(lib, testCase, transactions[0]) {
      var tail := transactions[1..];
      SelectIsSelection(lib, testCase, tail);
      var rest := Select(lib, testCase, tail);
      if rest.1 == NotAttempted && FullMatch(lib, testCase, transactions[0]) {
        assert forall k :: 0 < k < |transactions| ==> transactions[k] == tail[k - 1];
      } else {
        match rest.1
        case NotAttempted =>
          assert forall k :: 0 < k < |transactions| ==> transactions[k] == tail[k - 1];
        case Success =>
          var k :| 0 <= k < |tail| && tail[k] == rest.0 && Succeeds(lib, testCase, tail[k])
            && forall j :: 0 <= j < k ==> !Succeeds(lib, testCase, tail[j]);
          assert transactions[k + 1] == tail[k];
          assert forall j :: 0 < j < k + 1 ==> transactions[j] == tail[j - 1];
        case Failure =>
          var k :| 0 <= k < |tail| && tail[k] == rest.0 && FullMatch(lib, testCase, tail[k])
            && forall j :: k < j < |tail| ==> !FullMatch(lib, testCase, tail[j]);
          assert transactions[k + 1] == tail[k];
          assert forall j :: 0 < j < |transactions| ==> transactions[j] == tail[j - 1];
      }
    }
  }

  /** IsSelection leaves no choice: at most one (transaction, status) pair satisfies it. */
  lemma SelectionUnique(lib: Libraries, testCase: TestCase, transactions: seq<Transaction>,
                        t1: Transaction, s1: TestStatus, t2: Transaction, s2: TestStatus)
    requires IsSelection(lib, testCase, transactions, t1, s1)
    requires IsSelection(lib, testCase, transactions, t2, s2)
    ensures t1 == t2 && s1 == s2
  {
    if s1 == Success && s2 == Success {
      var k1 :| 0 <= k1 < |transactions| && transactions[k1] == t1 && Succeeds(lib, testCase, transactions[k1])
        && forall j :: 0 <= j < k1 ==> !Succeeds(lib, testCase, transactions[j]);
      var k2 :| 0 <= k2 < |transactions| && transactions[k2] == t2 && Succeeds(lib, testCase, transactions[k2])
        && forall j :: 0 <= j < k2 ==> !Succeeds(lib, testCase, transactions[j]);
      assert k1 == k2;
    } else if s1 == Failure && s2 == Failure {
      var k1 :| 0 <= k1 < |transactions| && transactions[k1] == t1 && FullMatch(lib, testCase, transactions[k1])
        && forall j :: k1 < j < |transactions| ==> !FullMatch(lib, testCase, transactions[j]);
      var k2 :| 0 <= k2 < |transactions| && transactions[k2] == t2 && FullMatch(lib, testCase, transactions[k2])
        && forall j :: k2 < j < |transactions| ==> !FullMatch(lib, testCase, transactions[j]);
      assert k1 == k2;
    }
  }

  /** The status alone says whether anything matched, and whether anything succeeded. */
  lemma SelectionStatus(lib: Libraries, testCase: TestCase, transactions: seq<Transaction>,
                        transaction: Transaction, status: TestStatus)
    requires IsSelection(lib, testCase, transactions, transaction, status)
    ensures status == NotAttempted <==> forall k :: 0 <= k < |transactions| ==> !FullMatch(lib, testCase, transactions[k])
    ensures status == Success <==> exists k :: 0 <= k < |transactions| && Succeeds(lib, testCase, transactions[k])
    ensures status != NotAttempted ==> FullMatch(lib, testCase, transaction)
    ensures status == Failure ==> transaction.status != testCase.expectedStatus
  {
  }

  /** `matchTransactionToTestCase`: one pass over the transactions, stopping
      at the first success and otherwise keeping the latest full match. */
  method MatchTransactionToTestCase(lib: Libraries, testCase: TestCase, transactions: seq<Transaction>)
    returns (matchingTransaction: Transaction, testStatus: TestStatus, err: Option<string>)
    ensures IsSelection(lib, testCase, transactions, matchingTransaction, testStatus)
    ensures (matchingTransaction, testStatus) == Select(lib, testCase, transactions)
    ensures err == None
  {
    err := None;
    matchingTransaction := ZeroTransaction;
    testStatus := NotAttempted;
    ghost var last := 0;
    var i := 0;
    while i < |transactions|
      invariant 0 <= i <= |transactions|
      invariant testStatus != Success
      invariant forall k :: 0 <= k < i ==> !Succeeds(lib, testCase, transactions[k])
      invariant testStatus == NotAttempted ==>
        matchingTransaction == ZeroTransaction
        && forall k :: 0 <= k < i ==> !FullMatch(lib, testCase, transactions[k])
      invariant testStatus == Failure ==>
        0 <= last < i && transactions[last] == matchingTransaction
        && FullMatch(lib, testCase, transactions[last])
        && forall j :: last < j < i ==> !FullMatch(lib, testCase, transactions[j])
    {
      var transaction := transactions[i];
      if !UrlMatches(lib, transaction.url, testCase.url) {
        assert !FullMatch(lib, testCase, transactions[i]);
        i := i + 1;
        continue;
      }
      var allMatched := ValidatePredicatesForTransaction(lib, testCase.predicates, transaction);
      assert allMatched == FullMatch(lib, testCase, transactions[i]);
      if allMatched {
        if transaction.status == testCase.expectedStatus {
          testStatus := Success;
        } else {
          testStatus := Failure;
        }
        matchingTransaction := transaction;
        last := i;
        if testStatus == Success {
          break;
        }
      }
      assert !Succeeds(lib, testCase, transactions[i]);
      i := i + 1;
    }
    SelectIsSelection(lib, testCase, transactions);
    var expected := Select(lib, testCase, transactions);
    SelectionUnique(lib, testCase, transactions, matchingTransaction, testStatus, expected.0, expected.1);
  }

  /** With no predicates, a transaction at the requested URL succeeds exactly
      when its status code is the expected one, and fails otherwise. */
  lemma NoPredicatesDecidedByStatus(lib: Libraries, testCase: TestCase, transaction: Transaction)
    requires testCase.predicates == []
    requires UrlMatches(lib, transaction.url, testCase.url)
    ensures Select(lib, testCase, [transaction]).1
      == if transaction.status == testCase.expectedStatus then Success else Failure
  {
  }

  /** Scanning goes on past a failing full match and past a partial match to
      reach an older success. */
  lemma {:induction false} SuccessFoundPastFailure(lib: Libraries, testCase: TestCase, t1: Transaction, t2: Transaction, t3: Transaction)
    requires !FullMatch(lib, testCase, t1)
    requires FullMatch(lib, testCase, t2) && t2.status != testCase.expectedStatus
    requires Succeeds(lib, testCase, t3)
    ensures Select(lib, testCase, [t1, t2, t3]) == (t3, Success)
  {
    var ts := [t1, t2, t3];
    assert ts[1..] == [t2, t3] && ts[1..][1..] == [t3];
    assert Select(lib, testCase, [t3]) == (t3, Success);
    assert Select(lib, testCase, [t2, t3]) == (t3, Success);
  }

  /** Without any success, the last full match scanned wins: the older of two failures. */
  lemma {:induction false} LastFailureKept(lib: Libraries, testCase: TestCase, t1: Transaction, t2: Transaction)
    requires FullMatch(lib, testCase, t1) && t1.status != testCase.expectedStatus
    requires FullMatch(lib, testCase, t2) && t2.status != testCase.expectedStatus
    ensures Select(lib, testCase, [t1, t2]) == (t2, Failure)
  {
    var ts := [t1, t2];
    assert ts[1..] == [t2] && ts[1..][1..] == [];
    assert Select(lib, testCase, []) == (ZeroTransaction, NotAttempted);
    assert Select(lib, testCase, [t2]) == (t2, Failure);
  }
}
