/** The plain-text rendering of one test case (`prettyFormatTestCase` in
    testsuiteops.go). */
module PrettyPrint {
  import opened Types
  import opened Text

  const Joiner := " AND\n"

  /** The four header lines: name, URL, expected status code and "Criteria:". */
  function Header(testCase: TestCase): (r: string) {
    "Test Case Name: " + testCase.name + "\n"
    + "URL: " + testCase.url + "\n"
    + "Expected Status Code: " + IntToDecimal(testCase.expectedStatus) + "\n"
    + "Criteria:\n"
  }

  /** One predicate, without its line ending. */
  function PredicateText(p: TestCasePredicate): (r: string) {
    "\t" + p.attribute + " == " + p.expectedValue
  }

  function PredicateTexts(predicates: seq<TestCasePredicate>): (r: seq<string>)
    ensures |r| == |predicates|
    ensures forall i :: 0 <= i < |predicates| ==> r[i] == PredicateText(predicates[i])
  {
    seq(|predicates|, i requires 0 <= i < |predicates| => PredicateText(predicates[i]))
  }

  /** The whole rendering: the header, then the predicates joined by " AND\n"
      and closed by a newline; nothing after the header when there are none. */
  function Rendering(testCase: TestCase): (r: string) {
    Header(testCase)
    + if testCase.predicates == [] then ""
      else Join(PredicateTexts(testCase.predicates), Joiner) + "\n"
  }

  /** The line ending after predicate i: the joiner, except after the last one. */
  function Separator(predicates: seq<TestCasePredicate>, i: nat): (r: string) {
    if i < |predicates| - 1 then Joiner else "\n"
  }

  /** The first k predicate lines, each with its own ending. */
  ghost function CriteriaPrefix(predicates: seq<TestCasePredicate>, k: nat): (r: string)
    requires k <= |predicates|
  {
    if k == 0 then ""
    else CriteriaPrefix(predicates, k - 1) + PredicateText(predicates[k - 1]) + Separator(predicates, k - 1)
  }

  /** Line by line, predicate i ends in the joiner unless it is the last, so
      the lines read as the predicate texts joined and closed by a newline. */
  lemma {:induction false} CriteriaPrefixIsJoin(predicates: seq<TestCasePredicate>, k: nat)
    requires 1 <= k <= |predicates|
    ensures CriteriaPrefix(predicates, k) == Join(PredicateTexts(predicates)[..k], Joiner) + Separator(predicates, k - 1)
  {
    var texts := PredicateTexts(predicates);
    if k == 1 {
      assert texts[..1] == [PredicateText(predicates[0])];
    } else {
      CriteriaPrefixIsJoin(predicates, k - 1);
      assert texts[..k] == texts[..k - 1] + [PredicateText(predicates[k - 1])];
      JoinSnoc(texts[..k - 1], PredicateText(predicates[k - 1]), Joiner);
    }
  }

  /** `prettyFormatTestCase`: writes the header, then each predicate followed
      by " AND\n" or, after the last, by "\n". */
  method PrettyFormatTestCase(testCase: TestCase) returns (s: string)
    ensures s == Rendering(testCase)
  {
    var predicates := testCase.predicates;
    s := "Test Case Name: " + testCase.name + "\n";
    s := s + "URL: " + testCase.url + "\n";
    s := s + "Expected Status Code: " + IntToDecimal(testCase.expectedStatus) + "\n";
    s := s + "Criteria:\n";
    assert s == Header(testCase);
    var index := 0;
    while index < |predicates|
      invariant 0 <= index <= |predicates|
      invariant s == Header(testCase) + CriteriaPrefix(predicates, index)
    {
      var p := predicates[index];
      s := s + "\t" + p.attribute + " == " + p.expectedValue;
      if index < |predicates| - 1 {
        s := s + " AND\n";
      } else {
        s := s + "\n";
      }
      index := index + 1;
    }
    if predicates != [] {
      CriteriaPrefixIsJoin(predicates, |predicates|);
      assert PredicateTexts(predicates)[..|predicates|] == PredicateTexts(predicates);
    }
  }

  /** The rendering opens with the name line and then the URL line. */
  lemma RenderingStartsWithNameAndUrl(testCase: TestCase)
    ensures var prefix := "Test Case Name: " + testCase.name + "\n" + "URL: " + testCase.url + "\n";
      |prefix| <= |Rendering(testCase)| && Rendering(testCase)[..|prefix|] == prefix
  {
    var prefix := "Test Case Name: " + testCase.name + "\n" + "URL: " + testCase.url + "\n";
    assert Rendering(testCase) == prefix + (Rendering(testCase)[|prefix|..]);
  }

  /** The status line carries the decimal digits of the expected status, which
      read back as that status; with no predicates the text stops after "Criteria:". */
  lemma {:induction false} RenderingStatusLine(testCase: TestCase)
    ensures ParseInt(IntToDecimal(testCase.expectedStatus)) == testCase.expectedStatus
    ensures testCase.predicates == [] ==> Rendering(testCase) == Header(testCase)
    ensures |Header(testCase)| <= |Rendering(testCase)| && Rendering(testCase)[..|Header(testCase)|] == Header(testCase)
    ensures Rendering(testCase)[|Rendering(testCase)| - 1] == '\n'
  {
    IntToDecimalRoundTrip(testCase.expectedStatus);
  }
}
