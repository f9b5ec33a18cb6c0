/** The string operations the engine and its pretty-printer rely on:
    ASCII lower-casing, trimming of double quotes, decimal rendering of
    integers and joining with a separator. */
module Text {

  function LowerChar(c: char): (r: char)
    ensures 'A' <= c <= 'Z' ==> 'a' <= r <= 'z'
    ensures !('A' <= c <= 'Z') ==> r == c
  {
    if 'A' <= c <= 'Z' then (c as int - 'A' as int + 'a' as int) as char else c
  }

  /** `strings.ToLower`, restricted to ASCII letters. */
  function Lower(s: string): (r: string)
    ensures |r| == |s|
  {
    if s == [] then [] else [LowerChar(s[0])] + Lower(s[1..])
  }

  lemma {:induction false} LowerPointwise(s: string)
    ensures forall i :: 0 <= i < |s| ==> Lower(s)[i] == LowerChar(s[i])
  {
    if s != [] {
      LowerPointwise(s[1..]);
    }
  }

  lemma {:induction false} LowerIdempotent(s: string)
    ensures Lower(Lower(s)) == Lower(s)
  {
    if s != [] {
      LowerIdempotent(s[1..]);
    }
  }

  /** A string made only of double quotes (possibly empty). */
  predicate AllQuotes(s: string) {
    forall i :: 0 <= i < |s| ==> s[i] == '"'
  }

  /** Neither the first nor the last character is a double quote. */
  predicate QuoteFree(s: string) {
    s == [] || (s[0] != '"' && s[|s| - 1] != '"')
  }

  /** Removes every leading double quote. */
  function TrimLeftQuotes(s: string): (r: string)
    ensures |r| <= |s|
    ensures r == [] || r[0] != '"'
    decreases |s|
  {
    if |s| > 0 && s[0] == '"' then TrimLeftQuotes(s[1..]) else s
  }

  /** What TrimLeftQuotes removes is a prefix made of quotes. */
  lemma {:induction false} TrimLeftQuotesSuffix(s: string)
    ensures var r := TrimLeftQuotes(s); r == s[|s| - |r|..] && AllQuotes(s[..|s| - |r|])
    decreases |s|
  {
    if |s| > 0 && s[0] == '"' {
      TrimLeftQuotesSuffix(s[1..]);
      var r := TrimLeftQuotes(s);
      assert s[1..][|s| - 1 - |r|..] == s[|s| - |r|..];
      assert forall k :: 1 <= k < |s| - |r| ==> s[k] == s[1..][..|s| - 1 - |r|][k - 1];
    }
  }

  /** Removes every trailing double quote. */
  function TrimRightQuotes(s: string): (r: string)
    ensures |r| <= |s|
    ensures r == [] || r[|r| - 1] != '"'
    decreases |s|
  {
    if |s| > 0 && s[|s| - 1] == '"' then TrimRightQuotes(s[..|s| - 1]) else s
  }

  /** What TrimRightQuotes removes is a suffix made of quotes. */
  lemma {:induction false} TrimRightQuotesPrefix(s: string)
    ensures var r := TrimRightQuotes(s); r == s[..|r|] && AllQuotes(s[|r|..])
    decreases |s|
  {
    if |s| > 0 && s[|s| - 1] == '"' {
      var s' := s[..|s| - 1];
      TrimRightQuotesPrefix(s');
      var r := TrimRightQuotes(s);
      assert s'[..|r|] == s[..|r|];
      assert forall k :: |r| <= k < |s| - 1 ==> s[k] == s'[|r|..][k - |r|];
    }
  }

  /** `strings.Trim(s, "\"")`: `s` with every leading and every trailing
      double quote removed. TrimQuotesWindow and TrimQuotesUnique say
      exactly which part of `s` is left. */
  function TrimQuotes(s: string): (r: string)
    ensures |r| <= |s|
    ensures QuoteFree(r)
  {
    var left := TrimLeftQuotes(s);
    var r := TrimRightQuotes(left);
    TrimRightQuotesPrefix(left);
    assert r == [] || r[0] == left[0];
    r
  }

  /** `r` sits at offset `i` of `s` with only double quotes before and after it. */
  predicate QuotedWindow(s: string, i: nat, r: string) {
    i + |r| <= |s| && r == s[i..i + |r|] && AllQuotes(s[..i]) && AllQuotes(s[i + |r|..])
  }

  /** What TrimQuotes keeps is a window of `s` with only quotes on either side. */
  lemma TrimQuotesWindow(s: string)
    ensures exists i :: QuotedWindow(s, i, TrimQuotes(s))
  {
    var left := TrimLeftQuotes(s);
    var r := TrimRightQuotes(left);
    TrimLeftQuotesSuffix(s);
    TrimRightQuotesPrefix(left);
    assert r == TrimQuotes(s);
    var i := |s| - |left|;
    assert r == left[..|r|];
    forall k | 0 <= k < |left| ensures left[k] == s[i + k] { assert left == s[i..]; }
    assert r == s[i..i + |r|];
    assert s[i + |r|..] == left[|r|..];
    assert QuotedWindow(s, i, r);
  }

  lemma {:induction false} TrimLeftQuotesOfQuoteFree(s: string)
    requires s == [] || s[0] != '"'
    ensures TrimLeftQuotes(s) == s
  {
  }

  lemma {:induction false} TrimQuotesIdempotent(s: string)
    ensures TrimQuotes(TrimQuotes(s)) == TrimQuotes(s)
  {
    var r := TrimQuotes(s);
    TrimLeftQuotesOfQuoteFree(r);
  }

  /** Once a prefix of quotes ends, TrimLeftQuotes stops there. */
  lemma {:induction false} TrimLeftQuotesAt(s: string, i: nat)
    requires i <= |s| && AllQuotes(s[..i]) && (i == |s| || s[i] != '"')
    ensures TrimLeftQuotes(s) == s[i..]
    decreases i
  {
    if i > 0 {
      assert s[..i][0] == s[0];
      assert s[1..][..i - 1] == s[1..i];
      assert AllQuotes(s[1..i]) by {
        forall k | 0 <= k < i - 1 ensures s[1..i][k] == '"' { assert s[1..i][k] == s[..i][k + 1]; }
      }
      TrimLeftQuotesAt(s[1..], i - 1);
      assert s[1..][i - 1..] == s[i..];
    }
  }

  /** A string that ends in quotes after a quote-free last character loses exactly those quotes. */
  lemma {:induction false} TrimRightQuotesAt(s: string, j: nat)
    requires j <= |s| && AllQuotes(s[j..]) && (j == 0 || s[j - 1] != '"')
    ensures TrimRightQuotes(s) == s[..j]
    decreases |s| - j
  {
    if j < |s| {
      var s' := s[..|s| - 1];
      assert s[j..][|s| - 1 - j] == s[|s| - 1];
      assert s'[j..] == s[j..|s| - 1];
      assert AllQuotes(s'[j..]) by {
        forall k | 0 <= k < |s'| - j ensures s'[j..][k] == '"' { assert s[j..][k] == s[j + k]; }
      }
      TrimRightQuotesAt(s', j);
      assert s'[..j] == s[..j];
    }
  }

  /** Two runs of quotes make a run of quotes. */
  lemma QuotesConcat(s: string, i: nat)
    requires i <= |s| && AllQuotes(s[..i]) && AllQuotes(s[i..])
    ensures AllQuotes(s)
  {
    forall k | 0 <= k < |s| ensures s[k] == '"' {
      if k < i { assert s[..i][k] == s[k]; } else { assert s[i..][k - i] == s[k]; }
    }
  }

  /** The characterisation in TrimQuotes's contract pins its result down. */
  lemma {:induction false} TrimQuotesUnique(s: string, i: nat, t: string)
    requires QuotedWindow(s, i, t) && QuoteFree(t)
    ensures t == TrimQuotes(s)
  {
    if t == [] {
      QuotesConcat(s, i);
      assert s[..|s|] == s;
      TrimLeftQuotesAt(s, |s|);
    } else {
      TrimQuotesUniqueNonEmpty(s, i, t);
    }
  }

  lemma {:induction false} TrimQuotesUniqueNonEmpty(s: string, i: nat, t: string)
    requires t != [] && QuotedWindow(s, i, t) && QuoteFree(t)
    ensures t == TrimQuotes(s)
  {
    assert s[i] == t[0];
    TrimLeftQuotesAt(s, i);
    var left := s[i..];
    assert left[..|t|] == t;
    assert left[|t|..] == s[i + |t|..];
    assert left[|t| - 1] == t[|t| - 1];
    TrimRightQuotesAt(left, |t|);
  }

  function DigitChar(d: nat): (c: char)
    requires d < 10
    ensures '0' <= c <= '9'
  {
    ('0' as int + d) as char
  }

  /** The decimal digits of `n`, most significant first, without leading zeros. */
  function NatToDecimal(n: nat): (s: string)
    ensures |s| >= 1
    ensures forall i :: 0 <= i < |s| ==> '0' <= s[i] <= '9'
    ensures |s| > 1 ==> s[0] != '0'
  {
    if n < 10 then [DigitChar(n)] else NatToDecimal(n / 10) + [DigitChar(n % 10)]
  }

  /** What `%d` prints for an integer. */
  function IntToDecimal(i: int): (s: string)
    ensures |s| >= 1
    ensures (s[0] == '-') <==> i < 0
  {
    if i < 0 then "-" + NatToDecimal(-i) else NatToDecimal(i)
  }

  /** The value of a string of decimal digits; the reference reading of `%d`'s output. */
  function DecimalValue(s: string): (r: nat)
    requires forall i :: 0 <= i < |s| ==> '0' <= s[i] <= '9'
  {
    if s == [] then 0 else DecimalValue(s[..|s| - 1]) * 10 + (s[|s| - 1] as int - '0' as int)
  }

  function ParseInt(s: string): (r: int)
    requires |s| >= 1
    requires forall i :: 0 < i < |s| ==> '0' <= s[i] <= '9'
    requires s[0] != '-' ==> '0' <= s[0] <= '9'
  {
    if s[0] == '-' then -(DecimalValue(s[1..]) as int) else DecimalValue(s)
  }

  lemma {:induction false} NatToDecimalRoundTrip(n: nat)
    ensures DecimalValue(NatToDecimal(n)) == n
  {
    if n >= 10 {
      var s := NatToDecimal(n);
      assert s[..|s| - 1] == NatToDecimal(n / 10);
      NatToDecimalRoundTrip(n / 10);
    }
  }

  lemma {:induction false} IntToDecimalRoundTrip(i: int)
    ensures ParseInt(IntToDecimal(i)) == i
  {
    if i < 0 {
      assert IntToDecimal(i)[1..] == NatToDecimal(-i);
      NatToDecimalRoundTrip(-i);
    } else {
      NatToDecimalRoundTrip(i);
    }
  }

  /** `xs` joined with `sep` between consecutive elements. */
  function Join(xs: seq<string>, sep: string): (r: string) {
    if |xs| == 0 then ""
    else if |xs| == 1 then xs[0]
    else xs[0] + sep + Join(xs[1..], sep)
  }

  lemma {:induction false} JoinSnoc(xs: seq<string>, y: string, sep: string)
    requires |xs| >= 1
    ensures Join(xs + [y], sep) == Join(xs, sep) + sep + y
  {
    if |xs| == 1 {
      assert (xs + [y])[1..] == [y];
    } else {
      assert (xs + [y])[1..] == xs[1..] + [y];
      JoinSnoc(xs[1..], y, sep);
    }
  }
}
