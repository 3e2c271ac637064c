/** Character classes and the string operations the extractor leans on:
    `str.strip()`, `len(str.split())`, and the section-number pattern `^\d+(\.\d+)*`. */
module Text {

  /** Whitespace as `str.strip()`, `str.split()` and the regex class `\s` see it among the
      ASCII characters: space, tab, line feed, vertical tab, form feed, carriage return and the
      four separators 0x1C-0x1F. */
  predicate IsSpace(c: char) {
    c == ' ' || c == '\t' || c == '\n' || c == '\r' || c == '\U{B}' || c == '\U{C}'
    || '\U{1C}' <= c <= '\U{1F}'
  }

  /** The regex class `\d` (ASCII only). */
  predicate IsDigit(c: char) {
    '0' <= c <= '9'
  }

  /** The regex class `\w` (ASCII only). */
  predicate IsWordChar(c: char) {
    'a' <= c <= 'z' || 'A' <= c <= 'Z' || IsDigit(c) || c == '_'
  }

  /** Empty, or starting and ending with a non-whitespace character. */
  predicate Trimmed(s: string) {
    s == [] || (!IsSpace(s[0]) && !IsSpace(s[|s| - 1]))
  }

  predicate AllSpace(s: string) {
    forall k :: 0 <= k < |s| ==> IsSpace(s[k])
  }

  /** Number of whitespace characters at the start of s. */
  function LeadingSpaces(s: string): (n: nat)
    ensures n <= |s|
  {
    if s == [] || !IsSpace(s[0]) then 0 else 1 + LeadingSpaces(s[1..])
  }

  /** The leading run is whitespace and is maximal. */
  lemma {:induction false} LeadingSpacesRun(s: string)
    ensures forall k :: 0 <= k < LeadingSpaces(s) ==> IsSpace(s[k])
    ensures LeadingSpaces(s) < |s| ==> !IsSpace(s[LeadingSpaces(s)])
  {
    if s != [] && IsSpace(s[0]) {
      LeadingSpacesRun(s[1..]);
    }
  }

  /** Number of whitespace characters at the end of s. */
  function TrailingSpaces(s: string): (n: nat)
    ensures n <= |s|
  {
    if s == [] || !IsSpace(s[|s| - 1]) then 0 else 1 + TrailingSpaces(s[..|s| - 1])
  }

  /** The trailing run is whitespace and is maximal. */
  lemma {:induction false} TrailingSpacesRun(s: string)
    ensures forall k :: |s| - TrailingSpaces(s) <= k < |s| ==> IsSpace(s[k])
    ensures TrailingSpaces(s) < |s| ==> !IsSpace(s[|s| - 1 - TrailingSpaces(s)])
  {
    if s != [] && IsSpace(s[|s| - 1]) {
      TrailingSpacesRun(s[..|s| - 1]);
    }
  }

  /** `s.strip()`: s without its leading and trailing whitespace. The result is the
      trimmed infix of s that only whitespace surrounds. */
  function Strip(s: string): (r: string)
    ensures Trimmed(r)
    ensures exists i :: 0 <= i <= |s| - |r| && r == s[i..i + |r|]
                        && AllSpace(s[..i]) && AllSpace(s[i + |r|..])
    ensures r == [] <==> AllSpace(s)
    ensures Trimmed(s) ==> r == s
  {
    var i := LeadingSpaces(s);
    var j := |s| - TrailingSpaces(s[i..]);
    StripLeft(s, i, j);
    StripRight(s, i, j);
    StripExtremes(s, i, j);
    var r := s[i..j];
    assert r == s[i..i + |r|] && AllSpace(s[i + |r|..]);
    r
  }

  /** The strip's left bound: whitespace before i, and a non-whitespace character at i
      unless nothing is kept. */
  lemma StripLeft(s: string, i: nat, j: nat)
    requires i == LeadingSpaces(s) && j == |s| - TrailingSpaces(s[i..])
    ensures i <= j <= |s| && AllSpace(s[..i])
    ensures i < j ==> !IsSpace(s[i])
  {
    LeadingSpacesRun(s);
  }

  /** The strip's right bound: whitespace from j on, and a non-whitespace character just
      before j unless nothing is kept. */
  lemma StripRight(s: string, i: nat, j: nat)
    requires i == LeadingSpaces(s) && j == |s| - TrailingSpaces(s[i..])
    ensures AllSpace(s[j..])
    ensures i < j ==> !IsSpace(s[j - 1])
  {
    var t := s[i..];
    TrailingSpacesRun(t);
    assert s[j..] == t[j - i..];
    if i < j {
      assert s[j - 1] == t[j - 1 - i];
    }
  }

  /** Nothing is kept exactly when s is all whitespace, and all of a trimmed s is kept. */
  lemma StripExtremes(s: string, i: nat, j: nat)
    requires i == LeadingSpaces(s) && j == |s| - TrailingSpaces(s[i..])
    ensures i == j <==> AllSpace(s)
    ensures Trimmed(s) ==> i == 0 && j == |s|
  {
    LeadingSpacesRun(s);
    var t := s[i..];
    TrailingSpacesRun(t);
    if i == j {
      assert i == |s|;
      assert s[..i] == s;
    }
    if Trimmed(s) && s != [] {
      assert i == 0;
      assert t == s;
    }
  }

  /** Position i starts a token: a non-whitespace character at the start or after whitespace. */
  predicate StartsToken(s: string, i: nat)
    requires i < |s|
  {
    !IsSpace(s[i]) && (i == 0 || IsSpace(s[i - 1]))
  }

  /** `len(s.split())`: the number of maximal runs of non-whitespace characters in s. */
  function TokenCount(s: string): (n: nat)
    ensures n <= |s|
    ensures n == 0 <==> AllSpace(s)
  {
    if s == [] then 0
    else TokenCount(s[..|s| - 1]) + (if StartsToken(s, |s| - 1) then 1 else 0)
  }

  /** A single word, with no whitespace in it, is one token. */
  lemma {:induction false} OneWordIsOneToken(s: string)
    requires s != [] && forall k :: 0 <= k < |s| ==> !IsSpace(s[k])
    ensures TokenCount(s) == 1
  {
    if |s| > 1 {
      OneWordIsOneToken(s[..|s| - 1]);
    }
  }

  /** Joining with one space adds up the tokens of both sides: the space starts no token, and
      a token starts at the head of b exactly when it does in b alone. */
  lemma {:induction false} TokenCountJoin(a: string, b: string)
    ensures TokenCount(a + " " + b) == TokenCount(a) + TokenCount(b)
    decreases |b|
  {
    var s := a + " " + b;
    if b == [] {
      assert s[..|s| - 1] == a;
    } else {
      var b' := b[..|b| - 1];
      assert s[..|s| - 1] == a + " " + b';
      TokenCountJoin(a, b');
      assert StartsToken(s, |s| - 1) == StartsToken(b, |b| - 1);
    }
  }

  /** Two words joined by a space are two tokens, so they pass the normaliser's two-token test. */
  lemma TwoWordsAreTwoTokens(a: string, b: string)
    requires a != [] && forall k :: 0 <= k < |a| ==> !IsSpace(a[k])
    requires b != [] && forall k :: 0 <= k < |b| ==> !IsSpace(b[k])
    ensures TokenCount(a + " " + b) == 2
  {
    TokenCountJoin(a, b);
    OneWordIsOneToken(a);
    OneWordIsOneToken(b);
  }

  /** Positions i < j < k hold a non-whitespace, a whitespace and a non-whitespace character. */
  predicate WordsAt(s: string, i: nat, j: nat, k: nat) {
    i < j < k < |s| && !IsSpace(s[i]) && IsSpace(s[j]) && !IsSpace(s[k])
  }

  /** s holds two words separated by whitespace. */
  predicate TwoWords(s: string) {
    exists i: nat, j: nat, k: nat :: i < j < k < |s| && WordsAt(s, i, j, k)
  }

  lemma WordsAtInit(s: string, i: nat, j: nat, k: nat)
    requires WordsAt(s, i, j, k) && k < |s| - 1
    ensures WordsAt(s[..|s| - 1], i, j, k)
  {
  }

  lemma {:induction false} TwoTokensHaveTwoWords(s: string)
    requires TokenCount(s) >= 2
    ensures TwoWords(s)
    decreases |s|
  {
    var n := |s|;
    var init := s[..n - 1];
    if TokenCount(init) >= 2 {
      TwoTokensHaveTwoWords(init);
      var i: nat, j: nat, k: nat :| i < j < k < |init| && WordsAt(init, i, j, k);
      assert WordsAt(s, i, j, k);
    } else {
      assert StartsToken(s, n - 1) && n >= 2;
      assert !AllSpace(init);
      var i :| 0 <= i < |init| && !IsSpace(init[i]);
      assert WordsAt(s, i, n - 2, n - 1);
    }
  }

  lemma {:induction false} TwoWordsHaveTwoTokens(s: string, i: nat, j: nat, k: nat)
    requires WordsAt(s, i, j, k)
    ensures TokenCount(s) >= 2
    decreases |s|
  {
    var n := |s|;
    var init := s[..n - 1];
    if k < n - 1 {
      WordsAtInit(s, i, j, k);
      TwoWordsHaveTwoTokens(init, i, j, k);
    } else if !IsSpace(s[n - 2]) {
      assert WordsAt(init, i, j, n - 2);
      TwoWordsHaveTwoTokens(init, i, j, n - 2);
    } else {
      assert !IsSpace(init[i]);
      assert StartsToken(s, n - 1);
    }
  }

  /** `len(s.split()) >= 2` holds exactly when s holds two words separated by whitespace. */
  lemma TokenCountAtLeastTwo(s: string)
    ensures TokenCount(s) >= 2 <==> TwoWords(s)
  {
    if TokenCount(s) >= 2 {
      TwoTokensHaveTwoWords(s);
    }
    if TwoWords(s) {
      var i: nat, j: nat, k: nat :| i < j < k < |s| && WordsAt(s, i, j, k);
      TwoWordsHaveTwoTokens(s, i, j, k);
    }
  }

  /** The whole of s matches `\d+(\.\d+)*`: it ends in a digit, and what comes before that
      digit is empty, a match itself, or a match followed by a dot. */
  predicate SectionNumber(s: string)
    decreases |s|
  {
    && |s| > 0
    && IsDigit(s[|s| - 1])
    && (|s| == 1
        || SectionNumber(s[..|s| - 1])
        || (|s| >= 3 && s[|s| - 2] == '.' && SectionNumber(s[..|s| - 2])))
  }

  /** `re.match(r"^\d+(\.\d+)*", t)` succeeds: some non-empty prefix of t matches. */
  predicate MatchesSectionNumber(t: string) {
    exists k :: 1 <= k <= |t| && SectionNumber(t[..k])
  }

  predicate StartsWithDigit(t: string) {
    |t| > 0 && IsDigit(t[0])
  }

  lemma {:induction false} SectionNumberStartsWithDigit(s: string)
    requires SectionNumber(s)
    ensures IsDigit(s[0])
    decreases |s|
  {
    if |s| > 1 {
      if SectionNumber(s[..|s| - 1]) {
        SectionNumberStartsWithDigit(s[..|s| - 1]);
      } else {
        SectionNumberStartsWithDigit(s[..|s| - 2]);
      }
    }
  }

  /** The numbering test of the outline reduces to a test of the first character, because
      the repeated group `(\.\d+)*` may match nothing. */
  lemma SectionNumberMatchIsDigitTest(t: string)
    ensures MatchesSectionNumber(t) <==> StartsWithDigit(t)
  {
    if MatchesSectionNumber(t) {
      var k :| 1 <= k <= |t| && SectionNumber(t[..k]);
      SectionNumberStartsWithDigit(t[..k]);
    }
    if StartsWithDigit(t) {
      assert SectionNumber(t[..1]);
    }
  }
}
