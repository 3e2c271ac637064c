/** Repair of line-wrap hyphenation: `re.sub(r"(\w+)-\s+(\w+)", r"\1\2", text)`.

    The pattern needs no backtracking: `-` and whitespace are not word characters, so group 1
    is the whole word run that starts where the match starts, the whitespace run is maximal, and
    group 2 is the maximal word run after it. `re.sub` scans left to right and resumes after
    each match; nothing in the pattern looks behind, so trying the match at position i of the
    whole text is the same as trying it at the start of the rest of the text. */
module Hyphenation {
  import opened Text

  datatype Option<+T> = None | Some(value: T)

  /** Length of the maximal run of word characters that starts at i. */
  function WordRun(s: string, i: nat): (n: nat)
    requires i <= |s|
    ensures i + n <= |s|
    decreases |s| - i
  {
    if i < |s| && IsWordChar(s[i]) then 1 + WordRun(s, i + 1) else 0
  }

  /** The word run is made of word characters and is maximal. */
  lemma {:induction false} WordRunIsMaximal(s: string, i: nat)
    requires i <= |s|
    ensures forall k :: i <= k < i + WordRun(s, i) ==> IsWordChar(s[k])
    ensures i + WordRun(s, i) < |s| ==> !IsWordChar(s[i + WordRun(s, i)])
    decreases |s| - i
  {
    if i < |s| && IsWordChar(s[i]) {
      WordRunIsMaximal(s, i + 1);
    }
  }

  /** Length of the maximal run of whitespace that starts at i. */
  function SpaceRun(s: string, i: nat): (n: nat)
    requires i <= |s|
    ensures i + n <= |s|
    decreases |s| - i
  {
    if i < |s| && IsSpace(s[i]) then 1 + SpaceRun(s, i + 1) else 0
  }

  /** The whitespace run is made of whitespace and is maximal. */
  lemma {:induction false} SpaceRunIsMaximal(s: string, i: nat)
    requires i <= |s|
    ensures forall k :: i <= k < i + SpaceRun(s, i) ==> IsSpace(s[k])
    ensures i + SpaceRun(s, i) < |s| ==> !IsSpace(s[i + SpaceRun(s, i)])
    decreases |s| - i
  {
    if i < |s| && IsSpace(s[i]) {
      SpaceRunIsMaximal(s, i + 1);
    }
  }

  /** One match of the pattern starting at some p: group 1 is s[p..hyphen], s[hyphen] is the
      hyphen, s[hyphen + 1..second] the whitespace, and group 2 is s[second..end]. */
  datatype Match = Match(hyphen: nat, second: nat, end: nat)

  /** What the matcher finds when it tries position p. */
  function MatchAt(s: string, p: nat): (m: Option<Match>)
    requires p <= |s|
    ensures m.Some? ==> p < m.value.hyphen < m.value.second < m.value.end <= |s|
  {
    var a := WordRun(s, p);
    if a == 0 || p + a == |s| || s[p + a] != '-' then None
    else
      var b := SpaceRun(s, p + a + 1);
      if b == 0 then None
      else
        var c := WordRun(s, p + a + 1 + b);
        if c == 0 then None else Some(Match(p + a, p + a + 1 + b, p + a + 1 + b + c))
  }

  /** The pattern occurs at p: a word run s[p..h], the hyphen s[h], whitespace s[h + 1..q] and a
      word run s[q..e]. */
  predicate OccursAt(s: string, p: nat, h: nat, q: nat, e: nat) {
    && p < h && h + 1 < q < e <= |s|
    && (forall k :: p <= k < h ==> IsWordChar(s[k]))
    && s[h] == '-'
    && (forall k :: h < k < q ==> IsSpace(s[k]))
    && (forall k :: q <= k < e ==> IsWordChar(s[k]))
  }

  lemma {:induction false} WordRunCovers(s: string, i: nat, j: nat)
    requires i <= j <= |s| && forall k :: i <= k < j ==> IsWordChar(s[k])
    ensures WordRun(s, i) >= j - i
    decreases j - i
  {
    if i < j {
      WordRunCovers(s, i + 1, j);
    }
  }

  lemma {:induction false} SpaceRunCovers(s: string, i: nat, j: nat)
    requires i <= j <= |s| && forall k :: i <= k < j ==> IsSpace(s[k])
    ensures SpaceRun(s, i) >= j - i
    decreases j - i
  {
    if i < j {
      SpaceRunCovers(s, i + 1, j);
    }
  }

  /** The matcher misses no occurrence: wherever the pattern occurs at p, trying p finds a
      match. */
  lemma MatchAtComplete(s: string, p: nat, h: nat, q: nat, e: nat)
    requires OccursAt(s, p, h, q, e)
    ensures MatchAt(s, p).Some?
  {
    WordRunCovers(s, p, h);
    WordRunIsMaximal(s, p);
    var a := WordRun(s, p);
    assert a == h - p;
    SpaceRunCovers(s, h + 1, q);
    SpaceRunIsMaximal(s, h + 1);
    var b := SpaceRun(s, h + 1);
    assert !IsSpace(s[q]);
    assert b == q - h - 1;
    WordRunCovers(s, q, e);
  }

  /** What the matcher finds is an occurrence of the pattern, and its second word run is
      maximal. */
  lemma MatchAtSound(s: string, p: nat)
    requires p <= |s| && MatchAt(s, p).Some?
    ensures var m := MatchAt(s, p).value;
      && OccursAt(s, p, m.hyphen, m.second, m.end)
      && (m.end == |s| || !IsWordChar(s[m.end]))
  {
    var m := MatchAt(s, p).value;
    WordRunIsMaximal(s, p);
    SpaceRunIsMaximal(s, m.hyphen + 1);
    WordRunIsMaximal(s, m.second);
  }

  /** The matcher's test agrees with the pattern itself: it finds a match somewhere in s
      exactly when `(\w+)-\s+(\w+)` occurs somewhere in s. */
  lemma HasLineBreakHyphenIffOccurs(s: string)
    ensures HasLineBreakHyphen(s) <==>
      exists p: nat, h: nat, q: nat, e: nat :: p < h < q < e <= |s| && OccursAt(s, p, h, q, e)
  {
    if HasLineBreakHyphen(s) {
      var p :| 0 <= p <= |s| && MatchAt(s, p).Some?;
      MatchAtSound(s, p);
    }
    if exists p: nat, h: nat, q: nat, e: nat :: p < h < q < e <= |s| && OccursAt(s, p, h, q, e) {
      var p: nat, h: nat, q: nat, e: nat :| p < h < q < e <= |s| && OccursAt(s, p, h, q, e);
      MatchAtComplete(s, p, h, q, e);
    }
  }

  /** The substitution applied to s[i..]: each match keeps its two word groups and drops the
      hyphen and the whitespace between them. */
  function FixFrom(s: string, i: nat): (r: string)
    requires i <= |s|
    ensures |r| <= |s| - i
    decreases |s| - i
  {
    if i == |s| then ""
    else match MatchAt(s, i)
      case Some(m) => s[i..m.hyphen] + s[m.second..m.end] + FixFrom(s, m.end)
      case None => [s[i]] + FixFrom(s, i + 1)
  }

  /** `fix_hyphenation(text)`; it never makes the text longer. */
  function FixHyphenation(s: string): (r: string)
    ensures |r| <= |s|
  {
    FixFrom(s, 0)
  }

  /** Somewhere in s the pattern `(\w+)-\s+(\w+)` matches. */
  predicate HasLineBreakHyphen(s: string) {
    exists p :: 0 <= p <= |s| && MatchAt(s, p).Some?
  }

  lemma {:induction false} NoMatchFromUnchanged(s: string, i: nat)
    requires i <= |s|
    requires forall p :: i <= p <= |s| ==> MatchAt(s, p).None?
    ensures FixFrom(s, i) == s[i..]
    decreases |s| - i
  {
    if i < |s| {
      NoMatchFromUnchanged(s, i + 1);
      assert [s[i]] + s[i + 1..] == s[i..];
    }
  }

  lemma {:induction false} MatchFromShortens(s: string, i: nat, p: nat)
    requires i <= p <= |s|
    requires MatchAt(s, p).Some?
    ensures |FixFrom(s, i)| < |s| - i
    decreases |s| - i
  {
    if MatchAt(s, i).None? {
      MatchFromShortens(s, i + 1, p);
    }
  }

  /** The text is returned unchanged exactly when the pattern matches nowhere in it; every
      match removes at least the hyphen, so a text with a match always gets shorter. */
  lemma FixHyphenationUnchangedIffNoMatch(s: string)
    ensures FixHyphenation(s) == s <==> !HasLineBreakHyphen(s)
    ensures HasLineBreakHyphen(s) ==> |FixHyphenation(s)| < |s|
  {
    if HasLineBreakHyphen(s) {
      var p :| 0 <= p <= |s| && MatchAt(s, p).Some?;
      MatchFromShortens(s, 0, p);
    } else {
      NoMatchFromUnchanged(s, 0);
    }
  }

  /** The pattern matches at the start of "inter- pret this", with "inter" and "pret" as its groups. */
  lemma InterPretMatch(s: string)
    requires s == "inter- pret this"
    ensures MatchAt(s, 0) == Some(Match(5, 7, 11))
  {
    assert |s| == 16 && s[5] == '-' && s[6] == ' ';
    assert WordRun(s, 11) == 0;
    assert WordRun(s, 10) == 1;
    assert WordRun(s, 9) == 2;
    assert WordRun(s, 8) == 3;
    assert WordRun(s, 7) == 4;
    assert SpaceRun(s, 7) == 0;
    assert SpaceRun(s, 6) == 1;
    assert WordRun(s, 5) == 0;
    assert WordRun(s, 4) == 1;
    assert WordRun(s, 3) == 2;
    assert WordRun(s, 2) == 3;
    assert WordRun(s, 1) == 4;
  }

  /** After that match, " this" holds no further match and is copied as it is. */
  lemma InterPretTail(s: string)
    requires s == "inter- pret this"
    ensures FixFrom(s, 11) == " this"
  {
    assert |s| == 16 && s[11] == ' ';
    assert WordRun(s, 16) == 0;
    assert WordRun(s, 15) == 1;
    assert WordRun(s, 14) == 2;
    assert WordRun(s, 13) == 3;
    assert FixFrom(s, 15) == "s";
    assert FixFrom(s, 14) == "is";
    assert FixFrom(s, 13) == "his";
  }

  /** A word broken at the end of a line is joined again; the ordinary space stays. */
  lemma InterPretExample(s: string)
    requires s == "inter- pret this"
    ensures FixHyphenation(s) == "interpret this"
  {
    InterPretMatch(s);
    InterPretTail(s);
    assert s[0..5] + s[7..11] == "interpret";
  }
}
