/** Span records, the normalisation filter applied to what the layout engine extracts, the
    space join of span texts, and the stable sort by (page, y). */
module Spans {
  import opened Text

  /** A bounding box as the layout engine reports it: (x0, y0, x1, y1). */
  datatype BBox = BBox(x0: real, y0: real, x1: real, y1: real)

  /** One span as the layout engine hands it over, with its zero-based page index; its font
      size is taken as already rounded to one decimal. */
  datatype RawSpan = RawSpan(text: string, size: real, page: nat, bbox: BBox)

  /** A normalised span, and after merging a block: the record with keys text, size, page,
      y (top), y2 (bottom), x (left) and x2 (right). */
  datatype Span = Span(text: string, size: real, page: nat, y: real, y2: real, x: real, x2: real)

  function Abs(r: real): real {
    if r < 0.0 then -r else r
  }

  /** The text test of the normaliser, applied to the stripped text: non-empty and at least
      two whitespace-separated tokens. */
  predicate Informative(text: string) {
    text != [] && TokenCount(text) >= 2
  }

  /** The raw span survives normalisation: its stripped text is informative. */
  predicate Survives(r: RawSpan) {
    Informative(Strip(r.text))
  }

  /** The record built for a kept raw span: stripped text, and page and box copied. */
  function SpanOf(r: RawSpan): Span {
    Span(Strip(r.text), r.size, r.page, r.bbox.y0, r.bbox.y1, r.bbox.x0, r.bbox.x1)
  }

  /** What every normalised span satisfies. */
  predicate Normalised(s: Span) {
    Trimmed(s.text) && Informative(s.text)
  }

  /** The spans of `raw` that survive normalisation, in extraction order. */
  function Normalise(raw: seq<RawSpan>): (spans: seq<Span>)
    ensures |spans| <= |raw|
    ensures forall s :: s in spans ==> Normalised(s)
  {
    if raw == [] then []
    else
      var init := raw[..|raw| - 1];
      var r := raw[|raw| - 1];
      assert raw == init + [r];
      if Survives(r) then Normalise(init) + [SpanOf(r)] else Normalise(init)
  }

  /** Exactly the kept raw spans come through, each with its stripped text and its page and
      box copied unchanged. */
  lemma {:induction false} NormaliseKeepsExactlyKept(raw: seq<RawSpan>)
    ensures forall s :: s in Normalise(raw) ==> exists r :: r in raw && Survives(r) && s == SpanOf(r)
    ensures forall r :: r in raw && Survives(r) ==> SpanOf(r) in Normalise(raw)
  {
    if raw != [] {
      var init := raw[..|raw| - 1];
      assert raw == init + [raw[|raw| - 1]];
      NormaliseKeepsExactlyKept(init);
    }
  }

  /** One raw span gives its record when it survives, and nothing otherwise. */
  lemma NormaliseSingleton(r: RawSpan)
    ensures Normalise([r]) == if Survives(r) then [SpanOf(r)] else []
  {
    assert [r][..0] == [];
  }

  /** Normalisation works span by span: the survivors of a concatenation are the survivors of
      each part in turn, so they keep extraction order and repeats. */
  lemma {:induction false} NormaliseAppend(a: seq<RawSpan>, b: seq<RawSpan>)
    ensures Normalise(a + b) == Normalise(a) + Normalise(b)
    decreases |b|
  {
    if b == [] {
      assert a + b == a;
    } else {
      var init := b[..|b| - 1];
      var r := b[|b| - 1];
      assert (a + b)[..|a + b| - 1] == a + init;
      assert (a + b)[|a + b| - 1] == r;
      assert b[..|b| - 1] == init;
      NormaliseAppend(a, init);
    }
  }

  /** The loop body of the extraction: strip each span's text, skip it when the text is empty
      or a single token, otherwise append its record. */
  method CollectSpans(raw: seq<RawSpan>) returns (spans: seq<Span>)
    ensures spans == Normalise(raw)
  {
    spans := [];
    for i := 0 to |raw|
      invariant spans == Normalise(raw[..i])
    {
      assert raw[..i + 1][..i] == raw[..i];
      var text := Strip(raw[i].text);
      if text == [] || TokenCount(text) < 2 {
        continue;
      }
      var box := raw[i].bbox;
      spans := spans + [Span(text, raw[i].size, raw[i].page, box.y0, box.y1, box.x0, box.x1)];
    }
    assert raw[..|raw|] == raw;
  }

  /** A span handed back to the normaliser as if the layout engine had produced it. */
  function AsRaw(s: Span): RawSpan {
    RawSpan(s.text, s.size, s.page, BBox(s.x, s.y, s.x2, s.y2))
  }

  function AllAsRaw(spans: seq<Span>): (raw: seq<RawSpan>)
    ensures |raw| == |spans|
    ensures forall i :: 0 <= i < |spans| ==> raw[i] == AsRaw(spans[i])
  {
    if spans == [] then [] else AllAsRaw(spans[..|spans| - 1]) + [AsRaw(spans[|spans| - 1])]
  }

  lemma {:induction false} NormaliseKeepsNormalised(spans: seq<Span>)
    requires forall s :: s in spans ==> Normalised(s)
    ensures Normalise(AllAsRaw(spans)) == spans
  {
    if spans != [] {
      var init := spans[..|spans| - 1];
      var last := spans[|spans| - 1];
      assert spans == init + [last];
      assert forall s :: s in init ==> s in spans;
      NormaliseKeepsNormalised(init);
      var raw := AllAsRaw(spans);
      assert raw[..|spans| - 1] == AllAsRaw(init);
      assert last in spans;
      assert Strip(last.text) == last.text;
      assert Survives(raw[|raw| - 1]) && SpanOf(raw[|raw| - 1]) == last;
    }
  }

  /** Normalisation is idempotent: normalising its own output changes nothing. */
  lemma NormaliseIdempotent(raw: seq<RawSpan>)
    ensures Normalise(AllAsRaw(Normalise(raw))) == Normalise(raw)
  {
    NormaliseKeepsNormalised(Normalise(raw));
  }

  /** `" ".join` of the texts of `run`, built the way the merge extends a block: each further
      text is appended after one space. */
  function JoinText(run: seq<Span>): string
  {
    if run == [] then ""
    else if |run| == 1 then run[0].text
    else JoinText(run[..|run| - 1]) + " " + run[|run| - 1].text
  }

  lemma JoinTextSnoc(run: seq<Span>, s: Span)
    requires run != []
    ensures JoinText(run + [s]) == JoinText(run) + " " + s.text
  {
    assert (run + [s])[..|run|] == run;
  }

  /** Joining trimmed, non-empty texts gives a trimmed, non-empty text. */
  lemma {:induction false} JoinTextTrimmed(run: seq<Span>)
    requires run != []
    requires forall s :: s in run ==> Trimmed(s.text) && s.text != []
    ensures Trimmed(JoinText(run)) && JoinText(run) != []
  {
    if |run| > 1 {
      var init := run[..|run| - 1];
      assert forall s :: s in init ==> s in run;
      JoinTextTrimmed(init);
    }
  }

  /** (page, y) of a strictly precedes that of b. */
  predicate KeyBefore(a: Span, b: Span) {
    a.page < b.page || (a.page == b.page && a.y < b.y)
  }

  /** (page, y) of a is at most that of b. */
  predicate InOrder(a: Span, b: Span) {
    !KeyBefore(b, a)
  }

  predicate SameKey(a: Span, b: Span) {
    a.page == b.page && a.y == b.y
  }

  predicate SortedByPosition(s: seq<Span>) {
    forall i, j :: 0 <= i < j < |s| ==> InOrder(s[i], s[j])
  }

  lemma SortedCons(a: Span, t: seq<Span>)
    requires SortedByPosition(t)
    requires forall y :: y in t ==> InOrder(a, y)
    ensures SortedByPosition([a] + t)
  {
    forall i, j | 0 <= i < j < |[a] + t|
      ensures InOrder(([a] + t)[i], ([a] + t)[j])
    {
      assert ([a] + t)[j] == t[j - 1];
      if i > 0 {
        assert ([a] + t)[i] == t[i - 1];
      }
    }
  }

  lemma SortedSnoc(t: seq<Span>, a: Span)
    requires SortedByPosition(t)
    requires forall y :: y in t ==> InOrder(y, a)
    ensures SortedByPosition(t + [a])
  {
    forall i, j | 0 <= i < j < |t + [a]|
      ensures InOrder((t + [a])[i], (t + [a])[j])
    {
      assert (t + [a])[i] == t[i];
      if j < |t| {
        assert (t + [a])[j] == t[j];
      }
    }
  }

  /** Inserts x before the first span whose key is not below x's key. */
  function Insert(x: Span, s: seq<Span>): (r: seq<Span>)
    requires SortedByPosition(s)
    ensures SortedByPosition(r)
    ensures multiset(r) == multiset(s) + multiset{x}
    ensures |r| == |s| + 1
    decreases |s|, 1
  {
    if s == [] || !KeyBefore(s[0], x) then [x] + s
    else
      var rest := Insert(x, s[1..]);
      assert s == [s[0]] + s[1..];
      HeadBeforeInserted(x, s);
      SortedCons(s[0], rest);
      [s[0]] + rest
  }

  /** When x goes after the head of s, the head is in order with everything the insertion
      into the tail yields. */
  lemma HeadBeforeInserted(x: Span, s: seq<Span>)
    requires SortedByPosition(s) && s != [] && KeyBefore(s[0], x)
    ensures forall y :: y in Insert(x, s[1..]) ==> InOrder(s[0], y)
    decreases |s|, 0
  {
    var rest := Insert(x, s[1..]);
    forall y | y in rest ensures InOrder(s[0], y) {
      assert y in multiset(rest);
      if y != x {
        assert y in multiset(s[1..]);
        var j :| 0 <= j < |s[1..]| && s[1..][j] == y;
        assert s[j + 1] == y;
      }
    }
  }

  /** `sorted(spans, key=lambda s: (s["page"], s["y"]))`: an insertion sort that puts an
      earlier span before a later one with the same key, as Python's stable sort does. */
  function SortByPosition(s: seq<Span>): (r: seq<Span>)
    ensures SortedByPosition(r)
    ensures multiset(r) == multiset(s)
    ensures |r| == |s|
  {
    if s == [] then []
    else
      assert s == [s[0]] + s[1..];
      Insert(s[0], SortByPosition(s[1..]))
  }

  /** The spans of s with the same key as k, in their order in s. */
  function WithKeyOf(s: seq<Span>, k: Span): seq<Span>
  {
    if s == [] then []
    else (if SameKey(s[0], k) then [s[0]] else []) + WithKeyOf(s[1..], k)
  }

  lemma {:induction false} InsertWithKeyOf(x: Span, s: seq<Span>, k: Span)
    requires SortedByPosition(s)
    ensures WithKeyOf(Insert(x, s), k) == (if SameKey(x, k) then [x] else []) + WithKeyOf(s, k)
  {
    if s == [] || !KeyBefore(s[0], x) {
      assert ([x] + s)[1..] == s;
    } else {
      InsertWithKeyOf(x, s[1..], k);
      assert ([s[0]] + Insert(x, s[1..]))[1..] == Insert(x, s[1..]);
    }
  }

  /** The sort is stable: spans that share a (page, y) key keep their relative order. */
  lemma {:induction false} SortIsStable(s: seq<Span>, k: Span)
    ensures WithKeyOf(SortByPosition(s), k) == WithKeyOf(s, k)
  {
    if s != [] {
      SortIsStable(s[1..], k);
      InsertWithKeyOf(s[0], SortByPosition(s[1..]), k);
    }
  }

  /** Sorting spans that are already in (page, y) order returns them unchanged. */
  lemma {:induction false} SortSortedIsIdentity(s: seq<Span>)
    requires SortedByPosition(s)
    ensures SortByPosition(s) == s
  {
    if s != [] {
      SortSortedIsIdentity(s[1..]);
      assert s == [s[0]] + s[1..];
    }
  }

  /** The spans of s that satisfy p, in their order in s (a list comprehension with a test). */
  function Filter(s: seq<Span>, p: Span -> bool): (r: seq<Span>)
    ensures |r| <= |s|
    ensures forall x :: x in r <==> x in s && p(x)
  {
    if s == [] then []
    else
      var init := s[..|s| - 1];
      var last := s[|s| - 1];
      assert s == init + [last];
      assert forall x :: x in init ==> x in s;
      if p(last) then Filter(init, p) + [last] else Filter(init, p)
  }

  /** A single element is kept exactly when it passes the test. */
  lemma FilterSingleton(x: Span, p: Span -> bool)
    ensures Filter([x], p) == if p(x) then [x] else []
  {
    assert [x][..0] == [];
  }

  /** Filtering distributes over concatenation. With `FilterSingleton` this pins the result as the
      passing elements in their order in s, repeats included. */
  lemma {:induction false} FilterAppend(a: seq<Span>, b: seq<Span>, p: Span -> bool)
    ensures Filter(a + b, p) == Filter(a, p) + Filter(b, p)
    decreases |b|
  {
    if b == [] {
      assert a + b == a;
    } else {
      var init := b[..|b| - 1];
      assert (a + b)[..|a + b| - 1] == a + init;
      FilterAppend(a, init, p);
    }
  }

  /** Nothing passes the filter when no span satisfies the test. */
  lemma {:induction false} FilterNone(s: seq<Span>, p: Span -> bool)
    requires forall x :: x in s ==> !p(x)
    ensures Filter(s, p) == []
  {
    if s != [] {
      assert s[|s| - 1] in s;
      assert forall x :: x in s[..|s| - 1] ==> x in s;
      FilterNone(s[..|s| - 1], p);
    }
  }

  /** Filtering keeps (page, y) order. */
  lemma {:induction false} FilterKeepsOrder(s: seq<Span>, p: Span -> bool)
    requires SortedByPosition(s)
    ensures SortedByPosition(Filter(s, p))
  {
    if s != [] {
      var init := s[..|s| - 1];
      var last := s[|s| - 1];
      assert s == init + [last];
      FilterKeepsOrder(init, p);
      if p(last) {
        var r := Filter(init, p);
        forall y | y in r ensures InOrder(y, last) {
          var i :| 0 <= i < |init| && init[i] == y;
          assert s[i] == y;
        }
        SortedSnoc(r, last);
      }
    }
  }
}
