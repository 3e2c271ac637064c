/** The outline: the headings that are not the title, first occurrences of their text, and
    either numbered or of level H1 or H2, in heading order. Also the result of the whole
    extraction. */
module Outline {
  import opened Text
  import opened Spans
  import opened Levels

  datatype Entry = Entry(level: Level, text: string, page: nat)

  /** The extraction result: `{"title": ..., "outline": [...]}`. */
  datatype Document = Document(title: string, outline: seq<Entry>)

  /** The extraction fails with an index error when no span survives normalisation, since the
      merge reads the first span of an empty list. */
  datatype Error = IndexError

  datatype Result<T> = Success(value: T) | Failure(error: Error)

  /** The admission test: the text starts with a section number, or its level is H1 or H2. */
  predicate Admitted(text: string, level: Level) {
    MatchesSectionNumber(text) || level == H1 || level == H2
  }

  /** The entry built for a heading. */
  function EntryFor(s: Span, m: map<real, Level>): Entry {
    Entry(LevelOf(m, s.size), s.text, s.page)
  }

  /** No heading before position i has the text of heading i. */
  predicate FirstOccurrence(hs: seq<Span>, i: nat)
    requires i < |hs|
  {
    forall j :: 0 <= j < i ==> hs[j].text != hs[i].text
  }

  /** Heading i makes it into the outline. */
  predicate Kept(hs: seq<Span>, m: map<real, Level>, title: string, i: nat)
    requires i < |hs|
  {
    && hs[i].text != title
    && FirstOccurrence(hs, i)
    && Admitted(hs[i].text, LevelOf(m, hs[i].size))
  }

  /** The outline built from the first n headings: the entries of the kept headings among them,
      in heading order. Entry texts are pairwise distinct, none is the title, each entry is
      admitted, and an entry is there for a heading exactly when that heading is kept. */
  function OutlineOf(hs: seq<Span>, m: map<real, Level>, title: string, n: nat): (r: seq<Entry>)
    requires n <= |hs|
    ensures |r| <= n
    ensures forall a, b :: 0 <= a < b < |r| ==> r[a].text != r[b].text
    ensures forall e :: e in r ==> e.text != title && Admitted(e.text, e.level)
    ensures forall e :: e in r ==> exists i :: 0 <= i < n && Kept(hs, m, title, i) && e == EntryFor(hs[i], m)
    ensures forall i :: 0 <= i < n && Kept(hs, m, title, i) ==> EntryFor(hs[i], m) in r
  {
    if n == 0 then []
    else
      var prev := OutlineOf(hs, m, title, n - 1);
      if Kept(hs, m, title, n - 1) then
        var e := EntryFor(hs[n - 1], m);
        assert forall a :: 0 <= a < |prev| ==> prev[a].text != e.text by {
          forall a | 0 <= a < |prev| ensures prev[a].text != e.text {
            assert prev[a] in prev;
          }
        }
        prev + [e]
      else
        prev
  }

  /** The outline loop: skip the title and every text already seen, mark the text seen, look
      up the level (H3 by default) and keep the entry if it is admitted. */
  method BuildOutline(hs: seq<Span>, m: map<real, Level>, title: string) returns (outline: seq<Entry>)
    ensures outline == OutlineOf(hs, m, title, |hs|)
  {
    outline := [];
    var seen: set<string> := {};
    for i := 0 to |hs|
      invariant outline == OutlineOf(hs, m, title, i)
      invariant seen == set j | 0 <= j < i && hs[j].text != title :: hs[j].text
    {
      var text := hs[i].text;
      if text == title || text in seen {
        assert !Kept(hs, m, title, i) by {
          if text != title {
            var j :| 0 <= j < i && hs[j].text != title && hs[j].text == text;
          }
        }
        continue;
      }
      assert FirstOccurrence(hs, i) by {
        forall j | 0 <= j < i ensures hs[j].text != text {
          assert hs[j].text != title ==> hs[j].text in seen;
        }
      }
      seen := seen + {text};
      var level := LevelOf(m, hs[i].size);
      if MatchesSectionNumber(text) || level == H1 || level == H2 {
        outline := outline + [Entry(level, text, hs[i].page)];
      }
    }
  }

  /** The positions of the headings behind the entries of the outline of the first n
      headings: strictly increasing, so the entries follow the heading order, each one built
      from the heading at its position. */
  function SourceIndices(hs: seq<Span>, m: map<real, Level>, title: string, n: nat): (ks: seq<nat>)
    requires n <= |hs|
    ensures |ks| == |OutlineOf(hs, m, title, n)|
    ensures forall k :: 0 <= k < |ks| ==> ks[k] < n && OutlineOf(hs, m, title, n)[k] == EntryFor(hs[ks[k]], m)
    ensures forall a, b :: 0 <= a < b < |ks| ==> ks[a] < ks[b]
  {
    if n == 0 then []
    else
      var prev := SourceIndices(hs, m, title, n - 1);
      var before := OutlineOf(hs, m, title, n - 1);
      if Kept(hs, m, title, n - 1) then
        assert OutlineOf(hs, m, title, n) == before + [EntryFor(hs[n - 1], m)];
        prev + [n - 1]
      else
        assert OutlineOf(hs, m, title, n) == before;
        prev
  }

  /** A text counts as seen before the admission test, so a heading whose text appeared
      earlier never enters the outline; and when the first heading with some text is passed
      over, whether as the title or as not admitted, no entry has that text at all. */
  lemma LaterDuplicatesDropped(hs: seq<Span>, m: map<real, Level>, title: string, i: nat, j: nat)
    requires i < j < |hs| && hs[i].text == hs[j].text
    ensures !Kept(hs, m, title, j)
    ensures FirstOccurrence(hs, i) && !Kept(hs, m, title, i) ==>
      forall e :: e in OutlineOf(hs, m, title, |hs|) ==> e.text != hs[i].text
  {
    if FirstOccurrence(hs, i) && !Kept(hs, m, title, i) {
      forall e | e in OutlineOf(hs, m, title, |hs|) ensures e.text != hs[i].text {
        var k :| 0 <= k < |hs| && Kept(hs, m, title, k) && e == EntryFor(hs[k], m);
        assert k != i;
        assert hs[k].text != hs[i].text by {
          if k > i {
            assert FirstOccurrence(hs, k);
          }
        }
      }
    }
  }
}
