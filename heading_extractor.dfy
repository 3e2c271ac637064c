/** The baseline extractor: merge lines into blocks, keep the short blocks as headings, rank
    their font sizes, pick the best single block as the title and assemble the outline. */
module HeadingExtractor {
  import opened Text
  import opened Spans
  import opened Grouping
  import opened Selection
  import opened Levels
  import opened Outline

  /** The vertical gap the merge tolerates by default. */
  const DefaultYThreshold: real := 4.0

  /** The merge test of a span against the current block: same page, top within `th` of the
      block's running bottom, font size less than 1 away from the block's size. */
  predicate CanMerge(block: Span, span: Span, th: real) {
    && span.page == block.page
    && Abs(span.y - block.y2) <= th
    && Abs(span.size - block.size) < 1.0
  }

  /** The block a run of spans becomes: the first span's record with the texts of the run
      joined by spaces and the bottom of the last span. */
  function BlockOf(run: seq<Span>): Span
    requires run != []
  {
    run[0].(text := JoinText(run), y2 := run[|run| - 1].y2)
  }

  /** A span extends a run when it passes the merge test against the run's block. */
  function MergeRule(th: real): (seq<Span>, Span) -> bool {
    (run: seq<Span>, span: Span) => run != [] && CanMerge(BlockOf(run), span, th)
  }

  /** The runs of the (page, y)-sorted spans that the merge turns into blocks. */
  function MergedRuns(spans: seq<Span>, th: real): seq<seq<Span>> {
    Runs(SortByPosition(spans), MergeRule(th))
  }

  /** `merge_multiline_blocks(spans, th)`: one block per run; there is at least one block and
      never more blocks than spans. */
  function Blocks(spans: seq<Span>, th: real): (blocks: seq<Span>)
    requires spans != []
    ensures 0 < |blocks| <= |spans|
  {
    var runs := MergedRuns(spans, th);
    RunsPartition(SortByPosition(spans), MergeRule(th));
    seq(|runs|, k requires 0 <= k < |runs| => BlockOf(runs[k]))
  }

  /** Extending a run extends its block's text by a space and the span's text and moves its
      bottom to the span's bottom. */
  lemma BlockOfSnoc(run: seq<Span>, span: Span)
    requires run != []
    ensures BlockOf(run + [span])
         == BlockOf(run).(text := BlockOf(run).text + " " + span.text, y2 := span.y2)
  {
    JoinTextSnoc(run, span);
    assert (run + [span])[0] == run[0];
  }

  /** One step of the merge loop on the sorted spans, in terms of the merge test. */
  lemma MergeStep(sorted: seq<Span>, i: nat, th: real, closed: seq<seq<Span>>, run: seq<Span>)
    requires 0 < i < |sorted| && run != []
    requires Runs(sorted[..i], MergeRule(th)) == closed + [run]
    ensures CanMerge(BlockOf(run), sorted[i], th) ==>
      Runs(sorted[..i + 1], MergeRule(th)) == closed + [run + [sorted[i]]]
    ensures !CanMerge(BlockOf(run), sorted[i], th) ==>
      Runs(sorted[..i + 1], MergeRule(th)) == closed + [run] + [[sorted[i]]]
  {
    RunsStep(sorted, i, MergeRule(th), closed, run);
  }

  lemma BlocksOfRuns(spans: seq<Span>, th: real, runs: seq<seq<Span>>, merged: seq<Span>)
    requires spans != [] && MergedRuns(spans, th) == runs
    requires |merged| == |runs|
    requires forall k :: 0 <= k < |runs| ==> runs[k] != [] && merged[k] == BlockOf(runs[k])
    ensures merged == Blocks(spans, th)
  {
  }

  /** The merge loop over the sorted spans: extend the current block while the merge test
      passes, otherwise close it and start a new one from the span. */
  method MergeSorted(sorted: seq<Span>, th: real) returns (merged: seq<Span>)
    requires sorted != []
    ensures var runs := Runs(sorted, MergeRule(th));
      |merged| == |runs| && forall k :: 0 <= k < |runs| ==> runs[k] != [] && merged[k] == BlockOf(runs[k])
  {
    merged := [];
    var current := sorted[0];
    ghost var closed: seq<seq<Span>> := [];
    ghost var run: seq<Span> := [sorted[0]];
    assert Runs(sorted[..1], MergeRule(th)) == [[sorted[0]]] by {
      assert sorted[..1] == [sorted[0]];
      RunsSingleton(sorted[0], MergeRule(th));
    }
    for i := 1 to |sorted|
      invariant run != []
      invariant Runs(sorted[..i], MergeRule(th)) == closed + [run]
      invariant current == BlockOf(run)
      invariant |merged| == |closed|
      invariant forall k :: 0 <= k < |closed| ==> closed[k] != [] && merged[k] == BlockOf(closed[k])
    {
      var span := sorted[i];
      if CanMerge(current, span, th) {
        assert Runs(sorted[..i + 1], MergeRule(th)) == closed + [run + [span]]
          && BlockOf(run + [span]) == current.(text := current.text + " " + span.text, y2 := span.y2)
        by {
          MergeStep(sorted, i, th, closed, run);
          BlockOfSnoc(run, span);
        }
        current := current.(text := current.text + " " + span.text, y2 := span.y2);
        run := run + [span];
      } else {
        assert Runs(sorted[..i + 1], MergeRule(th)) == closed + [run] + [[span]] by {
          MergeStep(sorted, i, th, closed, run);
        }
        merged := merged + [current];
        closed := closed + [run];
        current := span;
        run := [span];
      }
    }
    merged := merged + [current];
    closed := closed + [run];
    assert sorted[..|sorted|] == sorted;
  }

  /** `merge_multiline_blocks`: sort the spans by (page, y), then run the merge loop. */
  method MergeMultilineBlocks(spans: seq<Span>, yThreshold: real := DefaultYThreshold)
    returns (merged: seq<Span>)
    requires spans != []
    ensures merged == Blocks(spans, yThreshold)
  {
    var sorted := SortByPosition(spans);
    merged := MergeSorted(sorted, yThreshold);
    BlocksOfRuns(spans, yThreshold, Runs(sorted, MergeRule(yThreshold)), merged);
  }

  /** Inside a block, every span after the first is on the seed's page, has a font size less
      than 1 away from the seed's (the block's size is never updated), and starts within the
      threshold of the bottom of the span before it. */
  lemma MergeConditions(spans: seq<Span>, th: real)
    ensures var runs := MergedRuns(spans, th);
      forall k, j :: 0 <= k < |runs| && 0 < j < |runs[k]| ==>
        && runs[k][j].page == runs[k][0].page
        && Abs(runs[k][j].size - runs[k][0].size) < 1.0
        && Abs(runs[k][j].y - runs[k][j - 1].y2) <= th
  {
    var runs: seq<seq<Span>> := MergedRuns(spans, th);
    RunsCohere(SortByPosition(spans), MergeRule(th));
    forall k, j | 0 <= k < |runs| && 0 < j < |runs[k]|
      ensures runs[k][j].page == runs[k][0].page
      ensures Abs(runs[k][j].size - runs[k][0].size) < 1.0
      ensures Abs(runs[k][j].y - runs[k][j - 1].y2) <= th
    {
      var head := runs[k][..j];
      assert MergeRule(th)(head, runs[k][j]);
      var b := BlockOf(head);
      assert b.page == runs[k][0].page && b.size == runs[k][0].size && b.y2 == runs[k][j - 1].y2;
      assert CanMerge(b, runs[k][j], th);
    }
  }

  /** Spans on different pages, or with font sizes 1 or more apart, never share a block. */
  lemma NoCrossPageMerge(spans: seq<Span>, th: real, k: nat, i: nat, j: nat)
    requires var runs := MergedRuns(spans, th); k < |runs| && i < |runs[k]| && j < |runs[k]|
    ensures var runs := MergedRuns(spans, th);
      runs[k][i].page == runs[k][j].page && Abs(runs[k][i].size - runs[k][j].size) < 2.0
  {
    MergeConditions(spans, th);
  }

  /** Each block was closed because the seed of the next block failed the merge test
      against it. */
  lemma MergeIsMaximal(spans: seq<Span>, th: real)
    requires spans != []
    ensures var blocks := Blocks(spans, th);
      forall k :: 0 <= k < |blocks| - 1 ==> !CanMerge(blocks[k], blocks[k + 1], th)
  {
    RunsMaximal(SortByPosition(spans), MergeRule(th));
  }

  /** The runs, read in order, are the (page, y)-sorted spans, so every span is in exactly one
      block; a block keeps its seed's page, top, size and left and right edges, its text is
      the space join of its run's texts and its bottom is the last span's bottom. */
  lemma BlocksPartitionSpans(spans: seq<Span>, th: real)
    requires spans != []
    ensures var runs := MergedRuns(spans, th); var blocks := Blocks(spans, th);
      && Flatten(runs) == SortByPosition(spans)
      && multiset(Flatten(runs)) == multiset(spans)
      && |blocks| == |runs|
      && forall k :: 0 <= k < |blocks| ==>
        && runs[k] != []
        && blocks[k].text == JoinText(runs[k])
        && blocks[k].y2 == runs[k][|runs[k]| - 1].y2
        && blocks[k].page == runs[k][0].page && blocks[k].y == runs[k][0].y
        && blocks[k].size == runs[k][0].size
        && blocks[k].x == runs[k][0].x && blocks[k].x2 == runs[k][0].x2
  {
    RunsPartition(SortByPosition(spans), MergeRule(th));
  }

  /** The blocks come out in (page, y) order. */
  lemma BlocksSorted(spans: seq<Span>, th: real)
    requires spans != []
    ensures SortedByPosition(Blocks(spans, th))
  {
    var runs := MergedRuns(spans, th);
    RunsPartition(SortByPosition(spans), MergeRule(th));
    FirstSpansInOrder(runs);
  }

  /** Spans that share a (page, y) position are the same span. */
  predicate PositionsIdentify(s: seq<Span>) {
    forall x, y :: x in s && y in s && SameKey(x, y) ==> x == y
  }

  lemma SortedHeadFirst(a: seq<Span>, x: Span)
    requires SortedByPosition(a) && x in a
    ensures InOrder(a[0], x)
  {
    var j :| 0 <= j < |a| && a[j] == x;
    if j > 0 {
      assert InOrder(a[0], a[j]);
    }
  }

  /** Two (page, y)-sorted orderings of the same spans start with the same span when spans
      that share a position are the same span. */
  lemma SortedPermutationsSameHead(a: seq<Span>, b: seq<Span>)
    requires SortedByPosition(a) && SortedByPosition(b) && a != []
    requires multiset(a) == multiset(b) && PositionsIdentify(a)
    ensures b != [] && a[0] == b[0]
  {
    assert a[0] in multiset(b);
    assert b[0] in multiset(a);
    assert a[0] in b && b[0] in a;
    SortedHeadFirst(a, b[0]);
    SortedHeadFirst(b, a[0]);
    assert SameKey(a[0], b[0]);
  }

  /** Two (page, y)-sorted orderings of the same spans are equal when spans that share a
      position are the same span. */
  lemma {:induction false} SortedPermutationsEqual(a: seq<Span>, b: seq<Span>)
    requires SortedByPosition(a) && SortedByPosition(b)
    requires multiset(a) == multiset(b) && PositionsIdentify(a)
    ensures a == b
    decreases |a|
  {
    if a == [] {
      assert |b| == |multiset(b)| == 0;
    } else {
      SortedPermutationsSameHead(a, b);
      assert a == [a[0]] + a[1..] && b == [b[0]] + b[1..];
      assert multiset(a[1..]) == multiset(b[1..]) by {
        assert multiset(a) == multiset{a[0]} + multiset(a[1..]);
        assert multiset(b) == multiset{a[0]} + multiset(b[1..]);
        forall x ensures multiset(a[1..])[x] == multiset(b[1..])[x] {
          assert multiset(a)[x] == multiset(b)[x];
        }
      }
      assert PositionsIdentify(a[1..]) by {
        assert forall x :: x in a[1..] ==> x in a;
      }
      SortedPermutationsEqual(a[1..], b[1..]);
    }
  }

  /** When spans sharing a (page, y) position are identical, the blocks do not depend on the
      order in which the spans were extracted. */
  lemma MergeDeterministic(a: seq<Span>, b: seq<Span>, th: real)
    requires a != [] && multiset(a) == multiset(b)
    requires PositionsIdentify(a)
    ensures b != [] && Blocks(a, th) == Blocks(b, th)
  {
    assert |b| == |multiset(b)| == |a|;
    var sa := SortByPosition(a);
    var sb := SortByPosition(b);
    assert forall x :: x in sa ==> x in multiset(a);
    SortedPermutationsEqual(sa, sb);
  }

  /** Two spans with the same key that merge into one block. */
  lemma TiedRunOfTwo(a: Span, b: Span)
    requires SameKey(a, b) && CanMerge(a, b, DefaultYThreshold)
    ensures Blocks([a, b], DefaultYThreshold) == [a.(text := a.text + " " + b.text, y2 := b.y2)]
  {
    TiedPairStaysInOrder(a, b);
    PairMergesIntoOneRun(a, b, DefaultYThreshold);
    assert JoinText([a, b]) == a.text + " " + b.text by {
      assert [a, b][..1] == [a];
    }
  }

  /** Sorting keeps two spans with the same key in input order. */
  lemma TiedPairStaysInOrder(a: Span, b: Span)
    requires SameKey(a, b)
    ensures SortByPosition([a, b]) == [a, b]
  {
    assert SortByPosition([b]) == [b] by {
      assert [b][1..] == [];
    }
    assert [a, b][1..] == [b];
  }

  /** A second span that passes the merge test against the first joins its run. */
  lemma PairMergesIntoOneRun(a: Span, b: Span, th: real)
    requires CanMerge(a, b, th)
    ensures Runs([a, b], MergeRule(th)) == [[a, b]]
  {
    assert [a, b][..1] == [a];
    RunsSingleton(a, MergeRule(th));
    assert BlockOf([a]) == a;
    assert MergeRule(th)([a], b);
    assert [a] + [b] == [a, b];
    assert [[a]][..0] + [[a, b]] == [[a, b]];
  }

  /** Without the premise of `MergeDeterministic` the blocks can depend on extraction order: two
      different spans at one (page, y) position stay in input order, so the merged text does too. */
  lemma TiedPositionsOrderMatters(a: Span, b: Span)
    requires a == Span("a b", 10.0, 0, 0.0, 1.0, 0.0, 10.0)
    requires b == Span("c d", 10.0, 0, 0.0, 1.0, 0.0, 10.0)
    ensures multiset([a, b]) == multiset([b, a])
    ensures Blocks([a, b], DefaultYThreshold) != Blocks([b, a], DefaultYThreshold)
  {
    TiedRunOfTwo(a, b);
    TiedRunOfTwo(b, a);
    assert (a.text + " " + b.text)[0] != (b.text + " " + a.text)[0];
  }

  /** The title score of a block: large, early, high on the page and horizontally centred
      around x = 300 is better. */
  function Score(s: Span): real {
    s.size * 10.0 - (s.page as real) * 2.0 - s.y - Abs((s.x + s.x2) / 2.0 - 300.0) * 0.01
  }

  function Scores(hs: seq<Span>): (r: seq<real>)
    ensures |r| == |hs|
    ensures forall i :: 0 <= i < |hs| ==> r[i] == Score(hs[i])
  {
    seq(|hs|, i requires 0 <= i < |hs| => Score(hs[i]))
  }

  /** The title pick: empty when there are no headings, otherwise the text of the first heading
      with a maximal score (the sort by score is stable, also in reverse). */
  function BestTitle(hs: seq<Span>): (t: string)
    ensures hs == [] ==> t == ""
    ensures hs != [] ==> exists i :: (0 <= i < |hs| && t == hs[i].text
      && (forall j :: 0 <= j < |hs| ==> Score(hs[j]) <= Score(hs[i]))
      && (forall j :: 0 <= j < i ==> Score(hs[j]) < Score(hs[i])))
  {
    if hs == [] then ""
    else
      var i := FirstArgMax(Scores(hs));
      hs[i].text
  }

  /** The whole extraction from the normalised spans. */
  function ExtractFromSpans(spans: seq<Span>): Document
    requires spans != []
  {
    var hs := Headings(Blocks(spans, DefaultYThreshold));
    var title := BestTitle(hs);
    Document(Strip(title), OutlineOf(hs, SizeToLevel(SizesOf(hs)), title, |hs|))
  }

  /** `extract_title_and_outline` from the spans the layout engine hands over: it fails with an
      index error exactly when no span survives normalisation. */
  method ExtractTitleAndOutline(raw: seq<RawSpan>) returns (r: Result<Document>)
    ensures Normalise(raw) == [] ==> r == Failure(IndexError)
    ensures Normalise(raw) != [] ==> r == Success(ExtractFromSpans(Normalise(raw)))
  {
    var spans := CollectSpans(raw);
    if spans == [] {
      return Failure(IndexError);
    }
    var merged := MergeMultilineBlocks(spans);
    var headings := Headings(merged);
    var sizeFreq := CountSizes(headings);
    var sizeToLevel := SizeToLevel(sizeFreq.Keys);
    var bestTitle := BestTitle(headings);
    var outline := BuildOutline(headings, sizeToLevel, bestTitle);
    return Success(Document(Strip(bestTitle), outline));
  }

  /** Every span of every run is one of the merged spans. */
  lemma RunMemberIsSpan(spans: seq<Span>, th: real, k: nat, i: nat)
    requires var runs := MergedRuns(spans, th); k < |runs| && i < |runs[k]|
    ensures MergedRuns(spans, th)[k][i] in spans
  {
    var runs := MergedRuns(spans, th);
    RunsPartition(SortByPosition(spans), MergeRule(th));
    InFlatten(runs, k, i);
    assert runs[k][i] in multiset(SortByPosition(spans));
  }

  /** Block texts made from normalised spans are non-empty and trimmed. */
  lemma BlockTextsTrimmed(spans: seq<Span>, th: real)
    requires spans != [] && forall s :: s in spans ==> Normalised(s)
    ensures forall b :: b in Blocks(spans, th) ==> Trimmed(b.text) && b.text != ""
  {
    var runs: seq<seq<Span>> := MergedRuns(spans, th);
    var blocks := Blocks(spans, th);
    RunsPartition(SortByPosition(spans), MergeRule(th));
    forall k | 0 <= k < |blocks| ensures Trimmed(blocks[k].text) && blocks[k].text != "" {
      forall s: Span | s in runs[k] ensures Trimmed(s.text) && s.text != [] {
        var i :| 0 <= i < |runs[k]| && runs[k][i] == s;
        RunMemberIsSpan(spans, th, k, i);
      }
      JoinTextTrimmed(runs[k]);
    }
  }

  /** What the extraction promises: the title is empty exactly when no block is short enough to
      be a heading; it is the text of a heading, already stripped, so the outline, which leaves
      out the title's text, never repeats the title; outline texts are pairwise distinct. */
  lemma ExtractionGuarantees(spans: seq<Span>)
    requires spans != [] && forall s :: s in spans ==> Normalised(s)
    ensures var d := ExtractFromSpans(spans);
      var hs := Headings(Blocks(spans, DefaultYThreshold));
      && (d.title == "" <==> hs == [])
      && (hs != [] ==> exists i :: 0 <= i < |hs| && d.title == hs[i].text)
      && (forall e :: e in d.outline ==> e.text != d.title)
      && (forall a, b :: 0 <= a < b < |d.outline| ==> d.outline[a].text != d.outline[b].text)
  {
    var hs := Headings(Blocks(spans, DefaultYThreshold));
    BlockTextsTrimmed(spans, DefaultYThreshold);
    var title := BestTitle(hs);
    if hs != [] {
      var i :| 0 <= i < |hs| && title == hs[i].text;
      assert hs[i] in hs;
      assert Strip(title) == title;
    }
  }
}
