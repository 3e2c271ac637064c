/** The multilingual extractor: the baseline pipeline with a left-edge guard in the merge,
    hyphenation repair of every sealed block, and a title chosen among groups of adjacent
    large-font blocks on the first three pages. */
module MultilingualExtractor {
  import opened Text
  import opened Hyphenation
  import opened Spans
  import opened Grouping
  import opened Selection
  import opened Levels
  import opened Outline
  import Baseline = HeadingExtractor

  /** The merge test: the baseline's, and also a left edge less than 40 away from the
      block's (seed) left edge. */
  predicate CanMerge(block: Span, span: Span, th: real) {
    && span.page == block.page
    && Abs(span.y - block.y2) <= th
    && Abs(span.size - block.size) < 1.0
    && Abs(span.x - block.x) < 40.0
  }

  /** The text of a sealed block: the joined text with line-break hyphens repaired, stripped. */
  function SealText(text: string): (r: string)
    ensures Trimmed(r) && |r| <= |text|
  {
    Strip(FixHyphenation(text))
  }

  /** A run turned into a block and sealed. */
  function SealedBlockOf(run: seq<Span>): Span
    requires run != []
  {
    Baseline.BlockOf(run).(text := SealText(JoinText(run)))
  }

  /** A span extends a run when it passes the merge test against the run's open block. */
  function MergeRule(th: real): (seq<Span>, Span) -> bool {
    (run: seq<Span>, span: Span) => run != [] && CanMerge(Baseline.BlockOf(run), span, th)
  }

  function MergedRuns(spans: seq<Span>, th: real): seq<seq<Span>> {
    Runs(SortByPosition(spans), MergeRule(th))
  }

  /** `merge_multiline_blocks(spans, th)`: one sealed block per run; at least one block and no
      more blocks than spans. */
  function Blocks(spans: seq<Span>, th: real): (blocks: seq<Span>)
    requires spans != []
    ensures 0 < |blocks| <= |spans|
  {
    var runs := MergedRuns(spans, th);
    RunsPartition(SortByPosition(spans), MergeRule(th));
    seq(|runs|, k requires 0 <= k < |runs| => SealedBlockOf(runs[k]))
  }

  /** One step of the merge loop on the sorted spans, in terms of the guarded merge test. */
  lemma MergeStep(sorted: seq<Span>, i: nat, th: real, closed: seq<seq<Span>>, run: seq<Span>)
    requires 0 < i < |sorted| && run != []
    requires Runs(sorted[..i], MergeRule(th)) == closed + [run]
    ensures CanMerge(Baseline.BlockOf(run), sorted[i], th) ==>
      Runs(sorted[..i + 1], MergeRule(th)) == closed + [run + [sorted[i]]]
    ensures !CanMerge(Baseline.BlockOf(run), sorted[i], th) ==>
      Runs(sorted[..i + 1], MergeRule(th)) == closed + [run] + [[sorted[i]]]
  {
    RunsStep(sorted, i, MergeRule(th), closed, run);
  }

  lemma BlocksOfRuns(spans: seq<Span>, th: real, runs: seq<seq<Span>>, merged: seq<Span>)
    requires spans != [] && MergedRuns(spans, th) == runs
    requires |merged| == |runs|
    requires forall k :: 0 <= k < |runs| ==> runs[k] != [] && merged[k] == SealedBlockOf(runs[k])
    ensures merged == Blocks(spans, th)
  {
  }

  /** Sealing the open block of a run gives the run's sealed block. */
  lemma SealOpenBlock(run: seq<Span>)
    requires run != []
    ensures var open := Baseline.BlockOf(run); open.(text := SealText(open.text)) == SealedBlockOf(run)
  {
  }

  /** Closing one more run appends its sealed block. */
  lemma SealedSnoc(merged: seq<Span>, closed: seq<seq<Span>>, block: Span, run: seq<Span>)
    requires |merged| == |closed| && run != [] && block == SealedBlockOf(run)
    requires forall k :: 0 <= k < |closed| ==> closed[k] != [] && merged[k] == SealedBlockOf(closed[k])
    ensures forall k :: 0 <= k < |closed| + 1 ==>
      (closed + [run])[k] != [] && (merged + [block])[k] == SealedBlockOf((closed + [run])[k])
  {
  }

  /** The merge loop over the sorted spans: as the baseline's, except that the current block's
      text is repaired and stripped each time the block is closed, and once more for the last
      block. */
  method MergeSorted(sorted: seq<Span>, th: real) returns (merged: seq<Span>)
    requires sorted != []
    ensures var runs := Runs(sorted, MergeRule(th));
      |merged| == |runs| && forall k :: 0 <= k < |runs| ==> runs[k] != [] && merged[k] == SealedBlockOf(runs[k])
  {
    merged := [];
    var current := sorted[0];
    ghost var closed: seq<seq<Span>> := [];
    ghost var run: seq<Span> := [sorted[0]];
    assert Runs(sorted[..1], MergeRule(th)) == [[sorted[0]]] by {
      assert sorted[..1] == [sorted[0]];
      RunsSingleton(sorted[0], MergeRule(th));
    }
    for i := 1 to |sorted|
      invariant run != []
      invariant Runs(sorted[..i], MergeRule(th)) == closed + [run]
      invariant current == Baseline.BlockOf(run)
      invariant |merged| == |closed|
      invariant forall k :: 0 <= k < |closed| ==> closed[k] != [] && merged[k] == SealedBlockOf(closed[k])
    {
      var span := sorted[i];
      if CanMerge(current, span, th) {
        assert Runs(sorted[..i + 1], MergeRule(th)) == closed + [run + [span]]
          && Baseline.BlockOf(run + [span])
             == current.(text := current.text + " " + span.text, y2 := span.y2)
        by {
          MergeStep(sorted, i, th, closed, run);
          Baseline.BlockOfSnoc(run, span);
        }
        current := current.(text := current.text + " " + span.text, y2 := span.y2);
        run := run + [span];
      } else {
        assert Runs(sorted[..i + 1], MergeRule(th)) == closed + [run] + [[span]] by {
          MergeStep(sorted, i, th, closed, run);
        }
        SealOpenBlock(run);
        current := current.(text := SealText(current.text));
        SealedSnoc(merged, closed, current, run);
        merged := merged + [current];
        closed := closed + [run];
        current := span;
        run := [span];
      }
    }
    SealOpenBlock(run);
    current := current.(text := SealText(current.text));
    SealedSnoc(merged, closed, current, run);
    merged := merged + [current];
    closed := closed + [run];
    assert sorted[..|sorted|] == sorted;
  }

  /** `merge_multiline_blocks`: sort the spans by (page, y), then run the sealing merge loop. */
  method MergeMultilineBlocks(spans: seq<Span>, yThreshold: real := Baseline.DefaultYThreshold)
    returns (merged: seq<Span>)
    requires spans != []
    ensures merged == Blocks(spans, yThreshold)
  {
    var sorted := SortByPosition(spans);
    merged := MergeSorted(sorted, yThreshold);
    BlocksOfRuns(spans, yThreshold, Runs(sorted, MergeRule(yThreshold)), merged);
  }

  /** Inside a block, every span after the first is on the seed's page, has a font size less
      than 1 away from the seed's, a left edge less than 40 away from the seed's, and starts
      within the threshold of the bottom of the span before it. */
  lemma MergeConditions(spans: seq<Span>, th: real)
    ensures var runs := MergedRuns(spans, th);
      forall k, j :: 0 <= k < |runs| && 0 < j < |runs[k]| ==>
        && runs[k][j].page == runs[k][0].page
        && Abs(runs[k][j].size - runs[k][0].size) < 1.0
        && Abs(runs[k][j].x - runs[k][0].x) < 40.0
        && Abs(runs[k][j].y - runs[k][j - 1].y2) <= th
  {
    var runs: seq<seq<Span>> := MergedRuns(spans, th);
    RunsCohere(SortByPosition(spans), MergeRule(th));
    forall k, j | 0 <= k < |runs| && 0 < j < |runs[k]|
      ensures runs[k][j].page == runs[k][0].page
      ensures Abs(runs[k][j].size - runs[k][0].size) < 1.0
      ensures Abs(runs[k][j].x - runs[k][0].x) < 40.0
      ensures Abs(runs[k][j].y - runs[k][j - 1].y2) <= th
    {
      var head := runs[k][..j];
      assert MergeRule(th)(head, runs[k][j]);
      var b := Baseline.BlockOf(head);
      assert b.page == runs[k][0].page && b.size == runs[k][0].size && b.x == runs[k][0].x;
      assert b.y2 == runs[k][j - 1].y2;
      assert CanMerge(b, runs[k][j], th);
    }
  }

  /** Each block was closed because the seed of the next block failed the merge test against
      it. */
  lemma MergeIsMaximal(spans: seq<Span>, th: real)
    requires spans != []
    ensures var blocks := Blocks(spans, th);
      forall k :: 0 <= k < |blocks| - 1 ==> !CanMerge(blocks[k], blocks[k + 1], th)
  {
    var blocks := Blocks(spans, th);
    var runs := MergedRuns(spans, th);
    RunsMaximal(SortByPosition(spans), MergeRule(th));
    BlocksPartitionSpans(spans, th);
    forall k | 0 <= k < |blocks| - 1 ensures !CanMerge(blocks[k], blocks[k + 1], th) {
      assert !MergeRule(th)(runs[k], runs[k + 1][0]);
      CanMergeReadsPosition(Baseline.BlockOf(runs[k]), runs[k + 1][0], blocks[k], blocks[k + 1], th);
    }
  }

  /** The merge test reads only the page, the positions and the font size of its two spans. */
  lemma CanMergeReadsPosition(block: Span, span: Span, block': Span, span': Span, th: real)
    requires block'.page == block.page && block'.y2 == block.y2
    requires block'.size == block.size && block'.x == block.x
    requires span'.page == span.page && span'.y == span.y
    requires span'.size == span.size && span'.x == span.x
    ensures CanMerge(block', span', th) == CanMerge(block, span, th)
  {
  }

  /** The runs partition the (page, y)-sorted spans; a sealed block keeps its seed's page,
      top, size and edges, its bottom is the last span's bottom, and its text is the repaired,
      stripped join of its own run's texts, so hyphen repair never reaches across blocks. */
  lemma BlocksPartitionSpans(spans: seq<Span>, th: real)
    requires spans != []
    ensures var runs := MergedRuns(spans, th); var blocks := Blocks(spans, th);
      && Flatten(runs) == SortByPosition(spans)
      && multiset(Flatten(runs)) == multiset(spans)
      && |blocks| == |runs|
      && forall k :: 0 <= k < |blocks| ==>
        && runs[k] != []
        && blocks[k].text == Strip(FixHyphenation(JoinText(runs[k])))
        && blocks[k].y2 == runs[k][|runs[k]| - 1].y2
        && blocks[k].page == runs[k][0].page && blocks[k].y == runs[k][0].y
        && blocks[k].size == runs[k][0].size
        && blocks[k].x == runs[k][0].x && blocks[k].x2 == runs[k][0].x2
  {
    RunsPartition(SortByPosition(spans), MergeRule(th));
  }

  /** The blocks come out in (page, y) order. */
  lemma BlocksSorted(spans: seq<Span>, th: real)
    requires spans != []
    ensures SortedByPosition(Blocks(spans, th))
  {
    var runs := MergedRuns(spans, th);
    RunsPartition(SortByPosition(spans), MergeRule(th));
    FirstSpansInOrder(runs);
  }

  /** When spans sharing a (page, y) position are identical, the blocks do not depend on the
      order in which the spans were extracted. */
  lemma MergeDeterministic(a: seq<Span>, b: seq<Span>, th: real)
    requires a != [] && multiset(a) == multiset(b)
    requires Baseline.PositionsIdentify(a)
    ensures b != [] && Blocks(a, th) == Blocks(b, th)
  {
    assert |b| == |multiset(b)| == |a|;
    var sa := SortByPosition(a);
    var sb := SortByPosition(b);
    assert forall x :: x in sa ==> x in multiset(a);
    Baseline.SortedPermutationsEqual(sa, sb);
  }

  /** A heading block may start the title: it is on one of the first three pages and its
      font size is at least 12. */
  predicate TitleCandidate(s: Span) {
    s.page <= 2 && s.size >= 12.0
  }

  /** `title_blocks`: the candidates, repeats included, sorted by (page, y). */
  function TitleBlocks(hs: seq<Span>): (tb: seq<Span>)
    ensures SortedByPosition(tb)
    ensures multiset(tb) == multiset(Filter(hs, TitleCandidate))
    ensures forall s :: s in tb <==> s in hs && TitleCandidate(s)
  {
    var candidates := Filter(hs, TitleCandidate);
    var tb := SortByPosition(candidates);
    assert forall s :: s in tb <==> s in multiset(candidates);
    tb
  }

  /** The grouping test of a block against the last block of the current group: same page,
      font sizes at most 1 apart, top less than 6 below the last block's bottom, left edges
      less than 40 apart. */
  predicate Adjacent(last: Span, span: Span) {
    && span.page == last.page
    && Abs(span.size - last.size) <= 1.0
    && Abs(span.y - last.y2) < 6.0
    && Abs(span.x - last.x) < 40.0
  }

  function TitleRule(): (seq<Span>, Span) -> bool {
    (group: seq<Span>, span: Span) => group != [] && Adjacent(group[|group| - 1], span)
  }

  /** The groups the title pass builds from the sorted candidates. */
  function TitleGroups(hs: seq<Span>): seq<seq<Span>> {
    Runs(TitleBlocks(hs), TitleRule())
  }

  /** Inside a title group, each block is adjacent to the one before it; a group was closed
      because the first block of the next group is not adjacent to its last block; the groups
      laid end to end are the sorted candidates. */
  lemma TitleGroupsAreAdjacentRuns(hs: seq<Span>)
    ensures var groups := TitleGroups(hs);
      && Flatten(groups) == TitleBlocks(hs)
      && (forall k :: 0 <= k < |groups| ==> groups[k] != [])
      && (forall k, j :: 0 <= k < |groups| && 0 < j < |groups[k]| ==>
            Adjacent(groups[k][j - 1], groups[k][j]))
      && (forall k :: 0 <= k < |groups| - 1 ==>
            !Adjacent(groups[k][|groups[k]| - 1], groups[k + 1][0]))
  {
    AdjacentRuns(TitleBlocks(hs));
  }

  /** The same facts for the title rule's runs over any sequence of blocks. */
  lemma AdjacentRuns(tb: seq<Span>)
    ensures var groups := Runs(tb, TitleRule());
      && Flatten(groups) == tb
      && (forall k :: 0 <= k < |groups| ==> groups[k] != [])
      && (forall k, j :: 0 <= k < |groups| && 0 < j < |groups[k]| ==>
            Adjacent(groups[k][j - 1], groups[k][j]))
      && (forall k :: 0 <= k < |groups| - 1 ==>
            !Adjacent(groups[k][|groups[k]| - 1], groups[k + 1][0]))
  {
    var groups := Runs(tb, TitleRule());
    RunsPartition(tb, TitleRule());
    RunsCohere(tb, TitleRule());
    RunsMaximal(tb, TitleRule());
    forall k, j | 0 <= k < |groups| && 0 < j < |groups[k]|
      ensures Adjacent(groups[k][j - 1], groups[k][j])
    {
      var head := groups[k][..j];
      assert TitleRule()(head, groups[k][j]);
      assert head[|head| - 1] == groups[k][j - 1];
    }
  }

  function Center(s: Span): real {
    (s.x + s.x2) / 2.0
  }

  function SumCenters(g: seq<Span>): real {
    if g == [] then 0.0 else SumCenters(g[..|g| - 1]) + Center(g[|g| - 1])
  }

  /** `group_score`: ten times the first block's size, less three per page and the first
      block's top, plus a tenth of the joined text's length, less a hundredth of the distance
      of the mean centre from x = 300. */
  function GroupScore(g: seq<Span>): real
    requires g != []
  {
    var cx := SumCenters(g) / (|g| as real);
    g[0].size * 10.0 - (g[0].page as real) * 3.0 - g[0].y + (|JoinText(g)| as real) * 0.1
      - Abs(cx - 300.0) * 0.01
  }

  function GroupScores(groups: seq<seq<Span>>): (r: seq<real>)
    requires forall k :: 0 <= k < |groups| ==> groups[k] != []
    ensures |r| == |groups|
    ensures forall k :: 0 <= k < |groups| ==> r[k] == GroupScore(groups[k])
  {
    seq(|groups|, k requires 0 <= k < |groups| => GroupScore(groups[k]))
  }

  /** Group i has a maximal score and every group before it scores strictly less. */
  predicate FirstBest(groups: seq<seq<Span>>, i: nat)
    requires forall k :: 0 <= k < |groups| ==> groups[k] != []
    requires i < |groups|
  {
    && (forall j :: 0 <= j < |groups| ==> GroupScore(groups[j]) <= GroupScore(groups[i]))
    && (forall j :: 0 <= j < i ==> GroupScore(groups[j]) < GroupScore(groups[i]))
  }

  /** `max(groups, key=group_score, default=[])`: no group when there are none, otherwise the
      first group with a maximal score. */
  function BestGroup(groups: seq<seq<Span>>): (g: seq<Span>)
    requires forall k :: 0 <= k < |groups| ==> groups[k] != []
    ensures groups == [] ==> g == []
    ensures groups != [] ==> exists i :: 0 <= i < |groups| && g == groups[i] && FirstBest(groups, i)
  {
    if groups == [] then []
    else
      var i := FirstArgMax(GroupScores(groups));
      assert FirstBest(groups, i);
      groups[i]
  }

  /** `get_best_title_candidate`: the repaired, stripped join of the best group's texts. */
  function BestTitle(hs: seq<Span>): string {
    var groups := TitleGroups(hs);
    RunsPartition(TitleBlocks(hs), TitleRule());
    SealText(JoinText(BestGroup(groups)))
  }

  /** Without a candidate block there is no group and the title is empty. */
  lemma NoCandidateNoTitle(hs: seq<Span>)
    requires forall s :: s in hs ==> !TitleCandidate(s)
    ensures TitleGroups(hs) == [] && BestTitle(hs) == ""
  {
    FilterNone(hs, TitleCandidate);
    assert TitleBlocks(hs) == [];
    assert FixHyphenation("") == "";
  }

  /** With a candidate block the title comes from the first group with a maximal score. */
  lemma TitleFromBestGroup(hs: seq<Span>)
    requires exists s :: s in hs && TitleCandidate(s)
    ensures var groups := TitleGroups(hs);
      && (forall k :: 0 <= k < |groups| ==> groups[k] != [])
      && exists i :: 0 <= i < |groups| && BestTitle(hs) == SealText(JoinText(groups[i]))
                     && FirstBest(groups, i)
  {
    var tb := TitleBlocks(hs);
    RunsPartition(tb, TitleRule());
    var s :| s in hs && TitleCandidate(s);
    assert s in tb;
    var groups := TitleGroups(hs);
    assert groups != [];
  }

  /** One step of the grouping loop on the sorted candidates, in terms of adjacency. */
  lemma TitleStep(tb: seq<Span>, i: nat, groups: seq<seq<Span>>, current: seq<Span>)
    requires 0 < i < |tb| && current != []
    requires Runs(tb[..i], TitleRule()) == groups + [current]
    ensures Adjacent(current[|current| - 1], tb[i]) ==>
      Runs(tb[..i + 1], TitleRule()) == groups + [current + [tb[i]]]
    ensures !Adjacent(current[|current| - 1], tb[i]) ==>
      Runs(tb[..i + 1], TitleRule()) == groups + [current] + [[tb[i]]]
  {
    RunsStep(tb, i, TitleRule(), groups, current);
  }

  lemma TitleOfGroups(hs: seq<Span>, groups: seq<seq<Span>>)
    requires groups == TitleGroups(hs)
    ensures forall k :: 0 <= k < |groups| ==> groups[k] != []
    ensures BestTitle(hs) == SealText(JoinText(BestGroup(groups)))
  {
    RunsPartition(TitleBlocks(hs), TitleRule());
  }

  /** The grouping loop of the title selector: walk the sorted candidates, extend the current
      group while the next block is adjacent to its last block, otherwise close it, and close
      the last group if there is one. */
  method GroupTitleBlocks(titleBlocks: seq<Span>) returns (groups: seq<seq<Span>>)
    ensures groups == Runs(titleBlocks, TitleRule())
  {
    groups := [];
    var current: seq<Span> := if titleBlocks != [] then [titleBlocks[0]] else [];
    if titleBlocks != [] {
      assert Runs(titleBlocks[..1], TitleRule()) == [[titleBlocks[0]]] by {
        assert titleBlocks[..1] == [titleBlocks[0]];
        RunsSingleton(titleBlocks[0], TitleRule());
      }
    }
    var i := 1;
    while i < |titleBlocks|
      invariant titleBlocks != [] ==> 1 <= i <= |titleBlocks|
      invariant titleBlocks != [] ==> current != [] && Runs(titleBlocks[..i], TitleRule()) == groups + [current]
      invariant titleBlocks == [] ==> groups == [] && current == []
      decreases |titleBlocks| - i
    {
      var span := titleBlocks[i];
      var last := current[|current| - 1];
      if Adjacent(last, span) {
        assert Runs(titleBlocks[..i + 1], TitleRule()) == groups + [current + [span]] by {
          TitleStep(titleBlocks, i, groups, current);
        }
        current := current + [span];
      } else {
        assert Runs(titleBlocks[..i + 1], TitleRule()) == groups + [current] + [[span]] by {
          TitleStep(titleBlocks, i, groups, current);
        }
        groups := groups + [current];
        current := [span];
      }
      i := i + 1;
    }
    if current != [] {
      groups := groups + [current];
      assert titleBlocks[..|titleBlocks|] == titleBlocks;
    }
  }

  /** `get_best_title_candidate`: sort the candidates, group them, pick the best group and
      repair and strip its joined text. */
  method GetBestTitleCandidate(hs: seq<Span>) returns (title: string)
    ensures title == BestTitle(hs)
  {
    var titleBlocks := TitleBlocks(hs);
    var groups := GroupTitleBlocks(titleBlocks);
    TitleOfGroups(hs, groups);
    var bestGroup := BestGroup(groups);
    title := Strip(FixHyphenation(JoinText(bestGroup)));
  }

  /** The whole extraction from the normalised spans. */
  function ExtractFromSpans(spans: seq<Span>): Document
    requires spans != []
  {
    var hs := Headings(Blocks(spans, Baseline.DefaultYThreshold));
    var title := BestTitle(hs);
    Document(title, OutlineOf(hs, SizeToLevel(SizesOf(hs)), title, |hs|))
  }

  /** `extract_title_and_outline` from the spans the layout engine hands over: it fails with an
      index error exactly when no span survives normalisation. */
  method ExtractTitleAndOutline(raw: seq<RawSpan>) returns (r: Result<Document>)
    ensures Normalise(raw) == [] ==> r == Failure(IndexError)
    ensures Normalise(raw) != [] ==> r == Success(ExtractFromSpans(Normalise(raw)))
  {
    var spans := CollectSpans(raw);
    if spans == [] {
      return Failure(IndexError);
    }
    var merged := MergeMultilineBlocks(spans);
    var headings := Headings(merged);
    var sizeFreq := CountSizes(headings);
    var sizeToLevel := SizeToLevel(sizeFreq.Keys);
    var bestTitle := GetBestTitleCandidate(headings);
    var outline := BuildOutline(headings, sizeToLevel, bestTitle);
    return Success(Document(bestTitle, outline));
  }

  /** What the extraction promises: the title is trimmed, empty when no heading block is a
      title candidate, never an outline entry's text; outline texts are pairwise distinct and
      every entry is numbered or of level H1 or H2. */
  lemma ExtractionGuarantees(spans: seq<Span>)
    requires spans != []
    ensures var d := ExtractFromSpans(spans);
      var hs := Headings(Blocks(spans, Baseline.DefaultYThreshold));
      && Trimmed(d.title)
      && ((forall s :: s in hs ==> !TitleCandidate(s)) ==> d.title == "")
      && (forall e :: e in d.outline ==> e.text != d.title && Admitted(e.text, e.level))
      && (forall a, b :: 0 <= a < b < |d.outline| ==> d.outline[a].text != d.outline[b].text)
  {
    var hs := Headings(Blocks(spans, Baseline.DefaultYThreshold));
    if forall s :: s in hs ==> !TitleCandidate(s) {
      NoCandidateNoTitle(hs);
    }
  }
}
