/** Greedy adjacency grouping: one left-to-right pass over a sequence of spans that keeps a
    current group, extends it while a rule admits the next span, and otherwise closes it and
    starts a new one. Both block merges and the title grouping are such a pass. */
module Grouping {
  import opened Spans

  /** The groups laid end to end. */
  function Flatten(runs: seq<seq<Span>>): seq<Span>
  {
    if runs == [] then [] else Flatten(runs[..|runs| - 1]) + runs[|runs| - 1]
  }

  lemma FlattenSnoc(runs: seq<seq<Span>>, r: seq<Span>)
    ensures Flatten(runs + [r]) == Flatten(runs) + r
  {
    assert (runs + [r])[..|runs|] == runs;
  }

  /** The groups the pass builds from s when `joins(group, span)` decides whether `span`
      extends the current group. */
  function Runs(s: seq<Span>, joins: (seq<Span>, Span) -> bool): seq<seq<Span>>
    decreases |s|
  {
    if s == [] then []
    else
      var prev := Runs(s[..|s| - 1], joins);
      var x := s[|s| - 1];
      if prev != [] && joins(prev[|prev| - 1], x) then
        prev[..|prev| - 1] + [prev[|prev| - 1] + [x]]
      else
        prev + [[x]]
  }

  /** There are no more groups than spans, and at least one group when there is a span. */
  lemma {:induction false} RunsCount(s: seq<Span>, joins: (seq<Span>, Span) -> bool)
    ensures |Runs(s, joins)| <= |s|
    ensures |s| > 0 ==> |Runs(s, joins)| > 0
    decreases |s|
  {
    if s != [] {
      RunsCount(s[..|s| - 1], joins);
    }
  }

  /** No group is empty. */
  lemma {:induction false} RunsNonEmpty(s: seq<Span>, joins: (seq<Span>, Span) -> bool)
    ensures forall k :: 0 <= k < |Runs(s, joins)| ==> Runs(s, joins)[k] != []
    decreases |s|
  {
    if s != [] {
      var x := s[|s| - 1];
      RunsNonEmpty(s[..|s| - 1], joins);
      var prev := Runs(s[..|s| - 1], joins);
      var runs := Runs(s, joins);
      forall k | 0 <= k < |runs| ensures runs[k] != [] {
        if k < |prev| - 1 || (k == |prev| - 1 && !joins(prev[|prev| - 1], x)) {
          assert runs[k] == prev[k];
        }
      }
    }
  }

  /** Extending the last group extends the flattened sequence by the same span. */
  lemma FlattenExtendLast(closed: seq<seq<Span>>, last: seq<Span>, x: Span)
    ensures Flatten(closed + [last + [x]]) == Flatten(closed + [last]) + [x]
  {
    FlattenSnoc(closed, last);
    FlattenSnoc(closed, last + [x]);
  }

  /** Laid end to end, the groups give back s. */
  lemma {:induction false} RunsFlatten(s: seq<Span>, joins: (seq<Span>, Span) -> bool)
    ensures Flatten(Runs(s, joins)) == s
    decreases |s|
  {
    if s != [] {
      var init := s[..|s| - 1];
      var x := s[|s| - 1];
      RunsFlatten(init, joins);
      var prev := Runs(init, joins);
      if prev != [] && joins(prev[|prev| - 1], x) {
        var closed := prev[..|prev| - 1];
        var last := prev[|prev| - 1];
        assert closed + [last] == prev;
        FlattenExtendLast(closed, last, x);
      } else {
        FlattenSnoc(prev, [x]);
      }
      assert init + [x] == s;
    }
  }

  /** The groups partition s: laid end to end they give back s, none is empty, there are no
      more groups than spans, and there is at least one group when there is a span. */
  lemma {:induction false} RunsPartition(s: seq<Span>, joins: (seq<Span>, Span) -> bool)
    ensures var runs := Runs(s, joins);
      && |runs| <= |s|
      && (|s| > 0 ==> |runs| > 0)
      && (forall k :: 0 <= k < |runs| ==> runs[k] != [])
      && Flatten(runs) == s
  {
    RunsCount(s, joins);
    RunsNonEmpty(s, joins);
    RunsFlatten(s, joins);
  }

  /** A single span forms a single group. */
  lemma RunsSingleton(x: Span, joins: (seq<Span>, Span) -> bool)
    ensures Runs([x], joins) == [[x]]
  {
    assert [x][..0] == [];
  }

  /** One step of the pass: the next span either extends the current (last) group or starts
      a new one. */
  lemma RunsSnoc(s: seq<Span>, x: Span, joins: (seq<Span>, Span) -> bool,
                 closed: seq<seq<Span>>, current: seq<Span>)
    requires Runs(s, joins) == closed + [current]
    ensures joins(current, x) ==> Runs(s + [x], joins) == closed + [current + [x]]
    ensures !joins(current, x) ==> Runs(s + [x], joins) == closed + [current] + [[x]]
  {
    assert (s + [x])[..|s|] == s;
    assert (closed + [current])[..|closed|] == closed;
  }

  /** One step of a loop over s at position i: with the groups of s[..i] being `closed` and the
      open group `current`, s[i] either extends `current` or opens a new group. */
  lemma RunsStep(s: seq<Span>, i: nat, joins: (seq<Span>, Span) -> bool,
                 closed: seq<seq<Span>>, current: seq<Span>)
    requires i < |s|
    requires Runs(s[..i], joins) == closed + [current]
    ensures joins(current, s[i]) ==> Runs(s[..i + 1], joins) == closed + [current + [s[i]]]
    ensures !joins(current, s[i]) ==> Runs(s[..i + 1], joins) == closed + [current] + [[s[i]]]
  {
    assert s[..i + 1] == s[..i] + [s[i]];
    RunsSnoc(s[..i], s[i], joins, closed, current);
  }

  /** Inside each group, every span after the first was admitted by `joins` against the part
      of the group before it. */
  predicate Coherent(runs: seq<seq<Span>>, joins: (seq<Span>, Span) -> bool) {
    forall k, j :: 0 <= k < |runs| && 0 < j < |runs[k]| ==> joins(runs[k][..j], runs[k][j])
  }

  /** Each group after the first starts with a span that `joins` refused to add to the group
      before it. */
  predicate Maximal(runs: seq<seq<Span>>, joins: (seq<Span>, Span) -> bool)
    requires forall k :: 0 <= k < |runs| ==> runs[k] != []
  {
    forall k :: 0 <= k < |runs| - 1 ==> !joins(runs[k], runs[k + 1][0])
  }

  lemma {:induction false} RunsCohere(s: seq<Span>, joins: (seq<Span>, Span) -> bool)
    ensures Coherent(Runs(s, joins), joins)
    decreases |s|
  {
    if s != [] {
      var prev := Runs(s[..|s| - 1], joins);
      var x := s[|s| - 1];
      RunsCohere(s[..|s| - 1], joins);
      var runs := Runs(s, joins);
      if prev != [] && joins(prev[|prev| - 1], x) {
        var last := prev[|prev| - 1];
        assert runs == prev[..|prev| - 1] + [last + [x]];
        forall k, j | 0 <= k < |runs| && 0 < j < |runs[k]|
          ensures joins(runs[k][..j], runs[k][j])
        {
          if k == |runs| - 1 {
            assert runs[k] == last + [x];
            if j < |last| {
              assert runs[k][..j] == prev[k][..j] && runs[k][j] == prev[k][j];
            } else {
              assert runs[k][..j] == last && runs[k][j] == x;
            }
          } else {
            assert runs[k] == prev[k];
          }
        }
      } else {
        assert runs == prev + [[x]];
        forall k, j | 0 <= k < |runs| && 0 < j < |runs[k]|
          ensures joins(runs[k][..j], runs[k][j])
        {
          assert runs[k] == prev[k];
        }
      }
    }
  }

  lemma {:induction false} RunsMaximal(s: seq<Span>, joins: (seq<Span>, Span) -> bool)
    ensures forall k :: 0 <= k < |Runs(s, joins)| ==> Runs(s, joins)[k] != []
    ensures Maximal(Runs(s, joins), joins)
    decreases |s|
  {
    RunsNonEmpty(s, joins);
    if s != [] {
      var prev := Runs(s[..|s| - 1], joins);
      var x := s[|s| - 1];
      RunsMaximal(s[..|s| - 1], joins);
      var runs := Runs(s, joins);
      if prev != [] && joins(prev[|prev| - 1], x) {
        assert runs == prev[..|prev| - 1] + [prev[|prev| - 1] + [x]];
        forall k | 0 <= k < |runs| - 1 ensures !joins(runs[k], runs[k + 1][0]) {
          assert runs[k] == prev[k];
          assert runs[k + 1][0] == prev[k + 1][0];
        }
      } else {
        assert runs == prev + [[x]];
        forall k | 0 <= k < |runs| - 1 ensures !joins(runs[k], runs[k + 1][0]) {
          assert runs[k] == prev[k];
          if k < |prev| - 1 {
            assert runs[k + 1] == prev[k + 1];
          }
        }
      }
    }
  }

  /** Every span of every group is one of the grouped spans. */
  lemma {:induction false} InFlatten(runs: seq<seq<Span>>, k: nat, i: nat)
    requires k < |runs| && i < |runs[k]|
    ensures runs[k][i] in Flatten(runs)
  {
    var init := runs[..|runs| - 1];
    assert runs == init + [runs[|runs| - 1]];
    FlattenSnoc(init, runs[|runs| - 1]);
    if k < |runs| - 1 {
      InFlatten(init, k, i);
    }
  }

  lemma SortedSplit(a: seq<Span>, b: seq<Span>)
    requires SortedByPosition(a + b)
    ensures SortedByPosition(a)
    ensures forall x, y :: x in a && y in b ==> InOrder(x, y)
  {
    assert forall i :: 0 <= i < |a| ==> (a + b)[i] == a[i];
    forall x, y | x in a && y in b ensures InOrder(x, y) {
      var i :| 0 <= i < |a| && a[i] == x;
      var j :| 0 <= j < |b| && b[j] == y;
      assert (a + b)[|a| + j] == y;
    }
  }

  /** When the grouped spans are in (page, y) order, so are the first spans of the groups. */
  lemma {:induction false} FirstSpansInOrder(runs: seq<seq<Span>>)
    requires forall k :: 0 <= k < |runs| ==> runs[k] != []
    requires SortedByPosition(Flatten(runs))
    ensures forall k1, k2 :: 0 <= k1 < k2 < |runs| ==> InOrder(runs[k1][0], runs[k2][0])
  {
    if runs != [] {
      var init := runs[..|runs| - 1];
      var last := runs[|runs| - 1];
      assert runs == init + [last];
      FlattenSnoc(init, last);
      SortedSplit(Flatten(init), last);
      FirstSpansInOrder(init);
      forall k1 | 0 <= k1 < |runs| - 1 ensures InOrder(runs[k1][0], last[0]) {
        InFlatten(init, k1, 0);
      }
    }
  }
}
