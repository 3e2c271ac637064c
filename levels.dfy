/** Heading candidates and their levels: the length filter, the count of blocks per font size,
    and the map from the three largest sizes to H1, H2 and H3. */
module Levels {
  import opened Spans

  datatype Level = H1 | H2 | H3

  /** The number in the level's name. */
  function Rank(l: Level): nat {
    match l
    case H1 => 1
    case H2 => 2
    case H3 => 3
  }

  /** A block short enough to be a heading: text of fewer than 150 characters. */
  predicate HeadingLength(b: Span) {
    |b.text| < 150
  }

  /** The blocks short enough to be headings. */
  function Headings(blocks: seq<Span>): (hs: seq<Span>)
    ensures |hs| <= |blocks|
    ensures forall b :: b in hs <==> b in blocks && HeadingLength(b)
  {
    Filter(blocks, HeadingLength)
  }

  /** The headings keep the order of the blocks: those of a concatenation are those of each part
      in turn, and a single block is a heading exactly when it is short enough. */
  lemma HeadingsInOrder(a: seq<Span>, b: seq<Span>, x: Span)
    ensures Headings(a + b) == Headings(a) + Headings(b)
    ensures Headings([x]) == if HeadingLength(x) then [x] else []
  {
    FilterAppend(a, b, HeadingLength);
    FilterSingleton(x, HeadingLength);
  }

  /** The font sizes that occur among the headings. */
  function SizesOf(hs: seq<Span>): set<real> {
    set s | s in hs :: s.size
  }

  /** How many headings have font size z. */
  function Count(hs: seq<Span>, z: real): nat {
    if hs == [] then 0
    else Count(hs[..|hs| - 1], z) + (if hs[|hs| - 1].size == z then 1 else 0)
  }

  /** A size is counted at least once exactly when some heading has it. */
  lemma {:induction false} CountPositiveIffOccurs(hs: seq<Span>, z: real)
    ensures Count(hs, z) > 0 <==> z in SizesOf(hs)
  {
    if hs != [] {
      var init := hs[..|hs| - 1];
      assert hs == init + [hs[|hs| - 1]];
      assert SizesOf(hs) == SizesOf(init) + {hs[|hs| - 1].size};
      CountPositiveIffOccurs(init, z);
    }
  }

  /** The frequency loop: one entry per size that occurs, holding how many headings have it. */
  method CountSizes(hs: seq<Span>) returns (freq: map<real, nat>)
    ensures freq.Keys == SizesOf(hs)
    ensures forall z :: z in freq ==> freq[z] == Count(hs, z) && freq[z] > 0
  {
    freq := map[];
    for i := 0 to |hs|
      invariant freq.Keys == SizesOf(hs[..i])
      invariant forall z :: z in freq ==> freq[z] == Count(hs[..i], z)
    {
      var prefix := hs[..i + 1];
      assert prefix[..i] == hs[..i] && prefix[i] == hs[i];
      assert SizesOf(prefix) == SizesOf(hs[..i]) + {hs[i].size} by {
        assert prefix == hs[..i] + [hs[i]];
      }
      assert forall w :: Count(prefix, w) == Count(hs[..i], w) + (if hs[i].size == w then 1 else 0);
      var z := hs[i].size;
      CountPositiveIffOccurs(hs[..i], z);
      freq := freq[z := (if z in freq then freq[z] else 0) + 1];
    }
    assert hs[..|hs|] == hs;
    forall z | z in freq ensures freq[z] > 0 {
      CountPositiveIffOccurs(hs, z);
    }
  }

  predicate IsLargest(m: real, sizes: set<real>) {
    m in sizes && forall z :: z in sizes ==> z <= m
  }

  lemma PickSize(sizes: set<real>) returns (x: real)
    requires sizes != {}
    ensures x in sizes
  {
    if forall z :: z !in sizes {
      assert false;
    }
    x :| x in sizes;
  }

  lemma {:induction false} HasLargest(sizes: set<real>)
    requires sizes != {}
    ensures exists m :: IsLargest(m, sizes)
    decreases sizes
  {
    var x := PickSize(sizes);
    var others := sizes - {x};
    if others != {} {
      HasLargest(others);
      var m :| IsLargest(m, others);
      var top := if m < x then x else m;
      forall z | z in sizes ensures z <= top {
        if z != x {
          assert z in others;
        }
      }
      assert IsLargest(top, sizes);
    } else {
      assert sizes == {x};
      assert IsLargest(x, sizes);
    }
  }

  predicate StrictlyDecreasing(r: seq<real>) {
    forall i, j :: 0 <= i < j < |r| ==> r[i] > r[j]
  }

  /** The distinct sizes, largest first (the sizes of `size_freq`, sorted by descending value). */
  function RankSizes(sizes: set<real>): (r: seq<real>)
    ensures StrictlyDecreasing(r)
    ensures forall z :: z in r <==> z in sizes
    ensures |r| == |sizes|
    decreases sizes
  {
    if sizes == {} then []
    else
      HasLargest(sizes);
      var m :| IsLargest(m, sizes);
      var rest := RankSizes(sizes - {m});
      assert forall z :: z in rest ==> z < m;
      [m] + rest
  }

  /** The level map built from the ranked sizes: the first three get H1, H2 and H3 in turn. */
  function LevelMap(ranked: seq<real>): map<real, Level>
  {
    if |ranked| == 0 then map[]
    else if |ranked| == 1 then map[ranked[0] := H1]
    else if |ranked| == 2 then map[ranked[0] := H1, ranked[1] := H2]
    else map[ranked[0] := H1, ranked[1] := H2, ranked[2] := H3]
  }

  /** What the level map of strictly decreasing sizes holds: the first (at most) three sizes,
      ranked in order. */
  lemma LevelMapOfRanked(r: seq<real>)
    requires StrictlyDecreasing(r)
    ensures var m := LevelMap(r);
      && (forall z :: z in m <==> exists k :: 0 <= k < |r| && k < 3 && r[k] == z)
      && (forall k :: 0 <= k < |r| && k < 3 ==> Rank(m[r[k]]) == k + 1)
      && |m.Keys| == if |r| < 3 then |r| else 3
  {
    var m := LevelMap(r);
    if |r| >= 3 {
      assert m.Keys == {r[0], r[1], r[2]};
    } else if |r| == 2 {
      assert m.Keys == {r[0], r[1]};
    } else if |r| == 1 {
      assert m.Keys == {r[0]};
    }
  }

  /** `size_to_level`: at most three sizes, all occurring ones; a strictly larger size gets a
      strictly smaller level number, so the largest size is H1; a size left out of the map is
      smaller than each of three sizes in it. */
  function SizeToLevel(sizes: set<real>): (m: map<real, Level>)
    ensures |m.Keys| <= 3
    ensures m.Keys <= sizes
    ensures forall a, b :: a in m && b in m && a > b ==> Rank(m[a]) < Rank(m[b])
    ensures forall a :: IsLargest(a, sizes) ==> a in m && m[a] == H1
    ensures forall z :: z in sizes && z !in m ==> |m.Keys| == 3 && forall a :: a in m ==> z < a
  {
    var r := RankSizes(sizes);
    LevelMapKeys(r);
    LevelMapOrdered(r);
    LevelMapLargest(r);
    LevelMapRest(r);
    LevelMap(r)
  }

  /** The level map of strictly decreasing sizes holds at most three of them. */
  lemma LevelMapKeys(r: seq<real>)
    requires StrictlyDecreasing(r)
    ensures var m := LevelMap(r);
      |m.Keys| <= 3 && forall z :: z in m ==> z in r
  {
    LevelMapOfRanked(r);
  }

  /** The largest of strictly decreasing sizes is H1. */
  lemma LevelMapLargest(r: seq<real>)
    requires StrictlyDecreasing(r)
    ensures var m := LevelMap(r);
      forall a :: a in r && (forall z :: z in r ==> z <= a) ==> a in m && m[a] == H1
  {
    LevelMapOfRanked(r);
    var m := LevelMap(r);
    forall a | a in r && (forall z :: z in r ==> z <= a) ensures a in m && m[a] == H1 {
      var k :| 0 <= k < |r| && r[k] == a;
      assert r[0] in r;
      assert k == 0;
    }
  }

  /** In the level map of strictly decreasing sizes, a larger size has a smaller level number. */
  lemma LevelMapOrdered(r: seq<real>)
    requires StrictlyDecreasing(r)
    ensures var m := LevelMap(r);
      forall a, b :: a in m && b in m && a > b ==> Rank(m[a]) < Rank(m[b])
  {
    LevelMapOfRanked(r);
    var m := LevelMap(r);
    forall a, b | a in m && b in m && a > b ensures Rank(m[a]) < Rank(m[b]) {
      var i :| 0 <= i < |r| && i < 3 && r[i] == a;
      var j :| 0 <= j < |r| && j < 3 && r[j] == b;
      assert i < j;
    }
  }

  /** A ranked size left out of the level map comes after three sizes that are all larger. */
  lemma LevelMapRest(r: seq<real>)
    requires StrictlyDecreasing(r)
    ensures var m := LevelMap(r);
      forall z :: z in r && z !in m ==> |m.Keys| == 3 && forall a :: a in m ==> z < a
  {
    LevelMapOfRanked(r);
    var m := LevelMap(r);
    forall z | z in r && z !in m ensures |m.Keys| == 3 && forall a :: a in m ==> z < a {
      var k :| 0 <= k < |r| && r[k] == z;
      assert k >= 3;
      forall a | a in m ensures z < a {
        var i :| 0 <= i < |r| && i < 3 && r[i] == a;
      }
    }
  }

  /** `size_to_level.get(size, "H3")`. */
  function LevelOf(m: map<real, Level>, size: real): (l: Level)
    ensures size in m ==> l == m[size]
    ensures size !in m ==> l == H3
  {
    if size in m then m[size] else H3
  }

  /** Strictly decreasing sizes are pairwise distinct, so there are as many of them as
      entries. */
  lemma {:induction false} StrictlyDecreasingCard(r: seq<real>)
    requires StrictlyDecreasing(r)
    ensures |set x | x in r| == |r|
  {
    if r != [] {
      var init := r[..|r| - 1];
      var last := r[|r| - 1];
      assert r == init + [last];
      assert StrictlyDecreasing(init);
      StrictlyDecreasingCard(init);
      SetOfSnoc(init, last);
      assert last !in init by {
        forall i | 0 <= i < |init| ensures init[i] != last {
          assert init[i] == r[i];
        }
      }
    }
  }

  lemma SetOfSnoc(s: seq<real>, x: real)
    ensures (set y | y in s + [x]) == (set y | y in s) + {x}
  {
  }

  /** In strictly decreasing sizes, exactly k sizes are larger than the one at position k. */
  lemma LargerRankedBefore(r: seq<real>, k: nat)
    requires StrictlyDecreasing(r) && k < |r|
    ensures |set w | w in r && w > r[k]| == k
  {
    var above := set w | w in r && w > r[k];
    assert above == set x | x in r[..k] by {
      forall w | w in above ensures w in r[..k] {
        var i :| 0 <= i < |r| && r[i] == w;
        assert i < k;
        assert r[..k][i] == w;
      }
      forall w | w in r[..k] ensures w in above {
        var i :| 0 <= i < k && r[..k][i] == w;
        assert r[i] == w;
      }
    }
    assert StrictlyDecreasing(r[..k]);
    StrictlyDecreasingCard(r[..k]);
  }

  /** The size at position k of strictly decreasing sizes reads H(k+1) up to H3. */
  lemma LevelMapAt(r: seq<real>, k: nat)
    requires StrictlyDecreasing(r) && k < |r|
    ensures Rank(LevelOf(LevelMap(r), r[k])) == if k < 3 then k + 1 else 3
  {
    LevelMapOfRanked(r);
    if k >= 3 {
      forall j | 0 <= j < |r| && j < 3 ensures r[j] != r[k] {
        assert r[j] > r[k];
      }
    }
  }

  /** The level a heading's size reads through `size_to_level.get(size, "H3")`: H1 when no
      occurring size is larger, H2 when exactly one is, H3 otherwise. */
  lemma LevelOfRank(sizes: set<real>, z: real)
    requires z in sizes
    ensures var larger := |set w | w in sizes && w > z|;
      Rank(LevelOf(SizeToLevel(sizes), z)) == if larger < 3 then larger + 1 else 3
  {
    var r := RankSizes(sizes);
    var k :| 0 <= k < |r| && r[k] == z;
    assert (set w | w in sizes && w > z) == (set w | w in r && w > r[k]);
    LargerRankedBefore(r, k);
    assert SizeToLevel(sizes) == LevelMap(r);
    LevelMapAt(r, k);
  }

  /** The H1 case: a size reads H1 exactly when no occurring size is larger. */
  lemma LevelOfLargest(sizes: set<real>, z: real)
    requires z in sizes
    ensures LevelOf(SizeToLevel(sizes), z) == H1 <==> forall w :: w in sizes ==> w <= z
  {
    LevelOfRank(sizes, z);
    var above := set w | w in sizes && w > z;
    if forall w :: w in sizes ==> w <= z {
      assert above == {};
    } else {
      var w :| w in sizes && w > z;
      assert w in above;
    }
  }

  /** Ranking starts with the largest size and goes on with the rest. */
  lemma RankSizesFirst(sizes: set<real>, a: real)
    requires IsLargest(a, sizes)
    ensures RankSizes(sizes) == [a] + RankSizes(sizes - {a})
  {
    var r := RankSizes(sizes);
    assert r[0] in sizes;
    assert r[0] == a;
  }
}
