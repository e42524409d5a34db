/**
  Ranking in the search handler: the scored candidates are sorted by score,
  highest first, with `Array.prototype.sort`, which ECMAScript requires to be
  stable, and then only those scoring strictly above 0.2 are kept.
 */
module Ranking {
  import opened Documents

  /** Scores at or below this are dropped from the results. */
  const Threshold: real := 0.2

  predicate SortedByScore(xs: seq<ScoredDoc>) {
    forall i, j :: 0 <= i < j < |xs| ==> xs[i].score >= xs[j].score
  }

  /** The elements of `xs` with score exactly `s`, in their order in `xs`.
      A sort is stable when it keeps every such subsequence. */
  function WithScore(xs: seq<ScoredDoc>, s: real): seq<ScoredDoc>
    decreases |xs|
  {
    if xs == [] then []
    else (if xs[0].score == s then [xs[0]] else []) + WithScore(xs[1..], s)
  }

  /** `xs.filter(x => x.score > t)`. */
  function AboveThreshold(xs: seq<ScoredDoc>, t: real): seq<ScoredDoc>
    decreases |xs|
  {
    if xs == [] then []
    else (if xs[0].score > t then [xs[0]] else []) + AboveThreshold(xs[1..], t)
  }

  /** Puts `x` after the elements of `ys` that score strictly higher, so it
      lands before any element scoring the same. */
  function Insert(x: ScoredDoc, ys: seq<ScoredDoc>): seq<ScoredDoc>
    decreases |ys|
  {
    if ys == [] || x.score >= ys[0].score then [x] + ys
    else [ys[0]] + Insert(x, ys[1..])
  }

  /** `xs.sort((a, b) => b.score - a.score)`: a stable sort by descending
      score, here as an insertion sort. */
  function SortByScore(xs: seq<ScoredDoc>): seq<ScoredDoc>
    decreases |xs|
  {
    if xs == [] then [] else Insert(xs[0], SortByScore(xs[1..]))
  }

  /** What the search handler does with the scored candidates: sort, then
      keep scores above the threshold. */
  function Rank(scored: seq<ScoredDoc>): seq<ScoredDoc> {
    AboveThreshold(SortByScore(scored), Threshold)
  }

  // ---------------------------------------------------------------------
  // Sorting

  lemma {:induction false} InsertPermutes(x: ScoredDoc, ys: seq<ScoredDoc>)
    ensures multiset(Insert(x, ys)) == multiset(ys) + multiset{x}
    ensures |Insert(x, ys)| == |ys| + 1
    decreases |ys|
  {
    if ys != [] && x.score < ys[0].score {
      InsertPermutes(x, ys[1..]);
      assert ys == [ys[0]] + ys[1..];
    }
  }

  lemma {:induction false} InsertSorted(x: ScoredDoc, ys: seq<ScoredDoc>)
    requires SortedByScore(ys)
    ensures SortedByScore(Insert(x, ys))
    ensures Insert(x, ys) != [] && (Insert(x, ys)[0] == x || (ys != [] && Insert(x, ys)[0] == ys[0]))
    decreases |ys|
  {
    if ys != [] && x.score < ys[0].score {
      InsertSorted(x, ys[1..]);
      var r := Insert(x, ys);
      var tail := Insert(x, ys[1..]);
      assert r == [ys[0]] + tail;
      forall j | 0 < j < |r| ensures r[0].score >= r[j].score {
        InsertPermutes(x, ys[1..]);
        assert r[j] in multiset(tail);
        assert r[j] == x || r[j] in multiset(ys[1..]);
        if r[j] != x {
          var k :| 0 <= k < |ys[1..]| && ys[1..][k] == r[j];
          assert ys[k + 1] == r[j];
        }
      }
    }
  }

  /** The sort returns its input rearranged, highest score first. */
  lemma {:induction false} SortSortsAndPermutes(xs: seq<ScoredDoc>)
    ensures SortedByScore(SortByScore(xs))
    ensures multiset(SortByScore(xs)) == multiset(xs)
    decreases |xs|
  {
    if xs != [] {
      SortSortsAndPermutes(xs[1..]);
      InsertSorted(xs[0], SortByScore(xs[1..]));
      InsertPermutes(xs[0], SortByScore(xs[1..]));
      assert xs == [xs[0]] + xs[1..];
    }
  }

  /** `WithScore` and `AboveThreshold` of a sequence given by its head. */
  lemma FiltersOfCons(a: ScoredDoc, ys: seq<ScoredDoc>, s: real, t: real)
    ensures WithScore([a] + ys, s) == (if a.score == s then [a] else []) + WithScore(ys, s)
    ensures AboveThreshold([a] + ys, t) == (if a.score > t then [a] else []) + AboveThreshold(ys, t)
  {
    assert ([a] + ys)[0] == a;
    assert ([a] + ys)[1..] == ys;
  }

  lemma {:induction false} InsertKeepsTies(x: ScoredDoc, ys: seq<ScoredDoc>, s: real)
    ensures WithScore(Insert(x, ys), s)
      == (if x.score == s then [x] else []) + WithScore(ys, s)
    decreases |ys|
  {
    if ys == [] || x.score >= ys[0].score {
      FiltersOfCons(x, ys, s, 0.0);
    } else {
      var y, rest := ys[0], ys[1..];
      InsertKeepsTies(x, rest, s);
      FiltersOfCons(y, Insert(x, rest), s, 0.0);
      FiltersOfCons(y, rest, s, 0.0);
      assert ys == [y] + rest;
      assert x.score != s || y.score != s;
    }
  }

  /** Stability: candidates with equal scores keep their input order. */
  lemma {:induction false} SortIsStable(xs: seq<ScoredDoc>, s: real)
    ensures WithScore(SortByScore(xs), s) == WithScore(xs, s)
    decreases |xs|
  {
    if xs != [] {
      SortIsStable(xs[1..], s);
      InsertKeepsTies(xs[0], SortByScore(xs[1..]), s);
    }
  }

  // ---------------------------------------------------------------------
  // Filtering

  lemma {:induction false} AboveThresholdKeeps(xs: seq<ScoredDoc>, t: real)
    ensures forall i :: 0 <= i < |AboveThreshold(xs, t)| ==> AboveThreshold(xs, t)[i].score > t
    ensures forall x :: multiset(AboveThreshold(xs, t))[x] == if x.score > t then multiset(xs)[x] else 0
    decreases |xs|
  {
    if xs != [] {
      var y, rest := xs[0], xs[1..];
      AboveThresholdKeeps(rest, t);
      FiltersOfCons(y, rest, 0.0, t);
      assert xs == [y] + rest;
    }
  }

  /** No element of `xs` scores above `v`. */
  predicate ScoresAtMost(xs: seq<ScoredDoc>, v: real) {
    forall i :: 0 <= i < |xs| ==> xs[i].score <= v
  }

  lemma SortedTail(xs: seq<ScoredDoc>)
    requires SortedByScore(xs) && xs != []
    ensures SortedByScore(xs[1..]) && ScoresAtMost(xs[1..], xs[0].score)
  {
    forall i | 0 <= i < |xs[1..]| ensures xs[1..][i].score <= xs[0].score {
      assert xs[1..][i] == xs[i + 1];
    }
  }

  lemma SortedCons(y: ScoredDoc, rest: seq<ScoredDoc>)
    requires ScoresAtMost(rest, y.score) && SortedByScore(rest)
    ensures SortedByScore([y] + rest)
  {
    var xs := [y] + rest;
    forall i, j | 0 <= i < j < |xs| ensures xs[i].score >= xs[j].score {
      assert xs[j] == rest[j - 1];
      if i > 0 {
        assert xs[i] == rest[i - 1];
      }
    }
  }

  lemma {:induction false} AboveThresholdAtMost(xs: seq<ScoredDoc>, t: real, v: real)
    requires ScoresAtMost(xs, v)
    ensures ScoresAtMost(AboveThreshold(xs, t), v)
    decreases |xs|
  {
    if xs != [] {
      var y, rest := xs[0], xs[1..];
      assert ScoresAtMost(rest, v) by {
        forall i | 0 <= i < |rest| ensures rest[i].score <= v {
          assert rest[i] == xs[i + 1];
        }
      }
      AboveThresholdAtMost(rest, t, v);
      FiltersOfCons(y, rest, 0.0, t);
      assert xs == [y] + rest;
      var kept := AboveThreshold(rest, t);
      if y.score > t {
        var r := [y] + kept;
        forall i | 0 <= i < |r| ensures r[i].score <= v {
          if i > 0 {
            assert r[i] == kept[i - 1];
          }
        }
      }
    }
  }

  lemma {:induction false} AboveThresholdSorted(xs: seq<ScoredDoc>, t: real)
    requires SortedByScore(xs)
    ensures SortedByScore(AboveThreshold(xs, t))
    decreases |xs|
  {
    if xs != [] {
      var y, rest := xs[0], xs[1..];
      SortedTail(xs);
      AboveThresholdSorted(rest, t);
      AboveThresholdAtMost(rest, t, y.score);
      FiltersOfCons(y, rest, 0.0, t);
      assert xs == [y] + rest;
      if y.score > t {
        SortedCons(y, AboveThreshold(rest, t));
      }
    }
  }

  lemma {:induction false} AboveThresholdTies(xs: seq<ScoredDoc>, t: real, s: real)
    ensures WithScore(AboveThreshold(xs, t), s) == if s > t then WithScore(xs, s) else []
    decreases |xs|
  {
    if xs != [] {
      var y, rest := xs[0], xs[1..];
      var kept := AboveThreshold(rest, t);
      AboveThresholdTies(rest, t, s);
      FiltersOfCons(y, rest, s, t);
      assert xs == [y] + rest;
      if y.score > t {
        assert AboveThreshold(xs, t) == [y] + kept;
        FiltersOfCons(y, kept, s, t);
        if s <= t {
          assert WithScore([y] + kept, s) == [] + WithScore(kept, s);
        }
      } else {
        assert AboveThreshold(xs, t) == kept;
        if s > t {
          assert WithScore(xs, s) == [] + WithScore(rest, s);
        }
      }
    }
  }

  /** The ranking contract: every result scores above the threshold, results
      come highest score first, they are exactly the candidates scoring above
      the threshold, and candidates with equal scores keep their input
      order. */
  lemma RankSpec(scored: seq<ScoredDoc>)
    ensures forall i :: 0 <= i < |Rank(scored)| ==> Rank(scored)[i].score > Threshold
    ensures SortedByScore(Rank(scored))
    ensures forall x :: multiset(Rank(scored))[x] == if x.score > Threshold then multiset(scored)[x] else 0
    ensures forall s :: WithScore(Rank(scored), s) == if s > Threshold then WithScore(scored, s) else []
    ensures scored == [] ==> Rank(scored) == []
  {
    var sorted := SortByScore(scored);
    SortSortsAndPermutes(scored);
    AboveThresholdKeeps(sorted, Threshold);
    AboveThresholdSorted(sorted, Threshold);
    forall s ensures WithScore(Rank(scored), s) == if s > Threshold then WithScore(scored, s) else [] {
      SortIsStable(scored, s);
      AboveThresholdTies(sorted, Threshold, s);
    }
  }

  /** `Insert` into a sequence given by its head. */
  lemma InsertCons(x: ScoredDoc, y: ScoredDoc, zs: seq<ScoredDoc>)
    ensures Insert(x, [y] + zs) == if x.score >= y.score then [x] + ([y] + zs) else [y] + Insert(x, zs)
  {
    assert ([y] + zs)[0] == y;
    assert ([y] + zs)[1..] == zs;
  }

  lemma FilterInsertFront(x: ScoredDoc, ys: seq<ScoredDoc>, t: real)
    requires SortedByScore(ys)
    requires ys == [] || x.score >= ys[0].score
    ensures AboveThreshold(Insert(x, ys), t)
      == if x.score > t then Insert(x, AboveThreshold(ys, t)) else AboveThreshold(ys, t)
  {
    var above := AboveThreshold(ys, t);
    FiltersOfCons(x, ys, 0.0, t);
    assert Insert(x, ys) == [x] + ys;
    if above != [] {
      AboveThresholdKeeps(ys, t);
      assert above[0] in multiset(above);
      var k :| 0 <= k < |ys| && ys[k] == above[0];
      assert ys[0].score >= above[0].score;
      InsertCons(x, above[0], above[1..]);
      assert above == [above[0]] + above[1..];
    }
  }

  lemma {:induction false} FilterInsert(x: ScoredDoc, ys: seq<ScoredDoc>, t: real)
    requires SortedByScore(ys)
    ensures AboveThreshold(Insert(x, ys), t)
      == if x.score > t then Insert(x, AboveThreshold(ys, t)) else AboveThreshold(ys, t)
    decreases |ys|
  {
    if ys == [] || x.score >= ys[0].score {
      FilterInsertFront(x, ys, t);
    } else {
      var y, rest := ys[0], ys[1..];
      var kept := AboveThreshold(rest, t);
      assert ys == [y] + rest;
      FilterInsert(x, rest, t);
      assert Insert(x, ys) == [y] + Insert(x, rest);
      FiltersOfCons(y, Insert(x, rest), 0.0, t);
      FiltersOfCons(y, rest, 0.0, t);
      if x.score > t {
        assert AboveThreshold(ys, t) == [y] + kept;
        InsertCons(x, y, kept);
      }
    }
  }

  /** Sorting then filtering, as the handler does, gives the same list as
      filtering then sorting. */
  lemma {:induction false} FilterThenSort(xs: seq<ScoredDoc>, t: real)
    ensures AboveThreshold(SortByScore(xs), t) == SortByScore(AboveThreshold(xs, t))
    decreases |xs|
  {
    if xs != [] {
      var y, rest := xs[0], xs[1..];
      var kept := AboveThreshold(rest, t);
      FilterThenSort(rest, t);
      SortSortsAndPermutes(rest);
      FilterInsert(y, SortByScore(rest), t);
      FiltersOfCons(y, rest, 0.0, t);
      assert xs == [y] + rest;
      assert SortByScore(xs) == Insert(y, SortByScore(rest));
      if y.score > t {
        assert AboveThreshold(xs, t) == [y] + kept;
        assert ([y] + kept)[0] == y && ([y] + kept)[1..] == kept;
        assert SortByScore([y] + kept) == Insert(y, SortByScore(kept));
      } else {
        assert AboveThreshold(xs, t) == kept;
      }
    }
  }
}
