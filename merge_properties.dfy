/** What `mergeIntervals` and `calculateTotalWatched` promise: the merged
    list is canonical, covers exactly the watched points, is determined by
    those points alone, and its total never counts a point twice. */
module MergeProperties {
  import opened Video
  import opened ProgressTracker

  // ---------------------------------------------------------------------
  // Coverage of concatenations and of canonical lists

  lemma CoversConcat(a: seq<VideoInterval>, b: seq<VideoInterval>, x: real)
    ensures Covers(a + b, x) <==> Covers(a, x) || Covers(b, x)
  {
    if Covers(a + b, x) {
      var iv :| iv in a + b && Contains(iv, x);
      assert iv in a || iv in b;
    }
    if Covers(b, x) {
      var iv :| iv in b && Contains(iv, x);
      assert iv in a + b;
    }
  }

  lemma CoversSingleton(iv: VideoInterval, x: real)
    ensures Covers([iv], x) <==> Contains(iv, x)
  {
    if Contains(iv, x) {
      assert iv in [iv];
    }
  }

  /** A point covered by a canonical list is not before its first span. */
  lemma CoveredNotBeforeFirst(a: seq<VideoInterval>, x: real)
    requires Canonical(a) && Covers(a, x)
    ensures a != [] && a[0].start <= x
  {
    var iv :| iv in a && Contains(iv, x);
    var k :| 0 <= k < |a| && a[k] == iv;
    if k > 0 {
      assert a[0] in a;
    }
  }

  /** In a canonical list the rest covers only points after the first span. */
  lemma CoversCanonicalTail(a: seq<VideoInterval>, x: real)
    requires Canonical(a) && a != []
    ensures Covers(a, x) <==> Contains(a[0], x) || Covers(a[1..], x)
    ensures Covers(a[1..], x) ==> a[0].end < x
  {
    assert a == [a[0]] + a[1..];
    CoversConcat([a[0]], a[1..], x);
    CoversSingleton(a[0], x);
    if Covers(a[1..], x) {
      var iv :| iv in a[1..] && Contains(iv, x);
      var k :| 0 <= k < |a[1..]| && a[1..][k] == iv;
      assert a[k + 1] == iv;
    }
  }

  lemma CanonicalTail(a: seq<VideoInterval>)
    requires Canonical(a) && a != []
    ensures Canonical(a[1..])
  {
    forall iv | iv in a[1..] ensures WellFormed(iv) {
      assert iv in a;
    }
  }

  /** A point strictly between the end of span `k` and the start of the next
      (or anywhere after the last span) is not covered. */
  lemma NotCoveredInGap(a: seq<VideoInterval>, k: nat, x: real)
    requires Canonical(a) && k < |a|
    requires a[k].end < x && (k + 1 < |a| ==> x < a[k + 1].start)
    ensures !Covers(a, x)
  {
    forall iv | iv in a ensures !Contains(iv, x) {
      var j :| 0 <= j < |a| && a[j] == iv;
      if j < k {
        assert a[j].end < a[k].start && a[k] in a;
      } else if j > k + 1 {
        assert a[k + 1].end < a[j].start && a[k + 1] in a;
      }
    }
  }

  /** A well-formed span whose points are all covered by a canonical list
      lies inside a single span of that list. */
  lemma ContainedInOne(c: seq<VideoInterval>, iv: VideoInterval) returns (k: nat)
    requires Canonical(c) && WellFormed(iv)
    requires forall x :: Contains(iv, x) ==> Covers(c, x)
    ensures k < |c| && c[k].start <= iv.start && iv.end <= c[k].end
  {
    assert Contains(iv, iv.start);
    var host :| host in c && Contains(host, iv.start);
    k :| 0 <= k < |c| && c[k] == host;
    if c[k].end < iv.end {
      var hi := if k + 1 < |c| && c[k + 1].start < iv.end then c[k + 1].start else iv.end;
      var x := (c[k].end + hi) / 2.0;
      assert Contains(iv, x);
      NotCoveredInGap(c, k, x);
      assert false;
    }
  }

  // ---------------------------------------------------------------------
  // The sweep

  /** Extending the last span of a canonical list keeps it canonical. */
  lemma ExtendLastCanonical(merged: seq<VideoInterval>, newEnd: real)
    requires Canonical(merged) && merged != [] && merged[|merged| - 1].end <= newEnd
    ensures Canonical(merged[..|merged| - 1] + [VideoInterval(merged[|merged| - 1].start, newEnd)])
  {
    var n := |merged|;
    var last := merged[n - 1];
    assert last in merged;
    var front := merged[..n - 1];
    var r := front + [VideoInterval(last.start, newEnd)];
    forall iv | iv in r ensures WellFormed(iv) {
      if iv in front {
        assert iv in merged;
      }
    }
    forall p, q | 0 <= p < q < |r| ensures r[p].end < r[q].start {
      assert r[p] == merged[p];
      if q < n - 1 {
        assert r[q] == merged[q];
      }
    }
  }

  /** Appending a well-formed span that starts after the last one ends keeps
      a canonical list canonical. */
  lemma AppendCanonical(merged: seq<VideoInterval>, current: VideoInterval)
    requires Canonical(merged) && merged != [] && WellFormed(current)
    requires merged[|merged| - 1].end < current.start
    ensures Canonical(merged + [current])
  {
    var n := |merged|;
    var last := merged[n - 1];
    assert last in merged;
    var r := merged + [current];
    forall p, q | 0 <= p < q < |r| ensures r[p].end < r[q].start {
      if q == n && p < n - 1 {
        assert merged[p].end < last.start;
      }
    }
  }

  /** The sweep yields a canonical list whatever order its input is in. */
  lemma {:induction false} SweepCanonical(sorted: seq<VideoInterval>, i: nat)
    requires AllWellFormed(sorted) && 1 <= i <= |sorted|
    ensures Canonical(Sweep(sorted, i))
    decreases i
  {
    if i == 1 {
      assert sorted[0] in sorted;
    } else {
      SweepCanonical(sorted, i - 1);
      var merged := Sweep(sorted, i - 1);
      var current := sorted[i - 1];
      assert current in sorted;
      var last := merged[|merged| - 1];
      if current.start <= last.end {
        ExtendLastCanonical(merged, Max(last.end, current.end));
      } else {
        AppendCanonical(merged, current);
      }
    }
  }

  /** One sweep step covers what it had plus the span it looks at, provided
      that span does not start before the last merged one. */
  lemma AbsorbCoverage(merged: seq<VideoInterval>, current: VideoInterval, x: real)
    requires merged != [] && merged[|merged| - 1].start <= current.start
    ensures Covers(Absorb(merged, current), x) <==> Covers(merged, x) || Contains(current, x)
  {
    var n := |merged|;
    var last := merged[n - 1];
    CoversSingleton(current, x);
    if current.start <= last.end {
      var extended := VideoInterval(last.start, Max(last.end, current.end));
      assert merged == merged[..n - 1] + [last];
      CoversConcat(merged[..n - 1], [last], x);
      CoversConcat(merged[..n - 1], [extended], x);
      CoversSingleton(last, x);
      CoversSingleton(extended, x);
    } else {
      CoversConcat(merged, [current], x);
    }
  }

  /** On input sorted by start, the sweep covers exactly the points covered
      by the spans it has looked at, and its last span starts no later than
      the last span looked at. */
  lemma {:induction false} SweepCoverage(sorted: seq<VideoInterval>, i: nat)
    requires SortedByStart(sorted) && 1 <= i <= |sorted|
    ensures forall x :: Covers(Sweep(sorted, i), x) <==> Covers(sorted[..i], x)
    ensures Sweep(sorted, i)[|Sweep(sorted, i)| - 1].start <= sorted[i - 1].start
    decreases i
  {
    if i == 1 {
      assert sorted[..1] == [sorted[0]];
    } else {
      SweepCoverage(sorted, i - 1);
      var merged := Sweep(sorted, i - 1);
      var current := sorted[i - 1];
      assert sorted[..i] == sorted[..i - 1] + [current];
      forall x ensures Covers(Sweep(sorted, i), x) <==> Covers(sorted[..i], x) {
        AbsorbCoverage(merged, current, x);
        CoversConcat(sorted[..i - 1], [current], x);
        CoversSingleton(current, x);
      }
    }
  }

  // ---------------------------------------------------------------------
  // Totals

  lemma {:induction false} TotalConcat(a: seq<VideoInterval>, b: seq<VideoInterval>)
    ensures CalculateTotalWatched(a + b) == CalculateTotalWatched(a) + CalculateTotalWatched(b)
    decreases |b|
  {
    if b != [] {
      var b' := b[..|b| - 1];
      assert (a + b)[..|a + b| - 1] == a + b';
      TotalConcat(a, b');
    } else {
      assert a + b == a;
    }
  }

  lemma TotalSnoc(s: seq<VideoInterval>, iv: VideoInterval)
    ensures CalculateTotalWatched(s + [iv]) == CalculateTotalWatched(s) + Length(iv)
  {
    assert (s + [iv])[..|s|] == s;
  }

  lemma TotalPrefix(s: seq<VideoInterval>, i: nat)
    requires 0 < i <= |s|
    ensures CalculateTotalWatched(s[..i]) == CalculateTotalWatched(s[..i - 1]) + Length(s[i - 1])
  {
    assert s[..i][..i - 1] == s[..i - 1];
  }

  lemma TotalCons(a: seq<VideoInterval>)
    requires a != []
    ensures CalculateTotalWatched(a) == Length(a[0]) + CalculateTotalWatched(a[1..])
  {
    assert a == [a[0]] + a[1..];
    TotalConcat([a[0]], a[1..]);
    assert [a[0]][..0] == [];
  }

  lemma {:induction false} InsertTotal(iv: VideoInterval, sorted: seq<VideoInterval>)
    ensures CalculateTotalWatched(Insert(iv, sorted)) == Length(iv) + CalculateTotalWatched(sorted)
    decreases |sorted|
  {
    var r := Insert(iv, sorted);
    TotalCons(r);
    if sorted == [] || iv.start <= sorted[0].start {
      assert r[1..] == sorted;
    } else {
      assert r[1..] == Insert(iv, sorted[1..]);
      InsertTotal(iv, sorted[1..]);
      TotalCons(sorted);
    }
  }

  /** Sorting does not change the total. */
  lemma {:induction false} SortTotal(s: seq<VideoInterval>)
    ensures CalculateTotalWatched(SortByStart(s)) == CalculateTotalWatched(s)
    decreases |s|
  {
    if s != [] {
      SortTotal(s[1..]);
      InsertTotal(s[0], SortByStart(s[1..]));
      TotalCons(s);
    }
  }

  /** One sweep step adds at most the length of the span it looks at. */
  lemma AbsorbTotal(merged: seq<VideoInterval>, current: VideoInterval)
    requires merged != [] && WellFormed(current)
    ensures CalculateTotalWatched(Absorb(merged, current))
         <= CalculateTotalWatched(merged) + Length(current)
  {
    var n := |merged|;
    var last := merged[n - 1];
    var r := Absorb(merged, current);
    if current.start <= last.end {
      assert r[..|r| - 1] == merged[..n - 1];
    } else {
      assert r[..|r| - 1] == merged;
    }
  }

  lemma SweepTotalStep(sorted: seq<VideoInterval>, i: nat)
    requires 1 < i <= |sorted| && WellFormed(sorted[i - 1])
    requires CalculateTotalWatched(Sweep(sorted, i - 1)) <= CalculateTotalWatched(sorted[..i - 1])
    ensures CalculateTotalWatched(Sweep(sorted, i)) <= CalculateTotalWatched(sorted[..i])
  {
    AbsorbTotal(Sweep(sorted, i - 1), sorted[i - 1]);
    TotalPrefix(sorted, i);
  }

  /** The sweep's total is at most the sum of the lengths it has looked at. */
  lemma {:induction false} SweepTotal(sorted: seq<VideoInterval>, i: nat)
    requires AllWellFormed(sorted) && 1 <= i <= |sorted|
    ensures CalculateTotalWatched(Sweep(sorted, i)) <= CalculateTotalWatched(sorted[..i])
    decreases i
  {
    if i == 1 {
      assert Sweep(sorted, 1) == sorted[..1];
    } else {
      SweepTotal(sorted, i - 1);
      assert sorted[i - 1] in sorted;
      SweepTotalStep(sorted, i);
    }
  }

  // ---------------------------------------------------------------------
  // The merge

  lemma SortedMembers(s: seq<VideoInterval>)
    ensures forall iv :: iv in SortByStart(s) <==> iv in s
  {
    var r := SortByStart(s);
    forall iv ensures iv in r <==> iv in s {
      assert iv in r <==> iv in multiset(r);
      assert iv in s <==> iv in multiset(s);
    }
  }

  /** For well-formed input, the merge is well-formed, sorted by start and
      strictly separated: touching or overlapping spans never survive as
      separate entries. */
  lemma MergeCanonical(s: seq<VideoInterval>)
    requires AllWellFormed(s)
    ensures Canonical(Merge(s))
    ensures SortedByStart(Merge(s))
  {
    if |s| > 1 {
      var sorted := SortByStart(s);
      SortedMembers(s);
      SweepCanonical(sorted, |sorted|);
    }
    var r := Merge(s);
    forall i, j | 0 <= i < j < |r| ensures r[i].start <= r[j].start {
      assert r[i] in r;
    }
  }

  /** A point is covered by the merge exactly when some input span covers it. */
  lemma MergeCoverage(s: seq<VideoInterval>)
    ensures forall x :: Covers(Merge(s), x) <==> Covers(s, x)
  {
    if |s| > 1 {
      var sorted := SortByStart(s);
      SortedMembers(s);
      SweepCoverage(sorted, |sorted|);
      assert sorted[..|sorted|] == sorted;
      forall x ensures Covers(sorted, x) <==> Covers(s, x) {
        if Covers(s, x) {
          var iv :| iv in s && Contains(iv, x);
          assert iv in sorted;
        }
      }
    }
  }

  /** The merged total never exceeds the plain sum of the input lengths. */
  lemma MergeTotalAtMostSum(s: seq<VideoInterval>)
    requires AllWellFormed(s)
    ensures CalculateTotalWatched(Merge(s)) <= CalculateTotalWatched(s)
  {
    if |s| > 1 {
      var sorted := SortByStart(s);
      SortedMembers(s);
      SweepTotal(sorted, |sorted|);
      assert sorted[..|sorted|] == sorted;
      SortTotal(s);
    }
  }

  // ---------------------------------------------------------------------
  // Uniqueness of the canonical form

  lemma FirstEndNotBelow(a: seq<VideoInterval>, b: seq<VideoInterval>)
    requires Canonical(a) && Canonical(b) && a != [] && b != []
    requires forall x :: Covers(a, x) <==> Covers(b, x)
    requires a[0].start == b[0].start
    ensures b[0].end <= a[0].end
  {
    if a[0].end < b[0].end {
      var hi := if 1 < |a| && a[1].start < b[0].end then a[1].start else b[0].end;
      var x := (a[0].end + hi) / 2.0;
      assert a[0] in a;
      assert Contains(b[0], x);
      assert b[0] in b;
      NotCoveredInGap(a, 0, x);
      assert false;
    }
  }

  /** Two canonical lists that cover the same points are equal. */
  lemma {:induction false} CanonicalUnique(a: seq<VideoInterval>, b: seq<VideoInterval>)
    requires Canonical(a) && Canonical(b)
    requires forall x :: Covers(a, x) <==> Covers(b, x)
    ensures a == b
    decreases |a|
  {
    if a == [] {
      if b != [] {
        assert b[0] in b;
        assert Covers(b, b[0].start);
      }
    } else if b == [] {
      assert a[0] in a;
      assert Covers(a, a[0].start);
    } else {
      assert a[0] in a && b[0] in b;
      assert Covers(a, a[0].start) && Covers(b, b[0].start);
      CoveredNotBeforeFirst(a, b[0].start);
      CoveredNotBeforeFirst(b, a[0].start);
      FirstEndNotBelow(a, b);
      FirstEndNotBelow(b, a);
      forall x ensures Covers(a[1..], x) <==> Covers(b[1..], x) {
        CoversCanonicalTail(a, x);
        CoversCanonicalTail(b, x);
      }
      CanonicalTail(a);
      CanonicalTail(b);
      CanonicalUnique(a[1..], b[1..]);
      assert a == [a[0]] + a[1..] && b == [b[0]] + b[1..];
    }
  }

  /** The merge depends only on the set of watched points. */
  lemma MergeDeterminedByCoverage(s: seq<VideoInterval>, t: seq<VideoInterval>)
    requires AllWellFormed(s) && AllWellFormed(t)
    requires forall x :: Covers(s, x) <==> Covers(t, x)
    ensures Merge(s) == Merge(t)
  {
    MergeCanonical(s);
    MergeCanonical(t);
    MergeCoverage(s);
    MergeCoverage(t);
    CanonicalUnique(Merge(s), Merge(t));
  }

  /** Merging a list that is already canonical returns it unchanged. */
  lemma MergeOfCanonical(c: seq<VideoInterval>)
    requires Canonical(c)
    ensures Merge(c) == c
  {
    MergeCanonical(c);
    MergeCoverage(c);
    CanonicalUnique(Merge(c), c);
  }

  lemma MergeIdempotent(s: seq<VideoInterval>)
    requires AllWellFormed(s)
    ensures Merge(Merge(s)) == Merge(s)
  {
    MergeCanonical(s);
    MergeOfCanonical(Merge(s));
  }

  /** Reordering the input does not change the merge. */
  lemma MergeOrderIndependent(s: seq<VideoInterval>, t: seq<VideoInterval>)
    requires AllWellFormed(s) && multiset(s) == multiset(t)
    ensures Merge(s) == Merge(t)
  {
    forall iv ensures iv in s <==> iv in t {
      assert iv in s <==> iv in multiset(s);
      assert iv in t <==> iv in multiset(t);
    }
    MergeDeterminedByCoverage(s, t);
  }

  /** Two spans of a canonical list that share a point are the same span. */
  lemma SharedPointSameSpan(c: seq<VideoInterval>, i: nat, j: nat, x: real)
    requires Canonical(c) && i < |c| && j < |c|
    requires Contains(c[i], x) && Contains(c[j], x)
    ensures i == j
  {
  }

  /** Every point of an input span is covered by the merge. */
  lemma InputCoveredByMerge(s: seq<VideoInterval>, u: VideoInterval)
    requires u in s
    ensures forall x :: Contains(u, x) ==> Covers(Merge(s), x)
  {
    MergeCoverage(s);
  }

  /** Two input spans that overlap or touch end up inside one merged span. */
  lemma TouchingSpansMergeTogether(s: seq<VideoInterval>, u: VideoInterval, v: VideoInterval)
    returns (k: nat)
    requires AllWellFormed(s) && u in s && v in s
    requires u.start <= v.end && v.start <= u.end
    ensures k < |Merge(s)|
    ensures Merge(s)[k].start <= u.start && u.end <= Merge(s)[k].end
    ensures Merge(s)[k].start <= v.start && v.end <= Merge(s)[k].end
  {
    var m := Merge(s);
    MergeCanonical(s);
    InputCoveredByMerge(s, u);
    InputCoveredByMerge(s, v);
    k := ContainedInOne(m, u);
    var kv := ContainedInOne(m, v);
    var p := Max(u.start, v.start);
    SharedPointSameSpan(m, k, kv, p);
  }

  // ---------------------------------------------------------------------
  // The total of a canonical list as the measure of the points it covers

  /** If every point covered by canonical `a` is covered by canonical `b`,
      the total of `a` is at most the total of `b`. */
  lemma {:induction false} CanonicalTotalMonotone(a: seq<VideoInterval>, b: seq<VideoInterval>)
    requires Canonical(a) && Canonical(b)
    requires forall x :: Covers(a, x) ==> Covers(b, x)
    ensures CalculateTotalWatched(a) <= CalculateTotalWatched(b)
    decreases |a| + |b|
  {
    if a == [] {
    } else if b == [] {
      assert a[0] in a;
      assert Covers(a, a[0].start);
    } else {
      assert a[0] in a && b[0] in b;
      forall x | Contains(a[0], x) ensures Covers(b, x) {
        assert Covers(a, x);
      }
      var k := ContainedInOne(b, a[0]);
      TotalCons(b);
      CanonicalTail(b);
      if k > 0 {
        assert b[0].end < b[k].start;
        forall x | Covers(a, x) ensures Covers(b[1..], x) {
          CoveredNotBeforeFirst(a, x);
          CoversCanonicalTail(b, x);
        }
        CanonicalTotalMonotone(a, b[1..]);
      } else {
        var rest := [VideoInterval(a[0].end, b[0].end)] + b[1..];
        forall iv | iv in rest ensures WellFormed(iv) {
          if iv in b[1..] {
            assert iv in b;
          }
        }
        forall p, q | 0 <= p < q < |rest| ensures rest[p].end < rest[q].start {
          assert rest[q] == b[q];
          if p > 0 {
            assert rest[p] == b[p];
          }
        }
        forall x | Covers(a[1..], x) ensures Covers(rest, x) {
          CoversCanonicalTail(a, x);
          CoversCanonicalTail(b, x);
          CoversConcat([VideoInterval(a[0].end, b[0].end)], b[1..], x);
          CoversSingleton(VideoInterval(a[0].end, b[0].end), x);
        }
        CanonicalTail(a);
        CanonicalTotalMonotone(a[1..], rest);
        TotalCons(a);
        TotalCons(rest);
        assert rest[1..] == b[1..];
      }
    }
  }
}
