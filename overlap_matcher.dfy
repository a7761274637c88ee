/**
 * The overlap matcher, find_intersections (mycode.py:50-60): every interval
 * of the first list is compared with every interval of the second, and each
 * overlapping pair yields one record carrying the first interval's
 * chromosome and name.
 */
module OverlapMatcher {
  import opened Intervals

  /**
   * The record the pair (a, b) contributes, if any: the test of
   * mycode.py:55 followed by the extra guard of mycode.py:58.  The record
   * covers exactly the positions covered by both a and b.
   */
  function PairOverlap(a: Interval, b: Interval): (r: Option<Interval>)
    ensures r.Some? ==> r.value.chrom == a.chrom && r.value.name == a.name
    ensures r.Some? ==> r.value.start < r.value.end
    ensures r.Some? ==> forall x :: Covers(r.value, x) <==> Covers(a, x) && Covers(b, x)
  {
    if a.chrom == b.chrom && a.start < b.end && b.start < a.end then
      var istart := Max(a.start, b.start);
      var iend := Min(a.end, b.end);
      if istart < iend then Some(Interval(a.chrom, istart, iend, a.name)) else None
    else
      None
  }

  /** A pair yields a record exactly when both lie on one chromosome and share a position. */
  lemma PairOverlapIffShared(a: Interval, b: Interval)
    ensures PairOverlap(a, b).Some? <==> a.chrom == b.chrom && exists x :: Covers(a, x) && Covers(b, x)
    ensures PairOverlap(a, b).Some? <==>
              a.chrom == b.chrom && a.start < b.end && b.start < a.end && Max(a.start, b.start) < Min(a.end, b.end)
    ensures PairOverlap(a, b).Some? ==>
              PairOverlap(a, b).value == Interval(a.chrom, Max(a.start, b.start), Min(a.end, b.end), a.name)
  {
    if a.chrom == b.chrom && Max(a.start, b.start) < Min(a.end, b.end) {
      assert Covers(a, Max(a.start, b.start)) && Covers(b, Max(a.start, b.start));
    }
  }

  /** Touching intervals such as [0,10) and [10,20) do not overlap. */
  lemma TouchingDoNotOverlap(chrom: string, n1: string, n2: string)
    ensures PairOverlap(Interval(chrom, 0, 10, n1), Interval(chrom, 10, 20, n2)) == None
  {
  }

  /** The guard of mycode.py:58 matters for an empty interval inside another one. */
  lemma EmptyIntervalPassesFirstTest(chrom: string, n1: string, n2: string)
    ensures var a, b := Interval(chrom, 5, 5, n1), Interval(chrom, 0, 10, n2);
            a.chrom == b.chrom && a.start < b.end && b.start < a.end && PairOverlap(a, b) == None
  {
  }

  /** Records of one interval `a` against the second list, in that list's order. */
  function Matches(a: Interval, bs: seq<Interval>): seq<Interval>
  {
    if bs == [] then []
    else Matches(a, bs[..|bs| - 1]) + OptionToSeq(PairOverlap(a, bs[|bs| - 1]))
  }

  /** The whole result of find_intersections: matches of each first-list interval, in order. */
  function Intersect(as1: seq<Interval>, bs: seq<Interval>): seq<Interval>
  {
    if as1 == [] then []
    else Intersect(as1[..|as1| - 1], bs) + Matches(as1[|as1| - 1], bs)
  }

  /** find_intersections, the nested loop of mycode.py:52-60. */
  method FindIntersections(intervals1: seq<Interval>, intervals2: seq<Interval>) returns (results: seq<Interval>)
    ensures results == Intersect(intervals1, intervals2)
  {
    results := [];
    var i := 0;
    while i < |intervals1|
      invariant 0 <= i <= |intervals1|
      invariant results == Intersect(intervals1[..i], intervals2)
    {
      results := AppendMatches(results, intervals1[i], intervals2);
      assert intervals1[..i + 1][..i] == intervals1[..i];
      i := i + 1;
    }
    assert intervals1[..i] == intervals1;
  }

  /** The inner loop of mycode.py:54-59: the records of `a` against `bs` go onto `results`. */
  method AppendMatches(results: seq<Interval>, a: Interval, bs: seq<Interval>) returns (results': seq<Interval>)
    ensures results' == results + Matches(a, bs)
  {
    results' := results;
    var j := 0;
    while j < |bs|
      invariant 0 <= j <= |bs|
      invariant results' == results + Matches(a, bs[..j])
    {
      var b := bs[j];
      ghost var found: seq<Interval> := [];
      if a.chrom == b.chrom && a.start < b.end && b.start < a.end {
        var istart := Max(a.start, b.start);
        var iend := Min(a.end, b.end);
        if istart < iend {
          found := [Interval(a.chrom, istart, iend, a.name)];
          results' := results' + [Interval(a.chrom, istart, iend, a.name)];
        }
      }
      assert found == OptionToSeq(PairOverlap(a, b));
      MatchesNext(a, bs, j);
      AppendAssoc(results, Matches(a, bs[..j]), found);
      j := j + 1;
    }
    assert bs[..j] == bs;
  }

  /** One more second-list interval: its record, if any, goes at the end. */
  lemma MatchesNext(a: Interval, bs: seq<Interval>, j: nat)
    requires j < |bs|
    ensures Matches(a, bs[..j + 1]) == Matches(a, bs[..j]) + OptionToSeq(PairOverlap(a, bs[j]))
  {
    assert bs[..j + 1][..j] == bs[..j];
  }

  lemma MatchesSnoc(a: Interval, bs: seq<Interval>, b: Interval)
    ensures Matches(a, bs + [b]) == Matches(a, bs) + OptionToSeq(PairOverlap(a, b))
  {
    assert (bs + [b])[..|bs|] == bs;
  }

  lemma {:induction false} MatchesAppend(a: Interval, bs1: seq<Interval>, bs2: seq<Interval>)
    ensures Matches(a, bs1 + bs2) == Matches(a, bs1) + Matches(a, bs2)
    decreases |bs2|
  {
    if bs2 == [] {
      assert bs1 + bs2 == bs1;
    } else {
      var init, last := bs2[..|bs2| - 1], bs2[|bs2| - 1];
      SplitLast(bs2);
      AppendAssoc(bs1, init, [last]);
      MatchesSnoc(a, bs1 + init, last);
      MatchesSnoc(a, init, last);
      MatchesAppend(a, bs1, init);
      AppendAssoc(Matches(a, bs1), Matches(a, init), OptionToSeq(PairOverlap(a, last)));
    }
  }

  lemma IntersectSnoc(as1: seq<Interval>, a: Interval, bs: seq<Interval>)
    ensures Intersect(as1 + [a], bs) == Intersect(as1, bs) + Matches(a, bs)
  {
    assert (as1 + [a])[..|as1|] == as1;
  }

  /**
   * Output order: the records for a concatenated first list are those of
   * each part in turn, and within one first-list interval those of a
   * concatenated second list are those of each part in turn.  No
   * deduplication takes place.
   */
  lemma {:induction false} IntersectAppend(as1: seq<Interval>, as2: seq<Interval>, bs: seq<Interval>)
    ensures Intersect(as1 + as2, bs) == Intersect(as1, bs) + Intersect(as2, bs)
    decreases |as2|
  {
    if as2 == [] {
      assert as1 + as2 == as1;
    } else {
      var init, last := as2[..|as2| - 1], as2[|as2| - 1];
      SplitLast(as2);
      AppendAssoc(as1, init, [last]);
      IntersectSnoc(as1 + init, last, bs);
      IntersectSnoc(init, last, bs);
      IntersectAppend(as1, init, bs);
      AppendAssoc(Intersect(as1, bs), Intersect(init, bs), Matches(last, bs));
    }
  }

  /** One interval against one interval: the pair's record, if any. */
  lemma IntersectSingle(a: Interval, b: Interval)
    ensures Intersect([a], [b]) == OptionToSeq(PairOverlap(a, b))
  {
    assert [a][..0] == [];
    assert [b][..0] == [];
    assert Matches(a, [b]) == Matches(a, []) + OptionToSeq(PairOverlap(a, b));
    assert Intersect([a], [b]) == Intersect([], [b]) + Matches(a, [b]);
  }

  /** An empty input on either side gives an empty result. */
  lemma {:induction false} IntersectEmpty(as1: seq<Interval>, bs: seq<Interval>)
    ensures Intersect([], bs) == []
    ensures Intersect(as1, []) == []
    decreases |as1|
  {
    if as1 != [] {
      IntersectEmpty(as1[..|as1| - 1], bs);
    }
  }

  lemma {:induction false} MatchesMembership(a: Interval, bs: seq<Interval>, r: Interval)
    ensures r in Matches(a, bs) <==> exists j :: 0 <= j < |bs| && PairOverlap(a, bs[j]) == Some(r)
    decreases |bs|
  {
    if bs != [] {
      var init := bs[..|bs| - 1];
      MatchesMembership(a, init, r);
      if r in Matches(a, init) {
        var j :| 0 <= j < |init| && PairOverlap(a, init[j]) == Some(r);
        assert bs[j] == init[j];
      }
      if exists j :: 0 <= j < |bs| && PairOverlap(a, bs[j]) == Some(r) {
        var j :| 0 <= j < |bs| && PairOverlap(a, bs[j]) == Some(r);
        if j < |init| {
          assert init[j] == bs[j];
        }
      }
    }
  }

  /**
   * A record is in the result exactly when it is the record of some pair
   * (a, b) with a from the first list and b from the second.
   */
  lemma IntersectMembership(as1: seq<Interval>, bs: seq<Interval>, r: Interval)
    ensures r in Intersect(as1, bs) <==>
              exists i, j :: 0 <= i < |as1| && 0 <= j < |bs| && PairOverlap(as1[i], bs[j]) == Some(r)
  {
    if r in Intersect(as1, bs) {
      IntersectSound(as1, bs, r);
    }
    if exists i, j :: 0 <= i < |as1| && 0 <= j < |bs| && PairOverlap(as1[i], bs[j]) == Some(r) {
      var i, j :| 0 <= i < |as1| && 0 <= j < |bs| && PairOverlap(as1[i], bs[j]) == Some(r);
      IntersectComplete(as1, bs, i, j);
    }
  }

  /** Every record in the result comes from some pair. */
  lemma {:induction false} IntersectSound(as1: seq<Interval>, bs: seq<Interval>, r: Interval)
    requires r in Intersect(as1, bs)
    ensures exists i, j :: 0 <= i < |as1| && 0 <= j < |bs| && PairOverlap(as1[i], bs[j]) == Some(r)
    decreases |as1|
  {
    var init, last := as1[..|as1| - 1], as1[|as1| - 1];
    if r in Intersect(init, bs) {
      IntersectSound(init, bs, r);
      var i, j :| 0 <= i < |init| && 0 <= j < |bs| && PairOverlap(init[i], bs[j]) == Some(r);
      assert as1[i] == init[i];
    } else {
      MatchesMembership(last, bs, r);
      var j :| 0 <= j < |bs| && PairOverlap(last, bs[j]) == Some(r);
      assert PairOverlap(as1[|as1| - 1], bs[j]) == Some(r);
    }
  }

  /** The record of every overlapping pair is in the result. */
  lemma {:induction false} IntersectComplete(as1: seq<Interval>, bs: seq<Interval>, i: nat, j: nat)
    requires i < |as1| && j < |bs| && PairOverlap(as1[i], bs[j]).Some?
    ensures PairOverlap(as1[i], bs[j]).value in Intersect(as1, bs)
    decreases |as1|
  {
    var init, last := as1[..|as1| - 1], as1[|as1| - 1];
    var r := PairOverlap(as1[i], bs[j]).value;
    if i < |init| {
      assert init[i] == as1[i];
      IntersectComplete(init, bs, i, j);
      assert r in Intersect(init, bs);
    } else {
      MatchesMembership(last, bs, r);
      assert r in Matches(last, bs);
    }
  }

  /**
   * Every record lies on its first-list interval's chromosome, carries its
   * name, is non-empty and lies inside both intervals of its pair; intervals
   * on different chromosomes never contribute.
   */
  lemma IntersectRecords(as1: seq<Interval>, bs: seq<Interval>, r: Interval)
    requires r in Intersect(as1, bs)
    ensures r.start < r.end
    ensures exists i, j :: 0 <= i < |as1| && 0 <= j < |bs| &&
              as1[i].chrom == bs[j].chrom == r.chrom && as1[i].name == r.name &&
              as1[i].start <= r.start && r.end <= as1[i].end &&
              bs[j].start <= r.start && r.end <= bs[j].end
  {
    IntersectMembership(as1, bs, r);
    var i, j :| 0 <= i < |as1| && 0 <= j < |bs| && PairOverlap(as1[i], bs[j]) == Some(r);
    PairOverlapIffShared(as1[i], bs[j]);
  }

  lemma {:induction false} MatchesLength(a: Interval, bs: seq<Interval>)
    ensures |Matches(a, bs)| <= |bs|
    decreases |bs|
  {
    if bs != [] {
      MatchesLength(a, bs[..|bs| - 1]);
    }
  }

  /** At most one record per pair. */
  lemma {:induction false} IntersectLength(as1: seq<Interval>, bs: seq<Interval>)
    ensures |Intersect(as1, bs)| <= |as1| * |bs|
    decreases |as1|
  {
    if as1 != [] {
      IntersectLength(as1[..|as1| - 1], bs);
      MatchesLength(as1[|as1| - 1], bs);
      assert (|as1| - 1) * |bs| + |bs| == |as1| * |bs|;
    }
  }
}
