/**
 * Worked scenarios of the two combination operations on small inputs.
 */
module Scenarios {
  import opened Intervals
  import opened OverlapMatcher
  import opened NameMerger

  /** Two overlapping intervals of one name and chromosome widen to one record. */
  lemma UnionWidens()
    ensures Union([Interval("chr1", 5, 10, "geneA")], [Interval("chr1", 8, 15, "geneA")])
            == [Interval("chr1", 5, 15, "geneA")]
  {
    var a, b := Interval("chr1", 5, 10, "geneA"), Interval("chr1", 8, 15, "geneA");
    FoldSnoc([], a);
    FoldSnoc([a], b);
    assert [] + [a] == [a] && [a] + [b] == [a, b];
    var t := Fold([a, b]);
    assert t == Table(["geneA"], map["geneA" := Entry("chr1", 5, 15, 2, false)]);
    EmitSnoc([], t.entries, "geneA");
  }

  /** One name on two chromosomes produces no record at all. */
  lemma UnionDropsConflict()
    ensures Union([Interval("chr1", 5, 10, "geneA")], [Interval("chr2", 1, 3, "geneA")]) == []
  {
    var a, b := Interval("chr1", 5, 10, "geneA"), Interval("chr2", 1, 3, "geneA");
    FoldSnoc([], a);
    FoldSnoc([a], b);
    assert [] + [a] == [a] && [a] + [b] == [a, b];
    var t := Fold([a, b]);
    assert t == Table(["geneA"], map["geneA" := Entry("chr1", 5, 10, 2, true)]);
    EmitSnoc([], t.entries, "geneA");
  }

  /** Intervals of different names stay separate; the overlap takes the first name. */
  lemma EndToEnd()
    ensures Union([Interval("chr1", 10, 20, "geneA")], [Interval("chr1", 15, 25, "geneB")])
            == [Interval("chr1", 10, 20, "geneA"), Interval("chr1", 15, 25, "geneB")]
    ensures Intersect([Interval("chr1", 10, 20, "geneA")], [Interval("chr1", 15, 25, "geneB")])
            == [Interval("chr1", 15, 20, "geneA")]
  {
    var a, b := Interval("chr1", 10, 20, "geneA"), Interval("chr1", 15, 25, "geneB");
    UnionDistinctWithEmpty([a, b]);
    assert [a, b] + [] == [a] + [b];
    IntersectSingle(a, b);
  }

  /** With an empty first list the merger returns the second list's single interval. */
  lemma UnionOfEmptyAndOne()
    ensures Union([], [Interval("chr1", 1, 2, "x")]) == [Interval("chr1", 1, 2, "x")]
  {
    assert [] + [Interval("chr1", 1, 2, "x")] == [Interval("chr1", 1, 2, "x")];
    EmitFoldDistinct([Interval("chr1", 1, 2, "x")]);
  }
}
