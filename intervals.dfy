/**
 * The BED4 interval record shared by the reader, both combination
 * algorithms and the writer of mycode.py: a tuple (chrom, start, end, name)
 * on half-open integer coordinates [start, end).
 */
module Intervals {

  datatype Option<+T> = None | Some(value: T)

  datatype Interval = Interval(chrom: string, start: int, end: int, name: string)

  /** The reader guarantees start <= end for every interval it produces. */
  predicate WellFormed(iv: Interval) {
    iv.start <= iv.end
  }

  /** Position x lies in the half-open range [iv.start, iv.end). */
  predicate Covers(iv: Interval, x: int) {
    iv.start <= x < iv.end
  }

  function Min(a: int, b: int): (m: int)
    ensures m <= a && m <= b && (m == a || m == b)
  {
    if a <= b then a else b
  }

  function Max(a: int, b: int): (m: int)
    ensures a <= m && b <= m && (m == a || m == b)
  {
    if a >= b then a else b
  }

  /** The list holding the value of `o`, or nothing. */
  function OptionToSeq<T>(o: Option<T>): (s: seq<T>)
    ensures o.None? ==> s == []
    ensures o.Some? ==> s == [o.value]
  {
    match o
    case None => []
    case Some(v) => [v]
  }

  /** A non-empty sequence is its front followed by its last element. */
  lemma SplitLast<T>(s: seq<T>)
    requires s != []
    ensures s[..|s| - 1] + [s[|s| - 1]] == s
  {
  }

  /** Concatenation regroups freely. */
  lemma AppendAssoc<T>(a: seq<T>, b: seq<T>, c: seq<T>)
    ensures (a + b) + c == a + (b + c)
  {
  }
}
