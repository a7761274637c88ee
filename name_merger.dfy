/**
 * The name-keyed merger, find_unions (mycode.py:63-84).  The intervals of
 * both lists are folded, left to right, into a dictionary keyed by name;
 * an entry remembers the chromosome of the name's first interval and is
 * widened by later intervals on that chromosome, or flagged invalid by one
 * on another chromosome.  Valid entries are emitted in the dictionary's
 * insertion order.
 */
module NameMerger {
  import opened Intervals

  /** One dictionary value of mycode.py:68; `invalid` is the key set at line 73. */
  datatype Entry = Entry(chrom: string, start: int, end: int, count: nat, invalid: bool)

  /**
   * A Python dictionary with its insertion order: `order` lists the keys
   * in the order they were first inserted.
   */
  datatype Table = Table(order: seq<string>, entries: map<string, Entry>)

  const EmptyTable := Table([], map[])

  /**
   * One iteration of the loop body of mycode.py:67-77.  An existing entry
   * keeps its chromosome, and once invalid it stays invalid; the other
   * entries and the key order are untouched, except that a new name goes
   * to the end.
   */
  function Absorb(t: Table, iv: Interval): (r: Table)
    ensures iv.name in r.entries
    ensures r.entries.Keys == t.entries.Keys + {iv.name}
    ensures r.order == if iv.name in t.entries then t.order else t.order + [iv.name]
    ensures forall n :: n in t.entries ==>
              r.entries[n].chrom == t.entries[n].chrom && (t.entries[n].invalid ==> r.entries[n].invalid)
    ensures forall n :: n in t.entries && n != iv.name ==> r.entries[n] == t.entries[n]
  {
    if iv.name !in t.entries then
      Table(t.order + [iv.name], t.entries[iv.name := Entry(iv.chrom, iv.start, iv.end, 1, false)])
    else
      var e := t.entries[iv.name];
      var e' := if e.chrom != iv.chrom then e.(invalid := true)
                else e.(start := Min(e.start, iv.start), end := Max(e.end, iv.end));
      Table(t.order, t.entries[iv.name := e'.(count := e.count + 1)])
  }

  /** The dictionary after the loop of mycode.py:66-77 has run over `xs`. */
  function Fold(xs: seq<Interval>): Table
  {
    if xs == [] then EmptyTable else Absorb(Fold(xs[..|xs| - 1]), xs[|xs| - 1])
  }

  /** The output record of one valid entry (mycode.py:83). */
  function Record(name: string, e: Entry): Interval {
    Interval(e.chrom, e.start, e.end, name)
  }

  /**
   * The output loop of mycode.py:80-83: the records of the entries not
   * flagged invalid, in key order.
   */
  function Emit(order: seq<string>, entries: map<string, Entry>): (r: seq<Interval>)
    requires forall n :: n in order ==> n in entries
    ensures forall p :: 0 <= p < |r| ==>
              r[p].name in order && !entries[r[p].name].invalid && r[p] == Record(r[p].name, entries[r[p].name])
  {
    if order == [] then []
    else
      var n := order[|order| - 1];
      Emit(order[..|order| - 1], entries) + if entries[n].invalid then [] else [Record(n, entries[n])]
  }

  /** Every key whose entry is valid is emitted. */
  lemma {:induction false} EmitComplete(order: seq<string>, entries: map<string, Entry>, k: nat)
    requires forall n :: n in order ==> n in entries
    requires k < |order| && !entries[order[k]].invalid
    ensures exists p :: 0 <= p < |Emit(order, entries)| && Emit(order, entries)[p].name == order[k]
    decreases |order|
  {
    var init, n := order[..|order| - 1], order[|order| - 1];
    var r := Emit(order, entries);
    if k == |order| - 1 {
      assert r[|r| - 1].name == order[k];
    } else {
      EmitComplete(init, entries, k);
      var p :| 0 <= p < |Emit(init, entries)| && Emit(init, entries)[p].name == init[k];
      assert r[p] == Emit(init, entries)[p];
    }
  }

  /** Emitted records keep the relative order of their keys. */
  lemma {:induction false} EmitOrder(order: seq<string>, entries: map<string, Entry>, p: nat, q: nat)
    requires forall n :: n in order ==> n in entries
    requires p < q < |Emit(order, entries)|
    ensures exists i, j :: 0 <= i < j < |order| &&
              order[i] == Emit(order, entries)[p].name && order[j] == Emit(order, entries)[q].name
    decreases |order|
  {
    var init, n := order[..|order| - 1], order[|order| - 1];
    var prev := Emit(init, entries);
    var r := Emit(order, entries);
    assert r[p] == prev[p];
    if q < |prev| {
      assert r[q] == prev[q];
      EmitOrder(init, entries, p, q);
      var i, j :| 0 <= i < j < |init| && init[i] == prev[p].name && init[j] == prev[q].name;
      assert order[i] == init[i] && order[j] == init[j];
    } else {
      assert r[q].name == n;
      var i :| 0 <= i < |init| && init[i] == prev[p].name;
      assert order[i] == init[i];
      assert order[i] == r[p].name && order[|order| - 1] == r[q].name;
    }
  }

  /** The result of find_unions (mycode.py:63-84). */
  function Union(intervals1: seq<Interval>, intervals2: seq<Interval>): seq<Interval>
  {
    var t := Fold(intervals1 + intervals2);
    FoldKeys(intervals1 + intervals2);
    Emit(t.order, t.entries)
  }

  /** Every key in the insertion order has an entry. */
  lemma {:induction false} FoldKeys(xs: seq<Interval>)
    ensures forall n :: n in Fold(xs).order <==> n in Fold(xs).entries
    decreases |xs|
  {
    if xs != [] {
      FoldKeys(xs[..|xs| - 1]);
    }
  }

  /** find_unions (mycode.py:63-84): the fold, then the output loop. */
  method FindUnions(intervals1: seq<Interval>, intervals2: seq<Interval>) returns (results: seq<Interval>)
    ensures results == Union(intervals1, intervals2)
  {
    var order, byName := BuildTable(intervals1 + intervals2);
    FoldKeys(intervals1 + intervals2);
    results := EmitValid(order, byName);
  }

  /** The loop of mycode.py:65-77, filling the dictionary `byName`. */
  method BuildTable(xs: seq<Interval>) returns (order: seq<string>, byName: map<string, Entry>)
    ensures Table(order, byName) == Fold(xs)
  {
    order, byName := [], map[];
    var i := 0;
    while i < |xs|
      invariant 0 <= i <= |xs|
      invariant Table(order, byName) == Fold(xs[..i])
    {
      order, byName := AbsorbStep(order, byName, xs[i]);
      FoldNext(xs, i);
      i := i + 1;
    }
    assert xs[..i] == xs;
  }

  lemma FoldNext(xs: seq<Interval>, i: nat)
    requires i < |xs|
    ensures Fold(xs[..i + 1]) == Absorb(Fold(xs[..i]), xs[i])
  {
    assert xs[..i + 1][..i] == xs[..i];
  }

  /** The loop body of mycode.py:67-77, for one interval `iv`. */
  method AbsorbStep(order: seq<string>, byName: map<string, Entry>, iv: Interval)
    returns (order': seq<string>, byName': map<string, Entry>)
    ensures Table(order', byName') == Absorb(Table(order, byName), iv)
  {
    order', byName' := order, byName;
    if iv.name !in byName' {
      byName' := byName'[iv.name := Entry(iv.chrom, iv.start, iv.end, 1, false)];
      order' := order' + [iv.name];
    } else {
      var entry := byName'[iv.name];
      if entry.chrom != iv.chrom {
        entry := entry.(invalid := true);
      } else {
        entry := entry.(start := Min(entry.start, iv.start), end := Max(entry.end, iv.end));
      }
      entry := entry.(count := entry.count + 1);
      byName' := byName'[iv.name := entry];
    }
  }

  /** The output loop of mycode.py:78-84, skipping entries flagged invalid. */
  method EmitValid(order: seq<string>, byName: map<string, Entry>) returns (results: seq<Interval>)
    requires forall n :: n in order ==> n in byName
    ensures results == Emit(order, byName)
  {
    results := [];
    var k := 0;
    while k < |order|
      invariant 0 <= k <= |order|
      invariant results == Emit(order[..k], byName)
    {
      var name := order[k];
      var entry := byName[name];
      if !entry.invalid {
        results := results + [Interval(entry.chrom, entry.start, entry.end, name)];
      }
      assert order[..k + 1][..k] == order[..k];
      k := k + 1;
    }
    assert order[..k] == order;
  }

  // ---------------------------------------------------------------------
  // An independent description of the result, in terms of the input list
  // alone, and the proof that the fold and the output loop meet it.
  // ---------------------------------------------------------------------

  /** Some interval of `xs` carries the name `n`. */
  predicate Occurs(xs: seq<Interval>, n: string) {
    exists k :: 0 <= k < |xs| && xs[k].name == n
  }

  /** All intervals of `xs` named `n` lie on one chromosome. */
  predicate SameChrom(xs: seq<Interval>, n: string) {
    forall k, l :: 0 <= k < |xs| && 0 <= l < |xs| && xs[k].name == n && xs[l].name == n ==> xs[k].chrom == xs[l].chrom
  }

  /** The number of intervals of `xs` named `n`. */
  function Count(xs: seq<Interval>, n: string): nat {
    if xs == [] then 0 else Count(xs[..|xs| - 1], n) + if xs[|xs| - 1].name == n then 1 else 0
  }

  /** The keys are the names met so far, each once, in the key order. */
  ghost predicate KeysInv(xs: seq<Interval>, t: Table) {
    && (forall n :: n in t.entries <==> Occurs(xs, n))
    && (forall n :: n in t.order <==> n in t.entries)
    && (forall i, j :: 0 <= i < j < |t.order| ==> t.order[i] != t.order[j])
  }

  /** Every interval named `b` is preceded by one named `a`. */
  ghost predicate Precedes(xs: seq<Interval>, a: string, b: string) {
    forall l :: 0 <= l < |xs| && xs[l].name == b ==> exists k :: 0 <= k < l && xs[k].name == a
  }

  /** A key comes before another one when its name first occurs earlier. */
  ghost predicate OrderInv(xs: seq<Interval>, t: Table) {
    forall i, j :: 0 <= i < j < |t.order| ==> Precedes(xs, t.order[i], t.order[j])
  }

  /** The entry's chromosome is that of the first interval named `n`. */
  ghost predicate FirstChrom(xs: seq<Interval>, e: Entry, n: string) {
    forall k :: 0 <= k < |xs| && xs[k].name == n && (forall l :: 0 <= l < k ==> xs[l].name != n) ==>
      xs[k].chrom == e.chrom
  }

  /** The entry is invalid exactly when some interval named `n` lies on another chromosome. */
  ghost predicate FlagExact(xs: seq<Interval>, e: Entry, n: string) {
    e.invalid <==> exists k :: 0 <= k < |xs| && xs[k].name == n && xs[k].chrom != e.chrom
  }

  /**
   * The entry's extent is the smallest start and the largest end of the
   * intervals named `n` on its chromosome.
   */
  ghost predicate ExtentExact(xs: seq<Interval>, e: Entry, n: string) {
    && (forall k :: 0 <= k < |xs| && xs[k].name == n && xs[k].chrom == e.chrom ==>
          e.start <= xs[k].start && xs[k].end <= e.end)
    && (exists k :: 0 <= k < |xs| && xs[k].name == n && xs[k].chrom == e.chrom && xs[k].start == e.start)
    && (exists k :: 0 <= k < |xs| && xs[k].name == n && xs[k].chrom == e.chrom && xs[k].end == e.end)
  }

  /** What the entry of `n` holds after the fold over `xs`. */
  ghost predicate EntryInv(xs: seq<Interval>, e: Entry, n: string) {
    FirstChrom(xs, e, n) && FlagExact(xs, e, n) && ExtentExact(xs, e, n) && e.count == Count(xs, n)
  }

  ghost predicate TableInv(xs: seq<Interval>, t: Table) {
    KeysInv(xs, t) && OrderInv(xs, t) && forall n :: n in t.entries ==> EntryInv(xs, t.entries[n], n)
  }

  lemma {:induction false} CountAbsent(xs: seq<Interval>, n: string)
    requires !Occurs(xs, n)
    ensures Count(xs, n) == 0
    decreases |xs|
  {
    if xs != [] {
      CountAbsent(xs[..|xs| - 1], n);
    }
  }

  lemma AbsorbKeys(xs: seq<Interval>, t: Table, iv: Interval)
    requires KeysInv(xs, t)
    ensures KeysInv(xs + [iv], Absorb(t, iv))
  {
    var r := Absorb(t, iv);
    forall n
      ensures n in r.entries <==> Occurs(xs + [iv], n)
    {
      OccursSnoc(xs, iv, n);
    }
  }

  lemma OccursSnoc(xs: seq<Interval>, iv: Interval, n: string)
    ensures Occurs(xs + [iv], n) <==> Occurs(xs, n) || iv.name == n
  {
    var ys := xs + [iv];
    if Occurs(ys, n) && iv.name != n {
      var k :| 0 <= k < |ys| && ys[k].name == n;
      assert xs[k] == ys[k];
    }
    if Occurs(xs, n) {
      var k :| 0 <= k < |xs| && xs[k].name == n;
      assert ys[k] == xs[k];
    }
    assert ys[|xs|] == iv;
  }

  lemma PrecedesOld(xs: seq<Interval>, iv: Interval, a: string, b: string)
    requires Precedes(xs, a, b) && Occurs(xs, b)
    ensures Precedes(xs + [iv], a, b)
  {
    var ys := xs + [iv];
    var l0 :| 0 <= l0 < |xs| && xs[l0].name == b;
    forall l | 0 <= l < |ys| && ys[l].name == b
      ensures exists k :: 0 <= k < l && ys[k].name == a
    {
      var l' := if l < |xs| then l else l0;
      assert xs[l'].name == b;
      var k :| 0 <= k < l' && xs[k].name == a;
      assert ys[k] == xs[k];
    }
  }

  lemma PrecedesNew(xs: seq<Interval>, iv: Interval, a: string)
    requires Occurs(xs, a) && !Occurs(xs, iv.name)
    ensures Precedes(xs + [iv], a, iv.name)
  {
    var ys := xs + [iv];
    var k :| 0 <= k < |xs| && xs[k].name == a;
    assert ys[k] == xs[k];
    forall l | 0 <= l < |ys| && ys[l].name == iv.name
      ensures exists k :: 0 <= k < l && ys[k].name == a
    {
    }
  }

  lemma AbsorbOrder(xs: seq<Interval>, t: Table, iv: Interval)
    requires KeysInv(xs, t) && OrderInv(xs, t)
    ensures OrderInv(xs + [iv], Absorb(t, iv))
  {
    var r := Absorb(t, iv);
    forall i, j | 0 <= i < j < |r.order|
      ensures Precedes(xs + [iv], r.order[i], r.order[j])
    {
      assert r.order[i] in t.order;
      if j < |t.order| {
        assert r.order[j] in t.order;
        PrecedesOld(xs, iv, r.order[i], r.order[j]);
      } else {
        PrecedesNew(xs, iv, r.order[i]);
      }
    }
  }

  lemma AbsorbFresh(xs: seq<Interval>, t: Table, iv: Interval)
    requires KeysInv(xs, t) && iv.name !in t.entries
    ensures EntryInv(xs + [iv], Absorb(t, iv).entries[iv.name], iv.name)
  {
    var n := iv.name;
    assert Absorb(t, iv).entries[n] == Entry(iv.chrom, iv.start, iv.end, 1, false);
    assert !Occurs(xs, n);
    FreshEntry(xs, iv);
    CountAbsent(xs, n);
    CountSnoc(xs, iv, n);
  }

  /** The first interval of a name is the only one: its entry describes it exactly. */
  lemma FreshEntry(xs: seq<Interval>, iv: Interval)
    requires !Occurs(xs, iv.name)
    ensures var e := Entry(iv.chrom, iv.start, iv.end, 1, false);
            FirstChrom(xs + [iv], e, iv.name) && FlagExact(xs + [iv], e, iv.name) && ExtentExact(xs + [iv], e, iv.name)
  {
    var ys, n := xs + [iv], iv.name;
    assert ys[|xs|] == iv;
    forall k | 0 <= k < |xs|
      ensures ys[k] == xs[k] && ys[k].name != n
    {
    }
  }

  lemma AbsorbRepeatFirst(xs: seq<Interval>, e: Entry, iv: Interval, e': Entry)
    requires Occurs(xs, iv.name) && FirstChrom(xs, e, iv.name) && e'.chrom == e.chrom
    ensures FirstChrom(xs + [iv], e', iv.name)
  {
    var ys, n := xs + [iv], iv.name;
    var k0 :| 0 <= k0 < |xs| && xs[k0].name == n;
    assert ys[k0] == xs[k0];
    forall k | 0 <= k < |ys| && ys[k].name == n && (forall l :: 0 <= l < k ==> ys[l].name != n)
      ensures ys[k].chrom == e'.chrom
    {
      assert k < |xs|;  // otherwise the interval at k0 would come before it
      assert ys[k] == xs[k];
      forall l | 0 <= l < k
        ensures xs[l].name != n
      {
        assert ys[l] == xs[l];
      }
    }
  }

  lemma AbsorbRepeatFlag(xs: seq<Interval>, e: Entry, iv: Interval)
    requires FlagExact(xs, e, iv.name) && iv.chrom != e.chrom
    ensures FlagExact(xs + [iv], e.(invalid := true, count := e.count + 1), iv.name)
  {
    assert (xs + [iv])[|xs|] == iv;
  }

  lemma AbsorbRepeatExtent(xs: seq<Interval>, e: Entry, iv: Interval)
    requires FlagExact(xs, e, iv.name) && ExtentExact(xs, e, iv.name) && iv.chrom == e.chrom
    ensures var e' := e.(start := Min(e.start, iv.start), end := Max(e.end, iv.end), count := e.count + 1);
            FlagExact(xs + [iv], e', iv.name) && ExtentExact(xs + [iv], e', iv.name)
  {
    var ys, n := xs + [iv], iv.name;
    var e' := e.(start := Min(e.start, iv.start), end := Max(e.end, iv.end), count := e.count + 1);
    assert forall k :: 0 <= k < |xs| ==> ys[k] == xs[k];
    assert ys[|xs|] == iv;
    var ks :| 0 <= ks < |xs| && xs[ks].name == n && xs[ks].chrom == e.chrom && xs[ks].start == e.start;
    var ke :| 0 <= ke < |xs| && xs[ke].name == n && xs[ke].chrom == e.chrom && xs[ke].end == e.end;
    var ks' := if iv.start < e.start then |xs| else ks;
    var ke' := if iv.end > e.end then |xs| else ke;
    assert ys[ks'].start == e'.start && ys[ke'].end == e'.end;
  }

  lemma AbsorbRepeatKeepsExtent(xs: seq<Interval>, e: Entry, iv: Interval)
    requires ExtentExact(xs, e, iv.name) && iv.chrom != e.chrom
    ensures ExtentExact(xs + [iv], e.(invalid := true, count := e.count + 1), iv.name)
  {
    var ys, n := xs + [iv], iv.name;
    assert forall k :: 0 <= k < |xs| ==> ys[k] == xs[k];
    assert ys[|xs|] == iv;
    var ks :| 0 <= ks < |xs| && xs[ks].name == n && xs[ks].chrom == e.chrom && xs[ks].start == e.start;
    var ke :| 0 <= ke < |xs| && xs[ke].name == n && xs[ke].chrom == e.chrom && xs[ke].end == e.end;
    assert ys[ks] == xs[ks] && ys[ke] == xs[ke];
  }

  lemma AbsorbRepeat(xs: seq<Interval>, t: Table, iv: Interval)
    requires KeysInv(xs, t) && iv.name in t.entries && EntryInv(xs, t.entries[iv.name], iv.name)
    ensures EntryInv(xs + [iv], Absorb(t, iv).entries[iv.name], iv.name)
  {
    var n, e := iv.name, t.entries[iv.name];
    var e' := Absorb(t, iv).entries[n];
    CountSnoc(xs, iv, n);
    if iv.chrom == e.chrom {
      assert e' == e.(start := Min(e.start, iv.start), end := Max(e.end, iv.end), count := e.count + 1);
      AbsorbRepeatExtent(xs, e, iv);
    } else {
      assert e' == e.(invalid := true, count := e.count + 1);
      AbsorbRepeatFlag(xs, e, iv);
      AbsorbRepeatKeepsExtent(xs, e, iv);
    }
    AbsorbRepeatFirst(xs, e, iv, e');
  }

  lemma CountSnoc(xs: seq<Interval>, iv: Interval, n: string)
    ensures Count(xs + [iv], n) == Count(xs, n) + if iv.name == n then 1 else 0
  {
    assert (xs + [iv])[..|xs|] == xs;
  }

  lemma AbsorbOther(xs: seq<Interval>, t: Table, iv: Interval, n: string)
    requires n in t.entries && n != iv.name && EntryInv(xs, t.entries[n], n)
    ensures EntryInv(xs + [iv], Absorb(t, iv).entries[n], n)
  {
    var e := t.entries[n];
    assert Absorb(t, iv).entries[n] == e;
    OtherFirstChrom(xs, e, iv, n);
    OtherFlag(xs, e, iv, n);
    OtherExtent(xs, e, iv, n);
    CountSnoc(xs, iv, n);
  }

  lemma OtherFirstChrom(xs: seq<Interval>, e: Entry, iv: Interval, n: string)
    requires n != iv.name && FirstChrom(xs, e, n)
    ensures FirstChrom(xs + [iv], e, n)
  {
    var ys := xs + [iv];
    forall k | 0 <= k < |ys| && ys[k].name == n && (forall l :: 0 <= l < k ==> ys[l].name != n)
      ensures ys[k].chrom == e.chrom
    {
      assert k < |xs| && ys[k] == xs[k];
      forall l | 0 <= l < k
        ensures xs[l].name != n
      {
        assert ys[l] == xs[l];
      }
    }
  }

  lemma OtherFlag(xs: seq<Interval>, e: Entry, iv: Interval, n: string)
    requires n != iv.name && FlagExact(xs, e, n)
    ensures FlagExact(xs + [iv], e, n)
  {
    var ys := xs + [iv];
    if e.invalid {
      var k :| 0 <= k < |xs| && xs[k].name == n && xs[k].chrom != e.chrom;
      assert ys[k] == xs[k];
    }
    if exists k :: 0 <= k < |ys| && ys[k].name == n && ys[k].chrom != e.chrom {
      var k :| 0 <= k < |ys| && ys[k].name == n && ys[k].chrom != e.chrom;
      assert k < |xs| && xs[k] == ys[k];
    }
  }

  lemma OtherExtent(xs: seq<Interval>, e: Entry, iv: Interval, n: string)
    requires n != iv.name && ExtentExact(xs, e, n)
    ensures ExtentExact(xs + [iv], e, n)
  {
    var ys := xs + [iv];
    forall k | 0 <= k < |ys| && ys[k].name == n && ys[k].chrom == e.chrom
      ensures e.start <= ys[k].start && ys[k].end <= e.end
    {
      assert k < |xs| && ys[k] == xs[k];
    }
    var ks :| 0 <= ks < |xs| && xs[ks].name == n && xs[ks].chrom == e.chrom && xs[ks].start == e.start;
    var ke :| 0 <= ke < |xs| && xs[ke].name == n && xs[ke].chrom == e.chrom && xs[ke].end == e.end;
    assert ys[ks] == xs[ks] && ys[ke] == xs[ke];
  }

  /** The fold keeps the table invariant: what it holds is described by the input alone. */
  lemma {:induction false} FoldInv(xs: seq<Interval>)
    ensures TableInv(xs, Fold(xs))
    decreases |xs|
  {
    if xs != [] {
      var init, iv := xs[..|xs| - 1], xs[|xs| - 1];
      assert init + [iv] == xs;
      FoldInv(init);
      var t := Fold(init);
      AbsorbKeys(init, t, iv);
      AbsorbOrder(init, t, iv);
      forall n | n in Absorb(t, iv).entries
        ensures EntryInv(xs, Absorb(t, iv).entries[n], n)
      {
        if n != iv.name {
          AbsorbOther(init, t, iv, n);
        } else if n in t.entries {
          AbsorbRepeat(init, t, iv);
        } else {
          AbsorbFresh(init, t, iv);
        }
      }
    }
  }

  // ---------------------------------------------------------------------
  // What find_unions promises, stated on its result.
  // ---------------------------------------------------------------------

  /** Each name is emitted at most once. */
  lemma UnionNamesDistinct(intervals1: seq<Interval>, intervals2: seq<Interval>)
    ensures var out := Union(intervals1, intervals2);
            forall p, q :: 0 <= p < q < |out| ==> out[p].name != out[q].name
  {
    var t, out := Fold(intervals1 + intervals2), Union(intervals1, intervals2);
    FoldInv(intervals1 + intervals2);
    forall p, q | 0 <= p < q < |out|
      ensures out[p].name != out[q].name
    {
      EmitOrder(t.order, t.entries, p, q);
    }
  }

  /**
   * Records appear in the order in which their names first occur in
   * intervals1 + intervals2: every interval named like a later record is
   * preceded by an interval named like an earlier one.
   */
  lemma UnionOrder(intervals1: seq<Interval>, intervals2: seq<Interval>)
    ensures var out := Union(intervals1, intervals2);
            forall p, q :: 0 <= p < q < |out| ==> Precedes(intervals1 + intervals2, out[p].name, out[q].name)
  {
    var t, out := Fold(intervals1 + intervals2), Union(intervals1, intervals2);
    FoldInv(intervals1 + intervals2);
    forall p, q | 0 <= p < q < |out|
      ensures Precedes(intervals1 + intervals2, out[p].name, out[q].name)
    {
      EmitOrder(t.order, t.entries, p, q);
    }
  }

  /**
   * A name is emitted exactly when it occurs in intervals1 + intervals2 and
   * all the intervals carrying it lie on one chromosome.
   */
  lemma UnionEmitsIff(intervals1: seq<Interval>, intervals2: seq<Interval>, n: string)
    ensures var out := Union(intervals1, intervals2);
            (exists p :: 0 <= p < |out| && out[p].name == n) <==>
            Occurs(intervals1 + intervals2, n) && SameChrom(intervals1 + intervals2, n)
  {
    var xs := intervals1 + intervals2;
    var t, out := Fold(xs), Union(intervals1, intervals2);
    FoldInv(xs);
    if p :| 0 <= p < |out| && out[p].name == n {
      var e := t.entries[n];
      forall k, l | 0 <= k < |xs| && 0 <= l < |xs| && xs[k].name == n && xs[l].name == n
        ensures xs[k].chrom == xs[l].chrom
      {
        assert xs[k].chrom == e.chrom && xs[l].chrom == e.chrom;
      }
    }
    if Occurs(xs, n) && SameChrom(xs, n) {
      var e := t.entries[n];
      var ks :| 0 <= ks < |xs| && xs[ks].name == n && xs[ks].chrom == e.chrom && xs[ks].start == e.start;
      assert !e.invalid;
      var k :| 0 <= k < |t.order| && t.order[k] == n;
      EmitComplete(t.order, t.entries, k);
    }
  }

  /**
   * An emitted record lies on the chromosome of every interval carrying its
   * name and spans from the smallest of their starts to the largest of
   * their ends.
   */
  lemma UnionRecord(intervals1: seq<Interval>, intervals2: seq<Interval>, p: nat)
    requires p < |Union(intervals1, intervals2)|
    ensures var xs, r := intervals1 + intervals2, Union(intervals1, intervals2)[p];
            && (forall k :: 0 <= k < |xs| && xs[k].name == r.name ==>
                  xs[k].chrom == r.chrom && r.start <= xs[k].start && xs[k].end <= r.end)
            && (exists k :: 0 <= k < |xs| && xs[k].name == r.name && xs[k].start == r.start)
            && (exists k :: 0 <= k < |xs| && xs[k].name == r.name && xs[k].end == r.end)
  {
    var xs := intervals1 + intervals2;
    FoldInv(xs);
  }

  /**
   * Once a name has met a second chromosome it is never emitted, whatever
   * intervals follow.
   */
  lemma ConflictIsFinal(intervals1: seq<Interval>, intervals2: seq<Interval>, n: string)
    requires !SameChrom(intervals1, n)
    ensures forall p :: 0 <= p < |Union(intervals1, intervals2)| ==> Union(intervals1, intervals2)[p].name != n
  {
    var xs := intervals1 + intervals2;
    var k, l :| 0 <= k < |intervals1| && 0 <= l < |intervals1| && intervals1[k].name == n &&
                intervals1[l].name == n && intervals1[k].chrom != intervals1[l].chrom;
    assert xs[k] == intervals1[k] && xs[l] == intervals1[l];
    UnionEmitsIff(intervals1, intervals2, n);
  }

  /** Emitting ignores the entries of names outside the key order. */
  lemma {:induction false} EmitIgnoresOthers(order: seq<string>, entries: map<string, Entry>, n: string, e: Entry)
    requires forall m :: m in order ==> m in entries
    requires n !in order
    ensures Emit(order, entries[n := e]) == Emit(order, entries)
    decreases |order|
  {
    if order != [] {
      EmitIgnoresOthers(order[..|order| - 1], entries, n, e);
    }
  }

  lemma {:induction false} FoldOccurs(xs: seq<Interval>, n: string)
    requires n in Fold(xs).entries
    ensures exists k :: 0 <= k < |xs| && xs[k].name == n
    decreases |xs|
  {
    var init := xs[..|xs| - 1];
    if n != xs[|xs| - 1].name {
      FoldOccurs(init, n);
      var k :| 0 <= k < |init| && init[k].name == n;
      assert xs[k] == init[k];
    }
  }

  lemma FoldSnoc(xs: seq<Interval>, iv: Interval)
    ensures Fold(xs + [iv]) == Absorb(Fold(xs), iv)
  {
    assert (xs + [iv])[..|xs|] == xs;
  }

  lemma EmitSnoc(order: seq<string>, entries: map<string, Entry>, n: string)
    requires forall m :: m in order ==> m in entries
    requires n in entries
    ensures Emit(order + [n], entries) ==
            Emit(order, entries) + if entries[n].invalid then [] else [Record(n, entries[n])]
  {
    assert (order + [n])[..|order|] == order;
  }

  lemma {:induction false} EmitFoldDistinct(xs: seq<Interval>)
    requires forall i, j :: 0 <= i < j < |xs| ==> xs[i].name != xs[j].name
    ensures forall n :: n in Fold(xs).order ==> n in Fold(xs).entries
    ensures Emit(Fold(xs).order, Fold(xs).entries) == xs
    decreases |xs|
  {
    if xs != [] {
      var init, iv := xs[..|xs| - 1], xs[|xs| - 1];
      assert forall i :: 0 <= i < |init| ==> init[i] == xs[i];
      EmitFoldDistinct(init);
      var t := Fold(init);
      assert iv.name !in t.entries by {
        if iv.name in t.entries {
          FoldOccurs(init, iv.name);
        }
      }
      var e := Entry(iv.chrom, iv.start, iv.end, 1, false);
      var m := t.entries[iv.name := e];
      assert Fold(xs) == Table(t.order + [iv.name], m);
      EmitSnoc(t.order, m, iv.name);
      EmitIgnoresOthers(t.order, t.entries, iv.name, e);
      assert Record(iv.name, e) == iv;
      assert m[iv.name] == e;
      assert Emit(t.order + [iv.name], m) == init + [iv];
      SplitLast(xs);
    }
  }

  /**
   * A list whose names are all distinct, merged with an empty list, comes
   * back unchanged, in the same order.
   */
  lemma UnionDistinctWithEmpty(intervals: seq<Interval>)
    requires forall i, j :: 0 <= i < j < |intervals| ==> intervals[i].name != intervals[j].name
    ensures Union(intervals, []) == intervals
  {
    assert intervals + [] == intervals;
    EmitFoldDistinct(intervals);
  }
}
