/**
 * The text side of mycode.py: the per-line body of read_bed_file
 * (mycode.py:25-46), the loop that collects the intervals of a file's lines
 * (mycode.py:22-47), and the record line written by write_bed_file
 * (mycode.py:90-91).  A file is given as the sequence of its lines; opening,
 * reading and writing files are not modelled.
 */
module BedFormat {
  import opened Intervals

  // ---------------------------------------------------------------------
  // Python's whitespace, str.strip() and str.split()
  // ---------------------------------------------------------------------

  /**
   * The characters Python's str.isspace() accepts; str.strip() and
   * str.split() with no argument treat exactly these as whitespace.
   */
  predicate IsSpace(c: char) {
    || c == ' ' || '\t' <= c <= '\r' || '\U{1C}' <= c <= '\U{1F}'
    || c == '\U{85}' || c == '\U{A0}' || c == '\U{1680}' || '\U{2000}' <= c <= '\U{200A}'
    || c == '\U{2028}' || c == '\U{2029}' || c == '\U{202F}' || c == '\U{205F}' || c == '\U{3000}'
  }

  /** No character of `s` is whitespace. */
  predicate Solid(s: string) {
    forall i :: 0 <= i < |s| ==> !IsSpace(s[i])
  }

  /** `s` without its leading whitespace. */
  function TrimLeft(s: string): (r: string)
    ensures |r| <= |s| && r == s[|s| - |r|..]
    ensures forall i :: 0 <= i < |s| - |r| ==> IsSpace(s[i])
    ensures r != [] ==> !IsSpace(r[0])
  {
    if s != [] && IsSpace(s[0]) then TrimLeft(s[1..]) else s
  }

  /** `s` without its trailing whitespace. */
  function TrimRight(s: string): (r: string)
    ensures |r| <= |s| && r == s[..|r|]
    ensures forall i :: |r| <= i < |s| ==> IsSpace(s[i])
    ensures r != [] ==> !IsSpace(r[|r| - 1])
  {
    if s != [] && IsSpace(s[|s| - 1]) then TrimRight(s[..|s| - 1]) else s
  }

  /** str.strip(): both ends trimmed (mycode.py:26). */
  function Strip(s: string): string {
    TrimRight(TrimLeft(s))
  }

  /** The longest prefix of `s` free of whitespace. */
  function Word(s: string): (w: string)
    ensures |w| <= |s| && w == s[..|w|] && Solid(w)
    ensures |w| < |s| ==> IsSpace(s[|w|])
  {
    if s == [] || IsSpace(s[0]) then [] else [s[0]] + Word(s[1..])
  }

  /**
   * str.split() with no argument (mycode.py:29): the maximal runs of
   * non-whitespace characters, in order.
   */
  function Fields(s: string): (r: seq<string>)
    ensures forall i :: 0 <= i < |r| ==> r[i] != [] && Solid(r[i])
    decreases |s|
  {
    if s == [] then []
    else if IsSpace(s[0]) then Fields(s[1..])
    else
      var w := Word(s);
      [w] + Fields(s[|w|..])
  }

  lemma {:induction false} WordSnocSpace(t: string, c: char)
    requires IsSpace(c)
    ensures Word(t + [c]) == Word(t)
    decreases |t|
  {
    if t != [] && !IsSpace(t[0]) {
      assert (t + [c])[1..] == t[1..] + [c];
      WordSnocSpace(t[1..], c);
    }
  }

  lemma {:induction false} FieldsSnocSpace(t: string, c: char)
    requires IsSpace(c)
    ensures Fields(t + [c]) == Fields(t)
    decreases |t|
  {
    if t == [] {
      assert Fields([c]) == Fields([c][1..]);
      assert [c][1..] == [];
    } else if IsSpace(t[0]) {
      assert (t + [c])[1..] == t[1..] + [c];
      FieldsSnocSpace(t[1..], c);
    } else {
      var w := Word(t);
      WordSnocSpace(t, c);
      assert (t + [c])[|w|..] == t[|w|..] + [c];
      FieldsSnocSpace(t[|w|..], c);
    }
  }

  /** Splitting ignores leading and trailing whitespace: str.split() of a line equals that of its str.strip(). */
  lemma {:induction false} FieldsOfStrip(s: string)
    ensures Fields(Strip(s)) == Fields(s)
  {
    FieldsTrimLeft(s);
    FieldsTrimRight(TrimLeft(s));
  }

  lemma {:induction false} FieldsTrimLeft(s: string)
    ensures Fields(TrimLeft(s)) == Fields(s)
    decreases |s|
  {
    if s != [] && IsSpace(s[0]) {
      FieldsTrimLeft(s[1..]);
    }
  }

  lemma {:induction false} FieldsTrimRight(s: string)
    ensures Fields(TrimRight(s)) == Fields(s)
    decreases |s|
  {
    if s != [] && IsSpace(s[|s| - 1]) {
      var init := s[..|s| - 1];
      FieldsTrimRight(init);
      FieldsSnocSpace(init, s[|s| - 1]);
      SplitLast(s);
    }
  }

  // ---------------------------------------------------------------------
  // Integers: int() on a field, str() of an int
  // ---------------------------------------------------------------------

  predicate IsDigit(c: char) {
    '0' <= c <= '9'
  }

  function DigitValue(c: char): (d: nat)
    requires IsDigit(c)
    ensures d < 10
  {
    (c as int) - ('0' as int)
  }

  function DigitChar(d: nat): (c: char)
    requires d < 10
    ensures IsDigit(c) && DigitValue(c) == d
  {
    (('0' as int) + d) as char
  }

  predicate AllDigits(s: string) {
    forall i :: 0 <= i < |s| ==> IsDigit(s[i])
  }

  /** The value of a string of decimal digits, most significant first. */
  function DigitsValue(s: string): nat
    requires AllDigits(s)
  {
    if s == [] then 0 else DigitsValue(s[..|s| - 1]) * 10 + DigitValue(s[|s| - 1])
  }

  /** An unsigned decimal numeral: one or more digits. */
  function ParseNat(s: string): (r: Option<nat>)
    ensures r.Some? <==> s != [] && AllDigits(s)
  {
    if s != [] && AllDigits(s) then Some(DigitsValue(s)) else None
  }

  /**
   * int() applied to a field (mycode.py:36-37): an optional sign followed
   * by one or more decimal digits; anything else raises ValueError, here
   * None.
   */
  function ParseInt(s: string): (r: Option<int>)
    ensures r.Some? <==> (s != [] && AllDigits(s)) ||
                         (|s| > 1 && (s[0] == '-' || s[0] == '+') && AllDigits(s[1..]))
  {
    if s != [] && (s[0] == '-' || s[0] == '+') then
      match ParseNat(s[1..])
      case None => None
      case Some(v) => Some(if s[0] == '-' then -(v as int) else v as int)
    else
      match ParseNat(s)
      case None => None
      case Some(v) => Some(v as int)
  }

  /** The decimal numeral of a natural number, as str() prints it. */
  function NatToString(n: nat): (s: string)
    ensures s != [] && AllDigits(s)
  {
    if n < 10 then [DigitChar(n)] else NatToString(n / 10) + [DigitChar(n % 10)]
  }

  /** str() of an integer, as the f-string of mycode.py:91 prints it. */
  function IntToString(n: int): (s: string)
    ensures s != [] && Solid(s)
  {
    if n < 0 then "-" + NatToString(-n) else NatToString(n)
  }

  lemma {:induction false} NatRoundTrip(n: nat)
    ensures DigitsValue(NatToString(n)) == n
  {
    if n >= 10 {
      var s := NatToString(n);
      assert s[..|s| - 1] == NatToString(n / 10);
      NatRoundTrip(n / 10);
    }
  }

  /** int(str(n)) == n. */
  lemma IntRoundTrip(n: int)
    ensures ParseInt(IntToString(n)) == Some(n)
  {
    var s := IntToString(n);
    if n < 0 {
      var digits := NatToString(-n);
      assert s[0] == '-' && s[1..] == digits;
      NatRoundTrip(-n);
      assert ParseNat(digits) == Some(-n);
    } else {
      NatRoundTrip(n);
      assert IsDigit(s[0]);
      assert ParseNat(s) == Some(n);
    }
  }

  // ---------------------------------------------------------------------
  // One line of a BED4 file
  // ---------------------------------------------------------------------

  /**
   * What the body of the loop of mycode.py:25-46 makes of one line:
   * nothing for a blank or comment line, a warning for too few fields or a
   * non-integer coordinate, otherwise an interval.
   */
  datatype LineOutcome = Ignored | TooFewFields | NonInteger | Parsed(iv: Interval)

  /**
   * What mycode.py:31-46 makes of the fields of a line that is neither
   * blank nor a comment: a warning for fewer than three fields or a second
   * or third field that is not an integer; otherwise the interval from the
   * smaller to the larger of the two coordinates, named by the fourth field
   * or ".", with any further fields ignored.
   */
  function FromFields(parts: seq<string>): (r: LineOutcome)
    ensures r == TooFewFields <==> |parts| < 3
    ensures r == NonInteger <==> |parts| >= 3 && (ParseInt(parts[1]).None? || ParseInt(parts[2]).None?)
    ensures r.Parsed? ==>
              && |parts| >= 3 && ParseInt(parts[1]).Some? && ParseInt(parts[2]).Some?
              && var a, b := ParseInt(parts[1]).value, ParseInt(parts[2]).value;
                 r.iv == Interval(parts[0], Min(a, b), Max(a, b), if |parts| > 3 then parts[3] else ".")
    ensures r != Ignored
  {
    if |parts| < 3 then TooFewFields
    else
      match (ParseInt(parts[1]), ParseInt(parts[2]))
      case (Some(start), Some(end)) =>
        var (lo, hi) := if start > end then (end, start) else (start, end);
        Parsed(Interval(parts[0], lo, hi, if |parts| > 3 then parts[3] else "."))
      case _ => NonInteger
  }

  /**
   * The per-line body of read_bed_file (mycode.py:26-46).  An interval it
   * produces always has start <= end and non-empty whitespace-free
   * chromosome and name fields.
   */
  function ParseLine(line: string): (r: LineOutcome)
    ensures r.Parsed? ==> WellFormed(r.iv)
    ensures r.Parsed? ==> r.iv.chrom != [] && Solid(r.iv.chrom) && r.iv.name != [] && Solid(r.iv.name)
  {
    var s := Strip(line);
    if s == [] || s[0] == '#' then Ignored
    else
      FromFieldsSolid(Fields(s));
      FromFields(Fields(s))
  }

  /** Fields of a split line are non-empty and whitespace-free, so the chromosome and name read from them are. */
  lemma FromFieldsSolid(parts: seq<string>)
    requires forall i :: 0 <= i < |parts| ==> parts[i] != [] && Solid(parts[i])
    ensures var r := FromFields(parts);
            r.Parsed? ==> WellFormed(r.iv) && r.iv.chrom != [] && Solid(r.iv.chrom) && r.iv.name != [] && Solid(r.iv.name)
  {
    assert !IsSpace('.');
  }

  /**
   * A line is ignored exactly when it is all whitespace or its first
   * non-whitespace character is '#'.
   */
  lemma ParseLineIgnored(line: string)
    ensures ParseLine(line) == Ignored <==>
              (forall i :: 0 <= i < |line| ==> IsSpace(line[i])) ||
              exists i :: 0 <= i < |line| && line[i] == '#' && forall j :: 0 <= j < i ==> IsSpace(line[j])
  {
    var l := TrimLeft(line);
    if l != [] {
      // TrimRight keeps a non-whitespace first character
      assert Strip(line) != [] && Strip(line)[0] == l[0] == line[|line| - |l|];
      if l[0] == '#' {
        CommentAtStart(line);
      }
    }
    if exists i :: 0 <= i < |line| && line[i] == '#' && forall j :: 0 <= j < i ==> IsSpace(line[j]) {
      var i :| 0 <= i < |line| && line[i] == '#' && forall j :: 0 <= j < i ==> IsSpace(line[j]);
      CommentFound(line, i);
    }
  }

  lemma CommentAtStart(line: string)
    requires TrimLeft(line) != [] && TrimLeft(line)[0] == '#'
    ensures exists i :: 0 <= i < |line| && line[i] == '#' && forall j :: 0 <= j < i ==> IsSpace(line[j])
  {
    var skip := |line| - |TrimLeft(line)|;
    assert line[skip] == '#';
  }

  lemma CommentFound(line: string, i: nat)
    requires i < |line| && line[i] == '#' && forall j :: 0 <= j < i ==> IsSpace(line[j])
    ensures TrimLeft(line) != [] && TrimLeft(line)[0] == '#'
  {
    FirstSolid(line, i);
    assert TrimLeft(line)[0] == line[i];
  }

  /** The first non-whitespace character of a line is where TrimLeft starts. */
  lemma FirstSolid(line: string, i: nat)
    requires i < |line| && !IsSpace(line[i]) && forall j :: 0 <= j < i ==> IsSpace(line[j])
    ensures i == |line| - |TrimLeft(line)|
  {
    var l := TrimLeft(line);
    if l != [] {
      assert line[|line| - |l|] == l[0];
    }
  }

  /** A line that is neither blank nor a comment is judged by its whitespace-separated fields. */
  lemma ParseLineFields(line: string)
    requires ParseLine(line) != Ignored
    ensures ParseLine(line) == FromFields(Fields(line))
  {
    FieldsOfStrip(line);
  }

  // ---------------------------------------------------------------------
  // A whole file: read_bed_file's loop and write_bed_file's lines
  // ---------------------------------------------------------------------

  /** The interval a line contributes to the list, if any (mycode.py:46). */
  function Contribution(o: LineOutcome): seq<Interval> {
    if o.Parsed? then [o.iv] else []
  }

  /** The intervals `parse` makes of `lines`, in line order. */
  function Collect(parse: string -> LineOutcome, lines: seq<string>): seq<Interval>
  {
    if lines == [] then [] else Collect(parse, lines[..|lines| - 1]) + Contribution(parse(lines[|lines| - 1]))
  }

  lemma {:induction false} CollectWellFormed(parse: string -> LineOutcome, lines: seq<string>)
    requires forall l :: parse(l).Parsed? ==> WellFormed(parse(l).iv)
    ensures |Collect(parse, lines)| <= |lines|
    ensures forall k :: 0 <= k < |Collect(parse, lines)| ==> WellFormed(Collect(parse, lines)[k])
    decreases |lines|
  {
    if lines != [] {
      CollectWellFormed(parse, lines[..|lines| - 1]);
    }
  }

  lemma CollectSnoc(parse: string -> LineOutcome, lines: seq<string>, line: string)
    ensures Collect(parse, lines + [line]) == Collect(parse, lines) + Contribution(parse(line))
  {
    assert (lines + [line])[..|lines|] == lines;
  }

  lemma {:induction false} CollectAppend(parse: string -> LineOutcome, lines1: seq<string>, lines2: seq<string>)
    ensures Collect(parse, lines1 + lines2) == Collect(parse, lines1) + Collect(parse, lines2)
    decreases |lines2|
  {
    if lines2 == [] {
      assert lines1 + lines2 == lines1;
    } else {
      var init, last := lines2[..|lines2| - 1], lines2[|lines2| - 1];
      SplitLast(lines2);
      AppendAssoc(lines1, init, [last]);
      CollectSnoc(parse, lines1 + init, last);
      CollectSnoc(parse, init, last);
      CollectAppend(parse, lines1, init);
      AppendAssoc(Collect(parse, lines1), Collect(parse, init), Contribution(parse(last)));
    }
  }

  /**
   * The intervals read_bed_file collects from `lines`, in line order; each
   * has start <= end.
   */
  function ParseAll(lines: seq<string>): (r: seq<Interval>)
    ensures |r| <= |lines|
    ensures forall k :: 0 <= k < |r| ==> WellFormed(r[k])
  {
    CollectWellFormed(ParseLine, lines);
    Collect(ParseLine, lines)
  }

  /** The loop of read_bed_file (mycode.py:22-47), over the lines of an already opened file. */
  method ReadIntervals(lines: seq<string>) returns (intervals: seq<Interval>)
    ensures intervals == ParseAll(lines)
  {
    intervals := [];
    var i := 0;
    while i < |lines|
      invariant 0 <= i <= |lines|
      invariant intervals == Collect(ParseLine, lines[..i])
    {
      var outcome := ParseLine(lines[i]);
      if outcome.Parsed? {
        intervals := intervals + [outcome.iv];
      }
      CollectNext(ParseLine, lines, i);
      i := i + 1;
    }
    assert lines[..i] == lines;
  }

  /** One more line read: its contribution goes at the end. */
  lemma CollectNext(parse: string -> LineOutcome, lines: seq<string>, i: nat)
    requires i < |lines|
    ensures Collect(parse, lines[..i + 1]) == Collect(parse, lines[..i]) + Contribution(parse(lines[i]))
  {
    assert lines[..i + 1][..i] == lines[..i];
  }

  /** Lines keep their order: the intervals of two files read in turn are those of their concatenation. */
  lemma ParseAllAppend(lines1: seq<string>, lines2: seq<string>)
    ensures ParseAll(lines1 + lines2) == ParseAll(lines1) + ParseAll(lines2)
  {
    CollectAppend(ParseLine, lines1, lines2);
  }

  /**
   * The record line of write_bed_file (mycode.py:91): the four columns
   * separated by tabs, then a line break.
   */
  function FormatRecord(iv: Interval): string {
    RecordFields(iv) + ['\n']
  }

  /** A writable record's line splits back into exactly its four columns. */
  lemma RecordColumns(iv: Interval)
    requires Writable(iv)
    ensures Fields(FormatRecord(iv)) == [iv.chrom, IntToString(iv.start), IntToString(iv.end), iv.name]
  {
    FieldsSnocSpace(RecordFields(iv), '\n');
    SplitRecord(iv);
  }

  /** write_bed_file's loop (mycode.py:90-91): one line per interval, in order. */
  method WriteLines(intervals: seq<Interval>) returns (lines: seq<string>)
    ensures |lines| == |intervals|
    ensures forall k :: 0 <= k < |lines| ==> lines[k] == FormatRecord(intervals[k])
    ensures (forall k :: 0 <= k < |intervals| ==> Writable(intervals[k])) ==> ParseAll(lines) == intervals
  {
    lines := [];
    var i := 0;
    while i < |intervals|
      invariant 0 <= i <= |intervals|
      invariant |lines| == i
      invariant forall k :: 0 <= k < i ==> lines[k] == FormatRecord(intervals[k])
    {
      var line := FormatRecord(intervals[i]);
      ghost var before := lines;
      lines := lines + [line];
      assert forall k :: 0 <= k < i ==> lines[k] == before[k];
      assert lines[i] == line;
      i := i + 1;
    }
    if forall k :: 0 <= k < |intervals| ==> Writable(intervals[k]) {
      FileRoundTrip(intervals, lines);
    }
  }

  // ---------------------------------------------------------------------
  // Writing then reading gives back the records
  // ---------------------------------------------------------------------

  /**
   * A record the reader reads back unchanged: start <= end, a non-empty
   * whitespace-free chromosome not starting with '#', and a non-empty
   * whitespace-free name.
   */
  predicate Writable(iv: Interval) {
    && iv.start <= iv.end
    && iv.chrom != [] && Solid(iv.chrom) && iv.chrom[0] != '#'
    && iv.name != [] && Solid(iv.name)
  }

  lemma {:induction false} WordOfSolid(w: string, rest: string)
    requires Solid(w)
    requires rest == [] || IsSpace(rest[0])
    ensures Word(w + rest) == w
    decreases |w|
  {
    if w == [] {
      assert w + rest == rest;
    } else {
      assert (w + rest)[1..] == w[1..] + rest;
      WordOfSolid(w[1..], rest);
    }
  }

  /** Splitting `w` followed by a separator and more text yields `w` first. */
  lemma FieldsCons(w: string, sep: char, rest: string)
    requires w != [] && Solid(w) && IsSpace(sep)
    ensures Fields(w + [sep] + rest) == [w] + Fields(rest)
  {
    var s := w + [sep] + rest;
    WordOfSolid(w, [sep] + rest);
    assert w + ([sep] + rest) == s;
    assert s[|w|..] == [sep] + rest;
    assert ([sep] + rest)[1..] == rest;
  }

  lemma FieldsSingle(w: string)
    requires w != [] && Solid(w)
    ensures Fields(w) == [w]
  {
    WordOfSolid(w, []);
    assert w + [] == w;
  }

  /** The line written for `iv` without its line break. */
  function RecordFields(iv: Interval): string {
    iv.chrom + ['\t'] + (IntToString(iv.start) + ['\t'] + (IntToString(iv.end) + ['\t'] + iv.name))
  }

  lemma TrimLeftSolidStart(s: string)
    requires s != [] && !IsSpace(s[0])
    ensures TrimLeft(s) == s
  {
  }

  lemma TrimRightSnocSpace(w: string, c: char)
    requires w != [] && !IsSpace(w[|w| - 1]) && IsSpace(c)
    ensures TrimRight(w + [c]) == w
  {
    assert (w + [c])[..|w|] == w && (w + [c])[|w|] == c;
  }

  lemma LastOfAppend(a: string, b: string)
    requires b != []
    ensures (a + b)[|a + b| - 1] == b[|b| - 1]
  {
  }

  lemma StripRecord(iv: Interval)
    requires Writable(iv)
    ensures Strip(RecordFields(iv) + ['\n']) == RecordFields(iv)
  {
    var s1, s2 := IntToString(iv.start), IntToString(iv.end);
    var tail2 := s2 + ['\t'] + iv.name;
    var tail1 := s1 + ['\t'] + tail2;
    var body := iv.chrom + ['\t'] + tail1;
    assert body == RecordFields(iv);
    LastOfAppend(s2 + ['\t'], iv.name);
    LastOfAppend(s1 + ['\t'], tail2);
    LastOfAppend(iv.chrom + ['\t'], tail1);
    assert (body + ['\n'])[0] == iv.chrom[0];
    TrimLeftSolidStart(body + ['\n']);
    TrimRightSnocSpace(body, '\n');
  }

  lemma SplitRecord(iv: Interval)
    requires Writable(iv)
    ensures Fields(RecordFields(iv)) == [iv.chrom, IntToString(iv.start), IntToString(iv.end), iv.name]
  {
    var s1, s2 := IntToString(iv.start), IntToString(iv.end);
    FieldsSingle(iv.name);
    FieldsCons(s2, '\t', iv.name);
    FieldsCons(s1, '\t', s2 + ['\t'] + iv.name);
    FieldsCons(iv.chrom, '\t', s1 + ['\t'] + (s2 + ['\t'] + iv.name));
  }

  /** Reading back the line written for a writable record gives that record. */
  lemma LineRoundTrip(iv: Interval)
    requires Writable(iv)
    ensures ParseLine(FormatRecord(iv)) == Parsed(iv)
  {
    var body := RecordFields(iv);
    var parts := [iv.chrom, IntToString(iv.start), IntToString(iv.end), iv.name];
    var line := FormatRecord(iv);
    assert line == body + ['\n'];
    StripRecord(iv);
    assert body[0] == iv.chrom[0];
    calc {
      ParseLine(line);
      FromFields(Fields(body));
      { SplitRecord(iv); }
      FromFields(parts);
      { IntRoundTrip(iv.start); IntRoundTrip(iv.end); }
      Parsed(iv);
    }
  }

  /** Reading the lines written for writable records gives back the records, in order. */
  lemma {:induction false} FileRoundTrip(intervals: seq<Interval>, lines: seq<string>)
    requires forall k :: 0 <= k < |intervals| ==> Writable(intervals[k])
    requires |lines| == |intervals|
    requires forall k :: 0 <= k < |lines| ==> lines[k] == FormatRecord(intervals[k])
    ensures ParseAll(lines) == intervals
    decreases |lines|
  {
    if lines != [] {
      var n := |lines| - 1;
      var init, last := intervals[..n], intervals[n];
      FileRoundTrip(init, lines[..n]);
      LineRoundTrip(last);
      calc {
        ParseAll(lines);
        Collect(ParseLine, lines);
        Collect(ParseLine, lines[..n]) + Contribution(ParseLine(lines[n]));
        ParseAll(lines[..n]) + Contribution(ParseLine(FormatRecord(last)));
        init + [last];
        { SplitLast(intervals); }
        intervals;
      }
    }
  }
}
