# BED4 interval intersection and union, modelled in Dafny

This project models the core of a small command-line tool. The tool combines two
lists of BED4 intervals, where each interval is a tuple `(chrom, start, end, name)` on
half-open coordinates `[start, end)`. The model covers four pieces:

- **Overlap matcher** (`find_intersections`, module `OverlapMatcher`). It compares every
  interval of the first list with every interval of the second. Each overlapping pair
  yields `(chrom1, max(s1,s2), min(e1,e2), name1)`. Results come in first-list order, and
  within one first-list interval in second-list order. The extra guard `istart < iend` is
  kept. `FindIntersections` is the nested loop. It is proved equal to the specification
  function `Intersect`, and the lemmas state what `Intersect` promises.
- **Name-keyed merger** (`find_unions`, module `NameMerger`). It folds `intervals1 +
  intervals2` left to right into an insertion-ordered dictionary keyed by name. The
  dictionary is modelled as `Table`, which holds the key order and a `map` of `Entry`
  values. A new name creates an entry. A repeat name on the entry's chromosome widens the
  entry to the smallest start and the largest end. A repeat name on another chromosome
  sets the one-way `invalid` flag. Invalid entries are left out of the output. The method
  `FindUnions` has the two loops of the source. It is proved equal to `Union`, which is
  `Emit(Fold(...))`. `FoldInv` describes the dictionary only in terms of the input list.
  The `Union*` lemmas then state the result's properties without mentioning the
  dictionary: one record per name, first-occurrence order, when a name is emitted, and
  what its record is.
- **Line parser** (the loop body of `read_bed_file`, module `BedFormat`). `ParseLine`
  strips the line with Python's whitespace set. It ignores blank and `#` lines. It splits
  on whitespace and requires three fields. It parses both coordinates, swaps them when
  `start > end`, and defaults the name to `"."`. `ReadIntervals` is the collecting loop,
  applied to the lines of an already opened file.
- **Record formatter** (the line written by `write_bed_file`). `FormatRecord` builds
  `chrom\tstart\tend\tname\n`. `LineRoundTrip` and `FileRoundTrip` show that the parser
  reads back every record that can be written without loss.

`Scenarios` holds worked examples: widening, a dropped conflict, `union([], [x])`, and a
two-file end-to-end scenario.

Two behaviours of `find_unions` are worth stating:

- After an entry is flagged invalid, a later interval on its original chromosome still
  widens it. Lines 72-76 do not look at the flag. The output cannot show this, because an
  invalid entry is never emitted.
- The union output follows the dictionary's insertion order, which is the order in which
  each name first occurs in `intervals1 + intervals2`.

## Model

| member | source | states |
|---|---|---|
| OverlapMatcher.PairOverlap | mycode.py:55-59 | a pair's record carries the first interval's chromosome and name, is non-empty, and covers exactly the positions covered by both intervals |
| OverlapMatcher.PairOverlapIffShared | mycode.py:55-58 | a pair yields a record iff the chromosomes are equal and the intervals share a position, i.e. iff s1 < e2, s2 < e1 and max(s1,s2) < min(e1,e2); the record is (chrom1, max, min, name1) |
| OverlapMatcher.TouchingDoNotOverlap | mycode.py:55 | [0,10) and [10,20) on one chromosome give no record |
| OverlapMatcher.EmptyIntervalPassesFirstTest | mycode.py:55-58 | an empty interval [5,5) inside [0,10) passes the test of line 55 but the guard of line 58 rejects it |
| OverlapMatcher.FindIntersections | mycode.py:50-60 | the nested loop returns exactly `Intersect` of its inputs |
| OverlapMatcher.AppendMatches | mycode.py:54-59 | the inner loop appends exactly `Matches` of one first-list interval to the records so far |
| OverlapMatcher.Matches | mycode.py:54-59 | defines the records of one first-list interval: the record of each second-list interval it overlaps, in second-list order; its properties are MatchesAppend and MatchesMembership |
| OverlapMatcher.Intersect | mycode.py:52-59 | defines the whole result: the matches of each first-list interval, in first-list order; its properties are the Intersect lemmas below |
| OverlapMatcher.IntersectAppend | mycode.py:52-54 | records of a split first list are those of each part in turn, so output follows first-list order and is not deduplicated |
| OverlapMatcher.MatchesAppend | mycode.py:54-59 | within one first-list interval, records follow second-list order |
| OverlapMatcher.IntersectSingle | mycode.py:55-59 | one interval against one interval yields exactly that pair's record, if any |
| OverlapMatcher.IntersectEmpty | mycode.py:52-60 | an empty list on either side gives an empty result |
| OverlapMatcher.MatchesMembership | mycode.py:54-59 | a record is among one interval's matches iff it is its record with some second-list interval |
| OverlapMatcher.IntersectMembership | mycode.py:53-59 | a record is in the result iff it is the record of some pair (a from the first list, b from the second) |
| OverlapMatcher.IntersectSound | mycode.py:53-59 | every record in the result is the record of some pair |
| OverlapMatcher.IntersectComplete | mycode.py:53-59 | the record of every overlapping pair is in the result |
| OverlapMatcher.IntersectRecords | mycode.py:55-59 | every record is non-empty, lies inside both intervals of a same-chromosome pair, and carries the first-list interval's name |
| OverlapMatcher.IntersectLength | mycode.py:52-59 | the result has at most \|A\|·\|B\| records |
| NameMerger.Absorb | mycode.py:67-77 | one loop step: the name gains an entry; existing entries keep their chromosome and an invalid flag stays set; other entries are unchanged; a new name is appended to the key order |
| NameMerger.Emit | mycode.py:80-83 | every emitted record belongs to a key in the order whose entry is valid and is that entry's (chrom, start, end, name) |
| NameMerger.EmitComplete | mycode.py:80-83 | every key with a valid entry is emitted |
| NameMerger.EmitOrder | mycode.py:80-83 | emitted records keep the relative order of their keys |
| NameMerger.FoldKeys | mycode.py:67-68 | every key in the insertion order has a dictionary entry |
| NameMerger.FindUnions | mycode.py:63-84 | returns exactly `Union` of the inputs |
| NameMerger.BuildTable | mycode.py:65-77 | the dictionary loop leaves exactly the table `Fold` of the concatenated intervals |
| NameMerger.AbsorbStep | mycode.py:67-77 | the loop body changes the dictionary and its key order exactly as `Absorb` does |
| NameMerger.Fold | mycode.py:65-77 | defines the dictionary after the loop: `Absorb` applied to each interval of `intervals1 + intervals2` in turn, from an empty one; FoldKeys and FoldInv state what it holds |
| NameMerger.Record | mycode.py:83 | defines the output tuple of a valid entry: its chromosome, start and end, with the key as name |
| NameMerger.Union | mycode.py:63-84 | defines the result: the valid entries of the folded dictionary, in key order; the Union lemmas state its properties in terms of the input alone |
| NameMerger.EmitValid | mycode.py:78-84 | the output loop returns exactly `Emit` of the key order and the dictionary |
| NameMerger.FoldInv | mycode.py:65-77 | after the fold: keys are the names seen, each once, ordered by first occurrence; an entry has its first interval's chromosome, is invalid iff some interval of its name lies elsewhere, spans the min start and max end of its name's intervals on that chromosome, and counts its name's intervals |
| NameMerger.UnionNamesDistinct | mycode.py:65-68 | each name is emitted at most once |
| NameMerger.UnionOrder | mycode.py:66-68 | records appear in the order their names first occur in intervals1 + intervals2 |
| NameMerger.UnionEmitsIff | mycode.py:66-82 | a name is emitted iff it occurs in the input and all intervals carrying it lie on one chromosome |
| NameMerger.UnionRecord | mycode.py:72-83 | an emitted record lies on the chromosome of every interval of its name and spans the min of their starts to the max of their ends, both attained |
| NameMerger.ConflictIsFinal | mycode.py:72-73 | a name that met two chromosomes in the first list is never emitted, whatever the second list holds |
| NameMerger.EmitFoldDistinct | mycode.py:66-83 | folding and emitting a list of distinct names gives the list back |
| NameMerger.UnionDistinctWithEmpty | mycode.py:63-84 | a list with distinct names merged with an empty list comes back unchanged and in order |
| Scenarios.UnionWidens | mycode.py:74-76 | (chr1,5,10,geneA) and (chr1,8,15,geneA) merge to (chr1,5,15,geneA) |
| Scenarios.UnionDropsConflict | mycode.py:72-73 | (chr1,5,10,geneA) and (chr2,1,3,geneA) give no record |
| Scenarios.EndToEnd | mycode.py:50-84 | geneA [10,20) and geneB [15,25) on chr1 give two union records and the intersection (chr1,15,20,geneA) |
| Scenarios.UnionOfEmptyAndOne | mycode.py:66-68 | union([], [(chr1,1,2,x)]) is [(chr1,1,2,x)] |
| BedFormat.TrimLeft | mycode.py:26 | drops exactly the leading whitespace |
| BedFormat.TrimRight | mycode.py:26 | drops exactly the trailing whitespace |
| BedFormat.IsSpace | mycode.py:26-29 | defines the whitespace of str.strip() and str.split(): the characters str.isspace() accepts |
| BedFormat.Strip | mycode.py:26 | defines str.strip() as TrimRight after TrimLeft; ParseLineIgnored and FieldsOfStrip state what it means for a line |
| BedFormat.Word | mycode.py:29 | the longest whitespace-free prefix |
| BedFormat.Fields | mycode.py:29 | the fields are non-empty and free of whitespace |
| BedFormat.FieldsOfStrip | mycode.py:26-29 | splitting a stripped line gives the same fields as splitting the raw line |
| BedFormat.FieldsCons | mycode.py:29 | a whitespace-free word followed by a separator splits off as the first field |
| BedFormat.ParseInt | mycode.py:36-37 | a field parses iff it is an optional sign followed by one or more decimal digits |
| BedFormat.IntRoundTrip | mycode.py:36-37 | parsing the decimal text of any integer gives that integer back |
| BedFormat.IntToString | mycode.py:91 | the decimal text of an integer written into a record line is non-empty and free of whitespace |
| BedFormat.FromFields | mycode.py:31-45 | fewer than 3 fields are rejected, a non-integer field 2 or 3 is rejected, otherwise the interval is (f0, min, max, f3 or ".") |
| BedFormat.ParseLine | mycode.py:26-46 | every interval read has start <= end and non-empty, whitespace-free chromosome and name |
| BedFormat.ParseLineIgnored | mycode.py:26-28 | a line is ignored iff it is all whitespace or its first non-whitespace character is '#' |
| BedFormat.ParseLineFields | mycode.py:29-45 | a line that is not ignored is judged by the whitespace-separated fields of the raw line |
| BedFormat.FromFieldsSolid | mycode.py:29-46 | an interval made from split fields has non-empty, whitespace-free chromosome and name and start <= end |
| BedFormat.Contribution | mycode.py:46 | defines what one line adds to the list: its interval when it parsed, nothing otherwise |
| BedFormat.Collect | mycode.py:25-46 | defines the list built from a file's lines: each line's contribution, in line order |
| BedFormat.ParseAll | mycode.py:22-47 | the reader returns at most one interval per line, each with start <= end |
| BedFormat.ReadIntervals | mycode.py:22-47 | the reading loop returns exactly `ParseAll` of the lines |
| BedFormat.ParseAllAppend | mycode.py:25-46 | intervals keep file-line order: reading two blocks of lines in turn gives the results of each block in turn |
| BedFormat.FormatRecord | mycode.py:91 | defines the written line: chromosome, start, end and name joined by tabs, then a line break; RecordColumns and LineRoundTrip state what it means |
| BedFormat.RecordColumns | mycode.py:91 | the line written for a writable record splits on whitespace into exactly its four columns |
| BedFormat.WriteLines | mycode.py:87-91 | one formatted line per interval, in order; for writable records, reading the lines back gives the intervals |
| BedFormat.LineRoundTrip | mycode.py:29-46 | a record with start <= end and a non-empty, whitespace-free chromosome (not starting with '#') and name reads back unchanged from its formatted line |
| BedFormat.FileRoundTrip | mycode.py:91 | reading the formatted lines of such records gives back the records in order |

## Left out

- Checking that an input file exists and exiting when it does not (mycode.py:20-21) is not modelled. This is file-system I/O.
- Opening and reading a file (mycode.py:24) is not modelled. `ReadIntervals` takes the file's lines as given. Python's universal-newline splitting is not modelled.
- Opening and writing the output file (mycode.py:89) is not modelled. `WriteLines` returns the lines that would be written.
- The warnings printed to standard error (mycode.py:32, 39) are not modelled as text. A skipped line is the outcome `TooFewFields` or `NonInteger`, which carries no message.
- `main` (mycode.py:94-118) is not modelled. It is command-line glue: argparse dispatch and the summary `print`.
- BedFormat.ParseInt: accepts only an optional sign followed by ASCII decimal digits. Python's `int()` also accepts underscores between digits and non-ASCII decimal digits, and this model rejects them. It also has no limit on the number of digits. Since CPython 3.11 (and the 3.10.7, 3.9.14 and 3.8.14 releases), `int()` raises `ValueError` on a decimal string of more than 4300 digits. mycode.py:38-40 then skips the line, but `FromFields` and `ParseLine` return `Parsed` for it. The limit depends on the interpreter version and its settings, so it is not modelled.
- BedFormat.IsSpace: uses the character set of Python's `str.isspace()`. A change to that set in a future Python version is not tracked.

## Findings

None.
