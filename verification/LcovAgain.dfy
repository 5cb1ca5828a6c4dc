/** Rewriting an lcov report that was already rewritten (scripts/strip_test_coverage.py:352-527): the
    output splits into the records that were written, and stripping them again changes nothing. */
module LcovAgain {
  import opened Text
  import Cfg = CfgPredicate
  import opened TestModules
  import opened Lcov
  import opened LcovReport

  // ---------------------------------------------------------------------------------------------
  // Lines that end a record
  // ---------------------------------------------------------------------------------------------

  lemma {:induction false} StripStartKeeps(s: string, c: char)
    requires c in s && !IsPythonSpace(c)
    ensures c in Cfg.TrimStart(s)
  {
    if s != "" && IsPythonSpace(s[0]) {
      assert s == [s[0]] + s[1..];
      StripStartKeeps(s[1..], c);
    }
  }

  lemma {:induction false} StripEndKeeps(s: string, c: char)
    requires c in s && !IsPythonSpace(c)
    ensures c in Cfg.TrimEnd(s)
  {
    if s != "" && IsPythonSpace(s[|s| - 1]) {
      assert s == s[..|s| - 1] + [s[|s| - 1]];
      StripEndKeeps(s[..|s| - 1], c);
    }
  }

  lemma EndHasNoColon(line: string)
    ensures IsEnd(line) ==> ':' !in line
  {
    assert ':' !in "end_of_record";
    if ':' in line {
      StripStartKeeps(line, ':');
      StripEndKeeps(Cfg.TrimStart(line), ':');
    }
  }

  /** A line that ends a record is none of the lines that stripping looks at. */
  lemma EndIsPlain(line: string, ranges: seq<Range>, dropped: set<string>, totals: RecordTotals)
    requires IsEnd(line)
    ensures !IsDropped(line, ranges, dropped) && RewriteTotal(line, totals) == line
  {
    EndHasNoColon(line);
    assert KeyOf(line) == line && Payload(line).None?;
    if TotalOf(line).Some? { TotalKeyIsStripped(TotalOf(line).value); }
  }

  lemma TotalKeyIsStripped(t: Total)
    ensures Cfg.Strip(TotalKey(t)) == TotalKey(t) && TotalKey(t) != "end_of_record"
  {
  }

  lemma RewrittenEndsIff(line: string, totals: RecordTotals)
    ensures IsEnd(RewriteTotal(line, totals)) <==> IsEnd(line)
  {
    hide IsEnd;
    if IsEnd(line) {
      EndIsPlain(line, [], {}, totals);
    } else if TotalOf(KeyOf(line)).Some? {
      var out := RewriteTotal(line, totals);
      assert out[|KeyOf(line)|] == ':';
      EndHasNoColon(out);
    }
  }

  /** Stripping keeps the lines that name a source, as they are. */
  lemma SourceLineStays(line: string, ranges: seq<Range>, dropped: set<string>, totals: RecordTotals)
    ensures HasKey(RewriteTotal(line, totals), "SF") <==> HasKey(line, "SF")
    ensures HasKey(line, "SF") ==> !IsDropped(line, ranges, dropped) && RewriteTotal(line, totals) == line
  {
    RewrittenKey(line, totals);
    hide Payload;
  }

  // ---------------------------------------------------------------------------------------------
  // A stripped record is a record
  // ---------------------------------------------------------------------------------------------

  predicate Ends(r: Record) { r.lines != [] && IsEnd(r.lines[|r.lines| - 1]) }

  /** A record ends at most at its last line and has the source it names last. */
  predicate Whole(r: Record) { r.lines != [] && NoEnd(r.lines[..|r.lines| - 1]) && r.source == SourceOf(r.lines) }

  lemma {:induction false} SourceStays(lines: seq<string>, ranges: seq<Range>, dropped: set<string>, totals: RecordTotals)
    ensures SourceOf(Rewritten(Kept(lines, ranges, dropped), totals)) == SourceOf(lines)
  {
    hide HasKey, IsDropped, RewriteTotal, Payload;
    if lines != [] {
      var init, last := lines[..|lines| - 1], lines[|lines| - 1];
      SourceStays(init, ranges, dropped, totals);
      SourceLineStays(last, ranges, dropped, totals);
      var kept := Kept(init, ranges, dropped);
      if IsDropped(last, ranges, dropped) {
        assert kept + [] == kept;
      } else {
        RewrittenSnoc(kept, last, totals);
      }
    }
  }

  lemma RewrittenSnoc(kept: seq<string>, line: string, totals: RecordTotals)
    ensures Rewritten(kept + [line], totals) == Rewritten(kept, totals) + [RewriteTotal(line, totals)]
    ensures Rewritten(kept + [line], totals)[..|kept|] == Rewritten(kept, totals)
  {
    hide RewriteTotal;
  }

  lemma NoEndStays(lines: seq<string>, ranges: seq<Range>, dropped: set<string>, totals: RecordTotals)
    requires NoEnd(lines)
    ensures NoEnd(Rewritten(Kept(lines, ranges, dropped), totals))
  {
    hide IsEnd, RewriteTotal, IsDropped;
    var kept := Kept(lines, ranges, dropped);
    forall k | 0 <= k < |kept|
      ensures !IsEnd(Rewritten(kept, totals)[k])
    {
      assert kept[k] in kept;
      KeptAreNotDropped(lines, ranges, dropped, kept[k]);
      RewrittenEndsIff(kept[k], totals);
    }
  }

  lemma StrippedIsWhole(record: Record, ranges: seq<Range>, out: Stripped)
    requires Whole(record) && record.source.Some? && StripRecord(record.lines, ranges) == Some(out)
    ensures Whole(Record(record.source, out.lines)) && (Ends(record) ==> Ends(Record(record.source, out.lines)))
  {
    hide IsEnd, NoEnd, IsDropped, RewriteTotal, HasKey, Totals, SourceOf;
    var lines, dropped := record.lines, DroppedFunctions(record.lines, ranges);
    var init, last := lines[..|lines| - 1], lines[|lines| - 1];
    SourceStays(lines, ranges, dropped, out.totals);
    NoEndStays(init, ranges, dropped, out.totals);
    var kept := Kept(init, ranges, dropped);
    if IsEnd(last) { EndIsPlain(last, ranges, dropped, out.totals); }
    NothingNamed();
    if IsDropped(last, ranges, dropped) {
      assert kept + [] == kept;
      PrefixHasNoEnd(out.lines);
    } else {
      RewrittenSnoc(kept, last, out.totals);
      RewrittenEndsIff(last, out.totals);
    }
  }

  lemma NothingNamed() ensures SourceOf([]) == None {}

  lemma PrefixHasNoEnd(lines: seq<string>)
    requires NoEnd(lines)
    ensures lines != [] ==> NoEnd(lines[..|lines| - 1])
  {
    hide IsEnd;
  }

  // ---------------------------------------------------------------------------------------------
  // The records written
  // ---------------------------------------------------------------------------------------------

  /** The records of a written report: every one that is kept, stripped if it has a source. */
  function Written(records: seq<Record>, excluded: set<string>, ranges: seq<seq<Range>>): seq<(Record, seq<Range>)>
    requires |ranges| == |records|
  {
    if records == [] then []
    else
      var n := |records| - 1;
      var before, record := Written(records[..n], excluded, ranges[..n]), records[n];
      if record.source.None? then before + [(record, ranges[n])]
      else if record.source.value in excluded then before
      else
        var out := StripRecord(record.lines, ranges[n]);
        before + [(Record(record.source, if out.None? then record.lines else out.value.lines), ranges[n])]
  }

  function Firsts(pairs: seq<(Record, seq<Range>)>): seq<Record> { seq(|pairs|, i requires 0 <= i < |pairs| => pairs[i].0) }

  function Seconds(pairs: seq<(Record, seq<Range>)>): seq<seq<Range>> { seq(|pairs|, i requires 0 <= i < |pairs| => pairs[i].1) }

  predicate AllEnd(records: seq<Record>) { forall r :: r in records ==> Ends(r) }

  predicate AllWhole(records: seq<Record>) { forall r :: r in records ==> Whole(r) }

  /** Whole records, of which only the last may lack its end line. */
  predicate IsCut(records: seq<Record>) { AllWhole(records) && (records != [] ==> AllEnd(records[..|records| - 1])) }

  lemma {:induction false} CutIsSplit(records: seq<Record>)
    requires IsCut(records)
    ensures IsSplit(records, AllLines(records))
  {
    hide Whole, Ends, IsEnd, NoEnd, SourceOf;
    if records != [] {
      var first, rest := records[0], records[1..];
      assert first in records && forall r :: r in rest ==> r in records;
      if rest != [] {
        var init, restInit := records[..|records| - 1], rest[..|rest| - 1];
        assert first == init[0] && first in init;
        assert restInit == init[1..];
        forall r | r in restInit ensures r in init {}
      }
      CutIsSplit(rest);
      FirstOfCut(first, AllLines(rest), rest == []);
      assert AllLines(records)[|first.lines|..] == AllLines(rest);
    }
  }

  lemma FirstOfCut(first: Record, rest: seq<string>, last: bool)
    requires Whole(first) && (last ==> rest == []) && (!last ==> Ends(first))
    ensures IsRecord(first, first.lines + rest)
  {
    hide IsEnd, NoEnd, SourceOf;
    if last { assert first.lines + rest == first.lines; }
  }

  lemma {:induction false} SplitIsCut(records: seq<Record>, lines: seq<string>)
    requires IsSplit(records, lines)
    ensures IsCut(records)
    decreases |records|
  {
    hide IsEnd, NoEnd, SourceOf;
    if records != [] {
      var first, rest := records[0], records[1..];
      SplitIsCut(rest, lines[|first.lines|..]);
      assert forall r :: r in records <==> r == first || r in rest;
      if rest != [] {
        assert first.lines != lines;
        assert records[..|records| - 1] == [first] + rest[..|rest| - 1];
      }
    }
  }

  lemma FirstsSnoc(pairs: seq<(Record, seq<Range>)>, p: (Record, seq<Range>))
    ensures Firsts(pairs + [p]) == Firsts(pairs) + [p.0] && Seconds(pairs + [p]) == Seconds(pairs) + [p.1]
    ensures (pairs + [p])[..|pairs|] == pairs
  {
  }

  lemma SnocAll(records: seq<Record>, r: Record)
    requires AllWhole(records) && Whole(r)
    ensures AllWhole(records + [r]) && (AllEnd(records) && Ends(r) ==> AllEnd(records + [r])) &&
            (AllEnd(records) ==> IsCut(records + [r]))
  {
    hide Whole, Ends;
    assert (records + [r])[..|records|] == records;
  }

  lemma WholePrefix(records: seq<Record>, n: nat)
    requires AllWhole(records) && n <= |records|
    ensures AllWhole(records[..n]) && (AllEnd(records) ==> AllEnd(records[..n]))
  {
    hide Whole, Ends;
  }

  /** What is written of whole records, all of which end, are whole records that end. */
  lemma {:induction false} WrittenAreWhole(records: seq<Record>, excluded: set<string>, ranges: seq<seq<Range>>)
    requires |ranges| == |records| && Assemble(records, excluded, ranges).Some? && AllWhole(records)
    ensures AllWhole(Firsts(Written(records, excluded, ranges)))
    ensures AllEnd(records) ==> AllEnd(Firsts(Written(records, excluded, ranges)))
  {
    hide Whole, Ends, StripRecord, AllEnd, AllWhole;
    if records == [] {
      NoneWritten();
    } else {
      var n := |records| - 1;
      var record := records[n];
      WholePrefix(records, n);
      WrittenAreWhole(records[..n], excluded, ranges[..n]);
      LastOf(records);
      var before := Written(records[..n], excluded, ranges[..n]);
      if record.source.None? {
        FirstsSnoc(before, (record, ranges[n]));
        SnocAll(Firsts(before), record);
      } else if record.source.value !in excluded {
        var out := StripRecord(record.lines, ranges[n]).value;
        StrippedIsWhole(record, ranges[n], out);
        FirstsSnoc(before, (Record(record.source, out.lines), ranges[n]));
        SnocAll(Firsts(before), Record(record.source, out.lines));
      }
    }
  }

  lemma NoneWritten()
    ensures AllWhole(Firsts([])) && AllEnd(Firsts([])) && AllWhole([]) && AllEnd([])
  {
  }

  lemma LastOf(records: seq<Record>)
    requires AllWhole(records) && records != []
    ensures Whole(records[|records| - 1]) && (AllEnd(records) ==> Ends(records[|records| - 1]))
  {
    hide Whole, Ends;
    assert records[|records| - 1] in records;
  }

  lemma WrittenIsCut(records: seq<Record>, excluded: set<string>, ranges: seq<seq<Range>>)
    requires |ranges| == |records| && Assemble(records, excluded, ranges).Some? && IsCut(records)
    ensures IsCut(Firsts(Written(records, excluded, ranges)))
  {
    hide Whole, Ends, StripRecord, AllEnd, AllWhole;
    NoneWritten();
    if records != [] {
      var n := |records| - 1;
      var record := records[n];
      WholePrefix(records, n);
      LastOf(records);
      WrittenAreWhole(records[..n], excluded, ranges[..n]);
      var before := Written(records[..n], excluded, ranges[..n]);
      AllEndIsCut(Firsts(before));
      if record.source.None? {
        FirstsSnoc(before, (record, ranges[n]));
        SnocAll(Firsts(before), record);
      } else if record.source.value !in excluded {
        var out := StripRecord(record.lines, ranges[n]).value;
        StrippedIsWhole(record, ranges[n], out);
        FirstsSnoc(before, (Record(record.source, out.lines), ranges[n]));
        SnocAll(Firsts(before), Record(record.source, out.lines));
      }
    } else {
      assert Firsts(Written(records, excluded, ranges)) == [];
    }
  }

  lemma AllEndIsCut(records: seq<Record>)
    requires AllWhole(records) && AllEnd(records)
    ensures IsCut(records)
  {
    hide Whole, Ends;
  }

  lemma {:induction false} AllLinesSnoc(records: seq<Record>, r: Record)
    ensures AllLines(records + [r]) == AllLines(records) + r.lines
  {
    if records == [] {
      assert records + [r] == [r] && [r][1..] == [];
      assert r.lines + [] == r.lines && [] + r.lines == r.lines;
    } else {
      AllLinesSnoc(records[1..], r);
      assert (records + [r])[1..] == records[1..] + [r];
    }
  }

  /** The written lines are those of the written records, and no excluded source is among them. */
  lemma {:induction false} WrittenLines(records: seq<Record>, excluded: set<string>, ranges: seq<seq<Range>>, report: Report)
    requires |ranges| == |records| && Assemble(records, excluded, ranges) == Some(report)
    ensures AllLines(Firsts(Written(records, excluded, ranges))) == report.lines
  {
    hide StripRecord;
    if records != [] {
      var n := |records| - 1;
      var record := records[n];
      var before := Written(records[..n], excluded, ranges[..n]);
      WrittenLines(records[..n], excluded, ranges[..n], Assemble(records[..n], excluded, ranges[..n]).value);
      if record.source.None? {
        FirstsSnoc(before, (record, ranges[n]));
        AllLinesSnoc(Firsts(before), record);
      } else if record.source.value !in excluded {
        var out := StripRecord(record.lines, ranges[n]).value;
        FirstsSnoc(before, (Record(record.source, out.lines), ranges[n]));
        AllLinesSnoc(Firsts(before), Record(record.source, out.lines));
      }
    }
  }

  /** Every written record has the source of a record that is not excluded, and its ranges cover it. */
  lemma {:induction false} WrittenRanges(
    records: seq<Record>, excluded: set<string>, ranges: seq<seq<Range>>, read: string -> Option<string>, fewer: set<string>)
    requires AreRanges(ranges, records, excluded, read) && Assemble(records, excluded, ranges).Some? && fewer <= excluded
    ensures var written := Written(records, excluded, ranges);
            AreRanges(Seconds(written), Firsts(written), fewer, read) &&
            forall r :: r in Firsts(written) ==> exists original :: original in records && r.source == original.source
  {
    hide StripRecord, CoversTestLines;
    if records != [] {
      var n := |records| - 1;
      var record := records[n];
      var before := Written(records[..n], excluded, ranges[..n]);
      WrittenRanges(records[..n], excluded, ranges[..n], read, fewer);
      assert record in records && forall r :: r in records[..n] ==> r in records;
      if record.source.None? || record.source.value !in excluded {
        var stripped := if record.source.None? then record else Record(record.source, StripRecord(record.lines, ranges[n]).value.lines);
        FirstsSnoc(before, (stripped, ranges[n]));
      }
    }
  }

  /** Assembling the written records gives the report back. */
  lemma {:induction false} WrittenAgain(
    records: seq<Record>, excluded: set<string>, ranges: seq<seq<Range>>, report: Report, fewer: set<string>)
    requires |ranges| == |records| && Assemble(records, excluded, ranges) == Some(report) && fewer <= excluded
    ensures var written := Written(records, excluded, ranges);
            Assemble(Firsts(written), fewer, Seconds(written)) == Some(report)
  {
    hide StripRecord;
    if records != [] {
      var n := |records| - 1;
      var record := records[n];
      var before := Written(records[..n], excluded, ranges[..n]);
      WrittenAgain(records[..n], excluded, ranges[..n], Assemble(records[..n], excluded, ranges[..n]).value, fewer);
      if record.source.None? {
        AssembleSnoc(before, record, ranges[n], fewer);
      } else if record.source.value !in excluded {
        var out := StripRecord(record.lines, ranges[n]).value;
        StrippingIsIdempotent(record.lines, ranges[n], out);
        AssembleSnoc(before, Record(record.source, out.lines), ranges[n], fewer);
      }
    }
  }

  lemma AssembleSnoc(before: seq<(Record, seq<Range>)>, record: Record, own: seq<Range>, excluded: set<string>)
    requires Assemble(Firsts(before), excluded, Seconds(before)).Some?
    ensures var all := before + [(record, own)];
            Assemble(Firsts(all), excluded, Seconds(all)) ==
              Extend(Assemble(Firsts(before), excluded, Seconds(before)).value, record, excluded, own)
  {
    hide Extend;
    FirstsSnoc(before, (record, own));
    assert Firsts(before + [(record, own)])[..|before|] == Firsts(before);
    assert Seconds(before + [(record, own)])[..|before|] == Seconds(before);
  }

  // ---------------------------------------------------------------------------------------------
  // Stripping a report again
  // ---------------------------------------------------------------------------------------------

  lemma ResultOfOutput(
    lines: seq<string>, out: seq<string>, summary: Summary, excluded: set<string>, ranges: seq<seq<Range>>,
    read: string -> Option<string>, directory: string -> string)
    requires IsExcluded(excluded, Records(lines), read, directory)
    requires IsOutcome(Ok((out, summary)), Records(lines), excluded, ranges, read)
    ensures IsResult(Ok((out, summary)), Records(out), read, directory) && SourcesReadable(Records(out), read)
  {
    hide DeclaredBy, Records, IsSplit, IsCut, CoversTestLines, Assemble, Written, AllLines;
    var records := Records(lines);
    assert records[..|ranges|] == records;
    var report := Assemble(records, excluded, ranges).value;
    RecordsAreTheOnlySplit(records, lines);
    SplitIsCut(records, lines);
    WrittenIsCut(records, excluded, ranges);
    var written := Written(records, excluded, ranges);
    var again := Firsts(written);
    CutIsSplit(again);
    WrittenLines(records, excluded, ranges, report);
    RecordsAreTheOnlySplit(again, out);
    var fewer := set path | path in excluded && exists r :: r in again && DeclaredBy(r, read, directory, path);
    WrittenRanges(records, excluded, ranges, read, fewer);
    WrittenRanges(records, excluded, ranges, read, {});
    WrittenAgain(records, excluded, ranges, report, fewer);
    forall path
      ensures path in fewer <==> exists r :: r in again && DeclaredBy(r, read, directory, path)
    {
      DeclaredAgain(records, again, read, directory, path);
    }
    assert IsExcluded(fewer, again, read, directory);
    assert again[..|again|] == again;
    assert IsOutcome(Ok((out, summary)), again, fewer, Seconds(written), read);
  }

  lemma DeclaredAgain(
    records: seq<Record>, again: seq<Record>, read: string -> Option<string>, directory: string -> string, path: string)
    requires forall r :: r in again ==> exists original :: original in records && r.source == original.source
    ensures (exists r :: r in again && DeclaredBy(r, read, directory, path)) ==>
              exists r :: r in records && DeclaredBy(r, read, directory, path)
  {
    if r :| r in again && DeclaredBy(r, read, directory, path) {
      var original :| original in records && r.source == original.source;
      SameSourceDeclares(r, original, read, directory, path);
    }
  }

  lemma SameSourceDeclares(a: Record, b: Record, read: string -> Option<string>, directory: string -> string, path: string)
    requires a.source == b.source
    ensures DeclaredBy(a, read, directory, path) <==> DeclaredBy(b, read, directory, path)
  {
  }

  /** With the same sources, stripping the output of a successful strip finds every source, is
      successful, writes the same lines and reports the same summary. */
  lemma StrippingAReportAgain(
    lines: seq<string>, out: seq<string>, summary: Summary, r: Result<(seq<string>, Summary), Failure>,
    read: string -> Option<string>, directory: string -> string)
    requires IsResult(Ok((out, summary)), Records(lines), read, directory)
    requires SourcesReadable(Records(out), read) ==> IsResult(r, Records(out), read, directory)
    ensures SourcesReadable(Records(out), read) && r == Ok((out, summary))
  {
    hide IsExcluded, IsOutcome, Records, SourcesReadable;
    var excluded, ranges :| IsExcluded(excluded, Records(lines), read, directory) &&
                            IsOutcome(Ok((out, summary)), Records(lines), excluded, ranges, read);
    ResultOfOutput(lines, out, summary, excluded, ranges, read, directory);
    OutcomeIsDetermined(r, Ok((out, summary)), Records(out), read, directory);
  }
}
