/** Rewriting a whole lcov report (scripts/strip_test_coverage.py:352-430). The file system is a
    reader from paths to sources, and `directory` gives the directory of a source file's modules. */
module LcovReport {
  import opened Text
  import Cfg = CfgPredicate
  import Scanner = RustScanner
  import opened TestModules
  import opened Lcov

  // ---------------------------------------------------------------------------------------------
  // Records
  // ---------------------------------------------------------------------------------------------

  datatype Record = Record(source: Option<string>, lines: seq<string>)

  predicate IsEnd(line: string) { !HasKey(line, "SF") && Cfg.Strip(line) == "end_of_record" }

  /** The path the last `SF:` line names. */
  function SourceOf(lines: seq<string>): Option<string> {
    if lines == [] then None
    else
      var last := lines[|lines| - 1];
      if HasKey(last, "SF") then Some(Cfg.Strip(Payload(last).value)) else SourceOf(lines[..|lines| - 1])
  }

  /** How many lines the first record has. */
  function RecordLength(lines: seq<string>): (n: nat)
    ensures n <= |lines| && (lines != [] ==> n > 0)
  {
    if lines == [] then 0 else if IsEnd(lines[0]) then 1 else 1 + RecordLength(lines[1..])
  }

  function Records(lines: seq<string>): seq<Record> {
    if lines == [] then []
    else
      var n := RecordLength(lines);
      [Record(SourceOf(lines[..n]), lines[..n])] + Records(lines[n..])
  }

  lemma WordEnds()
    ensures NoOuterSpace("end_of_record")
  {
  }

  /** A record ends at the word `end_of_record`, white space around it or not, on a line that names no
      source. */
  lemma EndIsExact(line: string)
    ensures IsEnd(line) <==> !("SF:" <= line) && exists lead, trail :: IsPadded(line, lead, "end_of_record", trail)
  {
    hide Cfg.Strip, IsPadded, NoOuterSpace, HasKey;
    HasKeyIsPrefix(line, "SF");
    assert "SF" + ":" == "SF:";
    WordEnds();
    StripIsExact(line, "end_of_record");
  }

  /** The line names the source `path`. */
  ghost predicate NamesSource(line: string, path: string) {
    "SF:" <= line && NoOuterSpace(path) && exists lead, trail :: IsPadded(line[3..], lead, path, trail)
  }

  lemma NamedSource(line: string)
    ensures HasKey(line, "SF") <==> "SF:" <= line
    ensures HasKey(line, "SF") ==> forall path :: NamesSource(line, path) <==> Cfg.Strip(Payload(line).value) == path
  {
    hide Cfg.Strip, IsPadded, NoOuterSpace;
    HasKeyIsPrefix(line, "SF");
    assert "SF" + ":" == "SF:";
    if HasKey(line, "SF") {
      assert line == "SF" + [':'] + line[3..];
      FoundAfter("SF", ':', line[3..]);
      forall path ensures NamesSource(line, path) <==> Cfg.Strip(Payload(line).value) == path {
        StripIsExact(line[3..], path);
      }
    }
  }

  /** The source of a record is what its last naming line names. */
  lemma {:induction false} SourceIsExact(lines: seq<string>, path: string)
    ensures SourceOf(lines) == Some(path) <==>
              exists k :: 0 <= k < |lines| && NamesSource(lines[k], path) && forall j :: k < j < |lines| ==> !("SF:" <= lines[j])
    ensures SourceOf(lines) == None <==> forall j :: 0 <= j < |lines| ==> !("SF:" <= lines[j])
  {
    hide Cfg.Strip, NamesSource, HasKey;
    if lines != [] {
      var n := |lines| - 1;
      SourceIsExact(lines[..n], path);
      NamedSource(lines[n]);
      NamedStarts(lines[n], path);
    }
  }

  lemma NamedStarts(line: string, path: string)
    ensures NamesSource(line, path) ==> "SF:" <= line
  {
  }

  predicate NoEnd(lines: seq<string>) { forall line :: line in lines ==> !IsEnd(line) }

  /** `lines` are one record: they end at their first end line, or are all there is. */
  predicate IsRecord(record: Record, lines: seq<string>) {
    var own := record.lines;
    own != [] && own <= lines && record.source == SourceOf(own) && NoEnd(own[..|own| - 1]) &&
    (IsEnd(own[|own| - 1]) || own == lines)
  }

  predicate IsSplit(records: seq<Record>, lines: seq<string>) {
    if records == [] then lines == []
    else IsRecord(records[0], lines) && IsSplit(records[1..], lines[|records[0].lines|..])
  }

  lemma {:induction false} RecordLengthIsExact(lines: seq<string>, n: nat)
    requires 0 < n <= |lines|
    ensures RecordLength(lines) == n <==> NoEnd(lines[..n][..n - 1]) && (IsEnd(lines[n - 1]) || n == |lines|)
  {
    hide IsEnd;
    var before := lines[..n][..n - 1];
    if n == 1 {
      assert before == [];
      if !IsEnd(lines[0]) && |lines| > 1 { assert RecordLength(lines[1..]) > 0; }
    } else {
      RecordLengthIsExact(lines[1..], n - 1);
      var tail := lines[1..][..n - 1][..n - 2];
      assert before == [lines[0]] + tail;
    }
  }

  lemma FirstRecordIsExact(record: Record, lines: seq<string>)
    requires lines != []
    ensures var n := RecordLength(lines);
            IsRecord(record, lines) <==> record == Record(SourceOf(lines[..n]), lines[..n])
  {
    hide IsEnd, NoEnd, SourceOf;
    var own, n := record.lines, RecordLength(lines);
    RecordLengthIsExact(lines, n);
    assert lines[..n][n - 1] == lines[n - 1];
    if own != [] && own <= lines {
      RecordLengthIsExact(lines, |own|);
      assert own == lines[..|own|];
    }
  }

  /** The split is the only one: records end at their first end line and name their last source. */
  lemma {:induction false} RecordsAreTheOnlySplit(records: seq<Record>, lines: seq<string>)
    ensures IsSplit(records, lines) <==> records == Records(lines)
    decreases |lines|, |records|
  {
    if lines != [] && records != [] {
      hide IsRecord, SourceOf;
      var n := RecordLength(lines);
      FirstRecordIsExact(records[0], lines);
      assert records == [records[0]] + records[1..];
      if records[0] == Record(SourceOf(lines[..n]), lines[..n]) {
        RecordsAreTheOnlySplit(records[1..], lines[n..]);
      }
    }
  }

  function AllLines(records: seq<Record>): seq<string> {
    if records == [] then [] else records[0].lines + AllLines(records[1..])
  }

  /** No line is lost, added or moved by the split. */
  lemma {:induction false} RecordsConserveLines(lines: seq<string>)
    ensures AllLines(Records(lines)) == lines
  {
    if lines != [] {
      RecordsConserveLines(lines[RecordLength(lines)..]);
      assert Records(lines)[1..] == Records(lines[RecordLength(lines)..]);
    }
  }

  lemma CompleteRecord(current: seq<string>, line: string, rest: seq<string>)
    requires NoEnd(current) && IsEnd(line)
    ensures Records(current + [line] + rest) == [Record(SourceOf(current), current + [line])] + Records(rest)
  {
    hide IsEnd;
    var own := current + [line];
    var lines := own + rest;
    RecordLengthIsExact(lines, |own|);
    assert lines[..|own|] == own && own[..|own| - 1] == current && lines[|own|..] == rest;
    if HasKey(line, "SF") { SourceLineEndsNothing(line); }
    assert SourceOf(own) == SourceOf(current);
  }

  lemma LastRecord(current: seq<string>)
    requires NoEnd(current) && current != []
    ensures Records(current) == [Record(SourceOf(current), current)]
  {
    hide IsEnd;
    RecordLengthIsExact(current, |current|);
    assert current[..|current|] == current;
    assert current[|current|..] == [];
  }

  method SplitRecords(lines: seq<string>) returns (records: seq<Record>)
    ensures records == Records(lines)
  {
    hide IsEnd, Records, HasKey;
    records := [];
    var current: seq<string>, sourceFile: Option<string> := [], None;
    assert [] + lines[0..] == lines;
    for i := 0 to |lines|
      invariant NoEnd(current) && sourceFile == SourceOf(current)
      invariant Records(lines) == records + Records(current + lines[i..])
    {
      var line := lines[i];
      assert current + lines[i..] == current + [line] + lines[i + 1..];
      if HasKey(line, "SF") {
        SourceLineEndsNothing(line);
        current := current + [line];
        sourceFile := Some(Cfg.Strip(Payload(line).value));
      } else if Cfg.Strip(line) == "end_of_record" {
        IsEndLine(line);
        CompleteRecord(current, line, lines[i + 1..]);
        records := records + [Record(sourceFile, current + [line])];
        current, sourceFile := [], None;
        assert [] + lines[i + 1..] == lines[i + 1..];
      } else {
        IsEndLine(line);
        current := current + [line];
      }
    }
    assert current + lines[|lines|..] == current;
    if current != [] {
      LastRecord(current);
      records := records + [Record(sourceFile, current)];
    } else {
      assert Records([]) == [] by { NoRecords(); }
    }
  }

  lemma NoRecords()
    ensures Records([]) == []
  {
  }

  lemma SourceLineEndsNothing(line: string)
    requires HasKey(line, "SF")
    ensures !IsEnd(line) && Payload(line).Some?
  {
  }

  lemma IsEndLine(line: string)
    requires !HasKey(line, "SF")
    ensures IsEnd(line) <==> Cfg.Strip(line) == "end_of_record"
  {
  }

  // ---------------------------------------------------------------------------------------------
  // The report
  // ---------------------------------------------------------------------------------------------

  datatype FileSummary = FileSummary(file: string, linesFound: nat, linesHit: nat)

  datatype Report = Report(lines: seq<string>, files: seq<FileSummary>)

  datatype Summary = Summary(linesFound: nat, linesHit: nat, files: seq<FileSummary>)

  datatype Failure = SourceMissing(path: string) | MalformedRecord

  function SumFound(files: seq<FileSummary>): nat {
    if files == [] then 0 else SumFound(files[..|files| - 1]) + files[|files| - 1].linesFound
  }

  function SumHit(files: seq<FileSummary>): nat {
    if files == [] then 0 else SumHit(files[..|files| - 1]) + files[|files| - 1].linesHit
  }

  function Summarise(files: seq<FileSummary>): Summary {
    Summary(SumFound(files), SumHit(files), files)
  }

  /** The report with one more record: verbatim without a source, left out when the source is an
      out-of-line test module, stripped otherwise. */
  function Extend(report: Report, record: Record, excluded: set<string>, ranges: seq<Range>): Option<Report> {
    if record.source.None? then Some(Report(report.lines + record.lines, report.files))
    else if record.source.value in excluded then Some(report)
    else
      var out := StripRecord(record.lines, ranges);
      if out.None? then None
      else
        var totals := out.value.totals;
        Some(Report(report.lines + out.value.lines,
                    report.files + [FileSummary(record.source.value, totals.linesFound, totals.linesHit)]))
  }

  /** The report on `records`, with the ranges of each of them. */
  function Assemble(records: seq<Record>, excluded: set<string>, ranges: seq<seq<Range>>): Option<Report>
    requires |ranges| == |records|
  {
    if records == [] then Some(Report([], []))
    else
      var n := |records| - 1;
      var before := Assemble(records[..n], excluded, ranges[..n]);
      if before.None? then None else Extend(before.value, records[n], excluded, ranges[n])
  }

  /** `ranges` cover exactly the lines of the inline test modules of `source`. */
  ghost predicate CoversTestLines(ranges: seq<Range>, source: string) {
    forall line: nat :: Contains(ranges, line) <==> exists p: nat :: LineOfModuleAt(source, p, line)
  }

  predicate SourcesReadable(records: seq<Record>, read: string -> Option<string>) {
    forall record :: record in records && record.source.Some? ==> read(record.source.value).Some?
  }

  ghost predicate AreRanges(ranges: seq<seq<Range>>, records: seq<Record>, excluded: set<string>, read: string -> Option<string>) {
    |ranges| == |records| &&
    forall k :: 0 <= k < |records| && records[k].source.Some? && records[k].source.value !in excluded ==>
      read(records[k].source.value).Some? && CoversTestLines(ranges[k], read(records[k].source.value).value)
  }

  /** Some source that a record names declares `path` as the file of a test module. */
  predicate DeclaredBy(record: Record, read: string -> Option<string>, directory: string -> string, path: string) {
    record.source.Some? && read(record.source.value).Some? &&
    var source := read(record.source.value).value;
    exists p :: 0 <= p < |source| && IsOutOfLinePath(Scanner.Masked(source), directory(record.source.value), p, path)
  }

  ghost predicate IsExcluded(
    excluded: set<string>, records: seq<Record>, read: string -> Option<string>, directory: string -> string)
  {
    forall path :: path in excluded <==>
      exists record :: record in records && DeclaredBy(record, read, directory, path)
  }

  /** What rewriting a report may end in: the report on all records, or the failure of the first
      malformed one. */
  ghost predicate IsOutcome(
    r: Result<(seq<string>, Summary), Failure>, records: seq<Record>, excluded: set<string>,
    ranges: seq<seq<Range>>, read: string -> Option<string>)
  {
    |ranges| <= |records| && AreRanges(ranges, records[..|ranges|], excluded, read) &&
    var report := Assemble(records[..|ranges|], excluded, ranges);
    if report.None? then r == Err(MalformedRecord)
    else |ranges| == |records| && r == Ok((report.value.lines, Summarise(report.value.files)))
  }

  /** The outcome for the files that the sources of the report declare to be test modules. */
  ghost predicate IsResult(
    r: Result<(seq<string>, Summary), Failure>, records: seq<Record>,
    read: string -> Option<string>, directory: string -> string)
  {
    exists excluded, ranges :: IsExcluded(excluded, records, read, directory) && IsOutcome(r, records, excluded, ranges, read)
  }

  method ReadSources(records: seq<Record>, read: string -> Option<string>)
    returns (r: Result<map<string, string>, Failure>)
    ensures r.Ok? <==> SourcesReadable(records, read)
    ensures r.Ok? ==> forall record :: record in records && record.source.Some? ==>
              record.source.value in r.value && r.value[record.source.value] == read(record.source.value).value
    ensures r.Err? ==>
              exists k :: 0 <= k < |records| && SourcesReadable(records[..k], read) &&
                records[k].source.Some? && read(records[k].source.value).None? &&
                r.error == SourceMissing(records[k].source.value)
  {
    var sources: map<string, string> := map[];
    for k := 0 to |records|
      invariant SourcesReadable(records[..k], read)
      invariant forall record :: record in records[..k] && record.source.Some? ==>
                  record.source.value in sources && sources[record.source.value] == read(record.source.value).value
    {
      assert forall record :: record in records[..k + 1] <==> record in records[..k] || record == records[k];
      if records[k].source.Some? {
        var path := records[k].source.value;
        var source := read(path);
        if source.None? {
          return Err(SourceMissing(path));
        }
        sources := sources[path := source.value];
      }
    }
    assert records[..|records|] == records;
    r := Ok(sources);
  }

  method Excluded(records: seq<Record>, read: string -> Option<string>, directory: string -> string, sources: map<string, string>)
    returns (excluded: set<string>)
    requires SourcesReadable(records, read)
    requires forall record :: record in records && record.source.Some? ==>
               record.source.value in sources && sources[record.source.value] == read(record.source.value).value
    ensures IsExcluded(excluded, records, read, directory)
  {
    hide IsOutOfLinePath, Scanner.Masked;
    excluded := {};
    for k := 0 to |records|
      invariant IsExcluded(excluded, records[..k], read, directory)
    {
      var record := records[k];
      ghost var before, known := excluded, records[..k];
      if record.source.Some? {
        var path := record.source.value;
        var paths := TestOnlyModulePaths(directory(path), sources[path]);
        excluded := excluded + paths;
      }
      assert records[..k + 1] == known + [record];
      forall path
        ensures path in excluded <==> exists r :: r in known + [record] && DeclaredBy(r, read, directory, path)
      {
        OneMoreDeclares(known, record, read, directory, path);
      }
    }
    assert records[..|records|] == records;
  }

  lemma OneMoreDeclares(known: seq<Record>, record: Record, read: string -> Option<string>, directory: string -> string, path: string)
    ensures (exists r :: r in known + [record] && DeclaredBy(r, read, directory, path)) <==>
              (exists r :: r in known && DeclaredBy(r, read, directory, path)) || DeclaredBy(record, read, directory, path)
  {
    hide DeclaredBy;
  }

  lemma AssembleStep(records: seq<Record>, k: nat, excluded: set<string>, ranges: seq<seq<Range>>, own: seq<Range>,
                     read: string -> Option<string>, report: Report)
    requires k < |records| && AreRanges(ranges, records[..k], excluded, read)
    requires Assemble(records[..k], excluded, ranges) == Some(report)
    requires records[k].source.Some? && records[k].source.value !in excluded ==>
               read(records[k].source.value).Some? && CoversTestLines(own, read(records[k].source.value).value)
    ensures AreRanges(ranges + [own], records[..k + 1], excluded, read)
    ensures Assemble(records[..k + 1], excluded, ranges + [own]) == Extend(report, records[k], excluded, own)
  {
    hide CoversTestLines, Extend;
    assert records[..k + 1][..k] == records[..k];
    assert (ranges + [own])[..k] == ranges;
  }

  lemma AssembleNothing(records: seq<Record>, excluded: set<string>, read: string -> Option<string>)
    ensures AreRanges([], records[..0], excluded, read) && Assemble(records[..0], excluded, []) == Some(Report([], []))
  {
  }

  lemma ReportAssembled(records: seq<Record>, excluded: set<string>, ranges: seq<seq<Range>>,
                        read: string -> Option<string>, report: Report)
    requires |ranges| == |records| && AreRanges(ranges, records[..|records|], excluded, read)
    requires Assemble(records[..|records|], excluded, ranges) == Some(report)
    ensures IsOutcome(Ok((report.lines, Summarise(report.files))), records, excluded, ranges, read)
  {
    hide AreRanges, Assemble;
  }

  lemma AssemblyFailed(records: seq<Record>, n: nat, excluded: set<string>, ranges: seq<seq<Range>>, read: string -> Option<string>)
    requires n <= |records| && AreRanges(ranges, records[..n], excluded, read) && |ranges| == n
    requires Assemble(records[..n], excluded, ranges) == None
    ensures IsOutcome(Err(MalformedRecord), records, excluded, ranges, read)
  {
    hide AreRanges, Assemble;
  }

  /** Rewrites a report: unreadable sources and malformed records are errors, and otherwise the
      output is assembled from the records of exactly the files that are not test modules. */
  method StripLcov(lines: seq<string>, read: string -> Option<string>, directory: string -> string)
    returns (r: Result<(seq<string>, Summary), Failure>)
    ensures r.Err? && r.error.SourceMissing? <==> !SourcesReadable(Records(lines), read)
    ensures r.Err? && r.error.SourceMissing? ==>
              exists k :: 0 <= k < |Records(lines)| && SourcesReadable(Records(lines)[..k], read) &&
                Records(lines)[k].source == Some(r.error.path) && read(r.error.path).None?
    ensures SourcesReadable(Records(lines), read) ==> IsResult(r, Records(lines), read, directory)
  {
    hide Records, Scanner.Masked, LineOfModuleAt, StripRecord, IsExcluded, DeclaredBy, Assemble, AreRanges, IsOutcome;
    var records := SplitRecords(lines);
    var read? := ReadSources(records, read);
    if read?.Err? {
      return Err(read?.error);
    }
    var sources := read?.value;
    var excluded := Excluded(records, read, directory, sources);
    var output: seq<string>, files: seq<FileSummary> := [], [];
    ghost var ranges: seq<seq<Range>> := [];
    AssembleNothing(records, excluded, read);
    for k := 0 to |records|
      invariant |ranges| == k && AreRanges(ranges, records[..k], excluded, read)
      invariant Assemble(records[..k], excluded, ranges) == Some(Report(output, files))
    {
      var record := records[k];
      ghost var before := ranges;
      if record.source.None? {
        AssembleStep(records, k, excluded, ranges, [], read, Report(output, files));
        output, ranges := output + record.lines, ranges + [[]];
        continue;
      }
      if record.source.value in excluded {
        AssembleStep(records, k, excluded, ranges, [], read, Report(output, files));
        ranges := ranges + [[]];
        continue;
      }
      var own := FindTestModuleRanges(sources[record.source.value]);
      AssembleStep(records, k, excluded, ranges, own, read, Report(output, files));
      ranges := ranges + [own];
      var out := StripRecord(record.lines, own);
      if out.None? {
        AssemblyFailed(records, k + 1, excluded, ranges, read);
        return Err(MalformedRecord);
      }
      output := output + out.value.lines;
      files := files + [FileSummary(record.source.value, out.value.totals.linesFound, out.value.totals.linesHit)];
    }
    ReportAssembled(records, excluded, ranges, read, Report(output, files));
    r := Ok((output, Summarise(files)));
  }

  // ---------------------------------------------------------------------------------------------
  // What the report promises
  // ---------------------------------------------------------------------------------------------

  lemma BothCover(a: seq<Range>, b: seq<Range>, source: string)
    requires CoversTestLines(a, source) && CoversTestLines(b, source)
    ensures SameCoverage(a, b)
  {
    hide Contains, LineOfModuleAt;
  }

  lemma {:induction false} AssembleIsDetermined(
    records: seq<Record>, excluded: set<string>, a: seq<seq<Range>>, b: seq<seq<Range>>, read: string -> Option<string>)
    requires AreRanges(a, records, excluded, read) && AreRanges(b, records, excluded, read)
    ensures Assemble(records, excluded, a) == Assemble(records, excluded, b)
  {
    hide CoversTestLines, StripRecord, SameCoverage;
    if records != [] {
      var n := |records| - 1;
      AssembleIsDetermined(records[..n], excluded, a[..n], b[..n], read);
      var source := records[n].source;
      if source.Some? && source.value !in excluded {
        BothCover(a[n], b[n], read(source.value).value);
        OnlyCoverageMatters(records[n].lines, a[n], b[n]);
      }
    }
  }

  lemma {:induction false} FailureIsFinal(
    records: seq<Record>, excluded: set<string>, ranges: seq<seq<Range>>, n: nat)
    requires n <= |records| == |ranges| && Assemble(records[..n], excluded, ranges[..n]) == None
    ensures Assemble(records, excluded, ranges) == None
  {
    hide Extend;
    if n < |records| {
      var m := |records| - 1;
      assert records[..m][..n] == records[..n] && ranges[..m][..n] == ranges[..n];
      FailureIsFinal(records[..m], excluded, ranges[..m], n);
    } else {
      assert records[..n] == records && ranges[..n] == ranges;
    }
  }

  lemma SameExclusionsSameOutcome(
    r: Result<(seq<string>, Summary), Failure>, q: Result<(seq<string>, Summary), Failure>, records: seq<Record>,
    excluded: set<string>, a: seq<seq<Range>>, b: seq<seq<Range>>, read: string -> Option<string>)
    requires IsOutcome(r, records, excluded, a, read) && IsOutcome(q, records, excluded, b, read)
    ensures r == q
  {
    hide AreRanges, Assemble;
    var n := if |a| < |b| then |a| else |b|;
    PrefixOfRanges(a, records[..|a|], n, excluded, read);
    PrefixOfRanges(b, records[..|b|], n, excluded, read);
    assert records[..|a|][..n] == records[..n] && records[..|b|][..n] == records[..n];
    AssembleIsDetermined(records[..n], excluded, a[..n], b[..n], read);
    assert a[..|a|] == a && b[..|b|] == b;
    if Assemble(records[..n], excluded, a[..n]).None? {
      FailureIsFinal(records[..|a|], excluded, a, n);
      FailureIsFinal(records[..|b|], excluded, b, n);
    }
  }

  lemma ExclusionsAreDetermined(
    a: set<string>, b: set<string>, records: seq<Record>, read: string -> Option<string>, directory: string -> string)
    requires IsExcluded(a, records, read, directory) && IsExcluded(b, records, read, directory)
    ensures a == b
  {
    hide DeclaredBy;
  }

  /** The outcome depends only on the records and the sources they name, so there is exactly one. */
  lemma OutcomeIsDetermined(
    r: Result<(seq<string>, Summary), Failure>, q: Result<(seq<string>, Summary), Failure>, records: seq<Record>,
    read: string -> Option<string>, directory: string -> string)
    requires IsResult(r, records, read, directory) && IsResult(q, records, read, directory)
    ensures r == q
  {
    hide IsExcluded, IsOutcome;
    var e, a :| IsExcluded(e, records, read, directory) && IsOutcome(r, records, e, a, read);
    var f, b :| IsExcluded(f, records, read, directory) && IsOutcome(q, records, f, b, read);
    ExclusionsAreDetermined(e, f, records, read, directory);
    SameExclusionsSameOutcome(r, q, records, e, a, b, read);
  }

  lemma PrefixOfRanges(ranges: seq<seq<Range>>, records: seq<Record>, n: nat, excluded: set<string>, read: string -> Option<string>)
    requires AreRanges(ranges, records, excluded, read) && n <= |records|
    ensures AreRanges(ranges[..n], records[..n], excluded, read)
  {
    hide CoversTestLines;
  }

  /** How many lines a total counts in the records that have no source and pass through verbatim. */
  function VerbatimCount(t: Total, records: seq<Record>): nat {
    if records == [] then 0
    else
      var last := records[|records| - 1];
      VerbatimCount(t, records[..|records| - 1]) + if last.source.None? then Count(t, last.lines) else 0
  }

  lemma {:induction false} CountJoined(t: Total, a: seq<string>, b: seq<string>)
    ensures Count(t, a + b) == Count(t, a) + Count(t, b)
  {
    hide Counts;
    if b == [] {
      assert a + b == a;
    } else {
      var n := |b| - 1;
      CountJoined(t, a, b[..n]);
      assert (a + b)[..|a + b| - 1] == a + b[..n];
    }
  }

  lemma StripCounts(lines: seq<string>, ranges: seq<Range>, out: Stripped)
    requires StripRecord(lines, ranges) == Some(out)
    ensures out.totals.linesFound == Count(LF, out.lines) && out.totals.linesHit == Count(LH, out.lines)
  {
    TotalsAreExact(lines, ranges, out, LF, 0);
    TotalsAreExact(lines, ranges, out, LH, 0);
  }

  /** The summary's totals are the sums over the files kept, and these are what the written report
      itself counts, apart from records without a source. */
  lemma {:induction false} SummaryCountsTheReport(
    records: seq<Record>, excluded: set<string>, ranges: seq<seq<Range>>, report: Report)
    requires |ranges| == |records| && Assemble(records, excluded, ranges) == Some(report)
    ensures var summary := Summarise(report.files);
            Count(LF, report.lines) == summary.linesFound + VerbatimCount(LF, records) &&
            Count(LH, report.lines) == summary.linesHit + VerbatimCount(LH, records)
  {
    hide Count, StripRecord;
    if records == [] {
      EmptyCount();
    } else {
      var n := |records| - 1;
      var record := records[n];
      var before := Assemble(records[..n], excluded, ranges[..n]).value;
      SummaryCountsTheReport(records[..n], excluded, ranges[..n], before);
      if record.source.None? {
        CountJoined(LF, before.lines, record.lines);
        CountJoined(LH, before.lines, record.lines);
      } else if record.source.value !in excluded {
        var out := StripRecord(record.lines, ranges[n]).value;
        StripCounts(record.lines, ranges[n], out);
        CountJoined(LF, before.lines, out.lines);
        CountJoined(LH, before.lines, out.lines);
        assert report.files[..|report.files| - 1] == before.files;
      }
    }
  }

  lemma EmptyCount()
    ensures forall t :: Count(t, []) == 0
  {
  }
}
