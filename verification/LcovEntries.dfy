/** Stripping a record whose lines are written from their meaning (scripts/strip_test_coverage.py:461-522):
    what each written entry is read as, and what stripping does to the entries themselves. */
module LcovEntries {
  import opened Text
  import NumberText
  import Cfg = CfgPredicate
  import opened TestModules
  import opened Lcov

  /** A line of a record. A count of `None` is written as a dash. */
  datatype Entry =
    | LineData(line: nat, count: Option<nat>, checksum: Option<string>)
    | Branch(line: nat, block: string, branch: string, taken: Option<nat>)
    | Function(line: nat, name: string)
    | Calls(count: Option<nat>, name: string)
    | Stated(total: Total, number: nat)
    | Other(text: string)

  function PrintCount(count: Option<nat>): string { if count.None? then "-" else NumberText.Decimal(count.value) }

  function KeyFor(e: Entry): string
    requires !e.Other?
  {
    match e
    case LineData(_, _, _) => "DA"
    case Branch(_, _, _, _) => "BRDA"
    case Function(_, _) => "FN"
    case Calls(_, _) => "FNDA"
    case Stated(total, _) => TotalKey(total)
  }

  function PrintPayload(e: Entry): string
    requires !e.Other?
  {
    match e
    case LineData(line, count, checksum) =>
      NumberText.Decimal(line) + "," + (PrintCount(count) + if checksum.None? then "" else "," + checksum.value)
    case Branch(line, block, branch, taken) =>
      NumberText.Decimal(line) + "," + (block + "," + (branch + "," + PrintCount(taken)))
    case Function(line, name) => NumberText.Decimal(line) + "," + name
    case Calls(count, name) => PrintCount(count) + "," + name
    case Stated(_, number) => NumberText.Decimal(number)
  }

  function Print(e: Entry): string { if e.Other? then e.text else KeyFor(e) + ":" + PrintPayload(e) }

  /** Blocks and branches are written without commas, and other lines with none of the keys read here. */
  predicate IsEntryText(e: Entry) {
    match e
    case Branch(_, block, branch, _) => ',' !in block && ',' !in branch
    case Other(text) => KeyOf(text) !in {"DA", "BRDA", "FN", "FNDA", "LF", "LH", "BRF", "BRH", "FNF", "FNH"}
    case _ => true
  }

  lemma Keyed(key: string, rest: string)
    requires ':' !in key
    ensures KeyOf(key + ":" + rest) == key && Payload(key + ":" + rest) == Some(rest)
  {
    FoundAfter(key, ':', rest);
    assert (key + ":" + rest)[|key| + 1..] == rest;
  }

  lemma KeyHasNoColon(e: Entry)
    requires !e.Other?
    ensures ':' !in KeyFor(e)
  {
  }

  /** A written line has its own key and no other. */
  lemma PrintedKey(e: Entry, key: string)
    requires !e.Other?
    ensures HasKey(Print(e), key) <==> key == KeyFor(e)
    ensures KeyOf(Print(e)) == KeyFor(e) && Payload(Print(e)) == Some(PrintPayload(e))
  {
    hide PrintPayload, KeyOf, Payload;
    KeyHasNoColon(e);
    Keyed(KeyFor(e), PrintPayload(e));
  }

  lemma OtherHasNoKey(e: Entry, key: string)
    requires e.Other? && IsEntryText(e)
    requires key in {"DA", "BRDA", "FN", "FNDA", "LF", "LH", "BRF", "BRH", "FNF", "FNH"}
    ensures !HasKey(Print(e), key) && KeyOf(Print(e)) != key
  {
  }

  lemma CountHasNoComma(count: Option<nat>)
    ensures ',' !in PrintCount(count)
  {
    if count.Some? {
      hide NumberText.Decimal, NumberText.AllDigits, NumberText.Value;
      NumberText.DecimalSpells(count.value);
      NumberText.DigitsHaveNo(PrintCount(count), ',');
    }
  }

  lemma NumberHasNoComma(n: nat)
    ensures ',' !in NumberText.Decimal(n)
  {
    CountHasNoComma(Some(n));
  }

  /** What a count field means, as the script reads it. */
  lemma CountIsRead(count: Option<nat>)
    ensures PrintCount(count) == "-" <==> count.None?
    ensures count.Some? ==> ParseInt(PrintCount(count)) == Some(count.value)
  {
    hide ParseInt;
    if count.Some? {
      DecimalIsParsed(count.value);
      hide NumberText.Decimal, NumberText.AllDigits, NumberText.Value;
      var s := PrintCount(count);
      NumberText.DecimalSpells(count.value);
      NumberText.DigitsHaveNo(s, '-');
      assert s[0] in s;
    }
  }

  lemma FieldsOf(first: string, rest: string)
    requires ',' !in first
    ensures SplitOn(first + "," + rest, ',') == [first] + SplitOn(rest, ',')
  {
    SplitFirst(first, ',', rest);
  }

  /** The fields that a written line begins with. */
  function FirstFields(e: Entry): seq<string>
    requires !e.Other?
  {
    match e
    case LineData(line, count, _) => [NumberText.Decimal(line), PrintCount(count)]
    case Branch(line, block, branch, taken) => [NumberText.Decimal(line), block, branch, PrintCount(taken)]
    case Function(line, _) => [NumberText.Decimal(line)]
    case Calls(count, _) => [PrintCount(count)]
    case Stated(_, number) => [NumberText.Decimal(number)]
  }

  lemma PrintedFields(e: Entry)
    requires !e.Other? && IsEntryText(e)
    ensures FirstFields(e) <= SplitOn(PrintPayload(e), ',')
  {
    hide SplitOn, NumberText.Decimal, PrintCount;
    match e
    case LineData(line, count, checksum) =>
      NumberHasNoComma(line);
      CountHasNoComma(count);
      FieldsOf(NumberText.Decimal(line), PrintCount(count) + if checksum.None? then "" else "," + checksum.value);
      if checksum.None? {
        assert PrintCount(count) + "" == PrintCount(count);
        SplitWhole(PrintCount(count), ',');
      } else {
        assert PrintCount(count) + ("," + checksum.value) == PrintCount(count) + "," + checksum.value;
        FieldsOf(PrintCount(count), checksum.value);
      }
    case Branch(line, block, branch, taken) =>
      NumberHasNoComma(line);
      CountHasNoComma(taken);
      FieldsOf(NumberText.Decimal(line), block + "," + (branch + "," + PrintCount(taken)));
      FieldsOf(block, branch + "," + PrintCount(taken));
      FieldsOf(branch, PrintCount(taken));
      SplitWhole(PrintCount(taken), ',');
    case Function(line, name) =>
      NumberHasNoComma(line);
      FieldsOf(NumberText.Decimal(line), name);
    case Calls(count, name) =>
      CountHasNoComma(count);
      FieldsOf(PrintCount(count), name);
    case Stated(_, number) =>
      NumberHasNoComma(number);
      SplitWhole(NumberText.Decimal(number), ',');
  }

  lemma PrintedField(e: Entry, k: nat)
    requires !e.Other? && IsEntryText(e) && k < |FirstFields(e)|
    ensures Field(Print(e), k) == Some(FirstFields(e)[k])
  {
    hide SplitOn, FirstFields, PrintPayload, Print;
    PrintedFields(e);
    PrintedKey(e, "");
  }

  /** The line that a written entry is about. */
  lemma EntryLineIsRead(e: Entry)
    requires (e.LineData? || e.Branch? || e.Function?) && IsEntryText(e)
    ensures EntryLine(Print(e)) == Some(e.line)
  {
    hide Field, Print, ParseInt, NumberText.Decimal;
    PrintedField(e, 0);
    DecimalIsParsed(e.line);
  }

  /** The name that a written function or its calls are about, commas included. */
  lemma FunctionNameIsRead(e: Entry)
    requires e.Function? || e.Calls?
    ensures FunctionName(Print(e)) == Some(e.name)
  {
    hide NumberText.Decimal, PrintCount, Print;
    PrintedKey(e, "");
    var first := if e.Function? then NumberText.Decimal(e.line) else PrintCount(e.count);
    if e.Function? { NumberHasNoComma(e.line); } else { CountHasNoComma(e.count); }
    FoundAfter(first, ',', e.name);
    assert (first + "," + e.name)[|first| + 1..] == e.name;
  }

  predicate Positive(count: Option<nat>) { count.Some? && count.value > 0 }

  lemma ExecutionCountIsRead(e: Entry)
    requires (e.LineData? || e.Calls?) && IsEntryText(e)
    ensures ExecutionCount(Print(e)) == Some(if e.count.None? then 0 else e.count.value)
  {
    hide Field, Print, ParseInt, PrintCount;
    PrintedKey(e, "DA");
    PrintedField(e, if e.LineData? then 1 else 0);
    CountIsRead(e.count);
  }

  lemma BranchTakenIsRead(e: Entry)
    requires e.Branch? && IsEntryText(e)
    ensures BranchTaken(Print(e)) == Some(Positive(e.taken))
  {
    hide Field, Print, ParseInt, PrintCount;
    PrintedField(e, 3);
    CountIsRead(e.taken);
  }

  /** What each total counts. */
  predicate IsCounted(t: Total, e: Entry) {
    match t
    case LF => e.LineData?
    case LH => e.LineData? && Positive(e.count)
    case BRF => e.Branch?
    case BRH => e.Branch? && Positive(e.taken)
    case FNF => e.Function?
    case FNH => e.Calls? && Positive(e.count)
  }

  /** A written line is counted in a total exactly when its entry is. */
  lemma CountsIsRead(t: Total, e: Entry)
    requires IsEntryText(e)
    ensures Counts(t, Print(e)) <==> IsCounted(t, e)
  {
    hide Print, ExecutionCount, BranchTaken;
    if e.Other? {
      OtherHasNoKey(e, "DA");
      OtherHasNoKey(e, "BRDA");
      OtherHasNoKey(e, "FN");
      OtherHasNoKey(e, "FNDA");
    } else {
      hide HasKey;
      PrintedKey(e, "DA");
      PrintedKey(e, "BRDA");
      PrintedKey(e, "FN");
      PrintedKey(e, "FNDA");
      if e.LineData? || e.Calls? { ExecutionCountIsRead(e); }
      if e.Branch? { BranchTakenIsRead(e); }
    }
  }

  // ---------------------------------------------------------------------------------------------
  // A whole record
  // ---------------------------------------------------------------------------------------------

  predicate AreEntryTexts(entries: seq<Entry>) { forall e :: e in entries ==> IsEntryText(e) }

  function PrintAll(entries: seq<Entry>): seq<string> {
    seq(|entries|, i requires 0 <= i < |entries| => Print(entries[i]))
  }

  /** The entry is about a line in the ranges. */
  predicate IsInside(e: Entry, ranges: seq<Range>) {
    (e.LineData? || e.Branch? || e.Function?) && Contains(ranges, e.line)
  }

  /** The names of the functions declared in the ranges. */
  function NamesInside(entries: seq<Entry>, ranges: seq<Range>): set<string> {
    set e | e in entries && e.Function? && Contains(ranges, e.line) :: e.name
  }

  predicate Stays(e: Entry, ranges: seq<Range>, names: set<string>) {
    !IsInside(e, ranges) && (e.Calls? ==> e.name !in names)
  }

  function Staying(entries: seq<Entry>, ranges: seq<Range>, names: set<string>): seq<Entry> {
    if entries == [] then []
    else
      var n := |entries| - 1;
      Staying(entries[..n], ranges, names) + if Stays(entries[n], ranges, names) then [entries[n]] else []
  }

  function CountEntries(t: Total, entries: seq<Entry>): nat {
    if entries == [] then 0
    else CountEntries(t, entries[..|entries| - 1]) + if IsCounted(t, entries[|entries| - 1]) then 1 else 0
  }

  /** Every total states the count over `counted`. */
  function Restated(entries: seq<Entry>, counted: seq<Entry>): seq<Entry> {
    seq(|entries|, i requires 0 <= i < |entries| =>
      if entries[i].Stated? then Stated(entries[i].total, CountEntries(entries[i].total, counted)) else entries[i])
  }

  lemma EntryIsDecided(e: Entry, ranges: seq<Range>)
    requires IsEntryText(e)
    ensures Decidable(Print(e), ranges) && (EntryInside(Print(e), ranges) && IsEntry(Print(e)) <==> IsInside(e, ranges))
    ensures IsTestFunction(Print(e), ranges) <==> e.Function? && IsInside(e, ranges)
    ensures forall names :: IsDropped(Print(e), ranges, names) <==> !Stays(e, ranges, names)
    ensures Countable(Print(e))
  {
    hide Print, EntryLine, FunctionName, ExecutionCount, BranchTaken, Contains;
    if e.Other? {
      OtherHasNoKey(e, "DA");
      OtherHasNoKey(e, "BRDA");
      OtherHasNoKey(e, "FN");
      OtherHasNoKey(e, "FNDA");
    } else {
      hide HasKey;
      PrintedKey(e, "DA");
      PrintedKey(e, "BRDA");
      PrintedKey(e, "FN");
      PrintedKey(e, "FNDA");
      if e.LineData? || e.Branch? || e.Function? { EntryLineIsRead(e); }
      if e.Function? || e.Calls? { FunctionNameIsRead(e); }
      if e.LineData? || e.Calls? { ExecutionCountIsRead(e); }
      if e.Branch? { BranchTakenIsRead(e); }
    }
  }

  lemma NamesAreDropped(entries: seq<Entry>, ranges: seq<Range>)
    requires AreEntryTexts(entries)
    ensures DroppedFunctions(PrintAll(entries), ranges) == NamesInside(entries, ranges)
  {
    hide EntryInside, HasKey, Contains, FunctionName, Print, IsEntryText;
    var lines, names := PrintAll(entries), NamesInside(entries, ranges);
    forall name | name in DroppedFunctions(lines, ranges)
      ensures name in names
    {
      var line :| line in lines && IsTestFunction(line, ranges) && FunctionName(line).value == name;
      var k :| 0 <= k < |lines| && lines[k] == line;
      var e := entries[k];
      EntryIsDecided(e, ranges);
      FunctionNameIsRead(e);
      assert e in entries;
    }
    forall name | name in names
      ensures name in DroppedFunctions(lines, ranges)
    {
      var e :| e in entries && e.Function? && Contains(ranges, e.line) && e.name == name;
      var k :| 0 <= k < |entries| && entries[k] == e;
      assert lines[k] == Print(e) && lines[k] in lines;
      EntryIsDecided(e, ranges);
      FunctionNameIsRead(e);
    }
  }

  lemma PrintedSnoc(entries: seq<Entry>, e: Entry)
    ensures PrintAll(entries + [e]) == PrintAll(entries) + [Print(e)]
  {
    hide Print;
  }

  lemma {:induction false} StayingAreKept(entries: seq<Entry>, ranges: seq<Range>, names: set<string>)
    requires AreEntryTexts(entries)
    ensures Kept(PrintAll(entries), ranges, names) == PrintAll(Staying(entries, ranges, names))
    ensures forall e :: e in Staying(entries, ranges, names) ==> e in entries
  {
    hide IsDropped, Stays, Print, IsEntryText;
    if entries != [] {
      var n := |entries| - 1;
      var init, last := entries[..n], entries[n];
      StayingAreKept(init, ranges, names);
      EntryIsDecided(last, ranges);
      assert entries == init + [last];
      PrintedSnoc(init, last);
      var lines := PrintAll(entries);
      assert lines[..|lines| - 1] == PrintAll(init) && lines[|lines| - 1] == Print(last);
      var before := Staying(init, ranges, names);
      PrintedSnoc(before, last);
      assert PrintAll(before) + [] == PrintAll(before) && before + [] == before;
    }
  }

  lemma {:induction false} EntriesAreCounted(t: Total, entries: seq<Entry>)
    requires AreEntryTexts(entries)
    ensures Count(t, PrintAll(entries)) == CountEntries(t, entries)
  {
    hide Counts, IsCounted, Print, IsEntryText;
    if entries != [] {
      var n := |entries| - 1;
      EntriesAreCounted(t, entries[..n]);
      CountsIsRead(t, entries[n]);
      assert PrintAll(entries)[..n] == PrintAll(entries[..n]);
    }
  }

  lemma TotalIsStated(e: Entry, totals: RecordTotals)
    requires IsEntryText(e)
    ensures RewriteTotal(Print(e), totals) ==
              if e.Stated? then Print(Stated(e.total, Select(totals, e.total))) else Print(e)
  {
    hide Print, Select;
    if e.Other? {
      assert TotalOf(KeyOf(Print(e))).None? by { OtherStatesNothing(e); }
    } else {
      PrintedKey(e, "");
      if e.Stated? {
        TotalOfKey(e.total);
        assert Print(Stated(e.total, Select(totals, e.total)))
            == TotalKey(e.total) + ":" + NumberText.Decimal(Select(totals, e.total)) by { StatedText(e.total, Select(totals, e.total)); }
      } else {
        assert TotalOf(KeyFor(e)).None?;
      }
    }
  }

  lemma TotalOfKey(t: Total)
    ensures TotalOf(TotalKey(t)) == Some(t)
  {
  }

  lemma StatedText(t: Total, n: nat)
    ensures Print(Stated(t, n)) == TotalKey(t) + ":" + NumberText.Decimal(n)
  {
  }

  lemma OtherStatesNothing(e: Entry)
    requires e.Other? && IsEntryText(e)
    ensures TotalOf(KeyOf(Print(e))).None?
  {
  }

  /** Stripping a written record leaves exactly the entries outside the ranges, without the calls of
      functions declared inside, and states the totals that these entries have. */
  lemma StrippingWritten(entries: seq<Entry>, ranges: seq<Range>)
    requires AreEntryTexts(entries)
    ensures var staying := Staying(entries, ranges, NamesInside(entries, ranges));
            var out := StripRecord(PrintAll(entries), ranges);
            out.Some? && out.value.lines == PrintAll(Restated(staying, staying)) &&
            forall t :: Select(out.value.totals, t) == CountEntries(t, staying)
  {
    hide Print, IsEntryText, Decidable, Countable, Kept;
    hide Count, NamesInside, DroppedFunctions, RewriteTotal, CountEntries, Staying;
    var names := NamesInside(entries, ranges);
    var lines, staying := PrintAll(entries), Staying(entries, ranges, names);
    NamesAreDropped(entries, ranges);
    StayingAreKept(entries, ranges, names);
    forall line | line in lines ensures Decidable(line, ranges) {
      var k :| 0 <= k < |lines| && lines[k] == line;
      EntryIsDecided(entries[k], ranges);
    }
    forall line | line in PrintAll(staying) ensures Countable(line) {
      var k :| 0 <= k < |staying| && PrintAll(staying)[k] == line;
      assert staying[k] in staying;
      EntryIsDecided(staying[k], ranges);
    }
    var totals := Totals(PrintAll(staying));
    forall t ensures Select(totals, t) == CountEntries(t, staying) {
      SelectTotals(PrintAll(staying), t);
      EntriesAreCounted(t, staying);
    }
    forall k | 0 <= k < |staying|
      ensures RewriteTotal(PrintAll(staying)[k], totals) == PrintAll(Restated(staying, staying))[k]
    {
      assert staying[k] in staying;
      TotalIsStated(staying[k], totals);
    }
    assert Rewritten(PrintAll(staying), totals) == PrintAll(Restated(staying, staying));
  }
}
