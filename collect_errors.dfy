/**
 * collect_errors.py: every line containing "ERROR" in the `.log` files of a
 * directory becomes an entry "[file name] stripped line"; the entries are written
 * one per line to a report whose name carries the date and time.
 */
module CollectErrors {
  import opened Seqs
  import opened PyText
  import opened Numerals
  import opened Calendar

  /** A file of the log directory: its name and its decoded text. */
  datatype LogFile = LogFile(name: string, content: string)

  // ---------------------------------------------------------------- lines

  /**
   * Iterating over a text file: each line keeps its '\n'; a last line without
   * one is a line too.
   */
  function Lines(s: string): (r: seq<string>)
    ensures forall i :: 0 <= i < |r| ==> r[i] != []
    ensures forall i, j :: 0 <= i < |r| && 0 <= j < |r[i]| - 1 ==> r[i][j] != '\n'
    ensures forall i :: 0 <= i < |r| - 1 ==> r[i][|r[i]| - 1] == '\n'
    decreases |s|
  {
    if s == [] then []
    else
      var k := IndexOf(s, '\n');
      if k == |s| then [s]
      else
        var first := s[..k + 1];
        assert forall j :: 0 <= j < k ==> first[j] == s[..k][j];
        [first] + Lines(s[k + 1..])
  }

  /** The lines written back one after another. */
  function Join(lines: seq<string>): string {
    if lines == [] then "" else lines[0] + Join(lines[1..])
  }

  /** Splitting into lines loses nothing: joining them gives the text back. */
  lemma {:induction false} JoinLines(s: string)
    ensures Join(Lines(s)) == s
    decreases |s|
  {
    if s != [] {
      var k := IndexOf(s, '\n');
      if k == |s| {
        assert Join([s]) == s + Join([]);
      } else {
        var rest := s[k + 1..];
        JoinLines(rest);
        assert Lines(s) == [s[..k + 1]] + Lines(rest);
        assert ([s[..k + 1]] + Lines(rest))[1..] == Lines(rest);
        assert s == s[..k + 1] + rest;
      }
    }
  }

  // ---------------------------------------------------------------- entries

  /** `"ERROR" in line`: a case-sensitive substring test. */
  predicate HasMarker(line: string)
    ensures HasMarker(line) ==> |line| >= 5
  {
    Contains(line, "ERROR")
  }

  /** `glob("*.log")` keeps the names ending in ".log" (collect_errors.py:20). */
  predicate IsLogName(name: string) {
    EndsWith(name, ".log")
  }

  /** The same test on a listed file (collect_errors.py:20). */
  predicate IsLogFile(f: LogFile) {
    IsLogName(f.name)
  }

  /** The files the glob yields, in the listing's order. */
  function Glob(listing: seq<LogFile>): (r: seq<LogFile>)
    ensures forall i :: 0 <= i < |r| ==> r[i] in listing && IsLogName(r[i].name)
    ensures forall i :: 0 <= i < |listing| && IsLogName(listing[i].name) ==> listing[i] in r
  {
    Filter(listing, IsLogFile)
  }

  /** `f"[{log_file.name}] {line.strip()}"` */
  function Entry(name: string, line: string): (r: string)
    ensures |name| + 3 <= |r| <= |name| + 3 + |line|
    ensures r[..|name| + 3] == "[" + name + "] "
    ensures var rest := r[|name| + 3..]; rest == [] || (!IsSpace(rest[0]) && !IsSpace(rest[|rest| - 1]))
  {
    "[" + name + "] " + Strip(line)
  }

  /** The entries of one file's lines, in line order. */
  function FileEntries(name: string, lines: seq<string>): (r: seq<string>)
    ensures |r| <= |lines|
    ensures forall i :: 0 <= i < |r| ==> |name| + 3 <= |r[i]| && r[i][..|name| + 3] == "[" + name + "] "
  {
    if lines == [] then []
    else
      var last := lines[|lines| - 1];
      FileEntries(name, lines[..|lines| - 1]) + (if HasMarker(last) then [Entry(name, last)] else [])
  }

  /** The entries of the scanned files, file by file in visiting order. */
  function Entries(files: seq<LogFile>): (r: seq<string>)
    ensures forall i :: 0 <= i < |r| ==> exists k ::
      && 0 <= k < |files| && |files[k].name| + 3 <= |r[i]|
      && r[i][..|files[k].name| + 3] == "[" + files[k].name + "] "
  {
    if files == [] then []
    else
      var last := files[|files| - 1];
      Entries(files[..|files| - 1]) + FileEntries(last.name, Lines(last.content))
  }

  /** One more line scanned adds its entry, if it has the marker. */
  lemma FileEntriesStep(name: string, lines: seq<string>, j: nat)
    requires j < |lines|
    ensures FileEntries(name, lines[..j + 1])
         == FileEntries(name, lines[..j]) + (if HasMarker(lines[j]) then [Entry(name, lines[j])] else [])
  {
    assert lines[..j + 1][..j] == lines[..j];
  }

  /** One more file scanned adds its entries. */
  lemma EntriesStep(files: seq<LogFile>, i: nat)
    requires i < |files|
    ensures Entries(files[..i + 1]) == Entries(files[..i]) + FileEntries(files[i].name, Lines(files[i].content))
  {
    assert files[..i + 1][..i] == files[..i];
  }

  /** The two nested loops that append to `errors`, over the files the glob yields. */
  method Collect(listing: seq<LogFile>) returns (errors: seq<string>)
    ensures errors == Entries(Glob(listing))
  {
    var logs := Glob(listing);
    errors := [];
    var i := 0;
    while i < |logs|
      invariant 0 <= i <= |logs|
      invariant errors == Entries(logs[..i])
    {
      errors := AppendEntries(errors, logs[i].name, Lines(logs[i].content));
      EntriesStep(logs, i);
      i := i + 1;
    }
    assert logs[..i] == logs;
  }

  /** The inner loop over one file's lines: each line with the marker appends its entry. */
  method AppendEntries(errors: seq<string>, name: string, lines: seq<string>) returns (extended: seq<string>)
    ensures extended == errors + FileEntries(name, lines)
  {
    extended := errors;
    var j := 0;
    while j < |lines|
      invariant 0 <= j <= |lines|
      invariant extended == errors + FileEntries(name, lines[..j])
    {
      FileEntriesStep(name, lines, j);
      if HasMarker(lines[j]) {
        extended := extended + [Entry(name, lines[j])];
      }
      j := j + 1;
    }
    assert lines[..j] == lines;
  }

  /** One entry per matching line, in line order. */
  function EntriesOf(name: string, matching: seq<string>): (r: seq<string>)
    ensures |r| == |matching|
  {
    seq(|matching|, i requires 0 <= i < |matching| => Entry(name, matching[i]))
  }

  /** A file's entries are exactly its matching lines, each formatted, in order. */
  lemma {:induction false} FileEntriesAreFiltered(name: string, lines: seq<string>)
    ensures FileEntries(name, lines) == EntriesOf(name, Filter(lines, HasMarker))
  {
    if lines != [] {
      var init, last := lines[..|lines| - 1], lines[|lines| - 1];
      assert lines == init + [last];
      FileEntriesAreFiltered(name, init);
      FilterConcat(init, [last], HasMarker);
      FilterSingleton(last, HasMarker);
    }
  }

  /** How many lines of the scanned files contain the marker. */
  function MatchCount(files: seq<LogFile>): nat {
    if files == [] then 0
    else MatchCount(files[..|files| - 1]) + |Filter(Lines(files[|files| - 1].content), HasMarker)|
  }

  /** `len(errors)` is the number of matching lines. */
  lemma {:induction false} EntriesCount(files: seq<LogFile>)
    ensures |Entries(files)| == MatchCount(files)
  {
    if files != [] {
      var last := files[|files| - 1];
      EntriesCount(files[..|files| - 1]);
      FileEntriesAreFiltered(last.name, Lines(last.content));
    }
  }

  /** An entry is the bracketed name, a space, and the stripped line, which still holds "ERROR". */
  lemma EntryShape(name: string, line: string)
    requires HasMarker(line)
    ensures var rest := Strip(line);
      && Entry(name, line) == "[" + name + "] " + rest
      && Contains(rest, "ERROR")
      && !IsSpace(rest[0]) && !IsSpace(rest[|rest| - 1])
  {
    var i: nat :| i <= |line| && OccursAt(line, "ERROR", i);
    StripKeepsWord(line, "ERROR", i);
    var rest := Strip(line);
    assert rest != [] by {
      var k: nat :| k <= |rest| && OccursAt(rest, "ERROR", k);
    }
  }

  /** The marker is case-sensitive: a line with "error" alone yields no entry. */
  lemma LowerCaseIsNoMarker()
    ensures !HasMarker("error\n")
  {
    forall i: nat | i <= |"error\n"| ensures !OccursAt("error\n", "ERROR", i) {
      if i + 5 <= 6 {
        assert "error\n"[i] != 'E';
      }
    }
  }

  // ---------------------------------------------------------------- report

  /** What the writing loop produces: each entry followed by '\n'. */
  function ReportText(errors: seq<string>): (r: string)
    ensures r == [] <==> errors == []
    ensures r != [] ==> r[|r| - 1] == '\n'
  {
    if errors == [] then "" else errors[0] + "\n" + ReportText(errors[1..])
  }

  lemma {:induction false} ReportTextAppend(errors: seq<string>, e: string)
    ensures ReportText(errors + [e]) == ReportText(errors) + e + "\n"
  {
    if errors == [] {
      assert [e][1..] == [];
    } else {
      assert (errors + [e])[1..] == errors[1..] + [e];
      ReportTextAppend(errors[1..], e);
    }
  }

  /** The writing loop: the report is written entry by entry. */
  method WriteReport(errors: seq<string>) returns (text: string)
    ensures text == ReportText(errors)
  {
    text := "";
    var i := 0;
    while i < |errors|
      invariant 0 <= i <= |errors|
      invariant text == ReportText(errors[..i])
    {
      ReportTextAppend(errors[..i], errors[i]);
      assert errors[..i + 1] == errors[..i] + [errors[i]];
      text := text + errors[i] + "\n";
      i := i + 1;
    }
    assert errors[..i] == errors;
  }

  /** The first '\n' after a prefix without one. */
  lemma {:induction false} IndexOfAfter(a: string, b: string, c: char)
    requires c !in a
    ensures IndexOf(a + b, c) == |a| + IndexOf(b, c)
  {
    if a != [] {
      assert (a + b)[1..] == a[1..] + b;
      IndexOfAfter(a[1..], b, c);
    } else {
      assert a + b == b;
    }
  }

  /** When no entry holds a '\n', the report reads back as one line per entry. */
  lemma {:induction false} ReportLines(errors: seq<string>)
    requires forall i :: 0 <= i < |errors| ==> '\n' !in errors[i]
    ensures Lines(ReportText(errors)) == seq(|errors|, i requires 0 <= i < |errors| => errors[i] + "\n")
  {
    if errors != [] {
      var e, rest := errors[0], ReportText(errors[1..]);
      assert ReportText(errors) == e + ("\n" + rest);
      LinesStep(e, rest);
      ReportLines(errors[1..]);
      TerminatedCons(errors);
    }
  }

  /** Each entry followed by '\n': the first one, then the others. */
  lemma TerminatedCons(errors: seq<string>)
    requires errors != []
    ensures seq(|errors|, i requires 0 <= i < |errors| => errors[i] + "\n")
         == [errors[0] + "\n"] + seq(|errors| - 1, i requires 0 <= i < |errors| - 1 => errors[1..][i] + "\n")
  {
  }

  /** A first line without '\n' before its end is split off whole. */
  lemma LinesStep(e: string, rest: string)
    requires '\n' !in e
    ensures Lines(e + ("\n" + rest)) == [e + "\n"] + Lines(rest)
  {
    var x := e + ("\n" + rest);
    IndexOfAfter(e, "\n" + rest, '\n');
    CutAfterNewline(e, rest);
    assert Lines(x) == [x[..|e| + 1]] + Lines(x[|e| + 1..]);
  }

  /** The two pieces of a text cut just after the '\n' that follows `e`. */
  lemma CutAfterNewline(e: string, rest: string)
    ensures var x := e + ("\n" + rest);
      |e| < |x| && x[|e|] == '\n' && x[..|e| + 1] == e + "\n" && x[|e| + 1..] == rest
  {
  }

  /** A stripped line holds no '\n', so an entry holds one only if the file name does. */
  lemma EntryHasNoNewline(name: string, line: string)
    requires '\n' !in name
    requires forall j :: 0 <= j < |line| - 1 ==> line[j] != '\n'
    ensures '\n' !in Entry(name, line)
  {
  }

  /** The entries of a file whose name holds no '\n' hold none either. */
  lemma {:induction false} FileEntriesHaveNoNewline(name: string, lines: seq<string>)
    requires '\n' !in name
    requires forall i, j :: 0 <= i < |lines| && 0 <= j < |lines[i]| - 1 ==> lines[i][j] != '\n'
    ensures forall i :: 0 <= i < |FileEntries(name, lines)| ==> '\n' !in FileEntries(name, lines)[i]
  {
    if lines != [] {
      var last := lines[|lines| - 1];
      FileEntriesHaveNoNewline(name, lines[..|lines| - 1]);
      EntryHasNoNewline(name, last);
    }
  }

  lemma {:induction false} EntriesHaveNoNewline(files: seq<LogFile>)
    requires forall f :: f in files ==> '\n' !in f.name
    ensures forall i :: 0 <= i < |Entries(files)| ==> '\n' !in Entries(files)[i]
  {
    if files != [] {
      var last := files[|files| - 1];
      EntriesHaveNoNewline(files[..|files| - 1]);
      FileEntriesHaveNoNewline(last.name, Lines(last.content));
    }
  }

  /** With file names free of '\n', the report written from the collected entries has one line per entry. */
  lemma ReportHasLinePerEntry(listing: seq<LogFile>)
    requires forall f :: f in listing ==> '\n' !in f.name
    ensures var errors := Entries(Glob(listing));
      Lines(ReportText(errors)) == seq(|errors|, i requires 0 <= i < |errors| => errors[i] + "\n")
  {
    EntriesHaveNoNewline(Glob(listing));
    ReportLines(Entries(Glob(listing)));
  }

  // ---------------------------------------------------------------- report name

  /** The fields of `datetime.now()`. */
  datatype Clock = Clock(year: nat, month: nat, day: nat, hour: nat, minute: nat, second: nat)

  /** A clock reading with a four-digit year. */
  predicate ValidClock(c: Clock) {
    1000 <= c.year <= 9999 && ValidDate(CalendarDate(c.year, c.month, c.day))
    && c.hour < 24 && c.minute < 60 && c.second < 60
  }

  /** The timestamp: `%Y%m%d-%H%M%S`. */
  function Timestamp(c: Clock): (r: string)
    requires ValidClock(c)
    ensures |r| == 15 && r[8] == '-'
  {
    Digits(c.year, 4) + Digits(c.month, 2) + Digits(c.day, 2) + "-"
    + Digits(c.hour, 2) + Digits(c.minute, 2) + Digits(c.second, 2)
  }

  /** The timestamp's digit fields read back as the clock's fields. */
  lemma TimestampReadsBack(c: Clock)
    requires ValidClock(c)
    ensures var r := Timestamp(c);
      && AllDigits(r[..8]) && AllDigits(r[9..])
      && Value(r[..4]) == c.year && Value(r[4..6]) == c.month && Value(r[6..8]) == c.day
      && Value(r[9..11]) == c.hour && Value(r[11..13]) == c.minute && Value(r[13..]) == c.second
  {
    var y, mo, d := Digits(c.year, 4), Digits(c.month, 2), Digits(c.day, 2);
    var h, mi, s := Digits(c.hour, 2), Digits(c.minute, 2), Digits(c.second, 2);
    var r := Timestamp(c);
    assert r == y + mo + d + "-" + h + mi + s;
    assert r[..4] == y && r[4..6] == mo && r[6..8] == d;
    assert r[9..11] == h && r[11..13] == mi && r[13..] == s;
    assert r[..8] == y + mo + d && r[9..] == h + mi + s;
  }

  /** `f"errors_{timestamp}.log"`. */
  function ReportName(c: Clock): (r: string)
    requires ValidClock(c)
    ensures |r| == 26 && r[..7] == "errors_" && r[7..22] == Timestamp(c) && EndsWith(r, ".log")
  {
    var r := "errors_" + Timestamp(c) + ".log";
    assert r[7..22] == Timestamp(c);
    r
  }

  /** Two readings give the same report name only if they are the same reading. */
  lemma ReportNameInjective(c: Clock, d: Clock)
    requires ValidClock(c) && ValidClock(d) && ReportName(c) == ReportName(d)
    ensures c == d
  {
    TimestampReadsBack(c);
    TimestampReadsBack(d);
    assert Timestamp(c) == Timestamp(d);
  }
}
