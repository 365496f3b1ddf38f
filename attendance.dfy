/**
 * The attendance log (app.py): the CSV line `record_attendance` appends for
 * an accepted verification, and `read_attendance`, which turns the lines of
 * the file back into rows for the dashboard.
 */
module Attendance {
  import opened Wrappers
  import opened Text
  import opened Names

  /** A reading of the local clock (`datetime.now()`), supplied by the caller. */
  datatype Timestamp = Timestamp(year: nat, month: nat, day: nat, hour: nat, minute: nat, second: nat)

  /** `str(ts.date())`: `%04d-%02d-%02d`. */
  function DateText(ts: Timestamp): string
  {
    ZeroPad(ts.year, 4) + "-" + ZeroPad(ts.month, 2) + "-" + ZeroPad(ts.day, 2)
  }

  /** `ts.time().strftime("%H:%M:%S")`. */
  function TimeText(ts: Timestamp): string
  {
    ZeroPad(ts.hour, 2) + ":" + ZeroPad(ts.minute, 2) + ":" + ZeroPad(ts.second, 2)
  }

  /**
   * The date and time fields hold no comma and no line break; the date does
   * not start, and the time does not end, with whitespace.
   */
  lemma DateTimeTextShape(ts: Timestamp)
    ensures ',' !in DateText(ts) && ',' !in TimeText(ts)
    ensures '\n' !in DateText(ts) && '\r' !in DateText(ts) && '\n' !in TimeText(ts) && '\r' !in TimeText(ts)
    ensures DateText(ts) != [] && !IsSpace(DateText(ts)[0])
    ensures TimeText(ts) != [] && !IsSpace(TimeText(ts)[|TimeText(ts)| - 1])
  {
    DigitFieldsShape(ZeroPad(ts.year, 4), ZeroPad(ts.month, 2), ZeroPad(ts.day, 2), '-');
    DigitFieldsShape(ZeroPad(ts.hour, 2), ZeroPad(ts.minute, 2), ZeroPad(ts.second, 2), ':');
  }

  /**
   * Digit fields joined by a separator other than a comma or a line break
   * hold no comma and no line break, and start and end with a digit.
   */
  lemma DigitFieldsShape(a: string, b: string, c: string, sep: char)
    requires sep != ',' && sep != '\n' && sep != '\r' && a != [] && c != []
    requires forall i :: 0 <= i < |a| ==> IsDigit(a[i])
    requires forall i :: 0 <= i < |b| ==> IsDigit(b[i])
    requires forall i :: 0 <= i < |c| ==> IsDigit(c[i])
    ensures var t := a + [sep] + b + [sep] + c;
            ',' !in t && '\n' !in t && '\r' !in t && !IsSpace(t[0]) && !IsSpace(t[|t| - 1])
  {
    var t := a + [sep] + b + [sep] + c;
    forall i | 0 <= i < |t| ensures IsDigit(t[i]) || t[i] == sep {
      if i < |a| {
        assert t[i] == a[i];
      } else if |a| < i <= |a| + |b| {
        assert t[i] == b[i - |a| - 1];
      } else if i > |a| + |b| + 1 {
        assert t[i] == c[i - |a| - |b| - 2];
      }
    }
  }

  lemma DigitsHaveNo(s: string, c: char)
    requires !IsDigit(c)
    requires forall i :: 0 <= i < |s| ==> IsDigit(s[i])
    ensures c !in s
  {
  }

  /** Three digit strings joined by a non-digit separator split back into those three. */
  lemma SplitDigitFields(a: string, b: string, c: string, sep: char)
    requires !IsDigit(sep)
    requires forall i :: 0 <= i < |a| ==> IsDigit(a[i])
    requires forall i :: 0 <= i < |b| ==> IsDigit(b[i])
    requires forall i :: 0 <= i < |c| ==> IsDigit(c[i])
    ensures Split(a + [sep] + b + [sep] + c, sep) == [a, b, c]
  {
    DigitsHaveNo(a, sep); DigitsHaveNo(b, sep); DigitsHaveNo(c, sep);
    JoinThree(a, b, c, sep);
    SplitJoin([a, b, c], sep);
  }

  /**
   * The date splits on `-` into the year, month and day, zero-padded to at
   * least four, two and two digits, each denoting the clock's value.
   */
  lemma DateTextFields(ts: Timestamp)
    ensures var f := Split(DateText(ts), '-');
            && f == [ZeroPad(ts.year, 4), ZeroPad(ts.month, 2), ZeroPad(ts.day, 2)]
            && |f[0]| >= 4 && |f[1]| >= 2 && |f[2]| >= 2
            && DigitsValue(f[0]) == ts.year && DigitsValue(f[1]) == ts.month && DigitsValue(f[2]) == ts.day
  {
    SplitDigitFields(ZeroPad(ts.year, 4), ZeroPad(ts.month, 2), ZeroPad(ts.day, 2), '-');
  }

  /**
   * The time splits on `:` into the hour, minute and second, zero-padded to
   * at least two digits each, each denoting the clock's value.
   */
  lemma TimeTextFields(ts: Timestamp)
    ensures var f := Split(TimeText(ts), ':');
            && f == [ZeroPad(ts.hour, 2), ZeroPad(ts.minute, 2), ZeroPad(ts.second, 2)]
            && |f[0]| >= 2 && |f[1]| >= 2 && |f[2]| >= 2
            && DigitsValue(f[0]) == ts.hour && DigitsValue(f[1]) == ts.minute && DigitsValue(f[2]) == ts.second
  {
    SplitDigitFields(ZeroPad(ts.hour, 2), ZeroPad(ts.minute, 2), ZeroPad(ts.second, 2), ':');
  }

  /** The line `record_attendance` appends: `name,date,time` and a newline. */
  function FormatLine(name: string, ts: Timestamp): string
  {
    name + "," + DateText(ts) + "," + TimeText(ts) + "\n"
  }

  /** One row of the dashboard table. */
  datatype Row = Row(name: string, date: string, time: string)

  /**
   * A join of three or more pieces is the first three joined, followed by
   * nothing when there are exactly three and by a separator otherwise.
   */
  lemma JoinThreeOrMore(parts: seq<string>, sep: char)
    requires |parts| >= 3
    ensures var p := parts[0] + [sep] + parts[1] + [sep] + parts[2];
            && StartsWith(Join(parts, sep), p)
            && (|parts| == 3 <==> Join(parts, sep) == p)
            && (|parts| > 3 ==> |Join(parts, sep)| > |p| && Join(parts, sep)[|p|] == sep)
  {
    var p := parts[0] + [sep] + parts[1] + [sep] + parts[2];
    var tail := parts[2..];
    assert parts[1..][1..] == tail;
    assert Join(parts, sep) == parts[0] + [sep] + (parts[1] + [sep] + Join(tail, sep));
    if |parts| == 3 {
      assert Join(tail, sep) == parts[2];
    } else {
      assert tail[1..] == parts[3..];
      assert Join(tail, sep) == parts[2] + [sep] + Join(parts[3..], sep);
      assert Join(parts, sep) == p + [sep] + Join(parts[3..], sep);
      assert Join(parts, sep)[|p|] == sep;
    }
  }

  /**
   * One iteration of `read_attendance`: strip the line, split it on commas,
   * and take the first three fields when there are at least three.
   */
  function ParseLine(line: string): Option<Row>
  {
    var parts := Split(Strip(line), ',');
    if |parts| >= 3 then Some(Row(parts[0], parts[1], parts[2])) else None
  }

  /**
   * A line gives no row exactly when its stripped text has fewer than two
   * commas; a row's fields hold no comma and are the first three fields of
   * the stripped line, in order: the whole of it when it has exactly two
   * commas, and otherwise followed by the next comma.
   */
  lemma ParseLineFields(line: string)
    ensures var r := ParseLine(line);
            && (r.None? <==> Count(Strip(line), ',') < 2)
            && (r.Some? ==> ',' !in r.value.name && ',' !in r.value.date && ',' !in r.value.time)
            && (r.Some? ==> StartsWith(Strip(line), r.value.name + "," + r.value.date + "," + r.value.time))
            && (r.Some? ==> (var p := r.value.name + "," + r.value.date + "," + r.value.time;
                             (Count(Strip(line), ',') == 2 <==> Strip(line) == p)
                             && (Count(Strip(line), ',') > 2 ==> |Strip(line)| > |p| && Strip(line)[|p|] == ',')))
  {
    var parts := Split(Strip(line), ',');
    if |parts| >= 3 {
      JoinSplit(Strip(line), ',');
      JoinThreeOrMore(parts, ',');
    }
  }

  /**
   * A name that survives the line format: no comma, no line break (reading the
   * file in text mode ends a line at `\n`, `\r` or `\r\n`), and no
   * whitespace where `strip` would eat it.
   */
  predicate Recordable(name: string)
  {
    ',' !in name && '\n' !in name && '\r' !in name && (name == [] || !IsSpace(name[0]))
  }

  /** A recorded line reads back as the name, date and time that were written. */
  lemma ParseFormatRoundTrip(name: string, ts: Timestamp)
    requires Recordable(name)
    ensures ParseLine(FormatLine(name, ts)) == Some(Row(name, DateText(ts), TimeText(ts)))
  {
    StripFormatLine(name, ts);
    SplitRecordedFields(name, DateText(ts), TimeText(ts)) by {
      DateTimeTextShape(ts);
    }
  }

  /** The text of a recorded line splits on commas into its three fields. */
  lemma SplitRecordedFields(name: string, date: string, time: string)
    requires ',' !in name && ',' !in date && ',' !in time
    ensures Split(name + "," + date + "," + time, ',') == [name, date, time]
  {
    var fields := [name, date, time];
    JoinThree(name, date, time, ',');
    SplitJoin(fields, ',');
  }

  /** `strip` removes exactly the newline of a recorded line. */
  lemma StripFormatLine(name: string, ts: Timestamp)
    requires Recordable(name)
    ensures Strip(FormatLine(name, ts)) == name + "," + DateText(ts) + "," + TimeText(ts)
  {
    var date, time := DateText(ts), TimeText(ts);
    DateTimeTextShape(ts);
    var core := name + "," + date + "," + time;
    assert core[|core| - 1] == time[|time| - 1];
    assert core[0] == (if name == [] then ',' else name[0]);
    StripNewline(core);
  }

  /** A line ending in a newline, with no whitespace at either end of the rest, strips to the rest. */
  lemma StripNewline(core: string)
    requires core != [] && !IsSpace(core[0]) && !IsSpace(core[|core| - 1])
    ensures Strip(core + "\n") == core
  {
    var line := core + "\n";
    assert line[0] == core[0];
    assert TrimStart(line) == line;
    assert line[..|line| - 1] == core;
  }

  lemma JoinThree(a: string, b: string, c: string, sep: char)
    ensures Join([a, b, c], sep) == a + [sep] + b + [sep] + c
  {
    assert [a, b, c][1..] == [b, c] && [b, c][1..] == [c];
    assert Join([b, c], sep) == b + [sep] + c;
  }

  /** Sanitized student names are recordable. */
  lemma SanitizedNameIsRecordable(name: string)
    ensures Recordable(Sanitize(name))
  {
    NameCharsAreRecordable(Sanitize(name));
  }

  lemma NameCharsAreRecordable(s: string)
    requires forall i :: 0 <= i < |s| ==> IsNameChar(s[i])
    ensures Recordable(s)
  {
    forall i | 0 <= i < |s| ensures s[i] != ',' && s[i] != '\n' && s[i] != '\r' {
      assert IsNameChar(s[i]);
    }
    if s != [] {
      assert IsNameChar(s[0]);
    }
  }

  /** The values of the present options, in order. */
  function Present<T>(xs: seq<Option<T>>): (vs: seq<T>)
    ensures |vs| <= |xs|
  {
    if xs == [] then []
    else
      var vs := Present(xs[..|xs| - 1]);
      match xs[|xs| - 1]
      case Some(v) => vs + [v]
      case None => vs
  }

  lemma PresentStep<T>(xs: seq<Option<T>>, i: nat)
    requires i < |xs|
    ensures Present(xs[..i + 1]) == Present(xs[..i]) + (if xs[i].Some? then [xs[i].value] else [])
  {
    assert xs[..i + 1][..i] == xs[..i];
  }

  /** What each line parses to. */
  function Parsed(lines: seq<string>): seq<Option<Row>>
  {
    seq(|lines|, i requires 0 <= i < |lines| => ParseLine(lines[i]))
  }

  /** The rows `read_attendance` collects from the given lines, in order. */
  function Rows(lines: seq<string>): (rows: seq<Row>)
    ensures |rows| <= |lines|
  {
    Present(Parsed(lines))
  }

  /** A line break as reading in text mode sees it. */
  predicate IsBreak(c: char)
  {
    c == '\n' || c == '\r'
  }

  /**
   * The first line that iterating over a file opened in text mode yields from
   * its content `s`, and the content after it. A line runs to the first
   * `\n`, `\r` or `\r\n`, which it ends with as `\n`; a last line without
   * a break is yielded as it is.
   */
  function FirstLine(s: string): (r: (string, string))
    requires s != []
    ensures r.0 != [] && |r.1| < |s| && r.1 == s[|s| - |r.1|..]
  {
    if s[0] == '\n' then ("\n", s[1..])
    else if s[0] == '\r' then ("\n", if |s| > 1 && s[1] == '\n' then s[2..] else s[1..])
    else if |s| == 1 then (s, [])
    else
      var r := FirstLine(s[1..]);
      ([s[0]] + r.0, r.1)
  }

  /** The lines `for line in f` yields from a file whose content is `s`. */
  function FileLines(s: string): seq<string>
    decreases |s|
  {
    if s == [] then [] else [FirstLine(s).0] + FileLines(FirstLine(s).1)
  }

  /**
   * `read_attendance`: no rows when the file does not exist, otherwise one
   * row per line that has at least three fields. A read error after the
   * first `readable` lines ends the loop, and the rows collected so far are
   * returned; `readable` at least the number of lines means no error.
   */
  method ReadAttendance(fileExists: bool, content: string, readable: nat) returns (rows: seq<Row>)
    ensures !fileExists ==> rows == []
    ensures fileExists && readable >= |FileLines(content)| ==> rows == Rows(FileLines(content))
    ensures fileExists && readable < |FileLines(content)| ==> rows == Rows(FileLines(content)[..readable])
  {
    rows := [];
    if fileExists {
      var lines := FileLines(content);
      var n := if readable < |lines| then readable else |lines|;
      ghost var ps := Parsed(lines);
      var i := 0;
      while i < n
        invariant 0 <= i <= n
        invariant rows == Present(ps[..i])
      {
        var parsed := ParseLine(lines[i]);
        PresentStep(ps, i);
        if parsed.Some? {
          rows := rows + [parsed.value];
        }
        i := i + 1;
      }
      assert ps[..n] == Parsed(lines[..n]);
      assert lines[..|lines|] == lines;
    }
  }

  /** A parsable line appended to the file adds its row at the end. */
  lemma RowsSnoc(lines: seq<string>, line: string, row: Row)
    requires ParseLine(line) == Some(row)
    ensures Rows(lines + [line]) == Rows(lines) + [row]
  {
    var ps := Parsed(lines + [line]);
    assert ps[..|lines|] == Parsed(lines);
    PresentStep(ps, |lines|);
    assert ps[..|lines| + 1] == ps;
  }

  /** Content that ends with a line break, or is empty: what is appended next starts a new line. */
  predicate Terminated(s: string)
  {
    s == [] || IsBreak(s[|s| - 1])
  }

  /**
   * Appending after a line break leaves the first line alone; only a `\n`
   * right after a final `\r` would join it (`\r\n`).
   */
  lemma {:induction false} FirstLineAppend(a: string, b: string)
    requires a != [] && Terminated(a) && (b == [] || b[0] != '\n')
    ensures FirstLine(a + b) == (FirstLine(a).0, FirstLine(a).1 + b)
    ensures Terminated(FirstLine(a).1)
  {
    var ab := a + b;
    if a[0] == '\n' {
      assert ab[1..] == a[1..] + b;
    } else if a[0] == '\r' {
      if |a| > 1 {
        assert ab[1] == a[1];
        assert ab[1..] == a[1..] + b && ab[2..] == a[2..] + b;
      } else {
        assert ab[1..] == b;
      }
    } else {
      assert ab[1..] == a[1..] + b;
      FirstLineAppend(a[1..], b);
    }
  }

  /**
   * Universal newlines: a line ends at `\n`, `\r\n` or a `\r` not followed
   * by `\n`, and is yielded ending in `\n` whichever break it had.
   */
  lemma {:induction false} FirstLineAtBreak(a: string, brk: string, b: string)
    requires '\n' !in a && '\r' !in a
    requires brk == "\n" || brk == "\r\n" || (brk == "\r" && (b == [] || b[0] != '\n'))
    ensures FirstLine(a + brk + b) == (a + "\n", b)
  {
    var s := a + brk + b;
    if a == [] {
      assert s == brk + b && a + "\n" == "\n";
      if brk == "\r\n" {
        assert s[0] == '\r' && |s| > 1 && s[1] == '\n';
        assert s[2..] == b;
      } else {
        assert s[1..] == b;
      }
    } else {
      assert a[0] in a && s[0] == a[0];
      assert s[1..] == a[1..] + brk + b;
      assert forall c :: c in a[1..] ==> c in a;
      FirstLineAtBreak(a[1..], brk, b);
      assert [a[0]] + (a[1..] + "\n") == a + "\n";
    }
  }

  /** The lines of a terminated content followed by more content are the lines of each. */
  lemma {:induction false} FileLinesAppend(a: string, b: string)
    requires Terminated(a) && (b == [] || b[0] != '\n')
    ensures FileLines(a + b) == FileLines(a) + FileLines(b)
    decreases |a|
  {
    if a == [] {
      assert a + b == b;
    } else {
      var line, rest := FirstLine(a).0, FirstLine(a).1;
      FirstLineAppend(a, b);
      FileLinesAppend(rest, b);
      ConsAppend(FileLines(a + b), FileLines(a), line, FileLines(rest + b), FileLines(rest), FileLines(b)) by {
        FileLinesCons(a + b);
        FileLinesCons(a);
      }
    }
  }

  lemma ConsAppend(x: seq<string>, v: seq<string>, l: string, y: seq<string>, z: seq<string>, w: seq<string>)
    requires x == [l] + y && y == z + w && v == [l] + z
    ensures x == v + w
  {
  }

  lemma FileLinesCons(s: string)
    requires s != []
    ensures FileLines(s) == [FirstLine(s).0] + FileLines(FirstLine(s).1)
  {
  }

  /** Content without a break, then a newline, is a single line. */
  lemma {:induction false} OneLine(core: string)
    requires '\n' !in core && '\r' !in core
    ensures FirstLine(core + "\n") == (core + "\n", [])
    ensures FileLines(core + "\n") == [core + "\n"]
  {
    var s := core + "\n";
    if core == [] {
      assert s == "\n" && s[1..] == [];
      assert FirstLine(s) == (s, []);
    } else {
      assert core[0] in core && s[0] == core[0];
      assert s[0] != '\n' && s[0] != '\r' && |s| > 1;
      assert s[1..] == core[1..] + "\n";
      assert forall c :: c in core[1..] ==> c in core;
      OneLine(core[1..]);
      assert FirstLine(s[1..]) == (core[1..] + "\n", []);
      assert [core[0]] + (core[1..] + "\n") == s;
      assert FirstLine(s) == (s, []);
    }
    assert FileLines(s) == [s] + FileLines([]);
  }

  /** A recorded line for a name without line breaks is read as one line. */
  lemma FormatLineIsOneLine(name: string, ts: Timestamp)
    requires '\n' !in name && '\r' !in name
    ensures FileLines(FormatLine(name, ts)) == [FormatLine(name, ts)]
    ensures FormatLine(name, ts)[0] != '\n' && Terminated(FormatLine(name, ts))
  {
    var core := name + "," + DateText(ts) + "," + TimeText(ts);
    DateTimeTextShape(ts);
    assert '\n' !in core && '\r' !in core;
    assert FormatLine(name, ts) == core + "\n";
    assert core[0] == (if name == [] then ',' else name[0]);
    OneLine(core);
  }

  /** Recording on a file that ends with a line break adds exactly the recorded row. */
  lemma RowsAfterRecord(content: string, rec: Record)
    requires Terminated(content) && Recordable(rec.name)
    ensures Rows(FileLines(content + FormatLine(rec.name, rec.at))) == Rows(FileLines(content)) + [RecordRow(rec)]
  {
    var line := FormatLine(rec.name, rec.at);
    FormatLineIsOneLine(rec.name, rec.at);
    FileLinesAppend(content, line);
    ParseFormatRoundTrip(rec.name, rec.at);
    RowsSnoc(FileLines(content), line, RecordRow(rec));
  }

  /**
   * Recording on a file whose only line has no line break continues that
   * line: the file still reads as a single line, so no new line is added.
   */
  lemma RecordJoinsUnterminatedLine(content: string, name: string, ts: Timestamp)
    requires '\n' !in content && '\r' !in content
    requires '\n' !in name && '\r' !in name
    ensures FileLines(content + FormatLine(name, ts)) == [content + FormatLine(name, ts)]
  {
    var core := name + "," + DateText(ts) + "," + TimeText(ts);
    DateTimeTextShape(ts);
    assert FormatLine(name, ts) == core + "\n";
    assert content + FormatLine(name, ts) == (content + core) + "\n";
    OneLine(content + core);
  }

  /**
   * Recording on a file whose last line has no line break, after any number
   * of terminated lines: the earlier lines are read as before, and the
   * recorded text continues the last one instead of starting a line.
   */
  lemma RecordJoinsLastLine(pre: string, last: string, name: string, ts: Timestamp)
    requires Terminated(pre)
    requires '\n' !in last && '\r' !in last
    requires '\n' !in name && '\r' !in name
    ensures FileLines(pre + last + FormatLine(name, ts)) == FileLines(pre) + [last + FormatLine(name, ts)]
  {
    var tail := last + FormatLine(name, ts);
    assert pre + last + FormatLine(name, ts) == pre + tail;
    RecordJoinsUnterminatedLine(last, name, ts);
    FileLinesAppend(pre, tail) by {
      FormatLineIsOneLine(name, ts);
      if last != [] {
        assert last[0] in last && tail[0] == last[0];
      }
    }
  }

  /** One accepted verification as written: who, and when. */
  datatype Record = Record(name: string, at: Timestamp)

  /** The file content a sequence of recordings writes, starting from an empty file. */
  function LogText(recs: seq<Record>): (s: string)
    ensures Terminated(s)
  {
    if recs == [] then []
    else
      var last := recs[|recs| - 1];
      var s := LogText(recs[..|recs| - 1]) + FormatLine(last.name, last.at);
      assert s[|s| - 1] == '\n';
      s
  }

  /** The row a record should read back as. */
  function RecordRow(rec: Record): Row
  {
    Row(rec.name, DateText(rec.at), TimeText(rec.at))
  }

  /** The rows a sequence of records should read back as: one per record, in order. */
  function RecordRows(recs: seq<Record>): seq<Row>
  {
    if recs == [] then [] else RecordRows(recs[..|recs| - 1]) + [RecordRow(recs[|recs| - 1])]
  }

  /** Reading back a file written by recordings gives one row per record, in order, with the same fields. */
  lemma {:induction false} ReadBackRecords(recs: seq<Record>)
    requires forall i :: 0 <= i < |recs| ==> Recordable(recs[i].name)
    ensures Rows(FileLines(LogText(recs))) == RecordRows(recs)
  {
    if recs == [] {
      assert FileLines([]) == [];
    } else {
      var init := recs[..|recs| - 1];
      var last := recs[|recs| - 1];
      assert recs == init + [last];
      forall i | 0 <= i < |init| ensures Recordable(init[i].name) {
        assert init[i] == recs[i];
      }
      ReadBackRecords(init);
      RowsAfterRecord(LogText(init), last);
    }
  }

  /** The attendance CSV file, as its content. */
  class AttendanceLog {
    var content: string

    constructor (existing: string)
      ensures content == existing
    {
      content := existing;
    }

    /**
     * `record_attendance`: append the line for `name` stamped `now`; when the
     * write fails the error is swallowed and the file is left as it was.
     */
    method RecordAttendance(name: string, now: Timestamp, writeOk: bool)
      modifies this
      ensures content == old(content) + (if writeOk then FormatLine(name, now) else [])
    {
      if writeOk {
        content := content + FormatLine(name, now);
      }
    }
  }
}
