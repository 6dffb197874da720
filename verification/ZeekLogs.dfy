/** Parsing Zeek's tab-separated logs: directive lines set the separator, the name and the columns, and every
    other line is a record whose values are redacted. */
module ZeekLogs {
  import opened ByteStrings
  import opened GoText
  import opened Redaction

  const MAX_LINE := 1024 * 1024

  type Record = map<string, string>

  datatype ZeekLog = ZeekLog(name: string, fields: seq<string>, types: seq<string>, records: seq<Record>,
                              truncated: bool)

  // ---------- text functions ----------

  /** The pieces between occurrences of the separator; an empty separator takes the text apart. */
  function SplitOn(s: string, sep: string): (r: seq<string>)
    ensures sep != "" ==> r != []
    decreases |s|
  {
    if sep == "" then Explode(s)
    else if s == "" then [""]
    else if sep <= s then [""] + SplitOn(s[|sep|..], sep)
    else
      var rest := SplitOn(s[1..], sep);
      [[s[0]] + rest[0]] + rest[1..]
  }

  function Explode(s: string): seq<string> {
    if s == "" then [] else [[s[0]]] + Explode(s[1..])
  }

  /** The four escapes a separator may be written with, left to right. */
  function Unescape(s: string): string {
    if s == "" then ""
    else if "\\\\" <= s then "\\" + Unescape(s[2..])
    else if "\\x09" <= s then "\t" + Unescape(s[4..])
    else if "\\x20" <= s then " " + Unescape(s[4..])
    else if "\\x2c" <= s then "," + Unescape(s[4..])
    else [s[0]] + Unescape(s[1..])
  }

  /** What follows a directive: after one space, or after the separator. */
  function DirectiveValue(line: string, directive: string, separator: string): Option<string>
    requires directive <= line
  {
    var rest := line[|directive|..];
    if rest == "" then None
    else if " " <= rest then Some(rest[1..])
    else if separator != "" && separator <= rest then Some(rest[|separator|..])
    else None
  }

  function RedactValue(v: string): string { Redact(v).0 }

  /** The values under the field names; a missing value is empty, and of equal names the last one counts. */
  function MakeRecord(fields: seq<string>, values: seq<string>): Record {
    if fields == [] then map[]
    else
      var k := |fields| - 1;
      MakeRecord(fields[..k], values)[fields[k] := if k < |values| then RedactValue(values[k]) else ""]
  }

  // ---------- one line ----------

  datatype State = State(log: ZeekLog, separator: string)

  function AddRow(log: ZeekLog, line: string, separator: string, maxRecords: int): ZeekLog {
    if maxRecords > 0 && |log.records| >= maxRecords then log.(truncated := true)
    else log.(records := log.records + [MakeRecord(log.fields, SplitOn(line, separator))])
  }

  datatype Kind = SeparatorLine | PathLine | FieldsLine | TypesLine | CommentLine | RowLine

  function KindOf(line: string): Kind {
    if "#separator" <= line then SeparatorLine
    else if "#path" <= line then PathLine
    else if "#fields" <= line then FieldsLine
    else if "#types" <= line then TypesLine
    else if "#" <= line then CommentLine
    else RowLine
  }

  /** A line that is no row leaves the records alone. */
  function TakeDirective(st: State, line: string): (r: State)
    ensures r.log.records == st.log.records && r.log.truncated == st.log.truncated
  {
    match KindOf(line)
    case SeparatorLine =>
      var v := DirectiveValue(line, "#separator", " ");
      if v.Some? then st.(separator := Unescape(TrimSpace(v.value))) else st
    case PathLine =>
      var v := DirectiveValue(line, "#path", st.separator);
      if v.Some? then st.(log := st.log.(name := TrimSpace(v.value))) else st
    case FieldsLine =>
      var v := DirectiveValue(line, "#fields", st.separator);
      if v.Some? then st.(log := st.log.(fields := SplitOn(v.value, st.separator))) else st
    case TypesLine =>
      var v := DirectiveValue(line, "#types", st.separator);
      if v.Some? then st.(log := st.log.(types := SplitOn(v.value, st.separator))) else st
    case CommentLine => st
    case RowLine => st
  }

  function TakeLine(st: State, line: string, maxRecords: int): State {
    if KindOf(line).RowLine? then st.(log := AddRow(st.log, line, st.separator, maxRecords))
    else TakeDirective(st, line)
  }

  function TakeLines(st: State, lines: seq<string>, maxRecords: int): State {
    if lines == [] then st
    else TakeLine(TakeLines(st, lines[..|lines| - 1], maxRecords), lines[|lines| - 1], maxRecords)
  }

  function Start(defaultName: string): State {
    State(ZeekLog(defaultName, [], [], [], false), "\t")
  }

  // ---------- a file ----------

  function DropCR(line: string): string {
    if line != "" && line[|line| - 1] == '\r' then line[..|line| - 1] else line
  }

  /** The lines of a text, without their ends; nothing after the last line end is no line. */
  function Lines(text: string): seq<string>
    decreases |text|
  {
    if text == "" then []
    else
      var n := LineLength(text);
      [text[..n]] + Lines(if n < |text| then text[n + 1..] else "")
  }

  function LineLength(text: string): (n: nat)
    ensures n <= |text| && '\n' !in text[..n] && (n < |text| ==> text[n] == '\n')
  {
    if text == "" || text[0] == '\n' then 0
    else
      var n := 1 + LineLength(text[1..]);
      assert text[..n] == [text[0]] + text[1..][..n - 1];
      n
  }

  predicate Fits(lines: seq<string>) {
    forall l | l in lines :: |l| < MAX_LINE
  }

  function DropCRs(lines: seq<string>): seq<string> {
    if lines == [] then [] else [DropCR(lines[0])] + DropCRs(lines[1..])
  }

  /** The parsed log, or nothing when a line is too long for the scanner. */
  function ParseLog(text: string, maxRecords: int, defaultName: string): Option<ZeekLog> {
    var lines := Lines(text);
    if !Fits(lines) then None else Some(TakeLines(Start(defaultName), DropCRs(lines), maxRecords).log)
  }

  /** The loop over the lines. */
  method ParseLines(lines: seq<string>, maxRecords: int, defaultName: string) returns (log: ZeekLog)
    ensures log == TakeLines(Start(defaultName), lines, maxRecords).log
  {
    log := ZeekLog(defaultName, [], [], [], false);
    var separator := "\t";
    for i := 0 to |lines|
      invariant State(log, separator) == TakeLines(Start(defaultName), lines[..i], maxRecords)
    {
      var line := lines[i];
      assert lines[..i + 1][..i] == lines[..i];
      if "#separator" <= line {
        var v := DirectiveValue(line, "#separator", " ");
        if v.Some? { separator := Unescape(TrimSpace(v.value)); }
      } else if "#path" <= line {
        var v := DirectiveValue(line, "#path", separator);
        if v.Some? { log := log.(name := TrimSpace(v.value)); }
      } else if "#fields" <= line {
        var v := DirectiveValue(line, "#fields", separator);
        if v.Some? { log := log.(fields := SplitOn(v.value, separator)); }
      } else if "#types" <= line {
        var v := DirectiveValue(line, "#types", separator);
        if v.Some? { log := log.(types := SplitOn(v.value, separator)); }
      } else if "#" <= line {
        continue;
      } else {
        if maxRecords > 0 && |log.records| >= maxRecords {
          log := log.(truncated := true);
          continue;
        }
        var values := SplitOn(line, separator);
        var record := BuildRecord(log.fields, values);
        log := log.(records := log.records + [record]);
      }
    }
    assert lines[..|lines|] == lines;
  }

  method BuildRecord(fields: seq<string>, values: seq<string>) returns (record: Record)
    ensures record == MakeRecord(fields, values)
  {
    record := map[];
    for i := 0 to |fields|
      invariant record == MakeRecord(fields[..i], values)
    {
      assert fields[..i + 1][..i] == fields[..i];
      record := record[fields[i] := if i < |values| then RedactValue(values[i]) else ""];
    }
    assert fields[..|fields|] == fields;
  }

  // ---------- printing ----------

  /** A table, its column names and types, and the separator it is written with. */
  datatype Table = Table(name: string, fields: seq<string>, types: seq<string>, rows: seq<seq<string>>, separator: char)

  function JoinOn(values: seq<string>, sep: char): string {
    if values == [] then "" else if |values| == 1 then values[0] else values[0] + [sep] + JoinOn(values[1..], sep)
  }

  function Escaped(sep: char): string {
    if sep == '\t' then "\\x09" else if sep == ' ' then "\\x20" else "\\x2c"
  }

  function HeaderLines(t: Table): seq<string> {
    ["#separator " + Escaped(t.separator),
     "#path" + ([t.separator] + t.name),
     "#fields" + ([t.separator] + JoinOn(t.fields, t.separator)),
     "#types" + ([t.separator] + JoinOn(t.types, t.separator))]
  }

  function RowLines(rows: seq<seq<string>>, sep: char): seq<string> {
    if rows == [] then [] else [JoinOn(rows[0], sep)] + RowLines(rows[1..], sep)
  }

  function PrintedLines(t: Table): seq<string> {
    HeaderLines(t) + RowLines(t.rows, t.separator)
  }

  function Unlines(lines: seq<string>): string {
    if lines == [] then "" else lines[0] + "\n" + Unlines(lines[1..])
  }

  function Print(t: Table): string { Unlines(PrintedLines(t)) }

  predicate PlainValue(v: string, sep: char) {
    sep !in v && '\n' !in v
  }

  predicate EndsInCR(s: string) {
    s != "" && s[|s| - 1] == '\r'
  }

  /** Values that make a line: a carriage return may be anywhere but at its end. */
  predicate PlainValues(vs: seq<string>, sep: char) {
    vs != [] && (forall v | v in vs :: PlainValue(v, sep)) && !EndsInCR(vs[|vs| - 1])
  }

  /** Tables that can be written: a supported separator, distinct field names, one value per field, no separators or
      line feeds inside values, no carriage return at the end of a line, no row that looks like a directive, no line
      beyond the scanner's limit. */
  predicate Printable(t: Table) {
    HeaderPrintable(t) && RowsPrintable(t) && Fits(PrintedLines(t))
  }

  predicate HeaderPrintable(t: Table) {
    && t.separator in {'\t', ' ', ','}
    && PlainValue(t.name, t.separator) && TrimSpace(t.name) == t.name
    && PlainValues(t.fields, t.separator) && PlainValues(t.types, t.separator)
  }

  predicate RowsPrintable(t: Table) {
    && t.separator in {'\t', ' ', ','}
    && (forall i, j | 0 <= i < j < |t.fields| :: t.fields[i] != t.fields[j])
    && (forall row | row in t.rows :: |row| == |t.fields| && PlainValues(row, t.separator) && !("#" <= row[0]))
  }

  function Names(fields: seq<string>): set<string> {
    set f | f in fields
  }

  /** The record a row stands for: its values, redacted, under the field names. */
  ghost predicate IsRecordOf(r: Record, fields: seq<string>, row: seq<string>) {
    |row| == |fields| && Stores(r, fields, row)
  }

  // ---------- reading back what was printed ----------

  lemma {:induction false} SplitValue(v: string, sep: char, rest: string)
    requires sep !in v && (rest == "" || rest[0] == sep)
    ensures SplitOn(v + rest, [sep]) == if rest == "" then [v] else [v] + SplitOn(rest[1..], [sep])
  {
    if v == "" {
      assert v + rest == rest;
      assert rest != "" ==> [sep] <= rest;
    } else {
      assert (v + rest)[1..] == v[1..] + rest && v[0] in v;
      SplitValue(v[1..], sep, rest);
      assert [v[0]] + v[1..] == v;
    }
  }

  lemma SplitFirst(v: string, sep: char, more: string)
    requires sep !in v
    ensures SplitOn(v + [sep] + more, [sep]) == [v] + SplitOn(more, [sep])
    ensures SplitOn(v, [sep]) == [v]
  {
    var rest := [sep] + more;
    assert v + [sep] + more == v + rest && rest[1..] == more && v + "" == v;
    SplitValue(v, sep, rest);
    SplitValue(v, sep, "");
  }

  lemma {:induction false} SplitJoined(vs: seq<string>, sep: char)
    requires PlainValues(vs, sep)
    ensures SplitOn(JoinOn(vs, sep), [sep]) == vs
  {
    assert PlainValue(vs[0], sep) by { assert vs[0] in vs; }
    if |vs| == 1 {
      SplitFirst(vs[0], sep, "");
    } else {
      SplitJoined(vs[1..], sep);
      SplitFirst(vs[0], sep, JoinOn(vs[1..], sep));
      assert vs == [vs[0]] + vs[1..];
    }
  }

  lemma {:induction false} JoinedChars(vs: seq<string>, sep: char, c: char)
    requires c != sep && forall v | v in vs :: c !in v
    ensures c !in JoinOn(vs, sep)
  {
    if |vs| > 1 {
      JoinedChars(vs[1..], sep, c);
      assert vs[0] in vs;
    }
  }

  lemma JoinedPlain(vs: seq<string>, sep: char)
    requires PlainValues(vs, sep) && sep in {'\t', ' ', ','}
    ensures PlainLine(JoinOn(vs, sep))
  {
    JoinedChars(vs, sep, '\n');
    JoinedEnd(vs, sep);
  }

  lemma {:induction false} JoinedEnd(vs: seq<string>, sep: char)
    requires vs != [] && sep != '\r' && !EndsInCR(vs[|vs| - 1])
    ensures !EndsInCR(JoinOn(vs, sep))
  {
    if |vs| > 1 {
      JoinedEnd(vs[1..], sep);
      assert JoinOn(vs, sep) == vs[0] + [sep] + JoinOn(vs[1..], sep);
    }
  }

  // ----- lines -----

  predicate PlainLine(l: string) {
    '\n' !in l && !EndsInCR(l)
  }

  lemma {:induction false} LineEnd(l: string, rest: string)
    requires '\n' !in l
    ensures LineLength(l + ("\n" + rest)) == |l|
  {
    if l == "" {
      assert l + ("\n" + rest) == "\n" + rest;
    } else {
      assert l[0] in l && (l + ("\n" + rest))[1..] == l[1..] + ("\n" + rest);
      LineEnd(l[1..], rest);
    }
  }

  lemma LineAtFront(l: string, rest: string)
    requires '\n' !in l
    ensures Lines(l + "\n" + rest) == [l] + Lines(rest)
  {
    var text := l + ("\n" + rest);
    assert l + "\n" + rest == text;
    LineEnd(l, rest);
    assert text[..|l|] == l && text[|l| + 1..] == rest;
  }

  lemma {:induction false} LinesOfUnlines(ls: seq<string>)
    requires forall l | l in ls :: PlainLine(l)
    ensures Lines(Unlines(ls)) == ls
  {
    if ls != [] {
      var rest := Unlines(ls[1..]);
      assert PlainLine(ls[0]) by { assert ls[0] in ls; }
      LinesOfUnlines(ls[1..]);
      LineAtFront(ls[0], rest);
      assert Unlines(ls) == ls[0] + "\n" + rest;
      assert ls == [ls[0]] + ls[1..];
    }
  }

  lemma {:induction false} NoCRs(ls: seq<string>)
    requires forall l | l in ls :: PlainLine(l)
    ensures DropCRs(ls) == ls
  {
    if ls != [] {
      assert PlainLine(ls[0]) by { assert ls[0] in ls; }
      NoCRs(ls[1..]);
    }
  }

  // ----- header -----

  lemma EscapedSeparator(sep: char)
    requires sep in {'\t', ' ', ','}
    ensures TrimSpace(Escaped(sep)) == Escaped(sep) && Unescape(Escaped(sep)) == [sep]
  {
    var e := Escaped(sep);
    TrimNothing(e);
    assert |e| == 4 && e[1] == 'x' && e[4..] == "";
    assert !("\\\\" <= e) by { assert "\\\\"[1] == '\\'; }
    assert Unescape("") == "";
    if sep == ' ' {
      assert e[3] == '0' && "\\x09"[3] == '9';
    } else if sep == ',' {
      assert e[3] == 'c' && "\\x09"[3] == '9' && "\\x20"[3] == '0';
    }
  }

  lemma TakeSeparator(st: State, sep: char, maxRecords: int)
    requires sep in {'\t', ' ', ','}
    ensures TakeLine(st, "#separator " + Escaped(sep), maxRecords) == st.(separator := [sep])
  {
    var e := Escaped(sep);
    var line := "#separator " + e;
    assert line[..10] == "#separator" && line[10..] == " " + e && line[10..][1..] == e;
    EscapedSeparator(sep);
  }

  lemma DirectiveAt(directive: string, sep: char, v: string)
    ensures var line := directive + ([sep] + v);
            directive <= line && DirectiveValue(line, directive, [sep]) == Some(v)
  {
    var line := directive + ([sep] + v);
    assert line[..|directive|] == directive && line[|directive|..] == [sep] + v;
    assert ([sep] + v)[1..] == v;
  }

  /** A line that starts with one directive starts with no other. */
  lemma OneDirective(a: string, b: string, rest: string)
    requires |a| >= 2 && |b| >= 2 && a[1] != b[1]
    ensures !(b <= a + rest)
  {
    assert (a + rest)[1] == a[1];
  }

  lemma TakePath(st: State, sep: char, v: string, maxRecords: int)
    requires st.separator == [sep]
    ensures TakeLine(st, "#path" + ([sep] + v), maxRecords) == st.(log := st.log.(name := TrimSpace(v)))
  {
    DirectiveAt("#path", sep, v);
    OneDirective("#path", "#separator", [sep] + v);
    assert KindOf("#path" + ([sep] + v)) == PathLine;
  }

  lemma TakeFields(st: State, sep: char, v: string, maxRecords: int)
    requires st.separator == [sep]
    ensures TakeLine(st, "#fields" + ([sep] + v), maxRecords) == st.(log := st.log.(fields := SplitOn(v, [sep])))
  {
    DirectiveAt("#fields", sep, v);
    OneDirective("#fields", "#separator", [sep] + v);
    OneDirective("#fields", "#path", [sep] + v);
    assert KindOf("#fields" + ([sep] + v)) == FieldsLine;
  }

  lemma TakeTypes(st: State, sep: char, v: string, maxRecords: int)
    requires st.separator == [sep]
    ensures TakeLine(st, "#types" + ([sep] + v), maxRecords) == st.(log := st.log.(types := SplitOn(v, [sep])))
  {
    DirectiveAt("#types", sep, v);
    OneDirective("#types", "#separator", [sep] + v);
    OneDirective("#types", "#path", [sep] + v);
    OneDirective("#types", "#fields", [sep] + v);
    assert KindOf("#types" + ([sep] + v)) == TypesLine;
  }

  lemma {:induction false} TakeLinesConcat(st: State, s: seq<string>, t: seq<string>, maxRecords: int)
    ensures TakeLines(st, s + t, maxRecords) == TakeLines(TakeLines(st, s, maxRecords), t, maxRecords)
  {
    if t == [] {
      assert s + t == s;
    } else {
      assert (s + t)[..|s + t| - 1] == s + t[..|t| - 1];
      TakeLinesConcat(st, s, t[..|t| - 1], maxRecords);
    }
  }

  lemma TakeLast(st: State, lines: seq<string>, line: string, maxRecords: int)
    ensures TakeLines(st, lines + [line], maxRecords) == TakeLine(TakeLines(st, lines, maxRecords), line, maxRecords)
  {
    assert (lines + [line])[..|lines|] == lines;
  }

  lemma TakeFour(st: State, a: string, b: string, c: string, d: string, maxRecords: int)
    ensures TakeLines(st, [a, b, c, d], maxRecords) ==
            TakeLine(TakeLine(TakeLine(TakeLine(st, a, maxRecords), b, maxRecords), c, maxRecords), d, maxRecords)
  {
    assert [] + [a] == [a] && [a] + [b] == [a, b] && [a, b] + [c] == [a, b, c] && [a, b, c] + [d] == [a, b, c, d];
    TakeLast(st, [], a, maxRecords);
    TakeLast(st, [a], b, maxRecords);
    TakeLast(st, [a, b], c, maxRecords);
    TakeLast(st, [a, b, c], d, maxRecords);
  }

  lemma TakeHeaders(t: Table, defaultName: string, maxRecords: int)
    requires HeaderPrintable(t)
    ensures TakeLines(Start(defaultName), HeaderLines(t), maxRecords) ==
            HeaderState(t)
  {
    var h, st, sep := HeaderLines(t), Start(defaultName), t.separator;
    TakeFour(st, h[0], h[1], h[2], h[3], maxRecords);
    TakeSeparator(st, sep, maxRecords);
    var st1 := st.(separator := [sep]);
    TakePath(st1, sep, t.name, maxRecords);
    var st2 := st1.(log := st1.log.(name := t.name));
    TakeFields(st2, sep, JoinOn(t.fields, sep), maxRecords);
    SplitJoined(t.fields, sep);
    var st3 := st2.(log := st2.log.(fields := t.fields));
    TakeTypes(st3, sep, JoinOn(t.types, sep), maxRecords);
    SplitJoined(t.types, sep);
  }

  // ----- rows -----

  lemma {:induction false} MakeRecordExact(fields: seq<string>, row: seq<string>)
    requires |fields| <= |row| && forall i, j | 0 <= i < j < |fields| :: fields[i] != fields[j]
    ensures Stores(MakeRecord(fields, row), fields, row)
  {
    if fields != [] {
      var k := |fields| - 1;
      MakeRecordExact(fields[..k], row);
      OneMoreField(MakeRecord(fields[..k], row), fields, row);
    }
  }

  /** The record has exactly these names, and under each name its redacted value. */
  ghost predicate Stores(r: Record, fields: seq<string>, row: seq<string>)
    requires |fields| <= |row|
  {
    r.Keys == Names(fields) && forall i | 0 <= i < |fields| :: fields[i] in r && r[fields[i]] == RedactValue(row[i])
  }

  lemma NamesAppend(fields: seq<string>)
    requires fields != []
    ensures Names(fields) == Names(fields[..|fields| - 1]) + {fields[|fields| - 1]}
  {
    assert fields == fields[..|fields| - 1] + [fields[|fields| - 1]];
  }

  lemma OneMoreField(before: Record, fields: seq<string>, row: seq<string>)
    requires 0 < |fields| <= |row| && Stores(before, fields[..|fields| - 1], row)
    requires forall i | 0 <= i < |fields| - 1 :: fields[i] != fields[|fields| - 1]
    ensures Stores(before[fields[|fields| - 1] := RedactValue(row[|fields| - 1])], fields, row)
  {
    var k := |fields| - 1;
    NamesAppend(fields);
    forall i | 0 <= i < k
      ensures fields[i] in before && before[fields[i]] == RedactValue(row[i])
    {
      FieldStored(before, fields, row, i);
    }
  }

  lemma FieldStored(before: Record, fields: seq<string>, row: seq<string>, i: nat)
    requires i + 1 < |fields| <= |row| && Stores(before, fields[..|fields| - 1], row)
    ensures fields[i] in before && before[fields[i]] == RedactValue(row[i])
  {
    assert fields[..|fields| - 1][i] == fields[i];
  }

  function RowsKept(n: nat, maxRecords: int): nat {
    if maxRecords > 0 && n > maxRecords then maxRecords else n
  }

  /** The lines that are neither directives nor comments. */
  function RowCount(lines: seq<string>): nat {
    if lines == [] then 0
    else RowCount(lines[..|lines| - 1]) + if KindOf(lines[|lines| - 1]).RowLine? then 1 else 0
  }

  lemma RowStep(st: State, line: string, n: nat, maxRecords: int)
    requires |st.log.records| == RowsKept(n, maxRecords) && st.log.truncated == (maxRecords > 0 && n > maxRecords)
    ensures var m := n + if KindOf(line).RowLine? then 1 else 0;
            var log := TakeLine(st, line, maxRecords).log;
            |log.records| == RowsKept(m, maxRecords) && log.truncated == (maxRecords > 0 && m > maxRecords)
  {
  }

  lemma {:induction false} RecordsCounted(lines: seq<string>, maxRecords: int, defaultName: string)
    ensures var log := TakeLines(Start(defaultName), lines, maxRecords).log;
            && |log.records| == RowsKept(RowCount(lines), maxRecords)
            && log.truncated == (maxRecords > 0 && RowCount(lines) > maxRecords)
  {
    if lines != [] {
      var init, last := lines[..|lines| - 1], lines[|lines| - 1];
      RecordsCounted(init, maxRecords, defaultName);
      RowStep(TakeLines(Start(defaultName), init, maxRecords), last, RowCount(init), maxRecords);
    }
  }

  /** Any file that is read to its end gives one record per row line up to a positive limit, whatever its
      directives say, and the log says truncated exactly if there are more row lines than that. */
  lemma ParsedRecordCount(text: string, maxRecords: int, defaultName: string)
    requires ParseLog(text, maxRecords, defaultName).Some?
    ensures var log := ParseLog(text, maxRecords, defaultName).value;
            var rows := RowCount(DropCRs(Lines(text)));
            && |log.records| == (if 0 < maxRecords < rows then maxRecords else rows)
            && (log.truncated <==> 0 < maxRecords < rows)
  {
    RecordsCounted(DropCRs(Lines(text)), maxRecords, defaultName);
  }

  /** The log after `n` rows. */
  ghost predicate HasRows(log: ZeekLog, t: Table, n: nat, maxRecords: int) {
    && log.name == t.name && log.fields == t.fields && log.types == t.types
    && n <= |t.rows| && |log.records| == RowsKept(n, maxRecords)
    && (forall i | 0 <= i < |log.records| :: IsRecordOf(log.records[i], t.fields, t.rows[i]))
    && log.truncated == (maxRecords > 0 && n > maxRecords)
  }

  lemma HasRowsStep(t: Table, log: ZeekLog, n: nat, r: Record, maxRecords: int)
    requires n < |t.rows| && HasRows(log, t, n, maxRecords) && IsRecordOf(r, t.fields, t.rows[n])
    ensures HasRows(if maxRecords > 0 && |log.records| >= maxRecords then log.(truncated := true)
                    else log.(records := log.records + [r]), t, n + 1, maxRecords)
  {
  }

  /** The state after `n` rows. */
  ghost predicate AfterRows(st: State, t: Table, n: nat, maxRecords: int) {
    st.separator == [t.separator] && HasRows(st.log, t, n, maxRecords)
  }

  lemma TakeRow(t: Table, st: State, n: nat, maxRecords: int)
    requires n < |t.rows| && AfterRows(st, t, n, maxRecords) && RowsPrintable(t)
    ensures AfterRows(TakeLine(st, JoinOn(t.rows[n], t.separator), maxRecords), t, n + 1, maxRecords)
  {
    var row, sep := t.rows[n], t.separator;
    RowPrintable(t, n);
    NoDirective(row, sep);
    SplitJoined(row, sep);
    HasRowsStep(t, st.log, n, MakeRecord(t.fields, row), maxRecords);
  }

  lemma RowPrintable(t: Table, n: nat)
    requires n < |t.rows| && RowsPrintable(t)
    ensures PlainValues(t.rows[n], t.separator) && !("#" <= t.rows[n][0]) && t.separator != '#'
    ensures IsRecordOf(MakeRecord(t.fields, t.rows[n]), t.fields, t.rows[n])
  {
    assert t.rows[n] in t.rows;
    MakeRecordExact(t.fields, t.rows[n]);
  }

  lemma NoDirective(row: seq<string>, sep: char)
    requires row != [] && sep != '#' && !("#" <= row[0])
    ensures KindOf(JoinOn(row, sep)) == RowLine
  {
    var line := JoinOn(row, sep);
    if |row| > 1 { assert line == row[0] + ([sep] + JoinOn(row[1..], sep)); }
    if row[0] != "" { assert line[0] == row[0][0]; }
    assert line != "" ==> line[0] != '#';
  }

  lemma {:induction false} RowLinesAt(rows: seq<seq<string>>, sep: char)
    ensures |RowLines(rows, sep)| == |rows|
    ensures forall i | 0 <= i < |rows| :: RowLines(rows, sep)[i] == JoinOn(rows[i], sep)
  {
    if rows != [] { RowLinesAt(rows[1..], sep); }
  }

  lemma {:induction false} TakeRows(t: Table, lines: seq<string>, n: nat, maxRecords: int)
    requires RowsPrintable(t) && n <= |t.rows| == |lines|
    requires forall i | 0 <= i < |lines| :: lines[i] == JoinOn(t.rows[i], t.separator)
    ensures RowsTaken(t, lines, n, maxRecords)
  {
    if n == 0 {
      NoRows(t, lines, maxRecords);
    } else {
      TakeRows(t, lines, n - 1, maxRecords);
      OneMoreRow(t, lines, n - 1, maxRecords);
    }
  }

  /** The first `n` lines give the first `n` rows. */
  ghost predicate RowsTaken(t: Table, lines: seq<string>, n: nat, maxRecords: int)
    requires n <= |lines|
  {
    AfterRows(TakeLines(HeaderState(t), lines[..n], maxRecords), t, n, maxRecords)
  }

  lemma NoRows(t: Table, lines: seq<string>, maxRecords: int)
    ensures RowsTaken(t, lines, 0, maxRecords)
  {
    assert lines[..0] == [];
  }

  lemma OneMoreRow(t: Table, lines: seq<string>, n: nat, maxRecords: int)
    requires RowsPrintable(t) && n < |t.rows| == |lines| && lines[n] == JoinOn(t.rows[n], t.separator)
    requires RowsTaken(t, lines, n, maxRecords)
    ensures RowsTaken(t, lines, n + 1, maxRecords)
  {
    var before := TakeLines(HeaderState(t), lines[..n], maxRecords);
    TakeNext(HeaderState(t), lines, n, maxRecords);
    TakeRow(t, before, n, maxRecords);
  }

  lemma TakeNext(st: State, lines: seq<string>, n: nat, maxRecords: int)
    requires n < |lines|
    ensures TakeLines(st, lines[..n + 1], maxRecords) ==
            TakeLine(TakeLines(st, lines[..n], maxRecords), lines[n], maxRecords)
  {
    assert lines[..n + 1][..n] == lines[..n];
  }

  lemma PlainConcat(a: string, b: string)
    requires PlainLine(a) && PlainLine(b)
    ensures PlainLine(a + b)
  {
  }

  lemma TrimmedEnd(s: string)
    requires TrimSpace(s) == s
    ensures !EndsInCR(s)
  {
    var k := TrimLeftSlice(s);
    var e := TrimRightSlice(s[k..]);
    assert |s[k..][..e]| == |s|;
  }

  lemma DirectivePlain(directive: string, sep: char, v: string)
    requires PlainLine(directive) && sep in {'\t', ' ', ','} && PlainLine(v)
    ensures PlainLine(directive + ([sep] + v))
  {
    PlainConcat([sep], v);
    PlainConcat(directive, [sep] + v);
  }

  lemma HeadersPlain(t: Table)
    requires HeaderPrintable(t)
    ensures forall l | l in HeaderLines(t) :: PlainLine(l)
  {
    JoinedPlain(t.fields, t.separator);
    JoinedPlain(t.types, t.separator);
    PlainConcat("#separator ", Escaped(t.separator));
    TrimmedEnd(t.name);
    DirectivePlain("#path", t.separator, t.name);
    DirectivePlain("#fields", t.separator, JoinOn(t.fields, t.separator));
    DirectivePlain("#types", t.separator, JoinOn(t.types, t.separator));
  }

  lemma RowsPlain(t: Table)
    requires RowsPrintable(t)
    ensures forall l | l in RowLines(t.rows, t.separator) :: PlainLine(l)
  {
    RowLinesAt(t.rows, t.separator);
    forall i | 0 <= i < |t.rows|
      ensures PlainLine(JoinOn(t.rows[i], t.separator))
    {
      assert t.rows[i] in t.rows;
      JoinedPlain(t.rows[i], t.separator);
    }
  }

  lemma PrintedPlain(t: Table)
    requires Printable(t)
    ensures forall l | l in PrintedLines(t) :: PlainLine(l)
  {
    HeadersPlain(t);
    RowsPlain(t);
  }

  function HeaderState(t: Table): State {
    State(ZeekLog(t.name, t.fields, t.types, [], false), [t.separator])
  }

  lemma TakeAllRows(t: Table, maxRecords: int)
    requires RowsPrintable(t)
    ensures HasRows(TakeLines(HeaderState(t), RowLines(t.rows, t.separator), maxRecords).log, t, |t.rows|, maxRecords)
  {
    var lines := RowLines(t.rows, t.separator);
    RowLinesAt(t.rows, t.separator);
    TakeRows(t, lines, |lines|, maxRecords);
    AllTaken(t, lines, maxRecords);
  }

  lemma AllTaken(t: Table, lines: seq<string>, maxRecords: int)
    requires RowsTaken(t, lines, |lines|, maxRecords)
    ensures AfterRows(TakeLines(HeaderState(t), lines, maxRecords), t, |lines|, maxRecords)
  {
    assert lines[..|lines|] == lines;
  }

  lemma TakePrinted(t: Table, maxRecords: int, defaultName: string)
    requires HeaderPrintable(t) && RowsPrintable(t)
    ensures HasRows(TakeLines(Start(defaultName), PrintedLines(t), maxRecords).log, t, |t.rows|, maxRecords)
  {
    TakeHeaders(t, defaultName, maxRecords);
    TakeLinesConcat(Start(defaultName), HeaderLines(t), RowLines(t.rows, t.separator), maxRecords);
    TakeAllRows(t, maxRecords);
  }

  lemma ParsePrinted(lines: seq<string>, maxRecords: int, defaultName: string)
    requires Fits(lines) && forall l | l in lines :: PlainLine(l)
    ensures ParseLog(Unlines(lines), maxRecords, defaultName) ==
            Some(TakeLines(Start(defaultName), lines, maxRecords).log)
  {
    LinesOfUnlines(lines);
    NoCRs(lines);
  }

  /** Printing a table and parsing the text gives back its name, its columns and the first rows up to a positive
      limit, every value redacted, and says truncated exactly if there were more rows than that. */
  lemma PrintParse(t: Table, maxRecords: int, defaultName: string)
    requires Printable(t)
    ensures ParseLog(Print(t), maxRecords, defaultName).Some?
    ensures HasRows(ParseLog(Print(t), maxRecords, defaultName).value, t, |t.rows|, maxRecords)
  {
    PrintedPlain(t);
    ParsePrinted(PrintedLines(t), maxRecords, defaultName);
    TakePrinted(t, maxRecords, defaultName);
  }
}
