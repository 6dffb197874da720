/** Summaries of parsed Zeek logs: the largest connections, the reset counts that two parts of the response
    report separately, and the HTTP requests with their redaction flag. */
module Signals {
  import opened ByteStrings
  import opened GoText
  import opened Sorting
  import opened Redaction
  import opened ZeekLogs

  const SUMMARY_LIMIT := 25

  /** The first of the named values that is neither empty nor a dash, trimmed. */
  function RecordValue(record: Record, keys: seq<string>): string {
    if keys == [] then ""
    else
      var v := TrimSpace(if keys[0] in record then record[keys[0]] else "");
      if v != "" && v != "-" then v else RecordValue(record, keys[1..])
  }

  // ---------- connections ----------

  datatype Connection = Connection(
    uid: string, protocol: string, service: string, source: string, sourcePort: string,
    destination: string, destPort: string, duration: string, connState: string, history: string,
    origBytes: int, respBytes: int, totalBytes: int)

  /** Addition of 64-bit integers. */
  function Wrap64(x: int): int {
    var m := x % 0x1_0000_0000_0000_0000;
    if m >= 0x8000_0000_0000_0000 then m - 0x1_0000_0000_0000_0000 else m
  }

  /** `parseInt` reads a count; what is not a number counts as zero. */
  function MakeConnection(r: Record, parseInt: string -> int): Connection {
    var orig, resp := parseInt(RecordValue(r, ["orig_bytes", "orig_ip_bytes"])),
                      parseInt(RecordValue(r, ["resp_bytes", "resp_ip_bytes"]));
    Connection(
      RecordValue(r, ["uid"]), RecordValue(r, ["proto"]), RecordValue(r, ["service"]),
      RecordValue(r, ["id.orig_h"]), RecordValue(r, ["id.orig_p"]),
      RecordValue(r, ["id.resp_h"]), RecordValue(r, ["id.resp_p"]),
      RecordValue(r, ["duration"]), RecordValue(r, ["conn_state"]), RecordValue(r, ["history"]),
      orig, resp, Wrap64(orig + resp))
  }

  predicate MoreBytes(a: Connection, b: Connection) { a.totalBytes > b.totalBytes }

  function Cap<T>(s: seq<T>): seq<T> {
    if |s| > SUMMARY_LIMIT then s[..SUMMARY_LIMIT] else s
  }

  function AllConnections(records: seq<Record>, parseInt: string -> int): seq<Connection> {
    Collect((r: Record) => [MakeConnection(r, parseInt)], records)
  }

  function SummarizeConnections(records: seq<Record>, parseInt: string -> int): seq<Connection> {
    Cap(Sort(MoreBytes, AllConnections(records, parseInt)))
  }

  method ComputeConnections(records: seq<Record>, parseInt: string -> int) returns (kept: seq<Connection>)
    ensures kept == SummarizeConnections(records, parseInt)
  {
    var connections: seq<Connection> := [];
    ghost var f := (r: Record) => [MakeConnection(r, parseInt)];
    assert AllConnections(records, parseInt) == Collect(f, records);
    for i := 0 to |records|
      invariant connections == Collect(f, records[..i])
    {
      CollectNext(f, records, i);
      connections := connections + [MakeConnection(records[i], parseInt)];
    }
    assert records[..|records|] == records;
    kept := Cap(Sort(MoreBytes, connections));
  }

  lemma MoreBytesStrictWeak()
    ensures StrictWeak(MoreBytes)
  {
  }

  function OfSize(n: int): Connection -> bool {
    (c: Connection) => c.totalBytes == n
  }

  /** The first of a stably sorted list against the rest of it: nothing is lost, no dropped element beats a kept
      one, the kept ones descend, and elements of equal size stay in input order across the cut. */
  lemma TopExact(all: seq<Connection>)
    ensures var sorted := Sort(MoreBytes, all);
            var kept := Cap(sorted);
            var dropped := sorted[|kept|..];
            && |kept| == (if |all| > SUMMARY_LIMIT then SUMMARY_LIMIT else |all|)
            && multiset(kept + dropped) == multiset(all)
            && (forall i, j | 0 <= i < j < |kept| :: kept[i].totalBytes >= kept[j].totalBytes)
            && (forall k, d | k in kept && d in dropped :: k.totalBytes >= d.totalBytes)
            && (forall n :: Filter(OfSize(n), kept) + Filter(OfSize(n), dropped) == Filter(OfSize(n), all))
  {
    var sorted := Sort(MoreBytes, all);
    var kept := Cap(sorted);
    var dropped := sorted[|kept|..];
    MoreBytesStrictWeak();
    SortMultiset(MoreBytes, all);
    SortSorted(MoreBytes, all);
    assert sorted == kept + dropped;
    forall k, d | k in kept && d in dropped
      ensures k.totalBytes >= d.totalBytes
    {
      var i :| 0 <= i < |kept| && kept[i] == k;
      var j :| 0 <= j < |dropped| && dropped[j] == d;
      assert !MoreBytes(sorted[|kept| + j], sorted[i]);
    }
    forall n
      ensures Filter(OfSize(n), kept) + Filter(OfSize(n), dropped) == Filter(OfSize(n), all)
    {
      FilterConcat(OfSize(n), kept, dropped);
      FilterSort(MoreBytes, OfSize(n), all);
      SortOfEquals(all, n);
    }
    forall i, j | 0 <= i < j < |kept|
      ensures kept[i].totalBytes >= kept[j].totalBytes
    {
      assert !MoreBytes(sorted[j], sorted[i]);
    }
  }

  lemma SortOfEquals(all: seq<Connection>, n: int)
    ensures Sort(MoreBytes, Filter(OfSize(n), all)) == Filter(OfSize(n), all)
  {
    FilterMember(OfSize(n), all);
    SortTies(MoreBytes, Filter(OfSize(n), all));
  }

  // ---------- resets ----------

  predicate LooksReset(c: Connection) {
    Contains(ToUpper(c.connState), "RST") || Contains(ToUpper(c.history), "R")
  }

  predicate ByOriginator(c: Connection) { ToUpper(c.connState) == "RSTO" || ToUpper(c.connState) == "RSTOS0" }

  predicate ByResponder(c: Connection) { ToUpper(c.connState) == "RSTR" || ToUpper(c.connState) == "RSTRH" }

  datatype TCPHealth = TCPHealth(resetCount: nat, byOriginator: nat, byResponder: nat, connections: seq<Connection>)

  /** The number that the signals map reports as `tcp_resets`; no entry reads as zero. */
  method CountResetSignal(connections: seq<Connection>) returns (resets: nat)
    ensures resets == |Filter(LooksReset, connections)|
  {
    resets := 0;
    for i := 0 to |connections|
      invariant resets == |Filter(LooksReset, connections[..i])|
    {
      FilterNext(LooksReset, connections, i);
      if LooksReset(connections[i]) { resets := resets + 1; }
    }
    assert connections[..|connections|] == connections;
  }

  /** The section on resets, or nothing when there are none. It always agrees with the signal: the count is the
      length of the list, the list is the reset-like connections in order, and no reset is blamed on both sides. */
  method BuildTCPHealth(connections: seq<Connection>) returns (r: Option<TCPHealth>)
    ensures r.None? <==> Filter(LooksReset, connections) == []
    ensures r.Some? ==>
              var h := r.value;
              && h.connections == Filter(LooksReset, connections)
              && h.resetCount == |h.connections|
              && h.byOriginator == |Filter(ByOriginator, h.connections)|
              && h.byResponder == |Filter(ByResponder, h.connections)|
              && h.byOriginator + h.byResponder <= h.resetCount
  {
    var h := TCPHealth(0, 0, 0, []);
    for i := 0 to |connections|
      invariant h.connections == Filter(LooksReset, connections[..i]) && h.resetCount == |h.connections|
      invariant h.byOriginator == |Filter(ByOriginator, h.connections)|
      invariant h.byResponder == |Filter(ByResponder, h.connections)|
      invariant h.byOriginator + h.byResponder <= h.resetCount
    {
      var c := connections[i];
      FilterNext(LooksReset, connections, i);
      if !LooksReset(c) { continue; }
      FilterAppend(ByOriginator, h.connections, c);
      FilterAppend(ByResponder, h.connections, c);
      var state := ToUpper(c.connState);
      h := h.(resetCount := h.resetCount + 1);
      if state == "RSTO" || state == "RSTOS0" {
        h := h.(byOriginator := h.byOriginator + 1);
      } else if state == "RSTR" || state == "RSTRH" {
        h := h.(byResponder := h.byResponder + 1);
      }
      h := h.(connections := h.connections + [c]);
    }
    assert connections[..|connections|] == connections;
    if h.resetCount == 0 { return None; }
    r := Some(h);
  }

  // ---------- HTTP ----------

  /** What of a request's summary depends on redaction. */
  datatype Request = Request(uri: string, redacted: bool)

  function MakeRequest(r: Record): Request {
    var (uri, redacted) := Redact(RecordValue(r, ["uri"]));
    Request(uri, redacted)
  }

  /** Cutting trimmed characters off the end of a clean text keeps it clean. */
  lemma CleanCut(p: Pattern, prev: char, u: string, e: nat)
    requires PlainNames(p.names) && Clean(p, prev, u) && e <= |u|
    requires (forall i | e <= i < |u| :: IsTrimmed(u[i])) && (e > 0 ==> !IsTrimmed(u[e - 1]))
    ensures Clean(p, prev, u[..e])
  {
    var t := u[..e];
    forall i | 0 <= i < |t|
      ensures CleanAt(p, prev, t, i)
    {
      assert CleanAt(p, prev, u, i);
      assert Prev(prev, t, i) == Prev(prev, u, i);
      assert u[i..][..e - i] == t[i..];
      CutHere(p, Prev(prev, t, i), u[i..], e - i);
    }
  }

  lemma CutHere(p: Pattern, c: char, y: string, n: nat)
    requires PlainNames(p.names) && CleanHere(p, c, y) && 0 < n <= |y|
    requires (forall i | n <= i < |y| :: IsTrimmed(y[i])) && !IsTrimmed(y[n - 1])
    ensures CleanHere(p, c, y[..n])
  {
    var x := y[..n];
    if Kept(p, c, x).Some? {
      var h := Kept(p, c, x).value;
      KeptNotBeforeSpace(p, c, x);
      MatchLocal(p, c, x, y);
      var e := ValueEnd(p, y, h);
      MarkHasNoSpace(y, h, e, n);
      ValueEndUnique(p, x, h, e);
    }
  }

  lemma MarkHasNoSpace(y: string, h: nat, e: nat, n: nat)
    requires h < n <= |y| && h <= e <= |y| && y[h..e] == MARK && forall i | n <= i < |y| :: IsTrimmed(y[i])
    ensures e <= n && y[..n][h..e] == MARK
  {
    assert e == h + |MARK|;
    assert n < |y| ==> IsTrimmed(y[n]);
    assert forall i | h <= i < e :: y[i] == MARK[i - h] && !IsTrimmed(MARK[i - h]);
  }

  /** In a text that does not end in white space a match keeps no trailing white space of the value. */
  lemma KeptNotBeforeSpace(p: Pattern, c: char, x: string)
    requires PlainNames(p.names) && Kept(p, c, x).Some? && !IsTrimmed(x[|x| - 1])
    ensures !IsSpace(x[Kept(p, c, x).value])
  {
    KeptShape(p, c, x);
    if p.Header? { SpacesStop(x, IndexOf(x, ':') + 1, |x| - 1); }
  }

  /** The character before the text only matters for the word boundary. */
  lemma CleanPrev(p: Pattern, c: char, d: char, s: string)
    requires Clean(p, c, s) && IsWord(c) == IsWord(d)
    ensures Clean(p, d, s)
  {
    forall i | 0 <= i < |s|
      ensures CleanAt(p, d, s, i)
    {
      assert CleanAt(p, c, s, i);
    }
  }

  lemma CleanTrimmed(p: Pattern, u: string)
    requires PlainNames(p.names) && Clean(p, ' ', u)
    ensures Clean(p, ' ', TrimSpace(u))
  {
    var k := TrimLeftSlice(u);
    var v := u[k..];
    if k > 0 {
      CleanDrop(p, ' ', u, k);
      CleanPrev(p, u[k - 1], ' ', v);
    } else {
      assert v == u;
    }
    var e := TrimRightSlice(v);
    CleanCut(p, ' ', v, e);
  }

  /** Trimming a fully redacted text leaves it fully redacted. */
  lemma TrimKeepsRedacted(u: string)
    requires FullyRedacted(u)
    ensures FullyRedacted(TrimSpace(u))
  {
    AuthorizationNames();
    CookieNames();
    SecretNames();
    CleanTrimmed(AUTHORIZATION, u);
    CleanTrimmed(COOKIE, u);
    CleanTrimmed(SECRET, u);
  }

  lemma {:induction false} RecordRedacted(fields: seq<string>, values: seq<string>, f: string)
    requires f in MakeRecord(fields, values)
    ensures FullyRedacted(MakeRecord(fields, values)[f])
  {
    var k := |fields| - 1;
    if f == fields[k] {
      if k < |values| { RedactionLeavesNoValue(values[k]); } else { EmptyRedacted(); }
    } else {
      RecordRedacted(fields[..k], values, f);
    }
  }

  lemma EmptyRedacted()
    ensures FullyRedacted("")
  {
  }

  /** For every record the parser produces, the URI is left as it is and the request is never marked as redacted:
      the parser has redacted the value already. */
  lemma ParsedRequestNeverRedacted(fields: seq<string>, values: seq<string>)
    ensures MakeRequest(MakeRecord(fields, values)) == Request(RecordValue(MakeRecord(fields, values), ["uri"]), false)
  {
    var r := MakeRecord(fields, values);
    var raw := if "uri" in r then r["uri"] else "";
    if "uri" in r { RecordRedacted(fields, values, "uri"); } else { EmptyRedacted(); }
    TrimKeepsRedacted(raw);
    EmptyRedacted();
    assert ["uri"][1..] == [];
    RedactUnchangedIff(RecordValue(r, ["uri"]));
  }

  /** The records of any parsed log are of that form. */
  lemma {:induction false} ParsedRecords(st: State, lines: seq<string>, maxRecords: int)
    requires forall r | r in st.log.records :: IsMade(r)
    ensures forall r | r in TakeLines(st, lines, maxRecords).log.records :: IsMade(r)
  {
    if lines != [] {
      ParsedRecords(st, lines[..|lines| - 1], maxRecords);
      MadeByLine(TakeLines(st, lines[..|lines| - 1], maxRecords), lines[|lines| - 1], maxRecords);
    }
  }

  ghost predicate IsMade(r: Record) {
    exists fields, values :: r == MakeRecord(fields, values)
  }

  lemma MadeByLine(st: State, line: string, maxRecords: int)
    requires forall r | r in st.log.records :: IsMade(r)
    ensures forall r | r in TakeLine(st, line, maxRecords).log.records :: IsMade(r)
  {
    var made := MakeRecord(st.log.fields, SplitOn(line, st.separator));
    assert IsMade(made);
    RecordsAfter(st, line, maxRecords);
  }

  /** One line adds at most the record it stands for. */
  lemma RecordsAfter(st: State, line: string, maxRecords: int)
    ensures var after := TakeLine(st, line, maxRecords).log.records;
            after == st.log.records ||
            after == st.log.records + [MakeRecord(st.log.fields, SplitOn(line, st.separator))]
  {
  }

  /** No value of any record of a parsed log shows a secret. */
  lemma ParsedValuesRedacted(text: string, maxRecords: int, defaultName: string, r: Record, f: string)
    requires ParseLog(text, maxRecords, defaultName).Some? && r in ParseLog(text, maxRecords, defaultName).value.records
    requires f in r
    ensures FullyRedacted(r[f])
  {
    ParsedRecords(Start(defaultName), DropCRs(Lines(text)), maxRecords);
    assert IsMade(r);
    var fields, values :| r == MakeRecord(fields, values);
    RecordRedacted(fields, values, f);
  }

  /** No request of a summary of a parsed log is marked as redacted, and its URI shows no secret value. */
  lemma SummaryRequestsUnmarked(text: string, maxRecords: int, defaultName: string, r: Record)
    requires ParseLog(text, maxRecords, defaultName).Some? && r in ParseLog(text, maxRecords, defaultName).value.records
    ensures !MakeRequest(r).redacted && FullyRedacted(MakeRequest(r).uri)
  {
    ParsedRecords(Start(defaultName), DropCRs(Lines(text)), maxRecords);
    assert IsMade(r);
    var fields, values :| r == MakeRecord(fields, values);
    ParsedRequestNeverRedacted(fields, values);
    RedactionLeavesNoValue(RecordValue(r, ["uri"]));
  }

  // ---------- the mark that parsing loses ----------

  /** A request is marked as redacted if and only if the URI of its record shows a secret, for any record. */
  lemma MarkedIff(r: Record)
    ensures MakeRequest(r).redacted <==> !FullyRedacted(RecordValue(r, ["uri"]))
  {
    RedactUnchangedIff(RecordValue(r, ["uri"]));
  }

  /** The values of a row as they stand in the log, before the parser redacts them. */
  function RowAsWritten(fields: seq<string>, values: seq<string>): Record {
    if fields == [] then map[]
    else
      var k := |fields| - 1;
      RowAsWritten(fields[..k], values)[fields[k] := if k < |values| then values[k] else ""]
  }

  /** The mark is meant to tell that the URI in the log showed a secret. For the record that the parser makes of a row
      it tells that if and only if there is nothing to tell. */
  lemma MarkLostIff(fields: seq<string>, values: seq<string>)
    ensures MakeRequest(MakeRecord(fields, values)).redacted == MakeRequest(RowAsWritten(fields, values)).redacted <==>
            FullyRedacted(RecordValue(RowAsWritten(fields, values), ["uri"]))
  {
    ParsedRequestNeverRedacted(fields, values);
    MarkedIff(RowAsWritten(fields, values));
  }

  lemma NameStep(names: seq<string>, s: string)
    requires names != []
    ensures NameLength(names, s) == if StartsWith(s, names[0]) then |names[0]| else NameLength(names[1..], s)
  {
  }

  lemma TokenName(s: string)
    requires s == "token=x"
    ensures NameLength(SECRET.names, s) == 5
  {
    var names := SECRET.names;
    assert names[0] == "password" && names[1] == "passwd" && names[2] == "token";
    assert names[1..][0] == names[1] && names[1..][1..][0] == names[2];
    assert s[0] == 't' && names[1][0] == 'p';
    NameStep(names, s);
    NameStep(names[1..], s);
    NameStep(names[1..][1..], s);
  }

  lemma TokenKept(s: string)
    requires s == "token=x"
    ensures Kept(SECRET, ' ', s) == Some(6) && !CleanHere(SECRET, ' ', s)
  {
    TokenName(s);
    assert s[5] == '=' && s[6] == 'x';
    assert |s[6..ValueEnd(SECRET, s, 6)]| <= 1 < |MARK|;
  }

  /** A text with a token in it. */
  lemma TokenShows(s: string)
    requires s == "token=x"
    ensures !FullyRedacted(s)
  {
    TokenKept(s);
    assert s[0..] == s;
    assert !CleanAt(SECRET, ' ', s, 0);
  }

  /** A row with a token in its URI: its request is not marked, although the URI was redacted. */
  lemma TokenMarkIsLost()
    ensures MakeRequest(RowAsWritten(["uri"], ["token=x"])).redacted
    ensures !MakeRequest(MakeRecord(["uri"], ["token=x"])).redacted
  {
    var fields, values := ["uri"], ["token=x"];
    assert fields[..0] == [];
    var r := RowAsWritten(fields, values);
    assert r == map["uri" := "token=x"] && r["uri"] == "token=x";
    TrimNothing("token=x");
    TokenShows(RecordValue(r, ["uri"]));
    MarkedIff(RowAsWritten(fields, values));
    ParsedRequestNeverRedacted(fields, values);
  }
}
