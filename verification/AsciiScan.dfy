/** Extraction of printable strings from a file that is read in chunks, under limits on length, count and bytes. */
module AsciiScan {
  import opened ByteStrings
  import opened Redaction

  const MAX_TEXT_BYTES := 4096
  const DEFAULT_MIN_LENGTH := 4
  const TRUNCATION_NOTE := "...[truncated]"

  datatype Options = Options(minLength: int, maxStrings: int, maxBytes: int, redactSecrets: bool)

  datatype Limits = Limits(minLength: nat, maxStrings: nat, maxBytes: nat, redactSecrets: bool) {
    ghost predicate Valid() { minLength >= 1 && maxStrings >= 1 && maxBytes >= 1 }
  }

  function Normalize(o: Options): (l: Limits)
    ensures l.Valid()
  {
    Limits(if o.minLength <= 0 then DEFAULT_MIN_LENGTH else o.minLength,
           if o.maxStrings <= 0 then 1 else o.maxStrings,
           if o.maxBytes <= 0 then 1024 else o.maxBytes, o.redactSecrets)
  }

  datatype Found = Found(offset: nat, length: nat, text: string, redacted: bool)

  datatype Report = Report(strings: seq<Found>, bytesReturned: nat, redacted: bool, truncated: bool)

  const EMPTY_REPORT := Report([], 0, false, false)

  predicate IsPrintable(c: char) {
    c == '\t' || ' ' <= c <= '~'
  }

  /** A run of printable bytes; `head` holds its first bytes, at most 4096 of them. */
  datatype Run = Run(offset: nat, length: nat, head: string)

  // ---------- the whole file ----------

  /** The number of printable bytes at the end. */
  function OpenLength(b: string): (n: nat)
    ensures n <= |b|
  {
    if b == "" || !IsPrintable(b[|b| - 1]) then 0 else 1 + OpenLength(b[..|b| - 1])
  }

  function Head(s: string): string {
    if |s| <= MAX_TEXT_BYTES then s else s[..MAX_TEXT_BYTES]
  }

  /** The run at the end. */
  function OpenRun(b: string): Run {
    var n := OpenLength(b);
    Run(|b| - n, n, Head(b[|b| - n..]))
  }

  function AddRun(runs: seq<Run>, r: Run): seq<Run> {
    if r.length == 0 then runs else runs + [r]
  }

  /** The runs that a later byte that is not printable has ended. */
  function EndedRuns(b: string): seq<Run> {
    if b == "" then []
    else
      var init := b[..|b| - 1];
      if IsPrintable(b[|b| - 1]) then EndedRuns(init) else AddRun(EndedRuns(init), OpenRun(init))
  }

  /** All maximal runs of a file, in order. */
  function Runs(b: string): seq<Run> {
    AddRun(EndedRuns(b), OpenRun(b))
  }

  datatype Progress = Progress(report: Report, stopped: bool)

  function RunText(r: Run): string {
    if r.length > |r.head| then r.head + TRUNCATION_NOTE else r.head
  }

  /** The text of a run as it is reported, if the byte limit leaves room, and whether redaction changed it. */
  function FullText(r: Run, l: Limits): (string, bool) {
    if l.redactSecrets then Redact(RunText(r)) else (RunText(r), false)
  }

  /** What the end of a run does to the report. */
  function Flush(p: Report, r: Run, l: Limits): Progress {
    if r.length < l.minLength then Progress(p, false)
    else
      var (full, redacted) := FullText(r, l);
      Record(p.(redacted := p.redacted || redacted), r.offset, r.length, full, redacted, l)
  }

  /** One more entry, as far as the limits allow. */
  function Record(p: Report, offset: nat, length: nat, full: string, redacted: bool, l: Limits): Progress {
    var remaining: int := l.maxBytes - p.bytesReturned;
    if remaining <= 0 then Progress(p.(truncated := true), true)
    else
      var text := if |full| > remaining then full[..remaining] else full;
      var strings := p.strings + [Found(offset, length, text, redacted)];
      var stop := p.truncated || |full| > remaining || |strings| >= l.maxStrings;
      Progress(Report(strings, p.bytesReturned + |text|, p.redacted, stop), stop)
  }

  /** The report over a list of runs; nothing happens after a stop. */
  function Fold(runs: seq<Run>, l: Limits): Progress {
    if runs == [] then Progress(EMPTY_REPORT, false)
    else
      var before := Fold(runs[..|runs| - 1], l);
      if before.stopped then before else Flush(before.report, runs[|runs| - 1], l)
  }

  /** What the scan of a file reports. */
  function Scan(b: string, l: Limits): Report {
    Fold(Runs(b), l).report
  }

  // ---------- the runs are exactly the maximal printable stretches ----------

  ghost predicate MaximalRun(b: string, o: nat, n: nat) {
    && n > 0 && o + n <= |b|
    && (forall i | o <= i < o + n :: IsPrintable(b[i]))
    && (o == 0 || !IsPrintable(b[o - 1]))
    && (o + n == |b| || !IsPrintable(b[o + n]))
  }

  lemma {:induction false} OpenLengthExact(b: string)
    ensures forall i | |b| - OpenLength(b) <= i < |b| :: IsPrintable(b[i])
    ensures OpenLength(b) < |b| ==> !IsPrintable(b[|b| - OpenLength(b) - 1])
  {
    if b != "" && IsPrintable(b[|b| - 1]) {
      var init := b[..|b| - 1];
      OpenLengthExact(init);
      assert forall i | 0 <= i < |init| :: b[i] == init[i];
    }
  }

  /** A maximal run of the text, but one that ends before its end. */
  ghost predicate EndedRun(b: string, o: nat, n: nat) {
    MaximalRun(b, o, n) && o + n < |b|
  }

  ghost predicate IsRunOf(b: string, r: Run) {
    MaximalRun(b, r.offset, r.length) && r.head == Head(b[r.offset..r.offset + r.length])
  }

  /** Listed in ascending order, without overlap. */
  ghost predicate Ascending(runs: seq<Run>) {
    forall i, j | 0 <= i < j < |runs| :: runs[i].offset + runs[i].length < runs[j].offset
  }

  lemma {:induction false} EndedRunsSound(b: string)
    ensures forall r | r in EndedRuns(b) :: IsRunOf(b, r) && r.offset + r.length < |b| - OpenLength(b)
  {
    if b != "" {
      var init := b[..|b| - 1];
      EndedRunsSound(init);
      OpenRunSound(init);
      forall r | r in EndedRuns(b)
        ensures IsRunOf(b, r) && r.offset + r.length < |b| - OpenLength(b)
      {
        StillARun(b, r);
      }
    }
  }

  lemma OpenRunSound(b: string)
    ensures OpenLength(b) > 0 ==> IsRunOf(b, OpenRun(b))
  {
    OpenLengthExact(b);
    var open := OpenRun(b);
    assert b[open.offset..] == b[open.offset..open.offset + open.length];
  }

  lemma {:induction false} EndedRunsAscending(b: string)
    ensures Ascending(EndedRuns(b))
  {
    if b != "" {
      EndedRunsAscending(b[..|b| - 1]);
      EndedRunsSound(b[..|b| - 1]);
    }
  }

  ghost predicate Listed(runs: seq<Run>, o: nat, n: nat) {
    exists r :: r in runs && r.offset == o && r.length == n
  }

  lemma {:induction false} EndedRunsComplete(b: string, o: nat, n: nat)
    requires EndedRun(b, o, n)
    ensures Listed(EndedRuns(b), o, n)
  {
    var init := b[..|b| - 1];
    assert forall i | 0 <= i < |init| :: b[i] == init[i];
    if o + n < |init| {
      EndedRunsComplete(init, o, n);
      var r :| r in EndedRuns(init) && r.offset == o && r.length == n;
      assert r in EndedRuns(b);
    } else {
      EndsAtOpen(init, o, n);
      assert OpenRun(init) in EndedRuns(b);
    }
  }

  lemma StillARun(b: string, r: Run)
    requires b != ""
    requires IsRunOf(b[..|b| - 1], r) && (r.offset + r.length < |b| - 1 || !IsPrintable(b[|b| - 1]))
    ensures IsRunOf(b, r)
  {
    var init := b[..|b| - 1];
    assert forall i | 0 <= i < |init| :: b[i] == init[i];
    assert b[r.offset..r.offset + r.length] == init[r.offset..r.offset + r.length];
  }

  lemma EndsAtOpen(b: string, o: nat, n: nat)
    requires n > 0 && o + n == |b| && (forall i | o <= i < o + n :: IsPrintable(b[i]))
             && (o == 0 || !IsPrintable(b[o - 1]))
    ensures OpenLength(b) == n
  {
    OpenLengthExact(b);
    var m := OpenLength(b);
    assert m < |b| ==> !IsPrintable(b[|b| - m - 1]);
    assert o > 0 ==> !IsPrintable(b[o - 1]);
  }

  /** The listed runs: ascending and disjoint, each maximal with exact offset, length and first bytes, and every
      maximal run is listed. */
  lemma RunsExact(b: string)
    ensures Ascending(Runs(b))
    ensures forall r | r in Runs(b) :: IsRunOf(b, r)
    ensures forall o: nat, n: nat | MaximalRun(b, o, n) :: Listed(Runs(b), o, n)
  {
    EndedRunsAscending(b);
    EndedRunsSound(b);
    OpenRunSound(b);
    forall o: nat, n: nat | MaximalRun(b, o, n)
      ensures Listed(Runs(b), o, n)
    {
      if o + n < |b| {
        EndedRunsComplete(b, o, n);
        var r :| r in EndedRuns(b) && r.offset == o && r.length == n;
        assert r in Runs(b);
      } else {
        EndsAtOpen(b, o, n);
        assert OpenRun(b) in Runs(b);
      }
    }
  }

  // ---------- what the report holds ----------

  /** The runs that are long enough. */
  function Qualifying(runs: seq<Run>, l: Limits): seq<Run> {
    if runs == [] then []
    else
      var before, r := Qualifying(runs[..|runs| - 1], l), runs[|runs| - 1];
      if r.length < l.minLength then before else before + [r]
  }

  function TextBytes(strings: seq<Found>): nat {
    if strings == [] then 0 else TextBytes(strings[..|strings| - 1]) + |strings[|strings| - 1].text|
  }

  /** Entry `e` reports run `r`, with its text in full or cut short. */
  ghost predicate Reports(e: Found, r: Run, l: Limits) {
    && e.offset == r.offset && e.length == r.length
    && e.text <= FullText(r, l).0 && e.redacted == FullText(r, l).1
  }

  ghost predicate InFull(e: Found, r: Run, l: Limits) {
    e.text == FullText(r, l).0
  }

  /** Entry by entry the first qualifying runs, in full or cut short. */
  ghost predicate EntriesReport(p: Report, q: seq<Run>, l: Limits) {
    |p.strings| <= |q| && forall i | 0 <= i < |p.strings| :: Reports(p.strings[i], q[i], l)
  }

  /** Only the last text may be cut short, and only by the byte limit. */
  ghost predicate CutAtEnd(p: Report, q: seq<Run>, l: Limits) {
    |p.strings| <= |q| &&
    forall i | 0 <= i < |p.strings| ::
        InFull(p.strings[i], q[i], l) || (i == |p.strings| - 1 && p.bytesReturned == l.maxBytes)
  }

  /** The limits, and what it means that they stopped the scan. */
  ghost predicate WithinLimits(p: Report, l: Limits, stopped: bool) {
    && |p.strings| <= l.maxStrings && p.bytesReturned == TextBytes(p.strings) <= l.maxBytes && p.truncated == stopped
    && (stopped ==> |p.strings| == l.maxStrings || p.bytesReturned == l.maxBytes)
    && (!stopped ==> |p.strings| < l.maxStrings)
  }

  ghost predicate SomeRedacted(strings: seq<Found>) {
    exists i :: 0 <= i < |strings| && strings[i].redacted
  }

  /** Redaction is reported for every changed text, and otherwise only for one the byte limit left no room for. */
  ghost predicate RedactionFlag(p: Report, l: Limits) {
    && (SomeRedacted(p.strings) ==> p.redacted)
    && (p.redacted ==> SomeRedacted(p.strings) || p.bytesReturned == l.maxBytes)
  }

  ghost predicate AllInFull(p: Report, q: seq<Run>, l: Limits) {
    |p.strings| == |q| && forall i | 0 <= i < |q| :: InFull(p.strings[i], q[i], l)
  }

  ghost predicate GoodReport(p: Report, q: seq<Run>, l: Limits, stopped: bool) {
    && EntriesReport(p, q, l) && CutAtEnd(p, q, l) && WithinLimits(p, l, stopped) && RedactionFlag(p, l)
    && (!stopped ==> AllInFull(p, q, l))
  }

  lemma EntriesAppend(p: Report, q: seq<Run>, r: Run, l: Limits, next: Report, e: Found)
    requires EntriesReport(p, q, l) && |p.strings| == |q| && next.strings == p.strings + [e] && Reports(e, r, l)
    ensures EntriesReport(next, q + [r], l)
  {
  }

  lemma CutAppend(p: Report, q: seq<Run>, r: Run, l: Limits, next: Report, e: Found)
    requires AllInFull(p, q, l) && next.strings == p.strings + [e]
             && (InFull(e, r, l) || next.bytesReturned == l.maxBytes)
    ensures CutAtEnd(next, q + [r], l) && (InFull(e, r, l) ==> AllInFull(next, q + [r], l))
  {
  }

  lemma LimitsAppend(p: Report, l: Limits, next: Report, e: Found, stopped: bool)
    requires WithinLimits(p, l, false) && next.strings == p.strings + [e]
    requires next.bytesReturned == p.bytesReturned + |e.text| <= l.maxBytes && next.truncated == stopped
    requires !stopped ==> |next.strings| < l.maxStrings
    requires stopped ==> |next.strings| >= l.maxStrings || next.bytesReturned == l.maxBytes
    ensures WithinLimits(next, l, stopped)
  {
    assert next.strings[..|p.strings|] == p.strings;
  }

  lemma SomeRedactedAppend(strings: seq<Found>, e: Found)
    ensures SomeRedacted(strings + [e]) <==> SomeRedacted(strings) || e.redacted
  {
    var all := strings + [e];
    assert all[|strings|] == e;
    if i :| 0 <= i < |strings| && strings[i].redacted { assert all[i].redacted; }
  }

  lemma FlagAppend(p: Report, l: Limits, next: Report, e: Found)
    requires RedactionFlag(p, l) && p.bytesReturned < l.maxBytes && next.strings == p.strings + [e]
    requires next.redacted == (p.redacted || e.redacted)
    ensures RedactionFlag(next, l)
  {
    SomeRedactedAppend(p.strings, e);
  }

  /** The entry that the end of a run adds. */
  lemma FlushEntry(p: Report, r: Run, l: Limits) returns (e: Found)
    requires l.Valid() && r.length >= l.minLength && p.bytesReturned < l.maxBytes && !p.truncated
    ensures var next := Flush(p, r, l);
            && next.report.strings == p.strings + [e]
            && next.report.bytesReturned == p.bytesReturned + |e.text| <= l.maxBytes
            && Reports(e, r, l) && (InFull(e, r, l) || next.report.bytesReturned == l.maxBytes)
            && (next.stopped ==> |p.strings| + 1 >= l.maxStrings || next.report.bytesReturned == l.maxBytes)
            && (!next.stopped ==> InFull(e, r, l))
            && next.report.redacted == (p.redacted || e.redacted)
            && next.report.truncated == next.stopped
            && (|p.strings| + 1 >= l.maxStrings ==> next.stopped)
  {
    var (full, redacted) := FullText(r, l);
    var remaining := l.maxBytes - p.bytesReturned;
    var text := if |full| > remaining then full[..remaining] else full;
    e := Found(r.offset, r.length, text, redacted);
  }

  lemma GoodAppend(p: Report, q: seq<Run>, r: Run, l: Limits, next: Report, e: Found, stopped: bool)
    requires GoodReport(p, q, l, false) && p.bytesReturned < l.maxBytes && next.strings == p.strings + [e]
             && Reports(e, r, l)
    requires !stopped ==> InFull(e, r, l) && |next.strings| < l.maxStrings
    requires InFull(e, r, l) || (stopped && next.bytesReturned == l.maxBytes)
    requires stopped ==> |next.strings| >= l.maxStrings || next.bytesReturned == l.maxBytes
    requires next.redacted == (p.redacted || e.redacted)
    requires next.bytesReturned == p.bytesReturned + |e.text| <= l.maxBytes && next.truncated == stopped
    ensures GoodReport(next, q + [r], l, stopped)
  {
    EntriesAppend(p, q, r, l, next, e);
    CutAppend(p, q, r, l, next, e);
    LimitsAppend(p, l, next, e, stopped);
    FlagAppend(p, l, next, e);
  }

  lemma FlushKeeps(p: Report, q: seq<Run>, r: Run, l: Limits)
    requires l.Valid() && GoodReport(p, q, l, false)
    ensures GoodReport(Flush(p, r, l).report, if r.length < l.minLength then q else q + [r], l, Flush(p, r, l).stopped)
  {
    if r.length >= l.minLength && p.bytesReturned < l.maxBytes {
      var e := FlushEntry(p, r, l);
      GoodAppend(p, q, r, l, Flush(p, r, l).report, e, Flush(p, r, l).stopped);
    }
  }

  lemma {:induction false} FoldGood(runs: seq<Run>, l: Limits)
    requires l.Valid()
    ensures GoodReport(Fold(runs, l).report, Qualifying(runs, l), l, Fold(runs, l).stopped)
  {
    if runs != [] {
      var init, r := runs[..|runs| - 1], runs[|runs| - 1];
      FoldGood(init, l);
      if !Fold(init, l).stopped { FlushKeeps(Fold(init, l).report, Qualifying(init, l), r, l); }
    }
  }

  /** The report of a file: its entries are, in order, the first qualifying maximal runs, with exact offset and
      length; a text is cut short only at the end, and only by the byte limit; the bytes returned are the sum of the
      texts and within the limit, like the number of entries; unless the report says truncated, every qualifying
      run is there in full, and it says truncated only when one of the two limits is reached. */
  lemma ScanExact(b: string, o: Options)
    ensures var l := Normalize(o);
            var p := Scan(b, l);
            GoodReport(p, Qualifying(Runs(b), l), l, p.truncated)
  {
    FoldGood(Runs(b), Normalize(o));
  }

  // ---------- the scanner ----------

  lemma {:induction false} FoldPrefix(runs: seq<Run>, more: seq<Run>, l: Limits)
    requires Fold(runs, l).stopped
    ensures Fold(runs + more, l) == Fold(runs, l)
  {
    if more == [] {
      assert runs + more == runs;
    } else {
      var init := more[..|more| - 1];
      FoldPrefix(runs, init, l);
      assert (runs + more)[..|runs + more| - 1] == runs + init;
    }
  }

  /** Reading more bytes only adds runs at the end. */
  lemma {:induction false} EndedRunsGrow(b: string, more: string)
    ensures EndedRuns(b) <= EndedRuns(b + more)
  {
    if more == "" {
      assert b + more == b;
    } else {
      var init := more[..|more| - 1];
      EndedRunsGrow(b, init);
      assert (b + more)[..|b + more| - 1] == b + init;
    }
  }

  lemma FoldGrows(b: string, more: string, l: Limits)
    requires Fold(EndedRuns(b), l).stopped
    ensures Fold(EndedRuns(b + more), l) == Fold(EndedRuns(b), l)
  {
    EndedRunsGrow(b, more);
    var all, some := EndedRuns(b + more), EndedRuns(b);
    assert all == some + all[|some|..];
    FoldPrefix(some, all[|some|..], l);
  }

  lemma FoldAddRun(runs: seq<Run>, r: Run, l: Limits)
    requires Fold(runs, l).stopped
    ensures Fold(AddRun(runs, r), l) == Fold(runs, l)
  {
    FoldPrefix(runs, [r], l);
  }

  /** Once the scan has stopped, the rest of the file does not matter. */
  lemma StoppedScan(b: string, more: string, l: Limits)
    requires Fold(EndedRuns(b), l).stopped
    ensures Scan(b + more, l) == Fold(EndedRuns(b), l).report
  {
    FoldGrows(b, more, l);
    FoldAddRun(EndedRuns(b + more), OpenRun(b + more), l);
  }

  /** One more printable byte makes the run at the end longer. */
  lemma HeadGrows(b: string, c: char)
    requires IsPrintable(c)
    ensures OpenLength(b + [c]) == OpenLength(b) + 1 && OpenRun(b + [c]).offset == |b| - OpenLength(b)
    ensures |OpenRun(b).head| == if OpenLength(b) <= MAX_TEXT_BYTES then OpenLength(b) else MAX_TEXT_BYTES
    ensures OpenRun(b + [c]).head ==
            if |OpenRun(b).head| < MAX_TEXT_BYTES then OpenRun(b).head + [c] else OpenRun(b).head
  {
    assert (b + [c])[..|b|] == b;
    var n := OpenLength(b);
    assert (b + [c])[|b| - n..] == b[|b| - n..] + [c];
  }

  function Concat(chunks: seq<string>): string {
    if chunks == [] then "" else chunks[0] + Concat(chunks[1..])
  }

  /** The current run, as the scanner keeps it. */
  class Scanner {
    const limits: Limits
    var report: Report
    var current: string
    var currentLength: nat
    var currentOffset: nat

    constructor (limits: Limits)
      ensures this.limits == limits && report == EMPTY_REPORT && current == "" && currentLength == 0
    {
      this.limits := limits;
      report, current, currentLength, currentOffset := EMPTY_REPORT, "", 0, 0;
    }

    /** The scanner has seen exactly the bytes `b`. */
    ghost predicate HasSeen(b: string)
      reads this
    {
      && Fold(EndedRuns(b), limits) == Progress(report, false)
      && currentLength == OpenLength(b) && current == OpenRun(b).head
      && (currentLength > 0 ==> currentOffset == OpenRun(b).offset)
    }

    /** Adds an entry, and says whether to stop. */
    method AddEntry(offset: nat, length: nat, full: string, redacted: bool) returns (stop: bool)
      modifies this`report
      ensures Progress(report, stop) == Record(old(report), offset, length, full, redacted, limits)
    {
      var text := full;
      var remaining: int := limits.maxBytes - report.bytesReturned;
      if remaining <= 0 {
        report := report.(truncated := true);
        return true;
      }
      if |text| > remaining {
        text := text[..remaining];
        report := report.(truncated := true);
      }
      report := report.(strings := report.strings + [Found(offset, length, text, redacted)],
                        bytesReturned := report.bytesReturned + |text|);
      if report.truncated || |report.strings| >= limits.maxStrings {
        report := report.(truncated := true);
        return true;
      }
      return false;
    }

    /** Ends the current run, and says whether to stop. */
    method FlushCurrent() returns (stop: bool)
      modifies this
      ensures currentLength == 0 && current == ""
      ensures Progress(report, stop) ==
              Flush(old(report), Run(old(currentOffset), old(currentLength), old(current)), limits)
    {
      var length, text := currentLength, current;
      current, currentLength := "", 0;
      if length < limits.minLength { return false; }
      if length > |text| { text := text + TRUNCATION_NOTE; }
      var redacted := false;
      if limits.redactSecrets {
        var r := Redact(text);
        text, redacted := r.0, r.1;
        report := report.(redacted := report.redacted || redacted);
      }
      stop := AddEntry(currentOffset, length, text, redacted);
    }

    /** One byte at file position `at`. */
    method Take(c: char, at: nat, ghost b: string) returns (stop: bool)
      requires limits.Valid() && at == |b| && HasSeen(b)
      modifies this
      ensures !stop ==> HasSeen(b + [c])
      ensures stop ==> Fold(EndedRuns(b + [c]), limits) == Progress(report, true)
    {
      assert (b + [c])[..|b|] == b;
      ghost var more := b + [c];
      if IsPrintable(c) {
        if currentLength == 0 { currentOffset := at; }
        currentLength := currentLength + 1;
        HeadGrows(b, c);
        if |current| < MAX_TEXT_BYTES { current := current + [c]; }
        return false;
      }
      assert currentLength == 0 ==> !Flush(report, Run(currentOffset, 0, current), limits).stopped;
      stop := FlushCurrent();
    }

    /** All bytes of one chunk that starts at file position `offset`. */
    method TakeChunk(chunk: string, offset: nat, ghost seen: string) returns (stop: bool)
      requires limits.Valid() && offset == |seen| && HasSeen(seen)
      modifies this
      ensures !stop ==> HasSeen(seen + chunk)
      ensures stop ==> Fold(EndedRuns(seen + chunk), limits) == Progress(report, true)
    {
      ghost var b := seen;
      for i := 0 to |chunk|
        invariant HasSeen(b) && b == seen + chunk[..i]
      {
        stop := Take(chunk[i], offset + i, b);
        b := b + [chunk[i]];
        AppendOne(seen, chunk, i);
        if stop {
          FoldGrows(b, chunk[i + 1..], limits);
          return true;
        }
      }
      AppendOne(seen, chunk, |chunk|);
      return false;
    }
  }

  lemma AppendOne(seen: string, chunk: string, i: nat)
    requires i <= |chunk|
    ensures i < |chunk| ==> (seen + chunk[..i]) + [chunk[i]] == seen + chunk[..i + 1]
    ensures i < |chunk| ==> (seen + chunk[..i + 1]) + chunk[i + 1..] == seen + chunk
    ensures i == |chunk| ==> seen + chunk[..i] == seen + chunk
  {
  }

  /** The whole extraction. The chunks are what the reads deliver; after them the file ends, or reading fails. */
  method ExtractStrings(chunks: seq<string>, readFails: bool, options: Options) returns (r: Option<Report>)
    ensures var l, b := Normalize(options), Concat(chunks);
            r == if readFails && !Fold(EndedRuns(b), l).stopped then None else Some(Scan(b, l))
  {
    var l := Normalize(options);
    var scanner := new Scanner(l);
    var offset := 0;
    ghost var all := Concat(chunks);
    ghost var seen := "";
    assert OpenRun("") == Run(0, 0, "");
    for k := 0 to |chunks|
      invariant fresh(scanner) && scanner.limits == l
      invariant seen == Concat(chunks[..k]) && offset == |seen| && scanner.HasSeen(seen)
    {
      var chunk := chunks[k];
      ConcatSplit(chunks, k);
      var stop := scanner.TakeChunk(chunk, offset, seen);
      if stop {
        ghost var rest := Concat(chunks[k + 1..]);
        assert all == (seen + chunk) + rest;
        StoppedScan(seen + chunk, rest, l);
        FoldGrows(seen + chunk, rest, l);
        return Some(scanner.report);
      }
      seen := seen + chunk;
      offset := offset + |chunk|;
    }
    assert chunks[..|chunks|] == chunks;
    if readFails { return None; }
    var stop := scanner.FlushCurrent();
    r := Some(scanner.report);
  }

  lemma {:induction false} ConcatAppend(s: seq<string>, t: seq<string>)
    ensures Concat(s + t) == Concat(s) + Concat(t)
  {
    if s == [] {
      assert s + t == t;
    } else {
      assert (s + t)[0] == s[0] && (s + t)[1..] == s[1..] + t;
      ConcatAppend(s[1..], t);
    }
  }

  lemma ConcatOne(s: string)
    ensures Concat([s]) == s
  {
    assert [s][1..] == [];
  }

  lemma ConcatSplit(chunks: seq<string>, k: nat)
    requires k < |chunks|
    ensures Concat(chunks) == Concat(chunks[..k]) + chunks[k] + Concat(chunks[k + 1..])
    ensures Concat(chunks[..k + 1]) == Concat(chunks[..k]) + chunks[k]
  {
    ConcatNext(chunks, k);
    ConcatCut(chunks, k + 1);
  }

  lemma ConcatCut(chunks: seq<string>, k: nat)
    requires k <= |chunks|
    ensures Concat(chunks) == Concat(chunks[..k]) + Concat(chunks[k..])
  {
    assert chunks == chunks[..k] + chunks[k..];
    ConcatAppend(chunks[..k], chunks[k..]);
  }

  lemma ConcatNext(chunks: seq<string>, k: nat)
    requires k < |chunks|
    ensures Concat(chunks[..k + 1]) == Concat(chunks[..k]) + chunks[k]
  {
    var before, last := chunks[..k], [chunks[k]];
    assert chunks[..k + 1] == before + last;
    ConcatAppend(before, last);
    ConcatOne(chunks[k]);
  }
}
