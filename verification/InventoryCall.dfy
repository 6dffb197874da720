/** One inventory call: the walk callback updates counters, the response and the hash budget, and stops the walk. */
module InventoryCall {
  import opened ByteStrings
  import opened RelPaths
  import opened InventoryWalk
  import opened InventoryPaging
  import opened ArtifactNames
  import opened ArtifactHash
  import Sorting

  const SKIP_INACCESSIBLE := "artifact_inaccessible"
  const SKIP_UNSUPPORTED := "unsupported_artifact_extension"
  const SKIP_NOT_REGULAR := "artifact_not_regular_file"

  datatype HashStatus = Computed(fed: seq<bv8>) | OmittedBudget | OmittedUnavailable

  datatype Entry = Entry(path: string, size: nat, hash: HashStatus)

  datatype EntryOrSkip = AnEntry(entry: Entry) | SkipIt(reason: string)

  /** The state of a call. `hashLeft` is the remaining hash budget. */
  datatype CallState = CallState(
    scanned: nat, last: Option<Key>, artifacts: seq<Entry>, skips: map<string, nat>, hashLeft: nat, status: ScanStatus)

  function Started(hashBudget: nat): CallState {
    CallState(0, None, [], map[], hashBudget, Complete)
  }

  /** The response entry for a file, and the hash budget after it. */
  function EntryFor(probe: Probe, hashLeft: nat): (EntryOrSkip, nat) {
    match probe
    case Rejected(reason) => (SkipIt(reason), hashLeft)
    case Resolved(target, size, file) =>
      if !IsPcapName(target) then (SkipIt(SKIP_UNSUPPORTED), hashLeft)
      else if size > hashLeft then (AnEntry(Entry(target, size, OmittedBudget)), hashLeft)
      else
        var (outcome, bytesRead) := HashSpec(file, hashLeft);
        var status :=
          match outcome
          case Hashed(fed) => Computed(fed)
          case BudgetReached => OmittedBudget
          case Unavailable => OmittedUnavailable;
        (AnEntry(Entry(target, size, status)), if bytesRead > hashLeft then 0 else hashLeft - bytesRead)
  }

  function AddSkip(skips: map<string, nat>, reason: string): map<string, nat> {
    skips[reason := (if reason in skips then skips[reason] else 0) + 1]
  }

  /** One counted callback. */
  function Handle(v: Visit, st: CallState, limit: nat, maxScan: nat): CallState {
    var seen := st.(scanned := st.scanned + 1, last := Some(KeyOf(v)));
    var rel := Join(v.path);
    var done :=
      match v.seen
      case SawListError => seen.(skips := AddSkip(seen.skips, SKIP_INACCESSIBLE))
      case SawDir => if IsPcapName(rel) then seen.(skips := AddSkip(seen.skips, SKIP_NOT_REGULAR)) else seen
      case SawFile(probe) =>
        if !IsPcapName(rel) then seen
        else
          var (entry, left) := EntryFor(probe, seen.hashLeft);
          match entry
          case SkipIt(reason) => seen.(skips := AddSkip(seen.skips, reason), hashLeft := left)
          case AnEntry(e) => seen.(artifacts := seen.artifacts + [e], hashLeft := left);
    if done.scanned >= maxScan then done.(status := ScanBudgetReached)
    else if IsArtifact(v) && |done.artifacts| >= limit then done.(status := PageLimitReached)
    else done
  }

  /** The counted callbacks one after the other, until one stops the walk. */
  function Process(s: seq<Visit>, st: CallState, limit: nat, maxScan: nat): CallState {
    if s == [] || !st.status.Complete? then st
    else Process(s[1..], Handle(s[0], st, limit, maxScan), limit, maxScan)
  }

  lemma {:induction false} ProcessConcat(s: seq<Visit>, t: seq<Visit>, st: CallState, limit: nat, maxScan: nat)
    ensures Process(s + t, st, limit, maxScan) == Process(t, Process(s, st, limit, maxScan), limit, maxScan)
  {
    if s == [] {
      assert s + t == t;
    } else if st.status.Complete? {
      assert (s + t)[0] == s[0] && (s + t)[1..] == s[1..] + t;
      ProcessConcat(s[1..], t, Handle(s[0], st, limit, maxScan), limit, maxScan);
    }
  }

  /** One callback, seen through the page bookkeeping. */
  lemma HandleStep(v: Visit, st: CallState, limit: nat, maxScan: nat)
    requires st.status.Complete?
    ensures var next := Handle(v, st, limit, maxScan);
            && next.scanned == st.scanned + 1 && next.last == Some(KeyOf(v))
            && |next.artifacts| == |st.artifacts| + (if IsArtifact(v) then 1 else 0)
            && next.status == (if st.scanned + 1 >= maxScan then ScanBudgetReached
                               else if IsArtifact(v) && |st.artifacts| + 1 >= limit then PageLimitReached
                               else Complete)
  {
  }

  /** A call handles exactly the visits of one page: their number, the last key, the artifact count and the
      scan status of the response are those of `Page`. */
  lemma {:induction false} ProcessIsPage(s: seq<Visit>, st: CallState, limit: nat, maxScan: nat)
    requires st.status.Complete?
    ensures var (page, status) := Page(s, limit, maxScan, st.scanned, |st.artifacts|);
            var end := Process(s, st, limit, maxScan);
            end.status == status && HandledPage(st, page, end)
  {
    if s != [] {
      var next := Handle(s[0], st, limit, maxScan);
      HandleStep(s[0], st, limit, maxScan);
      PageHead(s, st, next, limit, maxScan);
      ProcessHead(s, st, limit, maxScan);
      if next.status.Complete? {
        ProcessIsPage(s[1..], next, limit, maxScan);
        HandledOneMore(s[0], st, next, Page(s[1..], limit, maxScan, next.scanned, |next.artifacts|).0,
                       Process(s[1..], next, limit, maxScan));
      } else {
        HandledOneMore(s[0], st, next, [], next);
        assert [s[0]] + [] == [s[0]];
      }
    }
  }

  /** The first visit of a page, told by the state after it. */
  lemma PageHead(s: seq<Visit>, st: CallState, next: CallState, limit: nat, maxScan: nat)
    requires s != [] && next.scanned == st.scanned + 1
    requires |next.artifacts| == |st.artifacts| + (if IsArtifact(s[0]) then 1 else 0)
    requires next.status == (if st.scanned + 1 >= maxScan then ScanBudgetReached
                             else if IsArtifact(s[0]) && |st.artifacts| + 1 >= limit then PageLimitReached
                             else Complete)
    ensures var rest := Page(s[1..], limit, maxScan, next.scanned, |next.artifacts|);
            Page(s, limit, maxScan, st.scanned, |st.artifacts|) ==
            if next.status.Complete? then ([s[0]] + rest.0, rest.1) else ([s[0]], next.status)
  {
  }

  lemma ProcessHead(s: seq<Visit>, st: CallState, limit: nat, maxScan: nat)
    requires s != [] && st.status.Complete?
    ensures var next := Handle(s[0], st, limit, maxScan);
            Process(s, st, limit, maxScan) ==
            if next.status.Complete? then Process(s[1..], next, limit, maxScan) else next
  {
    var next := Handle(s[0], st, limit, maxScan);
    if !next.status.Complete? { assert Process(s[1..], next, limit, maxScan) == next; }
  }

  /** The state after handling a page: the number of visits, the last key and the number of artifacts. */
  ghost predicate HandledPage(before: CallState, page: seq<Visit>, after: CallState) {
    && after.scanned == before.scanned + |page|
    && after.last == (if page == [] then before.last else Some(KeyOf(Last(page))))
    && |after.artifacts| == |before.artifacts| + ArtifactCount(page)
  }

  lemma HandledOneMore(v: Visit, st: CallState, next: CallState, page: seq<Visit>, end: CallState)
    requires next.scanned == st.scanned + 1 && next.last == Some(KeyOf(v))
    requires |next.artifacts| == |st.artifacts| + (if IsArtifact(v) then 1 else 0)
    requires HandledPage(next, page, end)
    ensures HandledPage(st, [v] + page, end)
  {
    ArtifactCountCons(v, page);
  }

  lemma ArtifactCountCons(v: Visit, s: seq<Visit>)
    ensures ArtifactCount([v] + s) == (if IsArtifact(v) then 1 else 0) + ArtifactCount(s)
  {
    assert ([v] + s)[0] == v && ([v] + s)[1..] == s;
  }

  function ArtifactCount(s: seq<Visit>): nat {
    if s == [] then 0 else (if IsArtifact(s[0]) then 1 else 0) + ArtifactCount(s[1..])
  }

  // ---------- what becomes of every visit ----------

  /** Why a visit is counted as skipped, if it is. */
  function SkipReason(v: Visit): Option<string> {
    match v.seen
    case SawListError => Some(SKIP_INACCESSIBLE)
    case SawDir => if IsPcapName(Join(v.path)) then Some(SKIP_NOT_REGULAR) else None
    case SawFile(probe) =>
      if !IsPcapName(Join(v.path)) then None
      else match probe
        case Rejected(reason) => Some(reason)
        case Resolved(target, _, _) => if IsPcapName(target) then None else Some(SKIP_UNSUPPORTED)
  }

  function HasReason(reason: string): Visit -> bool {
    (v: Visit) => SkipReason(v) == Some(reason)
  }

  function CountOf(skips: map<string, nat>, reason: string): nat {
    if reason in skips then skips[reason] else 0
  }

  function Paths(entries: seq<Entry>): seq<string> {
    if entries == [] then [] else Paths(entries[..|entries| - 1]) + [entries[|entries| - 1].path]
  }

  /** The resolved paths of the visits that are artifacts. */
  function Targets(s: seq<Visit>): seq<string> {
    if s == [] then [] else (if IsArtifact(s[0]) then [s[0].seen.probe.target] else []) + Targets(s[1..])
  }

  /** The visits of a page in the response: its artifacts in scan order, and under every reason the number of
      visits skipped for it. */
  ghost predicate Accounts(before: CallState, page: seq<Visit>, after: CallState, reason: string) {
    && Paths(after.artifacts) == Paths(before.artifacts) + Targets(page)
    && CountOf(after.skips, reason) == CountOf(before.skips, reason) + |Sorting.Filter(HasReason(reason), page)|
  }

  lemma HandleArtifacts(v: Visit, st: CallState, limit: nat, maxScan: nat)
    ensures var next := Handle(v, st, limit, maxScan).artifacts;
            if IsArtifact(v) then |next| == |st.artifacts| + 1 && next[..|st.artifacts|] == st.artifacts
                                  && next[|st.artifacts|].path == v.seen.probe.target
            else next == st.artifacts
  {
  }

  lemma HandlePaths(v: Visit, st: CallState, limit: nat, maxScan: nat)
    ensures Paths(Handle(v, st, limit, maxScan).artifacts) == Paths(st.artifacts) + Targets([v])
  {
    OneTarget(v);
    HandleArtifacts(v, st, limit, maxScan);
  }

  lemma HandleSkips(v: Visit, st: CallState, limit: nat, maxScan: nat, reason: string)
    ensures CountOf(Handle(v, st, limit, maxScan).skips, reason) ==
            CountOf(st.skips, reason) + if SkipReason(v) == Some(reason) then 1 else 0
  {
  }

  lemma HandleAccounts(v: Visit, st: CallState, limit: nat, maxScan: nat, reason: string)
    ensures Accounts(st, [v], Handle(v, st, limit, maxScan), reason)
  {
    HandlePaths(v, st, limit, maxScan);
    HandleSkips(v, st, limit, maxScan, reason);
    assert Sorting.Filter(HasReason(reason), [v]) == if SkipReason(v) == Some(reason) then [v] else [];
  }

  lemma OneTarget(v: Visit)
    ensures Targets([v]) == if IsArtifact(v) then [v.seen.probe.target] else []
  {
    assert [v][1..] == [] && Targets([]) == [];
  }

  lemma AccountsConcat(a: CallState, v: Visit, b: CallState, page: seq<Visit>, c: CallState, reason: string)
    requires Accounts(a, [v], b, reason) && Accounts(b, page, c, reason)
    ensures Accounts(a, [v] + page, c, reason)
  {
    Sorting.FilterConcat(HasReason(reason), [v], page);
    TargetsCons(v, page);
    Sorting.Regroup(Paths(a.artifacts), Targets([v]), Targets(page));
  }

  lemma TargetsCons(v: Visit, page: seq<Visit>)
    ensures Targets([v] + page) == Targets([v]) + Targets(page)
  {
    assert ([v] + page)[0] == v && ([v] + page)[1..] == page;
    assert [v][1..] == [] && Targets([]) == [];
  }

  /** Nothing a call scans is lost from its response, and nothing else is in it. */
  lemma {:induction false} ProcessAccounts(s: seq<Visit>, st: CallState, limit: nat, maxScan: nat, reason: string)
    requires st.status.Complete?
    ensures Accounts(st, Page(s, limit, maxScan, st.scanned, |st.artifacts|).0, Process(s, st, limit, maxScan), reason)
  {
    if s != [] {
      var next := Handle(s[0], st, limit, maxScan);
      HandleStep(s[0], st, limit, maxScan);
      HandleAccounts(s[0], st, limit, maxScan, reason);
      PageHead(s, st, next, limit, maxScan);
      ProcessHead(s, st, limit, maxScan);
      if next.status.Complete? {
        ProcessAccounts(s[1..], next, limit, maxScan, reason);
        AccountsConcat(st, s[0], next, Page(s[1..], limit, maxScan, next.scanned, |next.artifacts|).0,
                       Process(s[1..], next, limit, maxScan), reason);
      }
    }
  }

  // ---------- the hash budget ----------

  /** The bytes of the computed hashes of a list of entries. */
  function FedBytes(entries: seq<Entry>): nat {
    if entries == [] then 0
    else FedBytes(entries[..|entries| - 1]) +
         var h := entries[|entries| - 1].hash; if h.Computed? then |h.fed| else 0
  }

  /** The sizes of the entries whose hash was computed. */
  function ComputedSizes(entries: seq<Entry>): nat {
    if entries == [] then 0
    else ComputedSizes(entries[..|entries| - 1]) +
         var e := entries[|entries| - 1]; if e.hash.Computed? then e.size else 0
  }

  /** A file that can be read, without failures, and has the size that was reported. */
  predicate ReliableProbe(probe: Probe) {
    probe.Resolved? ==> probe.file.Opened? && Fail !in probe.file.steps && probe.size == |probe.file.content|
  }

  predicate Reliable(v: Visit) {
    v.seen.SawFile? ==> ReliableProbe(v.seen.probe)
  }

  /** An entry whose hash was computed was read in full, and the budget pays for exactly what was read. */
  lemma EntryForBudget(probe: Probe, hashLeft: nat)
    ensures var (entry, left) := EntryFor(probe, hashLeft);
            && left <= hashLeft
            && (entry.AnEntry? && entry.entry.hash.Computed? ==>
                  probe.Resolved? && probe.file.Opened? && entry.entry.hash.fed == probe.file.content
                  && left == hashLeft - |probe.file.content|)
            && (ReliableProbe(probe) && !(entry.AnEntry? && entry.entry.hash.Computed?) ==> left == hashLeft)
            && (entry.AnEntry? && entry.entry.hash.OmittedUnavailable? ==>
                  probe.Resolved? && (probe.file.CannotOpen? || Fail in probe.file.steps))
  {
    if probe.Resolved? && probe.file.Opened? {
      HashFromSound(probe.file.content, 0, probe.file.steps, hashLeft);
    }
  }

  /** The bytes that one callback reads for hashing. */
  function VisitReads(v: Visit, hashLeft: nat): nat {
    if !v.seen.SawFile? || !IsPcapName(Join(v.path)) then 0
    else match v.seen.probe
      case Rejected(_) => 0
      case Resolved(target, size, file) =>
        if IsPcapName(target) && size <= hashLeft then HashSpec(file, hashLeft).1 else 0
  }

  /** The bytes that all callbacks of a call read. */
  function BytesRead(s: seq<Visit>, st: CallState, limit: nat, maxScan: nat): nat {
    if s == [] || !st.status.Complete? then 0
    else VisitReads(s[0], st.hashLeft) + BytesRead(s[1..], Handle(s[0], st, limit, maxScan), limit, maxScan)
  }

  /** One callback pays exactly for what it reads: the clamp at zero never takes effect. */
  lemma HandleReads(v: Visit, st: CallState, limit: nat, maxScan: nat)
    ensures Handle(v, st, limit, maxScan).hashLeft == st.hashLeft - VisitReads(v, st.hashLeft)
  {
    if v.seen.SawFile? && v.seen.probe.Resolved? && v.seen.probe.file.Opened? {
      HashFromSound(v.seen.probe.file.content, 0, v.seen.probe.file.steps, st.hashLeft);
    }
  }

  /** What one callback, or many, may do to the budget. */
  ghost predicate BudgetKept(before: CallState, after: CallState, reliable: bool) {
    && after.hashLeft <= before.hashLeft
    && FedBytes(after.artifacts) - FedBytes(before.artifacts) <= before.hashLeft - after.hashLeft
    && (reliable ==>
          ComputedSizes(after.artifacts) - ComputedSizes(before.artifacts) == before.hashLeft - after.hashLeft)
  }

  lemma HandleBudget(v: Visit, st: CallState, limit: nat, maxScan: nat)
    ensures BudgetKept(st, Handle(v, st, limit, maxScan), Reliable(v))
  {
    var next := Handle(v, st, limit, maxScan);
    if v.seen.SawFile? && IsPcapName(Join(v.path)) {
      var (entry, left) := EntryFor(v.seen.probe, st.hashLeft);
      EntryForBudget(v.seen.probe, st.hashLeft);
      assert next.hashLeft == left;
      if entry.AnEntry? {
        assert next.artifacts == st.artifacts + [entry.entry];
        SumsAppend(st.artifacts, entry.entry);
      }
    } else {
      assert next.artifacts == st.artifacts && next.hashLeft == st.hashLeft;
    }
  }

  lemma SumsAppend(entries: seq<Entry>, e: Entry)
    ensures FedBytes(entries + [e]) == FedBytes(entries) + if e.hash.Computed? then |e.hash.fed| else 0
    ensures ComputedSizes(entries + [e]) == ComputedSizes(entries) + if e.hash.Computed? then e.size else 0
  {
    assert (entries + [e])[..|entries|] == entries;
  }

  /** Conservation over a whole call: the budget pays exactly for the bytes read, also where a read fails or the
      budget ends in the middle of a file; these are at least the bytes of all computed hashes, and with reliable
      files exactly the sizes of the entries reported as computed. */
  lemma {:induction false} HashBudgetConserved(s: seq<Visit>, st: CallState, limit: nat, maxScan: nat)
    ensures BudgetKept(st, Process(s, st, limit, maxScan), forall v | v in s :: Reliable(v))
    ensures st.hashLeft - Process(s, st, limit, maxScan).hashLeft == BytesRead(s, st, limit, maxScan)
  {
    if s != [] && st.status.Complete? {
      assert s[0] in s;
      HandleReads(s[0], st, limit, maxScan);
      HandleBudget(s[0], st, limit, maxScan);
      HashBudgetConserved(s[1..], Handle(s[0], st, limit, maxScan), limit, maxScan);
    }
  }

  // ---------- the call, as the program runs it ----------

  function AfterRoot(r: nat, l: Listing, cursor: Option<Cursor>, st: CallState, limit: nat, maxScan: nat): CallState {
    if cursor.Some? && r < cursor.value.rootIndex then st else Process(Counted(r, [], l, cursor), st, limit, maxScan)
  }

  /** One root after the other: the roots before the cursor's are left out. */
  lemma NextRoot(roots: seq<Listing>, r: nat, cursor: Option<Cursor>, st: CallState, limit: nat, maxScan: nat)
    requires r < |roots|
    ensures Process(PendingFrom(roots, r, cursor), st, limit, maxScan) ==
            Process(PendingFrom(roots, r + 1, cursor), AfterRoot(r, roots[r], cursor, st, limit, maxScan),
                    limit, maxScan)
  {
    var here := if cursor.Some? && r < cursor.value.rootIndex then [] else Counted(r, [], roots[r], cursor);
    ProcessConcat(here, PendingFrom(roots, r + 1, cursor), st, limit, maxScan);
  }

  class Inventory {
    const limit: nat
    const maxScan: nat
    const hashBudget: nat
    var scanned: nat
    var last: Option<Key>
    var artifacts: seq<Entry>
    var skips: map<string, nat>
    var hashLeft: nat
    var truncated: bool
    var status: ScanStatus

    ghost predicate Valid()
      reads this
    {
      truncated == !status.Complete?
    }

    ghost function State(): CallState
      reads this
    {
      CallState(scanned, last, artifacts, skips, hashLeft, status)
    }

    constructor (limit: nat, maxScan: nat, hashBudget: nat)
      ensures Valid() && State() == Started(hashBudget)
      ensures this.limit == limit && this.maxScan == maxScan && this.hashBudget == hashBudget
    {
      this.limit, this.maxScan, this.hashBudget := limit, maxScan, hashBudget;
      scanned, last, artifacts, skips, hashLeft, truncated, status := 0, None, [], map[], hashBudget, false, Complete;
    }

    method StopIfNeeded() returns (stop: bool)
      requires Valid() && status.Complete? && last.Some?
      modifies this
      ensures Valid() && stop == (scanned >= maxScan)
      ensures State() == old(State()).(status := if stop then ScanBudgetReached else Complete)
    {
      stop := scanned >= maxScan;
      if stop { truncated, status := true, ScanBudgetReached; }
    }

    method EntryForPath(probe: Probe) returns (r: EntryOrSkip)
      requires Valid()
      modifies this`hashLeft
      ensures (r, hashLeft) == EntryFor(probe, old(hashLeft))
    {
      if probe.Rejected? { return SkipIt(probe.reason); }
      if !IsPcapName(probe.target) { return SkipIt(SKIP_UNSUPPORTED); }
      if probe.size > hashLeft { return AnEntry(Entry(probe.target, probe.size, OmittedBudget)); }
      var outcome, bytesRead := HashFile(probe.file, hashLeft);
      hashLeft := if bytesRead > hashLeft then 0 else hashLeft - bytesRead;
      match outcome
      case Hashed(fed) => r := AnEntry(Entry(probe.target, probe.size, Computed(fed)));
      case BudgetReached => r := AnEntry(Entry(probe.target, probe.size, OmittedBudget));
      case Unavailable => r := AnEntry(Entry(probe.target, probe.size, OmittedUnavailable));
    }

    /** The callback, once the cursor lets the entry through. */
    method OnVisit(v: Visit) returns (stop: bool)
      requires Valid() && status.Complete?
      modifies this
      ensures Valid() && State() == Handle(v, old(State()), limit, maxScan) && stop == !status.Complete?
    {
      scanned, last := scanned + 1, Some(KeyOf(v));
      if v.seen.SawListError? {
        skips := AddSkip(skips, SKIP_INACCESSIBLE);
        stop := StopIfNeeded();
        return;
      }
      var rel := Join(v.path);
      if v.seen.SawDir? {
        if IsPcapName(rel) { skips := AddSkip(skips, SKIP_NOT_REGULAR); }
        stop := StopIfNeeded();
        return;
      }
      if !IsPcapName(rel) {
        stop := StopIfNeeded();
        return;
      }
      var entry := EntryForPath(v.seen.probe);
      if entry.SkipIt? {
        skips := AddSkip(skips, entry.reason);
        stop := StopIfNeeded();
        return;
      }
      artifacts := artifacts + [entry.entry];
      if scanned >= maxScan {
        truncated, status := true, ScanBudgetReached;
        return true;
      }
      if |artifacts| >= limit {
        truncated, status := true, PageLimitReached;
        return true;
      }
      return false;
    }

    /** The recursive walk of a listing, pruned by the cursor and cut short by the callback. */
    method Walk(r: nat, at: Path, l: Listing, cursor: Option<Cursor>) returns (stop: bool)
      requires Valid() && status.Complete?
      modifies this
      ensures Valid() && State() == Process(Counted(r, at, l, cursor), old(State()), limit, maxScan)
      ensures stop == !status.Complete?
      decreases l
    {
      match l
      case Empty => return false;
      case FileThen(n, probe, rest) =>
        var v := Visit(r, at + [n], SawFile(probe));
        var counts := SkipEntry(r, Join(at + [n]), false, cursor).Count?;
        var head := if counts then [v] else [];
        ProcessConcat(head, Counted(r, at, rest, cursor), State(), limit, maxScan);
        if counts {
          stop := OnVisit(v);
          if stop { return; }
        }
        stop := Walk(r, at, rest, cursor);
      case DirThen(n, fails, kids, rest) =>
        var p := at + [n];
        var here := SkipEntry(r, Join(p), true, cursor);
        ghost var own := if here.Count? then DirVisits(r, p, fails) else [];
        ghost var below := if here.Skip? then [] else Counted(r, p, kids, cursor);
        ProcessConcat(own + below, Counted(r, at, rest, cursor), State(), limit, maxScan);
        ProcessConcat(own, below, State(), limit, maxScan);
        if here.Count? {
          stop := OnDirectory(r, p, fails);
          if stop { return; }
        }
        if !here.Skip? {
          stop := Walk(r, p, kids, cursor);
          if stop { return; }
        }
        stop := Walk(r, at, rest, cursor);
    }

    /** A directory calls back once, and a second time when its names cannot be listed. */
    method OnDirectory(r: nat, p: Path, fails: bool) returns (stop: bool)
      requires Valid() && status.Complete?
      modifies this
      ensures Valid() && State() == Process(DirVisits(r, p, fails), old(State()), limit, maxScan)
      ensures stop == !status.Complete?
    {
      ghost var second := if fails then [Visit(r, p, SawListError)] else [];
      ProcessConcat([Visit(r, p, SawDir)], second, State(), limit, maxScan);
      stop := OnVisit(Visit(r, p, SawDir));
      assert State() == Process([Visit(r, p, SawDir)], old(State()), limit, maxScan);
      if !stop && fails {
        stop := OnVisit(Visit(r, p, SawListError));
      }
    }

    /** One root, unless it is before the cursor's. The callbacks for the root itself return before they count,
        whatever error they bring. */
    method ScanRoot(r: nat, l: Listing, cursor: Option<Cursor>) returns (stop: bool)
      requires Valid() && status.Complete?
      modifies this
      ensures Valid() && stop == !status.Complete? && State() == AfterRoot(r, l, cursor, old(State()), limit, maxScan)
    {
      if cursor.Some? && r < cursor.value.rootIndex { return false; }
      stop := Walk(r, [], l, cursor);
    }

    /** All roots in turn, the ones before the cursor left out. */
    method List(roots: seq<Listing>, cursor: Option<Cursor>) returns (hashBytesUsed: int)
      requires Valid() && State() == Started(hashBudget)
      modifies this
      ensures Valid() && State() == Process(PendingFrom(roots, 0, cursor), Started(hashBudget), limit, maxScan)
      ensures hashBytesUsed == hashBudget - hashLeft
    {
      var rootIndex := 0;
      var stop := false;
      ghost var end := Process(PendingFrom(roots, 0, cursor), Started(hashBudget), limit, maxScan);
      while rootIndex < |roots| && !stop
        invariant rootIndex <= |roots| && Valid() && stop == !status.Complete?
        invariant Process(PendingFrom(roots, rootIndex, cursor), State(), limit, maxScan) == end
      {
        NextRoot(roots, rootIndex, cursor, State(), limit, maxScan);
        stop := ScanRoot(rootIndex, roots[rootIndex], cursor);
        rootIndex := rootIndex + 1;
      }
      hashBytesUsed := hashBudget - hashLeft;
    }
  }
}
