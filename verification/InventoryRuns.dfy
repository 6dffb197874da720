/** Whole runs of the paged inventory as a client sees them: each call sends the cursor token of the answer before it,
    and the server decodes it, scans a page and encodes the next one. */
module InventoryRuns {
  import opened ByteStrings
  import opened RelPaths
  import opened GoPaths
  import opened JsonText
  import opened InventoryWalk
  import opened InventoryPaging
  import opened InventoryCall
  import opened InventoryCursor
  import Sorting

  // ---------- one call ----------

  datatype Answer = Refusal(error: CursorError) | Answered(page: seq<Visit>, status: ScanStatus, next: string)

  function ServePage(codec: Codec, roots: seq<Listing>, cursor: Option<Cursor>, limit: nat, budget: nat): Answer {
    var (page, status) := Page(PendingFrom(roots, 0, cursor), limit, budget, 0, 0);
    Answered(page, status, if status.Complete? then "" else TokenOf(codec, KeyOf(Last(page))))
  }

  /** What a call with this token does. */
  function Call(codec: Codec, roots: seq<Listing>, token: string, limit: nat, budget: nat): Answer {
    match DecodeCursor(codec, token, |roots|)
    case Refused(e) => Refusal(e)
    case NoCursor => ServePage(codec, roots, None, limit, budget)
    case Accepted(c) => ServePage(codec, roots, Some(c), limit, budget)
  }

  datatype Response =
    | Error(error: CursorError)
    | Listed(artifacts: seq<Entry>, skips: map<string, nat>, status: ScanStatus, truncated: bool, hashBytesUsed: int,
             next: string)

  /** What the response says about the page of its call. */
  ghost predicate Reports(r: Response, page: seq<Visit>, reason: string)
    requires r.Listed?
  {
    && InventoryCall.Paths(r.artifacts) == Targets(page)
    && CountOf(r.skips, reason) == |Sorting.Filter(HasReason(reason), page)|
  }

  lemma ListedReports(s: seq<Visit>, hashBudget: nat, limit: nat, maxScan: nat, r: Response, reason: string)
    requires r.Listed?
    requires var end := Process(s, Started(hashBudget), limit, maxScan);
             r.artifacts == end.artifacts && r.skips == end.skips
    ensures Reports(r, Page(s, limit, maxScan, 0, 0).0, reason)
  {
    ProcessAccounts(s, Started(hashBudget), limit, maxScan, reason);
    assert InventoryCall.Paths(Started(hashBudget).artifacts) == [];
    NothingBefore(Targets(Page(s, limit, maxScan, 0, 0).0));
  }

  lemma NothingBefore<T>(s: seq<T>)
    ensures [] + s == s
  {
  }

  /** The visits a call has before it. */
  function PendingOf(codec: Codec, roots: seq<Listing>, token: string): seq<Visit> {
    match DecodeCursor(codec, token, |roots|)
    case Refused(_) => []
    case NoCursor => PendingFrom(roots, 0, None)
    case Accepted(c) => PendingFrom(roots, 0, Some(c))
  }

  /** The bytes a call reads for hashing. */
  function CallReads(codec: Codec, roots: seq<Listing>, token: string, limit: nat, maxScan: nat, hashBudget: nat): nat {
    BytesRead(PendingOf(codec, roots, token), Started(hashBudget), limit, maxScan)
  }

  /** The call as the program runs it: it answers as the call of the model, its artifacts are those of the page, it
      counts the skipped visits of the page under their reasons, and the hash bytes it reports are the bytes read. */
  method ListArtifacts(codec: Codec, roots: seq<Listing>, token: string, limit: nat, maxScan: nat, hashBudget: nat)
    returns (r: Response)
    ensures match Call(codec, roots, token, limit, maxScan)
            case Refusal(e) => r == Error(e)
            case Answered(page, status, next) =>
              && r.Listed? && r.status == status && r.truncated == !status.Complete? && r.next == next
              && r.hashBytesUsed == CallReads(codec, roots, token, limit, maxScan, hashBudget) <= hashBudget
              && forall reason :: Reports(r, page, reason)
  {
    var decoded := DecodeCursor(codec, token, |roots|);
    if decoded.Refused? { return Error(decoded.error); }
    var cursor := if decoded.Accepted? then Some(decoded.cursor) else None;
    ghost var pending := PendingFrom(roots, 0, cursor);
    var call := new Inventory(limit, maxScan, hashBudget);
    var used := call.List(roots, cursor);
    ProcessIsPage(pending, Started(hashBudget), limit, maxScan);
    HashBudgetConserved(pending, Started(hashBudget), limit, maxScan);
    var next := "";
    if call.truncated && call.last.Some? { next := TokenOf(codec, call.last.value); }
    r := Listed(call.artifacts, call.skips, call.status, call.truncated, used, next);
    forall reason
      ensures Reports(r, Page(pending, limit, maxScan, 0, 0).0, reason)
    {
      ListedReports(pending, hashBudget, limit, maxScan, r, reason);
    }
  }

  // ---------- a client ----------

  datatype ClientState = Asking(token: string) | Finished | Failed(error: CursorError)

  datatype Client = Client(pages: seq<seq<Visit>>, state: ClientState)

  function Ask(codec: Codec, roots: seq<Listing>, limit: nat, budget: nat, c: Client): Client {
    match c.state
    case Finished => c
    case Failed(_) => c
    case Asking(token) =>
      match Call(codec, roots, token, limit, budget)
      case Refusal(e) => Client(c.pages, Failed(e))
      case Answered(page, _, next) => Client(c.pages + [page], if next == "" then Finished else Asking(next))
  }

  /** The first `n` calls of a client that starts without a cursor and follows them until an answer has none. */
  function Calls(codec: Codec, roots: seq<Listing>, limits: nat -> nat, budget: nat, n: nat): Client {
    if n == 0 then Client([], Asking(""))
    else Ask(codec, roots, limits(n - 1), budget, Calls(codec, roots, limits, budget, n - 1))
  }

  /** Tokens and keys tell the same story. */
  ghost predicate Matches(codec: Codec, all: seq<Visit>, c: Client, r: Run) {
    && c.pages == r.pages
    && match r.state
       case Done => c.state.Finished?
       case Broken => c.state.Failed?
       case At(None) => c.state == Asking("")
       case At(Some(k)) => c.state == Asking(TokenOf(codec, k)) && exists v :: v in all && KeyOf(v) == k
  }

  lemma PendingOfToken(codec: Codec, roots: seq<Listing>, token: string)
    requires SortedForest(roots) && DecodeCursor(codec, token, |roots|).Accepted?
    ensures var c := DecodeCursor(codec, token, |roots|).cursor;
            PendingFrom(roots, 0, Some(c)) == AfterKey(Some(KeyOfCursor(c)), All(roots))
  {
    AcceptedIsCanonical(codec, token, roots);
  }

  lemma PageKey(all: seq<Visit>, after: Option<Key>, page: seq<Visit>)
    requires page != [] && page <= AfterKey(after, all)
    ensures Last(page) in all
  {
    AfterKeyMember(after, all);
    assert Last(page) in page && Last(page) in AfterKey(after, all);
  }

  /** A call that starts from scratch. */
  lemma FirstCallMatches(codec: Codec, roots: seq<Listing>, limit: nat, budget: nat, c: Client, r: Run)
    requires SortedForest(roots) && JSONCodec(codec) && Matches(codec, All(roots), c, r) && r.state == At(None)
    ensures Matches(codec, All(roots), Ask(codec, roots, limit, budget, c),
                    NextCall(All(roots), Back(codec, |roots|), limit, budget, r))
  {
    PendingExact(roots, None);
    var (page, status) := Page(AfterKey(None, All(roots)), limit, budget, 0, 0);
    if !status.Complete? {
      PageKey(All(roots), None, page);
      assert TokenReads(codec, ToWire(KeyOf(Last(page))));
    }
  }

  lemma LaterCallMatches(codec: Codec, roots: seq<Listing>, limit: nat, budget: nat, c: Client, r: Run, k: Key)
    requires SortedForest(roots) && JSONCodec(codec) && Matches(codec, All(roots), c, r) && r.state == At(Some(k))
    ensures Matches(codec, All(roots), Ask(codec, roots, limit, budget, c),
                    NextCall(All(roots), Back(codec, |roots|), limit, budget, r))
  {
    var token := TokenOf(codec, k);
    AllValid(roots, 0);
    assert k.Valid();
    assert TokenReads(codec, ToWire(k));
    var decoded := DecodeCursor(codec, token, |roots|);
    if decoded.Accepted? {
      PendingOfToken(codec, roots, token);
      var after := Some(KeyOfCursor(decoded.cursor));
      var (page, status) := Page(AfterKey(after, All(roots)), limit, budget, 0, 0);
      if !status.Complete? {
        PageKey(All(roots), after, page);
        assert TokenReads(codec, ToWire(KeyOf(Last(page))));
      }
    }
  }

  /** The run over tokens is the run over keys with the server's reading of its own cursors. */
  lemma {:induction false} CallsFollow(codec: Codec, roots: seq<Listing>, limits: nat -> nat, budget: nat, n: nat)
    requires SortedForest(roots) && JSONCodec(codec)
    ensures Matches(codec, All(roots), Calls(codec, roots, limits, budget, n),
                    Follow(All(roots), Back(codec, |roots|), limits, budget, n))
  {
    if n > 0 {
      CallsFollow(codec, roots, limits, budget, n - 1);
      var c, r := Calls(codec, roots, limits, budget, n - 1),
                  Follow(All(roots), Back(codec, |roots|), limits, budget, n - 1);
      if r.state == At(None) {
        FirstCallMatches(codec, roots, limits(n - 1), budget, c, r);
      } else if r.state.At? {
        LaterCallMatches(codec, roots, limits(n - 1), budget, c, r, r.state.last.value);
      }
    }
  }

  // ---------- no key twice ----------

  ghost predicate CallsNeverRepeat(codec: Codec, roots: seq<Listing>, limits: nat -> nat, budget: nat, n: nat) {
    NeverRepeats(Calls(codec, roots, limits, budget, n).pages)
  }

  /** The server takes this key's cursor back: no backslash or NUL byte in a name, and a token that is not too long.
      */
  predicate Resumable(codec: Codec, k: Key) {
    |TokenOf(codec, k)| <= MAX_CURSOR_LEN && PlainBytes(k.path)
  }

  /** The key that it then reads from the cursor. */
  function Rewritten(k: Key): Key { Key(k.root, CoercePath(k.path)) }

  lemma {:induction false} RootsBound(roots: seq<Listing>, r: nat)
    requires r <= |roots|
    ensures forall v | v in AllFrom(roots, r) :: v.root < |roots|
    decreases |roots| - r
  {
    if r < |roots| {
      VisitsExtend(r, [], roots[r]);
      RootsBound(roots, r + 1);
    }
  }

  lemma ReadingOf(codec: Codec, roots: seq<Listing>, v: Visit)
    requires SortedForest(roots) && JSONCodec(codec) && v in All(roots)
    ensures Back(codec, |roots|)(KeyOf(v)) == if Resumable(codec, KeyOf(v)) then Some(Rewritten(KeyOf(v))) else None
  {
    AllValid(roots, 0);
    RootsBound(roots, 0);
    BackExact(codec, |roots|, KeyOf(v));
  }

  /** Whatever a cursor that is taken back lets through comes after its key. */
  ghost predicate CursorsLeadOn(codec: Codec, roots: seq<Listing>) {
    forall v, w | v in All(roots) && w in All(roots) ::
      Resumable(codec, KeyOf(v)) && KeyLater(Rewritten(KeyOf(v)), KeyOf(w)) ==> KeyLess(KeyOf(v), KeyOf(w))
  }

  lemma LeadOnIsNoWayBack(codec: Codec, roots: seq<Listing>)
    requires SortedForest(roots) && JSONCodec(codec)
    ensures CursorsLeadOn(codec, roots) <==> NoWayBack(All(roots), Back(codec, |roots|))
  {
    forall v | v in All(roots)
      ensures Back(codec, |roots|)(KeyOf(v)) == if Resumable(codec, KeyOf(v)) then Some(Rewritten(KeyOf(v))) else None
    {
      ReadingOf(codec, roots, v);
    }
    if CursorsLeadOn(codec, roots) {
      forall v, w | v in All(roots) && w in All(roots)
        ensures LeadsOn(Back(codec, |roots|), KeyOf(v), KeyOf(w))
      {
      }
    }
    if NoWayBack(All(roots), Back(codec, |roots|)) {
      forall v, w | v in All(roots) && w in All(roots)
        ensures Resumable(codec, KeyOf(v)) && KeyLater(Rewritten(KeyOf(v)), KeyOf(w)) ==> KeyLess(KeyOf(v), KeyOf(w))
      {
        assert LeadsOn(Back(codec, |roots|), KeyOf(v), KeyOf(w));
      }
    }
  }

  /** No two calls of any run scan the same key, if and only if no key's cursor that is taken back lets through
      that key or one before it. */
  lemma PagesNeverRepeatIff(codec: Codec, roots: seq<Listing>)
    requires SortedForest(roots) && JSONCodec(codec)
    ensures CursorsLeadOn(codec, roots) <==>
            forall limits: nat -> nat, budget: nat, n: nat :: Positive(limits) && budget >= 1 ==>
              CallsNeverRepeat(codec, roots, limits, budget, n)
  {
    AllIsScan(roots);
    LeadOnIsNoWayBack(codec, roots);
    NeverRepeatsIff(All(roots), Back(codec, |roots|));
    forall limits: nat -> nat, budget: nat, n: nat
      ensures CallsNeverRepeat(codec, roots, limits, budget, n) <==>
              RunNeverRepeats(All(roots), Back(codec, |roots|), limits, budget, n)
    {
      CallsFollow(codec, roots, limits, budget, n);
    }
  }

  /** All names are valid UTF-8. */
  ghost predicate ValidNames(roots: seq<Listing>) {
    forall v | v in All(roots) :: ValidUTF8(Join(v.path))
  }

  /** With valid names a cursor is refused or read as the key it was made of. */
  lemma ValidNameReading(roots: seq<Listing>, v: Visit)
    requires SortedForest(roots) && ValidNames(roots) && v in All(roots)
    ensures Rewritten(KeyOf(v)) == KeyOf(v)
  {
    AllValid(roots, 0);
    CoerceJoin(v.path);
    CoerceFixed(Join(v.path));
    CoercedPlain(v.path);
    JoinInjective(CoercePath(v.path), v.path);
  }

  lemma ValidNamesLeadOn(codec: Codec, roots: seq<Listing>)
    requires SortedForest(roots) && ValidNames(roots)
    ensures CursorsLeadOn(codec, roots)
  {
    forall v, w | v in All(roots) && w in All(roots)
      ensures KeyLater(Rewritten(KeyOf(v)), KeyOf(w)) ==> KeyLess(KeyOf(v), KeyOf(w))
    {
      ValidNameReading(roots, v);
    }
  }

  /** Where no cursor leads back, and for all page limits and budgets: whatever a later call scans is strictly later
      in walk order than everything before it, all of it belongs to the tree, and the run ends after at most one call
      more than there are visits. */
  lemma PagesAscend(codec: Codec, roots: seq<Listing>, limits: nat -> nat, budget: nat, n: nat)
    requires SortedForest(roots) && JSONCodec(codec) && CursorsLeadOn(codec, roots)
    ensures var pages := Calls(codec, roots, limits, budget, n).pages;
            Ascending(pages) && forall i, v | OnPage(pages, i, v) :: v in All(roots)
    ensures n > |All(roots)| ==> !Calls(codec, roots, limits, budget, n).state.Asking?
  {
    var all, back := All(roots), Back(codec, |roots|);
    AllIsScan(roots);
    LeadOnIsNoWayBack(codec, roots);
    CallsFollow(codec, roots, limits, budget, n);
    FollowUpward(all, back, limits, budget, n);
    if n > |all| { FollowProgress(all, back, limits, budget, n); }
  }

  /** With names that are valid UTF-8 no run scans a key twice. */
  lemma PagesNeverRepeat(codec: Codec, roots: seq<Listing>, limits: nat -> nat, budget: nat, n: nat)
    requires SortedForest(roots) && JSONCodec(codec) && ValidNames(roots)
    ensures CallsNeverRepeat(codec, roots, limits, budget, n)
    ensures n > |All(roots)| ==> !Calls(codec, roots, limits, budget, n).state.Asking?
  {
    ValidNamesLeadOn(codec, roots);
    PagesAscend(codec, roots, limits, budget, n);
    AscendingNeverRepeats(Calls(codec, roots, limits, budget, n).pages);
  }

  // ---------- completeness ----------

  /** The client ends without an error after scanning the same keys in the same order as one unbounded scan. */
  ghost predicate CompleteRun(codec: Codec, roots: seq<Listing>, limits: nat -> nat, budget: nat) {
    exists n :: Completes(roots, Calls(codec, roots, limits, budget, n))
  }

  ghost predicate Completes(roots: seq<Listing>, c: Client) {
    c.state.Finished? && FirstVisits(Flatten(c.pages)) == FirstVisits(All(roots))
  }

  ghost predicate AlwaysComplete(codec: Codec, roots: seq<Listing>) {
    forall limits: nat -> nat, budget: nat :: Permitted(limits) && budget >= 1 ==>
      CompleteRun(codec, roots, limits, budget)
  }

  lemma CompleteIsCovers(codec: Codec, roots: seq<Listing>, limits: nat -> nat, budget: nat)
    requires SortedForest(roots) && JSONCodec(codec)
    ensures CompleteRun(codec, roots, limits, budget) <==> Covers(All(roots), Back(codec, |roots|), limits, budget)
  {
    forall n: nat
      ensures Completes(roots, Calls(codec, roots, limits, budget, n)) <==>
              Covered(All(roots), Follow(All(roots), Back(codec, |roots|), limits, budget, n))
    {
      CallsFollow(codec, roots, limits, budget, n);
    }
    if CompleteRun(codec, roots, limits, budget) {
      var n: nat :| Completes(roots, Calls(codec, roots, limits, budget, n));
      assert Covered(All(roots), Follow(All(roots), Back(codec, |roots|), limits, budget, n));
    }
    if Covers(All(roots), Back(codec, |roots|), limits, budget) {
      var n: nat :| Covered(All(roots), Follow(All(roots), Back(codec, |roots|), limits, budget, n));
      assert Completes(roots, Calls(codec, roots, limits, budget, n));
    }
  }

  /** Every cursor is taken back, and lets through exactly what comes after its key. */
  ghost predicate CursorsExact(codec: Codec, roots: seq<Listing>) {
    forall v, w | v in All(roots) && w in All(roots) ::
      Resumable(codec, KeyOf(v)) && (KeyLater(Rewritten(KeyOf(v)), KeyOf(w)) <==> KeyLess(KeyOf(v), KeyOf(w)))
  }

  lemma CursorsExactIff(codec: Codec, roots: seq<Listing>)
    requires SortedForest(roots) && JSONCodec(codec)
    ensures CursorsExact(codec, roots) <==> ReadsExactly(All(roots), Back(codec, |roots|))
  {
    forall v | v in All(roots)
      ensures Back(codec, |roots|)(KeyOf(v)) == if Resumable(codec, KeyOf(v)) then Some(Rewritten(KeyOf(v))) else None
    {
      ReadingOf(codec, roots, v);
    }
    if ReadsExactly(All(roots), Back(codec, |roots|)) {
      forall v, w | v in All(roots) && w in All(roots)
        ensures Resumable(codec, KeyOf(v)) && (KeyLater(Rewritten(KeyOf(v)), KeyOf(w)) <==> KeyLess(KeyOf(v), KeyOf(w)))
      {
        assert ExactAt(All(roots), Back(codec, |roots|), KeyOf(v));
      }
    }
  }

  /** Completeness, exactly and for any tree, whatever bytes its names hold: following the cursors covers the tree for
      all page limits and scan budgets, if and only if every key's cursor is taken back and, with its names rewritten,
      still lets through exactly what comes after that key in walk order. */
  lemma CompleteIff(codec: Codec, roots: seq<Listing>)
    requires SortedForest(roots) && JSONCodec(codec)
    ensures AlwaysComplete(codec, roots) <==> CursorsExact(codec, roots)
  {
    AllIsScan(roots);
    CursorsExactIff(codec, roots);
    BackCoerces(codec, |roots|);
    CoversIff(All(roots), Back(codec, |roots|));
    forall limits: nat -> nat, budget: nat
      ensures CompleteRun(codec, roots, limits, budget) <==> Covers(All(roots), Back(codec, |roots|), limits, budget)
    {
      CompleteIsCovers(codec, roots, limits, budget);
    }
  }

  ghost predicate AllResumable(codec: Codec, roots: seq<Listing>) {
    forall v | v in All(roots) :: Resumable(codec, KeyOf(v))
  }

  lemma ExactWithValidNames(codec: Codec, roots: seq<Listing>)
    requires SortedForest(roots) && ValidNames(roots)
    ensures CursorsExact(codec, roots) <==> SafeForest(roots) && AllResumable(codec, roots)
  {
    forall v | v in All(roots)
      ensures Rewritten(KeyOf(v)) == KeyOf(v)
    {
      ValidNameReading(roots, v);
    }
    SafeIffLater(roots);
  }

  /** With names that are valid UTF-8, following the cursors covers the tree for all page limits and scan budgets, if
      and only if no non-empty directory has a sibling named like it followed by a byte below the slash, no name holds
      a backslash, and no token exceeds 2048 bytes. */
  lemma CoversIffSafe(codec: Codec, roots: seq<Listing>)
    requires SortedForest(roots) && JSONCodec(codec) && ValidNames(roots)
    ensures AlwaysComplete(codec, roots) <==> SafeForest(roots) && AllResumable(codec, roots)
  {
    CompleteIff(codec, roots);
    ExactWithValidNames(codec, roots);
  }

  // ---------- listing errors ----------

  /** The callback for a root that cannot be listed or is not there. It returns before anything is counted. */
  function RootError(r: nat): Visit { Visit(r, [], SawListError) }

  /** The callbacks of one unbounded scan, and the errors of the roots that fail themselves. */
  function EverythingFrom(roots: seq<Listing>, failing: set<nat>, r: nat): seq<Visit>
    requires r <= |roots|
    decreases |roots| - r
  {
    if r == |roots| then []
    else (if r in failing then [RootError(r)] else []) + Visits(r, [], roots[r]) + EverythingFrom(roots, failing, r + 1)
  }

  function Everything(roots: seq<Listing>, failing: set<nat>): seq<Visit> { EverythingFrom(roots, failing, 0) }

  lemma {:induction false} EverythingPlain(roots: seq<Listing>, r: nat)
    requires r <= |roots|
    ensures EverythingFrom(roots, {}, r) == AllFrom(roots, r)
    decreases |roots| - r
  {
    if r < |roots| { EverythingPlain(roots, r + 1); }
  }

  lemma {:induction false} EverythingHas(roots: seq<Listing>, failing: set<nat>, r: nat, i: nat)
    requires r <= i < |roots| && i in failing
    ensures RootError(i) in EverythingFrom(roots, failing, r)
    decreases |roots| - r
  {
    if r < i { EverythingHas(roots, failing, r + 1, i); }
  }

  /** Pages hold visits of the tree only. */
  lemma PagesOfTree(codec: Codec, roots: seq<Listing>, limits: nat -> nat, budget: nat, n: nat, v: Visit)
    requires SortedForest(roots) && JSONCodec(codec) && v in Flatten(Calls(codec, roots, limits, budget, n).pages)
    ensures v in All(roots)
  {
    CallsFollow(codec, roots, limits, budget, n);
    var pages := Calls(codec, roots, limits, budget, n).pages;
    FlattenMember(pages, v);
    var i :| OnPage(pages, i, v);
    PagesAreFronts(All(roots), Back(codec, |roots|), limits, budget, n);
    assert pages[i] in pages;
    var after: Option<Key> :| pages[i] <= AfterKey(after, All(roots));
    AfterKeyMember(after, All(roots));
    assert v in AfterKey(after, All(roots));
  }

  /** The error of a root is in no response of any run. */
  lemma RootErrorNeverSeen(codec: Codec, roots: seq<Listing>, limits: nat -> nat, budget: nat, n: nat, r: nat)
    requires SortedForest(roots) && JSONCodec(codec)
    ensures RootError(r) !in Flatten(Calls(codec, roots, limits, budget, n).pages)
  {
    AllValid(roots, 0);
    if RootError(r) in Flatten(Calls(codec, roots, limits, budget, n).pages) {
      PagesOfTree(codec, roots, limits, budget, n, RootError(r));
    }
  }

  /** The client ends without an error after exactly these callbacks. */
  ghost predicate TellsAll(roots: seq<Listing>, failing: set<nat>, c: Client) {
    c.state.Finished? && Flatten(c.pages) == Everything(roots, failing)
  }

  ghost predicate CompleteWithErrors(codec: Codec, roots: seq<Listing>, failing: set<nat>, limits: nat -> nat,
                                     budget: nat) {
    exists n :: TellsAll(roots, failing, Calls(codec, roots, limits, budget, n))
  }

  lemma TellsAllIff(codec: Codec, roots: seq<Listing>, failing: set<nat>, limits: nat -> nat, budget: nat, n: nat)
    requires SortedForest(roots) && JSONCodec(codec) && forall r | r in failing :: r < |roots|
    ensures TellsAll(roots, failing, Calls(codec, roots, limits, budget, n)) <==>
            failing == {} && CoveredAll(All(roots), Follow(All(roots), Back(codec, |roots|), limits, budget, n))
  {
    CallsFollow(codec, roots, limits, budget, n);
    if failing == {} {
      EverythingPlain(roots, 0);
    } else {
      var r :| r in failing;
      EverythingHas(roots, failing, 0, r);
      RootErrorNeverSeen(codec, roots, limits, budget, n, r);
    }
  }

  lemma CompleteAllIsCovers(codec: Codec, roots: seq<Listing>, failing: set<nat>, limits: nat -> nat, budget: nat)
    requires SortedForest(roots) && JSONCodec(codec) && forall r | r in failing :: r < |roots|
    ensures CompleteWithErrors(codec, roots, failing, limits, budget) <==>
            failing == {} && CoversAll(All(roots), Back(codec, |roots|), limits, budget)
  {
    if CompleteWithErrors(codec, roots, failing, limits, budget) {
      var n: nat :| TellsAll(roots, failing, Calls(codec, roots, limits, budget, n));
      TellsAllIff(codec, roots, failing, limits, budget, n);
      assert CoveredAll(All(roots), Follow(All(roots), Back(codec, |roots|), limits, budget, n));
    }
    if failing == {} && CoversAll(All(roots), Back(codec, |roots|), limits, budget) {
      var n: nat :| CoveredAll(All(roots), Follow(All(roots), Back(codec, |roots|), limits, budget, n));
      TellsAllIff(codec, roots, failing, limits, budget, n);
      assert TellsAll(roots, failing, Calls(codec, roots, limits, budget, n));
    }
  }

  /** No directory below a root fails to be listed. */
  ghost predicate ListableForest(roots: seq<Listing>) {
    forall i | 0 <= i < |roots| :: Listable(roots[i])
  }

  ghost predicate AlwaysTellsAll(codec: Codec, roots: seq<Listing>, failing: set<nat>) {
    forall limits: nat -> nat, budget: nat :: Permitted(limits) && budget >= 1 ==>
      CompleteWithErrors(codec, roots, failing, limits, budget)
  }

  /** Listing errors reach the client for all page limits and scan budgets, besides everything else, if and only if
      every cursor is taken back and lets through exactly what comes after its key, and neither a root nor a directory
      below one fails to be listed. */
  lemma ErrorsSurviveIff(codec: Codec, roots: seq<Listing>, failing: set<nat>)
    requires SortedForest(roots) && JSONCodec(codec) && forall r | r in failing :: r < |roots|
    ensures AlwaysTellsAll(codec, roots, failing) <==>
            CursorsExact(codec, roots) && ListableForest(roots) && failing == {}
  {
    AllIsScan(roots);
    CursorsExactIff(codec, roots);
    BackCoerces(codec, |roots|);
    CoversAllIff(All(roots), Back(codec, |roots|));
    AllListableIff(roots, 0);
    forall limits: nat -> nat, budget: nat
      ensures CompleteWithErrors(codec, roots, failing, limits, budget) <==>
              failing == {} && CoversAll(All(roots), Back(codec, |roots|), limits, budget)
    {
      CompleteAllIsCovers(codec, roots, failing, limits, budget);
    }
    if AlwaysTellsAll(codec, roots, failing) {
      assert Permitted(Ones()) && CompleteWithErrors(codec, roots, failing, Ones(), 1);
    }
  }

  /** In every run, whatever its tree, limits, budget and cursors: a page holds the listing error of a directory if
      and only if it holds the directory and does not end there. So the error is lost exactly when every page that
      scans the directory ends at it. */
  lemma ErrorLostIff(codec: Codec, roots: seq<Listing>, limits: nat -> nat, budget: nat, n: nat, e: Visit)
    requires SortedForest(roots) && JSONCodec(codec) && e in All(roots) && e.seen.SawListError?
    ensures var pages := Calls(codec, roots, limits, budget, n).pages;
            && (forall i | 0 <= i < |pages| :: e in pages[i] <==> DirOf(e) in pages[i] && Last(pages[i]) != DirOf(e))
            && (e !in Flatten(pages) <==>
                  forall i | 0 <= i < |pages| && DirOf(e) in pages[i] :: Last(pages[i]) == DirOf(e))
  {
    var pages := Calls(codec, roots, limits, budget, n).pages;
    AllIsScan(roots);
    CallsFollow(codec, roots, limits, budget, n);
    forall i | 0 <= i < |pages|
      ensures e in pages[i] <==> DirOf(e) in pages[i] && Last(pages[i]) != DirOf(e)
    {
      ErrorOnPageIff(All(roots), Back(codec, |roots|), limits, budget, n, i, e);
    }
    FlattenMember(pages, e);
    forall i | 0 <= i < |pages| && e in pages[i]
      ensures e in Flatten(pages)
    {
      assert OnPage(pages, i, e);
    }
    if e in Flatten(pages) {
      var i :| OnPage(pages, i, e);
      assert e in pages[i];
    }
  }

  // ---------- what goes wrong outside the conditions ----------

  lemma OneFile(r: nat, at: Path, n: string, probe: Probe)
    requires PlainName(n)
    ensures Sorted(FileThen(n, probe, Empty)) && Names(FileThen(n, probe, Empty)) == {n}
    ensures Visits(r, at, FileThen(n, probe, Empty)) == [Visit(r, at + [n], SawFile(probe))]
  {
  }

  lemma OneRoot(l: Listing)
    ensures All([l]) == Visits(0, [], l)
  {
    assert AllFrom([l], 1) == [];
  }

  lemma TwoFiles(m: string, x: Probe, n: string, y: Probe)
    requires PlainName(m) && PlainName(n) && StrLess(m, n)
    ensures var roots := [FileThen(m, x, FileThen(n, y, Empty))];
            && SortedForest(roots) && SafeForest(roots)
            && All(roots) == [Visit(0, [m], SawFile(x)), Visit(0, [n], SawFile(y))]
  {
    var l := FileThen(m, x, FileThen(n, y, Empty));
    OneRoot(l);
    OneFile(0, [], n, y);
    assert [] + [m] == [m] && [] + [n] == [n];
    assert Sorted(l) && Safe(l);
  }

  /** A name with a backslash ends the run: its cursor is refused, and the file after it is never reached, although
      the forest is safe and its names are valid UTF-8. */
  lemma BackslashEndsRun(codec: Codec, x: Probe, y: Probe, limits: nat -> nat, n: nat)
    requires JSONCodec(codec) && n >= 2
    ensures var roots := [FileThen("a\\b.pcap", x, FileThen("z.pcap", y, Empty))];
            && SortedForest(roots) && SafeForest(roots) && Visit(0, ["z.pcap"], SawFile(y)) in All(roots)
            && Calls(codec, roots, limits, 1, n).pages == [[Visit(0, ["a\\b.pcap"], SawFile(x))]]
            && Calls(codec, roots, limits, 1, n).state.Failed?
  {
    var roots := [FileThen("a\\b.pcap", x, FileThen("z.pcap", y, Empty))];
    var v := Visit(0, ["a\\b.pcap"], SawFile(x));
    TwoFiles("a\\b.pcap", x, "z.pcap", y);
    assert "a\\b.pcap"[1] == '\\' && "a\\b.pcap" in v.path;
    BackExact(codec, 1, KeyOf(v));
    BudgetOne(All(roots), limits(0));
    StopsAfterOne(All(roots), Back(codec, 1), limits, 1, [v], n);
    CallsFollow(codec, roots, limits, 1, n);
  }

  lemma BadFirstByte(c: char)
    requires c as int in {0x80, 0xFF}
    ensures Coerce([c] + ".pcap") == REPLACEMENT + ".pcap"
  {
    var s := [c] + ".pcap";
    assert s[1..] == ".pcap" && RuneSize(s) == 0;
    AsciiValid(".pcap");
    CoerceValid(".pcap");
  }

  lemma OneCoerced(s: string)
    ensures CoercePath([s]) == [Coerce(s)]
  {
    assert [s][1..] == [];
  }

  /** How the server reads the cursor for such a file. */
  lemma BadByteReading(codec: Codec, c: char)
    requires JSONCodec(codec) && c as int in {0x80, 0xFF} && |TokenOf(codec, Key(0, [[c] + ".pcap"]))| <= MAX_CURSOR_LEN
    ensures PlainName([c] + ".pcap")
    ensures Back(codec, 1)(Key(0, [[c] + ".pcap"])) == Some(Key(0, [REPLACEMENT + ".pcap"]))
  {
    var k := Key(0, [[c] + ".pcap"]);
    assert ([c] + ".pcap")[1] == '.';
    BackExact(codec, 1, k);
    BadFirstByte(c);
    OneCoerced([c] + ".pcap");
  }

  lemma OneKeyOrder(m: string, n: string)
    ensures KeyLater(Key(0, [m]), Key(0, [n])) <==> StrLess(m, n)
  {
    assert [m][1..] == [] && [n][1..] == [];
    assert !Shadows([m], [n]) && (WalkLess([m], [n]) <==> StrLess(m, n));
  }

  lemma ByteOrder()
    ensures StrLess(REPLACEMENT + ".pcap", "\U{FF}.pcap")
    ensures !StrLess(REPLACEMENT + ".pcap", "\U{80}.pcap") && !StrLess(REPLACEMENT + ".pcap", "\U{C3}\U{A9}.pcap")
  {
  }

  /** A name that is not valid UTF-8 makes a run that never ends: the cursor names a smaller key, which is accepted,
      and every call scans the same file again. */
  lemma InvalidByteLoops(codec: Codec, x: Probe, limits: nat -> nat, n: nat)
    requires JSONCodec(codec) && |TokenOf(codec, Key(0, ["\U{FF}.pcap"]))| <= MAX_CURSOR_LEN
    ensures var roots := [FileThen("\U{FF}.pcap", x, Empty)];
            && SortedForest(roots) && SafeForest(roots)
            && var c := Calls(codec, roots, limits, 1, n);
               && c.state.Asking? && |c.pages| == n
               && forall i | 0 <= i < n :: c.pages[i] == [Visit(0, ["\U{FF}.pcap"], SawFile(x))]
  {
    var name := ['\U{FF}'] + ".pcap";
    assert name == "\U{FF}.pcap";
    BadByteReading(codec, '\U{FF}');
    ByteOrder();
    OneKeyOrder(REPLACEMENT + ".pcap", name);
    LoopingFile(codec, name, x, limits, n);
  }

  lemma LoopingFile(codec: Codec, name: string, x: Probe, limits: nat -> nat, n: nat)
    requires JSONCodec(codec) && PlainName(name)
    requires var k := Key(0, [name]); Back(codec, 1)(k).Some? && KeyLater(Back(codec, 1)(k).value, k)
    ensures var roots := [FileThen(name, x, Empty)];
            && SortedForest(roots) && SafeForest(roots)
            && var c := Calls(codec, roots, limits, 1, n);
               && c.state.Asking? && |c.pages| == n
               && forall i | 0 <= i < n :: c.pages[i] == [Visit(0, [name], SawFile(x))]
  {
    var roots := [FileThen(name, x, Empty)];
    assert [] + [name] == [name];
    OneRoot(roots[0]);
    OneFile(0, [], name, x);
    assert Safe(roots[0]);
    LoopsForever(Visit(0, [name], SawFile(x)), Back(codec, 1), limits, n);
    CallsFollow(codec, roots, limits, 1, n);
  }

  /** Or a file is lost: the cursor for a byte that starts no character names a key after the next file. */
  lemma InvalidByteSkips(codec: Codec, x: Probe, y: Probe, limits: nat -> nat, n: nat)
    requires JSONCodec(codec) && n >= 2 && |TokenOf(codec, Key(0, ["\U{80}.pcap"]))| <= MAX_CURSOR_LEN
    ensures var roots := [FileThen("\U{80}.pcap", x, FileThen("\U{C3}\U{A9}.pcap", y, Empty))];
            && SortedForest(roots) && SafeForest(roots) && Visit(0, ["\U{C3}\U{A9}.pcap"], SawFile(y)) in All(roots)
            && Calls(codec, roots, limits, 1, n) == Client([[Visit(0, ["\U{80}.pcap"], SawFile(x))], []], Finished)
  {
    var name, next := ['\U{80}'] + ".pcap", "\U{C3}\U{A9}.pcap";
    assert name == "\U{80}.pcap";
    BadByteReading(codec, '\U{80}');
    ByteOrder();
    OneKeyOrder(REPLACEMENT + ".pcap", name);
    OneKeyOrder(REPLACEMENT + ".pcap", next);
    SkippedFile(codec, name, x, next, y, limits, n);
  }

  lemma SkippedFile(codec: Codec, m: string, x: Probe, o: string, y: Probe, limits: nat -> nat, n: nat)
    requires JSONCodec(codec) && n >= 2 && PlainName(m) && PlainName(o) && StrLess(m, o)
    requires Back(codec, 1)(Key(0, [m])).Some?
    requires var c := Back(codec, 1)(Key(0, [m])).value; !KeyLater(c, Key(0, [m])) && !KeyLater(c, Key(0, [o]))
    ensures var roots := [FileThen(m, x, FileThen(o, y, Empty))];
            && SortedForest(roots) && SafeForest(roots) && Visit(0, [o], SawFile(y)) in All(roots)
            && Calls(codec, roots, limits, 1, n) == Client([[Visit(0, [m], SawFile(x))], []], Finished)
  {
    var roots := [FileThen(m, x, FileThen(o, y, Empty))];
    TwoFiles(m, x, o, y);
    AfterKeyNone(Back(codec, 1)(Key(0, [m])).value, All(roots));
    BudgetOne(All(roots), limits(0));
    StopsAfterOne(All(roots), Back(codec, 1), limits, 1, [Visit(0, [m], SawFile(x))], n);
    CallsFollow(codec, roots, limits, 1, n);
  }

  /** The directory `a` with the capture `x.pcap` in it, and beside it the capture `a.pcap`. */
  function DotForest(x: Probe, y: Probe): seq<Listing> {
    [DirThen("a", false, FileThen("x.pcap", x, Empty), FileThen("a.pcap", y, Empty))]
  }

  lemma DotForestVisits(x: Probe, y: Probe)
    ensures SortedForest(DotForest(x, y))
    ensures All(DotForest(x, y)) ==
            [Visit(0, ["a"], SawDir), Visit(0, ["a", "x.pcap"], SawFile(x)), Visit(0, ["a.pcap"], SawFile(y))]
  {
    var roots := DotForest(x, y);
    StrLessPrefix("a", "a.pcap");
    OneFile(0, ["a"], "x.pcap", x);
    OneFile(0, [], "a.pcap", y);
    assert ["a"] + ["x.pcap"] == ["a", "x.pcap"] && [] + ["a.pcap"] == ["a.pcap"] && [] + ["a"] == ["a"];
    OneRoot(roots[0]);
  }

  lemma DotKeys()
    ensures !Later(["a", "x.pcap"], ["a"]) && !Later(["a", "x.pcap"], ["a", "x.pcap"])
            && !Later(["a", "x.pcap"], ["a.pcap"])
  {
    assert Shadows(["a", "x.pcap"], ["a.pcap"]);
    WalkLessIrreflexive(["a", "x.pcap"]);
    StrLessIrreflexive("a");
    assert !WalkLess(["a", "x.pcap"][1..], ["a"][1..]);
  }

  /** Names of plain ASCII come back as they are. */
  lemma AsciiReading(codec: Codec, k: Key)
    requires JSONCodec(codec) && k.Valid() && k.root == 0 && Resumable(codec, k)
    requires forall n | n in k.path :: forall c | c in n :: c as int < 0x80
    ensures Back(codec, 1)(k) == Some(k)
  {
    BackExact(codec, 1, k);
    CoercePathAt(k.path);
    forall i | 0 <= i < |k.path|
      ensures CoercePath(k.path)[i] == k.path[i]
    {
      assert k.path[i] in k.path;
      AsciiValid(k.path[i]);
      CoerceValid(k.path[i]);
    }
    assert CoercePath(k.path) == k.path;
  }

  lemma DotReading(codec: Codec)
    requires JSONCodec(codec) && |TokenOf(codec, Key(0, ["a", "x.pcap"]))| <= MAX_CURSOR_LEN
    ensures Back(codec, 1)(Key(0, ["a", "x.pcap"])) == Some(Key(0, ["a", "x.pcap"]))
  {
    AsciiReading(codec, Key(0, ["a", "x.pcap"]));
  }

  lemma DotPage(v: Visit, w: Visit, u: Visit, limit: nat)
    requires !IsArtifact(v)
    ensures Page([v, w, u], limit, 2, 0, 0) == ([v, w], ScanBudgetReached)
  {
    assert Page([w, u], limit, 2, 1, 0) == ([w], ScanBudgetReached);
    assert [v, w, u][1..] == [w, u] && [v] + [w] == [v, w];
  }

  lemma DotNothingLeft(x: Probe, y: Probe)
    ensures AfterKey(Some(Key(0, ["a", "x.pcap"])), All(DotForest(x, y))) == []
  {
    DotForestVisits(x, y);
    DotKeys();
    AfterKeyNone(Key(0, ["a", "x.pcap"]), All(DotForest(x, y)));
  }

  /** After `a/x.pcap` the sibling `a.pcap` is smaller as a string, so the next call leaves it out: with a scan budget
      of two it is never scanned, although an unbounded scan has it. */
  lemma DotSiblingIsLost(codec: Codec, x: Probe, y: Probe, limits: nat -> nat, n: nat)
    requires JSONCodec(codec) && n >= 2 && |TokenOf(codec, Key(0, ["a", "x.pcap"]))| <= MAX_CURSOR_LEN
    ensures SortedForest(DotForest(x, y)) && Visit(0, ["a.pcap"], SawFile(y)) in All(DotForest(x, y))
    ensures Calls(codec, DotForest(x, y), limits, 2, n) ==
            Client([[Visit(0, ["a"], SawDir), Visit(0, ["a", "x.pcap"], SawFile(x))], []], Finished)
  {
    var v, w, u := Visit(0, ["a"], SawDir), Visit(0, ["a", "x.pcap"], SawFile(x)), Visit(0, ["a.pcap"], SawFile(y));
    DotForestVisits(x, y);
    DotPage(v, w, u, limits(0));
    DotReading(codec);
    DotNothingLeft(x, y);
    StopsAfterOne(All(DotForest(x, y)), Back(codec, 1), limits, 2, [v, w], n);
    CallsFollow(codec, DotForest(x, y), limits, 2, n);
  }

  /** A page that ends at a directory whose names cannot be listed drops the listing error for good. */
  lemma ListingErrorIsLost(codec: Codec, limits: nat -> nat, n: nat)
    requires JSONCodec(codec) && n >= 2 && |TokenOf(codec, Key(0, ["d"]))| <= MAX_CURSOR_LEN
    ensures var roots := [DirThen("d", true, Empty, Empty)];
            && SortedForest(roots) && SafeForest(roots)
            && All(roots) == [Visit(0, ["d"], SawDir), Visit(0, ["d"], SawListError)]
            && Calls(codec, roots, limits, 1, n) == Client([[Visit(0, ["d"], SawDir)], []], Finished)
  {
    var roots := [DirThen("d", true, Empty, Empty)];
    UnlistableVisits();
    WalkLessIrreflexive(["d"]);
    AsciiReading(codec, Key(0, ["d"]));
    AfterKeyNone(Key(0, ["d"]), All(roots));
    BudgetOne(All(roots), limits(0));
    StopsAfterOne(All(roots), Back(codec, 1), limits, 1, [Visit(0, ["d"], SawDir)], n);
    CallsFollow(codec, roots, limits, 1, n);
  }

  lemma UnlistableVisits()
    ensures var roots := [DirThen("d", true, Empty, Empty)];
            && SortedForest(roots) && SafeForest(roots)
            && All(roots) == [Visit(0, ["d"], SawDir), Visit(0, ["d"], SawListError)]
  {
    var tree := DirThen("d", true, Empty, Empty);
    assert [] + ["d"] == ["d"];
    assert Visits(0, [], tree) == [Visit(0, ["d"], SawDir), Visit(0, ["d"], SawListError)];
    assert Sorted(tree) && Safe(tree);
    OneRoot(tree);
  }
}
