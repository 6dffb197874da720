/** Whole runs of the paged inventory: each truncated page's cursor starts the next call. */
module InventoryPaging {
  import opened ByteStrings
  import opened RelPaths
  import opened InventoryWalk
  import opened ArtifactNames
  import opened GoPaths
  import opened JsonText
  import Sorting

  datatype Key = Key(root: nat, path: Path) {
    function ToCursor(): Cursor { Cursor(root, Join(path)) }
    predicate Valid() { path != [] && PlainPath(path) }
  }

  function KeyOf(v: Visit): Key { Key(v.root, v.path) }

  /** Walk order over all roots. */
  predicate KeyLess(a: Key, b: Key) {
    a.root < b.root || (a.root == b.root && WalkLess(a.path, b.path))
  }

  /** What a call with the cursor `a` still counts. */
  predicate KeyLater(a: Key, b: Key) {
    a.root < b.root || (a.root == b.root && Later(a.path, b.path))
  }

  ghost predicate SortedForest(roots: seq<Listing>) {
    forall l | l in roots :: Sorted(l)
  }

  /** All callbacks of an unbounded scan of the roots from number `r` on. */
  function AllFrom(roots: seq<Listing>, r: nat): seq<Visit>
    requires r <= |roots|
    decreases |roots| - r
  {
    if r == |roots| then [] else Visits(r, [], roots[r]) + AllFrom(roots, r + 1)
  }

  function All(roots: seq<Listing>): seq<Visit> { AllFrom(roots, 0) }

  /** The callbacks that a call with this cursor counts, if no limit stops it. */
  function PendingFrom(roots: seq<Listing>, r: nat, cursor: Option<Cursor>): seq<Visit>
    requires r <= |roots|
    decreases |roots| - r
  {
    if r == |roots| then []
    else
      (if cursor.Some? && r < cursor.value.rootIndex then [] else Counted(r, [], roots[r], cursor))
      + PendingFrom(roots, r + 1, cursor)
  }

  function ToCursor(after: Option<Key>): Option<Cursor> {
    if after.None? then None else Some(after.value.ToCursor())
  }

  function Pending(roots: seq<Listing>, after: Option<Key>): seq<Visit> {
    PendingFrom(roots, 0, ToCursor(after))
  }

  // ---------- one page ----------

  const MAX_LIMIT := 10

  datatype ScanStatus = Complete | PageLimitReached | ScanBudgetReached

  /** A visit that adds an entry to the response. */
  predicate IsArtifact(v: Visit) {
    v.seen.SawFile? && IsPcapName(Join(v.path)) && v.seen.probe.Resolved? && IsPcapName(v.seen.probe.target)
  }

  /** The visits one call handles, and why it ends, once `scanned` visits and `found` artifacts are behind it. */
  function Page(s: seq<Visit>, limit: nat, budget: nat, scanned: nat, found: nat): (r: (seq<Visit>, ScanStatus))
    ensures r.0 <= s
    ensures r.1.Complete? ==> r.0 == s
    ensures !r.1.Complete? ==> r.0 != []
  {
    if s == [] then ([], Complete)
    else
      var found' := if IsArtifact(s[0]) then found + 1 else found;
      if scanned + 1 >= budget then ([s[0]], ScanBudgetReached)
      else if IsArtifact(s[0]) && found' >= limit then ([s[0]], PageLimitReached)
      else
        var rest := Page(s[1..], limit, budget, scanned + 1, found');
        ([s[0]] + rest.0, rest.1)
  }

  function Last(s: seq<Visit>): Visit
    requires s != []
  {
    s[|s| - 1]
  }

  // ---------- pending visits, told by keys ----------

  function AfterKey(after: Option<Key>, s: seq<Visit>): seq<Visit> {
    if s == [] then []
    else (if after.None? || KeyLater(after.value, KeyOf(s[0])) then [s[0]] else []) + AfterKey(after, s[1..])
  }

  lemma {:induction false} AfterKeyConcat(after: Option<Key>, s: seq<Visit>, t: seq<Visit>)
    ensures AfterKey(after, s + t) == AfterKey(after, s) + AfterKey(after, t)
  {
    if s == [] {
      assert s + t == t;
    } else {
      assert (s + t)[0] == s[0] && (s + t)[1..] == s[1..] + t;
      AfterKeyConcat(after, s[1..], t);
    }
  }

  lemma {:induction false} AfterKeyMember(after: Option<Key>, s: seq<Visit>)
    ensures forall v :: v in AfterKey(after, s) <==> v in s && (after.None? || KeyLater(after.value, KeyOf(v)))
  {
    if s != [] {
      AfterKeyMember(after, s[1..]);
      assert s == [s[0]] + s[1..];
    }
  }

  /** Inside one root, the key filter is all, nothing or the path filter. */
  lemma {:induction false} AfterKeyInRoot(after: Option<Key>, r: nat, s: seq<Visit>)
    requires forall v | v in s :: v.root == r
    ensures AfterKey(after, s) ==
            if after.None? || after.value.root < r then s
            else if r < after.value.root then [] else LaterOf(after.value.path, s)
  {
    if s != [] {
      assert s[0] in s;
      AfterKeyInRoot(after, r, s[1..]);
    }
  }

  /** The string-pruned walk over all roots counts exactly the visits that are later than the cursor's key. */
  lemma {:induction false} PendingFromExact(roots: seq<Listing>, r: nat, after: Option<Key>)
    requires r <= |roots| && SortedForest(roots)
    requires after.Some? ==> after.value.Valid()
    ensures PendingFrom(roots, r, ToCursor(after)) == AfterKey(after, AllFrom(roots, r))
    decreases |roots| - r
  {
    if r < |roots| {
      assert roots[r] in roots;
      var here := Visits(r, [], roots[r]);
      VisitsExtend(r, [], roots[r]);
      AfterKeyConcat(after, here, AllFrom(roots, r + 1));
      AfterKeyInRoot(after, r, here);
      PendingFromExact(roots, r + 1, after);
      if after.Some? && r == after.value.root {
        PruningExact(r, [], roots[r], after.value.path);
      } else {
        NoCursorCountsAll(r, [], roots[r], ToCursor(after));
      }
    }
  }

  lemma PendingExact(roots: seq<Listing>, after: Option<Key>)
    requires SortedForest(roots)
    requires after.Some? ==> after.value.Valid()
    ensures Pending(roots, after) == AfterKey(after, All(roots))
  {
    PendingFromExact(roots, 0, after);
  }

  lemma {:induction false} AllValid(roots: seq<Listing>, r: nat)
    requires r <= |roots| && SortedForest(roots)
    ensures forall v | v in AllFrom(roots, r) :: KeyOf(v).Valid() && r <= v.root
    decreases |roots| - r
  {
    if r < |roots| {
      assert roots[r] in roots;
      VisitsExtend(r, [], roots[r]);
      VisitsValid(r, [], roots[r]);
      AllValid(roots, r + 1);
    }
  }

  // ---------- the scan order ----------

  /** `b` comes after `a`: a later key, or the listing error of the same directory. */
  predicate Precedes(a: Visit, b: Visit) {
    KeyLess(KeyOf(a), KeyOf(b)) || (KeyOf(a) == KeyOf(b) && b.seen.SawListError?)
  }

  ghost predicate Ordered(s: seq<Visit>) {
    s == [] || ((forall v | v in s[1..] :: Precedes(s[0], v)) && Ordered(s[1..]))
  }

  lemma {:induction false} OrderedConcat(s: seq<Visit>, t: seq<Visit>)
    requires Ordered(s) && Ordered(t)
    requires forall v, w | v in s && w in t :: Precedes(v, w)
    ensures Ordered(s + t)
  {
    if s == [] {
      assert s + t == t;
    } else {
      assert (s + t)[0] == s[0] && (s + t)[1..] == s[1..] + t;
      assert s[0] in s;
      OrderedConcat(s[1..], t);
    }
  }

  lemma {:induction false} OrderedSplit(s: seq<Visit>, t: seq<Visit>)
    requires Ordered(s + t)
    ensures Ordered(s) && Ordered(t)
    ensures forall v, w | v in s && w in t :: Precedes(v, w)
  {
    if s == [] {
      assert s + t == t;
    } else {
      assert (s + t)[0] == s[0] && (s + t)[1..] == s[1..] + t;
      OrderedSplit(s[1..], t);
      assert s == [s[0]] + s[1..];
    }
  }

  lemma {:induction false} OrderedAfterKey(after: Option<Key>, s: seq<Visit>)
    requires Ordered(s)
    ensures Ordered(AfterKey(after, s))
  {
    if s != [] {
      OrderedAfterKey(after, s[1..]);
      AfterKeyMember(after, s[1..]);
      var rest := AfterKey(after, s[1..]);
      assert forall v | v in rest :: Precedes(s[0], v);
      var kept := after.None? || KeyLater(after.value, KeyOf(s[0]));
      assert AfterKey(after, s) == if kept then [s[0]] + rest else rest;
      assert ([s[0]] + rest)[1..] == rest;
    }
  }

  lemma {:induction false} VisitsOrdered(r: nat, at: Path, l: Listing)
    requires Sorted(l) && ValidPath(at)
    ensures Ordered(Visits(r, at, l))
    decreases l
  {
    match l
    case Empty =>
    case FileThen(n, probe, rest) =>
      VisitsOrdered(r, at, rest);
      var v := Visit(r, at + [n], SawFile(probe));
      BeforeRest(r, at, n, [v], rest);
      OrderedConcat([v], Visits(r, at, rest));
    case DirThen(n, fails, kids, rest) =>
      VisitsOrdered(r, at, rest);
      VisitsOrdered(r, at + [n], kids);
      VisitsExtend(r, at + [n], kids);
      var own, below := DirVisits(r, at + [n], fails), Visits(r, at + [n], kids);
      forall v, w | v in own && w in below
        ensures Precedes(v, w)
      {
        assert v.path + [] == v.path && w.path == v.path + w.path[|v.path|..];
        CommonPrefix(v.path, [], w.path[|v.path|..]);
      }
      OrderedConcat(own, below);
      UnderEntry(at, n, own + below);
      BeforeRest(r, at, n, own + below, rest);
      OrderedConcat(own + below, Visits(r, at, rest));
  }

  /** Visits under one name come before the visits of the names that follow it. */
  lemma BeforeRest(r: nat, at: Path, n: string, s: seq<Visit>, rest: Listing)
    requires forall v | v in s :: v.root == r && at < v.path && v.path[|at|] == n
    requires forall m | m in Names(rest) :: StrLess(n, m)
    ensures forall v, w | v in s && w in Visits(r, at, rest) :: KeyLess(KeyOf(v), KeyOf(w))
  {
    VisitsExtend(r, at, rest);
    forall v, w | v in s && w in Visits(r, at, rest)
      ensures KeyLess(KeyOf(v), KeyOf(w))
    {
      assert v.path == at + v.path[|at|..] && w.path == at + w.path[|at|..];
      CommonPrefix(at, v.path[|at|..], w.path[|at|..]);
    }
  }

  /** An unbounded scan is ordered: no key twice, except for the listing error of a directory. */
  lemma {:induction false} AllOrdered(roots: seq<Listing>, r: nat)
    requires r <= |roots| && SortedForest(roots)
    ensures Ordered(AllFrom(roots, r))
    decreases |roots| - r
  {
    if r < |roots| {
      assert roots[r] in roots;
      VisitsOrdered(r, [], roots[r]);
      VisitsExtend(r, [], roots[r]);
      AllOrdered(roots, r + 1);
      AllValid(roots, r + 1);
      OrderedConcat(Visits(r, [], roots[r]), AllFrom(roots, r + 1));
    }
  }

  /** No visit of an ordered list is later than its last one. */
  lemma NothingAfterLast(s: seq<Visit>)
    requires Ordered(s) && s != []
    ensures forall v | v in s :: KeyOf(v) == KeyOf(Last(s)) || KeyLess(KeyOf(v), KeyOf(Last(s)))
    ensures forall v | v in s :: !KeyLess(KeyOf(Last(s)), KeyOf(v))
  {
    var init := s[..|s| - 1];
    assert s == init + [Last(s)];
    OrderedSplit(init, [Last(s)]);
    forall v | v in s
      ensures KeyOf(v) == KeyOf(Last(s)) || KeyLess(KeyOf(v), KeyOf(Last(s)))
      ensures !KeyLess(KeyOf(Last(s)), KeyOf(v))
    {
      assert v in init || v == Last(s);
      var a, b := KeyOf(v), KeyOf(Last(s));
      WalkLessIrreflexive(a.path);
      if KeyLess(a, b) && KeyLess(b, a) { WalkLessTransitive(a.path, b.path, a.path); }
    }
  }

  lemma UnderEntry(at: Path, n: string, s: seq<Visit>)
    requires forall v | v in s :: at + [n] <= v.path
    ensures forall v | v in s :: at < v.path && v.path[|at|] == n
  {
    forall v | v in s
      ensures at < v.path && v.path[|at|] == n
    {
      assert (at + [n])[..|at|] == at && v.path[|at|] == (at + [n])[|at|];
    }
  }

  // ---------- a directory and its listing error ----------

  /** The first callback of the directory whose listing error this is. */
  function DirOf(e: Visit): Visit { Visit(e.root, e.path, SawDir) }

  /** Every listing error directly follows its directory. */
  ghost predicate Paired(s: seq<Visit>) {
    forall j | 0 <= j < |s| && s[j].seen.SawListError? :: j > 0 && s[j - 1] == DirOf(s[j])
  }

  lemma PairedConcat(s: seq<Visit>, t: seq<Visit>)
    requires Paired(s) && Paired(t)
    ensures Paired(s + t)
  {
  }

  lemma {:induction false} VisitsPaired(r: nat, at: Path, l: Listing)
    ensures Paired(Visits(r, at, l))
    decreases l
  {
    match l
    case Empty =>
    case FileThen(n, probe, rest) =>
      VisitsPaired(r, at, rest);
      PairedConcat([Visit(r, at + [n], SawFile(probe))], Visits(r, at, rest));
    case DirThen(n, fails, kids, rest) =>
      VisitsPaired(r, at, rest);
      VisitsPaired(r, at + [n], kids);
      PairedConcat(DirVisits(r, at + [n], fails), Visits(r, at + [n], kids));
      PairedConcat(DirVisits(r, at + [n], fails) + Visits(r, at + [n], kids), Visits(r, at, rest));
  }

  lemma {:induction false} AllPaired(roots: seq<Listing>, r: nat)
    requires r <= |roots|
    ensures Paired(AllFrom(roots, r))
    decreases |roots| - r
  {
    if r < |roots| {
      VisitsPaired(r, [], roots[r]);
      AllPaired(roots, r + 1);
      PairedConcat(Visits(r, [], roots[r]), AllFrom(roots, r + 1));
    }
  }

  predicate Passes(after: Option<Key>, v: Visit) {
    after.None? || KeyLater(after.value, KeyOf(v))
  }

  lemma AfterKeyAppend(after: Option<Key>, s: seq<Visit>, x: Visit)
    ensures AfterKey(after, s + [x]) == AfterKey(after, s) + if Passes(after, x) then [x] else []
  {
    AfterKeyConcat(after, s, [x]);
    assert [x][1..] == [];
  }

  lemma PairedFront(s: seq<Visit>)
    requires s != [] && Paired(s)
    ensures Paired(s[..|s| - 1])
    ensures Last(s).seen.SawListError? ==> |s| > 1 && s[|s| - 2] == DirOf(Last(s))
  {
  }

  lemma PairedAppend(s: seq<Visit>, x: Visit)
    requires Paired(s) && (x.seen.SawListError? ==> s != [] && Last(s) == DirOf(x))
    ensures Paired(s + [x])
  {
  }

  /** A cursor keeps both callbacks of a directory or neither. */
  lemma {:induction false} AfterKeyPaired(after: Option<Key>, s: seq<Visit>)
    requires Paired(s)
    ensures Paired(AfterKey(after, s))
    ensures s != [] && Passes(after, Last(s)) ==> AfterKey(after, s) != [] && Last(AfterKey(after, s)) == Last(s)
    decreases |s|
  {
    if s != [] {
      var init, x := s[..|s| - 1], Last(s);
      PairedFront(s);
      AfterKeyPaired(after, init);
      AfterKeyAppend(after, init, x);
      assert init + [x] == s;
      if Passes(after, x) {
        assert x.seen.SawListError? ==> Last(init) == DirOf(x);
        PairedAppend(AfterKey(after, init), x);
      }
    }
  }

  /** What a scan of all roots looks like. */
  ghost predicate IsScan(all: seq<Visit>) {
    Ordered(all) && Paired(all) && forall v | v in all :: KeyOf(v).Valid()
  }

  lemma AllIsScan(roots: seq<Listing>)
    requires SortedForest(roots)
    ensures IsScan(All(roots))
  {
    AllOrdered(roots, 0);
    AllPaired(roots, 0);
    AllValid(roots, 0);
  }

  // ---------- runs ----------

  /** What the server makes of the cursor for a key: the key it goes on after, or nothing if it refuses. */
  type Reading = Key -> Option<Key>

  datatype RunState = At(last: Option<Key>) | Done | Broken

  /** The pages so far, and what comes next. */
  datatype Run = Run(pages: seq<seq<Visit>>, state: RunState)

  function Resume(back: Reading, last: Option<Key>): Option<Key> {
    if last.None? then None else back(last.value)
  }

  /** One more call with the cursor of the last page. */
  function NextCall(all: seq<Visit>, back: Reading, limit: nat, budget: nat, r: Run): Run {
    match r.state
    case Done => r
    case Broken => r
    case At(last) =>
      if last.Some? && back(last.value).None? then Run(r.pages, Broken)
      else
        var (page, status) := Page(AfterKey(Resume(back, last), all), limit, budget, 0, 0);
        Run(r.pages + [page], if status.Complete? then Done else At(Some(KeyOf(Last(page)))))
  }

  /** The first `n` calls of a client that starts without a cursor; it may choose another page limit each time. */
  function Follow(all: seq<Visit>, back: Reading, limits: nat -> nat, budget: nat, n: nat): Run {
    if n == 0 then Run([], At(None))
    else NextCall(all, back, limits(n - 1), budget, Follow(all, back, limits, budget, n - 1))
  }

  ghost predicate Positive(limits: nat -> nat) {
    forall k :: limits(k) >= 1
  }

  predicate OnPage(pages: seq<seq<Visit>>, i: int, v: Visit) {
    0 <= i < |pages| && v in pages[i]
  }

  function Flatten(pages: seq<seq<Visit>>): seq<Visit> {
    if pages == [] then [] else Flatten(pages[..|pages| - 1]) + pages[|pages| - 1]
  }

  lemma {:induction false} FlattenMember(pages: seq<seq<Visit>>, v: Visit)
    ensures v in Flatten(pages) <==> exists i :: OnPage(pages, i, v)
  {
    if pages != [] {
      var init, last := pages[..|pages| - 1], pages[|pages| - 1];
      FlattenMember(init, v);
      if v in last { assert OnPage(pages, |pages| - 1, v); }
      if v in Flatten(init) {
        var i :| OnPage(init, i, v);
        assert OnPage(pages, i, v);
      }
      if i :| OnPage(pages, i, v) {
        if i < |init| { assert OnPage(init, i, v); }
      }
    }
  }

  lemma FlattenAppend(pages: seq<seq<Visit>>, page: seq<Visit>)
    ensures Flatten(pages + [page]) == Flatten(pages) + page
  {
    assert (pages + [page])[..|pages|] == pages;
  }

  /** What more calls can make of a run: they only add pages, and after the end nothing happens any more. */
  ghost predicate Extends(r: Run, t: Run) {
    r.pages <= t.pages && (!r.state.At? ==> t == r)
  }

  lemma NextCallExtends(all: seq<Visit>, back: Reading, limit: nat, budget: nat, r: Run)
    ensures Extends(r, NextCall(all, back, limit, budget, r))
  {
  }

  lemma ExtendsTransitive(r: Run, s: Run, t: Run)
    requires Extends(r, s) && Extends(s, t)
    ensures Extends(r, t)
  {
  }

  lemma {:induction false} FollowGrows(all: seq<Visit>, back: Reading, limits: nat -> nat, budget: nat, m: nat, n: nat)
    requires m <= n
    ensures Extends(Follow(all, back, limits, budget, m), Follow(all, back, limits, budget, n))
  {
    if m < n {
      var r := Follow(all, back, limits, budget, n - 1);
      FollowGrows(all, back, limits, budget, m, n - 1);
      NextCallExtends(all, back, limits(n - 1), budget, r);
      ExtendsTransitive(Follow(all, back, limits, budget, m), r, Follow(all, back, limits, budget, n));
    }
  }

  // ---------- no key twice ----------

  /** No cursor leads back: what the server goes on with after a key comes after it in walk order. */
  ghost predicate NoWayBack(all: seq<Visit>, back: Reading) {
    forall v, w | v in all && w in all :: LeadsOn(back, KeyOf(v), KeyOf(w))
  }

  predicate LeadsOn(back: Reading, k: Key, w: Key) {
    back(k).Some? && KeyLater(back(k).value, w) ==> KeyLess(k, w)
  }

  predicate AtMost(a: Key, b: Key) { a == b || KeyLess(a, b) }

  lemma KeyLessTransitive(a: Key, b: Key, c: Key)
    requires KeyLess(a, b) && KeyLess(b, c)
    ensures KeyLess(a, c)
  {
    if a.root == b.root == c.root { WalkLessTransitive(a.path, b.path, c.path); }
  }

  lemma KeyLessIrreflexive(a: Key)
    ensures !KeyLess(a, a)
  {
    WalkLessIrreflexive(a.path);
  }

  lemma KeyLessTotal(a: Key, b: Key)
    ensures KeyLess(a, b) || a == b || KeyLess(b, a)
  {
    WalkLessTotal(a.path, b.path);
  }

  lemma AtMostLess(a: Key, b: Key, c: Key)
    requires AtMost(a, b) && KeyLess(b, c)
    ensures KeyLess(a, c)
  {
    if a != b { KeyLessTransitive(a, b, c); }
  }

  /** What a page holds is strictly later than everything on the pages before it. */
  ghost predicate Ascending(pages: seq<seq<Visit>>) {
    forall i, j, v, w | i < j && OnPage(pages, i, v) && OnPage(pages, j, w) :: KeyLess(KeyOf(v), KeyOf(w))
  }

  /** Every page lies after the pages before it, and nothing is after the last key. */
  ghost predicate Upward(all: seq<Visit>, r: Run) {
    && (forall i, v | OnPage(r.pages, i, v) :: v in all)
    && Ascending(r.pages)
    && (r.state.At? ==> EndsAt(all, r.pages, r.state.last))
  }

  ghost predicate EndsAt(all: seq<Visit>, pages: seq<seq<Visit>>, last: Option<Key>) {
    if last.None? then pages == []
    else (exists v :: v in all && KeyOf(v) == last.value) &&
         forall i, v | OnPage(pages, i, v) :: AtMost(KeyOf(v), last.value)
  }

  /** The visits that the next call has before it come after all pages. */
  lemma PendingAbove(all: seq<Visit>, back: Reading, r: Run, i: nat, v: Visit, w: Visit)
    requires NoWayBack(all, back) && Upward(all, r) && r.state.At? && OnPage(r.pages, i, v)
    requires r.state.last.Some? ==> back(r.state.last.value).Some?
    requires w in AfterKey(Resume(back, r.state.last), all)
    ensures KeyLess(KeyOf(v), KeyOf(w))
  {
    var last := r.state.last.value;
    AfterKeyMember(back(last), all);
    var u :| u in all && KeyOf(u) == last;
    assert LeadsOn(back, KeyOf(u), KeyOf(w));
    AtMostLess(KeyOf(v), last, KeyOf(w));
  }

  lemma PageOfScan(all: seq<Visit>, after: Option<Key>, page: seq<Visit>)
    requires Ordered(all) && page <= AfterKey(after, all)
    ensures Ordered(page) && forall v | v in page :: v in all && v in AfterKey(after, all)
  {
    OrderedAfterKey(after, all);
    AfterKeyMember(after, all);
    var rest := AfterKey(after, all)[|page|..];
    assert AfterKey(after, all) == page + rest;
    OrderedSplit(page, rest);
  }

  lemma UpwardStep(all: seq<Visit>, back: Reading, limit: nat, budget: nat, r: Run)
    requires Ordered(all) && NoWayBack(all, back) && Upward(all, r)
    ensures Upward(all, NextCall(all, back, limit, budget, r))
  {
    if r.state.At? && (r.state.last.Some? ==> back(r.state.last.value).Some?) {
      var after := Resume(back, r.state.last);
      var (page, status) := Page(AfterKey(after, all), limit, budget, 0, 0);
      PageOfScan(all, after, page);
      forall i, v, w | OnPage(r.pages, i, v) && w in page
        ensures KeyLess(KeyOf(v), KeyOf(w))
      {
        PendingAbove(all, back, r, i, v, w);
      }
      UpwardAppend(all, r, page, if status.Complete? then Done else At(Some(KeyOf(Last(page)))));
    }
  }

  lemma UpwardAppend(all: seq<Visit>, r: Run, page: seq<Visit>, state: RunState)
    requires Upward(all, r) && Ordered(page) && forall v | v in page :: v in all
    requires forall i, v, w | OnPage(r.pages, i, v) && w in page :: KeyLess(KeyOf(v), KeyOf(w))
    requires !state.At? || (page != [] && state == At(Some(KeyOf(Last(page)))))
    ensures Upward(all, Run(r.pages + [page], state))
  {
    var pages := r.pages + [page];
    forall i, v | OnPage(pages, i, v)
      ensures v in all && (if i < |r.pages| then OnPage(r.pages, i, v) else v in page)
    {
      if i < |r.pages| { assert OnPage(r.pages, i, v); }
    }
    if state.At? {
      NothingAfterLast(page);
      forall i, v | OnPage(pages, i, v)
        ensures AtMost(KeyOf(v), state.last.value)
      {
        if i < |r.pages| { assert OnPage(r.pages, i, v) && Last(page) in page; }
      }
    }
  }

  /** Whatever a later page scans is strictly later in walk order than everything on the pages before it. */
  lemma {:induction false} FollowUpward(all: seq<Visit>, back: Reading, limits: nat -> nat, budget: nat, n: nat)
    requires Ordered(all) && NoWayBack(all, back)
    ensures Upward(all, Follow(all, back, limits, budget, n))
  {
    if n > 0 {
      FollowUpward(all, back, limits, budget, n - 1);
      UpwardStep(all, back, limits(n - 1), budget, Follow(all, back, limits, budget, n - 1));
    }
  }

  ghost predicate NeverRepeats(pages: seq<seq<Visit>>) {
    forall i, j, v, w | i < j && OnPage(pages, i, v) && OnPage(pages, j, w) :: KeyOf(v) != KeyOf(w)
  }

  ghost predicate RunNeverRepeats(all: seq<Visit>, back: Reading, limits: nat -> nat, budget: nat, n: nat) {
    NeverRepeats(Follow(all, back, limits, budget, n).pages)
  }

  /** A page under a budget that ends inside the pending visits, with a page limit that is out of reach. */
  lemma {:induction false} PageByBudget(s: seq<Visit>, limit: nat, budget: nat, scanned: nat, found: nat)
    requires scanned < budget && found + |s| < limit
    ensures Page(s, limit, budget, scanned, found) ==
            if |s| < budget - scanned then (s, Complete) else (s[..budget - scanned], ScanBudgetReached)
  {
    if s == [] {
    } else if scanned + 1 == budget {
      assert s[..1] == [s[0]];
    } else {
      PageByBudget(s[1..], limit, budget, scanned + 1, if IsArtifact(s[0]) then found + 1 else found);
      if |s| >= budget - scanned { assert s[..budget - scanned] == [s[0]] + s[1..][..budget - scanned - 1]; }
    }
  }

  lemma {:induction false} AfterKeyLength(after: Option<Key>, s: seq<Visit>)
    ensures |AfterKey(after, s)| <= |s|
  {
    if s != [] { AfterKeyLength(after, s[1..]); }
  }

  lemma {:induction false} AfterKeyEverything(s: seq<Visit>)
    ensures AfterKey(None, s) == s
  {
    if s != [] { AfterKeyEverything(s[1..]); }
  }

  function Wide(all: seq<Visit>): nat -> nat { k => |all| + 1 }

  lemma FirstPage(all: seq<Visit>, back: Reading, i: nat)
    requires i < |all|
    ensures Follow(all, back, Wide(all), i + 1, 1) == Run([all[..i + 1]], At(Some(KeyOf(all[i]))))
  {
    PageByBudget(all, |all| + 1, i + 1, 0, 0);
    FirstCall(all, back, Wide(all), i + 1, all[..i + 1]);
  }

  lemma FirstCall(all: seq<Visit>, back: Reading, limits: nat -> nat, budget: nat, page: seq<Visit>)
    requires page != [] && Page(all, limits(0), budget, 0, 0) == (page, ScanBudgetReached)
    ensures Follow(all, back, limits, budget, 1) == Run([page], At(Some(KeyOf(Last(page)))))
  {
    AfterKeyEverything(all);
    assert Follow(all, back, limits, budget, 0) == Run([], At(None)) && [] + [page] == [page];
  }

  /** The first page ends at any visit one likes, and the second holds as many visits as the first if it can. */
  lemma TwoPages(all: seq<Visit>, back: Reading, i: nat)
    requires i < |all|
    ensures Follow(all, back, Wide(all), i + 1, 1) == Run([all[..i + 1]], At(Some(KeyOf(all[i]))))
    ensures var k := KeyOf(all[i]);
            var r := Follow(all, back, Wide(all), i + 1, 2);
            if back(k).None? then r == Run([all[..i + 1]], Broken)
            else |r.pages| == 2 && r.pages[0] == all[..i + 1]
                 && r.pages[1] <= AfterKey(back(k), all)
                 && (AfterKey(back(k), all) != [] ==> r.pages[1] != [] && r.pages[1][0] == AfterKey(back(k), all)[0])
  {
    FirstPage(all, back, i);
    var pending := AfterKey(back(KeyOf(all[i])), all);
    AfterKeyLength(back(KeyOf(all[i])), all);
    PageByBudget(pending, |all| + 1, i + 1, 0, 0);
  }

  lemma PrefixOf(all: seq<Visit>, i: nat, u: Visit)
    requires Ordered(all) && Paired(all) && i < |all| && u in all && AtMost(KeyOf(u), KeyOf(all[i]))
    ensures exists v :: v in all[..i + 1] && KeyOf(v) == KeyOf(u)
    ensures !u.seen.SawListError? ==> u in all[..i + 1]
  {
    var j :| 0 <= j < |all| && all[j] == u;
    if j > i {
      var head, tail := all[..i + 1], all[i + 1..];
      assert all == head + tail && all[i] in head && u == tail[j - i - 1];
      OrderedSplit(head, tail);
      assert Precedes(all[i], u);
      KeyLessIrreflexive(KeyOf(u));
      if KeyLess(KeyOf(all[i]), KeyOf(u)) && KeyLess(KeyOf(u), KeyOf(all[i])) {
        KeyLessTransitive(KeyOf(u), KeyOf(all[i]), KeyOf(u));
      }
      assert all[i] in head && KeyOf(all[i]) == KeyOf(u);
    } else {
      assert all[..i + 1][j] == u;
    }
  }

  /** The first visit that a cursor leaves is no listing error, and is at most any other one. */
  lemma PendingHead(all: seq<Visit>, after: Option<Key>, w: Visit) returns (u: Visit)
    requires IsScan(all) && w in AfterKey(after, all)
    ensures AfterKey(after, all) != [] && u == AfterKey(after, all)[0]
    ensures u in all && !u.seen.SawListError? && AtMost(KeyOf(u), KeyOf(w))
  {
    var pending := AfterKey(after, all);
    AfterKeyMember(after, all);
    OrderedAfterKey(after, all);
    AfterKeyPaired(after, all);
    u := pending[0];
    if w != u {
      assert pending == [u] + pending[1..];
      assert Precedes(u, w);
    }
  }

  /** A cursor that leads back makes the second of two pages start with something the first page scanned. */
  lemma WayBackRepeats(all: seq<Visit>, back: Reading, i: nat, w: Visit) returns (u: Visit)
    requires IsScan(all) && i < |all| && w in all && !LeadsOn(back, KeyOf(all[i]), KeyOf(w))
    ensures u in all && !u.seen.SawListError? && u in all[..i + 1]
    ensures OnPage(Follow(all, back, Wide(all), i + 1, 2).pages, 0, u)
    ensures OnPage(Follow(all, back, Wide(all), i + 1, 2).pages, 1, u)
  {
    var k := KeyOf(all[i]);
    AfterKeyMember(back(k), all);
    u := PendingHead(all, back(k), w);
    KeyLessTotal(k, KeyOf(w));
    AtMostTwice(KeyOf(u), KeyOf(w), k);
    PrefixOf(all, i, u);
    TwoPages(all, back, i);
  }

  lemma AtMostTwice(a: Key, b: Key, c: Key)
    requires AtMost(a, b) && AtMost(b, c)
    ensures AtMost(a, c)
  {
    if a != b && b != c { KeyLessTransitive(a, b, c); }
  }

  /** No key is scanned twice, whatever the page limits and the budget are, if and only if no cursor leads back. */
  lemma NeverRepeatsIff(all: seq<Visit>, back: Reading)
    requires IsScan(all)
    ensures NoWayBack(all, back) <==>
            forall limits: nat -> nat, budget: nat, n: nat :: Positive(limits) && budget >= 1 ==>
              RunNeverRepeats(all, back, limits, budget, n)
  {
    if NoWayBack(all, back) {
      forall limits: nat -> nat, budget: nat, n: nat
        ensures RunNeverRepeats(all, back, limits, budget, n)
      {
        FollowUpward(all, back, limits, budget, n);
        AscendingNeverRepeats(Follow(all, back, limits, budget, n).pages);
      }
    } else {
      var v, w :| v in all && w in all && !LeadsOn(back, KeyOf(v), KeyOf(w));
      var i :| 0 <= i < |all| && all[i] == v;
      var u := WayBackRepeats(all, back, i, w);
      assert Positive(Wide(all));
      assert !RunNeverRepeats(all, back, Wide(all), i + 1, 2);
    }
  }

  lemma AscendingNeverRepeats(pages: seq<seq<Visit>>)
    requires Ascending(pages)
    ensures NeverRepeats(pages)
  {
    forall i, j, v, w | i < j && OnPage(pages, i, v) && OnPage(pages, j, w)
      ensures KeyOf(v) != KeyOf(w)
    {
      KeyLessIrreflexive(KeyOf(v));
    }
  }

  // ---------- progress ----------

  /** The visits after a key, in walk order. */
  function Beyond(last: Option<Key>, s: seq<Visit>): seq<Visit> {
    if s == [] then []
    else (if last.None? || KeyLess(last.value, KeyOf(s[0])) then [s[0]] else []) + Beyond(last, s[1..])
  }

  lemma {:induction false} BeyondShrinks(last: Option<Key>, x: Key, s: seq<Visit>)
    requires last.Some? ==> KeyLess(last.value, x)
    ensures |Beyond(Some(x), s)| <= |Beyond(last, s)|
    ensures (exists v :: v in s && KeyOf(v) == x) ==> |Beyond(Some(x), s)| < |Beyond(last, s)|
  {
    if s != [] {
      BeyondShrinks(last, x, s[1..]);
      KeyLessIrreflexive(x);
      if last.Some? && KeyLess(x, KeyOf(s[0])) { KeyLessTransitive(last.value, x, KeyOf(s[0])); }
      if v :| v in s && KeyOf(v) == x {
        if v != s[0] { assert v in s[1..]; }
      }
    }
  }

  lemma {:induction false} BeyondLength(last: Option<Key>, s: seq<Visit>)
    ensures |Beyond(last, s)| <= |s|
  {
    if s != [] { BeyondLength(last, s[1..]); }
  }

  /** Progress: while a run goes on, every call leaves fewer visits after the last key. */
  lemma {:induction false} FollowProgress(all: seq<Visit>, back: Reading, limits: nat -> nat, budget: nat, n: nat)
    requires Ordered(all) && NoWayBack(all, back)
    ensures var r := Follow(all, back, limits, budget, n);
            r.state.At? ==> n + |Beyond(r.state.last, all)| <= |all|
  {
    var r := Follow(all, back, limits, budget, n);
    if n == 0 {
      BeyondLength(None, all);
    } else {
      FollowProgress(all, back, limits, budget, n - 1);
      FollowUpward(all, back, limits, budget, n - 1);
      if r.state.At? {
        ProgressStep(all, back, limits(n - 1), budget, Follow(all, back, limits, budget, n - 1));
      }
    }
  }

  lemma ProgressStep(all: seq<Visit>, back: Reading, limit: nat, budget: nat, r: Run)
    requires Ordered(all) && NoWayBack(all, back) && Upward(all, r) && r.state.At?
    requires NextCall(all, back, limit, budget, r).state.At?
    ensures |Beyond(NextCall(all, back, limit, budget, r).state.last, all)| < |Beyond(r.state.last, all)|
  {
    var after := Resume(back, r.state.last);
    var (page, status) := Page(AfterKey(after, all), limit, budget, 0, 0);
    PageOfScan(all, after, page);
    var x := Last(page);
    assert x in page;
    if r.state.last.Some? {
      var u :| u in all && KeyOf(u) == r.state.last.value;
      AfterKeyMember(after, all);
      assert LeadsOn(back, KeyOf(u), KeyOf(x));
    }
    BeyondShrinks(r.state.last, KeyOf(x), all);
  }

  /** A run whose cursors do not lead back ends after at most one call more than there are visits. */
  lemma FollowEnds(all: seq<Visit>, back: Reading, limits: nat -> nat, budget: nat)
    requires Ordered(all) && NoWayBack(all, back)
    ensures !Follow(all, back, limits, budget, |all| + 1).state.At?
  {
    FollowProgress(all, back, limits, budget, |all| + 1);
  }

  // ---------- completeness ----------

  /** The visits other than listing errors: one for every key. */
  function FirstVisits(s: seq<Visit>): seq<Visit> {
    if s == [] then [] else (if s[0].seen.SawListError? then [] else [s[0]]) + FirstVisits(s[1..])
  }

  lemma {:induction false} FirstVisitsConcat(s: seq<Visit>, t: seq<Visit>)
    ensures FirstVisits(s + t) == FirstVisits(s) + FirstVisits(t)
  {
    if s == [] {
      assert s + t == t;
    } else {
      assert (s + t)[0] == s[0] && (s + t)[1..] == s[1..] + t;
      FirstVisitsConcat(s[1..], t);
    }
  }

  lemma {:induction false} FirstVisitsMember(s: seq<Visit>)
    ensures forall v :: v in FirstVisits(s) <==> v in s && !v.seen.SawListError?
  {
    if s != [] {
      FirstVisitsMember(s[1..]);
      assert s == [s[0]] + s[1..];
    }
  }

  /** The run ends without an error and scans the same keys in the same order as one unbounded scan. */
  ghost predicate Covers(all: seq<Visit>, back: Reading, limits: nat -> nat, budget: nat) {
    exists n :: Covered(all, Follow(all, back, limits, budget, n))
  }

  ghost predicate Covered(all: seq<Visit>, r: Run) {
    r.state.Done? && FirstVisits(Flatten(r.pages)) == FirstVisits(all)
  }

  /** Every cursor is read, and as meaning exactly what comes after its key in walk order. */
  ghost predicate ReadsExactly(all: seq<Visit>, back: Reading) {
    forall v | v in all :: ExactAt(all, back, KeyOf(v))
  }

  ghost predicate ExactAt(all: seq<Visit>, back: Reading, k: Key) {
    back(k).Some? && forall w | w in all :: KeyLater(back(k).value, KeyOf(w)) <==> KeyLess(k, KeyOf(w))
  }

  lemma ExactLeadsOn(all: seq<Visit>, back: Reading)
    requires ReadsExactly(all, back)
    ensures NoWayBack(all, back)
  {
  }

  lemma {:induction false} AfterKeyBeyond(c: Key, k: Key, s: seq<Visit>)
    requires forall w | w in s :: KeyLater(c, KeyOf(w)) <==> KeyLess(k, KeyOf(w))
    ensures AfterKey(Some(c), s) == Beyond(Some(k), s)
  {
    if s != [] {
      assert s[0] in s;
      AfterKeyBeyond(c, k, s[1..]);
    }
  }

  lemma {:induction false} BeyondConcat(last: Option<Key>, s: seq<Visit>, t: seq<Visit>)
    ensures Beyond(last, s + t) == Beyond(last, s) + Beyond(last, t)
  {
    if s == [] {
      assert s + t == t;
    } else {
      assert (s + t)[0] == s[0] && (s + t)[1..] == s[1..] + t;
      BeyondConcat(last, s[1..], t);
    }
  }

  lemma {:induction false} BeyondEverything(s: seq<Visit>)
    ensures Beyond(None, s) == s
  {
    if s != [] { BeyondEverything(s[1..]); }
  }

  lemma {:induction false} BeyondNone(k: Key, s: seq<Visit>)
    requires forall v | v in s :: !KeyLess(k, KeyOf(v))
    ensures Beyond(Some(k), s) == []
  {
    if s != [] {
      assert s[0] in s;
      BeyondNone(k, s[1..]);
    }
  }

  lemma {:induction false} BeyondTwice(a: Option<Key>, b: Key, s: seq<Visit>)
    requires a.Some? ==> AtMost(a.value, b)
    ensures Beyond(Some(b), Beyond(a, s)) == Beyond(Some(b), s)
  {
    if s != [] {
      BeyondTwice(a, b, s[1..]);
      var rest := Beyond(a, s[1..]);
      if a.Some? && KeyLess(b, KeyOf(s[0])) { AtMostLess(a.value, b, KeyOf(s[0])); }
      if a.None? || KeyLess(a.value, KeyOf(s[0])) {
        assert Beyond(a, s) == [s[0]] + rest;
        BeyondConcat(Some(b), [s[0]], rest);
      } else {
        assert Beyond(a, s) == rest;
      }
    }
  }

  lemma {:induction false} BeyondOrdered(last: Option<Key>, s: seq<Visit>)
    requires Ordered(s)
    ensures Ordered(Beyond(last, s)) && forall v | v in Beyond(last, s) :: v in s
    ensures last.Some? ==> forall v | v in Beyond(last, s) :: KeyLess(last.value, KeyOf(v))
  {
    if s != [] {
      BeyondOrdered(last, s[1..]);
      var rest := Beyond(last, s[1..]);
      assert ([s[0]] + rest)[1..] == rest;
      assert Beyond(last, s) == [s[0]] + rest || Beyond(last, s) == rest;
    }
  }

  /** Dropping listing errors only does not change the first visits. */
  lemma {:induction false} BeyondKeepsFirsts(k: Key, s: seq<Visit>)
    requires forall v | v in s :: KeyLess(k, KeyOf(v)) || v.seen.SawListError?
    ensures FirstVisits(Beyond(Some(k), s)) == FirstVisits(s)
  {
    if s != [] {
      assert s[0] in s;
      BeyondKeepsFirsts(k, s[1..]);
      FirstVisitsConcat(if KeyLess(k, KeyOf(s[0])) then [s[0]] else [], Beyond(Some(k), s[1..]));
    }
  }

  /** Splitting an ordered list at a page's end: what is later is what follows, but for a listing error of the last.
      */
  lemma CutAtLast(page: seq<Visit>, rest: seq<Visit>)
    requires Ordered(page + rest) && page != []
    ensures FirstVisits(Beyond(Some(KeyOf(Last(page))), page + rest)) == FirstVisits(rest)
  {
    var last := KeyOf(Last(page));
    BeyondConcat(Some(last), page, rest);
    OrderedSplit(page, rest);
    NothingAfterLast(page);
    BeyondNone(last, page);
    forall v | v in rest
      ensures KeyLess(last, KeyOf(v)) || v.seen.SawListError?
    {
      assert Last(page) in page;
      assert Precedes(Last(page), v);
    }
    BeyondKeepsFirsts(last, rest);
    assert Beyond(Some(last), page + rest) == Beyond(Some(last), rest);
  }

  /** What has been scanned and what is still to come make up the whole scan. */
  ghost predicate OnCourse(all: seq<Visit>, r: Run) {
    match r.state
    case Broken => false
    case Done => FirstVisits(Flatten(r.pages)) == FirstVisits(all)
    case At(last) =>
      && (last.Some? ==> exists v :: v in all && KeyOf(v) == last.value)
      && FirstVisits(Flatten(r.pages)) + FirstVisits(Beyond(last, all)) == FirstVisits(all)
  }

  lemma PendingIsBeyond(all: seq<Visit>, back: Reading, last: Option<Key>)
    requires ReadsExactly(all, back) && (last.Some? ==> exists v :: v in all && KeyOf(v) == last.value)
    ensures last.Some? ==> back(last.value).Some?
    ensures AfterKey(Resume(back, last), all) == Beyond(last, all)
  {
    if last.Some? {
      var v :| v in all && KeyOf(v) == last.value;
      assert ExactAt(all, back, KeyOf(v));
      AfterKeyBeyond(back(last.value).value, last.value, all);
    } else {
      AfterKeyEverything(all);
      BeyondEverything(all);
    }
  }

  /** One truncated page: what follows it is what is beyond its last key. */
  lemma CourseSplit(all: seq<Visit>, last: Option<Key>, page: seq<Visit>)
    requires Ordered(all) && page != [] && page <= Beyond(last, all)
    ensures FirstVisits(Beyond(last, all)) == FirstVisits(page) + FirstVisits(Beyond(Some(KeyOf(Last(page))), all))
    ensures Last(page) in all
  {
    var pending := Beyond(last, all);
    var rest := pending[|page|..];
    assert pending == page + rest && Last(page) in page;
    BeyondOrdered(last, all);
    assert Last(page) in pending;
    CutAtLast(page, rest);
    FirstVisitsConcat(page, rest);
    BeyondTwice(last, KeyOf(Last(page)), all);
  }

  lemma CourseStep(all: seq<Visit>, back: Reading, limit: nat, budget: nat, r: Run)
    requires Ordered(all) && ReadsExactly(all, back) && OnCourse(all, r)
    ensures OnCourse(all, NextCall(all, back, limit, budget, r))
  {
    if r.state.At? {
      var last := r.state.last;
      PendingIsBeyond(all, back, last);
      var (page, status) := Page(Beyond(last, all), limit, budget, 0, 0);
      if status.Complete? { CourseEnds(all, r, page); } else { CourseGoesOn(all, r, page); }
    }
  }

  lemma CourseEnds(all: seq<Visit>, r: Run, page: seq<Visit>)
    requires OnCourse(all, r) && r.state.At? && page == Beyond(r.state.last, all)
    ensures OnCourse(all, Run(r.pages + [page], Done))
  {
    FlattenAppend(r.pages, page);
    FirstVisitsConcat(Flatten(r.pages), page);
  }

  lemma CourseGoesOn(all: seq<Visit>, r: Run, page: seq<Visit>)
    requires Ordered(all) && OnCourse(all, r) && r.state.At? && page <= Beyond(r.state.last, all) && page != []
    ensures OnCourse(all, Run(r.pages + [page], At(Some(KeyOf(Last(page))))))
  {
    var before, here := FirstVisits(Flatten(r.pages)), FirstVisits(page);
    FlattenAppend(r.pages, page);
    FirstVisitsConcat(Flatten(r.pages), page);
    CourseSplit(all, r.state.last, page);
    Sorting.Regroup(before, here, FirstVisits(Beyond(Some(KeyOf(Last(page))), all)));
  }

  lemma {:induction false} FollowOnCourse(all: seq<Visit>, back: Reading, limits: nat -> nat, budget: nat, n: nat)
    requires Ordered(all) && ReadsExactly(all, back)
    ensures OnCourse(all, Follow(all, back, limits, budget, n))
  {
    if n == 0 {
      BeyondEverything(all);
      assert Flatten([]) == [];
    } else {
      FollowOnCourse(all, back, limits, budget, n - 1);
      CourseStep(all, back, limits(n - 1), budget, Follow(all, back, limits, budget, n - 1));
    }
  }

  /** If every cursor is read exactly, the run covers the scan. */
  lemma ExactCovers(all: seq<Visit>, back: Reading, limits: nat -> nat, budget: nat)
    requires Ordered(all) && ReadsExactly(all, back)
    ensures Covers(all, back, limits, budget)
  {
    ExactLeadsOn(all, back);
    FollowEnds(all, back, limits, budget);
    FollowOnCourse(all, back, limits, budget, |all| + 1);
    assert Covered(all, Follow(all, back, limits, budget, |all| + 1));
  }

  // ---------- only then ----------

  /** What an encoder that rewrites names does to a key: it keeps the root and rewrites every name on its own. */
  ghost predicate Coerces(back: Reading) {
    forall k {:trigger back(k)} :: back(k).Some? ==> back(k).value == Key(k.root, CoercePath(k.path))
  }

  /** A cursor inside a directory that hides a sibling's tree hides it until the run has left that tree behind. */
  lemma {:induction false} ShadowStays(x: Path, u: Path, w: Path)
    requires Shadows(CoercePath(x), w) && Later(CoercePath(x), u) && WalkLess(u, w)
    ensures Shadows(CoercePath(u), w)
  {
    var c := CoercePath(x);
    CoerceTwice(x[0]);
    StrLessIrreflexive(c[0]);
    assert c[1..] == CoercePath(x[1..]);
    if StrLess(c[0], u[0]) && StrLess(u[0], w[0]) {
      if c[0] == w[0] { StrLessAsymmetric(c[0], u[0]); } else { ShadowLevel(c[0], u[0], w[0]); }
    }
    if c[0] == u[0] {
      var d := CoercePath(u);
      CoercePathAt(u);
      assert d[0] == c[0] && d[1..] == CoercePath(u[1..]);
      assert WalkLess(c[1..], u[1..]);
      if c[0] == w[0] { ShadowStays(x[1..], u[1..], w[1..]); } else { assert |d| > 1; }
    }
  }

  lemma StillHidden(back: Reading, u: Key, x: Key, w: Key)
    requires Coerces(back) && back(u).Some? && back(x).Some?
    requires !KeyLater(back(u).value, w) && KeyLater(back(u).value, x) && KeyLess(x, w)
    ensures !KeyLater(back(x).value, w)
  {
    var c := back(u).value;
    assert c == Key(u.root, CoercePath(u.path)) && back(x).value == Key(x.root, CoercePath(x.path));
    KeyLessTransitive(c, x, w);
    ShadowStays(u.path, x.path, w.path);
  }

  /** The run has passed the key, or its next call does not see it. */
  ghost predicate Hidden(back: Reading, w: Key, r: Run) {
    r.state.At? ==>
      && r.state.last.Some?
      && var u := r.state.last.value;
         (AtMost(w, u) || (back(u).Some? ==> !KeyLater(back(u).value, w)))
  }

  lemma HiddenStep(all: seq<Visit>, back: Reading, limit: nat, budget: nat, r: Run, w: Key)
    requires Ordered(all) && NoWayBack(all, back) && Coerces(back) && Upward(all, r) && Hidden(back, w, r)
    ensures var t := NextCall(all, back, limit, budget, r);
            && Hidden(back, w, t) && r.pages <= t.pages && |t.pages| <= |r.pages| + 1
            && forall v | |t.pages| > |r.pages| && v in LastPage(t.pages) :: KeyOf(v) != w
  {
    if r.state.At? && back(r.state.last.value).Some? {
      var u := r.state.last.value;
      var c := back(u).value;
      var (page, status) := Page(AfterKey(Some(c), all), limit, budget, 0, 0);
      PageOfScan(all, Some(c), page);
      AfterKeyMember(Some(c), all);
      var o :| o in all && KeyOf(o) == u;
      forall v | v in page
        ensures KeyOf(v) != w && KeyLater(c, KeyOf(v)) && (AtMost(w, u) ==> KeyLess(w, KeyOf(v)))
      {
        assert LeadsOn(back, KeyOf(o), KeyOf(v));
        KeyLessIrreflexive(w);
        if AtMost(w, u) { AtMostLess(w, u, KeyOf(v)); }
      }
      if !status.Complete? {
        var x := KeyOf(Last(page));
        assert Last(page) in page;
        KeyLessTotal(x, w);
        if KeyLess(x, w) {
          if AtMost(w, u) { KeyLessTransitive(x, w, x); KeyLessIrreflexive(x); }
          if back(x).Some? { StillHidden(back, u, x, w); }
        }
      }
    }
  }

  function LastPage(pages: seq<seq<Visit>>): seq<Visit>
    requires pages != []
  {
    pages[|pages| - 1]
  }

  /** The key is on none of the pages from number `m` on. */
  ghost predicate AbsentFrom(pages: seq<seq<Visit>>, m: nat, w: Key) {
    forall i, v | m <= i && OnPage(pages, i, v) :: KeyOf(v) != w
  }

  lemma AbsentStep(r: Run, t: Run, m: nat, w: Key)
    requires AbsentFrom(r.pages, m, w) && r.pages <= t.pages && |t.pages| <= |r.pages| + 1
    requires forall v | |t.pages| > |r.pages| && v in LastPage(t.pages) :: KeyOf(v) != w
    ensures AbsentFrom(t.pages, m, w)
  {
    forall i, v | m <= i && OnPage(t.pages, i, v)
      ensures KeyOf(v) != w
    {
      if i < |r.pages| { assert OnPage(r.pages, i, v); }
    }
  }

  /** A key that the next call does not see is never scanned from there on. */
  lemma {:induction false} LostForGood(all: seq<Visit>, back: Reading, limits: nat -> nat, budget: nat, m: nat, n: nat,
                                       w: Key)
    requires Ordered(all) && NoWayBack(all, back) && Coerces(back) && m <= n
    requires Hidden(back, w, Follow(all, back, limits, budget, m))
    ensures Hidden(back, w, Follow(all, back, limits, budget, n))
    ensures AbsentFrom(Follow(all, back, limits, budget, n).pages, |Follow(all, back, limits, budget, m).pages|, w)
  {
    var start := |Follow(all, back, limits, budget, m).pages|;
    if m < n {
      var r := Follow(all, back, limits, budget, n - 1);
      LostForGood(all, back, limits, budget, m, n - 1, w);
      FollowUpward(all, back, limits, budget, n - 1);
      HiddenStep(all, back, limits(n - 1), budget, r, w);
      AbsentStep(r, NextCall(all, back, limits(n - 1), budget, r), start, w);
    }
  }

  lemma {:induction false} FlattenConcat(s: seq<seq<Visit>>, t: seq<seq<Visit>>)
    ensures Flatten(s + t) == Flatten(s) + Flatten(t)
    decreases |t|
  {
    if t == [] {
      assert s + t == s;
    } else {
      assert (s + t)[..|s + t| - 1] == s + t[..|t| - 1];
      FlattenConcat(s, t[..|t| - 1]);
    }
  }

  lemma {:induction false} FirstVisitsOrdered(s: seq<Visit>)
    requires Ordered(s)
    ensures Ordered(FirstVisits(s))
  {
    if s != [] {
      FirstVisitsOrdered(s[1..]);
      FirstVisitsMember(s[1..]);
      var rest := FirstVisits(s[1..]);
      assert ([s[0]] + rest)[1..] == rest;
      assert FirstVisits(s) == [s[0]] + rest || FirstVisits(s) == rest;
    }
  }

  /** Two first visits on different pages of a covering run come in scan order. */
  lemma InPageOrder(all: seq<Visit>, pages: seq<seq<Visit>>, i: nat, j: nat, v: Visit, w: Visit)
    requires Ordered(all) && FirstVisits(Flatten(pages)) == FirstVisits(all) && i < j
    requires OnPage(pages, i, v) && OnPage(pages, j, w) && !v.seen.SawListError? && !w.seen.SawListError?
    ensures KeyLess(KeyOf(v), KeyOf(w))
  {
    var head, tail := pages[..j], pages[j..];
    assert pages == head + tail;
    FlattenConcat(head, tail);
    FirstVisitsConcat(Flatten(head), Flatten(tail));
    assert OnPage(head, i, v) && OnPage(tail, 0, w);
    FlattenMember(head, v);
    FlattenMember(tail, w);
    FirstVisitsMember(Flatten(head));
    FirstVisitsMember(Flatten(tail));
    FirstVisitsOrdered(all);
    OrderedSplit(FirstVisits(Flatten(head)), FirstVisits(Flatten(tail)));
    assert Precedes(v, w);
  }

  lemma FirstOfKey(all: seq<Visit>, w: Visit) returns (o: Visit)
    requires Paired(all) && w in all
    ensures o in all && KeyOf(o) == KeyOf(w) && !o.seen.SawListError?
  {
    o := if w.seen.SawListError? then DirOf(w) else w;
    var j :| 0 <= j < |all| && all[j] == w;
    if w.seen.SawListError? { assert all[j - 1] == o; }
  }

  // ---------- runs of single steps ----------

  lemma {:induction false} PageCount(all: seq<Visit>, back: Reading, limits: nat -> nat, budget: nat, n: nat)
    ensures var r := Follow(all, back, limits, budget, n); |r.pages| <= n && (r.state.At? ==> |r.pages| == n)
  {
    if n > 0 {
      PageCount(all, back, limits, budget, n - 1);
      NextPage(all, back, limits(n - 1), budget, Follow(all, back, limits, budget, n - 1));
    }
  }

  lemma NextPage(all: seq<Visit>, back: Reading, limit: nat, budget: nat, r: Run)
    ensures var t := NextCall(all, back, limit, budget, r);
            |t.pages| <= |r.pages| + 1 && (|t.pages| > |r.pages| ==> r.state.At?)
  {
  }

  /** The call that made a page. */
  lemma PageOfCall(all: seq<Visit>, back: Reading, limits: nat -> nat, budget: nat, n: nat, i: nat)
    requires i < |Follow(all, back, limits, budget, n).pages|
    ensures i < n && Follow(all, back, limits, budget, i).state.At?
    ensures |Follow(all, back, limits, budget, i).pages| == i
            && |Follow(all, back, limits, budget, i + 1).pages| == i + 1
  {
    PageCount(all, back, limits, budget, n);
    PageCount(all, back, limits, budget, i);
    PageCount(all, back, limits, budget, i + 1);
    FollowGrows(all, back, limits, budget, i, n);
    FollowGrows(all, back, limits, budget, i + 1, n);
  }

  /** With a scan budget of one, a page is a single visit, and the next call goes on after it. */
  lemma SingleStep(all: seq<Visit>, back: Reading, limits: nat -> nat, n: nat, i: nat, v: Visit)
    requires OnPage(Follow(all, back, limits, 1, n).pages, i, v)
    ensures i < n && Follow(all, back, limits, 1, n).pages[i] == [v]
    ensures Follow(all, back, limits, 1, i + 1).state == At(Some(KeyOf(v)))
    ensures |Follow(all, back, limits, 1, i + 1).pages| == i + 1
  {
    PageOfCall(all, back, limits, 1, n, i);
    FollowGrows(all, back, limits, 1, i + 1, n);
    var r := Follow(all, back, limits, 1, i);
    var pending := AfterKey(Resume(back, r.state.last), all);
    assert Follow(all, back, limits, 1, i + 1).pages[i] == Follow(all, back, limits, 1, n).pages[i];
    if pending != [] { BudgetOne(pending, limits(i)); }
  }

  lemma BudgetOne(s: seq<Visit>, limit: nat)
    requires s != []
    ensures Page(s, limit, 1, 0, 0) == ([s[0]], ScanBudgetReached)
  {
  }

  /** After each visit of a covering run of single steps the server takes the cursor and scans what comes first. */
  lemma StepAfter(all: seq<Visit>, back: Reading, limits: nat -> nat, n: nat, i: nat, v: Visit)
    requires Covered(all, Follow(all, back, limits, 1, n)) && OnPage(Follow(all, back, limits, 1, n).pages, i, v)
    ensures back(KeyOf(v)).Some?
    ensures var pending := AfterKey(back(KeyOf(v)), all);
            pending != [] ==> OnPage(Follow(all, back, limits, 1, n).pages, i + 1, pending[0])
  {
    SingleStep(all, back, limits, n, i, v);
    assert n != i + 1;
    FollowGrows(all, back, limits, 1, i + 2, n);
    var pending := AfterKey(back(KeyOf(v)), all);
    if back(KeyOf(v)).Some? && pending != [] {
      BudgetOne(pending, limits(i + 1));
      assert Follow(all, back, limits, 1, i + 2).pages[i + 1] == [pending[0]];
    }
  }

  /** Where a covering run of single steps scans a key. */
  lemma StepOfKey(all: seq<Visit>, back: Reading, limits: nat -> nat, n: nat, v: Visit) returns (o: Visit, i: nat)
    requires IsScan(all) && Covered(all, Follow(all, back, limits, 1, n)) && v in all
    ensures o in all && KeyOf(o) == KeyOf(v) && !o.seen.SawListError?
            && OnPage(Follow(all, back, limits, 1, n).pages, i, o)
  {
    var pages := Follow(all, back, limits, 1, n).pages;
    o := FirstOfKey(all, v);
    FirstVisitsMember(all);
    FirstVisitsMember(Flatten(pages));
    FlattenMember(pages, o);
    i :| OnPage(pages, i, o);
  }

  /** A covering run of single steps shows that no cursor leads back. */
  lemma StepsLeadOn(all: seq<Visit>, back: Reading, limits: nat -> nat, n: nat, v: Visit, w: Visit)
    requires IsScan(all) && Covered(all, Follow(all, back, limits, 1, n)) && v in all && w in all
    ensures back(KeyOf(v)).Some? && LeadsOn(back, KeyOf(v), KeyOf(w))
  {
    var k := KeyOf(v);
    var o, i := StepOfKey(all, back, limits, n, v);
    StepAfter(all, back, limits, n, i, o);
    if KeyLater(back(k).value, KeyOf(w)) && !KeyLess(k, KeyOf(w)) {
      AfterKeyMember(back(k), all);
      var u := PendingHead(all, back(k), w);
      InPageOrder(all, Follow(all, back, limits, 1, n).pages, i, i + 1, o, u);
      KeyLessTotal(k, KeyOf(w));
      AtMostLess(KeyOf(w), k, KeyOf(u));
      KeyLessIrreflexive(KeyOf(w));
      if KeyOf(u) != KeyOf(w) { KeyLessTransitive(KeyOf(w), KeyOf(u), KeyOf(w)); }
    }
  }

  /** And that each one lets through everything after its key. */
  lemma StepsMissNothing(all: seq<Visit>, back: Reading, limits: nat -> nat, n: nat, v: Visit, w: Visit)
    requires IsScan(all) && Coerces(back) && NoWayBack(all, back) && Covered(all, Follow(all, back, limits, 1, n))
    requires v in all && w in all && back(KeyOf(v)).Some? && KeyLess(KeyOf(v), KeyOf(w))
    ensures KeyLater(back(KeyOf(v)).value, KeyOf(w))
  {
    var o, i := StepOfKey(all, back, limits, n, v);
    var p, j := StepOfKey(all, back, limits, n, w);
    SingleStep(all, back, limits, n, i, o);
    StepsInOrder(all, Follow(all, back, limits, 1, n).pages, i, j, o, p);
    if !KeyLater(back(KeyOf(v)).value, KeyOf(w)) { HiddenStepLost(all, back, limits, n, i, o, KeyOf(w)); }
  }

  /** A single visit and one that comes after it. */
  lemma StepsInOrder(all: seq<Visit>, pages: seq<seq<Visit>>, i: nat, j: nat, v: Visit, w: Visit)
    requires Ordered(all) && FirstVisits(Flatten(pages)) == FirstVisits(all) && KeyLess(KeyOf(v), KeyOf(w))
    requires OnPage(pages, i, v) && OnPage(pages, j, w) && pages[i] == [v] && !v.seen.SawListError?
             && !w.seen.SawListError?
    ensures i < j
  {
    KeyLessIrreflexive(KeyOf(v));
    if j < i {
      InPageOrder(all, pages, j, i, w, v);
      KeyLessTransitive(KeyOf(v), KeyOf(w), KeyOf(v));
    }
  }

  /** A key that the cursor of page `i` hides is on no later page. */
  lemma HiddenStepLost(all: seq<Visit>, back: Reading, limits: nat -> nat, n: nat, i: nat, v: Visit, w: Key)
    requires Ordered(all) && NoWayBack(all, back) && Coerces(back)
             && OnPage(Follow(all, back, limits, 1, n).pages, i, v)
    requires back(KeyOf(v)).Some? ==> !KeyLater(back(KeyOf(v)).value, w)
    ensures AbsentFrom(Follow(all, back, limits, 1, n).pages, i + 1, w)
  {
    SingleStep(all, back, limits, n, i, v);
    LostForGood(all, back, limits, 1, i + 1, n, w);
  }

  lemma StepsReadExactly(all: seq<Visit>, back: Reading, limits: nat -> nat)
    requires IsScan(all) && Coerces(back) && Covers(all, back, limits, 1)
    ensures ReadsExactly(all, back)
  {
    var n: nat :| Covered(all, Follow(all, back, limits, 1, n));
    forall v, w | v in all && w in all
      ensures back(KeyOf(v)).Some? && LeadsOn(back, KeyOf(v), KeyOf(w))
    {
      StepsLeadOn(all, back, limits, n, v, w);
    }
    assert NoWayBack(all, back);
    forall v, w | v in all && w in all
      ensures KeyLater(back(KeyOf(v)).value, KeyOf(w)) <==> KeyLess(KeyOf(v), KeyOf(w))
    {
      assert LeadsOn(back, KeyOf(v), KeyOf(w));
      if KeyLess(KeyOf(v), KeyOf(w)) { StepsMissNothing(all, back, limits, n, v, w); }
    }
  }

  /** The page limits that the server accepts. */
  ghost predicate Permitted(limits: nat -> nat) {
    forall k :: 1 <= limits(k) <= MAX_LIMIT
  }

  function Ones(): nat -> nat { k => 1 }

  ghost predicate AlwaysCovers(all: seq<Visit>, back: Reading) {
    forall limits: nat -> nat, budget: nat :: Permitted(limits) && budget >= 1 ==> Covers(all, back, limits, budget)
  }

  /** Completeness, exactly: for all page limits and scan budgets the run ends without an error and scans the same
      keys in the same order as an unbounded scan, if and only if the server reads every key's cursor as meaning
      exactly what comes after that key. */
  lemma CoversIff(all: seq<Visit>, back: Reading)
    requires IsScan(all) && Coerces(back)
    ensures ReadsExactly(all, back) <==> AlwaysCovers(all, back)
  {
    if ReadsExactly(all, back) {
      forall limits: nat -> nat, budget: nat
        ensures Covers(all, back, limits, budget)
      {
        ExactCovers(all, back, limits, budget);
      }
    }
    if AlwaysCovers(all, back) {
      assert Permitted(Ones());
      StepsReadExactly(all, back, Ones());
    }
  }

  // ---------- listing errors ----------

  /** The run ends without an error and makes exactly the callbacks of one unbounded scan, listing errors included. */
  ghost predicate CoversAll(all: seq<Visit>, back: Reading, limits: nat -> nat, budget: nat) {
    exists n :: CoveredAll(all, Follow(all, back, limits, budget, n))
  }

  ghost predicate CoveredAll(all: seq<Visit>, r: Run) {
    r.state.Done? && Flatten(r.pages) == all
  }

  ghost predicate AlwaysCoversAll(all: seq<Visit>, back: Reading) {
    forall limits: nat -> nat, budget: nat :: Permitted(limits) && budget >= 1 ==> CoversAll(all, back, limits, budget)
  }

  ghost predicate NoListErrors(s: seq<Visit>) {
    forall v | v in s :: !v.seen.SawListError?
  }

  lemma {:induction false} FirstVisitsSame(s: seq<Visit>)
    requires NoListErrors(s)
    ensures FirstVisits(s) == s
  {
    if s != [] {
      assert s[0] in s;
      FirstVisitsSame(s[1..]);
    }
  }

  lemma CoversWithoutErrors(all: seq<Visit>, back: Reading, limits: nat -> nat, budget: nat)
    requires IsScan(all) && ReadsExactly(all, back) && NoListErrors(all)
    ensures CoversAll(all, back, limits, budget)
  {
    ExactLeadsOn(all, back);
    ExactCovers(all, back, limits, budget);
    var n: nat :| Covered(all, Follow(all, back, limits, budget, n));
    var r := Follow(all, back, limits, budget, n);
    FollowUpward(all, back, limits, budget, n);
    forall v | v in Flatten(r.pages)
      ensures v in all
    {
      FlattenMember(r.pages, v);
      var i :| OnPage(r.pages, i, v);
    }
    FirstVisitsSame(Flatten(r.pages));
    FirstVisitsSame(all);
    assert CoveredAll(all, r);
  }

  /** Two equal first visits of an ordered list are one. */
  lemma {:induction false} OnceInOrder(s: seq<Visit>, i: nat, j: nat)
    requires Ordered(s) && i < |s| && j < |s| && s[i] == s[j] && !s[i].seen.SawListError?
    ensures i == j
  {
    var lo, hi := if i < j then i else j, if i < j then j else i;
    if lo < hi {
      assert s == s[..hi] + s[hi..];
      OrderedSplit(s[..hi], s[hi..]);
      assert s[lo] in s[..hi] && s[hi] in s[hi..];
      assert Precedes(s[lo], s[hi]);
      KeyLessIrreflexive(KeyOf(s[lo]));
    }
  }

  /** Every page is the front of what one cursor leaves. */
  ghost predicate FrontOf(all: seq<Visit>, page: seq<Visit>) {
    exists after: Option<Key> :: page <= AfterKey(after, all)
  }

  lemma {:induction false} PagesAreFronts(all: seq<Visit>, back: Reading, limits: nat -> nat, budget: nat, n: nat)
    ensures forall page | page in Follow(all, back, limits, budget, n).pages :: FrontOf(all, page)
  {
    if n > 0 {
      PagesAreFronts(all, back, limits, budget, n - 1);
      var r := Follow(all, back, limits, budget, n - 1);
      if r.state.At? && (r.state.last.Some? ==> back(r.state.last.value).Some?) {
        var page := Page(AfterKey(Resume(back, r.state.last), all), limits(n - 1), budget, 0, 0).0;
        assert FrontOf(all, page);
      }
    }
  }

  lemma ErrorFollowsDir(pending: seq<Visit>, page: seq<Visit>, e: Visit)
    requires Ordered(pending) && Paired(pending) && page <= pending && e.seen.SawListError?
    requires DirOf(e) in pending ==> e in pending
    ensures e in page <==> DirOf(e) in page && Last(page) != DirOf(e)
  {
    var d := DirOf(e);
    if e in pending {
      var q :| 0 <= q < |pending| && pending[q] == e;
      assert pending[q - 1] == d;
      if d in page {
        var m :| 0 <= m < |page| && page[m] == d;
        OnceInOrder(pending, m, q - 1);
      }
      if e in page {
        var m :| 0 <= m < |page| && page[m] == e;
        assert pending[m] == e && pending[m - 1] == d;
        assert page[m - 1] == d;
        OnceInOrder(pending, m - 1, q - 1);
        if Last(page) == d { OnceInOrder(pending, |page| - 1, m - 1); }
      }
    }
  }

  /** In any run, whatever the server makes of its cursors: a page holds the listing error of a directory if and only
      if it holds the directory and does not end there. */
  lemma ErrorOnPageIff(all: seq<Visit>, back: Reading, limits: nat -> nat, budget: nat, n: nat, i: nat, e: Visit)
    requires IsScan(all) && e in all && e.seen.SawListError? && i < |Follow(all, back, limits, budget, n).pages|
    ensures var page := Follow(all, back, limits, budget, n).pages[i];
            e in page <==> DirOf(e) in page && Last(page) != DirOf(e)
  {
    var pages := Follow(all, back, limits, budget, n).pages;
    PagesAreFronts(all, back, limits, budget, n);
    assert pages[i] in pages;
    var after: Option<Key> :| pages[i] <= AfterKey(after, all);
    OrderedAfterKey(after, all);
    AfterKeyPaired(after, all);
    AfterKeyMember(after, all);
    ErrorFollowsDir(AfterKey(after, all), pages[i], e);
  }

  /** Single steps never reach a listing error: the page ends at its directory. */
  lemma StepsDropErrors(all: seq<Visit>, back: Reading, limits: nat -> nat, n: nat, e: Visit)
    requires IsScan(all) && e in all && e.seen.SawListError?
    ensures e !in Flatten(Follow(all, back, limits, 1, n).pages)
  {
    var pages := Follow(all, back, limits, 1, n).pages;
    FlattenMember(pages, e);
    if i :| OnPage(pages, i, e) {
      SingleStep(all, back, limits, n, i, e);
      ErrorOnPageIff(all, back, limits, 1, n, i, e);
    }
  }

  /** Listing errors survive all page limits and budgets, besides everything else, if and only if every cursor is
      read exactly and there are none. */
  lemma CoversAllIff(all: seq<Visit>, back: Reading)
    requires IsScan(all) && Coerces(back)
    ensures ReadsExactly(all, back) && NoListErrors(all) <==> AlwaysCoversAll(all, back)
  {
    if ReadsExactly(all, back) && NoListErrors(all) {
      forall limits: nat -> nat, budget: nat
        ensures CoversAll(all, back, limits, budget)
      {
        CoversWithoutErrors(all, back, limits, budget);
      }
    }
    if AlwaysCoversAll(all, back) {
      assert Permitted(Ones()) && CoversAll(all, back, Ones(), 1);
      var n: nat :| CoveredAll(all, Follow(all, back, Ones(), 1, n));
      assert Covered(all, Follow(all, back, Ones(), 1, n));
      StepsReadExactly(all, back, Ones());
      forall e | e in all
        ensures !e.seen.SawListError?
      {
        if e.seen.SawListError? { StepsDropErrors(all, back, Ones(), n, e); }
      }
    }
  }

  /** No directory fails to be listed. */
  predicate Listable(l: Listing) {
    match l
    case Empty => true
    case FileThen(_, _, rest) => Listable(rest)
    case DirThen(_, fails, kids, rest) => !fails && Listable(kids) && Listable(rest)
  }

  lemma NoListErrorsConcat(s: seq<Visit>, t: seq<Visit>)
    ensures NoListErrors(s + t) <==> NoListErrors(s) && NoListErrors(t)
  {
    assert (forall v | v in s :: v in s + t) && forall v | v in t :: v in s + t;
  }

  lemma {:induction false} ListableIff(r: nat, at: Path, l: Listing)
    ensures Listable(l) <==> NoListErrors(Visits(r, at, l))
    decreases l
  {
    match l
    case Empty =>
    case FileThen(n, probe, rest) => ListableIff(r, at, rest);
    case DirThen(n, fails, kids, rest) =>
      ListableIff(r, at + [n], kids);
      ListableIff(r, at, rest);
      var own := DirVisits(r, at + [n], fails);
      if fails { assert own[1] in own; }
      NoListErrorsConcat(own, Visits(r, at + [n], kids));
      NoListErrorsConcat(own + Visits(r, at + [n], kids), Visits(r, at, rest));
  }

  lemma {:induction false} AllListableIff(roots: seq<Listing>, r: nat)
    requires r <= |roots|
    ensures (forall i | r <= i < |roots| :: Listable(roots[i])) <==> NoListErrors(AllFrom(roots, r))
    decreases |roots| - r
  {
    if r < |roots| {
      ListableIff(r, [], roots[r]);
      AllListableIff(roots, r + 1);
      NoListErrorsConcat(Visits(r, [], roots[r]), AllFrom(roots, r + 1));
    }
  }

  // ---------- cursors that come back unchanged ----------

  /** A listing in which no directory with entries has a sibling named like it followed by a byte below the slash. */
  ghost predicate Safe(l: Listing) {
    match l
    case Empty => true
    case FileThen(_, _, rest) => Safe(rest)
    case DirThen(n, _, kids, rest) =>
      Safe(kids) && Safe(rest) && (kids.Empty? || forall m | m in Names(rest) :: !DotExtends(n, m))
  }

  ghost predicate SafeForest(roots: seq<Listing>) {
    forall l | l in roots :: Safe(l)
  }

  /** Shadowing of two paths that part at the level below `at`. */
  lemma PartingShadows(at: Path, v: Path, w: Path)
    requires at < v && at < w && v[|at|] != w[|at|]
    ensures Shadows(v, w) == (|v| > |at| + 1 && DotExtends(v[|at|], w[|at|]))
  {
    CommonPrefix(at, v[|at|..], w[|at|..]);
    assert v == at + v[|at|..] && w == at + w[|at|..];
  }

  lemma NestedNoShadow(p: Path, v: Path)
    requires p <= v
    ensures !Shadows(p, v) && !Shadows(v, p)
  {
    assert v == p + v[|p|..] && p == p + [];
    CommonPrefix(p, [], v[|p|..]);
    CommonPrefix(p, v[|p|..], []);
  }

  /** A name never dot-extends a name that sorts after it. */
  lemma DotExtendsSorts(n: string, m: string)
    requires StrLess(n, m)
    ensures n != m && !DotExtends(m, n)
  {
    StrLessIrreflexive(n);
    if m < n {
      StrLessPrefix(m, n);
      StrLessAsymmetric(n, m);
    }
  }

  /** Visits of two different entries of one listing: `s` holds those of `n`, the others follow it. */
  lemma EntriesNoShadow(r: nat, at: Path, n: string, s: seq<Visit>, rest: Listing)
    requires forall v | v in s :: at < v.path && v.path[|at|] == n
    requires forall m | m in Names(rest) :: StrLess(n, m)
    requires (forall v | v in s :: |v.path| == |at| + 1) || forall m | m in Names(rest) :: !DotExtends(n, m)
    ensures forall v, w | v in s && w in Visits(r, at, rest) :: !Shadows(v.path, w.path) && !Shadows(w.path, v.path)
  {
    VisitsExtend(r, at, rest);
    forall v, w | v in s && w in Visits(r, at, rest)
      ensures !Shadows(v.path, w.path) && !Shadows(w.path, v.path)
    {
      DotExtendsSorts(n, w.path[|at|]);
      PartingShadows(at, v.path, w.path);
      PartingShadows(at, w.path, v.path);
    }
  }

  ghost predicate NoShadow(s: seq<Visit>) {
    forall v, w | v in s && w in s :: !Shadows(v.path, w.path)
  }

  /** In a safe listing no visit shadows another one. */
  lemma {:induction false} SafeMeansNoShadow(r: nat, at: Path, l: Listing)
    requires Sorted(l) && Safe(l)
    ensures NoShadow(Visits(r, at, l))
    decreases l
  {
    match l
    case Empty =>
    case FileThen(n, probe, rest) =>
      SafeMeansNoShadow(r, at, rest);
      var v := Visit(r, at + [n], SawFile(probe));
      NestedNoShadow(v.path, v.path);
      EntriesNoShadow(r, at, n, [v], rest);
    case DirThen(n, fails, kids, rest) =>
      var p := at + [n];
      SafeMeansNoShadow(r, at, rest);
      SafeMeansNoShadow(r, p, kids);
      var own, below := DirVisits(r, p, fails), Visits(r, p, kids);
      VisitsExtend(r, p, kids);
      forall v: Visit, w: Visit | v in own + below && w in own + below
        ensures !Shadows(v.path, w.path)
      {
        if v in own { NestedNoShadow(p, w.path); }
        if w in own { NestedNoShadow(p, v.path); }
      }
      UnderEntry(at, n, own + below);
      EntriesNoShadow(r, at, n, own + below, rest);
  }

  /** Among the visits of a safe forest, later in walk order is all a cursor asks for. */
  lemma {:induction false} SafeForestLater(roots: seq<Listing>, r: nat)
    requires r <= |roots| && SortedForest(roots) && SafeForest(roots)
    ensures forall v, w | v in AllFrom(roots, r) && w in AllFrom(roots, r) ::
              KeyLater(KeyOf(v), KeyOf(w)) == KeyLess(KeyOf(v), KeyOf(w))
    decreases |roots| - r
  {
    if r < |roots| {
      assert roots[r] in roots;
      SafeMeansNoShadow(r, [], roots[r]);
      VisitsExtend(r, [], roots[r]);
      SafeForestLater(roots, r + 1);
      AllValid(roots, r + 1);
    }
  }

  /** An unsafe listing has a visit that shadows the one that follows it in the scan. */
  lemma {:induction false} UnsafeShadow(r: nat, at: Path, l: Listing) returns (v: Visit, w: Visit)
    requires Sorted(l) && !Safe(l)
    ensures v in Visits(r, at, l) && w in Visits(r, at, l)
    ensures !v.seen.SawListError? && !w.seen.SawListError?
    ensures Shadows(v.path, w.path) && WalkLess(v.path, w.path)
    decreases l
  {
    match l
    case FileThen(n, probe, rest) => v, w := UnsafeShadow(r, at, rest);
    case DirThen(n, fails, kids, rest) =>
      if !Safe(rest) {
        v, w := UnsafeShadow(r, at, rest);
      } else if !Safe(kids) {
        v, w := UnsafeShadow(r, at + [n], kids);
      } else {
        var m :| m in Names(rest) && DotExtends(n, m);
        w := VisitOfName(r, at, rest, m);
        v := FirstOf(r, at + [n], kids);
        VisitsExtend(r, at + [n], kids);
        UnderEntry(at, n, [v]);
        StrLessPrefix(n, m);
        StrLessIrreflexive(n);
        PartingShadows(at, v.path, w.path);
        assert v.path == at + v.path[|at|..] && w.path == at + [m];
        CommonPrefix(at, v.path[|at|..], [m]);
      }
  }

  lemma {:induction false} VisitOfName(r: nat, at: Path, l: Listing, m: string) returns (w: Visit)
    requires m in Names(l)
    ensures w in Visits(r, at, l) && w.path == at + [m] && !w.seen.SawListError?
    decreases l
  {
    match l
    case FileThen(n, probe, rest) =>
      if m == n { w := Visit(r, at + [n], SawFile(probe)); } else { w := VisitOfName(r, at, rest, m); }
    case DirThen(n, fails, kids, rest) =>
      if m == n { w := Visit(r, at + [n], SawDir); } else { w := VisitOfName(r, at, rest, m); }
  }

  lemma FirstOf(r: nat, at: Path, l: Listing) returns (v: Visit)
    requires !l.Empty?
    ensures v in Visits(r, at, l) && !v.seen.SawListError?
  {
    match l
    case FileThen(n, probe, rest) => v := Visit(r, at + [n], SawFile(probe));
    case DirThen(n, fails, kids, rest) => v := Visit(r, at + [n], SawDir);
  }

  lemma ShadowedKey(v: Visit, w: Visit)
    requires v.root == w.root && Shadows(v.path, w.path) && WalkLess(v.path, w.path)
    ensures KeyLess(KeyOf(v), KeyOf(w)) && !KeyLater(KeyOf(v), KeyOf(w))
  {
  }

  lemma InAllFrom(roots: seq<Listing>, r: nat, v: Visit)
    requires r < |roots| && (v in Visits(r, [], roots[r]) || v in AllFrom(roots, r + 1))
    ensures v in AllFrom(roots, r)
  {
  }

  lemma {:induction false} UnsafeForestShadow(roots: seq<Listing>, r: nat) returns (v: Visit, w: Visit)
    requires r <= |roots| && SortedForest(roots) && exists i :: r <= i < |roots| && !Safe(roots[i])
    ensures v in AllFrom(roots, r) && w in AllFrom(roots, r)
    ensures !v.seen.SawListError? && !w.seen.SawListError?
    ensures KeyLess(KeyOf(v), KeyOf(w)) && !KeyLater(KeyOf(v), KeyOf(w))
    decreases |roots| - r
  {
    assert roots[r] in roots;
    if !Safe(roots[r]) {
      v, w := UnsafeShadow(r, [], roots[r]);
      VisitsExtend(r, [], roots[r]);
      ShadowedKey(v, w);
    } else {
      v, w := UnsafeForestShadow(roots, r + 1);
    }
    InAllFrom(roots, r, v);
    InAllFrom(roots, r, w);
  }

  /** A cursor that comes back unchanged lets through exactly what comes after its key, for all keys, if and only if
      the forest is safe. */
  lemma SafeIffLater(roots: seq<Listing>)
    requires SortedForest(roots)
    ensures SafeForest(roots) <==> forall v, w | v in All(roots) && w in All(roots) ::
              KeyLater(KeyOf(v), KeyOf(w)) <==> KeyLess(KeyOf(v), KeyOf(w))
  {
    if SafeForest(roots) {
      SafeForestLater(roots, 0);
    } else {
      var v, w := UnsafeForestShadow(roots, 0);
    }
  }

  // ---------- runs that stop early ----------

  /** The second call of a run whose first page leaves nothing that its cursor lets through, or a cursor that is
      refused. */
  lemma StopsAfterOne(all: seq<Visit>, back: Reading, limits: nat -> nat, budget: nat, page: seq<Visit>, n: nat)
    requires page != [] && n >= 2 && Page(all, limits(0), budget, 0, 0) == (page, ScanBudgetReached)
    ensures var k := KeyOf(Last(page));
            var r := Follow(all, back, limits, budget, n);
            && (back(k).None? ==> r == Run([page], Broken))
            && (back(k).Some? && AfterKey(back(k), all) == [] ==> r == Run([page, []], Done))
  {
    FirstCall(all, back, limits, budget, page);
    assert [page] + [[]] == [page, []];
    FollowGrows(all, back, limits, budget, 2, n);
  }

  lemma {:induction false} AfterKeyNone(k: Key, s: seq<Visit>)
    requires forall v | v in s :: !KeyLater(k, KeyOf(v))
    ensures AfterKey(Some(k), s) == []
  {
    if s != [] {
      assert s[0] in s;
      AfterKeyNone(k, s[1..]);
    }
  }

  /** A scan of one visit whose cursor leads back to it never ends. */
  lemma {:induction false} LoopsForever(v: Visit, back: Reading, limits: nat -> nat, n: nat)
    requires back(KeyOf(v)).Some? && KeyLater(back(KeyOf(v)).value, KeyOf(v))
    ensures var r := Follow([v], back, limits, 1, n);
            r.state.At? && |r.pages| == n && forall i | 0 <= i < n :: r.pages[i] == [v]
  {
    var after := back(KeyOf(v));
    assert AfterKey(after, [v]) == [v] && AfterKey(None, [v]) == [v] by { assert [v][1..] == []; }
    if n > 0 {
      LoopsForever(v, back, limits, n - 1);
      LoopState(v, back, limits, n - 1);
      BudgetOne([v], limits(n - 1));
    }
  }

  lemma LoopState(v: Visit, back: Reading, limits: nat -> nat, n: nat)
    requires Follow([v], back, limits, 1, n).state.At?
    ensures Follow([v], back, limits, 1, n).state.last in {None, Some(KeyOf(v))}
  {
    if n > 0 {
      var r := Follow([v], back, limits, 1, n - 1);
      AfterKeyMember(Resume(back, r.state.last), [v]);
      var page := Page(AfterKey(Resume(back, r.state.last), [v]), limits(n - 1), 1, 0, 0).0;
      assert page != [] ==> Last(page) in page;
    }
  }
}
