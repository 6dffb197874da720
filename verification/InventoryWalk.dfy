/** The directory trees under the allowlisted roots, the walk over them, and the pruning that a
    cursor causes. A directory whose names cannot be listed calls back twice for the same path:
    once as a directory, once with the error, and is then walked over the names it did return. */
module InventoryWalk {
  import opened ByteStrings
  import opened RelPaths
  import opened GoPaths

  /** How one `Read` call on an opened file may end: it delivers at most `most` bytes (possibly none, and
      possibly reporting the end of the file together with the last ones), or it fails. */
  datatype ReadStep = Deliver(most: nat, eofWithData: bool) | Fail

  /** A file as the hashing loop meets it. Once the listed steps are used up, reads fill the buffer. */
  datatype FileReads = CannotOpen | Opened(content: seq<bv8>, steps: seq<ReadStep>)

  /** What resolving a file yields: a reason to skip it, or its resolved path, its size and its reads. */
  datatype Probe = Rejected(reason: string) | Resolved(target: string, size: nat, file: FileReads)

  /** A directory listing, one entry after the other. */
  datatype Listing =
    | Empty
    | FileThen(name: string, probe: Probe, rest: Listing)
    | DirThen(name: string, listFails: bool, kids: Listing, rest: Listing)

  datatype Seen = SawFile(probe: Probe) | SawDir | SawListError

  /** One callback of the walk. */
  datatype Visit = Visit(root: nat, path: Path, seen: Seen)

  datatype Cursor = Cursor(rootIndex: nat, relPath: string)

  function Names(l: Listing): set<string> {
    match l
    case Empty => {}
    case FileThen(n, _, rest) => {n} + Names(rest)
    case DirThen(n, _, _, rest) => {n} + Names(rest)
  }

  /** Names are what a file system can hold ("." and ".." are never listed) and every listing is strictly sorted by
      name, as directory reads return it. */
  ghost predicate Sorted(l: Listing) {
    match l
    case Empty => true
    case FileThen(n, _, rest) => PlainName(n) && Sorted(rest) && forall m | m in Names(rest) :: StrLess(n, m)
    case DirThen(n, _, kids, rest) =>
      PlainName(n) && Sorted(kids) && Sorted(rest) && forall m | m in Names(rest) :: StrLess(n, m)
  }

  /** All callbacks of an unpruned walk below directory `at` of root `r`. */
  function Visits(r: nat, at: Path, l: Listing): seq<Visit>
    decreases l
  {
    match l
    case Empty => []
    case FileThen(n, probe, rest) => [Visit(r, at + [n], SawFile(probe))] + Visits(r, at, rest)
    case DirThen(n, fails, kids, rest) =>
      DirVisits(r, at + [n], fails) + Visits(r, at + [n], kids) + Visits(r, at, rest)
  }

  /** The one or two callbacks for a directory itself. */
  function DirVisits(r: nat, p: Path, fails: bool): seq<Visit> {
    [Visit(r, p, SawDir)] + if fails then [Visit(r, p, SawListError)] else []
  }

  datatype Treatment = Count | Skip | Ancestor

  /** What the callback does with an entry, given the cursor: byte comparisons on joined paths. */
  function SkipEntry(rootIndex: nat, rel: string, isDir: bool, cursor: Option<Cursor>): Treatment {
    if cursor.None? || rootIndex != cursor.value.rootIndex then Count
    else
      var c := cursor.value.relPath;
      if rel == c && isDir then Ancestor
      else if rel == c || StrLess(rel, c) then
        if isDir && rel + "/" <= c then Ancestor else Skip
      else Count
  }

  /** The callbacks that a walk with a cursor counts. A skipped directory is not entered. */
  function Counted(r: nat, at: Path, l: Listing, cursor: Option<Cursor>): seq<Visit>
    decreases l
  {
    match l
    case Empty => []
    case FileThen(n, probe, rest) =>
      (if SkipEntry(r, Join(at + [n]), false, cursor).Count? then [Visit(r, at + [n], SawFile(probe))] else [])
      + Counted(r, at, rest, cursor)
    case DirThen(n, fails, kids, rest) =>
      var here := SkipEntry(r, Join(at + [n]), true, cursor);
      (if here.Count? then DirVisits(r, at + [n], fails) else [])
      + (if here.Skip? then [] else Counted(r, at + [n], kids, cursor))
      + Counted(r, at, rest, cursor)
  }

  /** The visits of `s` that are later than `c`. */
  function LaterOf(c: Path, s: seq<Visit>): seq<Visit> {
    if s == [] then [] else (if Later(c, s[0].path) then [s[0]] else []) + LaterOf(c, s[1..])
  }

  // ---------- facts about lists of visits ----------

  lemma {:induction false} LaterOfConcat(c: Path, s: seq<Visit>, t: seq<Visit>)
    ensures LaterOf(c, s + t) == LaterOf(c, s) + LaterOf(c, t)
  {
    if s == [] {
      assert s + t == t;
    } else {
      assert (s + t)[0] == s[0] && (s + t)[1..] == s[1..] + t;
      LaterOfConcat(c, s[1..], t);
    }
  }

  lemma {:induction false} LaterOfAll(c: Path, s: seq<Visit>)
    requires forall v | v in s :: Later(c, v.path)
    ensures LaterOf(c, s) == s
  {
    if s != [] {
      LaterOfAll(c, s[1..]);
      assert s[0] in s;
    }
  }

  lemma {:induction false} LaterOfNone(c: Path, s: seq<Visit>)
    requires forall v | v in s :: !Later(c, v.path)
    ensures LaterOf(c, s) == []
  {
    if s != [] {
      LaterOfNone(c, s[1..]);
      assert s[0] in s;
    }
  }

  /** Every visit below `at` belongs to the root and extends `at` by one of the listed names. */
  lemma {:induction false} VisitsExtend(r: nat, at: Path, l: Listing)
    ensures forall v | v in Visits(r, at, l) ::
              v.root == r && |at| < |v.path| && at < v.path && v.path[|at|] in Names(l)
    decreases l
  {
    match l
    case Empty =>
    case FileThen(n, probe, rest) => VisitsExtend(r, at, rest);
    case DirThen(n, fails, kids, rest) =>
      VisitsExtend(r, at + [n], kids);
      VisitsExtend(r, at, rest);
      forall v | v in Visits(r, at + [n], kids)
        ensures at < v.path && v.path[|at|] == n
      {
        assert v.path[..|at| + 1] == at + [n];
        assert at == (at + [n])[..|at|];
      }
  }

  lemma {:induction false} VisitsValid(r: nat, at: Path, l: Listing)
    requires Sorted(l) && PlainPath(at)
    ensures forall v | v in Visits(r, at, l) :: PlainPath(v.path)
    decreases l
  {
    match l
    case Empty =>
    case FileThen(n, probe, rest) => VisitsValid(r, at, rest);
    case DirThen(n, fails, kids, rest) =>
      VisitsValid(r, at + [n], kids);
      VisitsValid(r, at, rest);
  }

  // ---------- pruning by strings is exactly the component-level order ----------

  /** One entry of a directory that is the cursor, or one of its proper ancestors, or later than it. */
  lemma SkipEntryExact(r: nat, at: Path, n: string, isDir: bool, c: Path)
    requires ValidPath(at) && ValidName(n) && c != [] && ValidPath(c)
    requires at <= c || Later(c, at)
    ensures var p := at + [n];
            SkipEntry(r, Join(p), isDir, Some(Cursor(r, Join(c)))) ==
            if Later(c, p) then Count else if isDir && p <= c then Ancestor else Skip
  {
    var p := at + [n];
    JoinPrefix(p, c);
    JoinLess(p, c);
    JoinLess(c, p);
    if Join(p) == Join(c) { JoinInjective(p, c); }
    if p == c {
      WalkLessIrreflexive(p);
      StrLessIrreflexive(Join(p));
    } else {
      LaterIsNotLess(at, n, c);
      PathLessTotal(p, c);
      if StrLess(Join(p), Join(c)) { StrLessAsymmetric(Join(p), Join(c)); }
    }
  }

  lemma LaterIsNotLess(at: Path, n: string, c: Path)
    requires ValidPath(at) && ValidName(n) && c != [] && ValidPath(c) && at + [n] != c
    requires at <= c || Later(c, at)
    ensures Later(c, at + [n]) == PathLess(c, at + [n])
  {
    if at <= c {
      var x := c[|at|..];
      assert c == at + x;
      CommonPrefix(at, x, [n]);
      if x == [] {
        ExtensionPathLess(c, at + [n]);
      } else {
        PathLessCommonPrefix(at, x, [n]);
        StepLater(x, n);
      }
    } else {
      LaterExtends(c, at, [n]);
      LaterPathLess(c, at + [n]);
    }
  }

  lemma {:induction false} PathLessCommonPrefix(q: Path, x: Path, y: Path)
    requires x != [] && y != []
    ensures PathLess(q + x, q + y) == PathLess(x, y)
  {
    if q == [] {
      assert q + x == x && q + y == y;
    } else {
      assert (q + x)[1..] == q[1..] + x && (q + y)[1..] == q[1..] + y;
      PathLessCommonPrefix(q[1..], x, y);
    }
  }

  lemma {:induction false} ExtensionPathLess(c: Path, p: Path)
    requires c != [] && c < p
    ensures PathLess(c, p)
  {
    if |c| > 1 { ExtensionPathLess(c[1..], p[1..]); }
  }

  lemma {:induction false} LaterPathLess(c: Path, p: Path)
    requires c != [] && ValidPath(c) && ValidPath(p) && Later(c, p)
    ensures PathLess(c, p)
  {
    var m, n := c[0], p[0];
    assert ValidName(m) && ValidName(n) by { assert m in c && n in p; }
    if m == n {
      StrLessIrreflexive(m);
      assert WalkLess(c[1..], p[1..]);
      if |c| > 1 { LaterPathLess(c[1..], p[1..]); }
    } else if m <= n {
      assert n[|m|] in n;
    } else if n <= m {
      StrLessPrefix(n, m);
      StrLessAsymmetric(n, m);
    }
  }

  /** A single name against a cursor tail. */
  lemma StepLater(x: Path, n: string)
    requires x != [] && ValidPath(x) && ValidName(n) && x != [n]
    ensures Later(x, [n]) == PathLess(x, [n])
  {
    var m := x[0];
    assert ValidName(m) by { assert m in x; }
    if m == n {
      StrLessIrreflexive(m);
      assert !WalkLess(x[1..], [n][1..]);
    } else if m <= n {
      StrLessPrefix(m, n);
      assert n[|m|] in n;
    } else if n <= m {
      StrLessPrefix(n, m);
      StrLessAsymmetric(n, m);
    }
  }

  /** The pruned walk counts exactly the later visits: for every listing and every cursor, in the tree or not. */
  lemma {:induction false} PruningExact(r: nat, at: Path, l: Listing, c: Path)
    requires Sorted(l) && ValidPath(at) && c != [] && ValidPath(c)
    requires at <= c || Later(c, at)
    ensures Counted(r, at, l, Some(Cursor(r, Join(c)))) == LaterOf(c, Visits(r, at, l))
    decreases l
  {
    var cursor := Some(Cursor(r, Join(c)));
    match l
    case Empty =>
    case FileThen(n, probe, rest) =>
      SkipEntryExact(r, at, n, false, c);
      PruningExact(r, at, rest, c);
      LaterOfConcat(c, [Visit(r, at + [n], SawFile(probe))], Visits(r, at, rest));
    case DirThen(n, fails, kids, rest) =>
      var p := at + [n];
      SkipEntryExact(r, at, n, true, c);
      PruningExact(r, at, rest, c);
      var own, below := DirVisits(r, p, fails), Visits(r, p, kids);
      LaterOfConcat(c, own + below, Visits(r, at, rest));
      LaterOfConcat(c, own, below);
      if Later(c, p) { LaterOfAll(c, own); } else { LaterOfNone(c, own); }
      if Later(c, p) || p <= c {
        PruningExact(r, p, kids, c);
      } else {
        NoneLaterBelow(r, p, kids, c);
      }
  }

  /** Nothing below a path that the cursor is past comes after the cursor. */
  lemma NoneLaterBelow(r: nat, p: Path, kids: Listing, c: Path)
    requires !Later(c, p) && !(p <= c)
    ensures LaterOf(c, Visits(r, p, kids)) == []
  {
    VisitsExtend(r, p, kids);
    forall v | v in Visits(r, p, kids)
      ensures !Later(c, v.path)
    {
      assert v.path == p + v.path[|p|..];
      NotLaterExtends(c, p, v.path[|p|..]);
    }
    LaterOfNone(c, Visits(r, p, kids));
  }

  /** Without a cursor for this root the walk counts every visit. */
  lemma {:induction false} NoCursorCountsAll(r: nat, at: Path, l: Listing, cursor: Option<Cursor>)
    requires cursor.None? || r != cursor.value.rootIndex
    ensures Counted(r, at, l, cursor) == Visits(r, at, l)
    decreases l
  {
    match l
    case Empty =>
    case FileThen(n, probe, rest) => NoCursorCountsAll(r, at, rest, cursor);
    case DirThen(n, fails, kids, rest) =>
      NoCursorCountsAll(r, at + [n], kids, cursor);
      NoCursorCountsAll(r, at, rest, cursor);
  }
}
