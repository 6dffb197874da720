/** Resolving and checking the workspace directories and the artifact allowlist of a configuration. */
module WorkspaceConfig {
  import opened ByteStrings
  import opened RelPaths
  import opened GoPaths
  import opened Containment

  // ---------- resolving a directory that may not exist yet ----------

  datatype Kind = Directory | OtherFile | Missing | Inaccessible

  /** What the file system says about an absolute path, and where symbolic links lead from an existing one. */
  datatype FileSystem = FileSystem(kind: Path -> Kind, eval: Path -> Option<Path>)

  /** Below a missing path everything is missing, and links lead to plain paths. */
  ghost predicate Coherent(fs: FileSystem) {
    && (forall a, b {:trigger fs.kind(a), fs.kind(b)} | a <= b && fs.kind(a).Missing? :: fs.kind(b).Missing?)
    && (forall a | fs.eval(a).Some? :: PlainPath(fs.eval(a).value))
  }

  /** The resolved form of an existing directory with a missing tail behind it. */
  function AtDirectory(fs: FileSystem, cur: Path, tail: Path): Option<Path> {
    match fs.eval(cur)
    case None => None
    case Some(r) => Some(r + tail)
  }

  /** The walk up to the nearest existing ancestor. */
  function ResolveFrom(fs: FileSystem, cur: Path, tail: Path): Option<Path>
    decreases |cur|
  {
    match fs.kind(cur)
    case Directory => AtDirectory(fs, cur, tail)
    case OtherFile => None
    case Inaccessible => None
    case Missing => if cur == [] then None else ResolveFrom(fs, cur[..|cur| - 1], [cur[|cur| - 1]] + tail)
  }

  method ResolveOptionalDir(fs: FileSystem, p: Path) returns (r: Option<Path>)
    ensures r == ResolveFrom(fs, p, [])
  {
    match fs.kind(p)
    case OtherFile => return None;
    case Inaccessible => return None;
    case Directory =>
      assert AtDirectory(fs, p, []) == fs.eval(p) by {
        if fs.eval(p).Some? { assert fs.eval(p).value + [] == fs.eval(p).value; }
      }
      return fs.eval(p);
    case Missing =>
      var tail: Path := [];
      var cur := p;
      while true
        invariant fs.kind(cur).Missing?
        invariant ResolveFrom(fs, cur, tail) == ResolveFrom(fs, p, [])
        decreases |cur|
      {
        if cur == [] { return None; }
        tail := [cur[|cur| - 1]] + tail;
        cur := cur[..|cur| - 1];
        match fs.kind(cur)
        case Directory => return AtDirectory(fs, cur, tail);
        case OtherFile => return None;
        case Inaccessible => return None;
        case Missing =>
      }
  }

  /** What creating one directory may change: paths that were missing, because nothing was there or because a link led
      nowhere, now lead to the directory `made`, and nothing is in it yet. */
  ghost predicate Creation(before: FileSystem, after: FileSystem, made: Path) {
    && DirectoriesInside(after)
    && (forall p: Path :: Unchanged(before, after, p) || Appears(before, after, made, p))
    && (forall p: Path | p != [] && Appears(before, after, made, Parent(p)) :: after.kind(p).Missing?)
  }

  function Parent(p: Path): Path
    requires p != []
  {
    p[..|p| - 1]
  }

  function Name(p: Path): string
    requires p != []
  {
    p[|p| - 1]
  }

  /** A directory is in a directory. */
  ghost predicate DirectoriesInside(fs: FileSystem) {
    forall p: Path {:trigger fs.kind(p)} | p != [] && fs.kind(p).Directory? :: fs.kind(Parent(p)).Directory?
  }

  predicate Unchanged(before: FileSystem, after: FileSystem, p: Path) {
    after.kind(p) == before.kind(p) && after.eval(p) == before.eval(p)
  }

  predicate Appears(before: FileSystem, after: FileSystem, made: Path, p: Path) {
    before.kind(p).Missing? && after.kind(p).Directory? && after.eval(p) == Some(made)
  }

  lemma {:induction false} ResolveTail(fs: FileSystem, cur: Path, tail: Path)
    ensures ResolveFrom(fs, cur, tail) ==
            match ResolveFrom(fs, cur, []) case None => None case Some(r) => Some(r + tail)
    decreases |cur|
  {
    if fs.kind(cur).Directory? {
      if fs.eval(cur).Some? { assert fs.eval(cur).value + [] == fs.eval(cur).value; }
    } else if fs.kind(cur).Missing? && cur != [] {
      var front, n := cur[..|cur| - 1], cur[|cur| - 1];
      ResolveTail(fs, front, [n] + tail);
      ResolveTail(fs, front, [n] + []);
      if r :| ResolveFrom(fs, front, []) == Some(r) { assert r + ([n] + tail) == r + ([n] + []) + tail; }
    }
  }

  lemma {:induction false} ResolveSame(before: FileSystem, after: FileSystem, made: Path, cur: Path, tail: Path)
    requires Creation(before, after, made)
    requires forall p | Appears(before, after, made, p) :: ResolveFrom(before, p, []) == Some(made)
    ensures ResolveFrom(after, cur, tail) == ResolveFrom(before, cur, tail)
    decreases |cur|
  {
    if !Unchanged(before, after, cur) {
      assert Appears(before, after, made, cur);
      ResolveTail(before, cur, tail);
    } else if before.kind(cur).Missing? && cur != [] {
      ResolveSame(before, after, made, cur[..|cur| - 1], [cur[|cur| - 1]] + tail);
    }
  }

  /** The path is the directory's own name in its own parent, in whatever way that parent is reached. */
  ghost predicate OwnName(fs: FileSystem, made: Path, p: Path) {
    p != [] && fs.eval(Parent(p)).Some? && fs.eval(Parent(p)).value + [Name(p)] == made
  }

  /** A path that comes to exist was missing from an existing directory, unless it is the root. */
  lemma AppearsInDirectory(before: FileSystem, after: FileSystem, made: Path, p: Path)
    requires Creation(before, after, made) && Appears(before, after, made, p) && p != []
    ensures before.kind(Parent(p)).Directory?
  {
    assert after.kind(Parent(p)).Directory?;
    assert Unchanged(before, after, Parent(p));
  }

  /** A missing entry of an existing directory resolves to the place where it will be created. */
  lemma NamedEntryLeadsThere(fs: FileSystem, p: Path)
    requires p != [] && fs.kind(p).Missing? && fs.kind(Parent(p)).Directory?
    ensures ResolveFrom(fs, p, []) ==
            match fs.eval(Parent(p)) case None => None case Some(place) => Some(place + [Name(p)])
  {
    assert [Name(p)] + [] == [Name(p)];
    assert ResolveFrom(fs, p, []) == AtDirectory(fs, Parent(p), [Name(p)] + []);
  }

  /** What a path that comes to exist had been resolved to. */
  lemma AppearedFrom(before: FileSystem, after: FileSystem, made: Path, p: Path)
    requires Creation(before, after, made) && Appears(before, after, made, p)
    ensures ResolveFrom(before, p, []) == Some(made) <==> OwnName(before, made, p)
  {
    if p != [] {
      AppearsInDirectory(before, after, made, p);
      NamedEntryLeadsThere(before, p);
    }
  }

  /** No link that led nowhere leads to the new directory: wherever it comes to exist, it is the path's own entry. */
  ghost predicate NoLinkLeadsTo(before: FileSystem, after: FileSystem, made: Path) {
    forall p | Appears(before, after, made, p) :: OwnName(before, made, p)
  }

  predicate ResolvesAlike(before: FileSystem, after: FileSystem, p: Path) {
    ResolveFrom(after, p, []) == ResolveFrom(before, p, [])
  }

  lemma NoLinkKeeps(before: FileSystem, after: FileSystem, made: Path, p: Path)
    requires Creation(before, after, made) && NoLinkLeadsTo(before, after, made)
    ensures ResolvesAlike(before, after, p)
  {
    forall q | Appears(before, after, made, q)
      ensures ResolveFrom(before, q, []) == Some(made)
    {
      AppearedFrom(before, after, made, q);
    }
    ResolveSame(before, after, made, p, []);
  }

  lemma AlikeIsOwnName(before: FileSystem, after: FileSystem, made: Path, p: Path)
    requires Creation(before, after, made) && Appears(before, after, made, p) && ResolvesAlike(before, after, p)
    ensures OwnName(before, made, p)
  {
    AppearedFrom(before, after, made, p);
    assert made + [] == made;
  }

  /** Creating a directory changes no resolved path, if and only if no link that led nowhere leads to it: every path
      at which it comes to exist is its own name in its own parent. */
  lemma ResolveStableIff(before: FileSystem, after: FileSystem, made: Path)
    requires Creation(before, after, made)
    ensures NoLinkLeadsTo(before, after, made) <==> forall p :: ResolvesAlike(before, after, p)
  {
    if NoLinkLeadsTo(before, after, made) {
      forall p
        ensures ResolvesAlike(before, after, p)
      {
        NoLinkKeeps(before, after, made, p);
      }
    }
    if forall p :: ResolvesAlike(before, after, p) {
      forall p | Appears(before, after, made, p)
        ensures OwnName(before, made, p)
      {
        AlikeIsOwnName(before, after, made, p);
      }
    }
  }

  /** The path `/w/out` is a link to `/real`, where nothing is yet. */
  function Dangling(): FileSystem {
    FileSystem((p: Path) => if p in {[], ["w"]} then Directory else Missing,
               (p: Path) => if p in {[], ["w"]} then Some(p) else None)
  }

  /** The same after `/real` has been created. */
  function Linked(): FileSystem {
    FileSystem((p: Path) => if p in {[], ["w"], ["real"], ["w", "out"]} then Directory else Missing,
               (p: Path) => if p in {[], ["w"]} then Some(p)
                            else if p in {["real"], ["w", "out"]} then Some(["real"]) else None)
  }

  lemma ShortPrefix(a: Path, b: Path)
    requires a <= b
    ensures |b| == 0 ==> a == b
    ensures |b| == 1 ==> a == [] || a == b
    ensures |b| == 2 ==> a == [] || a == [b[0]] || a == b
  {
  }

  /** Both are file systems. */
  lemma DanglingCoherent()
    ensures Coherent(Dangling()) && Coherent(Linked())
  {
    PlainParts();
    var fs, after := Dangling(), Linked();
    forall a: Path, b: Path {:trigger fs.kind(a), fs.kind(b)} | a <= b && fs.kind(a).Missing?
      ensures fs.kind(b).Missing?
    {
      ShortPrefix(a, b);
    }
    forall a: Path, b: Path {:trigger after.kind(a), after.kind(b)} | a <= b && after.kind(a).Missing?
      ensures after.kind(b).Missing?
    {
      ShortPrefix(a, b);
    }
  }

  lemma DanglingDirectories()
    ensures DirectoriesInside(Linked())
    ensures forall p: Path | p != [] && Appears(Dangling(), Linked(), ["real"], Parent(p)) :: Linked().kind(p).Missing?
  {
    assert Parent(["w"]) == [] && Parent(["real"]) == [] && Parent(["w", "out"]) == ["w"];
  }

  lemma PlainParts()
    ensures PlainPath([]) && PlainPath(["w"]) && PlainPath(["real"])
  {
  }

  /** A link that led nowhere resolves to another place once its target has been created. */
  lemma DanglingLinkMoves()
    ensures Coherent(Dangling()) && Coherent(Linked())
    ensures Creation(Dangling(), Linked(), ["real"])
    ensures ResolveFrom(Dangling(), ["w", "out"], []) == Some(["w", "out"])
    ensures ResolveFrom(Linked(), ["w", "out"], []) == Some(["real"])
  {
    DanglingCoherent();
    var p := ["w", "out"];
    assert p[..1] == ["w"] && p[1] == "out" && ["out"] + [] == ["out"] && ["w"] + ["out"] == p
        && ["real"] + [] == ["real"];
    assert Parent(p) == ["w"] && Name(p) == "out";
    NamedEntryLeadsThere(Dangling(), p);
    DanglingDirectories();
    forall q: Path
      ensures Unchanged(Dangling(), Linked(), q) || Appears(Dangling(), Linked(), ["real"], q)
    {
      if q in {["real"], ["w", "out"]} { assert q !in {[], ["w"]}; }
    }
  }

  lemma {:induction false} ResolvedIsPlain(fs: FileSystem, cur: Path, tail: Path)
    requires Coherent(fs) && PlainPath(cur) && PlainPath(tail)
    ensures ResolveFrom(fs, cur, tail).Some? ==> PlainPath(ResolveFrom(fs, cur, tail).value)
    decreases |cur|
  {
    if fs.kind(cur).Missing? && cur != [] {
      assert cur[|cur| - 1] in cur;
      ResolvedIsPlain(fs, cur[..|cur| - 1], [cur[|cur| - 1]] + tail);
    }
  }

  /** Resolving the text of a path; `absolute` completes it with the working directory. */
  function ResolveText(fs: FileSystem, absolute: string -> string, text: string): Option<string> {
    match ResolveFrom(fs, Components(absolute(text)), [])
    case None => None
    case Some(p) => Some(AbsPath(p))
  }

  ghost predicate GivesAbsolute(absolute: string -> string) {
    forall s {:trigger absolute(s)} :: IsAbs(absolute(s))
  }

  lemma ResolveTextClean(fs: FileSystem, absolute: string -> string, text: string)
    requires Coherent(fs) && GivesAbsolute(absolute) && ResolveText(fs, absolute, text).Some?
    ensures IsCleanAbs(ResolveText(fs, absolute, text).value)
  {
    var s := absolute(text);
    ReduceRooted(Split(s), []);
    ResolvedIsPlain(fs, Components(s), []);
    AbsPathClean(ResolveFrom(fs, Components(s), []).value);
  }

  // ---------- the workspace ----------

  datatype Failure = Unresolved | OutputIsPcap | TmpIsPcap | OutputUnderPcap | TmpUnderPcap | EqualsRoot | OutsideRoot

  predicate SamePath(a: string, b: string) {
    Clean(a) == Clean(b)
  }

  /** Two directories, neither equal to nor inside the first one's tree. */
  ghost predicate Apart(pcap: string, dir: string) {
    dir != "" && pcap != "" ==> !(Components(pcap) <= Components(dir))
  }

  ghost predicate UnsetOrClean(dir: string) {
    dir == "" || IsCleanAbs(dir)
  }

  ghost predicate StrictlyUnder(root: string, dir: string) {
    dir != "" ==> Components(root) < Components(dir)
  }

  /** The directories of a workspace; empty means not set. */
  datatype Dirs = Dirs(root: string, pcap: string, output: string, tmp: string, keylog: string)

  /** How they must lie to each other. */
  ghost predicate WellPlaced(d: Dirs) {
    && Apart(d.pcap, d.output) && Apart(d.pcap, d.tmp)
    && (d.root != "" ==> StrictlyUnder(d.root, d.pcap) && StrictlyUnder(d.root, d.output)
                         && StrictlyUnder(d.root, d.tmp) && StrictlyUnder(d.root, d.keylog))
  }

  function OrDefault(root: string, dir: string, name: string): string {
    if root != "" && dir == "" then JoinBelow(root, name) else dir
  }

  /** The directories after defaults and resolution, unless one of them cannot be resolved. */
  function Resolved(fs: FileSystem, absolute: string -> string, d: Dirs): Option<Dirs> {
    var root := SlotResult(fs, absolute, d.root);
    if root.None? then None
    else
      var r := root.value;
      var pcap := SlotResult(fs, absolute, OrDefault(r, d.pcap, "pcaps"));
      var output := SlotResult(fs, absolute, OrDefault(r, d.output, "output"));
      var tmp := SlotResult(fs, absolute, OrDefault(r, d.tmp, "tmp"));
      var keylog := SlotResult(fs, absolute, d.keylog);
      if pcap.None? || output.None? || tmp.None? || keylog.None? then None
      else Some(Dirs(r, pcap.value, output.value, tmp.value, keylog.value))
  }

  /** The resolved directories are clean and absolute where they are set, and with a root the three directories with a
      default are set. */
  lemma ResolvedClean(fs: FileSystem, absolute: string -> string, d: Dirs)
    requires Coherent(fs) && GivesAbsolute(absolute) && Resolved(fs, absolute, d).Some?
    ensures var r := Resolved(fs, absolute, d).value;
            && UnsetOrClean(r.root) && UnsetOrClean(r.pcap) && UnsetOrClean(r.output) && UnsetOrClean(r.tmp)
            && UnsetOrClean(r.keylog) && (r.root != "" <==> d.root != "")
            && (r.pcap != "" <==> d.pcap != "" || d.root != "") && (r.output != "" <==> d.output != "" || d.root != "")
            && (r.tmp != "" <==> d.tmp != "" || d.root != "") && (r.keylog != "" <==> d.keylog != "")
  {
    var r := Resolved(fs, absolute, d).value;
    SlotClean(fs, absolute, d.root);
    SlotClean(fs, absolute, OrDefault(r.root, d.pcap, "pcaps"));
    SlotClean(fs, absolute, OrDefault(r.root, d.output, "output"));
    SlotClean(fs, absolute, OrDefault(r.root, d.tmp, "tmp"));
    SlotClean(fs, absolute, d.keylog);
  }

  lemma SlotClean(fs: FileSystem, absolute: string -> string, dir: string)
    requires Coherent(fs) && GivesAbsolute(absolute) && SlotResult(fs, absolute, dir).Some?
    ensures var r := SlotResult(fs, absolute, dir).value; UnsetOrClean(r) && (r != "" <==> dir != "")
  {
    if dir != "" { ResolveTextClean(fs, absolute, dir); }
  }

  /** A default is the named directory directly under the root. */
  lemma DefaultUnderRoot(root: string, name: string)
    requires IsCleanAbs(root) && PlainName(name)
    ensures JoinBelow(root, name) == AbsPath(Components(root) + [name])
    ensures Components(JoinBelow(root, name)) == Components(root) + [name]
  {
    var p := Components(root);
    CleanAbsComponents(root);
    AbsPathClean(p + [name]);
    if p == [] {
      assert root == "/" && root + "/" + name == "/" + "/" + name;
      RootSlash(name);
      assert p + [name] == [name];
      assert Clean("/" + "/" + name) == "/" + Join([name]);
    } else {
      JoinLast(p, name);
      SlashSplit(Join(p), name);
      assert root + "/" + name == AbsPath(p + [name]);
    }
  }

  lemma SlashSplit(joined: string, name: string)
    ensures ("/" + joined) + "/" + name == "/" + (joined + "/" + name)
  {
  }

  lemma {:induction false} JoinLast(p: Path, name: string)
    requires p != []
    ensures Join(p) + "/" + name == Join(p + [name])
  {
    assert (p + [name])[1..] == p[1..] + [name];
    if |p| == 1 { assert p[1..] + [name] == [name]; } else { JoinLast(p[1..], name); }
  }

  /** The root directory already ends in a slash. */
  lemma RootSlash(name: string)
    requires PlainName(name)
    ensures Components("/" + "/" + name) == [name]
  {
    var s := "/" + "/" + name;
    SplitName(name, "");
    assert name + "" == name && s[1..] == "/" + name && s[1..][1..] == name;
    assert Split(s[1..]) == [""] + Split(name);
    assert Split(s) == [""] + ([""] + [name]);
    SkipEmpty([""] + [name]);
    SkipEmpty([name]);
    ReducePlain([name], [], true);
    assert [] + [name] == [name];
  }

  lemma SkipEmpty(pieces: seq<string>)
    ensures Reduce([""] + pieces, [], true) == Reduce(pieces, [], true)
  {
    assert ([""] + pieces)[1..] == pieces;
  }

  class Workspace {
    var root: string
    var pcapDir: string
    var outputDir: string
    var tmpDir: string
    var keylogDir: string

    ghost function Contents(): Dirs
      reads this
    {
      Dirs(root, pcapDir, outputDir, tmpDir, keylogDir)
    }

    /** Fills in the defaults, resolves every directory that is set, and checks how they lie to each other. It
        succeeds exactly if everything can be resolved and lies well, and the directories are then the resolved ones;
        on a failure nothing has changed. */
    method Normalize(fs: FileSystem, absolute: string -> string) returns (failure: Option<Failure>)
      requires Coherent(fs) && GivesAbsolute(absolute)
      modifies this
      ensures failure.None? <==>
                Resolved(fs, absolute, old(Contents())).Some? &&
                WellPlaced(Resolved(fs, absolute, old(Contents())).value)
      ensures failure.None? ==> Some(Contents()) == Resolved(fs, absolute, old(Contents()))
      ensures failure.Some? ==> Contents() == old(Contents())
    {
      ghost var given := Contents();
      var resolved := ResolveSlot(fs, absolute, root);
      if resolved.None? { return Some(Unresolved); }
      var r, p, o, t := resolved.value, pcapDir, outputDir, tmpDir;
      if r != "" {
        if p == "" { p := JoinBelow(r, "pcaps"); }
        if o == "" { o := JoinBelow(r, "output"); }
        if t == "" { t := JoinBelow(r, "tmp"); }
      }
      var slots := ResolveSlots(fs, absolute, [p, o, t, keylogDir]);
      assert slots.Some? <==> Resolved(fs, absolute, given).Some? by { FourSlots(fs, absolute, p, o, t, keylogDir); }
      if slots.None? { return Some(Unresolved); }
      var dirs := slots.value;
      assert Resolved(fs, absolute, given) == Some(Dirs(r, dirs[0], dirs[1], dirs[2], dirs[3]));
      failure := CheckPlaces(r, dirs[0], dirs[1], dirs[2], dirs[3]);
      if failure.None? {
        root, pcapDir, outputDir, tmpDir, keylogDir := r, dirs[0], dirs[1], dirs[2], dirs[3];
      }
    }
  }

  lemma FourSlots(fs: FileSystem, absolute: string -> string, a: string, b: string, c: string, d: string)
    ensures (forall i | 0 <= i < 4 :: SlotResult(fs, absolute, [a, b, c, d][i]).Some?) <==>
              SlotResult(fs, absolute, a).Some? && SlotResult(fs, absolute, b).Some?
              && SlotResult(fs, absolute, c).Some? && SlotResult(fs, absolute, d).Some?
  {
    var s := [a, b, c, d];
    assert s[0] == a && s[1] == b && s[2] == c && s[3] == d;
  }

  /** Go's `filepath.Join` of a directory and a name. */
  function JoinBelow(dir: string, name: string): (r: string)
    ensures r != ""
  {
    CleanNotEmpty(dir + "/" + name);
    Clean(dir + "/" + name)
  }

  function SlotResult(fs: FileSystem, absolute: string -> string, dir: string): Option<string> {
    if dir == "" then Some("") else ResolveText(fs, absolute, dir)
  }

  /** The directories in turn, up to the first that cannot be resolved. */
  method ResolveSlots(fs: FileSystem, absolute: string -> string, dirs: seq<string>) returns (r: Option<seq<string>>)
    requires Coherent(fs) && GivesAbsolute(absolute)
    ensures r.Some? <==> forall i | 0 <= i < |dirs| :: SlotResult(fs, absolute, dirs[i]).Some?
    ensures r.Some? ==> |r.value| == |dirs|
    ensures r.Some? ==> forall i | 0 <= i < |dirs| ::
              Some(r.value[i]) == SlotResult(fs, absolute, dirs[i]) && (r.value[i] == "" <==> dirs[i] == "")
              && UnsetOrClean(r.value[i])
  {
    var out: seq<string> := [];
    for i := 0 to |dirs|
      invariant |out| == i
      invariant forall j | 0 <= j < i ::
                Some(out[j]) == SlotResult(fs, absolute, dirs[j]) && (out[j] == "" <==> dirs[j] == "")
                                         && UnsetOrClean(out[j])
    {
      var d := ResolveSlot(fs, absolute, dirs[i]);
      if d.None? { return None; }
      out := out + [d.value];
    }
    r := Some(out);
  }

  lemma CleanNotEmpty(s: string)
    ensures Clean(s) != ""
  {
    var p := Components(s);
    if !IsAbs(s) && p != [] { JoinNotEmpty(s); }
  }

  lemma JoinNotEmpty(s: string)
    requires !IsAbs(s) && Components(s) != []
    ensures Join(Components(s)) != ""
  {
    NoEmptyPieces(Split(s), []);
    assert Components(s)[0] != "";
  }

  lemma {:induction false} NoEmptyPieces(pieces: seq<string>, done: Path)
    requires forall i | 0 <= i < |done| :: done[i] != ""
    ensures forall i | 0 <= i < |Reduce(pieces, done, false)| :: Reduce(pieces, done, false)[i] != ""
  {
    if pieces != [] {
      if pieces[0] == "" || pieces[0] == "." {
        NoEmptyPieces(pieces[1..], done);
      } else if pieces[0] == ".." {
        if done != [] && done[|done| - 1] != ".." {
          NoEmptyPieces(pieces[1..], done[..|done| - 1]);
        } else {
          NoEmptyPieces(pieces[1..], done + [".."]);
        }
      } else {
        NoEmptyPieces(pieces[1..], done + [pieces[0]]);
      }
    }
  }

  /** One slot: empty stays empty. */
  method ResolveSlot(fs: FileSystem, absolute: string -> string, dir: string) returns (r: Option<string>)
    requires Coherent(fs) && GivesAbsolute(absolute)
    ensures r == SlotResult(fs, absolute, dir)
    ensures dir != "" && r.Some? ==> IsCleanAbs(r.value) && r.value != ""
  {
    if dir == "" { return Some(""); }
    var p := ResolveOptionalDir(fs, Components(absolute(dir)));
    if p.None? { return None; }
    ResolveTextClean(fs, absolute, dir);
    r := Some(AbsPath(p.value));
  }

  /** The checks on resolved directories, in their order. */
  method CheckPlaces(root: string, pcap: string, output: string, tmp: string, keylog: string)
    returns (failure: Option<Failure>)
    requires UnsetOrClean(root) && UnsetOrClean(pcap) && UnsetOrClean(output) && UnsetOrClean(tmp)
             && UnsetOrClean(keylog)
    ensures failure.None? <==>
              && Apart(pcap, output) && Apart(pcap, tmp)
              && (root != "" ==> StrictlyUnder(root, pcap) && StrictlyUnder(root, output)
                                 && StrictlyUnder(root, tmp) && StrictlyUnder(root, keylog))
  {
    SameOrUnder(pcap, output);
    SameOrUnder(pcap, tmp);
    if output != "" && pcap != "" && SamePath(output, pcap) { return Some(OutputIsPcap); }
    if tmp != "" && pcap != "" && SamePath(tmp, pcap) { return Some(TmpIsPcap); }
    if output != "" && pcap != "" && PathContains(pcap, output) { return Some(OutputUnderPcap); }
    if tmp != "" && pcap != "" && PathContains(pcap, tmp) { return Some(TmpUnderPcap); }
    if root != "" {
      var slots := [pcap, output, tmp, keylog];
      failure := CheckUnderRoot(root, slots);
      assert failure.None? <==> StrictlyUnder(root, slots[0]) && StrictlyUnder(root, slots[1]) &&
                                StrictlyUnder(root, slots[2])
                                && StrictlyUnder(root, slots[3]);
      return;
    }
    return None;
  }

  /** Every slot that is set must lie strictly under the root. */
  method CheckUnderRoot(root: string, slots: seq<string>) returns (failure: Option<Failure>)
    requires IsCleanAbs(root) && forall i | 0 <= i < |slots| :: UnsetOrClean(slots[i])
    ensures failure.None? <==> forall i | 0 <= i < |slots| :: StrictlyUnder(root, slots[i])
  {
    for i := 0 to |slots|
      invariant forall j | 0 <= j < i :: StrictlyUnder(root, slots[j])
    {
      SameOrUnder(root, slots[i]);
      if slots[i] == "" { continue; }
      if SamePath(slots[i], root) { return Some(EqualsRoot); }
      if !PathContains(root, slots[i]) { return Some(OutsideRoot); }
    }
    return None;
  }

  lemma SameOrUnder(outer: string, inner: string)
    requires UnsetOrClean(outer) && UnsetOrClean(inner)
    ensures outer != "" && inner != "" ==>
              (SamePath(inner, outer) <==> Components(outer) == Components(inner)) &&
              (PathContains(outer, inner) <==> Components(outer) < Components(inner))
  {
    if outer != "" && inner != "" {
      ContainmentAgrees(outer, inner);
      CleanAbsComponents(outer);
      CleanAbsComponents(inner);
    }
  }

  // ---------- the allowlist ----------

  datatype Allowlist = Allowed(dirs: seq<string>) | NothingConfigured | EmptyEntry | UnresolvedEntry

  /** The allowlist of a normalized configuration: every configured directory in resolved form and the pcap
      directory, if set, each once; or the first thing that is wrong. */
  method NormalizeDirs(dirs: seq<string>, pcapDir: string, resolve: string -> Option<string>) returns (r: Allowlist)
    ensures r.Allowed? <==> (dirs != [] || pcapDir != "") && forall d | d in dirs :: d != "" && resolve(d).Some?
    ensures r.Allowed? ==>
              && (forall i, j | 0 <= i < j < |r.dirs| :: r.dirs[i] != r.dirs[j])
              && (forall x :: x in r.dirs <==>
                   (x == pcapDir && pcapDir != "") || exists d :: d in dirs && resolve(d) == Some(x))
  {
    if |dirs| == 0 && pcapDir == "" { return NothingConfigured; }
    var out: seq<string> := [];
    var seen: set<string> := {};
    for i := 0 to |dirs|
      invariant forall x :: x in seen <==> x in out
      invariant forall k, j | 0 <= k < j < |out| :: out[k] != out[j]
      invariant forall j | 0 <= j < i :: dirs[j] != "" && resolve(dirs[j]).Some?
      invariant forall x :: x in out <==> exists j :: 0 <= j < i && resolve(dirs[j]) == Some(x)
    {
      assert dirs[i] in dirs;
      if dirs[i] == "" { return EmptyEntry; }
      var abs := resolve(dirs[i]);
      if abs.None? { return UnresolvedEntry; }
      if abs.value in seen { continue; }
      seen := seen + {abs.value};
      out := out + [abs.value];
    }
    if pcapDir != "" && pcapDir !in seen { out := out + [pcapDir]; }
    r := Allowed(out);
  }
}
