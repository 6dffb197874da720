/** The path functions of Go's `filepath` package that the containment tests and the cursor check use,
    by their documented effect on slash-separated pieces. */
module GoPaths {
  import opened RelPaths

  /** The pieces between slashes; they may be empty. */
  function Split(s: string): (r: seq<string>)
    ensures r != []
    ensures forall n | n in r :: '/' !in n
  {
    if s == "" then [""]
    else
      var rest := Split(s[1..]);
      if s[0] == '/' then [""] + rest else [[s[0]] + rest[0]] + rest[1..]
  }

  /** Drop empty and "." pieces, and let ".." undo the piece before it. A rooted path cannot go above its root. */
  function Reduce(pieces: seq<string>, done: Path, rooted: bool): Path {
    if pieces == [] then done
    else if pieces[0] == "" || pieces[0] == "." then Reduce(pieces[1..], done, rooted)
    else if pieces[0] == ".." then
      if done != [] && done[|done| - 1] != ".." then Reduce(pieces[1..], done[..|done| - 1], rooted)
      else Reduce(pieces[1..], if rooted then done else done + [".."], rooted)
    else Reduce(pieces[1..], done + [pieces[0]], rooted)
  }

  predicate IsAbs(s: string) {
    "/" <= s
  }

  /** The components that are left of a path once it is cleaned. */
  function Components(s: string): Path {
    Reduce(Split(s), [], IsAbs(s))
  }

  function Clean(s: string): string {
    var p := Components(s);
    if IsAbs(s) then "/" + Join(p) else if p == [] then "." else Join(p)
  }

  /** A component of a clean path that does not lead upward. */
  predicate PlainName(n: string) {
    ValidName(n) && n != "." && n != ".."
  }

  predicate PlainPath(p: Path) {
    forall n | n in p :: PlainName(n)
  }

  /** The clean absolute path with these components. */
  function AbsPath(p: Path): string {
    "/" + Join(p)
  }

  predicate IsCleanAbs(s: string) {
    IsAbs(s) && Clean(s) == s
  }

  // ---------- joining and splitting ----------

  lemma {:induction false} SplitName(n: string, rest: string)
    requires '/' !in n && (rest == "" || "/" <= rest)
    ensures Split(n + rest) == if rest == "" then [n] else [n] + Split(rest[1..])
  {
    if n == "" {
      assert n + rest == rest;
    } else {
      assert (n + rest)[1..] == n[1..] + rest && n[0] in n;
      SplitName(n[1..], rest);
      assert [n[0]] + n[1..] == n;
    }
  }

  lemma {:induction false} SplitJoin(p: Path)
    requires p != [] && ValidPath(p)
    ensures Split(Join(p)) == p
  {
    assert ValidName(p[0]) by { assert p[0] in p; }
    assert Join(p) == p[0] + Tail(p);
    SplitName(p[0], Tail(p));
    if |p| > 1 {
      SplitJoin(p[1..]);
      assert Tail(p)[1..] == Join(p[1..]);
    }
  }

  lemma {:induction false} ReducePlain(p: Path, done: Path, rooted: bool)
    requires PlainPath(p)
    ensures Reduce(p, done, rooted) == done + p
  {
    if p != [] {
      assert PlainName(p[0]) by { assert p[0] in p; }
      ReducePlain(p[1..], done + [p[0]], rooted);
    }
  }

  /** What is left after cleaning a rooted path are plain names. */
  lemma {:induction false} ReduceRooted(pieces: seq<string>, done: Path)
    requires PlainPath(done) && forall n | n in pieces :: '/' !in n
    ensures PlainPath(Reduce(pieces, done, true))
  {
    if pieces != [] {
      assert pieces[0] in pieces;
      if pieces[0] == "" || pieces[0] == "." {
        ReduceRooted(pieces[1..], done);
      } else if pieces[0] == ".." {
        assert done != [] ==> done[|done| - 1] in done;
        ReduceRooted(pieces[1..], if done != [] then done[..|done| - 1] else done);
      } else {
        ReduceRooted(pieces[1..], done + [pieces[0]]);
      }
    }
  }

  /** Cleaning leaves a joined plain path alone. */
  lemma CleanPlain(p: Path)
    requires p != [] && PlainPath(p)
    ensures Components(Join(p)) == p && Clean(Join(p)) == Join(p) && !IsAbs(Join(p))
  {
    SplitJoin(p);
    ReducePlain(p, [], false);
    assert PlainName(p[0]) by { assert p[0] in p; }
    assert Join(p)[0] == p[0][0] && p[0][0] in p[0];
  }

  /** The clean absolute paths are exactly the slash followed by joined plain names. */
  lemma AbsPathClean(p: Path)
    requires PlainPath(p)
    ensures IsCleanAbs(AbsPath(p)) && Components(AbsPath(p)) == p
  {
    var s := AbsPath(p);
    assert s[1..] == Join(p);
    if p == [] {
      assert Split(s[1..]) == [""];
      assert Split(s) == ["", ""];
      assert Reduce(["", ""], [], true) == Reduce([""], [], true) by { assert ["", ""][1..] == [""]; }
    } else {
      SplitJoin(p);
      assert Split(s) == [""] + p;
      assert ([""] + p)[1..] == p;
      ReducePlain(p, [], true);
      assert Components(s) == p;
    }
  }

  lemma CleanAbsComponents(s: string)
    requires IsCleanAbs(s)
    ensures PlainPath(Components(s)) && s == AbsPath(Components(s))
  {
    ReduceRooted(Split(s), []);
  }
}
