/** Three separately written tests for "lies under this directory", all of them on the text of a relative path. */
module Containment {
  import opened ByteStrings
  import opened RelPaths
  import opened GoPaths

  function CommonLength(b: Path, t: Path): (n: nat)
    ensures n <= |b| && n <= |t| && b[..n] == t[..n]
    ensures n < |b| && n < |t| ==> b[n] != t[n]
  {
    if b == [] || t == [] || b[0] != t[0] then 0
    else
      var n := 1 + CommonLength(b[1..], t[1..]);
      assert b[..n] == [b[0]] + b[1..][..n - 1] && t[..n] == [t[0]] + t[1..][..n - 1];
      n
  }

  function Ups(n: nat): Path {
    if n == 0 then [] else [".."] + Ups(n - 1)
  }

  /** Go's `filepath.Rel`: the steps from the one path to the other, if there are any. */
  function Rel(base: string, targ: string): Option<string> {
    var b, t := Components(base), Components(targ);
    if Clean(base) == Clean(targ) then Some(".")
    else if IsAbs(base) != IsAbs(targ) then None
    else
      var n := CommonLength(b, t);
      if n < |b| && b[n] == ".." then None else Some(Join(Ups(|b| - n) + t[n..]))
  }

  /** The test of the configuration. */
  predicate PathContains(outer: string, inner: string) {
    match Rel(outer, inner)
    case None => false
    case Some(rel) => !(IsAbs(rel) || rel == "" || rel == "." || rel == "..") && !("../" <= rel)
  }

  /** The test for key logs. */
  predicate SharedKeylogPath(inner: string, keylogDir: string) {
    match Rel(keylogDir, inner)
    case None => false
    case Some(rel) => if IsAbs(rel) || rel == "" || rel == "." || rel == ".." then false else !("../" <= rel)
  }

  /** One step of the allowlist test. */
  predicate UnderDir(path: string, dir: string) {
    match Rel(dir, path)
    case None => false
    case Some(rel) => rel != "." && !("../" <= rel) && rel != ".."
  }

  /** The allowlist test. */
  method UnderAny(path: string, dirs: seq<string>) returns (r: bool)
    requires IsCleanAbs(path) && forall d | d in dirs :: IsCleanAbs(d)
    ensures r <==> exists d :: d in dirs && Components(d) < Components(path)
  {
    for i := 0 to |dirs|
      invariant forall j | 0 <= j < i :: !(Components(dirs[j]) < Components(path))
    {
      ContainmentAgrees(dirs[i], path);
      if UnderDir(path, dirs[i]) { return true; }
    }
    return false;
  }

  lemma UpsFirst(n: nat, rest: Path)
    requires n > 0
    ensures Ups(n) + rest == [".."] + (Ups(n - 1) + rest)
  {
  }

  /** What `Rel` gives for clean absolute paths: the rest of the components below a directory, and a first step
      upward or "." otherwise. */
  lemma RelOfAbs(p: Path, q: Path)
    requires PlainPath(p) && PlainPath(q)
    ensures p < q ==> Rel(AbsPath(p), AbsPath(q)) == Some(Join(q[|p|..]))
    ensures p == q ==> Rel(AbsPath(p), AbsPath(q)) == Some(".")
    ensures !(p <= q) ==> Rel(AbsPath(p), AbsPath(q)).Some?
                          && (Rel(AbsPath(p), AbsPath(q)).value == ".." || "../" <= Rel(AbsPath(p), AbsPath(q)).value)
  {
    AbsPathClean(p);
    AbsPathClean(q);
    var n := CommonLength(p, q);
    assert AbsPath(p) == AbsPath(q) ==> p == q;
    assert forall i | 0 <= i < |p| :: p[i] in p;
    if p <= q {
      assert forall i | 0 <= i < |p| :: p[i] == q[i];
      assert n == |p|;
      assert Ups(0) + q[|p|..] == q[|p|..];
    } else {
      assert n < |p|;
      UpsFirst(|p| - n, q[n..]);
      StartsUp(Ups(|p| - n - 1) + q[n..]);
    }
  }

  lemma StartsUp(rest: Path)
    ensures Join([".."] + rest) == ".." || "../" <= Join([".."] + rest)
  {
    assert rest != [] ==> ([".."] + rest)[1..] == rest && Join([".."] + rest) == "../" + Join(rest);
  }

  /** A joined plain path is none of the texts that the tests refuse. */
  lemma PlainRelative(x: Path)
    requires x != [] && PlainPath(x)
    ensures var rel := Join(x); !IsAbs(rel) && rel != "" && rel != "." && rel != ".." && !("../" <= rel)
  {
    CleanPlain(x);
    assert PlainName(x[0]) by { assert x[0] in x; }
    assert Join(x) == x[0] + Tail(x);
    FirstSlash("..", x[0], "/", Tail(x));
    assert ".." + "/" == "../";
    assert |x| > 1 ==> Join(x)[|x[0]|] == '/';
  }

  /** On clean absolute paths all three tests say the same: the components of the directory are a proper prefix
      of the components of the path. */
  lemma ContainmentAgrees(outer: string, inner: string)
    requires IsCleanAbs(outer) && IsCleanAbs(inner)
    ensures PathContains(outer, inner) <==> Components(outer) < Components(inner)
    ensures SharedKeylogPath(inner, outer) <==> Components(outer) < Components(inner)
    ensures UnderDir(inner, outer) <==> Components(outer) < Components(inner)
  {
    var p, q := Components(outer), Components(inner);
    CleanAbsComponents(outer);
    CleanAbsComponents(inner);
    RelOfAbs(p, q);
    if p < q {
      assert forall n | n in q[|p|..] :: n in q;
      PlainRelative(q[|p|..]);
    }
  }

  /** The tests order directories strictly: never a path under itself, and under is transitive. */
  lemma ContainmentIsStrictOrder(a: string, b: string, c: string)
    requires IsCleanAbs(a) && IsCleanAbs(b) && IsCleanAbs(c)
    ensures !PathContains(a, a)
    ensures PathContains(a, b) ==> !PathContains(b, a)
    ensures PathContains(a, b) && PathContains(b, c) ==> PathContains(a, c)
  {
    ContainmentAgrees(a, a);
    ContainmentAgrees(a, b);
    ContainmentAgrees(b, a);
    ContainmentAgrees(b, c);
    ContainmentAgrees(a, c);
  }

  /** A name that merely starts with two dots is inside. */
  lemma DottedNameIsInside(n: string)
    requires PlainName(".." + n)
    ensures PathContains("/d", "/d/.." + n)
  {
    var p, q := ["d"], ["d", ".." + n];
    AbsPathClean(p);
    AbsPathClean(q);
    assert q[1..] == [".." + n];
    assert Join(q) == "d" + "/" + (".." + n);
    assert AbsPath(q) == "/d/.." + n;
    ContainmentAgrees("/d", "/d/.." + n);
  }
}
