/** Allowlist-relative paths, both as component lists and as the slash-joined strings that the
    inventory cursor stores, and the three orders on them that the paged walk mixes. */
module RelPaths {
  import opened ByteStrings

  type Path = seq<string>

  /** A name the file system can hold: not empty and without a slash. */
  predicate ValidName(n: string) {
    n != "" && '/' !in n
  }

  predicate ValidPath(p: Path) {
    forall n | n in p :: ValidName(n)
  }

  /** The slash-joined form of a path. */
  function Join(p: Path): string {
    if p == [] then "" else if |p| == 1 then p[0] else p[0] + "/" + Join(p[1..])
  }

  /** Walk order: the pre-order of a walk that visits each directory's names in byte order. */
  predicate WalkLess(c: Path, p: Path) {
    p != [] && (c == [] || StrLess(c[0], p[0]) || (c[0] == p[0] && WalkLess(c[1..], p[1..])))
  }

  /** `n` is `m` followed by a byte that sorts below the separator. */
  predicate DotExtends(m: string, n: string) {
    m < n && n[|m|] < '/'
  }

  /** `c` lies strictly inside a directory whose name is dot-extended by the sibling that `p` is or lies in. */
  predicate Shadows(c: Path, p: Path) {
    c != [] && p != [] &&
    if c[0] == p[0] then Shadows(c[1..], p[1..]) else |c| > 1 && DotExtends(c[0], p[0])
  }

  /** What the paged walk counts after cursor `c`. */
  predicate Later(c: Path, p: Path) {
    WalkLess(c, p) && !Shadows(c, p)
  }

  // ---------- walk order is a strict total order ----------

  lemma {:induction false} WalkLessTransitive(a: Path, b: Path, c: Path)
    requires WalkLess(a, b) && WalkLess(b, c)
    ensures WalkLess(a, c)
  {
    if a != [] {
      StrLessIrreflexive(a[0]);
      if a[0] == b[0] == c[0] {
        WalkLessTransitive(a[1..], b[1..], c[1..]);
      } else if a[0] != b[0] && b[0] != c[0] {
        StrLessTransitive(a[0], b[0], c[0]);
      }
    }
  }

  lemma {:induction false} WalkLessIrreflexive(a: Path)
    ensures !WalkLess(a, a)
  {
    if a != [] {
      StrLessIrreflexive(a[0]);
      WalkLessIrreflexive(a[1..]);
    }
  }

  lemma {:induction false} WalkLessTotal(a: Path, b: Path)
    ensures WalkLess(a, b) || a == b || WalkLess(b, a)
  {
    if a != [] && b != [] {
      StrLessTotal(a[0], b[0]);
      if a[0] == b[0] {
        WalkLessTotal(a[1..], b[1..]);
        assert a == [a[0]] + a[1..] && b == [b[0]] + b[1..];
      }
    }
  }

  // ---------- a common prefix does not matter ----------

  lemma {:induction false} CommonPrefix(q: Path, x: Path, y: Path)
    ensures WalkLess(q + x, q + y) == WalkLess(x, y)
    ensures Shadows(q + x, q + y) == Shadows(x, y)
  {
    if q == [] {
      assert q + x == x && q + y == y;
    } else {
      StrLessIrreflexive(q[0]);
      assert (q + x)[1..] == q[1..] + x && (q + y)[1..] == q[1..] + y;
      CommonPrefix(q[1..], x, y);
    }
  }

  /** Everything below a later path is later. */
  lemma {:induction false} LaterExtends(c: Path, p: Path, x: Path)
    requires Later(c, p)
    ensures Later(c, p + x)
  {
    if c != [] && c[0] == p[0] {
      StrLessIrreflexive(c[0]);
      assert (p + x)[1..] == p[1..] + x;
      if c[1..] != [] { LaterExtends(c[1..], p[1..], x); }
    }
  }

  /** Nothing below a path that diverges from the cursor and is not later is later. */
  lemma {:induction false} NotLaterExtends(c: Path, p: Path, x: Path)
    requires !(p <= c) && !Later(c, p)
    ensures !Later(c, p + x)
  {
    if p != [] && c != [] && c[0] == p[0] {
      StrLessIrreflexive(c[0]);
      assert (p + x)[1..] == p[1..] + x;
      assert p == [p[0]] + p[1..] && c == [c[0]] + c[1..];
      NotLaterExtends(c[1..], p[1..], x);
    }
  }

  /** Between a name and one of its dot extensions there are only dot extensions. */
  lemma ShadowLevel(m: string, b: string, n: string)
    requires StrLess(m, b) && StrLess(b, n) && DotExtends(m, n)
    ensures DotExtends(m, b)
  {
    BetweenPrefixed(m, b, n);
    StrLessIrreflexive(m);
    assert m + b[|m|..] == b && m + n[|m|..] == n;
    StrLessCommonPrefix(m, b[|m|..], n[|m|..]);
    assert b != m;
  }

  // ---------- byte order of joined paths ----------

  /** Byte order of two joined paths, told by components. */
  predicate PathLess(p: Path, c: Path)
    requires p != [] && c != []
  {
    var n, m := p[0], c[0];
    if n == m then |c| > 1 && (|p| == 1 || PathLess(p[1..], c[1..]))
    else if n <= m then |p| == 1 || '/' < m[|n|]
    else if m <= n then |c| > 1 && n[|m|] < '/'
    else StrLess(n, m)
  }

  /** What follows the first component in a joined path. */
  function Tail(p: Path): string
    requires p != []
  {
    if |p| == 1 then "" else "/" + Join(p[1..])
  }

  /** A name followed by nothing or by a slash, against that name followed by another byte. */
  lemma TailAgainst(n: string, m: string, p: Path, c: Path)
    requires p != [] && c != [] && n < m && m[|n|] != '/'
    ensures StrLess(n + Tail(p), m + Tail(c)) == (|p| == 1 || '/' < m[|n|])
    ensures StrLess(m + Tail(c), n + Tail(p)) == (|p| > 1 && m[|n|] < '/')
  {
    var rest := m[|n|..] + Tail(c);
    assert m + Tail(c) == n + rest && rest[0] == m[|n|];
    StrLessCommonPrefix(n, Tail(p), rest);
    StrLessCommonPrefix(n, rest, Tail(p));
  }

  lemma {:induction false} JoinLess(p: Path, c: Path)
    requires p != [] && c != [] && ValidPath(p) && ValidPath(c)
    ensures StrLess(Join(p), Join(c)) == PathLess(p, c)
  {
    var n, m := p[0], c[0];
    assert ValidName(n) && ValidName(m) by { assert n in p && m in c; }
    assert Join(p) == n + Tail(p) && Join(c) == m + Tail(c);
    if n == m {
      StrLessCommonPrefix(n, Tail(p), Tail(c));
      if |p| > 1 && |c| > 1 {
        JoinLess(p[1..], c[1..]);
        StrLessCommonPrefix("/", Join(p[1..]), Join(c[1..]));
      }
    } else if n <= m {
      assert m[|n|] in m;
      TailAgainst(n, m, p, c);
    } else if m <= n {
      assert n[|m|] in n;
      TailAgainst(m, n, c, p);
    } else {
      StrLessDiverging(n, m, Tail(p), Tail(c));
    }
  }

  lemma {:induction false} PathLessTotal(p: Path, c: Path)
    requires p != [] && c != [] && p != c && ValidPath(p) && ValidPath(c)
    ensures PathLess(p, c) || PathLess(c, p)
  {
    StrLessTotal(p[0], c[0]);
    assert p[0] in p && c[0] in c;
    assert p == [p[0]] + p[1..] && c == [c[0]] + c[1..];
    if p[0] == c[0] {
      if |p| > 1 && |c| > 1 { PathLessTotal(p[1..], c[1..]); }
    } else if p[0] <= c[0] {
      assert c[0][|p[0]|] in c[0];
    } else if c[0] <= p[0] {
      assert p[0][|c[0]|] in p[0];
    }
  }

  /** Different paths have different joined forms. */
  lemma JoinInjective(p: Path, c: Path)
    requires p != [] && c != [] && ValidPath(p) && ValidPath(c) && Join(p) == Join(c)
    ensures p == c
  {
    if p != c {
      PathLessTotal(p, c);
      JoinLess(p, c);
      JoinLess(c, p);
      StrLessIrreflexive(Join(p));
    }
  }

  /** A name ends at the first slash. */
  lemma FirstSlash(n: string, m: string, x: string, y: string)
    requires '/' !in n && '/' !in m && "/" <= x && (y == "" || "/" <= y)
    ensures n + x <= m + y <==> n == m && x <= y
  {
    var s, t := n + x, m + y;
    if s <= t {
      assert forall i | 0 <= i < |m| :: t[i] == m[i] && m[i] in m;
      assert forall i | 0 <= i < |n| :: s[i] == n[i] && n[i] in n;
      assert s[|n|] == '/' == t[|n|];
      assert |t| > |m| ==> t[|m|] == '/';
      assert |n| == |m|;
      assert n == s[..|n|] && m == t[..|m|];
      assert x == s[|n|..] && y == t[|m|..];
    }
  }

  lemma SlashPrefix(u: string, w: string)
    ensures "/" + u <= "/" + w <==> u <= w
  {
    assert ("/" + u)[1..] == u && ("/" + w)[1..] == w;
  }

  lemma HeadTailPrefix(p: Path, c: Path)
    requires p != [] && c != [] && ValidPath(p) && ValidPath(c)
    ensures Join(p) + "/" <= Join(c) <==> p[0] == c[0] && Tail(p) + "/" <= Tail(c)
  {
    var n, m := p[0], c[0];
    assert ValidName(n) && ValidName(m) by { assert n in p && m in c; }
    assert Join(p) + "/" == n + (Tail(p) + "/") && Join(c) == m + Tail(c);
    FirstSlash(n, m, Tail(p) + "/", Tail(c));
  }

  /** The string test for "is a proper ancestor of" is the component one. */
  lemma {:induction false} JoinPrefix(p: Path, c: Path)
    requires p != [] && c != [] && ValidPath(p) && ValidPath(c)
    ensures (Join(p) + "/" <= Join(c)) == (p < c)
  {
    HeadTailPrefix(p, c);
    assert p == [p[0]] + p[1..] && c == [c[0]] + c[1..];
    if |p| > 1 && |c| > 1 {
      SlashPrefix(Join(p[1..]) + "/", Join(c[1..]));
      assert Tail(p) + "/" == "/" + (Join(p[1..]) + "/");
      JoinPrefix(p[1..], c[1..]);
      assert p < c <==> p[0] == c[0] && p[1..] < c[1..];
    }
  }
}
