/** Go strings as byte strings: every `char` stands for one byte, and strings are
    compared byte by byte, as Go's `<` does. */
module ByteStrings {

  datatype Option<+T> = None | Some(value: T)

  /** Go's `a < b`. */
  predicate StrLess(a: string, b: string) {
    b != [] && (a == [] || a[0] < b[0] || (a[0] == b[0] && StrLess(a[1..], b[1..])))
  }

  /** Neither string is a prefix of the other. */
  predicate Diverge(a: string, b: string) {
    !(a <= b) && !(b <= a)
  }

  lemma {:induction false} StrLessIrreflexive(a: string)
    ensures !StrLess(a, a)
  {
    if a != [] { StrLessIrreflexive(a[1..]); }
  }

  lemma {:induction false} StrLessTransitive(a: string, b: string, c: string)
    requires StrLess(a, b) && StrLess(b, c)
    ensures StrLess(a, c)
  {
    if a != [] && a[0] == b[0] == c[0] { StrLessTransitive(a[1..], b[1..], c[1..]); }
  }

  lemma {:induction false} StrLessTotal(a: string, b: string)
    ensures StrLess(a, b) || a == b || StrLess(b, a)
  {
    if a != [] && b != [] && a[0] == b[0] {
      StrLessTotal(a[1..], b[1..]);
      assert a == [a[0]] + a[1..] && b == [b[0]] + b[1..];
    }
  }

  lemma StrLessAsymmetric(a: string, b: string)
    requires StrLess(a, b)
    ensures !StrLess(b, a) && a != b
  {
    if StrLess(b, a) { StrLessTransitive(a, b, a); }
    StrLessIrreflexive(a);
  }

  /** A common prefix does not take part in the comparison. */
  lemma {:induction false} StrLessCommonPrefix(p: string, x: string, y: string)
    ensures StrLess(p + x, p + y) == StrLess(x, y)
  {
    if p == [] {
      assert p + x == x && p + y == y;
    } else {
      assert (p + x)[1..] == p[1..] + x && (p + y)[1..] == p[1..] + y;
      StrLessCommonPrefix(p[1..], x, y);
    }
  }

  /** Strings that diverge compare the same whatever follows them. */
  lemma {:induction false} StrLessDiverging(a: string, b: string, x: string, y: string)
    requires Diverge(a, b)
    ensures StrLess(a + x, b + y) == StrLess(a, b)
  {
    assert a != [] && b != [];
    assert (a + x)[0] == a[0] && (b + y)[0] == b[0];
    if a[0] == b[0] {
      assert (a + x)[1..] == a[1..] + x && (b + y)[1..] == b[1..] + y;
      assert a == [a[0]] + a[1..] && b == [b[0]] + b[1..];
      StrLessDiverging(a[1..], b[1..], x, y);
    }
  }

  /** A proper prefix is smaller. */
  lemma StrLessPrefix(a: string, b: string)
    requires a < b
    ensures StrLess(a, b)
  {
    StrLessCommonPrefix(a, [], b[|a|..]);
    assert a + [] == a && a + b[|a|..] == b;
  }

  /** If `a < b` and `b` is at most a string that starts with `a`, then `b` starts with `a` too. */
  lemma {:induction false} BetweenPrefixed(a: string, b: string, c: string)
    requires StrLess(a, b) && (b == c || StrLess(b, c)) && a <= c
    ensures a <= b
  {
    if a != [] {
      assert a[0] == c[0];
      if b[0] == a[0] {
        if b != c { assert StrLess(b[1..], c[1..]); }
        BetweenPrefixed(a[1..], b[1..], c[1..]);
        assert a == [a[0]] + a[1..] && b == [b[0]] + b[1..];
      }
    }
  }
}
