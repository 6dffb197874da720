/** What JSON makes of a Go string: every byte that is not part of valid UTF-8 becomes the replacement character
    (section 8.1 of RFC 8259 asks for UTF-8, and Go's encoder rewrites what is not). */
module JsonText {
  import opened RelPaths

  const REPLACEMENT := "\U{EF}\U{BF}\U{BD}"

  predicate IsContinuation(c: char) {
    0x80 <= c as int <= 0xBF
  }

  /** The second bytes that a first byte of a longer sequence admits. */
  predicate IsSecond(first: char, c: char) {
    match first as int
    case 0xE0 => 0xA0 <= c as int <= 0xBF
    case 0xED => 0x80 <= c as int <= 0x9F
    case 0xF0 => 0x90 <= c as int <= 0xBF
    case 0xF4 => 0x80 <= c as int <= 0x8F
    case _ => IsContinuation(c)
  }

  /** The length of the character at the front, or 0 if there is no valid one. */
  function RuneSize(s: string): (n: nat)
    requires s != ""
    ensures n <= |s|
  {
    var a := s[0] as int;
    if a < 0x80 then 1
    else if 0xC2 <= a <= 0xDF then
      if |s| >= 2 && IsContinuation(s[1]) then 2 else 0
    else if 0xE0 <= a <= 0xEF then
      if |s| >= 3 && IsSecond(s[0], s[1]) && IsContinuation(s[2]) then 3 else 0
    else if 0xF0 <= a <= 0xF4 then
      if |s| >= 4 && IsSecond(s[0], s[1]) && IsContinuation(s[2]) && IsContinuation(s[3]) then 4 else 0
    else 0
  }

  predicate ValidUTF8(s: string) {
    s == "" || (RuneSize(s) > 0 && ValidUTF8(s[RuneSize(s)..]))
  }

  /** The text after encoding and decoding. */
  function Coerce(s: string): string {
    if s == "" then ""
    else if RuneSize(s) == 0 then REPLACEMENT + Coerce(s[1..])
    else s[..RuneSize(s)] + Coerce(s[RuneSize(s)..])
  }

  function CoercePath(p: Path): Path {
    if p == [] then [] else [Coerce(p[0])] + CoercePath(p[1..])
  }

  lemma {:induction false} CoerceValid(s: string)
    requires ValidUTF8(s)
    ensures Coerce(s) == s
  {
    if s != "" { CoerceValid(s[RuneSize(s)..]); }
  }

  lemma {:induction false} CoerceGrows(s: string)
    ensures |Coerce(s)| >= |s|
    ensures |Coerce(s)| == |s| ==> ValidUTF8(s)
    ensures s != "" ==> Coerce(s) != ""
  {
    if s != "" {
      if RuneSize(s) == 0 { CoerceGrows(s[1..]); } else { CoerceGrows(s[RuneSize(s)..]); }
    }
  }

  /** Exactly the valid texts come back as they are. */
  lemma CoerceFixed(s: string)
    ensures Coerce(s) == s <==> ValidUTF8(s)
  {
    CoerceGrows(s);
    if ValidUTF8(s) { CoerceValid(s); }
  }

  /** A valid character at the front is read whatever follows it. */
  lemma RuneFront(r: string, t: string)
    requires r != "" && RuneSize(r) == |r|
    ensures RuneSize(r + t) == |r| && (r + t)[..|r|] == r && (r + t)[|r|..] == t
  {
  }

  lemma ReplacementRune()
    ensures RuneSize(REPLACEMENT) == 3 == |REPLACEMENT|
  {
  }

  lemma FirstRune(s: string)
    requires s != "" && RuneSize(s) > 0
    ensures RuneSize(s[..RuneSize(s)]) == RuneSize(s)
  {
  }

  lemma {:induction false} CoercedIsValid(s: string)
    ensures ValidUTF8(Coerce(s))
  {
    if s != "" {
      if RuneSize(s) == 0 {
        CoercedIsValid(s[1..]);
        ReplacementRune();
        RuneFront(REPLACEMENT, Coerce(s[1..]));
      } else {
        var n := RuneSize(s);
        CoercedIsValid(s[n..]);
        FirstRune(s);
        RuneFront(s[..n], Coerce(s[n..]));
      }
    }
  }

  lemma CoerceTwice(s: string)
    ensures Coerce(Coerce(s)) == Coerce(s)
  {
    CoercedIsValid(s);
    CoerceValid(Coerce(s));
  }

  // ---------- a slash splits a text for the encoder too ----------

  lemma RuneBeforeSlash(s: string, t: string)
    requires s != ""
    ensures RuneSize(s + "/" + t) == RuneSize(s)
  {
    var u := s + "/" + t;
    assert u[|s|] == '/' && !IsContinuation('/');
    assert forall c :: !IsSecond(c, '/');
    assert forall i | 0 <= i < |s| :: u[i] == s[i];
  }

  lemma {:induction false} CoerceAtSlash(s: string, t: string)
    ensures Coerce(s + "/" + t) == Coerce(s) + "/" + Coerce(t)
    decreases |s|
  {
    var u := s + "/" + t;
    if s == "" {
      assert u == "/" + t && u[..1] == "/" && u[1..] == t;
    } else {
      RuneBeforeSlash(s, t);
      var n := if RuneSize(s) == 0 then 1 else RuneSize(s);
      assert u[n..] == s[n..] + "/" + t && u[..n] == s[..n];
      CoerceAtSlash(s[n..], t);
    }
  }

  lemma {:induction false} CoerceJoin(p: Path)
    ensures Coerce(Join(p)) == Join(CoercePath(p))
  {
    if |p| > 1 {
      CoerceJoin(p[1..]);
      CoerceAtSlash(p[0], Join(p[1..]));
      assert CoercePath(p)[1..] == CoercePath(p[1..]);
    } else if |p| == 1 {
      assert CoercePath(p[1..]) == [];
    }
  }

  // ---------- ASCII is not touched ----------

  lemma RuneAscii(s: string, c: char)
    requires s != "" && c as int < 0x80
    ensures RuneSize(s) == 0 ==> s[0] != c
    ensures RuneSize(s) > 1 ==> c !in s[..RuneSize(s)]
    ensures c !in REPLACEMENT
  {
  }

  lemma {:induction false} CoerceAscii(s: string, c: char)
    requires c as int < 0x80
    ensures c in Coerce(s) <==> c in s
  {
    if s != "" {
      RuneAscii(s, c);
      var n := if RuneSize(s) == 0 then 1 else RuneSize(s);
      CoerceAscii(s[n..], c);
      assert s == s[..n] + s[n..];
      assert forall x :: x in s <==> x in s[..n] || x in s[n..];
    }
  }

  lemma {:induction false} CoercedShows(s: string)
    ensures ValidUTF8(s) || REPLACEMENT[0] in Coerce(s)
  {
    if s != "" {
      if RuneSize(s) == 0 {
        assert Coerce(s)[0] == REPLACEMENT[0];
      } else {
        CoercedShows(s[RuneSize(s)..]);
      }
    }
  }

  lemma CoerceDots(s: string)
    ensures Coerce(s) == "." <==> s == "."
    ensures Coerce(s) == ".." <==> s == ".."
  {
    CoercedShows(s);
    assert ValidUTF8(".") by { assert "."[1..] == ""; }
    assert ValidUTF8("..") by { assert ".."[1..] == "."; }
    if ValidUTF8(s) { CoerceValid(s); }
  }

  lemma {:induction false} AsciiValid(s: string)
    requires forall c | c in s :: c as int < 0x80
    ensures ValidUTF8(s)
  {
    if s != "" {
      assert s[0] in s && forall c | c in s[1..] :: c in s;
      AsciiValid(s[1..]);
    }
  }

  lemma {:induction false} CoercePathAt(p: Path)
    ensures |CoercePath(p)| == |p|
    ensures forall i | 0 <= i < |p| :: CoercePath(p)[i] == Coerce(p[i])
  {
    if p != [] { CoercePathAt(p[1..]); }
  }
}
