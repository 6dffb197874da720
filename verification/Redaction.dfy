/** Replacing the values of credential headers and assignments, as three ordered patterns do it on ASCII text. */
module Redaction {
  import opened ByteStrings

  const MARK := "[REDACTED]"

  /** `Header`: a name, optional white space, a colon, optional white space, and the rest of the line.
      `Assignment`: a name, an equals sign, and what follows up to an ampersand, a semicolon or white space. */
  datatype Pattern = Header(names: seq<string>) | Assignment(names: seq<string>)

  const AUTHORIZATION := Header(["proxy-authorization", "authorization"])
  const COOKIE := Header(["set-cookie", "cookie"])
  const SECRET := Assignment(
    ["password", "passwd", "token", "api_key", "api-key", "apikey", "secret", "session_id", "session-id", "sessionid"])

  // ---------- characters ----------

  predicate IsSpace(c: char) {
    c == ' ' || c == '\t' || c == '\n' || c == 12 as char || c == '\r'
  }

  predicate IsLineEnd(c: char) {
    c == '\r' || c == '\n'
  }

  predicate IsWord(c: char) {
    'a' <= c <= 'z' || 'A' <= c <= 'Z' || '0' <= c <= '9' || c == '_'
  }

  function Lower(c: char): char {
    if 'A' <= c <= 'Z' then c + 32 as char else c
  }

  /** Characters that end a value. */
  predicate Stops(p: Pattern, c: char) {
    match p
    case Header(_) => IsLineEnd(c)
    case Assignment(_) => c == '&' || c == ';' || IsSpace(c)
  }

  // ---------- one match at the front of a text ----------

  predicate StartsWith(s: string, name: string) {
    |name| <= |s| && forall i | 0 <= i < |name| :: Lower(s[i]) == name[i]
  }

  /** The length of the name at the front, or 0. */
  function NameLength(names: seq<string>, s: string): nat {
    if names == [] then 0 else if StartsWith(s, names[0]) then |names[0]| else NameLength(names[1..], s)
  }

  /** The number of white-space characters from `i` on. */
  function Spaces(s: string, i: nat): (n: nat)
    requires i <= |s|
    ensures i + n <= |s|
    ensures forall j | i <= j < i + n :: IsSpace(s[j])
    ensures i + n < |s| ==> !IsSpace(s[i + n])
    decreases |s| - i
  {
    if i == |s| || !IsSpace(s[i]) then 0 else 1 + Spaces(s, i + 1)
  }

  /** White space up to the end of the text must give its last character that does not end the line to the value. */
  function BackOff(s: string, from: nat, i: nat): (r: Option<nat>)
    requires from <= i <= |s|
    ensures r.Some? ==> from <= r.value < i && !IsLineEnd(s[r.value])
  {
    if i == from then None else if !IsLineEnd(s[i - 1]) then Some(i - 1) else BackOff(s, from, i - 1)
  }

  /** The end of the kept part of a header whose colon is at `colon`. */
  function AfterColon(s: string, colon: nat): (r: Option<nat>)
    requires colon < |s|
    ensures r.Some? ==> colon < r.value < |s| && !IsLineEnd(s[r.value])
  {
    var after := colon + 1 + Spaces(s, colon + 1);
    if after < |s| then Some(after) else BackOff(s, colon + 1, |s|)
  }

  function KeptHeader(names: seq<string>, s: string): (r: Option<nat>)
    ensures r.Some? ==> 0 < r.value < |s| && !IsLineEnd(s[r.value])
  {
    var n := NameLength(names, s);
    if n == 0 || n >= |s| then None
    else
      var colon := n + Spaces(s, n);
      if colon == |s| || s[colon] != ':' then None else AfterColon(s, colon)
  }

  function KeptAssignment(names: seq<string>, s: string): (r: Option<nat>)
    ensures r.Some? ==> 0 < r.value < |s| && !Stops(Assignment(names), s[r.value])
  {
    var n := NameLength(names, s);
    if 0 < n && n + 1 < |s| && s[n] == '=' && !Stops(Assignment(names), s[n + 1]) then Some(n + 1) else None
  }

  /** The length of the part that is kept, when the pattern matches at the front of `s` after the character `prev`. */
  function Kept(p: Pattern, prev: char, s: string): (r: Option<nat>)
    ensures r.Some? ==> 0 < r.value < |s| && !Stops(p, s[r.value])
  {
    if IsWord(prev) then None
    else
      match p
      case Header(names) => KeptHeader(names, s)
      case Assignment(names) => KeptAssignment(names, s)
  }

  function ValueEnd(p: Pattern, s: string, i: nat): (e: nat)
    requires i <= |s|
    ensures i <= e <= |s|
    ensures forall j | i <= j < e :: !Stops(p, s[j])
    ensures e < |s| ==> Stops(p, s[e])
    decreases |s| - i
  {
    if i == |s| || Stops(p, s[i]) then i else ValueEnd(p, s, i + 1)
  }

  function Prev(prev: char, s: string, i: nat): char
    requires i <= |s|
  {
    if i == 0 then prev else s[i - 1]
  }

  predicate MatchAt(p: Pattern, prev: char, s: string, i: nat)
    requires i < |s|
  {
    Kept(p, Prev(prev, s, i), s[i..]).Some?
  }

  /** Where the leftmost match from `i` on starts. */
  function FirstMatch(p: Pattern, prev: char, s: string, i: nat): (r: Option<nat>)
    requires i <= |s|
    ensures r.Some? ==> i <= r.value < |s| && MatchAt(p, prev, s, r.value)
    decreases |s| - i
  {
    if i == |s| then None
    else if MatchAt(p, prev, s, i) then Some(i)
    else FirstMatch(p, prev, s, i + 1)
  }

  lemma {:induction false} FirstMatchLeftmost(p: Pattern, prev: char, s: string, i: nat)
    requires i <= |s|
    ensures var r := FirstMatch(p, prev, s, i);
            forall j {:trigger MatchAt(p, prev, s, j)} | i <= j < (if r.Some? then r.value else |s|) ::
              !MatchAt(p, prev, s, j)
    decreases |s| - i
  {
    if i < |s| && !MatchAt(p, prev, s, i) { FirstMatchLeftmost(p, prev, s, i + 1); }
  }

  /** The bounds of the value of the leftmost match. */
  function FirstValue(p: Pattern, prev: char, s: string): (r: Option<(nat, nat)>)
    ensures r.Some? ==> 0 < r.value.0 < r.value.1 <= |s|
    ensures r.Some? ==> r.value.1 < |s| ==> Stops(p, s[r.value.1])
  {
    var at := FirstMatch(p, prev, s, 0);
    if at.None? then None
    else
      var start := at.value + Kept(p, Prev(prev, s, at.value), s[at.value..]).value;
      Some((start, ValueEnd(p, s, start)))
  }

  /** All matches from left to right, each value replaced by the mark. */
  function Replace(p: Pattern, prev: char, s: string): string
    decreases |s|
  {
    var v := FirstValue(p, prev, s);
    if v.None? then s
    else s[..v.value.0] + MARK + Replace(p, s[v.value.1 - 1], s[v.value.1..])
  }

  /** The three patterns in order, and whether any of them changed the text. */
  function Redact(text: string): (r: (string, bool))
  {
    var a := Replace(AUTHORIZATION, ' ', text);
    var b := Replace(COOKIE, ' ', a);
    var c := Replace(SECRET, ' ', b);
    (c, a != text || b != a || c != b)
  }

  // ---------- clean texts ----------

  /** If the pattern matches here, its value is the mark already. */
  ghost predicate CleanHere(p: Pattern, prev: char, s: string) {
    Kept(p, prev, s).Some? ==>
      var h := Kept(p, prev, s).value;
      s[h..ValueEnd(p, s, h)] == MARK
  }

  /** Wherever the pattern matches, also inside another match, the value is the mark: no value is left to see. */
  ghost predicate Clean(p: Pattern, prev: char, s: string) {
    forall i {:trigger CleanAt(p, prev, s, i)} | 0 <= i < |s| :: CleanAt(p, prev, s, i)
  }

  ghost predicate CleanAt(p: Pattern, prev: char, s: string, i: nat)
    requires i < |s|
  {
    CleanHere(p, Prev(prev, s, i), s[i..])
  }

  lemma ValueEndShift(p: Pattern, s: string, k: nat, i: nat)
    requires k + i <= |s|
    ensures ValueEnd(p, s, k + i) == k + ValueEnd(p, s[k..], i)
  {
    var e := k + ValueEnd(p, s[k..], i);
    ValueEndUnique(p, s, k + i, e);
  }

  lemma {:induction false} ValueEndUnique(p: Pattern, s: string, i: nat, e: nat)
    requires i <= e <= |s| && (forall j | i <= j < e :: !Stops(p, s[j])) && (e < |s| ==> Stops(p, s[e]))
    ensures ValueEnd(p, s, i) == e
    decreases e - i
  {
    if i < e { ValueEndUnique(p, s, i + 1, e); }
  }

  lemma CleanDrop(p: Pattern, prev: char, s: string, k: nat)
    requires Clean(p, prev, s) && 0 < k <= |s|
    ensures Clean(p, s[k - 1], s[k..])
  {
    var c, t := s[k - 1], s[k..];
    forall i | 0 <= i < |t|
      ensures CleanAt(p, c, t, i)
    {
      assert CleanAt(p, prev, s, k + i);
      assert t[i..] == s[k + i..];
      assert Prev(c, t, i) == Prev(prev, s, k + i);
    }
  }

  lemma MarkAt(p: Pattern, c: char, s: string, at: nat, h: nat)
    requires at < |s| && Kept(p, c, s[at..]) == Some(h) && CleanHere(p, c, s[at..])
    ensures s[at + h..ValueEnd(p, s, at + h)] == MARK
  {
    ValueEndShift(p, s, at, h);
    assert s[at..][h..ValueEnd(p, s[at..], h)] == s[at + h..ValueEnd(p, s, at + h)];
  }

  lemma FirstIsMark(p: Pattern, prev: char, s: string)
    requires Clean(p, prev, s) && FirstValue(p, prev, s).Some?
    ensures var (start, end) := FirstValue(p, prev, s).value; s[start..end] == MARK
  {
    var at := FirstMatch(p, prev, s, 0).value;
    var h := Kept(p, Prev(prev, s, at), s[at..]).value;
    assert FirstValue(p, prev, s).value == (at + h, ValueEnd(p, s, at + h));
    assert CleanAt(p, prev, s, at);
    MarkAt(p, Prev(prev, s, at), s, at, h);
  }

  /** A clean text is left as it is. */
  lemma {:induction false} CleanUnchanged(p: Pattern, prev: char, s: string)
    requires Clean(p, prev, s)
    ensures Replace(p, prev, s) == s
    decreases |s|
  {
    var v := FirstValue(p, prev, s);
    if v.Some? {
      var (start, end) := v.value;
      FirstIsMark(p, prev, s);
      CleanDrop(p, prev, s, end);
      CleanUnchanged(p, s[end - 1], s[end..]);
      ReplaceHead(p, prev, s, start, end);
      ThreeParts(s, start, end);
    }
  }

  lemma ThreeParts(s: string, start: nat, end: nat)
    requires start <= end <= |s|
    ensures s[..start] + s[start..end] + s[end..] == s
  {
  }

  // ---------- what is replaced ----------

  /** A match in a text: where it starts, where its value starts, and where its value ends. */
  datatype Span = Span(from: nat, start: nat, end: nat)

  ghost predicate IsSpan(p: Pattern, s: string, m: Span) {
    && m.from < m.start < m.end <= |s|
    && Kept(p, Prev(' ', s, m.from), s[m.from..]) == Some(m.start - m.from)
    && m.end == ValueEnd(p, s, m.start)
  }

  /** The text from `at` on with every value replaced by the mark. */
  function Splice(s: string, at: nat, spans: seq<Span>): string
    requires at <= |s| && Follow(s, at, spans)
    decreases |spans|
  {
    if spans == [] then s[at..] else s[at..spans[0].start] + MARK + Splice(s, spans[0].end, spans[1..])
  }

  /** One after the other, from `at` on. */
  predicate Follow(s: string, at: nat, spans: seq<Span>)
    decreases |spans|
  {
    spans == [] ||
    (at <= spans[0].from < spans[0].start < spans[0].end <= |s| && Follow(s, spans[0].end, spans[1..]))
  }

  ghost predicate Inside(spans: seq<Span>, i: nat) {
    exists m :: m in spans && m.from <= i < m.end
  }

  /** `t` is the text from `at` on, and `c` the character before it. */
  ghost predicate Rest(s: string, at: nat, c: char, t: string) {
    at <= |s| && t == s[at..] && c == Prev(' ', s, at)
  }

  lemma RestOfRest(s: string, at: nat, c: char, t: string, i: nat)
    requires Rest(s, at, c, t) && i <= |t|
    ensures t[i..] == s[at + i..] && t[..i] == s[at..at + i] && Prev(c, t, i) == Prev(' ', s, at + i)
    ensures i > 0 ==> Rest(s, at + i, t[i - 1], t[i..])
  {
  }

  lemma SpanAt(p: Pattern, s: string, from: nat, h: nat) returns (m: Span)
    requires from < |s| && Kept(p, Prev(' ', s, from), s[from..]) == Some(h)
    ensures IsSpan(p, s, m) && m.from == from && m.start == from + h && m.end == ValueEnd(p, s, from + h)
  {
    m := Span(from, from + h, ValueEnd(p, s, from + h));
  }

  lemma KeptShift(p: Pattern, s: string, at: nat, c: char, t: string, i: nat, h: nat)
    requires Rest(s, at, c, t) && i < |t| && Kept(p, Prev(c, t, i), t[i..]) == Some(h)
    ensures Kept(p, Prev(' ', s, at + i), s[at + i..]) == Some(h)
  {
    RestOfRest(s, at, c, t, i);
  }

  lemma SpanShift(p: Pattern, s: string, at: nat, c: char, t: string, i: nat, h: nat) returns (m: Span)
    requires Rest(s, at, c, t) && i < |t| && Kept(p, Prev(c, t, i), t[i..]) == Some(h)
    ensures IsSpan(p, s, m) && m.from == at + i && m.start == at + i + h
  {
    KeptShift(p, s, at, c, t, i, h);
    m := SpanAt(p, s, at + i, h);
  }

  lemma EndShift(p: Pattern, s: string, at: nat, c: char, t: string, k: nat)
    requires Rest(s, at, c, t) && k <= |t|
    ensures ValueEnd(p, s, at + k) == at + ValueEnd(p, t, k)
  {
    ValueEndShift(p, s, at, k);
  }

  lemma FirstValueEnd(p: Pattern, c: char, t: string)
    requires FirstValue(p, c, t).Some?
    ensures FirstValue(p, c, t).value.1 == ValueEnd(p, t, FirstValue(p, c, t).value.0)
  {
  }

  lemma SpanEnd(p: Pattern, s: string, at: nat, c: char, t: string, start: nat, end: nat)
    requires Rest(s, at, c, t) && FirstValue(p, c, t).Some? && at <= start <= |s|
             && start - at == FirstValue(p, c, t).value.0
    requires end == ValueEnd(p, s, start)
    ensures FirstValue(p, c, t).value.1 == end - at
  {
    FirstValueEnd(p, c, t);
    EndShift(p, s, at, c, t, start - at);
  }

  lemma LeftmostSpan(p: Pattern, s: string, at: nat, c: char, t: string) returns (m: Span)
    requires Rest(s, at, c, t) && FirstValue(p, c, t).Some?
    ensures IsSpan(p, s, m) && at <= m.from && FirstValue(p, c, t).value.0 == m.start - at
    ensures FirstMatch(p, c, t, 0) == Some(m.from - at)
  {
    var i, h := FirstParts(p, c, t);
    m := SpanShift(p, s, at, c, t, i, h);
  }

  /** The leftmost match from `at` on, in terms of the whole text. */
  lemma FirstSpan(p: Pattern, s: string, at: nat, c: char, t: string) returns (m: Span)
    requires Rest(s, at, c, t) && FirstValue(p, c, t).Some?
    ensures IsSpan(p, s, m) && at <= m.from
    ensures FirstMatch(p, c, t, 0) == Some(m.from - at)
    ensures FirstValue(p, c, t).value.0 == m.start - at && FirstValue(p, c, t).value.1 == m.end - at
  {
    m := LeftmostSpan(p, s, at, c, t);
    SpanEnd(p, s, at, c, t, m.start, m.end);
  }

  /** No match starts between `at` and `to`. */
  ghost predicate NoneStarts(p: Pattern, s: string, at: nat, to: nat)
    requires to <= |s|
  {
    forall i {:trigger MatchAt(p, ' ', s, i)} | at <= i < to :: !MatchAt(p, ' ', s, i)
  }

  lemma MatchShift(p: Pattern, s: string, at: nat, c: char, t: string, i: nat)
    requires Rest(s, at, c, t) && i < |t|
    ensures MatchAt(p, c, t, i) == MatchAt(p, ' ', s, at + i)
  {
    RestOfRest(s, at, c, t, i);
  }

  /** Before the leftmost match, or in all of the text when there is none, no match starts. */
  lemma NoneBefore(p: Pattern, s: string, at: nat, c: char, t: string, k: nat)
    requires Rest(s, at, c, t) && FirstMatch(p, c, t, 0) == (if k == |t| then None else Some(k)) && k <= |t|
    ensures NoneStarts(p, s, at, at + k)
  {
    FirstMatchLeftmost(p, c, t, 0);
    forall i | at <= i < at + k
      ensures !MatchAt(p, ' ', s, i)
    {
      MatchShift(p, s, at, c, t, i - at);
    }
  }

  /** Every place from `at` on where the pattern matches lies inside a span. */
  ghost predicate Covered(p: Pattern, s: string, at: nat, spans: seq<Span>) {
    forall i {:trigger MatchAt(p, ' ', s, i)} | at <= i < |s| && MatchAt(p, ' ', s, i) :: Inside(spans, i)
  }

  lemma CoveredCons(p: Pattern, s: string, at: nat, m: Span, rest: seq<Span>)
    requires at <= m.from < m.end <= |s| && NoneStarts(p, s, at, m.from) && Covered(p, s, m.end, rest)
    ensures Covered(p, s, at, [m] + rest)
  {
    forall i | at <= i < |s| && MatchAt(p, ' ', s, i)
      ensures Inside([m] + rest, i)
    {
      if i < m.end {
        assert m in [m] + rest;
      } else {
        var k :| k in rest && k.from <= i < k.end;
        assert k in [m] + rest;
      }
    }
  }

  lemma SpliceCons(s: string, at: nat, m: Span, rest: seq<Span>)
    requires at <= m.from < m.start < m.end <= |s| && Follow(s, m.end, rest)
    ensures Follow(s, at, [m] + rest)
    ensures Splice(s, at, [m] + rest) == s[at..m.start] + MARK + Splice(s, m.end, rest)
  {
    assert ([m] + rest)[1..] == rest;
  }

  /** The replacement of a text from its leftmost match on. */
  lemma ReplaceHead(p: Pattern, c: char, t: string, start: nat, end: nat)
    requires FirstValue(p, c, t) == Some((start, end))
    ensures Replace(p, c, t) == t[..start] + MARK + Replace(p, t[end - 1], t[end..])
  {
  }

  /** The spans from `at` on: what they are, and that replacing is splicing. */
  ghost predicate Replaced(p: Pattern, s: string, at: nat, spans: seq<Span>, result: string) {
    && at <= |s| && Follow(s, at, spans) && Covered(p, s, at, spans) && (forall m | m in spans :: IsSpan(p, s, m))
    && result == Splice(s, at, spans)
  }

  lemma SpliceStep(s: string, at: nat, t: string, m: Span, rest: seq<Span>, tail: string)
    requires at <= m.from < m.start < m.end <= |s| && t == s[at..]
    requires Follow(s, m.end, rest) && Splice(s, m.end, rest) == tail
    ensures Follow(s, at, [m] + rest) && Splice(s, at, [m] + rest) == t[..m.start - at] + MARK + tail
  {
    SpliceCons(s, at, m, rest);
    assert t[..m.start - at] == s[at..m.start];
  }

  lemma ReplacedStep(p: Pattern, s: string, at: nat, t: string, m: Span, rest: seq<Span>, tail: string)
    requires IsSpan(p, s, m) && at <= m.from && t == s[at..] && NoneStarts(p, s, at, m.from)
    requires Replaced(p, s, m.end, rest, tail)
    ensures Replaced(p, s, at, [m] + rest, t[..m.start - at] + MARK + tail)
  {
    SpliceStep(s, at, t, m, rest, tail);
    CoveredCons(p, s, at, m, rest);
  }

  lemma NothingReplaced(p: Pattern, s: string, at: nat, c: char, t: string)
    requires Rest(s, at, c, t) && FirstValue(p, c, t).None?
    ensures Replaced(p, s, at, [], Replace(p, c, t))
  {
    NoneBefore(p, s, at, c, t, |t|);
  }

  lemma AddSpan(p: Pattern, s: string, at: nat, c: char, t: string, m: Span, end: nat,
                rest: seq<Span>)
    returns (spans: seq<Span>)
    requires Rest(s, at, c, t) && IsSpan(p, s, m) && at <= m.from && NoneStarts(p, s, at, m.from) && end == m.end - at
    requires FirstValue(p, c, t).Some? && FirstValue(p, c, t).value.0 == m.start - at
             && FirstValue(p, c, t).value.1 == end
    requires Replaced(p, s, m.end, rest, Replace(p, t[end - 1], t[end..]))
    ensures Replaced(p, s, at, spans, Replace(p, c, t))
  {
    ReplaceHead(p, c, t, m.start - at, end);
    ReplacedStep(p, s, at, t, m, rest, Replace(p, t[end - 1], t[end..]));
    spans := [m] + rest;
  }

  lemma NextSpan(p: Pattern, s: string, at: nat, c: char, t: string) returns (m: Span)
    requires Rest(s, at, c, t) && FirstValue(p, c, t).Some?
    ensures IsSpan(p, s, m) && at <= m.from && NoneStarts(p, s, at, m.from)
    ensures FirstValue(p, c, t).value.0 == m.start - at && FirstValue(p, c, t).value.1 == m.end - at
  {
    m := FirstSpan(p, s, at, c, t);
    NoneBefore(p, s, at, c, t, m.from - at);
  }

  lemma {:induction false} ReplaceFrom(p: Pattern, s: string, at: nat, c: char, t: string) returns (spans: seq<Span>)
    requires Rest(s, at, c, t)
    ensures Replaced(p, s, at, spans, Replace(p, c, t))
    decreases |t|
  {
    if FirstValue(p, c, t).None? {
      NothingReplaced(p, s, at, c, t);
      spans := [];
    } else {
      var m := NextSpan(p, s, at, c, t);
      var end := m.end - at;
      RestOfRest(s, at, c, t, end);
      var rest := ReplaceFrom(p, s, m.end, t[end - 1], t[end..]);
      spans := AddSpan(p, s, at, c, t, m, end, rest);
    }
  }

  /** Exactly the values of the leftmost, non-overlapping matches are replaced: the spans follow one another, each
      is a match with its whole value, every place where the pattern matches lies inside one of them, and all
      text outside the values is kept. */
  lemma ReplaceExact(p: Pattern, s: string) returns (spans: seq<Span>)
    ensures Follow(s, 0, spans) && forall m | m in spans :: IsSpan(p, s, m)
    ensures forall i | 0 <= i < |s| && MatchAt(p, ' ', s, i) :: Inside(spans, i)
    ensures Replace(p, ' ', s) == Splice(s, 0, spans)
  {
    assert s[0..] == s;
    spans := ReplaceFrom(p, s, 0, ' ', s);
  }

  // ---------- what the kept part of a match looks like ----------

  predicate IsLetter(c: char) {
    'a' <= c <= 'z' || 'A' <= c <= 'Z'
  }

  predicate IsNameChar(c: char) {
    IsLetter(c) || c == '-' || c == '_'
  }

  /** Names start with a letter and hold only letters, dashes and underscores, in lower case. */
  predicate PlainName(n: string) {
    n != "" && 'a' <= n[0] <= 'z' && forall c | c in n :: 'a' <= c <= 'z' || c == '-' || c == '_'
  }

  predicate PlainNames(names: seq<string>) {
    forall n | n in names :: PlainName(n)
  }

  lemma {:induction false} NameLengthExact(names: seq<string>, s: string)
    requires PlainNames(names) && NameLength(names, s) > 0
    ensures NameLength(names, s) <= |s| && IsLetter(s[0])
    ensures forall i | 0 <= i < NameLength(names, s) :: IsNameChar(s[i])
    ensures exists n :: n in names && |n| == NameLength(names, s) && StartsWith(s, n)
  {
    if StartsWith(s, names[0]) {
      var n := names[0];
      assert n in names;
      forall i | 0 <= i < |n|
        ensures IsNameChar(s[i])
      {
        assert n[i] in n && Lower(s[i]) == n[i];
      }
    } else {
      NameLengthExact(names[1..], s);
    }
  }

  function Separator(p: Pattern): char {
    if p.Header? then ':' else '='
  }

  /** The first occurrence of `c`, or the length. */
  function IndexOf(s: string, c: char): (i: nat)
    ensures i <= |s| && (i < |s| ==> s[i] == c) && forall j | 0 <= j < i :: s[j] != c
  {
    if s == "" || s[0] == c then 0 else 1 + IndexOf(s[1..], c)
  }

  ghost predicate Shape(p: Pattern, s: string, h: nat) {
    var sep := IndexOf(s, Separator(p));
    && 0 < sep < h < |s| && IsLetter(s[0])
    && (forall i | 0 <= i < sep :: IsNameChar(s[i]) || IsSpace(s[i]))
    && (forall i | sep < i < h :: IsSpace(s[i]))
    && (if p.Header? then AfterColon(s, sep) == Some(h) else h == sep + 1)
  }

  lemma HeaderShape(names: seq<string>, s: string)
    requires PlainNames(names) && KeptHeader(names, s).Some?
    ensures Shape(Header(names), s, KeptHeader(names, s).value)
    ensures NameLength(names, s) + Spaces(s, NameLength(names, s)) == IndexOf(s, ':')
  {
    NameLengthExact(names, s);
    var n := NameLength(names, s);
    IndexUnique(s, ':', n + Spaces(s, n));
  }

  lemma AssignmentShape(names: seq<string>, s: string)
    requires PlainNames(names) && KeptAssignment(names, s).Some?
    ensures Shape(Assignment(names), s, KeptAssignment(names, s).value)
    ensures NameLength(names, s) == IndexOf(s, '=')
  {
    NameLengthExact(names, s);
    IndexUnique(s, '=', NameLength(names, s));
  }

  /** The kept part: a name, white space before a colon only, the first separator of the text, white space after a
      colon only. */
  lemma KeptShape(p: Pattern, prev: char, s: string)
    requires PlainNames(p.names) && Kept(p, prev, s).Some?
    ensures Shape(p, s, Kept(p, prev, s).value)
  {
    match p
    case Header(names) => HeaderShape(names, s);
    case Assignment(names) => AssignmentShape(names, s);
  }

  lemma {:induction false} IndexUnique(s: string, c: char, i: nat)
    requires i < |s| && s[i] == c && forall j | 0 <= j < i :: s[j] != c
    ensures IndexOf(s, c) == i
  {
    if i > 0 { IndexUnique(s[1..], c, i - 1); }
  }

  lemma {:induction false} SpacesUnique(s: string, i: nat, n: nat)
    requires i + n <= |s| && (forall j | i <= j < i + n :: IsSpace(s[j])) && (i + n < |s| ==> !IsSpace(s[i + n]))
    ensures Spaces(s, i) == n
    decreases n
  {
    if n > 0 { SpacesUnique(s, i + 1, n - 1); }
  }

  lemma {:induction false} BackOffShift(s: string, k: nat, from: nat, i: nat)
    requires k + from <= k + i <= |s|
    ensures BackOff(s, k + from, k + i) == match BackOff(s[k..], from, i) case None => None case Some(r) => Some(k + r)
    decreases i
  {
    if i != from { BackOffShift(s, k, from, i - 1); }
  }

  lemma AfterColonShift(s: string, k: nat, colon: nat)
    requires k + colon < |s|
    ensures AfterColon(s, k + colon) == match AfterColon(s[k..], colon) case None => None case Some(r) => Some(k + r)
  {
    SpacesUnique(s, k + colon + 1, Spaces(s[k..], colon + 1));
    BackOffShift(s, k, colon + 1, |s| - k);
  }

  lemma SeparatorShift(s: string, c: char, d: nat)
    requires d <= IndexOf(s, c) < |s|
    ensures IndexOf(s[d..], c) == IndexOf(s, c) - d
  {
    IndexUnique(s[d..], c, IndexOf(s, c) - d);
  }

  /** Two kept parts of one pattern, the second starting inside the first, end at the same place. */
  lemma NestedShape(p: Pattern, s: string, h: nat, d: nat, g: nat)
    requires Shape(p, s, h) && 0 < d < h && Shape(p, s[d..], g)
    ensures g + d == h
  {
    var sep := IndexOf(s, Separator(p));
    assert s[d..][0] == s[d];
    assert d < sep;
    SeparatorShift(s, Separator(p), d);
    AfterColonShift(s, d, sep - d);
  }

  lemma NestedMatch(p: Pattern, prev: char, c: char, s: string, d: nat)
    requires PlainNames(p.names) && Kept(p, prev, s).Some? && 0 < d < Kept(p, prev, s).value
    requires Kept(p, c, s[d..]).Some?
    ensures Kept(p, c, s[d..]).value + d == Kept(p, prev, s).value
  {
    KeptShape(p, prev, s);
    KeptShape(p, c, s[d..]);
    NestedShape(p, s, Kept(p, prev, s).value, d, Kept(p, c, s[d..]).value);
  }

  /** Two texts agree up to and including index `m`. */
  predicate Agree(x: string, y: string, m: nat) {
    m < |x| && m < |y| && forall i | 0 <= i <= m :: x[i] == y[i]
  }

  lemma AfterColonLocal(x: string, y: string, colon: nat, h: nat)
    requires colon < |x| && AfterColon(x, colon) == Some(h) && Agree(x, y, h) && !IsSpace(x[h])
    ensures AfterColon(y, colon) == Some(h)
  {
    SpacesUnique(x, colon + 1, h - colon - 1);
    SpacesUnique(y, colon + 1, h - colon - 1);
  }

  lemma HeaderLocal(names: seq<string>, x: string, y: string)
    requires PlainNames(names) && KeptHeader(names, x).Some?
    requires Agree(x, y, KeptHeader(names, x).value) && !IsSpace(x[KeptHeader(names, x).value])
    ensures KeptHeader(names, y) == KeptHeader(names, x)
  {
    HeaderShape(names, x);
    var h, sep, n := KeptHeader(names, x).value, IndexOf(x, ':'), NameLength(names, x);
    NameLengthLocal(names, x, y, sep);
    SpacesUnique(y, n, sep - n);
    AfterColonLocal(x, y, sep, h);
  }

  lemma AssignmentLocal(names: seq<string>, x: string, y: string)
    requires PlainNames(names) && KeptAssignment(names, x).Some? && Agree(x, y, KeptAssignment(names, x).value)
    ensures KeptAssignment(names, y) == KeptAssignment(names, x)
  {
    AssignmentShape(names, x);
    NameLengthLocal(names, x, y, IndexOf(x, '='));
  }

  /** A match is decided by the text up to the first character after its kept part, if that is no white space. */
  lemma MatchLocal(p: Pattern, prev: char, x: string, y: string)
    requires PlainNames(p.names) && Kept(p, prev, x).Some?
    requires Agree(x, y, Kept(p, prev, x).value) && !IsSpace(x[Kept(p, prev, x).value])
    ensures Kept(p, prev, y) == Kept(p, prev, x)
  {
    match p
    case Header(names) => HeaderLocal(names, x, y);
    case Assignment(names) => AssignmentLocal(names, x, y);
  }

  lemma {:induction false} NameLengthLocal(names: seq<string>, x: string, y: string, sep: nat)
    requires PlainNames(names) && sep < |x| && sep < |y| && !IsNameChar(x[sep])
    requires forall i | 0 <= i <= sep :: x[i] == y[i]
    ensures NameLength(names, x) == NameLength(names, y)
  {
    if names != [] {
      var n := names[0];
      assert n in names;
      if |n| > sep { assert n[sep] in n; }
      assert StartsWith(x, n) == StartsWith(y, n);
      NameLengthLocal(names[1..], x, y, sep);
    }
  }

  // ---------- telling the patterns apart by what ends before a value ----------

  /** Every name of a header ends in `tag`; an assignment ends in its equals sign. */
  predicate HasTag(p: Pattern, tag: char) {
    match p
    case Header(names) => forall n | n in names :: n != "" && n[|n| - 1] == tag
    case Assignment(_) => tag == '='
  }

  /** The end of the text before `e`, without trailing white space. */
  function Back(t: string, e: nat): (r: nat)
    requires e <= |t|
    ensures r <= e
  {
    if e == 0 || !IsSpace(t[e - 1]) then e else Back(t, e - 1)
  }

  lemma {:induction false} BackUnique(t: string, f: nat, e: nat)
    requires 0 < f <= e <= |t| && !IsSpace(t[f - 1]) && forall i | f <= i < e :: IsSpace(t[i])
    ensures Back(t, e) == f
    decreases e
  {
    if f < e { BackUnique(t, f, e - 1); }
  }

  /** The last character of the name that the text ends with, or the equals sign. */
  function TagOf(t: string): char {
    var e := Back(t, |t|);
    if e == 0 then ' '
    else if t[e - 1] != ':' then t[e - 1]
    else
      var f := Back(t, e - 1);
      if f == 0 then ' ' else Lower(t[f - 1])
  }

  /** `t` ends with the first `h` characters of `x`. */
  predicate EndsWith(t: string, x: string, h: nat) {
    h <= |x| && h <= |t| && forall i | 0 <= i < h :: t[|t| - h + i] == x[i]
  }

  lemma {:induction false} NameTag(names: seq<string>, x: string, tag: char)
    requires PlainNames(names) && HasTag(Header(names), tag) && NameLength(names, x) > 0
    ensures NameLength(names, x) <= |x| && Lower(x[NameLength(names, x) - 1]) == tag
  {
    if StartsWith(x, names[0]) {
      assert names[0] in names;
    } else {
      NameTag(names[1..], x, tag);
    }
  }

  /** A name of `n` characters, white space, a colon at `sep`, white space: the tag is the name's last character. */
  lemma TagBefore(t: string, a: nat, n: nat, sep: nat)
    requires 0 < n <= sep && a + sep < |t| && t[a + sep] == ':' && !IsSpace(t[a + n - 1])
    requires forall i | a + n <= i < a + sep :: IsSpace(t[i])
    requires forall i | a + sep < i < |t| :: IsSpace(t[i])
    ensures TagOf(t) == Lower(t[a + n - 1])
  {
    BackUnique(t, a + sep + 1, |t|);
    BackUnique(t, a + n, a + sep);
  }

  lemma NameCharNoSpace(c: char)
    requires IsNameChar(c)
    ensures !IsSpace(c)
  {
  }

  lemma HeaderEnd(names: seq<string>, x: string, tag: char)
    requires PlainNames(names) && HasTag(Header(names), tag) && NameLength(names, x) > 0
    ensures var n := NameLength(names, x); n <= |x| && Lower(x[n - 1]) == tag && !IsSpace(x[n - 1])
  {
    var n := NameLength(names, x);
    NameTag(names, x, tag);
    NameLengthExact(names, x);
    NameCharNoSpace(x[n - 1]);
  }

  lemma HeaderGaps(names: seq<string>, x: string)
    requires PlainNames(names) && KeptHeader(names, x).Some?
    ensures var n, sep, h := NameLength(names, x), IndexOf(x, ':'), KeptHeader(names, x).value;
            && 0 < n <= sep < h <= |x|
            && (forall i | n <= i < sep :: IsSpace(x[i])) && (forall i | sep < i < h :: IsSpace(x[i]))
  {
    HeaderShape(names, x);
  }

  lemma HeaderSpan(names: seq<string>, x: string, tag: char)
    requires PlainNames(names) && HasTag(Header(names), tag) && KeptHeader(names, x).Some?
    ensures var n, sep, h := NameLength(names, x), IndexOf(x, ':'), KeptHeader(names, x).value;
            && 0 < n <= sep < h <= |x| && Lower(x[n - 1]) == tag && !IsSpace(x[n - 1])
            && (forall i | n <= i < sep :: IsSpace(x[i])) && (forall i | sep < i < h :: IsSpace(x[i]))
  {
    HeaderGaps(names, x);
    HeaderEnd(names, x, tag);
  }

  lemma HeaderTag(names: seq<string>, x: string, t: string, tag: char)
    requires PlainNames(names) && HasTag(Header(names), tag) && KeptHeader(names, x).Some?
    requires EndsWith(t, x, KeptHeader(names, x).value)
    ensures TagOf(t) == tag
  {
    HeaderSpan(names, x, tag);
    TagFromSpan(x, t, KeptHeader(names, x).value, NameLength(names, x), IndexOf(x, ':'));
  }

  lemma TagFromSpan(x: string, t: string, h: nat, n: nat, sep: nat)
    requires 0 < n <= sep < h <= |x| && x[sep] == ':' && !IsSpace(x[n - 1]) && EndsWith(t, x, h)
    requires (forall i | n <= i < sep :: IsSpace(x[i])) && (forall i | sep < i < h :: IsSpace(x[i]))
    ensures TagOf(t) == Lower(x[n - 1])
  {
    var a := |t| - h;
    assert forall i | a <= i < |t| :: t[i] == x[i - a];
    TagBefore(t, a, n, sep);
  }

  lemma KeptTag(p: Pattern, prev: char, x: string, t: string, tag: char)
    requires PlainNames(p.names) && HasTag(p, tag) && Kept(p, prev, x).Some?
    requires EndsWith(t, x, Kept(p, prev, x).value)
    ensures TagOf(t) == tag
  {
    match p
    case Header(names) => HeaderTag(names, x, t, tag);
    case Assignment(names) =>
      AssignmentShape(names, x);
      assert t[|t| - 1] == x[Kept(p, prev, x).value - 1];
  }

  // ---------- replacing makes a text clean, and keeps it clean for another pattern ----------

  /** A closing bracket before any separator: no match. */
  lemma NoMatchBeforeBracket(r: Pattern, c: char, x: string, b: nat)
    requires PlainNames(r.names) && b < |x| && x[b] == ']' && forall i | 0 <= i < b :: x[i] != Separator(r)
    ensures Kept(r, c, x).None?
  {
    if Kept(r, c, x).Some? {
      KeptShape(r, c, x);
    }
  }

  /** No match starts inside the mark. */
  lemma NoMatchInMark(r: Pattern, c: char, rest: string, k: nat)
    requires PlainNames(r.names) && k < |MARK|
    ensures Kept(r, c, MARK[k..] + rest).None?
  {
    var x := MARK[k..] + rest;
    assert forall i | 0 <= i < |MARK| - k :: x[i] == MARK[k + i];
    NoMatchBeforeBracket(r, c, x, |MARK| - 1 - k);
  }

  /** A match before the mark keeps at most what is before the mark, and not up to trailing white space. */
  lemma KeptBeforeMark(r: Pattern, c: char, y: string, rest: string)
    requires PlainNames(r.names) && Kept(r, c, y + MARK + rest).Some?
    ensures var h := Kept(r, c, y + MARK + rest).value; h <= |y| && !IsSpace((y + MARK + rest)[h])
  {
    var x := y + MARK + rest;
    KeptShape(r, c, x);
    var h, sep := Kept(r, c, x).value, IndexOf(x, Separator(r));
    assert x[|y|] == '[';
    assert h <= |y|;
    if r.Header? {
      SpacesStop(x, sep + 1, |y|);
    }
  }

  lemma {:induction false} SpacesStop(s: string, i: nat, j: nat)
    requires i <= j < |s| && !IsSpace(s[j])
    ensures i + Spaces(s, i) <= j
    decreases j - i
  {
    if i < j && IsSpace(s[i]) { SpacesStop(s, i + 1, j); }
  }

  lemma MarkNeverStops(q: Pattern)
    ensures forall i | 0 <= i < |MARK| :: !Stops(q, MARK[i])
  {
  }

  lemma ValueEndAt(q: Pattern, x: string, i: nat, e: nat)
    requires i <= e <= |x| && x[i..e] == MARK && (e < |x| ==> Stops(q, x[e]))
    ensures x[i..ValueEnd(q, x, i)] == MARK
  {
    MarkNeverStops(q);
    assert forall j | i <= j < e :: x[j] == x[i..e][j - i];
    ValueEndUnique(q, x, i, e);
  }

  /** The value after the kept part `y` is exactly the mark. */
  lemma ValueIsMark(q: Pattern, y: string, rest: string)
    requires rest != "" ==> Stops(q, rest[0])
    ensures var x := y + MARK + rest; x[|y|..ValueEnd(q, x, |y|)] == MARK
  {
    var x, m := y + MARK + rest, MARK;
    assert x[|y|..|y| + |m|] == m;
    assert |x| > |y| + |m| ==> x[|y| + |m|] == rest[0];
    ValueEndAt(q, x, |y|, |y| + |m|);
  }

  /** The start and the kept length of the leftmost match. */
  lemma FirstParts(q: Pattern, prev: char, s: string) returns (at: nat, h: nat)
    requires FirstValue(q, prev, s).Some?
    ensures at + h < |s| && FirstValue(q, prev, s) == Some((at + h, ValueEnd(q, s, at + h)))
    ensures Kept(q, Prev(prev, s, at), s[at..]) == Some(h) && FirstMatch(q, prev, s, 0) == Some(at)
    ensures forall j {:trigger MatchAt(q, prev, s, j)} | 0 <= j < at :: !MatchAt(q, prev, s, j)
  {
    FirstMatchLeftmost(q, prev, s, 0);
    at := FirstMatch(q, prev, s, 0).value;
    h := Kept(q, Prev(prev, s, at), s[at..]).value;
  }

  lemma SameEndAt(q: Pattern, c: char, d: char, s: string, at: nat, h: nat, k: nat, g: nat)
    requires PlainNames(q.names) && at < k < at + h <= |s|
    requires Kept(q, c, s[at..]) == Some(h) && Kept(q, d, s[k..]) == Some(g)
    ensures k + g == at + h
  {
    assert s[at..][k - at..] == s[k..];
    NestedMatch(q, c, d, s[at..], k - at);
  }

  /** Where the kept part of the leftmost match ends, any match of the same pattern before it ends, too. */
  lemma SameEnd(q: Pattern, prev: char, s: string, k: nat)
    requires PlainNames(q.names) && FirstValue(q, prev, s).Some? && k < FirstValue(q, prev, s).value.0
    requires Kept(q, Prev(prev, s, k), s[k..]).Some?
    ensures k + Kept(q, Prev(prev, s, k), s[k..]).value == FirstValue(q, prev, s).value.0
  {
    var at, h := FirstParts(q, prev, s);
    assert MatchAt(q, prev, s, k);
    if at < k {
      SameEndAt(q, Prev(prev, s, at), Prev(prev, s, k), s, at, h, k, Kept(q, Prev(prev, s, k), s[k..]).value);
    }
  }

  /** The texts before and after the replacement agree up to the value. */
  lemma AgreeBefore(s: string, k: nat, start: nat, rest: string, h: nat)
    requires k + h < start <= |s|
    ensures Agree(s[k..start] + MARK + rest, s[k..], h)
  {
  }

  lemma BeforeMarkSame(q: Pattern, prev: char, s: string, k: nat, rest: string)
    requires PlainNames(q.names) && FirstValue(q, prev, s).Some? && k < FirstValue(q, prev, s).value.0
    requires rest != "" ==> Stops(q, rest[0])
    ensures CleanHere(q, Prev(prev, s, k), s[k..FirstValue(q, prev, s).value.0] + MARK + rest)
  {
    var start, c := FirstValue(q, prev, s).value.0, Prev(prev, s, k);
    var y := s[k..start];
    var x := y + MARK + rest;
    if Kept(q, c, x).Some? {
      KeptBeforeMark(q, c, y, rest);
      var h := Kept(q, c, x).value;
      if h < |y| {
        AgreeBefore(s, k, start, rest, h);
        MatchLocal(q, c, x, s[k..]);
        SameEnd(q, prev, s, k);
      }
      ValueIsMark(q, y, rest);
    }
  }

  /** The last kept character is a separator or white space, and the text up to it tells the pattern. */
  lemma KeptEnd(q: Pattern, c: char, x: string, t: string, tag: char)
    requires PlainNames(q.names) && HasTag(q, tag) && Kept(q, c, x).Some? && EndsWith(t, x, Kept(q, c, x).value)
    ensures t != "" && (t[|t| - 1] in {':', '='} || IsSpace(t[|t| - 1])) && TagOf(t) == tag
  {
    KeptShape(q, c, x);
    KeptTag(q, c, x, t, tag);
    assert t[|t| - 1] == x[Kept(q, c, x).value - 1];
  }

  lemma BeforeValue(q: Pattern, prev: char, s: string, tag: char)
    requires PlainNames(q.names) && HasTag(q, tag) && FirstValue(q, prev, s).Some?
    ensures var start := FirstValue(q, prev, s).value.0;
            (s[start - 1] in {':', '='} || IsSpace(s[start - 1])) && TagOf(s[..start]) == tag
  {
    var at, h := FirstParts(q, prev, s);
    KeptEnd(q, Prev(prev, s, at), s[at..], s[..at + h], tag);
  }

  lemma BeforeMarkOther(q: Pattern, r: Pattern, prev: char, s: string, k: nat, rest: string, a: char, b: char)
    requires PlainNames(q.names) && PlainNames(r.names) && HasTag(q, a) && HasTag(r, b) && a != b
    requires FirstValue(q, prev, s).Some? && k < FirstValue(q, prev, s).value.0
    requires CleanHere(r, Prev(prev, s, k), s[k..])
    ensures CleanHere(r, Prev(prev, s, k), s[k..FirstValue(q, prev, s).value.0] + MARK + rest)
  {
    var start, c := FirstValue(q, prev, s).value.0, Prev(prev, s, k);
    BeforeValue(q, prev, s, a);
    StillClean(r, c, s, k, start, rest, b);
  }

  /** A match before another pattern's value does not keep everything up to that value. */
  lemma KeptShort(r: Pattern, c: char, t: string, y: string, rest: string, b: char)
    requires PlainNames(r.names) && HasTag(r, b) && TagOf(t) != b && |y| <= |t| && y == t[|t| - |y|..]
    requires Kept(r, c, y + MARK + rest).Some?
    ensures var h := Kept(r, c, y + MARK + rest).value; h < |y| && !IsSpace((y + MARK + rest)[h])
  {
    var x := y + MARK + rest;
    KeptBeforeMark(r, c, y, rest);
    if Kept(r, c, x).value == |y| { KeptTag(r, c, x, t, b); }
  }

  lemma AgreeFront(y: string, u: string, w: string, m: nat)
    requires m < |y|
    ensures Agree(y + u, y + w, m)
  {
  }

  lemma AddedTail(y: string, rest: string)
    ensures y + (MARK + rest) == y + MARK + rest
  {
  }

  lemma CleanCopied(r: Pattern, c: char, y: string, tail: string, rest: string, h: nat)
    requires PlainNames(r.names) && h < |y| && (y[|y| - 1] in {':', '='} || IsSpace(y[|y| - 1]))
    requires Kept(r, c, y + MARK + rest) == Some(h) && !IsSpace((y + MARK + rest)[h])
    requires CleanHere(r, c, y + tail) && tail != ""
    ensures CleanHere(r, c, y + MARK + rest)
  {
    var x, z := y + MARK + rest, y + tail;
    AgreeFront(y, MARK + rest, tail, h);
    AddedTail(y, rest);
    MatchLocal(r, c, x, z);
    MarkBeforeSeparator(r, z, h, |y|);
    AgreeFront(y, MARK + rest, tail, h + |MARK|);
    MarkTransfers(r, z, x, h);
  }

  lemma SplitAt(s: string, k: nat, start: nat)
    requires k <= start <= |s|
    ensures s[k..] == s[k..start] + s[start..]
    ensures s[..start][k..] == s[k..start]
  {
  }

  /** A clean match before another pattern's value stays clean when that value is replaced. */
  lemma StillClean(r: Pattern, c: char, s: string, k: nat, start: nat, rest: string, b: char)
    requires PlainNames(r.names) && HasTag(r, b) && k < start < |s|
    requires (s[start - 1] in {':', '='} || IsSpace(s[start - 1])) && TagOf(s[..start]) != b
    requires CleanHere(r, c, s[k..])
    ensures CleanHere(r, c, s[k..start] + MARK + rest)
  {
    var y := s[k..start];
    if Kept(r, c, y + MARK + rest).Some? {
      assert y == s[..start][start - |y|..];
      KeptShort(r, c, s[..start], y, rest, b);
      SplitAt(s, k, start);
      CleanCopied(r, c, y, s[start..], rest, Kept(r, c, y + MARK + rest).value);
    }
  }

  /** The mark after `h` in `y` is over before a separator or white space at `n - 1`. */
  lemma MarkBeforeSeparator(r: Pattern, y: string, h: nat, n: nat)
    requires h < n <= |y| && y[h..ValueEnd(r, y, h)] == MARK
    requires y[n - 1] in {':', '='} || IsSpace(y[n - 1])
    ensures ValueEnd(r, y, h) == h + |MARK| < n
  {
    var e := ValueEnd(r, y, h);
    assert |y[h..e]| == e - h;
    assert forall i | h <= i < e :: y[i] == MARK[i - h];
  }

  lemma MarkTransfers(r: Pattern, y: string, x: string, h: nat)
    requires h + |MARK| < |y| && ValueEnd(r, y, h) == h + |MARK| && y[h..h + |MARK|] == MARK
    requires Agree(x, y, h + |MARK|)
    ensures x[h..ValueEnd(r, x, h)] == MARK
  {
    ValueEndUnique(r, x, h, h + |MARK|);
    assert x[h..h + |MARK|] == y[h..h + |MARK|];
  }

  ghost predicate CleanBefore(r: Pattern, prev: char, before: string, rest: string, k: nat)
    requires k < |before|
  {
    CleanHere(r, Prev(prev, before, k), before[k..] + MARK + rest)
  }

  /** A text is clean if its part before the mark and its rest after the mark are. */
  lemma TailInBefore(before: string, rest: string, i: nat)
    requires i < |before|
    ensures (before + MARK + rest)[i..] == before[i..] + MARK + rest
  {
  }

  lemma TailInMark(before: string, rest: string, k: nat)
    requires k < |MARK|
    ensures (before + MARK + rest)[|before| + k..] == MARK[k..] + rest
  {
  }

  lemma TailInRest(before: string, rest: string, j: nat)
    requires j < |rest|
    ensures (before + MARK + rest)[|before| + |MARK| + j..] == rest[j..]
  {
  }

  lemma CleanInBefore(r: Pattern, prev: char, before: string, rest: string, i: nat)
    requires i < |before| && CleanBefore(r, prev, before, rest, i)
    ensures CleanAt(r, prev, before + MARK + rest, i)
  {
    TailInBefore(before, rest, i);
    assert Prev(prev, before + MARK + rest, i) == Prev(prev, before, i);
  }

  lemma CleanInMark(r: Pattern, prev: char, before: string, rest: string, k: nat)
    requires PlainNames(r.names) && k < |MARK| && (rest != "" ==> !IsLetter(rest[0]))
    ensures CleanAt(r, prev, before + MARK + rest, |before| + k)
  {
    TailInMark(before, rest, k);
    NoMatchInMark(r, Prev(prev, before + MARK + rest, |before| + k), rest, k);
  }

  lemma CleanInRest(r: Pattern, prev: char, before: string, rest: string, d: char, j: nat)
    requires PlainNames(r.names) && j < |rest| && Clean(r, d, rest) && !IsLetter(rest[0])
    ensures CleanAt(r, prev, before + MARK + rest, |before| + |MARK| + j)
  {
    var u := before + MARK + rest;
    var i := |before| + |MARK| + j;
    TailInRest(before, rest, j);
    if j == 0 {
      assert rest[0..] == rest;
      if Kept(r, Prev(prev, u, i), rest).Some? { KeptShape(r, Prev(prev, u, i), rest); }
    } else {
      assert Prev(prev, u, i) == Prev(d, rest, j);
      assert CleanAt(r, d, rest, j);
    }
  }

  lemma PartsCleanAt(r: Pattern, prev: char, before: string, rest: string, d: char, i: nat)
    requires PlainNames(r.names) && Clean(r, d, rest) && (rest != "" ==> !IsLetter(rest[0]))
    requires i < |before| + |MARK| + |rest| && (i < |before| ==> CleanBefore(r, prev, before, rest, i))
    ensures CleanAt(r, prev, before + MARK + rest, i)
  {
    if i < |before| {
      CleanInBefore(r, prev, before, rest, i);
    } else if i < |before| + |MARK| {
      CleanInMark(r, prev, before, rest, i - |before|);
    } else {
      CleanInRest(r, prev, before, rest, d, i - |before| - |MARK|);
    }
  }

  lemma CleanParts(r: Pattern, prev: char, before: string, rest: string, d: char)
    requires PlainNames(r.names) && Clean(r, d, rest) && (rest != "" ==> !IsLetter(rest[0]))
    requires forall k {:trigger CleanBefore(r, prev, before, rest, k)} | 0 <= k < |before| ::
             CleanBefore(r, prev, before, rest, k)
    ensures Clean(r, prev, before + MARK + rest)
  {
    forall i | 0 <= i < |before + MARK + rest|
      ensures CleanAt(r, prev, before + MARK + rest, i)
    {
      PartsCleanAt(r, prev, before, rest, d, i);
    }
  }

  lemma ReplaceKeepsFirst(q: Pattern, prev: char, s: string)
    ensures s == "" ==> Replace(q, prev, s) == ""
    ensures s != "" ==> Replace(q, prev, s) != "" && Replace(q, prev, s)[0] == s[0]
  {
  }

  lemma CleanBeforeSame(q: Pattern, prev: char, s: string, start: nat, rest: string)
    requires PlainNames(q.names) && FirstValue(q, prev, s).Some? && start == FirstValue(q, prev, s).value.0
    requires rest != "" ==> Stops(q, rest[0])
    ensures forall k {:trigger CleanBefore(q, prev, s[..start], rest, k)} | 0 <= k < start ::
            CleanBefore(q, prev, s[..start], rest, k)
  {
    forall k | 0 <= k < start
      ensures CleanBefore(q, prev, s[..start], rest, k)
    {
      BeforeMarkSame(q, prev, s, k, rest);
      SplitAt(s, k, start);
    }
  }

  lemma NoMatchClean(q: Pattern, prev: char, s: string)
    requires FirstValue(q, prev, s).None?
    ensures Clean(q, prev, s)
  {
    FirstMatchLeftmost(q, prev, s, 0);
    forall i | 0 <= i < |s|
      ensures CleanAt(q, prev, s, i)
    {
      assert !MatchAt(q, prev, s, i);
    }
  }

  /** What follows a value starts with a character that stops it, and that is no letter. */
  lemma RestIsNoLetter(q: Pattern, prev: char, s: string, rest: string)
    requires FirstValue(q, prev, s).Some?
    requires var end := FirstValue(q, prev, s).value.1; (rest != "" ==> end < |s| && rest[0] == s[end..][0])
    ensures rest != "" ==> Stops(q, rest[0]) && !IsLetter(rest[0])
  {
  }

  /** Replacing by a pattern leaves no value of that pattern visible. */
  lemma {:induction false} ReplaceCleans(q: Pattern, prev: char, s: string)
    requires PlainNames(q.names)
    ensures Clean(q, prev, Replace(q, prev, s))
    decreases |s|
  {
    var v := FirstValue(q, prev, s);
    if v.None? {
      NoMatchClean(q, prev, s);
    } else {
      var (start, end) := v.value;
      var rest := Replace(q, s[end - 1], s[end..]);
      ReplaceCleans(q, s[end - 1], s[end..]);
      ReplaceKeepsFirst(q, s[end - 1], s[end..]);
      CleanBeforeSame(q, prev, s, start, rest);
      RestIsNoLetter(q, prev, s, rest);
      ReplaceHead(q, prev, s, start, end);
      CleanParts(q, prev, s[..start], rest, s[end - 1]);
    }
  }

  lemma CleanBeforeOther(q: Pattern, r: Pattern, prev: char, s: string, start: nat, rest: string, a: char, b: char)
    requires PlainNames(q.names) && PlainNames(r.names) && HasTag(q, a) && HasTag(r, b) && a != b
    requires FirstValue(q, prev, s).Some? && start == FirstValue(q, prev, s).value.0
    requires Clean(r, prev, s)
    ensures forall k {:trigger CleanBefore(r, prev, s[..start], rest, k)} | 0 <= k < start ::
            CleanBefore(r, prev, s[..start], rest, k)
  {
    forall k | 0 <= k < start
      ensures CleanBefore(r, prev, s[..start], rest, k)
    {
      assert CleanAt(r, prev, s, k);
      BeforeMarkOther(q, r, prev, s, k, rest, a, b);
      SplitAt(s, k, start);
    }
  }

  /** Replacing by one pattern brings back no value of a different pattern. */
  lemma {:induction false} ReplaceKeepsClean(q: Pattern, r: Pattern, prev: char, s: string, a: char, b: char)
    requires PlainNames(q.names) && PlainNames(r.names) && HasTag(q, a) && HasTag(r, b) && a != b
    requires Clean(r, prev, s)
    ensures Clean(r, prev, Replace(q, prev, s))
    decreases |s|
  {
    var v := FirstValue(q, prev, s);
    if v.Some? {
      var (start, end) := v.value;
      var rest := Replace(q, s[end - 1], s[end..]);
      CleanDrop(r, prev, s, end);
      ReplaceKeepsClean(q, r, s[end - 1], s[end..], a, b);
      ReplaceKeepsFirst(q, s[end - 1], s[end..]);
      CleanBeforeOther(q, r, prev, s, start, rest, a, b);
      RestIsNoLetter(q, prev, s, rest);
      ReplaceHead(q, prev, s, start, end);
      CleanParts(r, prev, s[..start], rest, s[end - 1]);
    }
  }

  /** No credential value of any of the three patterns is left to see. */
  ghost predicate FullyRedacted(text: string) {
    Clean(AUTHORIZATION, ' ', text) && Clean(COOKIE, ' ', text) && Clean(SECRET, ' ', text)
  }

  lemma AuthorizationNames()
    ensures PlainNames(AUTHORIZATION.names) && HasTag(AUTHORIZATION, 'n')
  {
    assert PlainName("proxy-authorization");
    assert PlainName("authorization");
  }

  lemma CookieNames()
    ensures PlainNames(COOKIE.names) && HasTag(COOKIE, 'e')
  {
    assert PlainName("set-cookie");
    assert PlainName("cookie");
  }

  lemma SecretNames()
    ensures PlainNames(SECRET.names) && HasTag(SECRET, '=')
  {
    assert PlainName("password") && PlainName("passwd") && PlainName("token");
    assert PlainName("api_key") && PlainName("api-key") && PlainName("apikey");
    assert PlainName("secret");
    assert PlainName("session_id") && PlainName("session-id") && PlainName("sessionid");
  }

  /** After redaction every match of any pattern, wherever it starts, has the mark as its value. */
  lemma RedactionLeavesNoValue(text: string)
    ensures FullyRedacted(Redact(text).0)
  {
    AuthorizationNames();
    CookieNames();
    SecretNames();
    var a := Replace(AUTHORIZATION, ' ', text);
    var b := Replace(COOKIE, ' ', a);
    ReplaceCleans(AUTHORIZATION, ' ', text);
    ReplaceCleans(COOKIE, ' ', a);
    ReplaceKeepsClean(COOKIE, AUTHORIZATION, ' ', a, 'e', 'n');
    ReplaceCleans(SECRET, ' ', b);
    ReplaceKeepsClean(SECRET, AUTHORIZATION, ' ', b, '=', 'n');
    ReplaceKeepsClean(SECRET, COOKIE, ' ', b, '=', 'e');
  }

  /** A text is left alone, and reported as not redacted, if and only if no value is left to see in it. */
  lemma RedactUnchangedIff(text: string)
    ensures FullyRedacted(text) <==> Redact(text) == (text, false)
    ensures Redact(text).1 <==> Redact(text).0 != text
  {
    if FullyRedacted(text) {
      CleanUnchanged(AUTHORIZATION, ' ', text);
      CleanUnchanged(COOKIE, ' ', text);
      CleanUnchanged(SECRET, ' ', text);
    }
    if Redact(text).0 == text { RedactionLeavesNoValue(text); }
  }

  /** Redacting twice is redacting once, and the second time reports no redaction. */
  lemma RedactIdempotent(text: string)
    ensures Redact(Redact(text).0) == (Redact(text).0, false)
  {
    RedactionLeavesNoValue(text);
    RedactUnchangedIff(Redact(text).0);
  }
}
