/** The cursor token: what the server writes, what it accepts back, and that an accepted cursor always
    resumes the walk as the paging theorems assume. */
module InventoryCursor {
  import opened ByteStrings
  import opened RelPaths
  import opened GoPaths
  import opened InventoryWalk
  import opened InventoryPaging
  import opened JsonText

  const MAX_CURSOR_LEN := 2048
  const CURSOR_VERSION := 1

  /** The JSON fields of a cursor. */
  datatype Wire = Wire(version: int, rootIndex: int, relativePath: string)

  /** JSON followed by unpadded base64url, and back; `decode` fails on what is not such a token. */
  datatype Codec = Codec(encode: Wire -> string, decode: string -> Option<Wire>)

  datatype CursorError = ContainsNul | TooLong | Malformed | UnsupportedVersion | RootOutside | InvalidPath

  datatype Decoded = NoCursor | Accepted(cursor: Cursor) | Refused(error: CursorError)

  function ToWire(k: Key): Wire {
    Wire(CURSOR_VERSION, k.root, Join(k.path))
  }

  predicate ValidRelativePath(path: string) {
    path != "" && '\0' !in path && '\\' !in path && !IsAbs(path) &&
    var clean := Clean(path);
    clean != "." && clean != ".." && !("../" <= clean) && clean == path
  }

  function DecodeCursor(codec: Codec, token: string, rootCount: nat): Decoded {
    if token == "" then NoCursor
    else if '\0' in token then Refused(ContainsNul)
    else if |token| > MAX_CURSOR_LEN then Refused(TooLong)
    else
      match codec.decode(token)
      case None => Refused(Malformed)
      case Some(wire) =>
        if wire.version != CURSOR_VERSION then Refused(UnsupportedVersion)
        else if wire.rootIndex < 0 || wire.rootIndex >= rootCount then Refused(RootOutside)
        else if !ValidRelativePath(wire.relativePath) then Refused(InvalidPath)
        else Accepted(Cursor(wire.rootIndex, wire.relativePath))
  }

  /** The key that a cursor stands for. */
  function KeyOfCursor(c: Cursor): Key {
    Key(c.rootIndex, Components(c.relPath))
  }

  /** JSON and base64 as Go does them: a token is not empty and has no NUL byte, and it brings back the cursor with
      every byte that is not part of valid UTF-8 rewritten. */
  ghost predicate JSONCodec(codec: Codec) {
    forall w: Wire :: TokenReads(codec, w)
  }

  predicate TokenReads(codec: Codec, w: Wire) {
    var token := codec.encode(w);
    token != "" && '\0' !in token && codec.decode(token) == Some(w.(relativePath := Coerce(w.relativePath)))
  }

  /** No component contains a backslash or a NUL byte. */
  predicate PlainBytes(p: Path) {
    forall n | n in p :: '\\' !in n && '\0' !in n
  }

  lemma {:induction false} JoinBytes(p: Path, c: char)
    requires c != '/'
    ensures c in Join(p) <==> exists n :: n in p && c in n
  {
    if p != [] {
      assert Join(p) == p[0] + Tail(p);
      if |p| > 1 {
        JoinBytes(p[1..], c);
        assert c in Join(p) <==> c in p[0] || c in Join(p[1..]);
      }
      assert forall n :: n in p <==> n == p[0] || n in p[1..];
    }
  }

  /** A name followed by nothing or a slash starts with "../" exactly if it is ".." and a slash follows. */
  lemma UpwardJoin(p: Path)
    requires p != [] && ValidPath(p)
    ensures (Join(p) == ".." || "../" <= Join(p)) <==> p[0] == ".."
  {
    assert ValidName(p[0]) by { assert p[0] in p; }
    assert Join(p) == p[0] + Tail(p);
    FirstSlash("..", p[0], "/", Tail(p));
    assert ".." + "/" == "../";
    if |p| == 1 { assert Tail(p) == ""; } else { assert Tail(p)[0] == '/' && Join(p)[|p[0]|] == '/'; }
  }

  lemma {:induction false} CoercedPlain(p: Path)
    requires PlainPath(p)
    ensures PlainPath(CoercePath(p)) && (p != [] ==> CoercePath(p) != [])
    ensures PlainBytes(CoercePath(p)) <==> PlainBytes(p)
  {
    if p != [] {
      assert PlainName(p[0]) by { assert p[0] in p; }
      CoerceDots(p[0]);
      CoerceGrows(p[0]);
      CoerceAscii(p[0], '/');
      CoerceAscii(p[0], '\\');
      CoerceAscii(p[0], '\0');
      CoercedPlain(p[1..]);
      assert forall n :: n in p <==> n == p[0] || n in p[1..];
      assert forall n :: n in CoercePath(p) <==> n == Coerce(p[0]) || n in CoercePath(p[1..]);
    }
  }

  lemma PlainIsRelative(p: Path)
    requires p != [] && PlainPath(p)
    ensures var s := Join(p); s != "" && !IsAbs(s) && s != "." && s != ".." && !("../" <= s)
  {
    CleanPlain(p);
    UpwardJoin(p);
    assert PlainName(p[0]) by { assert p[0] in p; }
    if |p| == 1 {
      assert Join(p) == p[0];
    } else {
      assert Join(p) == p[0] + ("/" + Join(p[1..]));
      assert Join(p)[|p[0]|] == '/';
    }
  }

  /** A plain relative path is valid exactly if it has no backslash and no NUL byte. */
  lemma PlainIsValid(p: Path)
    requires p != [] && PlainPath(p)
    ensures ValidRelativePath(Join(p)) <==> PlainBytes(p)
  {
    CleanPlain(p);
    PlainIsRelative(p);
    JoinBytes(p, '\\');
    JoinBytes(p, '\0');
  }

  function TokenOf(codec: Codec, k: Key): string {
    codec.encode(ToWire(k))
  }

  /** What the server makes of the cursor for a key, for every key: it is refused for its length or for a backslash or
      NUL byte in a name, and is otherwise read as the key with every name rewritten by the encoder. */
  lemma CursorReadAs(codec: Codec, k: Key, rootCount: nat)
    requires JSONCodec(codec) && k.Valid() && k.root < rootCount
    ensures DecodeCursor(codec, TokenOf(codec, k), rootCount) ==
            if |TokenOf(codec, k)| > MAX_CURSOR_LEN then Refused(TooLong)
            else if PlainBytes(k.path) then Accepted(Key(k.root, CoercePath(k.path)).ToCursor())
            else Refused(InvalidPath)
  {
    assert TokenReads(codec, ToWire(k));
    CoerceJoin(k.path);
    CoercedPlain(k.path);
    PlainIsValid(CoercePath(k.path));
  }

  /** The next call takes the cursor of a key, and reads the same key from it, if and only if no name on its path
      contains a backslash or a NUL byte, the path is valid UTF-8, and the token has at most 2048 bytes. */
  lemma CursorAcceptedIff(codec: Codec, k: Key, rootCount: nat)
    requires JSONCodec(codec) && k.Valid() && k.root < rootCount
    ensures DecodeCursor(codec, TokenOf(codec, k), rootCount) == Accepted(k.ToCursor()) <==>
            |TokenOf(codec, k)| <= MAX_CURSOR_LEN && PlainBytes(k.path) && ValidUTF8(Join(k.path))
  {
    CursorReadAs(codec, k, rootCount);
    CoerceJoin(k.path);
    CoerceFixed(Join(k.path));
  }

  /** The server's reading of its own cursors. */
  function Back(codec: Codec, rootCount: nat): Reading {
    (k: Key) =>
      if !k.Valid() then None
      else match DecodeCursor(codec, TokenOf(codec, k), rootCount)
        case Accepted(c) => Some(KeyOfCursor(c))
        case _ => None
  }

  lemma CursorRoundTrip(k: Key)
    requires k.Valid()
    ensures KeyOfCursor(k.ToCursor()) == k
  {
    CleanPlain(k.path);
  }

  /** The reading, told without tokens being decoded. */
  lemma BackExact(codec: Codec, rootCount: nat, k: Key)
    requires JSONCodec(codec) && k.Valid() && k.root < rootCount
    ensures Back(codec, rootCount)(k) ==
            if |TokenOf(codec, k)| <= MAX_CURSOR_LEN && PlainBytes(k.path) then Some(Key(k.root, CoercePath(k.path)))
            else None
  {
    CursorReadAs(codec, k, rootCount);
    CoercedPlain(k.path);
    CursorRoundTrip(Key(k.root, CoercePath(k.path)));
  }

  lemma BackCoerces(codec: Codec, rootCount: nat)
    requires JSONCodec(codec)
    ensures Coerces(Back(codec, rootCount))
  {
    forall k: Key | Back(codec, rootCount)(k).Some?
      ensures Back(codec, rootCount)(k).value == Key(k.root, CoercePath(k.path))
    {
      assert TokenReads(codec, ToWire(k));
      BackExact(codec, rootCount, k);
    }
  }

  /** What cleaning leaves of a relative path: upward steps first, then plain names. */
  lemma {:induction false} ReduceRelative(pieces: seq<string>, done: Path)
    requires UpThenPlain(done) && forall n | n in pieces :: '/' !in n
    ensures UpThenPlain(Reduce(pieces, done, false))
  {
    if pieces != [] {
      assert pieces[0] in pieces;
      if pieces[0] == "" || pieces[0] == "." {
        ReduceRelative(pieces[1..], done);
      } else if pieces[0] == ".." {
        if done != [] && done[|done| - 1] != ".." {
          UpThenPlainDrop(done);
          ReduceRelative(pieces[1..], done[..|done| - 1]);
        } else {
          UpThenPlainAdd(done, "..");
          ReduceRelative(pieces[1..], done + [".."]);
        }
      } else {
        UpThenPlainAdd(done, pieces[0]);
        ReduceRelative(pieces[1..], done + [pieces[0]]);
      }
    }
  }

  predicate UpThenPlain(p: Path) {
    p == [] || (if p[0] == ".." then UpThenPlain(p[1..]) else PlainPath(p))
  }

  lemma {:induction false} UpThenPlainDrop(p: Path)
    requires UpThenPlain(p) && p != []
    ensures UpThenPlain(p[..|p| - 1])
  {
    if p[0] == ".." && |p| > 1 {
      UpThenPlainDrop(p[1..]);
      assert p[..|p| - 1][1..] == p[1..][..|p[1..]| - 1];
    }
  }

  lemma {:induction false} UpThenPlainAdd(p: Path, n: string)
    requires UpThenPlain(p) && (PlainName(n) || (n == ".." && (p == [] || p[|p| - 1] == "..")))
    ensures UpThenPlain(p + [n])
  {
    if p == [] {
      assert p + [n] == [n];
    } else if p[0] == ".." {
      UpThenPlainAdd(p[1..], n);
      assert (p + [n])[1..] == p[1..] + [n];
    } else {
      assert p[|p| - 1] in p;
    }
  }

  /** A valid relative path is the joined form of its plain components. */
  lemma CanonicalPath(s: string)
    requires ValidRelativePath(s)
    ensures Components(s) != [] && PlainPath(Components(s)) && s == Join(Components(s))
  {
    var p := Components(s);
    ReduceRelative(Split(s), []);
    if p[0] == ".." {
      UpIsVisible(p);
      assert false;
    }
  }

  /** What the server has checked of an accepted cursor. */
  lemma AcceptedFields(codec: Codec, token: string, rootCount: nat)
    requires DecodeCursor(codec, token, rootCount).Accepted?
    ensures var c := DecodeCursor(codec, token, rootCount).cursor;
            c.rootIndex < rootCount && ValidRelativePath(c.relPath)
  {
  }

  /** A canonical cursor for one of the roots: the walk it starts counts exactly the later visits. */
  ghost predicate IsCanonical(c: Cursor, roots: seq<Listing>) {
    var k := KeyOfCursor(c);
    && k.root < |roots| && k.Valid() && PlainPath(k.path) && c == k.ToCursor()
    && PendingFrom(roots, 0, Some(c)) == AfterKey(Some(k), All(roots))
  }

  lemma CheckedIsCanonical(c: Cursor, roots: seq<Listing>)
    requires SortedForest(roots) && c.rootIndex < |roots| && ValidRelativePath(c.relPath)
    ensures IsCanonical(c, roots)
  {
    CanonicalPath(c.relPath);
    PendingExact(roots, Some(KeyOfCursor(c)));
  }

  /** Every accepted cursor, also one the server never issued, is the joined form of a plain path under a
      configured root: the walk it starts counts exactly the later visits. */
  lemma AcceptedIsCanonical(codec: Codec, token: string, roots: seq<Listing>)
    requires SortedForest(roots) && DecodeCursor(codec, token, |roots|).Accepted?
    ensures IsCanonical(DecodeCursor(codec, token, |roots|).cursor, roots)
  {
    AcceptedFields(codec, token, |roots|);
    CheckedIsCanonical(DecodeCursor(codec, token, |roots|).cursor, roots);
  }

  lemma UpIsVisible(p: Path)
    requires p != [] && p[0] == ".."
    ensures Join(p) == ".." || "../" <= Join(p)
  {
    if |p| > 1 { assert Join(p) == "../" + Join(p[1..]); }
  }
}
