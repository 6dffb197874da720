/** Hashing one file under the byte budget that is left for the call. */
module ArtifactHash {
  import opened InventoryWalk

  const BUFFER_BYTES := 32 * 1024

  /** `Hashed` carries the bytes fed to SHA-256, which stand for the digest. */
  datatype HashOutcome = Hashed(fed: seq<bv8>) | BudgetReached | Unavailable

  datatype ReadEnd = More | EndOfFile | Failure

  function Min(a: nat, b: nat): nat { if a < b then a else b }

  /** What one `Read` into a buffer of `size` bytes delivers, with `left` bytes of the file unread. */
  function ReadOnce(left: nat, steps: seq<ReadStep>, size: nat): (r: (nat, ReadEnd))
    ensures r.0 <= size && r.0 <= left
  {
    if steps == [] then (Min(left, size), if left == 0 then EndOfFile else More)
    else match steps[0]
      case Fail => (0, Failure)
      case Deliver(most, eofWithData) =>
        var n := Min(Min(left, size), most);
        (n, if most > 0 && n == left && (n == 0 || eofWithData) then EndOfFile else More)
  }

  function Drop(steps: seq<ReadStep>): seq<ReadStep> {
    if steps == [] then [] else steps[1..]
  }

  /** The reading loop, from `pos` bytes on: its outcome and the bytes read in all. */
  function HashFrom(content: seq<bv8>, pos: nat, steps: seq<ReadStep>, maxBytes: nat): (HashOutcome, nat)
    requires pos <= |content|
    decreases |steps|, |content| - pos
  {
    var left := |content| - pos;
    if pos >= maxBytes then
      var (n, end) := ReadOnce(left, steps, 1);
      if n > 0 then (BudgetReached, pos)
      else if end.EndOfFile? then (Hashed(content[..pos]), pos)
      else if end.Failure? then (Unavailable, pos)
      else HashFrom(content, pos, Drop(steps), maxBytes)
    else
      var (n, end) := ReadOnce(left, steps, Min(BUFFER_BYTES, maxBytes - pos));
      if end.EndOfFile? then (Hashed(content[..pos + n]), pos + n)
      else if end.Failure? then (Unavailable, pos + n)
      else HashFrom(content, pos + n, Drop(steps), maxBytes)
  }

  function HashSpec(file: FileReads, maxBytes: nat): (HashOutcome, nat) {
    match file
    case CannotOpen => (Unavailable, 0)
    case Opened(content, steps) => HashFrom(content, 0, steps, maxBytes)
  }

  /** One pass of the loop below the budget. */
  lemma HashBelowBudget(content: seq<bv8>, pos: nat, steps: seq<ReadStep>, maxBytes: nat)
    requires pos <= |content| && pos < maxBytes
    ensures var (n, end) := ReadOnce(|content| - pos, steps, Min(BUFFER_BYTES, maxBytes - pos));
            HashFrom(content, pos, steps, maxBytes) ==
            if end.EndOfFile? then (Hashed(content[..pos + n]), pos + n)
            else if end.Failure? then (Unavailable, pos + n)
            else HashFrom(content, pos + n, Drop(steps), maxBytes)
  {
  }

  /** One pass with the budget used up: a single byte decides. */
  lemma HashAtBudget(content: seq<bv8>, pos: nat, steps: seq<ReadStep>, maxBytes: nat)
    requires maxBytes <= pos <= |content|
    ensures var (n, end) := ReadOnce(|content| - pos, steps, 1);
            HashFrom(content, pos, steps, maxBytes) ==
            if n > 0 then (BudgetReached, pos)
            else if end.EndOfFile? then (Hashed(content[..pos]), pos)
            else if end.Failure? then (Unavailable, pos)
            else HashFrom(content, pos, Drop(steps), maxBytes)
  {
  }

  lemma FrontGrows(content: seq<bv8>, pos: nat, n: nat)
    requires pos + n <= |content|
    ensures content[..pos] + content[pos..pos + n] == content[..pos + n]
  {
  }

  /** The loop itself: it feeds what it reads to the hash and counts it. */
  method HashFile(file: FileReads, maxBytes: nat) returns (outcome: HashOutcome, bytesRead: nat)
    ensures (outcome, bytesRead) == HashSpec(file, maxBytes)
  {
    if file.CannotOpen? {
      return Unavailable, 0;
    }
    var content, steps := file.content, file.steps;
    var fed: seq<bv8> := [];
    bytesRead := 0;
    ghost var goal := HashSpec(file, maxBytes);
    while true
      invariant bytesRead <= |content| && fed == content[..bytesRead]
      invariant HashFrom(content, bytesRead, steps, maxBytes) == goal
      decreases |steps|, |content| - bytesRead
    {
      var left := |content| - bytesRead;
      if bytesRead >= maxBytes {
        HashAtBudget(content, bytesRead, steps, maxBytes);
        var (n, end) := ReadOnce(left, steps, 1);
        if n > 0 { return BudgetReached, bytesRead; }
        if end.EndOfFile? { return Hashed(fed), bytesRead; }
        if end.Failure? { return Unavailable, bytesRead; }
        steps := Drop(steps);
      } else {
        var (n, end) := ReadOnce(left, steps, Min(BUFFER_BYTES, maxBytes - bytesRead));
        HashBelowBudget(content, bytesRead, steps, maxBytes);
        FrontGrows(content, bytesRead, n);
        fed := fed + content[bytesRead..bytesRead + n];
        bytesRead := bytesRead + n;
        if end.EndOfFile? { return Hashed(fed), bytesRead; }
        if end.Failure? { return Unavailable, bytesRead; }
        assert steps == [] ==> n > 0;
        steps := Drop(steps);
      }
    }
  }

  // ---------- what the loop guarantees, however the reads are cut ----------

  ghost predicate SoundHash(content: seq<bv8>, pos: nat, steps: seq<ReadStep>, maxBytes: nat, r: (HashOutcome, nat)) {
    && pos <= r.1 <= |content| && r.1 <= maxBytes
    && match r.0
       case Hashed(fed) => fed == content && r.1 == |content|
       case BudgetReached => r.1 == maxBytes < |content|
       case Unavailable => Fail in steps
  }

  /** Never more bytes than the budget or the file hold; a hash is over the whole file; a budget stop means
      the budget is used up and the file is longer. */
  lemma {:induction false} HashFromSound(content: seq<bv8>, pos: nat, steps: seq<ReadStep>, maxBytes: nat)
    requires pos <= |content| && pos <= maxBytes
    ensures SoundHash(content, pos, steps, maxBytes, HashFrom(content, pos, steps, maxBytes))
    decreases |steps|, |content| - pos
  {
    var left := |content| - pos;
    assert content[..|content|] == content;
    if pos == maxBytes {
      var (n, end) := ReadOnce(left, steps, 1);
      if n == 0 && end.More? { HashFromSound(content, pos, Drop(steps), maxBytes); }
    } else {
      var (n, end) := ReadOnce(left, steps, Min(BUFFER_BYTES, maxBytes - pos));
      if end.More? { HashFromSound(content, pos + n, Drop(steps), maxBytes); }
    }
  }

  /** For a file whose reads do not fail, the cuts do not matter at all. */
  lemma HashChunkingIrrelevant(content: seq<bv8>, steps: seq<ReadStep>, maxBytes: nat)
    requires Fail !in steps
    ensures HashSpec(Opened(content, steps), maxBytes) ==
            if |content| <= maxBytes then (Hashed(content), |content|) else (BudgetReached, maxBytes)
  {
    HashFromSound(content, 0, steps, maxBytes);
  }
}
