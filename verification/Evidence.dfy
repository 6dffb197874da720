/** Symptoms, and the evidence windows they carry. */
module Evidence {
  import opened ByteStrings
  import opened Sorting
  import opened Packets

  datatype Code = TLSOnPlainPort | RSTAfterSYNACK | ProbeReturnsRST | AsymmetricPath

  datatype Detail =
    | TLSDetail(responseKind: string, version: string)
    | RSTDetail(clientBytes: int, serverBytes: int, timeToRST: int)
    | ProbeDetail(count: nat, cadenceMS: int, rst: nat)
    | PathDetail(synAckSeen: bool, interfaces: seq<string>, viaOther: bool)

  datatype Symptom = Symptom(
    code: Code, severity: string, confidence: string, flow: Flow,
    packetCount: nat, packetNumbers: seq<int>, firstMS: int, lastMS: int, detail: Detail)

  // ---------- distinct numbers, in place ----------

  predicate IntLess(a: int, b: int) { a < b }

  lemma IntLessStrictWeak()
    ensures StrictWeak(IntLess)
  {
  }

  /** Adjacent repetitions collapsed. */
  function Dedup(s: seq<int>): seq<int> {
    if |s| <= 1 then s
    else
      var init := Dedup(s[..|s| - 1]);
      if s[|s| - 1] == s[|s| - 2] then init else init + [s[|s| - 1]]
  }

  function UniqueInts(s: seq<int>): seq<int> {
    Dedup(Sort(IntLess, s))
  }

  predicate StrictlyIncreasing(s: seq<int>) {
    forall i, j | 0 <= i < j < |s| :: s[i] < s[j]
  }

  lemma {:induction false} DedupSorted(s: seq<int>)
    requires SortedBy(IntLess, s)
    ensures StrictlyIncreasing(Dedup(s))
    ensures forall x :: x in Dedup(s) <==> x in s
    ensures s != [] ==> Dedup(s) != [] && Dedup(s)[|Dedup(s)| - 1] == s[|s| - 1]
  {
    if |s| > 1 {
      var init := s[..|s| - 1];
      DedupSorted(init);
      assert s == init + [s[|s| - 1]];
      assert !IntLess(s[|s| - 1], s[|s| - 2]);
    }
  }

  /** Whatever the order and the repetitions of the input: the same numbers, each once, ascending. */
  lemma UniqueIntsExact(s: seq<int>)
    ensures StrictlyIncreasing(UniqueInts(s))
    ensures forall x :: x in UniqueInts(s) <==> x in s
  {
    IntLessStrictWeak();
    SortSorted(IntLess, s);
    DedupSorted(Sort(IntLess, s));
    SortMembers(IntLess, s);
  }

  /** Sorts the slice and then writes the distinct values over its own front while still reading it. */
  method UniqueIntsInPlace(values: array<int>) returns (n: nat)
    modifies values
    ensures n <= values.Length && values[..n] == UniqueInts(old(values[..]))
  {
    var sorted := Sort(IntLess, values[..]);
    forall i | 0 <= i < values.Length { values[i] := sorted[i]; }
    assert values[..] == sorted;
    n := 0;
    var last := 0;
    var i := 0;
    while i < values.Length
      invariant n <= i <= values.Length
      invariant values[..n] == Dedup(sorted[..i])
      invariant values[i..] == sorted[i..]
      invariant i > 0 ==> last == sorted[i - 1]
    {
      var v := values[i];
      assert v == values[i..][0] == sorted[i];
      assert sorted[..i + 1][..i] == sorted[..i];
      if i == 0 || v != last {
        values[n] := v;
        n := n + 1;
        assert values[..n] == Dedup(sorted[..i]) + [v];
      }
      last := v;
      assert values[i + 1..] == sorted[i..][1..];
      i := i + 1;
    }
    assert sorted[..|sorted|] == sorted;
  }

  // ---------- windows ----------

  predicate InWindow(p: Packet, fromMS: int, toMS: int) {
    fromMS <= p.timeMS <= toMS
  }

  function WindowEnd(start: Packet, end: Option<Packet>): int {
    if end.Some? then end.value.timeMS else start.timeMS
  }

  /** The packets between two anchors by time, or the first anchor alone when there are none. */
  function PacketsBetween(packets: seq<Packet>, start: Packet, end: Option<Packet>): seq<Packet> {
    var inside := Filter((p: Packet) => InWindow(p, start.timeMS, WindowEnd(start, end)), packets);
    if inside == [] then [start] else inside
  }

  function PositiveNumbers(packets: seq<Packet>): seq<int> {
    if packets == [] then []
    else (if packets[0].number > 0 then [packets[0].number] else []) + PositiveNumbers(packets[1..])
  }

  function PacketNumbers(packets: seq<Packet>): seq<int> {
    UniqueInts(PositiveNumbers(packets))
  }

  lemma {:induction false} PositiveNumbersMember(packets: seq<Packet>)
    ensures forall n :: n in PositiveNumbers(packets) <==> exists p :: p in packets && p.number == n && n > 0
  {
    if packets != [] {
      PositiveNumbersMember(packets[1..]);
      assert packets == [packets[0]] + packets[1..];
    }
  }

  lemma PacketNumbersExact(packets: seq<Packet>)
    ensures StrictlyIncreasing(PacketNumbers(packets))
    ensures forall n :: n in PacketNumbers(packets) <==> exists p :: p in packets && p.number == n && n > 0
  {
    UniqueIntsExact(PositiveNumbers(packets));
    PositiveNumbersMember(packets);
  }

  /** The evidence of a window whose anchors are in the packets: ascending positive frame numbers, exactly those
      of the packets in the window; the fallback to the first anchor alone is taken exactly when the second is
      earlier. */
  lemma WindowExact(packets: seq<Packet>, start: Packet, end: Option<Packet>)
    requires start in packets && (end.Some? ==> end.value in packets)
    ensures var window := PacketsBetween(packets, start, end);
            && (forall p :: p in window <==>
                  if WindowEnd(start, end) < start.timeMS then p == start
                  else p in packets && InWindow(p, start.timeMS, WindowEnd(start, end)))
            && start in window
            && (end.Some? ==> (end.value in window <==> (start.timeMS <= end.value.timeMS || end.value == start)))
            && StrictlyIncreasing(PacketNumbers(window))
            && (forall n | n in PacketNumbers(window) :: n > 0 && exists p :: p in packets && p.number == n)
            && (start.number > 0 ==> start.number in PacketNumbers(window))
  {
    var keep := (p: Packet) => InWindow(p, start.timeMS, WindowEnd(start, end));
    var inside := Filter((p: Packet) => InWindow(p, start.timeMS, WindowEnd(start, end)), packets);
    assert inside != [] ==> inside[0] in inside;
    FilterMember((p: Packet) => InWindow(p, start.timeMS, WindowEnd(start, end)), packets);
    PacketNumbersExact(PacketsBetween(packets, start, end));
  }

  /** Smallest and largest time, zero for no packets. */
  function FirstMS(packets: seq<Packet>): int {
    if packets == [] then 0
    else if |packets| == 1 then packets[0].timeMS
    else
      var rest := FirstMS(packets[..|packets| - 1]);
      if packets[|packets| - 1].timeMS < rest then packets[|packets| - 1].timeMS else rest
  }

  function LastMS(packets: seq<Packet>): int {
    if packets == [] then 0
    else if |packets| == 1 then packets[0].timeMS
    else
      var rest := LastMS(packets[..|packets| - 1]);
      if packets[|packets| - 1].timeMS > rest then packets[|packets| - 1].timeMS else rest
  }

  lemma {:induction false} ExtremesExact(packets: seq<Packet>)
    requires packets != []
    ensures exists p :: p in packets && p.timeMS == FirstMS(packets)
    ensures exists p :: p in packets && p.timeMS == LastMS(packets)
    ensures forall p | p in packets :: FirstMS(packets) <= p.timeMS <= LastMS(packets)
  {
    var init, last := packets[..|packets| - 1], packets[|packets| - 1];
    assert packets == init + [last];
    if |packets| == 1 {
      assert last in packets;
    } else {
      ExtremesExact(init);
      assert last in packets;
      assert forall p | p in init :: p in packets;
    }
  }

  /** The extremes do not depend on the order. */
  lemma ExtremesPermuted(s: seq<Packet>, t: seq<Packet>)
    requires multiset(s) == multiset(t)
    ensures FirstMS(s) == FirstMS(t) && LastMS(s) == LastMS(t)
  {
    SameLength(s, t);
    if s != [] {
      assert forall p :: p in s <==> p in multiset(s);
      assert forall p :: p in t <==> p in multiset(t);
      ExtremesExact(s);
      ExtremesExact(t);
    }
  }
}
