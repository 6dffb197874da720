/** The detector of periodic probes that are answered with resets: it aggregates flows per source,
    destination and destination port. */
module MonitorProbes {
  import opened ByteStrings
  import opened GoText
  import opened Sorting
  import opened Packets
  import opened FlowGrouping
  import opened Evidence
  import opened FlowDetectors

  const MIN_PROBE_COUNT := 3
  const MAX_PROBE_PAYLOAD := 256
  const MAX_PROBE_CADENCE_MS := 30000

  /** The caller's flow scope; empty strings and absent ports do not restrict. */
  datatype Scope = Scope(srcIP: string, dstIP: string, srcPort: Option<int>, dstPort: Option<int>, protocol: string)

  predicate InScope(flow: Flow, scope: Option<Scope>) {
    scope.None? ||
    var s := scope.value;
    var protocol := ToLower(TrimSpace(s.protocol));
    && (protocol == "" || flow.protocol == protocol)
    && (s.srcIP == "" || flow.srcIP == TrimSpace(s.srcIP))
    && (s.dstIP == "" || flow.dstIP == TrimSpace(s.dstIP))
    && (s.srcPort.None? || flow.srcPort == s.srcPort.value)
    && (s.dstPort.None? || flow.dstPort == s.dstPort.value)
  }

  // ---------- what a flow contributes ----------

  function ProbeKey(flow: Flow): string {
    flow.srcIP + "-" + (flow.dstIP + ":" + Itoa(flow.dstPort) + "/" + flow.protocol)
  }

  predicate IsServerRST(flow: Flow, p: Packet) {
    Direction(flow, p) == -1 && p.rst
  }

  predicate HasServerRST(g: Group) {
    exists p :: p in g.packets && IsServerRST(g.flow, p)
  }

  function ServerRSTNumbers(g: Group): seq<int> {
    PositiveNumbers(Filter((p: Packet) => IsServerRST(g.flow, p), g.packets))
  }

  function MaxPayload(flow: Flow, packets: seq<Packet>): int {
    if packets == [] then 0
    else
      var rest, p := MaxPayload(flow, packets[..|packets| - 1]), packets[|packets| - 1];
      if Direction(flow, p) == 1 && p.tcpLen > rest then p.tcpLen else rest
  }

  lemma {:induction false} MaxPayloadExact(flow: Flow, packets: seq<Packet>)
    ensures MaxPayload(flow, packets) >= 0
    ensures forall p | p in packets && Direction(flow, p) == 1 :: p.tcpLen <= MaxPayload(flow, packets)
    ensures MaxPayload(flow, packets) > 0 ==>
              exists p :: p in packets && Direction(flow, p) == 1 && p.tcpLen == MaxPayload(flow, packets)
  {
    if packets != [] {
      MaxPayloadExact(flow, packets[..|packets| - 1]);
      assert packets == packets[..|packets| - 1] + [packets[|packets| - 1]];
    }
  }

  // ---------- aggregation ----------

  datatype Probe = Probe(flow: Flow, starts: seq<int>, numbers: seq<int>, total: nat, rst: nat, maxPayload: int)

  function KeyFlow(flow: Flow): Flow {
    Flow(flow.srcIP, flow.dstIP, 0, flow.dstPort, flow.protocol)
  }

  /** A flow that takes part: in scope, and with an initial SYN. */
  predicate TakesPart(scope: Option<Scope>, g: Group) {
    InScope(g.flow, scope) && FirstSYN(g).Some?
  }

  function AddFlow(e: Probe, g: Group): Probe
    requires FirstSYN(g).Some?
  {
    var start := FirstSYN(g).value;
    var reset := HasServerRST(g);
    Probe(e.flow, e.starts + [start.timeMS],
          e.numbers + [start.number] + (if reset then ServerRSTNumbers(g) else []),
          e.total + 1, e.rst + (if reset then 1 else 0),
          if MaxPayload(g.flow, g.packets) > e.maxPayload then MaxPayload(g.flow, g.packets) else e.maxPayload)
  }

  /** The flows that count under a key. */
  function FlowsOf(key: string, groups: seq<Group>, scope: Option<Scope>): (flows: seq<Group>)
    ensures forall g | g in flows :: FirstSYN(g).Some?
  {
    FilterMember((g: Group) => TakesPart(scope, g) && ProbeKey(g.flow) == key, groups);
    Filter((g: Group) => TakesPart(scope, g) && ProbeKey(g.flow) == key, groups)
  }

  function Aggregate(flows: seq<Group>): Probe
    requires flows != [] && forall g | g in flows :: FirstSYN(g).Some?
  {
    if |flows| == 1 then AddFlow(Probe(KeyFlow(flows[0].flow), [], [], 0, 0, 0), flows[0])
    else AddFlow(Aggregate(flows[..|flows| - 1]), flows[|flows| - 1])
  }

  /** The keys under which some flow counts, in order of appearance. */
  function ProbeKeys(groups: seq<Group>, scope: Option<Scope>): seq<string> {
    if groups == [] then []
    else
      var before, g := ProbeKeys(groups[..|groups| - 1], scope), groups[|groups| - 1];
      if TakesPart(scope, g) && ProbeKey(g.flow) !in before then before + [ProbeKey(g.flow)] else before
  }

  lemma {:induction false} ProbeKeysMember(groups: seq<Group>, scope: Option<Scope>)
    ensures NoDuplicates(ProbeKeys(groups, scope))
    ensures forall k :: k in ProbeKeys(groups, scope) <==>
            exists g :: g in groups && TakesPart(scope, g) && ProbeKey(g.flow) == k
  {
    if groups != [] {
      var init, last := groups[..|groups| - 1], groups[|groups| - 1];
      ProbeKeysMember(init, scope);
      assert groups == init + [last];
    }
  }

  lemma FlowsOfMember(key: string, groups: seq<Group>, scope: Option<Scope>)
    ensures forall g :: g in FlowsOf(key, groups, scope) <==>
            g in groups && TakesPart(scope, g) && ProbeKey(g.flow) == key
    ensures FlowsOf(key, groups, scope) != [] <==> key in ProbeKeys(groups, scope)
  {
    var flows := FlowsOf(key, groups, scope);
    var some := if flows != [] then flows[..1] else [];
    assert some != [] ==> some[0] in flows;
    FilterMember((g: Group) => TakesPart(scope, g) && ProbeKey(g.flow) == key, groups);
    ProbeKeysMember(groups, scope);
  }

  // ---------- cadence ----------

  function Gaps(s: seq<int>): seq<int> {
    if |s| < 2 then [] else Gaps(s[..|s| - 1]) + [s[|s| - 1] - s[|s| - 2]]
  }

  lemma {:induction false} GapsLength(s: seq<int>)
    ensures |Gaps(s)| == if |s| < 2 then 0 else |s| - 1
  {
    if |s| >= 2 { GapsLength(s[..|s| - 1]); }
  }

  function MedianInterval(times: seq<int>): int {
    if |times| < 2 then 0
    else
      GapsLength(Sort(IntLess, times));
      var intervals := Sort(IntLess, Gaps(Sort(IntLess, times)));
      var mid := |intervals| / 2;
      if |intervals| % 2 == 1 then intervals[mid] else (intervals[mid - 1] + intervals[mid]) / 2
  }

  method ComputeMedian(times: seq<int>) returns (m: int)
    ensures m == MedianInterval(times)
  {
    if |times| < 2 { return 0; }
    var sorted := Sort(IntLess, times);
    var intervals: seq<int> := [];
    var i := 1;
    assert Gaps(sorted[..1]) == [];
    while i < |sorted|
      invariant 1 <= i <= |sorted|
      invariant intervals == Gaps(sorted[..i])
    {
      assert sorted[..i + 1][..i] == sorted[..i];
      intervals := intervals + [sorted[i] - sorted[i - 1]];
      i := i + 1;
    }
    assert sorted[..|sorted|] == sorted;
    GapsLength(sorted);
    intervals := Sort(IntLess, intervals);
    var mid := |intervals| / 2;
    m := if |intervals| % 2 == 1 then intervals[mid] else (intervals[mid - 1] + intervals[mid]) / 2;
  }

  function CountAtMost(s: seq<int>, m: int): nat { |Filter((x: int) => x <= m, s)| }

  function CountAtLeast(s: seq<int>, m: int): nat { |Filter((x: int) => x >= m, s)| }

  lemma {:induction false} FilterLengthAll<T>(keep: T -> bool, s: seq<T>)
    requires forall i | 0 <= i < |s| :: keep(s[i])
    ensures |Filter(keep, s)| == |s|
  {
    if s != [] { FilterLengthAll(keep, s[1..]); }
  }

  lemma FilterLengthPermuted<T(!new)>(keep: T -> bool, s: seq<T>, t: seq<T>)
    requires multiset(s) == multiset(t)
    ensures |Filter(keep, s)| == |Filter(keep, t)|
  {
    FilterPermuted(keep, s, t);
    SameLength(Filter(keep, s), Filter(keep, t));
  }

  lemma AtMostBefore(s: seq<int>, m: int, i: nat)
    requires SortedBy(IntLess, s) && 0 < i <= |s| && s[i - 1] <= m
    ensures CountAtMost(s, m) >= i
  {
    var front := s[..i];
    forall k | 0 <= k < i
      ensures front[k] <= m
    {
      if k < i - 1 { assert !IntLess(s[i - 1], s[k]); }
    }
    assert s == front + s[i..];
    FilterConcat((x: int) => x <= m, front, s[i..]);
    FilterLengthAll((x: int) => x <= m, front);
  }

  lemma AtLeastAfter(s: seq<int>, m: int, i: nat)
    requires SortedBy(IntLess, s) && i < |s| && m <= s[i]
    ensures CountAtLeast(s, m) >= |s| - i
  {
    var back := s[i..];
    forall k | 0 <= k < |back|
      ensures m <= back[k]
    {
      if k > 0 { assert !IntLess(s[i + k], s[i]); }
    }
    assert s == s[..i] + back;
    FilterConcat((x: int) => x >= m, s[..i], back);
    FilterLengthAll((x: int) => x >= m, back);
  }

  /** The cadence is a median of the gaps between consecutive starts: at least half of them are not above it and
      at least half are not below it; and the order of the starts does not matter. */
  lemma MedianIsMedian(times: seq<int>)
    requires |times| >= 2
    ensures var gaps := Gaps(Sort(IntLess, times));
            && |gaps| == |times| - 1
            && 2 * CountAtMost(gaps, MedianInterval(times)) >= |gaps|
            && 2 * CountAtLeast(gaps, MedianInterval(times)) >= |gaps|
  {
    var gaps := Gaps(Sort(IntLess, times));
    var s := Sort(IntLess, gaps);
    GapsLength(Sort(IntLess, times));
    IntLessStrictWeak();
    SortSorted(IntLess, gaps);
    SortMultiset(IntLess, gaps);
    var m, mid := MedianInterval(times), |s| / 2;
    FilterLengthPermuted((x: int) => x <= m, gaps, s);
    FilterLengthPermuted((x: int) => x >= m, gaps, s);
    if |s| % 2 == 1 {
      AtMostBefore(s, m, mid + 1);
      AtLeastAfter(s, m, mid);
    } else {
      assert !IntLess(s[mid], s[mid - 1]);
      AtMostBefore(s, m, mid);
      AtLeastAfter(s, m, mid);
    }
  }

  lemma MedianPermuted(s: seq<int>, t: seq<int>)
    requires multiset(s) == multiset(t)
    ensures MedianInterval(s) == MedianInterval(t)
  {
    SameLength(s, t);
    IntLessStrictWeak();
    SortUnique(IntLess, s, t);
  }

  // ---------- the report ----------

  /** Fewer than nine tenths, without floating point. */
  predicate BelowNineTenths(rst: nat, total: nat) {
    10 * rst < 9 * total
  }

  function SmallestInt(s: seq<int>): int {
    if s == [] then 0 else if |s| == 1 then s[0]
    else var rest := SmallestInt(s[..|s| - 1]); if s[|s| - 1] < rest then s[|s| - 1] else rest
  }

  function LargestInt(s: seq<int>): int {
    if s == [] then 0 else if |s| == 1 then s[0]
    else var rest := LargestInt(s[..|s| - 1]); if s[|s| - 1] > rest then s[|s| - 1] else rest
  }

  function ProbeSymptom(e: Probe): Option<Symptom> {
    if e.total < MIN_PROBE_COUNT || e.maxPayload > MAX_PROBE_PAYLOAD then None
    else if BelowNineTenths(e.rst, e.total) then None
    else
      var cadence := MedianInterval(e.starts);
      if cadence > MAX_PROBE_CADENCE_MS then None
      else
        var numbers := UniqueInts(e.numbers);
        Some(Symptom(ProbeReturnsRST, "info", "medium", e.flow, |numbers|, numbers,
                     SmallestInt(e.starts), LargestInt(e.starts), ProbeDetail(e.total, cadence, e.rst)))
  }

  function AsList(s: Option<Symptom>): seq<Symptom> {
    if s.Some? then [s.value] else []
  }

  /** The symptom under one key, if any. */
  function KeySymptom(key: string, groups: seq<Group>, scope: Option<Scope>): Option<Symptom> {
    var flows := FlowsOf(key, groups, scope);
    if flows == [] then None else ProbeSymptom(Aggregate(flows))
  }

  function KeyPart(groups: seq<Group>, scope: Option<Scope>): string -> seq<Symptom> {
    (key: string) => AsList(KeySymptom(key, groups, scope))
  }

  /** The symptoms of the keys in this order. */
  function SymptomsOf(keys: seq<string>, groups: seq<Group>, scope: Option<Scope>): seq<Symptom> {
    Collect(KeyPart(groups, scope), keys)
  }

  /** What the aggregate of some flows holds. */
  lemma {:induction false} AggregateExact(flows: seq<Group>)
    requires flows != [] && forall g | g in flows :: FirstSYN(g).Some?
    ensures var e := Aggregate(flows);
            && e.flow == KeyFlow(flows[0].flow)
            && e.total == |flows| && e.starts == Starts(flows)
            && e.rst == |Filter(HasServerRST, flows)| <= e.total
  {
    if |flows| == 1 {
      assert flows == [flows[0]];
    } else {
      var init, last := flows[..|flows| - 1], flows[|flows| - 1];
      assert flows == init + [last];
      AggregateExact(init);
      assert Starts(flows) == Starts(init) + [FirstSYN(last).value.timeMS];
      ResetCountAppend(init, last);
    }
  }

  lemma ResetCountAppend(flows: seq<Group>, g: Group)
    ensures |Filter(HasServerRST, flows + [g])| == |Filter(HasServerRST, flows)| + if HasServerRST(g) then 1 else 0
  {
    FilterConcat(HasServerRST, flows, [g]);
    assert Filter(HasServerRST, [g]) == if HasServerRST(g) then [g] else [];
  }

  function Starts(flows: seq<Group>): (r: seq<int>)
    requires forall g | g in flows :: FirstSYN(g).Some?
  {
    seq(|flows|, i requires 0 <= i < |flows| => FirstSYN(flows[i]).value.timeMS)
  }

  /** No client payload of the flow is above the bound. */
  predicate SmallPayloads(g: Group, bound: int) {
    forall p | p in g.packets && Direction(g.flow, p) == 1 :: p.tcpLen <= bound
  }

  lemma SmallIffMax(g: Group, bound: nat)
    ensures SmallPayloads(g, bound) <==> MaxPayload(g.flow, g.packets) <= bound
  {
    MaxPayloadExact(g.flow, g.packets);
  }

  /** The largest client payload of an aggregate is within a bound exactly if that of every flow is. */
  lemma {:induction false} AggregatePayload(flows: seq<Group>, bound: nat)
    requires flows != [] && forall g | g in flows :: FirstSYN(g).Some?
    ensures Aggregate(flows).maxPayload <= bound <==> forall g | g in flows :: SmallPayloads(g, bound)
  {
    var init, last := flows[..|flows| - 1], flows[|flows| - 1];
    assert flows == init + [last];
    SmallIffMax(last, bound);
    if |flows| > 1 {
      AggregatePayload(init, bound);
      assert forall g :: g in flows <==> g in init || g == last;
    } else {
      assert flows == [last];
    }
  }

  /** What makes flows under one key a monitor that is answered with resets: enough of them, small client payloads
      only, at least nine tenths reset by the server, and a short median gap between their starts. */
  ghost predicate IsMonitored(flows: seq<Group>)
    requires forall g | g in flows :: FirstSYN(g).Some?
  {
    && |flows| >= MIN_PROBE_COUNT
    && (forall g | g in flows :: SmallPayloads(g, MAX_PROBE_PAYLOAD))
    && 10 * |Filter(HasServerRST, flows)| >= 9 * |flows|
    && MedianInterval(Starts(flows)) <= MAX_PROBE_CADENCE_MS
  }

  /** What a report says about the flows behind it. */
  ghost predicate Describes(s: Symptom, flows: seq<Group>)
    requires forall g | g in flows :: FirstSYN(g).Some?
  {
    && s.code == ProbeReturnsRST
    && s.detail == ProbeDetail(|flows|, MedianInterval(Starts(flows)), |Filter(HasServerRST, flows)|)
    && |Filter(HasServerRST, flows)| <= |flows|
    && IsLeast(s.firstMS, Starts(flows)) && IsGreatest(s.lastMS, Starts(flows))
    && StrictlyIncreasing(s.packetNumbers) && s.packetCount == |s.packetNumbers|
    && forall n :: n in s.packetNumbers <==> InEvidence(n, flows)
  }

  /** The number of the SYN of one of the flows, or of a reset that its server sent. */
  ghost predicate InEvidence(n: int, flows: seq<Group>)
    requires forall g | g in flows :: FirstSYN(g).Some?
  {
    exists g :: g in flows && (n == FirstSYN(g).value.number || IsResetNumber(n, g))
  }

  ghost predicate IsResetNumber(n: int, g: Group) {
    exists p :: p in g.packets && IsServerRST(g.flow, p) && p.number == n && n > 0
  }

  predicate IsLeast(m: int, s: seq<int>) { m in s && forall x | x in s :: m <= x }

  predicate IsGreatest(m: int, s: seq<int>) { m in s && forall x | x in s :: x <= m }

  lemma {:induction false} ExtremeInts(s: seq<int>)
    requires s != []
    ensures IsLeast(SmallestInt(s), s) && IsGreatest(LargestInt(s), s)
  {
    var init, last := s[..|s| - 1], s[|s| - 1];
    assert s == init + [last];
    if |s| > 1 { ExtremeInts(init); }
  }

  lemma ResetNumbersMember(g: Group, n: int)
    ensures n in ServerRSTNumbers(g) <==> IsResetNumber(n, g)
    ensures n in ServerRSTNumbers(g) ==> HasServerRST(g)
  {
    FilterMember((p: Packet) => IsServerRST(g.flow, p), g.packets);
    PositiveNumbersMember(Filter((p: Packet) => IsServerRST(g.flow, p), g.packets));
  }

  /** The frame numbers an aggregate collects. */
  lemma {:induction false} AggregateNumbers(flows: seq<Group>, n: int)
    requires flows != [] && forall g | g in flows :: FirstSYN(g).Some?
    ensures n in Aggregate(flows).numbers <==> InEvidence(n, flows)
  {
    var init, last := flows[..|flows| - 1], flows[|flows| - 1];
    assert flows == init + [last];
    ResetNumbersMember(last, n);
    if |flows| > 1 {
      AggregateNumbers(init, n);
      InEvidenceAppend(n, init, last);
    } else {
      InEvidenceAppend(n, [], last);
      assert [] + [last] == flows;
    }
  }

  lemma InEvidenceAppend(n: int, flows: seq<Group>, g: Group)
    requires FirstSYN(g).Some? && forall f | f in flows :: FirstSYN(f).Some?
    ensures InEvidence(n, flows + [g]) <==> InEvidence(n, flows) || n == FirstSYN(g).value.number || IsResetNumber(n, g)
  {
    var all := flows + [g];
    assert forall f :: f in all <==> f in flows || f == g;
    if InEvidence(n, flows) {
      var f :| f in flows && (n == FirstSYN(f).value.number || IsResetNumber(n, f));
      assert f in all;
    }
    assert g in all;
  }

  /** The entry of these flows is reported exactly if they are monitored. */
  lemma ProbeIff(flows: seq<Group>)
    requires flows != [] && forall g | g in flows :: FirstSYN(g).Some?
    ensures ProbeSymptom(Aggregate(flows)).Some? <==> IsMonitored(flows)
  {
    AggregateExact(flows);
    AggregatePayload(flows, MAX_PROBE_PAYLOAD);
  }

  lemma ReportedProbe(flows: seq<Group>)
    requires flows != [] && forall g | g in flows :: FirstSYN(g).Some?
    requires ProbeSymptom(Aggregate(flows)).Some?
    ensures Describes(ProbeSymptom(Aggregate(flows)).value, flows)
  {
    var e := Aggregate(flows);
    AggregateExact(flows);
    ReportedFields(e);
    ExtremeInts(e.starts);
    forall n
      ensures n in e.numbers <==> InEvidence(n, flows)
    {
      AggregateNumbers(flows, n);
    }
  }

  lemma ReportedFields(e: Probe)
    requires ProbeSymptom(e).Some?
    ensures var s := ProbeSymptom(e).value;
            && s.code == ProbeReturnsRST && s.detail == ProbeDetail(e.total, MedianInterval(e.starts), e.rst)
            && s.firstMS == SmallestInt(e.starts) && s.lastMS == LargestInt(e.starts)
            && StrictlyIncreasing(s.packetNumbers) && s.packetCount == |s.packetNumbers|
            && forall n :: n in s.packetNumbers <==> n in e.numbers
  {
    UniqueIntsExact(e.numbers);
  }

  /** A key is reported exactly if its flows, which are all the in-scope flows with an initial SYN under that key,
      are monitored; and the report gives their number, the number of them that the server reset, the median gap
      between their starts, the first and the last start, and exactly the frame numbers of their SYNs and resets. */
  lemma ProbeStatistics(key: string, groups: seq<Group>, scope: Option<Scope>)
    ensures forall g :: g in FlowsOf(key, groups, scope) <==>
            g in groups && TakesPart(scope, g) && ProbeKey(g.flow) == key
    ensures KeySymptom(key, groups, scope).Some? <==> IsMonitored(FlowsOf(key, groups, scope))
    ensures KeySymptom(key, groups, scope).Some? ==>
              Describes(KeySymptom(key, groups, scope).value, FlowsOf(key, groups, scope))
  {
    var flows := FlowsOf(key, groups, scope);
    FlowsOfMember(key, groups, scope);
    if flows != [] {
      ProbeIff(flows);
      if ProbeSymptom(Aggregate(flows)).Some? { ReportedProbe(flows); }
    }
  }

  // ---------- the loops of the program ----------

  lemma FlowsOfAppend(key: string, before: seq<Group>, g: Group, scope: Option<Scope>)
    ensures FlowsOf(key, before + [g], scope) ==
            if TakesPart(scope, g) && ProbeKey(g.flow) == key then FlowsOf(key, before, scope) + [g]
            else FlowsOf(key, before, scope)
  {
    FilterConcat((h: Group) => TakesPart(scope, h) && ProbeKey(h.flow) == key, before, [g]);
  }

  lemma AggregateAppend(flows: seq<Group>, g: Group)
    requires FirstSYN(g).Some? && forall f | f in flows :: FirstSYN(f).Some?
    ensures Aggregate(flows + [g]) == AddFlow(if flows == [] then NewProbe(g) else Aggregate(flows), g)
  {
    assert (flows + [g])[..|flows|] == flows;
  }

  function NewProbe(g: Group): Probe { Probe(KeyFlow(g.flow), [], [], 0, 0, 0) }

  lemma FlowsUnderKey(key: string, groups: seq<Group>, scope: Option<Scope>)
    ensures FlowsOf(key, groups, scope) != [] <==> key in ProbeKeys(groups, scope)
  {
    FlowsOfMember(key, groups, scope);
  }

  /** The entry is the aggregate of the flows under the key. */
  ghost predicate IsEntry(e: Probe, key: string, groups: seq<Group>, scope: Option<Scope>) {
    FlowsOf(key, groups, scope) != [] && e == Aggregate(FlowsOf(key, groups, scope))
  }

  /** The map holds the aggregate of every key. */
  ghost predicate Collected(probes: map<string, Probe>, groups: seq<Group>, scope: Option<Scope>) {
    && (forall k :: k in probes <==> k in ProbeKeys(groups, scope))
    && (forall k | k in probes :: IsEntry(probes[k], k, groups, scope))
  }

  lemma CollectedStep(probes: map<string, Probe>, before: seq<Group>, g: Group, scope: Option<Scope>)
    requires Collected(probes, before, scope) && TakesPart(scope, g)
    ensures var key := ProbeKey(g.flow);
            Collected(probes[key := AddFlow(if key in probes then probes[key] else NewProbe(g), g)],
                      before + [g], scope)
  {
    var key := ProbeKey(g.flow);
    var next := probes[key := AddFlow(if key in probes then probes[key] else NewProbe(g), g)];
    KeysAppend(before, g, scope);
    forall k | k in next
      ensures IsEntry(next[k], k, before + [g], scope)
    {
      if k == key { EntryStep(probes, before, g, scope); } else { EntryKept(probes[k], k, before, g, scope); }
    }
  }

  lemma KeysAppend(before: seq<Group>, g: Group, scope: Option<Scope>)
    ensures forall k :: k in ProbeKeys(before + [g], scope) <==>
              k in ProbeKeys(before, scope) || (TakesPart(scope, g) && k == ProbeKey(g.flow))
  {
    assert (before + [g])[..|before|] == before;
  }

  lemma EntryKept(e: Probe, k: string, before: seq<Group>, g: Group, scope: Option<Scope>)
    requires IsEntry(e, k, before, scope) && !(TakesPart(scope, g) && ProbeKey(g.flow) == k)
    ensures IsEntry(e, k, before + [g], scope)
  {
    FlowsOfAppend(k, before, g, scope);
  }

  /** The entry of the flow's own key. */
  lemma EntryStep(probes: map<string, Probe>, before: seq<Group>, g: Group, scope: Option<Scope>)
    requires Collected(probes, before, scope) && TakesPart(scope, g)
    ensures var key := ProbeKey(g.flow);
            IsEntry(AddFlow(if key in probes then probes[key] else NewProbe(g), g), key, before + [g], scope)
  {
    var key := ProbeKey(g.flow);
    FlowsUnderKey(key, before, scope);
    FlowsOfAppend(key, before, g, scope);
    AggregateAppend(FlowsOf(key, before, scope), g);
  }

  lemma CollectedSkip(probes: map<string, Probe>, before: seq<Group>, g: Group, scope: Option<Scope>)
    requires Collected(probes, before, scope) && !TakesPart(scope, g)
    ensures Collected(probes, before + [g], scope)
  {
    KeysAppend(before, g, scope);
    forall k | k in probes
      ensures IsEntry(probes[k], k, before + [g], scope)
    {
      EntryKept(probes[k], k, before, g, scope);
    }
  }

  /** One entry per key, updated flow by flow. */
  method CollectProbes(groups: seq<Group>, scope: Option<Scope>) returns (probes: map<string, Probe>)
    ensures Collected(probes, groups, scope)
  {
    probes := map[];
    for i := 0 to |groups|
      invariant Collected(probes, groups[..i], scope)
    {
      var g := groups[i];
      assert groups[..i + 1] == groups[..i] + [g];
      if !InScope(g.flow, scope) {
        CollectedSkip(probes, groups[..i], g, scope);
      } else {
        var start := FirstSYN(g);
        if start.None? {
          CollectedSkip(probes, groups[..i], g, scope);
        } else {
          CollectedStep(probes, groups[..i], g, scope);
          var key := ProbeKey(g.flow);
          var entry := if key in probes then probes[key] else NewProbe(g);
          probes := probes[key := AddFlow(entry, g)];
        }
      }
    }
    assert groups[..|groups|] == groups;
  }

  /** Takes the keys of the map in whatever order it yields them. */
  method SomeOrder(keys: set<string>) returns (order: seq<string>)
    ensures NoDuplicates(order) && forall k :: k in order <==> k in keys
  {
    order := [];
    var todo := keys;
    while todo != {}
      invariant NoDuplicates(order)
      invariant forall k :: k in keys <==> k in order || k in todo
      invariant forall k | k in order :: k !in todo
      decreases todo
    {
      var key :| key in todo;
      order, todo := order + [key], todo - {key};
    }
  }

  lemma EntrySymptom(probes: map<string, Probe>, key: string, groups: seq<Group>, scope: Option<Scope>)
    requires Collected(probes, groups, scope) && key in ProbeKeys(groups, scope)
    ensures key in probes && AsList(ProbeSymptom(probes[key])) == KeyPart(groups, scope)(key)
  {
  }

  /** The symptoms of all entries, in whatever order the map yields its keys. */
  method DiagnoseProbes(groups: seq<Group>, scope: Option<Scope>) returns (symptoms: seq<Symptom>, order: seq<string>)
    ensures IsOrder(order, groups, scope)
    ensures symptoms == SymptomsOf(order, groups, scope)
  {
    var probes := CollectProbes(groups, scope);
    order := SomeOrder(probes.Keys);
    assert IsOrder(order, groups, scope);
    symptoms := [];
    ghost var part := KeyPart(groups, scope);
    for i := 0 to |order|
      invariant symptoms == Collect(part, order[..i])
    {
      assert order[i] in order;
      EntrySymptom(probes, order[i], groups, scope);
      CollectNext(part, order, i);
      symptoms := symptoms + AsList(ProbeSymptom(probes[order[i]]));
    }
    assert order[..|order|] == order;
  }

  /** A listing of the probe keys, each once: what iterating over the map may yield. */
  ghost predicate IsOrder(order: seq<string>, groups: seq<Group>, scope: Option<Scope>) {
    NoDuplicates(order) && forall k :: k in order <==> k in ProbeKeys(groups, scope)
  }

  /** Two flows count under one key exactly if they share source, destination and destination port. */
  lemma ProbeKeyExact(f: Flow, g: Flow)
    requires f.protocol == g.protocol && '-' !in f.srcIP && '-' !in g.srcIP && f.dstPort > 0 && g.dstPort > 0
    ensures ProbeKey(f) == ProbeKey(g) <==> KeyFlow(f) == KeyFlow(g)
  {
    if ProbeKey(f) == ProbeKey(g) {
      var s, t := f.dstIP + ":" + Itoa(f.dstPort) + "/" + f.protocol,
                  g.dstIP + ":" + Itoa(g.dstPort) + "/" + g.protocol;
      FirstSeparator(f.srcIP, s, g.srcIP, t, '-');
      var a, b := Endpoint(f.dstIP, f.dstPort), Endpoint(g.dstIP, g.dstPort);
      assert EndpointText(a) == s[..|s| - |f.protocol| - 1] == t[..|t| - |g.protocol| - 1] == EndpointText(b);
      EndpointTextInjective(a, b);
    }
  }

  /** Flows whose probe keys cannot be confused. */
  predicate ClearKey(f: Flow) {
    '-' !in f.srcIP && f.dstPort > 0
  }

  /** The in-scope flows with an initial SYN between these two hosts to this port. */
  function ProbesOf(f: Flow, groups: seq<Group>, scope: Option<Scope>): seq<Group> {
    Filter((g: Group) => TakesPart(scope, g) && KeyFlow(g.flow) == KeyFlow(f), groups)
  }

  lemma ProbesAreFlowsOf(f: Flow, groups: seq<Group>, scope: Option<Scope>)
    requires ClearKey(f) && forall g | g in groups :: ClearKey(g.flow) && g.flow.protocol == f.protocol
    ensures ProbesOf(f, groups, scope) == FlowsOf(ProbeKey(f), groups, scope)
  {
    forall g | g in groups
      ensures ProbeKey(g.flow) == ProbeKey(f) <==> KeyFlow(g.flow) == KeyFlow(f)
    {
      ProbeKeyExact(g.flow, f);
    }
    FilterSame((g: Group) => TakesPart(scope, g) && KeyFlow(g.flow) == KeyFlow(f),
               (g: Group) => TakesPart(scope, g) && ProbeKey(g.flow) == ProbeKey(f), groups);
  }

  /** Told by hosts and port: for a source, a destination and a destination port there is a report exactly if the
      in-scope flows with an initial SYN between them are monitored, and it describes exactly these flows. */
  lemma MonitorStatistics(f: Flow, groups: seq<Group>, scope: Option<Scope>)
    requires ClearKey(f) && forall g | g in groups :: ClearKey(g.flow) && g.flow.protocol == f.protocol
    ensures forall g :: g in ProbesOf(f, groups, scope) <==>
            g in groups && TakesPart(scope, g) && KeyFlow(g.flow) == KeyFlow(f)
    ensures KeySymptom(ProbeKey(f), groups, scope).Some? <==> IsMonitored(ProbesOf(f, groups, scope))
    ensures KeySymptom(ProbeKey(f), groups, scope).Some? ==>
              Describes(KeySymptom(ProbeKey(f), groups, scope).value, ProbesOf(f, groups, scope))
  {
    FilterMember((g: Group) => TakesPart(scope, g) && KeyFlow(g.flow) == KeyFlow(f), groups);
    ProbesAreFlowsOf(f, groups, scope);
    ProbeStatistics(ProbeKey(f), groups, scope);
  }
}
