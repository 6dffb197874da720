/** The whole symptom detection: all detectors over all flows, the gating findings, the confidence of symptoms
    that rest on cut packets, and the order of the report. */
module Diagnosis {
  import opened ByteStrings
  import opened Sorting
  import opened Packets
  import opened FlowGrouping
  import opened Evidence
  import opened HandshakeReset
  import opened FlowDetectors
  import opened MonitorProbes

  const MIN_CADENCE_WINDOW_MS := 90000

  datatype Finding = WindowTooShort | LacksInterfaceMetadata

  const ALL_CODES: set<Code> := {TLSOnPlainPort, RSTAfterSYNACK, ProbeReturnsRST, AsymmetricPath}

  function Rank(c: Code): nat {
    match c
    case TLSOnPlainPort => 0
    case RSTAfterSYNACK => 1
    case ProbeReturnsRST => 2
    case AsymmetricPath => 3
  }

  function CodeName(c: Code): string {
    match c
    case TLSOnPlainPort => "tls_handshake_attempted_on_plain_port"
    case RSTAfterSYNACK => "tcp_rst_after_synack_no_app_data"
    case ProbeReturnsRST => "monitor_probe_returns_rst"
    case AsymmetricPath => "asymmetric_return_path_observed"
  }

  /** The comparison of the report's stable sort. */
  predicate SymptomLess(a: Symptom, b: Symptom) {
    if Rank(a.code) != Rank(b.code) then Rank(a.code) < Rank(b.code)
    else if a.firstMS == b.firstMS then StrLess(CodeName(a.code), CodeName(b.code))
    else a.firstMS < b.firstMS
  }

  /** The selected detectors; no filter means all of them. */
  function Enabled(filter: seq<Code>): set<Code> {
    if filter == [] then ALL_CODES else set c | c in filter
  }

  // ---------- what the detectors produce ----------

  function GroupSymptoms(g: Group, enabled: set<Code>): seq<Symptom> {
    (if TLSOnPlainPort in enabled then AsList(TLSSymptom(g)) else [])
    + (if RSTAfterSYNACK in enabled then AsList(ResetSymptom(g)) else [])
  }

  function FlowPart(enabled: set<Code>, scope: Option<Scope>): Group -> seq<Symptom> {
    (g: Group) => if InScope(g.flow, scope) then GroupSymptoms(g, enabled) else []
  }

  function FlowSymptoms(groups: seq<Group>, enabled: set<Code>, scope: Option<Scope>): seq<Symptom> {
    Collect(FlowPart(enabled, scope), groups)
  }

  function PathOf(scope: Option<Scope>): Group -> seq<Symptom> {
    (g: Group) => if InScope(g.flow, scope) then AsList(PathSymptom(g)) else []
  }

  function PathSymptoms(groups: seq<Group>, scope: Option<Scope>): seq<Symptom> {
    Collect(PathOf(scope), groups)
  }

  function CaptureDuration(packets: seq<Packet>): int {
    if |packets| < 2 then 0 else LastMS(packets) - FirstMS(packets)
  }

  predicate HasInterfaceMetadata(packets: seq<Packet>) {
    var names := set p | p in packets && p.interfaceName != "" :: p.interfaceName;
    var ids := set p | p in packets && p.interfaceID != "" :: p.interfaceID;
    |names| > 0 || |ids| > 1
  }

  function ProbePart(packets: seq<Packet>, enabled: set<Code>, scope: Option<Scope>, order: seq<string>): seq<Symptom>
  {
    if ProbeReturnsRST in enabled && CaptureDuration(packets) >= MIN_CADENCE_WINDOW_MS
    then SymptomsOf(order, FlowGroups(packets), scope) else []
  }

  function PathPart(packets: seq<Packet>, enabled: set<Code>, scope: Option<Scope>): seq<Symptom> {
    if AsymmetricPath in enabled && HasInterfaceMetadata(packets) then PathSymptoms(FlowGroups(packets), scope) else []
  }

  /** `order` is the order in which the map of probes is iterated. */
  function RawSymptoms(packets: seq<Packet>, enabled: set<Code>, scope: Option<Scope>, order: seq<string>): seq<Symptom>
  {
    FlowSymptoms(FlowGroups(packets), enabled, scope)
    + ProbePart(packets, enabled, scope, order)
    + PathPart(packets, enabled, scope)
  }

  function ProbeFindings(packets: seq<Packet>, enabled: set<Code>): seq<Finding> {
    if ProbeReturnsRST in enabled && CaptureDuration(packets) < MIN_CADENCE_WINDOW_MS then [WindowTooShort] else []
  }

  function PathFindings(packets: seq<Packet>, enabled: set<Code>): seq<Finding> {
    if AsymmetricPath in enabled && !HasInterfaceMetadata(packets) then [LacksInterfaceMetadata] else []
  }

  function Findings(packets: seq<Packet>, enabled: set<Code>): seq<Finding> {
    ProbeFindings(packets, enabled) + PathFindings(packets, enabled)
  }

  function CutNumbers(packets: seq<Packet>): set<int> {
    set p | p in packets && p.Truncated() :: p.number
  }

  function Lower(cut: set<int>, s: Symptom): Symptom {
    if exists n :: n in s.packetNumbers && n in cut then s.(confidence := "low") else s
  }

  function Lowered(cut: set<int>): Symptom -> seq<Symptom> {
    (s: Symptom) => [Lower(cut, s)]
  }

  function LowerAll(cut: set<int>, s: seq<Symptom>): seq<Symptom> {
    Collect(Lowered(cut), s)
  }

  function Report(packets: seq<Packet>, enabled: set<Code>, scope: Option<Scope>, order: seq<string>): seq<Symptom> {
    Sort(SymptomLess, LowerAll(CutNumbers(packets), RawSymptoms(packets, enabled, scope, order)))
  }

  // ---------- the loops of the program ----------

  method DiagnoseGroup(g: Group, enabled: set<Code>) returns (symptoms: seq<Symptom>)
    ensures symptoms == GroupSymptoms(g, enabled)
  {
    symptoms := [];
    if TLSOnPlainPort in enabled {
      var s := DiagnoseTLS(g);
      if s.Some? { symptoms := symptoms + [s.value]; }
    }
    if RSTAfterSYNACK in enabled {
      var s := DiagnoseReset(g);
      if s.Some? { symptoms := symptoms + [s.value]; }
    }
  }

  method DiagnoseFlows(groups: seq<Group>, enabled: set<Code>, scope: Option<Scope>) returns (symptoms: seq<Symptom>)
    ensures symptoms == FlowSymptoms(groups, enabled, scope)
  {
    symptoms := [];
    ghost var part := FlowPart(enabled, scope);
    for i := 0 to |groups|
      invariant symptoms == Collect(part, groups[..i])
    {
      CollectNext(part, groups, i);
      if !InScope(groups[i].flow, scope) { continue; }
      var found := DiagnoseGroup(groups[i], enabled);
      symptoms := symptoms + found;
    }
    assert groups[..|groups|] == groups;
  }

  method DiagnosePaths(groups: seq<Group>, scope: Option<Scope>) returns (symptoms: seq<Symptom>)
    ensures symptoms == PathSymptoms(groups, scope)
  {
    symptoms := [];
    ghost var part := PathOf(scope);
    for i := 0 to |groups|
      invariant symptoms == Collect(part, groups[..i])
    {
      CollectNext(part, groups, i);
      if !InScope(groups[i].flow, scope) { continue; }
      var s := DiagnosePath(groups[i]);
      if s.Some? { symptoms := symptoms + [s.value]; }
    }
    assert groups[..|groups|] == groups;
  }

  /** Lowers the confidence symptom by symptom; with no cut packet there is nothing to do. */
  method LowerCut(packets: seq<Packet>, symptoms: seq<Symptom>) returns (r: seq<Symptom>)
    ensures r == LowerAll(CutNumbers(packets), symptoms)
  {
    var cut: set<int> := {};
    for i := 0 to |packets|
      invariant cut == CutNumbers(packets[..i])
    {
      assert packets[..i + 1] == packets[..i] + [packets[i]];
      if packets[i].Truncated() { cut := cut + {packets[i].number}; }
    }
    assert packets[..|packets|] == packets;
    r := symptoms;
    LowerAllAt(cut, symptoms);
    if |cut| > 0 {
      for i := 0 to |r|
        invariant |r| == |symptoms|
        invariant forall j | 0 <= j < |r| :: r[j] == if j < i then Lower(cut, symptoms[j]) else symptoms[j]
      {
        r := r[i := Lower(cut, r[i])];
      }
    }
  }

  lemma {:induction false} LowerAllAt(cut: set<int>, s: seq<Symptom>)
    ensures |LowerAll(cut, s)| == |s|
    ensures forall i | 0 <= i < |s| :: LowerAll(cut, s)[i] == Lower(cut, s[i])
  {
    if s != [] { LowerAllAt(cut, s[1..]); }
  }

  /** The probe detector behind its gate. */
  method DiagnoseProbePart(packets: seq<Packet>, groups: seq<Group>, enabled: set<Code>, scope: Option<Scope>)
    returns (symptoms: seq<Symptom>, findings: seq<Finding>, ghost order: seq<string>)
    requires groups == FlowGroups(packets)
    ensures IsOrder(order, groups, scope)
    ensures symptoms == ProbePart(packets, enabled, scope, order) && findings == ProbeFindings(packets, enabled)
  {
    symptoms, findings, order := [], [], ProbeKeys(groups, scope);
    ProbeKeysMember(groups, scope);
    if ProbeReturnsRST in enabled {
      if CaptureDuration(packets) < MIN_CADENCE_WINDOW_MS {
        findings := [WindowTooShort];
      } else {
        symptoms, order := DiagnoseProbes(groups, scope);
      }
    }
  }

  /** The path detector behind its gate. */
  method DiagnosePathPart(packets: seq<Packet>, groups: seq<Group>, enabled: set<Code>, scope: Option<Scope>)
    returns (symptoms: seq<Symptom>, findings: seq<Finding>)
    requires groups == FlowGroups(packets)
    ensures symptoms == PathPart(packets, enabled, scope) && findings == PathFindings(packets, enabled)
  {
    symptoms, findings := [], [];
    if AsymmetricPath in enabled {
      if !HasInterfaceMetadata(packets) {
        findings := [LacksInterfaceMetadata];
      } else {
        symptoms := DiagnosePaths(groups, scope);
      }
    }
  }

  /** The detection as the program runs it. The order of the probes is the one the map happened to yield. */
  method DiagnoseSymptoms(packets: seq<Packet>, filter: seq<Code>, scope: Option<Scope>)
    returns (symptoms: seq<Symptom>, findings: seq<Finding>, ghost order: seq<string>)
    ensures IsOrder(order, FlowGroups(packets), scope)
    ensures symptoms == Report(packets, Enabled(filter), scope, order) && findings == Findings(packets, Enabled(filter))
  {
    var enabled := Enabled(filter);
    var groups := ComputeFlowGroups(packets);
    var flows := DiagnoseFlows(groups, enabled, scope);
    var probes, findings1;
    probes, findings1, order := DiagnoseProbePart(packets, groups, enabled, scope);
    var paths, findings2 := DiagnosePathPart(packets, groups, enabled, scope);
    findings := findings1 + findings2;
    var lowered := LowerCut(packets, flows + probes + paths);
    symptoms := Sort(SymptomLess, lowered);
  }

  // ---------- what a report is ----------

  /** The report is the raw symptoms in the order of detector and first time, ties in the order of detection; nothing
      but the confidence changes, and it becomes low exactly for evidence that holds a cut packet. */
  lemma ReportExact(packets: seq<Packet>, enabled: set<Code>, scope: Option<Scope>, order: seq<string>)
    ensures var raw := RawSymptoms(packets, enabled, scope, order);
            var lowered := LowerAll(CutNumbers(packets), raw);
            var report := Report(packets, enabled, scope, order);
            && SortedBy(SymptomLess, report) && multiset(report) == multiset(lowered) && |lowered| == |raw|
            && (forall c, t :: Filter(SameTie(c, t), report) == Filter(SameTie(c, t), lowered))
            && forall i | 0 <= i < |raw| ::
                 lowered[i] == raw[i].(confidence := if Touches(packets, raw[i]) then "low" else raw[i].confidence)
  {
    var cut, raw := CutNumbers(packets), RawSymptoms(packets, enabled, scope, order);
    var lowered := LowerAll(cut, raw);
    SymptomLessStrictWeak();
    SortSorted(SymptomLess, lowered);
    SortMultiset(SymptomLess, lowered);
    LowerAllAt(cut, raw);
    forall c, t
      ensures Filter(SameTie(c, t), Sort(SymptomLess, lowered)) == Filter(SameTie(c, t), lowered)
    {
      FilterSort(SymptomLess, SameTie(c, t), lowered);
      FilterMember(SameTie(c, t), lowered);
      TiesStay(Filter(SameTie(c, t), lowered), c, t);
    }
    forall i | 0 <= i < |raw|
      ensures lowered[i] == raw[i].(confidence := if Touches(packets, raw[i]) then "low" else raw[i].confidence)
    {
      TouchesIff(packets, raw[i]);
    }
  }

  /** Symptoms that the sort leaves in the order in which they were found. */
  function SameTie(c: Code, firstMS: int): Symptom -> bool {
    (s: Symptom) => s.code == c && s.firstMS == firstMS
  }

  ghost predicate Touches(packets: seq<Packet>, s: Symptom) {
    exists p :: p in packets && p.Truncated() && p.number in s.packetNumbers
  }

  lemma TouchesIff(packets: seq<Packet>, s: Symptom)
    ensures Lower(CutNumbers(packets), s) == s.(confidence := if Touches(packets, s) then "low" else s.confidence)
  {
  }

  lemma TiesStay(s: seq<Symptom>, c: Code, t: int)
    requires forall x | x in s :: x.code == c && x.firstMS == t
    ensures Sort(SymptomLess, s) == s
  {
    forall x, y | x in s && y in s
      ensures !SymptomLess(x, y)
    {
      StrLessIrreflexive(CodeName(c));
    }
    SortTies(SymptomLess, s);
  }

  // ---------- filtering commutes with the detection ----------

  lemma SymptomLessStrictWeak()
    ensures StrictWeak(SymptomLess)
    ensures forall a, b :: !SymptomLess(a, b) && !SymptomLess(b, a) ==> a.code == b.code && a.firstMS == b.firstMS
  {
    forall a: Symptom, b: Symptom
      ensures Rank(a.code) == Rank(b.code) ==> a.code == b.code
      ensures SymptomLess(a, b) <==> Rank(a.code) < Rank(b.code) || (a.code == b.code && a.firstMS < b.firstMS)
    {
      StrLessIrreflexive(CodeName(a.code));
    }
  }

  function Selects(enabled: set<Code>): Symptom -> bool {
    (s: Symptom) => s.code in enabled
  }

  function Only(enabled: set<Code>, s: seq<Symptom>): seq<Symptom> {
    Filter(Selects(enabled), s)
  }

  lemma OnlyGroup(g: Group, enabled: set<Code>)
    ensures Only(enabled, GroupSymptoms(g, ALL_CODES)) == GroupSymptoms(g, enabled)
  {
    FilterConcat(Selects(enabled), AsList(TLSSymptom(g)), AsList(ResetSymptom(g)));
    FilterUniform(Selects(enabled), AsList(TLSSymptom(g)), TLSOnPlainPort in enabled);
    FilterUniform(Selects(enabled), AsList(ResetSymptom(g)), RSTAfterSYNACK in enabled);
  }

  lemma OnlyFlowSymptoms(groups: seq<Group>, enabled: set<Code>, scope: Option<Scope>)
    ensures Only(enabled, FlowSymptoms(groups, ALL_CODES, scope)) == FlowSymptoms(groups, enabled, scope)
  {
    var all, some := FlowPart(ALL_CODES, scope), FlowPart(enabled, scope);
    forall g | g in groups
      ensures Filter(Selects(enabled), all(g)) == some(g)
    {
      OnlyGroup(g, enabled);
    }
    FilterCollect(Selects(enabled), all, some, groups);
  }

  lemma {:induction false} CollectCode<A>(f: A -> seq<Symptom>, s: seq<A>, c: Code)
    requires forall x | x in s :: forall y | y in f(x) :: y.code == c
    ensures forall y | y in Collect(f, s) :: y.code == c
  {
    if s != [] {
      assert s[0] in s;
      CollectCode(f, s[1..], c);
    }
  }

  lemma OnlyProbes(keys: seq<string>, groups: seq<Group>, enabled: set<Code>, scope: Option<Scope>)
    ensures Only(enabled, SymptomsOf(keys, groups, scope)) ==
            if ProbeReturnsRST in enabled then SymptomsOf(keys, groups, scope) else []
  {
    CollectCode(KeyPart(groups, scope), keys, ProbeReturnsRST);
    FilterUniform(Selects(enabled), SymptomsOf(keys, groups, scope), ProbeReturnsRST in enabled);
  }

  lemma OnlyPaths(groups: seq<Group>, enabled: set<Code>, scope: Option<Scope>)
    ensures Only(enabled, PathSymptoms(groups, scope)) ==
            if AsymmetricPath in enabled then PathSymptoms(groups, scope) else []
  {
    CollectCode(PathOf(scope), groups, AsymmetricPath);
    FilterUniform(Selects(enabled), PathSymptoms(groups, scope), AsymmetricPath in enabled);
  }

  lemma OnlyParts(packets: seq<Packet>, some: set<Code>, enabled: set<Code>, scope: Option<Scope>, order: seq<string>)
    ensures Only(some, ProbePart(packets, enabled, scope, order)) == ProbePart(packets, some * enabled, scope, order)
    ensures Only(some, PathPart(packets, enabled, scope)) == PathPart(packets, some * enabled, scope)
  {
    OnlyProbes(order, FlowGroups(packets), some, scope);
    OnlyPaths(FlowGroups(packets), some, scope);
  }

  lemma OnlyRawSymptoms(packets: seq<Packet>, enabled: set<Code>, scope: Option<Scope>, order: seq<string>)
    ensures Only(enabled, RawSymptoms(packets, ALL_CODES, scope, order)) == RawSymptoms(packets, enabled, scope, order)
  {
    var flows := FlowSymptoms(FlowGroups(packets), ALL_CODES, scope);
    var probes, paths := ProbePart(packets, ALL_CODES, scope, order), PathPart(packets, ALL_CODES, scope);
    FilterConcat(Selects(enabled), flows + probes, paths);
    FilterConcat(Selects(enabled), flows, probes);
    OnlyFlowSymptoms(FlowGroups(packets), enabled, scope);
    OnlyParts(packets, enabled, ALL_CODES, scope, order);
    assert ProbePart(packets, enabled * ALL_CODES, scope, order) == ProbePart(packets, enabled, scope, order);
    assert PathPart(packets, enabled * ALL_CODES, scope) == PathPart(packets, enabled, scope);
  }

  lemma OnlyLowered(enabled: set<Code>, cut: set<int>, s: seq<Symptom>)
    ensures Only(enabled, LowerAll(cut, s)) == LowerAll(cut, Only(enabled, s))
  {
    var keep, change := Selects(enabled), Lowered(cut);
    forall x | x in s
      ensures Filter(keep, change(x)) == if keep(x) then change(x) else []
    {
      FilterUniform(keep, change(x), keep(x));
    }
    FilterChange(keep, change, s);
  }

  /** Selecting from a report is reporting from the selected raw symptoms. */
  lemma OnlyReport(packets: seq<Packet>, some: set<Code>, enabled: set<Code>, scope: Option<Scope>, order: seq<string>)
    ensures Only(some, Report(packets, enabled, scope, order)) ==
            Sort(SymptomLess, LowerAll(CutNumbers(packets), Only(some, RawSymptoms(packets, enabled, scope, order))))
  {
    SymptomLessStrictWeak();
    var raw := RawSymptoms(packets, enabled, scope, order);
    OnlyLowered(some, CutNumbers(packets), raw);
    FilterSort(SymptomLess, Selects(some), LowerAll(CutNumbers(packets), raw));
  }

  /** The detector whose gate a finding reports. */
  function Gate(f: Finding): Code {
    match f
    case WindowTooShort => ProbeReturnsRST
    case LacksInterfaceMetadata => AsymmetricPath
  }

  /** With one order of the map, running with some detectors gives exactly the selected part of running with all. */
  lemma FilterSameOrder(packets: seq<Packet>, enabled: set<Code>, scope: Option<Scope>, order: seq<string>)
    ensures Report(packets, enabled, scope, order) == Only(enabled, Report(packets, ALL_CODES, scope, order))
  {
    OnlyReport(packets, enabled, ALL_CODES, scope, order);
    OnlyRawSymptoms(packets, enabled, scope, order);
  }

  lemma FindingsSelected(packets: seq<Packet>, enabled: set<Code>)
    ensures Findings(packets, enabled) == Filter((f: Finding) => Gate(f) in enabled, Findings(packets, ALL_CODES))
  {
    var window := if CaptureDuration(packets) < MIN_CADENCE_WINDOW_MS then [WindowTooShort] else [];
    var metadata := if !HasInterfaceMetadata(packets) then [LacksInterfaceMetadata] else [];
    var keep := (f: Finding) => Gate(f) in enabled;
    assert Findings(packets, ALL_CODES) == window + metadata;
    FilterConcat((f: Finding) => Gate(f) in enabled, window, metadata);
    FilterUniform((f: Finding) => Gate(f) in enabled, window, ProbeReturnsRST in enabled);
    FilterUniform((f: Finding) => Gate(f) in enabled, metadata, AsymmetricPath in enabled);
  }

  // ---------- order independence ----------

  lemma MetadataPermuted(s: seq<Packet>, t: seq<Packet>)
    requires multiset(s) == multiset(t)
    ensures HasInterfaceMetadata(s) == HasInterfaceMetadata(t) && CutNumbers(s) == CutNumbers(t)
    ensures CaptureDuration(s) == CaptureDuration(t)
  {
    PermutedMembers(s, t);
    SameLength(s, t);
    ExtremesPermuted(s, t);
    assert (set p | p in s && p.interfaceName != "" :: p.interfaceName) ==
           (set p | p in t && p.interfaceName != "" :: p.interfaceName);
    assert (set p | p in s && p.interfaceID != "" :: p.interfaceID) ==
           (set p | p in t && p.interfaceID != "" :: p.interfaceID);
  }

  lemma OrdersPermuted(o: seq<string>, u: seq<string>, groups: seq<Group>, scope: Option<Scope>)
    requires IsOrder(o, groups, scope) && IsOrder(u, groups, scope)
    ensures multiset(SymptomsOf(o, groups, scope)) == multiset(SymptomsOf(u, groups, scope))
  {
    NoDuplicatesCount(o);
    NoDuplicatesCount(u);
    assert multiset(o) == multiset(u);
    CollectPermuted(KeyPart(groups, scope), o, u);
  }

  /** The raw symptoms of two runs differ only by the order of the probes. */
  lemma RawPermuted(s: seq<Packet>, t: seq<Packet>, enabled: set<Code>, scope: Option<Scope>, o: seq<string>,
                    u: seq<string>)
    requires multiset(s) == multiset(t) && DistinctNumbers(s)
    requires IsOrder(o, FlowGroups(s), scope) && IsOrder(u, FlowGroups(t), scope)
    ensures multiset(RawSymptoms(s, enabled, scope, o)) == multiset(RawSymptoms(t, enabled, scope, u))
    ensures o == u ==> RawSymptoms(s, enabled, scope, o) == RawSymptoms(t, enabled, scope, u)
  {
    GroupsOrderIndependent(s, t);
    MetadataPermuted(s, t);
    OrdersPermuted(o, u, FlowGroups(s), scope);
    PartsPermuted(s, t, enabled, scope, o, u);
    SwapMiddle(FlowSymptoms(FlowGroups(s), enabled, scope),
               ProbePart(s, enabled, scope, o), ProbePart(t, enabled, scope, u),
               PathPart(s, enabled, scope));
  }

  lemma PartsPermuted(s: seq<Packet>, t: seq<Packet>, enabled: set<Code>, scope: Option<Scope>, o: seq<string>,
                      u: seq<string>)
    requires FlowGroups(s) == FlowGroups(t) && CaptureDuration(s) == CaptureDuration(t)
    requires HasInterfaceMetadata(s) == HasInterfaceMetadata(t)
    requires multiset(SymptomsOf(o, FlowGroups(s), scope)) == multiset(SymptomsOf(u, FlowGroups(s), scope))
    ensures multiset(ProbePart(s, enabled, scope, o)) == multiset(ProbePart(t, enabled, scope, u))
    ensures PathPart(s, enabled, scope) == PathPart(t, enabled, scope)
    ensures o == u ==> ProbePart(s, enabled, scope, o) == ProbePart(t, enabled, scope, u)
  {
  }

  lemma SwapMiddle<T>(a: seq<T>, b: seq<T>, c: seq<T>, d: seq<T>)
    requires multiset(b) == multiset(c)
    ensures multiset(a + b + d) == multiset(a + c + d)
  {
  }

  const NOT_PROBES: set<Code> := {TLSOnPlainPort, RSTAfterSYNACK, AsymmetricPath}

  /** The same symptoms, and position by position the same code and first time. */
  ghost predicate SameUpToTies(a: seq<Symptom>, b: seq<Symptom>) {
    && multiset(a) == multiset(b) && |a| == |b|
    && (forall i | 0 <= i < |a| :: a[i].code == b[i].code && a[i].firstMS == b[i].firstMS)
  }

  /** The report does not depend on the order of the input rows, nor on the order of map iteration, except that
      probe symptoms with the same first time may change places: the symptoms are the same, position by position
      they have the same code and first time, the others are in the very same order, and the findings are equal. */
  lemma ReportOrderIndependent(s: seq<Packet>, t: seq<Packet>, enabled: set<Code>, scope: Option<Scope>,
                               o: seq<string>, u: seq<string>)
    requires multiset(s) == multiset(t) && DistinctNumbers(s)
    requires IsOrder(o, FlowGroups(s), scope) && IsOrder(u, FlowGroups(t), scope)
    ensures var a, b := Report(s, enabled, scope, o), Report(t, enabled, scope, u);
            SameUpToTies(a, b) && Only(NOT_PROBES, a) == Only(NOT_PROBES, b) && (o == u ==> a == b)
    ensures Findings(s, enabled) == Findings(t, enabled)
  {
    var cut := CutNumbers(s);
    var x, y := RawSymptoms(s, enabled, scope, o), RawSymptoms(t, enabled, scope, u);
    MetadataPermuted(s, t);
    RawPermuted(s, t, enabled, scope, o, u);
    CollectPermuted(Lowered(cut), x, y);
    SameReport(LowerAll(cut, x), LowerAll(cut, y));
    OthersUnmoved(s, t, enabled, scope, o, u);
  }

  lemma SameReport(x: seq<Symptom>, y: seq<Symptom>)
    requires multiset(x) == multiset(y)
    ensures SameUpToTies(Sort(SymptomLess, x), Sort(SymptomLess, y))
  {
    SymptomLessStrictWeak();
    SortMultiset(SymptomLess, x);
    SortMultiset(SymptomLess, y);
    SortSorted(SymptomLess, x);
    SortSorted(SymptomLess, y);
    SortedAgree(SymptomLess, Sort(SymptomLess, x), Sort(SymptomLess, y));
  }

  /** Without the probes, both runs report the same list. */
  lemma OthersUnmoved(s: seq<Packet>, t: seq<Packet>, enabled: set<Code>, scope: Option<Scope>, o: seq<string>,
                      u: seq<string>)
    requires multiset(s) == multiset(t) && DistinctNumbers(s)
    ensures Only(NOT_PROBES, Report(s, enabled, scope, o)) == Only(NOT_PROBES, Report(t, enabled, scope, u))
  {
    OnlyReport(s, NOT_PROBES, enabled, scope, o);
    OnlyReport(t, NOT_PROBES, enabled, scope, u);
    RawWithoutProbes(s, enabled, scope, o);
    RawWithoutProbes(t, enabled, scope, u);
    GroupsOrderIndependent(s, t);
    MetadataPermuted(s, t);
  }

  lemma RawWithoutProbes(s: seq<Packet>, enabled: set<Code>, scope: Option<Scope>, o: seq<string>)
    ensures Only(NOT_PROBES, RawSymptoms(s, enabled, scope, o)) ==
            Only(NOT_PROBES, FlowSymptoms(FlowGroups(s), enabled, scope)) + PathPart(s, NOT_PROBES * enabled, scope)
  {
    var flows, probes := FlowSymptoms(FlowGroups(s), enabled, scope), ProbePart(s, enabled, scope, o);
    FilterConcat(Selects(NOT_PROBES), flows + probes, PathPart(s, enabled, scope));
    FilterConcat(Selects(NOT_PROBES), flows, probes);
    OnlyParts(s, NOT_PROBES, enabled, scope, o);
    NoProbes(s, enabled, scope, o);
    DropMiddle(Only(NOT_PROBES, flows), PathPart(s, NOT_PROBES * enabled, scope));
  }

  lemma NoProbes(s: seq<Packet>, enabled: set<Code>, scope: Option<Scope>, o: seq<string>)
    ensures ProbePart(s, NOT_PROBES * enabled, scope, o) == []
  {
    assert ProbeReturnsRST !in NOT_PROBES * enabled;
  }

  lemma DropMiddle<T>(a: seq<T>, b: seq<T>)
    ensures a + [] + b == a + b
  {
  }

  // ---------- filtering, with every run's own map order ----------

  /** Two reports on the same packets differ at most by the places of tied probe symptoms. */
  lemma ReportAnyOrder(packets: seq<Packet>, enabled: set<Code>, scope: Option<Scope>, o: seq<string>, u: seq<string>)
    requires IsOrder(o, FlowGroups(packets), scope) && IsOrder(u, FlowGroups(packets), scope)
    ensures var a, b := Report(packets, enabled, scope, o), Report(packets, enabled, scope, u);
            SameUpToTies(a, b) && Only(NOT_PROBES, a) == Only(NOT_PROBES, b)
  {
    var cut := CutNumbers(packets);
    var x, y := RawSymptoms(packets, enabled, scope, o), RawSymptoms(packets, enabled, scope, u);
    RawAnyOrder(packets, enabled, scope, o, u);
    CollectPermuted(Lowered(cut), x, y);
    SameReport(LowerAll(cut, x), LowerAll(cut, y));
    OnlyReport(packets, NOT_PROBES, enabled, scope, o);
    OnlyReport(packets, NOT_PROBES, enabled, scope, u);
    RawWithoutProbes(packets, enabled, scope, o);
    RawWithoutProbes(packets, enabled, scope, u);
  }

  lemma RawAnyOrder(packets: seq<Packet>, enabled: set<Code>, scope: Option<Scope>, o: seq<string>, u: seq<string>)
    requires IsOrder(o, FlowGroups(packets), scope) && IsOrder(u, FlowGroups(packets), scope)
    ensures multiset(RawSymptoms(packets, enabled, scope, o)) == multiset(RawSymptoms(packets, enabled, scope, u))
  {
    OrdersPermuted(o, u, FlowGroups(packets), scope);
    PartsPermuted(packets, packets, enabled, scope, o, u);
    SwapMiddle(FlowSymptoms(FlowGroups(packets), enabled, scope), ProbePart(packets, enabled, scope, o),
               ProbePart(packets, enabled, scope, u), PathPart(packets, enabled, scope));
  }

  /** Running with some detectors gives exactly the selected part of another run with all of them, for any packets and
      although both runs go through the map in their own order: the same symptoms, position by position with the same
      code and first time, the others than probes in the very same order, and the same findings. Only probe symptoms
      with the same first time may change places. */
  lemma FilterCommutes(packets: seq<Packet>, enabled: set<Code>, scope: Option<Scope>, o: seq<string>, u: seq<string>)
    requires IsOrder(o, FlowGroups(packets), scope) && IsOrder(u, FlowGroups(packets), scope)
    ensures var some := Report(packets, enabled, scope, o);
            var all := Only(enabled, Report(packets, ALL_CODES, scope, u));
            SameUpToTies(some, all) && Only(NOT_PROBES, some) == Only(NOT_PROBES, all) && (o == u ==> some == all)
    ensures Findings(packets, enabled) == Filter((f: Finding) => Gate(f) in enabled, Findings(packets, ALL_CODES))
  {
    FilterSameOrder(packets, enabled, scope, u);
    ReportAnyOrder(packets, enabled, scope, o, u);
    FindingsSelected(packets, enabled);
  }
}
