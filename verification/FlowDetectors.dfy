/** Two detectors that look at one flow: TLS offered to a plain-text port, and an asymmetric return path. */
module FlowDetectors {
  import opened ByteStrings
  import opened Sorting
  import opened Packets
  import opened FlowGrouping
  import opened Evidence

  function FirstThat(test: Packet -> bool, packets: seq<Packet>): Option<Packet> {
    if packets == [] then None else if test(packets[0]) then Some(packets[0]) else FirstThat(test, packets[1..])
  }

  /** `r` is the earliest packet that passes the test, or nothing when none does. */
  ghost predicate IsFirst(test: Packet -> bool, packets: seq<Packet>, r: Option<Packet>) {
    match r
    case None => forall p | p in packets :: !test(p)
    case Some(v) =>
      exists k :: 0 <= k < |packets| && packets[k] == v && test(v) && forall j | 0 <= j < k :: !test(packets[j])
  }

  lemma {:induction false} FirstThatIsFirst(test: Packet -> bool, packets: seq<Packet>)
    ensures IsFirst(test, packets, FirstThat(test, packets))
  {
    if packets != [] && !test(packets[0]) {
      var rest := packets[1..];
      FirstThatIsFirst(test, rest);
      var r := FirstThat(test, rest);
      assert packets == [packets[0]] + rest;
      if r.Some? {
        var k :| 0 <= k < |rest| && rest[k] == r.value && test(r.value) && forall j | 0 <= j < k :: !test(rest[j]);
        assert packets[k + 1] == r.value;
        assert forall j | 0 < j < k + 1 :: packets[j] == rest[j - 1];
      }
    }
  }

  lemma {:induction false} FirstThatExact(test: Packet -> bool, packets: seq<Packet>)
    ensures FirstThat(test, packets).Some? <==> exists p :: p in packets && test(p)
    ensures FirstThat(test, packets).Some? ==>
            FirstThat(test, packets).value in packets && test(FirstThat(test, packets).value)
  {
    if packets != [] {
      FirstThatExact(test, packets[1..]);
      assert packets == [packets[0]] + packets[1..];
    }
  }

  lemma {:induction false} FirstThatConcat(test: Packet -> bool, s: seq<Packet>, t: seq<Packet>)
    ensures FirstThat(test, s + t) == if FirstThat(test, s).Some? then FirstThat(test, s) else FirstThat(test, t)
  {
    if s == [] {
      assert s + t == t;
    } else {
      assert (s + t)[0] == s[0] && (s + t)[1..] == s[1..] + t;
      FirstThatConcat(test, s[1..], t);
    }
  }

  // ---------- TLS on a plain port ----------

  predicate IsClientHello(flow: Flow, p: Packet) {
    Direction(flow, p) == 1 && 1 in p.tlsTypes
  }

  predicate IsServerHello(flow: Flow, p: Packet) {
    Direction(flow, p) == -1 && 2 in p.tlsTypes
  }

  /** A packet of the server that resets or carries something. */
  predicate Answers(flow: Flow, p: Packet) {
    Direction(flow, p) == -1 && (p.rst || p.httpPlaintext || p.tcpLen > 0 || p.dataLen > 0)
  }

  predicate IsResponse(flow: Flow, sinceMS: int, p: Packet) {
    p.timeMS >= sinceMS && Answers(flow, p)
  }

  function ResponseKind(response: Option<Packet>): string {
    match response
    case None => "none"
    case Some(p) => if p.rst then "rst" else if p.httpPlaintext then "http_plaintext" else "other_plaintext"
  }

  function HelloTest(flow: Flow): Packet -> bool { (p: Packet) => IsClientHello(flow, p) }

  function ResponseTest(flow: Flow, sinceMS: int): Packet -> bool { (p: Packet) => IsResponse(flow, sinceMS, p) }

  function ClientHello(g: Group): Option<Packet> {
    FirstThat(HelloTest(g.flow), g.packets)
  }

  function Response(g: Group, hello: Packet): Option<Packet> {
    FirstThat(ResponseTest(g.flow, hello.timeMS), g.packets)
  }

  function MakeTLS(g: Group, hello: Packet, response: Option<Packet>): Symptom {
    var window := PacketsBetween(g.packets, hello, response);
    Symptom(TLSOnPlainPort, "warning", "high", g.flow, |window|, PacketNumbers(window), FirstMS(window), LastMS(window),
            TLSDetail(ResponseKind(response), if hello.tlsVersion == "" then "unknown" else hello.tlsVersion))
  }

  function TLSSymptom(g: Group): Option<Symptom> {
    if ClientHello(g).None? || exists p :: p in g.packets && IsServerHello(g.flow, p) then None
    else Some(MakeTLS(g, ClientHello(g).value, Response(g, ClientHello(g).value)))
  }

  method DiagnoseTLS(g: Group) returns (r: Option<Symptom>)
    ensures r == TLSSymptom(g)
  {
    var hello: Option<Packet> := None;
    var serverHello := false;
    ghost var isHello := HelloTest(g.flow);
    assert ClientHello(g) == FirstThat(isHello, g.packets);
    for i := 0 to |g.packets|
      invariant hello == FirstThat(isHello, g.packets[..i])
      invariant serverHello <==> exists p :: p in g.packets[..i] && IsServerHello(g.flow, p)
    {
      var p := g.packets[i];
      var dir := Direction(g.flow, p);
      assert g.packets[..i + 1] == g.packets[..i] + [p];
      FirstThatConcat(isHello, g.packets[..i], [p]);
      if dir == 1 && 1 in p.tlsTypes && hello.None? { hello := Some(p); }
      assert forall q :: q in g.packets[..i + 1] <==> q in g.packets[..i] || q == p;
      if dir == -1 && 2 in p.tlsTypes {
        serverHello := true;
        assert p in g.packets[..i + 1] && IsServerHello(g.flow, p);
      }
    }
    assert g.packets[..|g.packets|] == g.packets;
    if hello.None? || serverHello { return None; }
    var response := FindResponse(g, hello.value);
    r := Some(MakeTLS(g, hello.value, response));
  }

  method FindResponse(g: Group, hello: Packet) returns (response: Option<Packet>)
    ensures response == Response(g, hello)
  {
    response := None;
    ghost var test := ResponseTest(g.flow, hello.timeMS);
    assert Response(g, hello) == FirstThat(test, g.packets);
    var i := 0;
    while i < |g.packets| && response.None?
      invariant 0 <= i <= |g.packets|
      invariant response == FirstThat(test, g.packets[..i])
    {
      var p := g.packets[i];
      assert g.packets[..i + 1] == g.packets[..i] + [p];
      FirstThatConcat(test, g.packets[..i], [p]);
      if !(p.timeMS < hello.timeMS || Direction(g.flow, p) != -1) {
        if p.rst || p.httpPlaintext || p.tcpLen > 0 || p.dataLen > 0 { response := Some(p); }
      }
      i := i + 1;
    }
    assert g.packets == g.packets[..i] + g.packets[i..];
    FirstThatConcat(test, g.packets[..i], g.packets[i..]);
  }

  /** Reported exactly for a client hello without any server hello. The evidence runs from the first hello to the
      first server packet from its millisecond on that resets or carries something, and tells which of the two it
      did; that response is never earlier than the hello, so the window is never empty. */
  lemma TLSReportedIff(g: Group)
    ensures TLSSymptom(g).Some? <==>
            (exists p :: p in g.packets && IsClientHello(g.flow, p)) &&
            !(exists p :: p in g.packets && IsServerHello(g.flow, p))
    ensures IsFirst(HelloTest(g.flow), g.packets, ClientHello(g))
    ensures TLSSymptom(g).Some? ==>
              var hello := ClientHello(g).value;
              && IsFirst(ResponseTest(g.flow, hello.timeMS), g.packets, Response(g, hello))
              && (TLSSymptom(g).value.detail.responseKind == "rst" <==>
                   Response(g, hello).Some? && Response(g, hello).value.rst)
              && (TLSSymptom(g).value.detail.responseKind == "none" <==>
                    forall p | p in g.packets :: !IsResponse(g.flow, hello.timeMS, p))
    ensures TLSSymptom(g).Some? ==>
              var hello := ClientHello(g).value;
              var response := Response(g, hello);
              var window := PacketsBetween(g.packets, hello, response);
              && (forall p :: p in window <==> p in g.packets && InWindow(p, hello.timeMS, WindowEnd(hello, response)))
              && hello in window && (response.Some? ==> response.value in window)
              && StrictlyIncreasing(TLSSymptom(g).value.packetNumbers)
              && (forall n :: n in TLSSymptom(g).value.packetNumbers <==>
                   exists p :: p in window && p.number == n && n > 0)
  {
    FirstThatExact(HelloTest(g.flow), g.packets);
    FirstThatIsFirst(HelloTest(g.flow), g.packets);
    if TLSSymptom(g).Some? {
      var hello := ClientHello(g).value;
      var response := Response(g, hello);
      FirstThatExact(ResponseTest(g.flow, hello.timeMS), g.packets);
      FirstThatIsFirst(ResponseTest(g.flow, hello.timeMS), g.packets);
      WindowExact(g.packets, hello, response);
      PacketNumbersExact(PacketsBetween(g.packets, hello, response));
    }
  }

  // ---------- the response by time against the response by order ----------

  /** The first index from `i` on whose packet passes the test, or the number of packets. */
  function FirstFrom(test: Packet -> bool, packets: seq<Packet>, i: nat): (k: nat)
    requires i <= |packets|
    ensures i <= k <= |packets| && (k < |packets| ==> test(packets[k]))
    ensures forall j | i <= j < k :: !test(packets[j])
    decreases |packets| - i
  {
    if i == |packets| || test(packets[i]) then i else FirstFrom(test, packets, i + 1)
  }

  lemma {:induction false} FirstThatFrom(test: Packet -> bool, packets: seq<Packet>, i: nat)
    requires i <= |packets|
    ensures var k := FirstFrom(test, packets, i);
            FirstThat(test, packets[i..]) == if k < |packets| then Some(packets[k]) else None
    decreases |packets| - i
  {
    if i < |packets| && !test(packets[i]) {
      FirstThatFrom(test, packets, i + 1);
      assert packets[i..][1..] == packets[i + 1..];
    }
  }

  function HelloAt(g: Group): nat { FirstFrom(HelloTest(g.flow), g.packets, 0) }

  /** Where the response that the detector reports is. */
  function ResponseAt(g: Group): nat
    requires HelloAt(g) < |g.packets|
  {
    FirstFrom(ResponseTest(g.flow, g.packets[HelloAt(g)].timeMS), g.packets, 0)
  }

  /** Where the server first answers after the hello. */
  function AnswerAt(g: Group): nat
    requires HelloAt(g) < |g.packets|
  {
    FirstFrom((p: Packet) => Answers(g.flow, p), g.packets, HelloAt(g) + 1)
  }

  /** The server has sent something before the hello, in the hello's millisecond. */
  ghost predicate SpokeInHelloTick(g: Group)
    requires HelloAt(g) < |g.packets|
  {
    exists j :: 0 <= j < HelloAt(g) && g.packets[j].timeMS == g.packets[HelloAt(g)].timeMS &&
                Answers(g.flow, g.packets[j])
  }

  /** The places are those of the packets the detector takes. */
  lemma PlacesExact(g: Group)
    ensures ClientHello(g).Some? <==> HelloAt(g) < |g.packets|
    ensures HelloAt(g) < |g.packets| ==>
              && ClientHello(g).value == g.packets[HelloAt(g)]
              && Response(g, ClientHello(g).value) ==
                 if ResponseAt(g) < |g.packets| then Some(g.packets[ResponseAt(g)]) else None
  {
    assert g.packets[0..] == g.packets;
    FirstThatFrom(HelloTest(g.flow), g.packets, 0);
    if HelloAt(g) < |g.packets| {
      FirstThatFrom(ResponseTest(g.flow, g.packets[HelloAt(g)].timeMS), g.packets, 0);
    }
  }

  /** The response that is reported is the server's first answer after the hello, if and only if the server has not
      sent anything before the hello in the hello's millisecond; if it has, that comes before the hello. */
  lemma ResponseFollowsIff(g: Group)
    requires SortedBy(PacketLess, g.packets) && HelloAt(g) < |g.packets|
    ensures ResponseAt(g) == AnswerAt(g) <==> !SpokeInHelloTick(g)
    ensures ResponseAt(g) < HelloAt(g) <==> SpokeInHelloTick(g)
  {
    var h, r := HelloAt(g), ResponseAt(g);
    assert !Answers(g.flow, g.packets[h]);
    forall j | h < j < |g.packets| && Answers(g.flow, g.packets[j])
      ensures IsResponse(g.flow, g.packets[h].timeMS, g.packets[j])
    {
      SortedTimes(g.packets, h, j);
    }
    if r < h {
      SortedTimes(g.packets, r, h);
      assert g.packets[r].timeMS == g.packets[h].timeMS;
    }
  }

  function Said(number: int, timeMS: int, fromClient: bool, bytes: int, types: seq<int>): Packet {
    var (src, dst, sport, dport) := if fromClient then ("c", "s", 40000, 25) else ("s", "c", 25, 40000);
    Packet(number, timeMS, 0, 0, "", "", src, dst, sport, dport, "tcp", false, true, false, bytes, 0, types, "", false)
  }

  /** A banner of the server, and in the same millisecond a client hello that nothing answers. */
  function BannerGroup(): Group {
    Group(Flow("c", "s", 40000, 25, "tcp"), [Said(1, 10, false, 20, []), Said(2, 10, true, 200, [1])])
  }

  /** The banner is reported as the response to the hello that came after it. */
  lemma BannerIsNoResponse()
    ensures SortedBy(PacketLess, BannerGroup().packets) && HelloAt(BannerGroup()) == 1
    ensures AnswerAt(BannerGroup()) == |BannerGroup().packets| && ResponseAt(BannerGroup()) == 0
    ensures TLSSymptom(BannerGroup()).Some? && TLSSymptom(BannerGroup()).value.detail.responseKind == "other_plaintext"
  {
    var g := BannerGroup();
    assert !IsClientHello(g.flow, g.packets[0]) && IsClientHello(g.flow, g.packets[1]);
    assert FirstFrom(HelloTest(g.flow), g.packets, 1) == 1;
    assert ResponseAt(g) == 0;
    PlacesExact(g);
    assert forall p | p in g.packets :: p == g.packets[0] || p == g.packets[1];
  }

  // ---------- asymmetric return path ----------

  predicate OpensConnection(flow: Flow, p: Packet) {
    Direction(flow, p) == 1 && p.syn && !p.ack
  }

  function SYNTest(flow: Flow): Packet -> bool { (p: Packet) => OpensConnection(flow, p) }

  function OtherLabelTest(syn: Packet): Packet -> bool {
    (p: Packet) => p.InterfaceLabel() != "" && p.InterfaceLabel() != syn.InterfaceLabel()
  }

  /** The first packet of the client that opens the connection. */
  function FirstSYN(g: Group): Option<Packet> {
    FirstThat(SYNTest(g.flow), g.packets)
  }

  predicate IsServerSYNACK(flow: Flow, p: Packet) {
    Direction(flow, p) == -1 && p.syn && p.ack
  }

  function ServerSYNACKs(g: Group): seq<Packet> {
    Filter((p: Packet) => IsServerSYNACK(g.flow, p), g.packets)
  }

  /** The first SYN-ACK seen on an interface other than the SYN's. */
  function OtherInterface(g: Group, syn: Packet): Option<Packet> {
    FirstThat(OtherLabelTest(syn), ServerSYNACKs(g))
  }

  /** The distinct interface labels in order of appearance. */
  function Labels(packets: seq<Packet>): seq<string> {
    if packets == [] then []
    else
      var before, tag := Labels(packets[..|packets| - 1]), packets[|packets| - 1].InterfaceLabel();
      if tag == "" || tag in before then before else before + [tag]
  }

  function FlowInterfaces(packets: seq<Packet>): seq<string> {
    Sort(StrLess, Labels(packets))
  }

  lemma {:induction false} LabelsMember(packets: seq<Packet>)
    ensures NoDuplicates(Labels(packets))
    ensures forall x :: x in Labels(packets) <==> x != "" && exists p :: p in packets && p.InterfaceLabel() == x
  {
    if packets != [] {
      var init, last := packets[..|packets| - 1], packets[|packets| - 1];
      LabelsMember(init);
      assert packets == init + [last];
    }
  }

  /** The interfaces of a flow: every label that occurs, once, in byte order. */
  lemma FlowInterfacesExact(packets: seq<Packet>)
    ensures NoDuplicates(FlowInterfaces(packets)) && SortedBy(StrLess, FlowInterfaces(packets))
    ensures forall x :: x in FlowInterfaces(packets) <==> x != "" && exists p :: p in packets && p.InterfaceLabel() == x
  {
    LabelsMember(packets);
    StrLessStrictWeak();
    SortSorted(StrLess, Labels(packets));
    SortMembers(StrLess, Labels(packets));
    SortedNoDuplicates(Labels(packets));
  }

  function MakeOneWay(g: Group, syn: Packet): Symptom {
    Symptom(AsymmetricPath, "warning", "medium", g.flow, 1, PacketNumbers([syn]), syn.timeMS, syn.timeMS,
            PathDetail(false, FlowInterfaces(g.packets), false))
  }

  function MakeOtherPath(g: Group, syn: Packet, synack: Packet): Symptom {
    var window := PacketsBetween(g.packets, syn, Some(synack));
    Symptom(AsymmetricPath, "warning", "medium", g.flow, |window|, PacketNumbers(window),
            FirstMS(window), LastMS(window), PathDetail(true, FlowInterfaces(g.packets), true))
  }

  function PathSymptom(g: Group): Option<Symptom> {
    var syn := FirstSYN(g);
    if syn.None? || syn.value.InterfaceLabel() == "" then None
    else if ServerSYNACKs(g) == [] then Some(MakeOneWay(g, syn.value))
    else
      var other := OtherInterface(g, syn.value);
      if other.None? then None else Some(MakeOtherPath(g, syn.value, other.value))
  }

  method DiagnosePath(g: Group) returns (r: Option<Symptom>)
    ensures r == PathSymptom(g)
  {
    var syn := FirstSYN(g);
    if syn.None? || syn.value.InterfaceLabel() == "" { return None; }
    var synacks: seq<Packet> := [];
    ghost var test := (p: Packet) => IsServerSYNACK(g.flow, p);
    assert ServerSYNACKs(g) == Filter(test, g.packets);
    for i := 0 to |g.packets|
      invariant synacks == Filter(test, g.packets[..i])
    {
      var p := g.packets[i];
      assert g.packets[..i + 1] == g.packets[..i] + [p];
      FilterConcat(test, g.packets[..i], [p]);
      if Direction(g.flow, p) == -1 && p.syn && p.ack { synacks := synacks + [p]; }
    }
    assert g.packets[..|g.packets|] == g.packets;
    if |synacks| == 0 { return Some(MakeOneWay(g, syn.value)); }
    var other := OtherInterface(g, syn.value);
    if other.None? { return None; }
    r := Some(MakeOtherPath(g, syn.value, other.value));
  }

  /** Reported exactly when the first SYN of the client names its interface, and no SYN-ACK came back at all or one
      came back on another named interface. */
  lemma PathReportedIff(g: Group)
    ensures IsFirst(SYNTest(g.flow), g.packets, FirstSYN(g))
    ensures PathSymptom(g).Some? <==>
            && FirstSYN(g).Some? && FirstSYN(g).value.InterfaceLabel() != ""
            && var own := FirstSYN(g).value.InterfaceLabel();
               ((forall p | p in g.packets :: !IsServerSYNACK(g.flow, p))
                || exists p :: p in g.packets && IsServerSYNACK(g.flow, p) && p.InterfaceLabel() != "" &&
                               p.InterfaceLabel() != own)
    ensures PathSymptom(g).Some? ==>
              (PathSymptom(g).value.detail.synAckSeen <==> exists p :: p in g.packets && IsServerSYNACK(g.flow, p))
  {
    FirstThatIsFirst(SYNTest(g.flow), g.packets);
    FilterMember((p: Packet) => IsServerSYNACK(g.flow, p), g.packets);
    var synacks := ServerSYNACKs(g);
    assert synacks != [] ==> synacks[0] in synacks;
    if FirstSYN(g).Some? { FirstThatExact(OtherLabelTest(FirstSYN(g).value), synacks); }
  }

  /** When a SYN-ACK on another interface is reported, the evidence is the time window from the SYN to it, and
      collapses to the SYN alone exactly when that SYN-ACK carries the earlier time. */
  lemma PathEvidence(g: Group)
    requires PathSymptom(g).Some? && ServerSYNACKs(g) != []
    ensures FirstSYN(g).Some? && OtherInterface(g, FirstSYN(g).value).Some?
    ensures var syn, synack := FirstSYN(g).value, OtherInterface(g, FirstSYN(g).value).value;
            var window := PacketsBetween(g.packets, syn, Some(synack));
            && syn in g.packets && synack in g.packets && IsServerSYNACK(g.flow, synack)
            && synack.InterfaceLabel() != syn.InterfaceLabel()
            && (synack.timeMS < syn.timeMS ==> window == [syn])
            && (synack.timeMS >= syn.timeMS ==>
                  syn in window && synack in window &&
                  forall p | p in window :: p in g.packets && InWindow(p, syn.timeMS, synack.timeMS))
            && StrictlyIncreasing(PathSymptom(g).value.packetNumbers)
            && (forall n | n in PathSymptom(g).value.packetNumbers ::
                  n > 0 && exists p :: p in g.packets && p.number == n)
  {
    var syn := FirstSYN(g).value;
    FirstThatExact(SYNTest(g.flow), g.packets);
    FirstThatExact(OtherLabelTest(syn), ServerSYNACKs(g));
    FilterMember((p: Packet) => IsServerSYNACK(g.flow, p), g.packets);
    var synack := OtherInterface(g, syn).value;
    WindowExact(g.packets, syn, Some(synack));
    var inside := Filter((p: Packet) => InWindow(p, syn.timeMS, WindowEnd(syn, Some(synack))), g.packets);
    assert inside != [] ==> inside[0] in inside;
    FilterMember((p: Packet) => InWindow(p, syn.timeMS, WindowEnd(syn, Some(synack))), g.packets);
  }
}
