/** The detector of connections that are reset after the handshake without application data. */
module HandshakeReset {
  import opened ByteStrings
  import opened Sorting
  import opened Packets
  import opened FlowGrouping
  import opened Evidence

  /** The four roles the one-pass matcher looks for, in this order: SYN, SYN-ACK, ACK, RST. */
  predicate Role(k: nat, flow: Flow, p: Packet) {
    match k
    case 0 => Direction(flow, p) == 1 && p.syn && !p.ack
    case 1 => Direction(flow, p) == -1 && p.syn && p.ack
    case 2 => Direction(flow, p) == 1 && !p.syn && p.ack
    case _ => Direction(flow, p) == -1 && p.rst
  }

  /** The first index from `i` on whose packet has role `k`, or the number of packets. */
  function FirstWithRole(k: nat, g: Group, i: nat): (j: nat)
    requires i <= |g.packets|
    ensures i <= j <= |g.packets|
    ensures j < |g.packets| ==> Role(k, g.flow, g.packets[j])
    ensures forall m | i <= m < j :: !Role(k, g.flow, g.packets[m])
    decreases |g.packets| - i
  {
    if i == |g.packets| || Role(k, g.flow, g.packets[i]) then i else FirstWithRole(k, g, i + 1)
  }

  /** The first packet with role `k` after index `before`. */
  function NextWithRole(k: nat, g: Group, before: nat): (j: nat)
    requires before <= |g.packets|
    ensures j <= |g.packets|
    ensures j < |g.packets| ==> before < j && Role(k, g.flow, g.packets[j])
  {
    if before == |g.packets| then before else FirstWithRole(k, g, before + 1)
  }

  // Where the roles are found when every role takes the first packet after the one before it.
  function SynAt(g: Group): (j: nat) { FirstWithRole(0, g, 0) }

  function SynAckAt(g: Group): (j: nat) { NextWithRole(1, g, SynAt(g)) }

  function AckAt(g: Group): (j: nat) { NextWithRole(2, g, SynAckAt(g)) }

  function RstAt(g: Group): (j: nat) { NextWithRole(3, g, AckAt(g)) }

  function Leftmost(k: nat, g: Group): (j: nat)
    requires k <= 3
    ensures j <= |g.packets|
  {
    match k
    case 0 => SynAt(g)
    case 1 => SynAckAt(g)
    case 2 => AckAt(g)
    case _ => RstAt(g)
  }

  /** Four packets in index order that play the four roles. */
  predicate IsHandshakeReset(g: Group, syn: nat, synack: nat, ack: nat, rst: nat) {
    syn < synack < ack < rst < |g.packets| &&
    Role(0, g.flow, g.packets[syn]) && Role(1, g.flow, g.packets[synack]) &&
    Role(2, g.flow, g.packets[ack]) && Role(3, g.flow, g.packets[rst])
  }

  /** What the matcher knows about role `k` after the first `i` packets. */
  function Seen(k: nat, g: Group, i: nat): Option<nat>
    requires k <= 3
  {
    if Leftmost(k, g) < i && Leftmost(k, g) < |g.packets| then Some(Leftmost(k, g)) else None
  }

  lemma LeftmostAscends(k: nat, g: Group)
    requires 0 < k <= 3
    ensures Leftmost(k, g) < |g.packets| ==>
            Leftmost(k - 1, g) < Leftmost(k, g) && Role(k, g.flow, g.packets[Leftmost(k, g)])
  {
  }

  /** The four places of the leftmost choice, when there is one. */
  lemma LeftmostPlaces(g: Group)
    requires RstAt(g) < |g.packets|
    ensures IsHandshakeReset(g, SynAt(g), SynAckAt(g), AckAt(g), RstAt(g))
  {
    LeftmostAscends(1, g);
    LeftmostAscends(2, g);
    LeftmostAscends(3, g);
  }

  lemma LeftmostBound(k: nat, g: Group, j: nat)
    requires k <= 3 && j < |g.packets| && Role(k, g.flow, g.packets[j])
    requires k > 0 ==> Leftmost(k - 1, g) < j
    ensures Leftmost(k, g) <= j
  {
  }

  /** One more packet can only add the role that is due. */
  lemma SeenStep(k: nat, g: Group, i: nat)
    requires k <= 3 && i < |g.packets|
    ensures Seen(k, g, i + 1) ==
            if Seen(k, g, i).Some? then Seen(k, g, i)
            else if (k == 0 || Seen(k - 1, g, i).Some?) && Role(k, g.flow, g.packets[i]) then Some(i) else None
  {
    if Leftmost(k, g) == i {
      if k > 0 { LeftmostAscends(k, g); }
    } else if (k == 0 || Seen(k - 1, g, i).Some?) && Role(k, g.flow, g.packets[i]) {
      LeftmostBound(k, g, i);
    }
  }

  /** The one pass over the packets of a flow. */
  method MatchHandshake(g: Group) returns (syn: Option<nat>, synack: Option<nat>, ack: Option<nat>, rst: Option<nat>)
    ensures syn == Seen(0, g, |g.packets|) && synack == Seen(1, g, |g.packets|)
    ensures ack == Seen(2, g, |g.packets|) && rst == Seen(3, g, |g.packets|)
  {
    syn, synack, ack, rst := None, None, None, None;
    for i := 0 to |g.packets|
      invariant syn == Seen(0, g, i) && synack == Seen(1, g, i) && ack == Seen(2, g, i) && rst == Seen(3, g, i)
      invariant (synack.Some? ==> syn.Some?) && (ack.Some? ==> synack.Some?) && (rst.Some? ==> ack.Some?)
    {
      var p := g.packets[i];
      var dir := Direction(g.flow, p);
      SeenStep(0, g, i);
      SeenStep(1, g, i);
      SeenStep(2, g, i);
      SeenStep(3, g, i);
      if syn.None? && dir == 1 && p.syn && !p.ack {
        syn := Some(i);
      } else if syn.Some? && synack.None? && dir == -1 && p.syn && p.ack {
        synack := Some(i);
      } else if synack.Some? && ack.None? && dir == 1 && !p.syn && p.ack {
        ack := Some(i);
      } else if ack.Some? && rst.None? && dir == -1 && p.rst {
        rst := Some(i);
      }
    }
  }

  ghost predicate HasHandshakeReset(g: Group) {
    exists a, b, c, d :: IsHandshakeReset(g, a, b, c, d)
  }

  /** The leftmost choice finds a handshake and reset if and only if there is one, and then no other choice
      has any of its four packets earlier. */
  lemma MatcherComplete(g: Group)
    ensures RstAt(g) < |g.packets| <==> HasHandshakeReset(g)
    ensures RstAt(g) < |g.packets| ==>
              IsHandshakeReset(g, SynAt(g), SynAckAt(g), AckAt(g), RstAt(g))
    ensures forall a, b, c, d | IsHandshakeReset(g, a, b, c, d) ::
              SynAt(g) <= a && SynAckAt(g) <= b && AckAt(g) <= c && RstAt(g) <= d
  {
    if RstAt(g) < |g.packets| { LeftmostPlaces(g); }
    forall a, b, c, d | IsHandshakeReset(g, a, b, c, d)
      ensures SynAt(g) <= a && SynAckAt(g) <= b && AckAt(g) <= c && RstAt(g) <= d
    {
      LeftmostBound(0, g, a);
      LeftmostBound(1, g, b);
      LeftmostBound(2, g, c);
      LeftmostBound(3, g, d);
    }
  }

  // ---------- application bytes ----------

  /** Strictly after the ACK and up to the RST, by time. */
  predicate AfterAck(p: Packet, ack: Packet, rst: Packet) {
    ack.timeMS < p.timeMS <= rst.timeMS
  }

  function ClientBytes(g: Group, packets: seq<Packet>, ack: Packet, rst: Packet): int {
    if packets == [] then 0
    else
      var p := packets[|packets| - 1];
      ClientBytes(g, packets[..|packets| - 1], ack, rst)
      + if AfterAck(p, ack, rst) && Direction(g.flow, p) == 1 then p.tcpLen else 0
  }

  function ServerBytes(g: Group, packets: seq<Packet>, ack: Packet, rst: Packet): int {
    if packets == [] then 0
    else
      var p := packets[|packets| - 1];
      ServerBytes(g, packets[..|packets| - 1], ack, rst)
      + if AfterAck(p, ack, rst) && Direction(g.flow, p) == -1 && !p.rst then p.tcpLen else 0
  }

  /** Application data: payload from the client, or from the server in a packet that is not a reset. */
  predicate CarriesData(flow: Flow, p: Packet) {
    p.tcpLen != 0 && (Direction(flow, p) == 1 || (Direction(flow, p) == -1 && !p.rst))
  }

  predicate Lengths(packets: seq<Packet>) {
    forall p | p in packets :: p.tcpLen >= 0
  }

  lemma {:induction false} NoBytesExact(g: Group, packets: seq<Packet>, ack: Packet, rst: Packet)
    requires Lengths(packets)
    ensures ClientBytes(g, packets, ack, rst) >= 0 && ServerBytes(g, packets, ack, rst) >= 0
    ensures (ClientBytes(g, packets, ack, rst) == 0 && ServerBytes(g, packets, ack, rst) == 0) <==>
            (forall p | p in packets :: AfterAck(p, ack, rst) ==> !CarriesData(g.flow, p))
  {
    if packets != [] {
      var init, last := packets[..|packets| - 1], packets[|packets| - 1];
      assert packets == init + [last];
      assert last in packets && forall p | p in init :: p in packets;
      NoBytesExact(g, init, ack, rst);
    }
  }

  // ---------- the extractor ----------

  function ResetSymptom(g: Group): Option<Symptom> {
    if RstAt(g) == |g.packets| then None
    else
      var syn, ack, rst := g.packets[SynAt(g)], g.packets[AckAt(g)], g.packets[RstAt(g)];
      var client, server := ClientBytes(g, g.packets, ack, rst), ServerBytes(g, g.packets, ack, rst);
      if client != 0 || server != 0 then None else Some(MakeReset(g, syn, ack, rst, client, server))
  }

  function MakeReset(g: Group, syn: Packet, ack: Packet, rst: Packet, client: int, server: int): Symptom {
    var window := PacketsBetween(g.packets, syn, Some(rst));
    Symptom(RSTAfterSYNACK, "warning", "high", g.flow, |window|, PacketNumbers(window),
            FirstMS(window), LastMS(window), RSTDetail(client, server, rst.timeMS - ack.timeMS))
  }

  method CountBytes(g: Group, ack: Packet, rst: Packet) returns (clientBytes: int, serverBytes: int)
    ensures clientBytes == ClientBytes(g, g.packets, ack, rst) && serverBytes == ServerBytes(g, g.packets, ack, rst)
  {
    clientBytes, serverBytes := 0, 0;
    for i := 0 to |g.packets|
      invariant clientBytes == ClientBytes(g, g.packets[..i], ack, rst)
      invariant serverBytes == ServerBytes(g, g.packets[..i], ack, rst)
    {
      var p := g.packets[i];
      assert g.packets[..i + 1][..i] == g.packets[..i];
      if p.timeMS <= ack.timeMS || p.timeMS > rst.timeMS { continue; }
      var dir := Direction(g.flow, p);
      if dir == 1 {
        clientBytes := clientBytes + p.tcpLen;
      } else if dir == -1 && !p.rst {
        serverBytes := serverBytes + p.tcpLen;
      }
    }
    assert g.packets[..|g.packets|] == g.packets;
  }

  method DiagnoseReset(g: Group) returns (r: Option<Symptom>)
    ensures r == ResetSymptom(g)
  {
    var syn, synack, ack, rst := MatchHandshake(g);
    if syn.None? || synack.None? || ack.None? || rst.None? {
      if RstAt(g) < |g.packets| { LeftmostPlaces(g); }
      return None;
    }
    var clientBytes, serverBytes := CountBytes(g, g.packets[ack.value], g.packets[rst.value]);
    if clientBytes != 0 || serverBytes != 0 { return None; }
    r := Some(MakeReset(g, g.packets[syn.value], g.packets[ack.value], g.packets[rst.value], clientBytes, serverBytes));
  }

  /** No packet later than the leftmost ACK's millisecond and not later than the leftmost RST's carries data. */
  ghost predicate QuietWindow(g: Group)
    requires RstAt(g) < |g.packets|
  {
    forall p | p in g.packets ::
      AfterAck(p, g.packets[AckAt(g)], g.packets[RstAt(g)]) ==> !CarriesData(g.flow, p)
  }

  /** The report, exactly: some four packets in order play the roles, and the time window after the ACK is quiet. */
  lemma ResetReportedIff(g: Group)
    requires Lengths(g.packets)
    ensures ResetSymptom(g).Some? <==> HasHandshakeReset(g) && RstAt(g) < |g.packets| && QuietWindow(g)
  {
    MatcherComplete(g);
    if RstAt(g) < |g.packets| {
      LeftmostPlaces(g);
      NoBytesExact(g, g.packets, g.packets[AckAt(g)], g.packets[RstAt(g)]);
    }
  }

  /** The window from the SYN to the RST holds all four packets. */
  lemma WindowHoldsRoles(g: Group, k: nat)
    requires SortedBy(PacketLess, g.packets) && RstAt(g) < |g.packets| && k <= 3
    ensures Leftmost(k, g) < |g.packets|
    ensures g.packets[Leftmost(k, g)] in
              PacketsBetween(g.packets, g.packets[SynAt(g)], Some(g.packets[RstAt(g)]))
  {
    LeftmostPlaces(g);
    assert SynAt(g) <= Leftmost(k, g) <= RstAt(g);
    var syn, rst := g.packets[SynAt(g)], g.packets[RstAt(g)];
    SortedTimes(g.packets, SynAt(g), Leftmost(k, g));
    SortedTimes(g.packets, Leftmost(k, g), RstAt(g));
    WindowExact(g.packets, syn, Some(rst));
  }

  /** The evidence of a report: ascending positive frame numbers of the flow, among them those of all four packets. */
  lemma ResetEvidence(g: Group, k: nat)
    requires SortedBy(PacketLess, g.packets) && ResetSymptom(g).Some? && k <= 3
    ensures var numbers := ResetSymptom(g).value.packetNumbers;
            && StrictlyIncreasing(numbers)
            && (forall n | n in numbers :: n > 0 && exists p :: p in g.packets && p.number == n)
            && (g.packets[Leftmost(k, g)].number > 0 ==> g.packets[Leftmost(k, g)].number in numbers)
  {
    LeftmostPlaces(g);
    var syn, rst := g.packets[SynAt(g)], g.packets[RstAt(g)];
    WindowHoldsRoles(g, k);
    WindowExact(g.packets, syn, Some(rst));
    PacketNumbersExact(PacketsBetween(g.packets, syn, Some(rst)));
  }

  // ---------- the time window against "before the RST" ----------

  predicate DataAt(g: Group, i: nat) {
    i < |g.packets| && CarriesData(g.flow, g.packets[i])
  }

  /** No data in the packets from index `start` up to the RST: what the detector is meant to ask. The connection
      starts at its SYN, and the ACK may carry data itself. */
  ghost predicate QuietBefore(g: Group, start: nat) {
    forall i | start <= i < RstAt(g) :: !DataAt(g, i)
  }

  /** Data before the RST, in a later millisecond than the ACK. */
  ghost predicate DataLater(g: Group)
    requires RstAt(g) < |g.packets|
  {
    exists i :: AckAt(g) < i < RstAt(g) && DataAt(g, i) && g.packets[i].timeMS > g.packets[AckAt(g)].timeMS
  }

  /** Data before the RST, in the ACK's own millisecond or an earlier one, be it on the ACK itself: the window misses
      it. */
  ghost predicate DataEarly(g: Group, start: nat)
    requires RstAt(g) < |g.packets|
  {
    exists i :: start <= i < RstAt(g) && DataAt(g, i) && g.packets[i].timeMS <= g.packets[AckAt(g)].timeMS
  }

  /** Data after the RST in the RST's own millisecond, later than the ACK's: the window counts it. */
  ghost predicate DataInRstTick(g: Group)
    requires RstAt(g) < |g.packets|
  {
    exists i :: RstAt(g) < i && DataAt(g, i)
      && g.packets[i].timeMS == g.packets[RstAt(g)].timeMS > g.packets[AckAt(g)].timeMS
  }

  lemma QuietWindowByIndex(g: Group)
    requires SortedBy(PacketLess, g.packets) && RstAt(g) < |g.packets|
    ensures QuietWindow(g) <==> !DataLater(g) && !DataInRstTick(g)
  {
    LeftmostPlaces(g);
    var a, r := AckAt(g), RstAt(g);
    if !QuietWindow(g) {
      var p :| p in g.packets && AfterAck(p, g.packets[a], g.packets[r]) && CarriesData(g.flow, p);
      var i :| 0 <= i < |g.packets| && g.packets[i] == p;
      if i <= a { SortedTimes(g.packets, i, a); }
      if i >= r { SortedTimes(g.packets, r, i); }
      assert DataAt(g, i);
      assert a < i && i != r;
    }
    forall i | a < i < r && DataAt(g, i) && g.packets[i].timeMS > g.packets[a].timeMS
      ensures !QuietWindow(g)
    {
      SortedTimes(g.packets, i, r);
      assert g.packets[i] in g.packets;
    }
    forall i | r < i && DataAt(g, i) && g.packets[i].timeMS == g.packets[r].timeMS > g.packets[a].timeMS
      ensures !QuietWindow(g)
    {
      assert g.packets[i] in g.packets;
    }
  }

  lemma QuietBeforeByTime(g: Group, start: nat)
    requires SortedBy(PacketLess, g.packets) && RstAt(g) < |g.packets| && start <= AckAt(g) + 1
    ensures QuietBefore(g, start) <==> !DataLater(g) && !DataEarly(g, start)
  {
    LeftmostPlaces(g);
    var a := AckAt(g);
    if !QuietBefore(g, start) {
      var i :| start <= i < RstAt(g) && DataAt(g, i);
      if i <= a { SortedTimes(g.packets, i, a); }
    }
  }

  /** When the time window answers the intended question, from whichever packet up to the one after the ACK one starts
      to ask: exactly if data lies before the RST in a later millisecond than the ACK, or else there is data before
      the RST and not later than the ACK exactly if there is data after the RST in its millisecond. */
  lemma WindowMeetsIntentIff(g: Group, start: nat)
    requires SortedBy(PacketLess, g.packets) && Lengths(g.packets) && HasHandshakeReset(g) && start <= AckAt(g) + 1
    ensures RstAt(g) < |g.packets|
    ensures (ResetSymptom(g).Some? <==> QuietBefore(g, start)) <==>
            (DataLater(g) || (DataEarly(g, start) <==> DataInRstTick(g)))
  {
    assert RstAt(g) < |g.packets| by { MatcherComplete(g); }
    assert ResetSymptom(g).Some? <==> QuietWindow(g) by { ResetReportedIff(g); }
    assert QuietWindow(g) <==> !DataLater(g) && !DataInRstTick(g) by { QuietWindowByIndex(g); }
    assert QuietBefore(g, start) <==> !DataLater(g) && !DataEarly(g, start) by { QuietBeforeByTime(g, start); }
  }

  /** Strictly increasing times around the ACK and the RST. */
  ghost predicate StrictAround(g: Group) {
    forall i, j | 0 <= i < j < |g.packets| && i in {AckAt(g), RstAt(g)} :: g.packets[i].timeMS < g.packets[j].timeMS
  }

  ghost predicate DataBetween(g: Group, lo: nat, hi: nat) {
    exists i :: lo <= i < hi && DataAt(g, i)
  }

  lemma StrictTimes(g: Group, start: nat)
    requires SortedBy(PacketLess, g.packets) && RstAt(g) < |g.packets| && StrictAround(g) && start <= AckAt(g) + 1
    ensures DataLater(g) <==> DataBetween(g, AckAt(g) + 1, RstAt(g))
    ensures DataEarly(g, start) <==> DataBetween(g, start, AckAt(g) + 1)
    ensures !DataInRstTick(g)
  {
    LeftmostPlaces(g);
    var a := AckAt(g);
    if DataBetween(g, a + 1, RstAt(g)) {
      var i :| a + 1 <= i < RstAt(g) && DataAt(g, i);
      assert g.packets[i].timeMS > g.packets[a].timeMS;
    }
    if DataBetween(g, start, a + 1) {
      var i :| start <= i < a + 1 && DataAt(g, i);
      SortedTimes(g.packets, i, a);
    }
  }

  /** With strictly increasing times around the ACK and the RST, the answer is right exactly if data lies between the
      two or none comes before that. */
  lemma StrictTimesSuffice(g: Group, start: nat)
    requires SortedBy(PacketLess, g.packets) && Lengths(g.packets) && HasHandshakeReset(g)
    requires StrictAround(g) && start <= AckAt(g) + 1
    ensures (ResetSymptom(g).Some? <==> QuietBefore(g, start)) <==>
            DataBetween(g, AckAt(g) + 1, RstAt(g)) || !DataBetween(g, start, AckAt(g) + 1)
  {
    WindowMeetsIntentIff(g, start);
    StrictTimes(g, start);
  }

  function Row(number: int, timeMS: int, fromClient: bool, syn: bool, ack: bool, rst: bool, tcpLen: int): Packet {
    var (src, dst, sport, dport) := if fromClient then ("c", "s", 40000, 80) else ("s", "c", 80, 40000);
    Packet(number, timeMS, 0, 0, "", "", src, dst, sport, dport, "tcp", syn, ack, rst, tcpLen, 0, [], "", false)
  }

  /** SYN, SYN-ACK, ACK, five bytes from the client in the ACK's own millisecond, RST. */
  function TickRows(): seq<Packet> {
    [Row(1, 0, true, true, false, false, 0), Row(2, 10, false, true, true, false, 0),
     Row(3, 20, true, false, true, false, 0), Row(4, 20, true, false, true, false, 5),
     Row(5, 30, false, false, false, true, 0)]
  }

  function TickGroup(): Group { Group(Flow("c", "s", 40000, 80, "tcp"), TickRows()) }

  lemma TickGroupPlaces()
    ensures AckAt(TickGroup()) == 2 && RstAt(TickGroup()) == 4
  {
    var g := TickGroup();
    assert FirstWithRole(0, g, 0) == 0;
    assert FirstWithRole(1, g, 1) == 1;
    assert FirstWithRole(2, g, 2) == 2;
    assert FirstWithRole(3, g, 5) == 5;
    assert FirstWithRole(3, g, 3) == 4;
    assert SynAt(g) == 0;
    assert SynAckAt(g) == 1;
    assert AckAt(g) == 2;
  }

  lemma TickRowsSorted()
    ensures SortedBy(PacketLess, TickRows()) && Lengths(TickRows())
  {
  }

  lemma TickData()
    ensures RstAt(TickGroup()) == 4 && DataEarly(TickGroup(), 3)
    ensures !DataLater(TickGroup()) && !DataInRstTick(TickGroup())
  {
    var g := TickGroup();
    TickGroupPlaces();
    assert DataAt(g, 3);
  }

  /** The detector reports this flow as reset without application data, although data was sent. */
  lemma DataInAckTickIsMissed()
    ensures SortedBy(PacketLess, TickRows()) && Lengths(TickRows())
    ensures ResetSymptom(TickGroup()).Some? && AckAt(TickGroup()) == 2 && !QuietBefore(TickGroup(), 3)
  {
    TickRowsSorted();
    TickData();
    assert HasHandshakeReset(TickGroup()) by { LeftmostPlaces(TickGroup()); }
    TickGroupPlaces();
    WindowMeetsIntentIff(TickGroup(), 3);
    QuietBeforeByTime(TickGroup(), 3);
  }

  /** SYN, SYN-ACK, ACK with five bytes on it, RST, each in a millisecond of its own. */
  function LadenRows(): seq<Packet> {
    [Row(1, 0, true, true, false, false, 0), Row(2, 10, false, true, true, false, 0),
     Row(3, 20, true, false, true, false, 5), Row(4, 30, false, false, false, true, 0)]
  }

  function LadenGroup(): Group { Group(Flow("c", "s", 40000, 80, "tcp"), LadenRows()) }

  lemma LadenGroupPlaces()
    ensures AckAt(LadenGroup()) == 2 && RstAt(LadenGroup()) == 3
  {
    var g := LadenGroup();
    assert FirstWithRole(0, g, 0) == 0;
    assert FirstWithRole(1, g, 1) == 1;
    assert FirstWithRole(2, g, 2) == 2;
    assert FirstWithRole(3, g, 3) == 3;
    assert SynAt(g) == 0;
    assert SynAckAt(g) == 1;
    assert AckAt(g) == 2;
  }

  lemma LadenRowsSorted()
    ensures SortedBy(PacketLess, LadenRows()) && Lengths(LadenRows())
    ensures forall i, j | 0 <= i < j < |LadenRows()| :: LadenRows()[i].timeMS < LadenRows()[j].timeMS
  {
  }

  lemma LadenData()
    ensures RstAt(LadenGroup()) == 3 && DataAt(LadenGroup(), 2)
    ensures !DataLater(LadenGroup()) && DataEarly(LadenGroup(), 2) && !DataInRstTick(LadenGroup())
  {
    LadenGroupPlaces();
    assert DataAt(LadenGroup(), 2);
  }

  /** The detector reports this flow as reset without application data, although the ACK carried some and all times
      are distinct. */
  lemma DataOnAckIsMissed()
    ensures SortedBy(PacketLess, LadenRows()) && Lengths(LadenRows())
    ensures forall i, j | 0 <= i < j < |LadenRows()| :: LadenRows()[i].timeMS < LadenRows()[j].timeMS
    ensures AckAt(LadenGroup()) == 2 && DataAt(LadenGroup(), 2)
    ensures ResetSymptom(LadenGroup()).Some? && !QuietBefore(LadenGroup(), 2)
  {
    LadenRowsSorted();
    LadenData();
    LadenGroupPlaces();
    assert HasHandshakeReset(LadenGroup()) by { LeftmostPlaces(LadenGroup()); }
    WindowMeetsIntentIff(LadenGroup(), 2);
    QuietBeforeByTime(LadenGroup(), 2);
  }

  /** SYN, SYN-ACK, ACK, RST, and five bytes from the client after the RST in its own millisecond. */
  function LateRows(): seq<Packet> {
    [Row(1, 0, true, true, false, false, 0), Row(2, 10, false, true, true, false, 0),
     Row(3, 20, true, false, true, false, 0), Row(4, 30, false, false, false, true, 0),
     Row(5, 30, true, false, true, false, 5)]
  }

  function LateGroup(): Group { Group(Flow("c", "s", 40000, 80, "tcp"), LateRows()) }

  lemma LateGroupPlaces()
    ensures AckAt(LateGroup()) == 2 && RstAt(LateGroup()) == 3
  {
    var g := LateGroup();
    assert FirstWithRole(0, g, 0) == 0;
    assert FirstWithRole(1, g, 1) == 1;
    assert FirstWithRole(2, g, 2) == 2;
    assert FirstWithRole(3, g, 3) == 3;
    assert SynAt(g) == 0;
    assert SynAckAt(g) == 1;
    assert AckAt(g) == 2;
  }

  lemma LateRowsSorted()
    ensures SortedBy(PacketLess, LateRows()) && Lengths(LateRows())
  {
  }

  lemma LateData()
    ensures RstAt(LateGroup()) == 3 && DataInRstTick(LateGroup())
    ensures !DataLater(LateGroup()) && !DataEarly(LateGroup(), 0)
  {
    LateGroupPlaces();
    assert DataAt(LateGroup(), 4);
  }

  /** The detector stays silent about this flow, although no data at all comes before its RST. */
  lemma DataAfterRSTHidesReport()
    ensures SortedBy(PacketLess, LateRows()) && Lengths(LateRows()) && HasHandshakeReset(LateGroup())
    ensures ResetSymptom(LateGroup()).None? && QuietBefore(LateGroup(), 0)
  {
    LateRowsSorted();
    LateData();
    LateHandshake();
    WindowMeetsIntentIff(LateGroup(), 0);
    QuietBeforeByTime(LateGroup(), 0);
  }

  lemma LateHandshake()
    ensures HasHandshakeReset(LateGroup())
  {
    LateGroupPlaces();
    LeftmostPlaces(LateGroup());
  }
}
