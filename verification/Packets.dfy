/** Decoded packet rows, their flows, and the string keys under which flows are grouped. */
module Packets {
  import opened ByteStrings

  datatype Packet = Packet(
    number: int, timeMS: int, frameLen: int, capturedLen: int, interfaceID: string, interfaceName: string,
    srcIP: string, dstIP: string, srcPort: int, dstPort: int, protocol: string,
    syn: bool, ack: bool, rst: bool, tcpLen: int, dataLen: int,
    tlsTypes: seq<int>, tlsVersion: string, httpPlaintext: bool)
  {
    function InterfaceLabel(): string {
      if interfaceName != "" then interfaceName else if interfaceID != "" then "if" + interfaceID else ""
    }

    predicate Truncated() {
      frameLen > 0 && capturedLen > 0 && capturedLen < frameLen
    }
  }

  datatype Endpoint = Endpoint(ip: string, port: int)

  function Src(p: Packet): Endpoint { Endpoint(p.srcIP, p.srcPort) }

  function Dst(p: Packet): Endpoint { Endpoint(p.dstIP, p.dstPort) }

  datatype Flow = Flow(srcIP: string, dstIP: string, srcPort: int, dstPort: int, protocol: string)

  /** +1 along the flow, -1 against it, 0 for a packet of another flow. */
  function Direction(flow: Flow, p: Packet): int {
    if p.srcIP == flow.srcIP && p.srcPort == flow.srcPort && p.dstIP == flow.dstIP && p.dstPort == flow.dstPort then 1
    else if p.srcIP == flow.dstIP && p.srcPort == flow.dstPort && p.dstIP == flow.srcIP &&
            p.dstPort == flow.srcPort then -1
    else 0
  }

  /** Packets that take part in flow grouping. */
  predicate Eligible(p: Packet) {
    p.protocol == "tcp" && p.srcIP != "" && p.dstIP != "" && p.srcPort != 0 && p.dstPort != 0
  }

  predicate EndpointLess(a: Endpoint, b: Endpoint) {
    if a.ip == b.ip then a.port < b.port else StrLess(a.ip, b.ip)
  }

  // ---------- decimal numbers ----------

  function Digit(d: nat): char
    requires d < 10
  {
    '0' + d as char
  }

  function Digits(n: nat): string {
    if n < 10 then [Digit(n)] else Digits(n / 10) + [Digit(n % 10)]
  }

  function Itoa(n: int): string {
    if n < 0 then "-" + Digits(-n) else Digits(n)
  }

  lemma {:induction false} DigitsOnly(n: nat)
    ensures forall c | c in Digits(n) :: '0' <= c <= '9'
  {
    if n >= 10 { DigitsOnly(n / 10); }
  }

  lemma {:induction false} DigitsInjective(m: nat, n: nat)
    requires Digits(m) == Digits(n)
    ensures m == n
  {
    var s, t := Digits(m), Digits(n);
    assert s[|s| - 1] == Digit(m % 10) && t[|t| - 1] == Digit(n % 10);
    if m >= 10 && n >= 10 {
      assert Digits(m / 10) == s[..|s| - 1] && Digits(n / 10) == t[..|t| - 1];
      DigitsInjective(m / 10, n / 10);
    } else {
      DigitsNotEmpty(m / 10);
      DigitsNotEmpty(n / 10);
      assert |s| == 1 <==> m < 10;
      assert |t| == 1 <==> n < 10;
    }
  }

  lemma DigitsNotEmpty(n: nat)
    ensures |Digits(n)| >= 1
  {
  }

  // ---------- keys ----------

  function EndpointText(e: Endpoint): string {
    e.ip + ":" + Itoa(e.port)
  }

  function PairText(a: Endpoint, b: Endpoint, protocol: string): string {
    EndpointText(a) + "-" + (EndpointText(b) + "/" + protocol)
  }

  /** The two endpoints in canonical order. */
  function Canonical(p: Packet): (Endpoint, Endpoint) {
    if EndpointLess(Dst(p), Src(p)) then (Dst(p), Src(p)) else (Src(p), Dst(p))
  }

  function FlowKey(p: Packet): string {
    PairText(Canonical(p).0, Canonical(p).1, p.protocol)
  }

  /** The same two endpoints, in either order. */
  predicate SameConversation(p: Packet, q: Packet) {
    (Src(p) == Src(q) && Dst(p) == Dst(q)) || (Src(p) == Dst(q) && Dst(p) == Src(q))
  }

  /** What IP addresses and ports look like: no dash in an address, and a positive port. */
  predicate WellFormed(p: Packet) {
    '-' !in p.srcIP && '-' !in p.dstIP && p.srcPort > 0 && p.dstPort > 0
  }

  lemma FirstSeparator(x: string, s: string, y: string, t: string, c: char)
    requires c !in x && c !in y && x + [c] + s == y + [c] + t
    ensures x == y && s == t
  {
    var u := x + [c] + s;
    assert u == y + [c] + t;
    assert forall i | 0 <= i < |x| :: u[i] == x[i] && x[i] in x;
    assert forall i | 0 <= i < |y| :: u[i] == y[i] && y[i] in y;
    assert u[|x|] == c && u[|y|] == c;
    assert |x| == |y|;
    assert x == u[..|x|] == y && s == u[|x| + 1..] == t;
  }

  lemma SeparatorNotAfter(x: string, s: string, y: string, t: string, c: char)
    requires c !in s && x + [c] + s == y + [c] + t
    ensures |y| <= |x|
  {
    var u := y + [c] + t;
    assert u[|y|] == c;
    assert forall i | |x| + 1 <= i < |u| :: u[i] == s[i - |x| - 1] && s[i - |x| - 1] in s;
  }

  lemma LastSeparator(x: string, s: string, y: string, t: string, c: char)
    requires c !in s && c !in t && x + [c] + s == y + [c] + t
    ensures x == y && s == t
  {
    SeparatorNotAfter(x, s, y, t, c);
    SeparatorNotAfter(y, t, x, s, c);
    var u := x + [c] + s;
    assert x == u[..|x|] && s == u[|x| + 1..];
    assert y == u[..|y|] && t == u[|y| + 1..];
  }

  lemma EndpointTextInjective(a: Endpoint, b: Endpoint)
    requires a.port > 0 && b.port > 0 && EndpointText(a) == EndpointText(b)
    ensures a == b
  {
    DigitsOnly(a.port);
    DigitsOnly(b.port);
    LastSeparator(a.ip, Digits(a.port), b.ip, Digits(b.port), ':');
    DigitsInjective(a.port, b.port);
  }

  lemma PairTextInjective(a: Endpoint, b: Endpoint, c: Endpoint, d: Endpoint, protocol: string)
    requires '-' !in a.ip && '-' !in c.ip && a.port > 0 && b.port > 0 && c.port > 0 && d.port > 0
    requires PairText(a, b, protocol) == PairText(c, d, protocol)
    ensures a == c && b == d
  {
    DigitsOnly(a.port);
    DigitsOnly(c.port);
    FirstSeparator(EndpointText(a), EndpointText(b) + "/" + protocol,
                   EndpointText(c), EndpointText(d) + "/" + protocol, '-');
    var u := EndpointText(b) + "/" + protocol;
    assert EndpointText(b) == u[..|u| - |protocol| - 1] == EndpointText(d);
    EndpointTextInjective(a, c);
    EndpointTextInjective(b, d);
  }

  /** Two packets of the same protocol share a flow key exactly if they are of one conversation. */
  lemma FlowKeyExact(p: Packet, q: Packet)
    requires p.protocol == q.protocol && WellFormed(p) && WellFormed(q)
    ensures FlowKey(p) == FlowKey(q) <==> SameConversation(p, q)
  {
    if SameConversation(p, q) {
      SameConversationSameKey(p, q);
    }
    if FlowKey(p) == FlowKey(q) {
      PairTextInjective(Canonical(p).0, Canonical(p).1, Canonical(q).0, Canonical(q).1, p.protocol);
    }
  }

  /** Both directions of a conversation have one key, whatever the addresses are. */
  lemma SameConversationSameKey(p: Packet, q: Packet)
    requires p.protocol == q.protocol && SameConversation(p, q)
    ensures FlowKey(p) == FlowKey(q)
  {
    var a, b := Src(p), Dst(p);
    if a.ip != b.ip {
      StrLessTotal(a.ip, b.ip);
      if StrLess(a.ip, b.ip) { StrLessAsymmetric(a.ip, b.ip); } else { StrLessAsymmetric(b.ip, a.ip); }
    }
  }

  /** An address with a dash can make two conversations share a key. */
  lemma DashedAddressesCollide(p: Packet, q: Packet)
    requires p.protocol == q.protocol
    requires Src(p) == Endpoint("a:1-b", 2) && Dst(p) == Endpoint("c", 3)
    requires Src(q) == Endpoint("a", 1) && Dst(q) == Endpoint("b:2-c", 3)
    ensures FlowKey(p) == FlowKey(q) && !SameConversation(p, q)
  {
    assert Itoa(1) == "1" && Itoa(2) == "2" && Itoa(3) == "3";
    assert FlowKey(p) == "a:1-b:2-c:3/" + p.protocol;
    assert FlowKey(q) == "a:1-b:2-c:3/" + q.protocol;
  }
}
