/** Grouping packets into bidirectional flows: each flow's packets in time order, with an inferred direction. */
module FlowGrouping {
  import opened ByteStrings
  import opened Sorting
  import opened Packets

  datatype Group = Group(flow: Flow, packets: seq<Packet>)

  predicate PacketLess(p: Packet, q: Packet) {
    if p.timeMS == q.timeMS then p.number < q.number else p.timeMS < q.timeMS
  }

  lemma SortedTimes(packets: seq<Packet>, i: nat, j: nat)
    requires SortedBy(PacketLess, packets) && i <= j < |packets|
    ensures packets[i].timeMS <= packets[j].timeMS
  {
    if i < j { assert !PacketLess(packets[j], packets[i]); }
  }

  predicate IsInitialSYN(p: Packet) {
    p.syn && !p.ack
  }

  function FlowOf(p: Packet): Flow {
    Flow(p.srcIP, p.dstIP, p.srcPort, p.dstPort, "tcp")
  }

  /** The direction of the first packet that opens a connection, or else of the first packet. */
  function InferFlow(packets: seq<Packet>): Flow {
    if packets == [] then Flow("", "", 0, 0, "tcp")
    else FlowOf(packets[FirstSYNFrom(packets, 0)])
  }

  /** The index of the first initial SYN at `i` or later, and 0 if there is none. */
  function FirstSYNFrom(packets: seq<Packet>, i: nat): (k: nat)
    requires i <= |packets|
    ensures packets != [] ==> k < |packets|
    decreases |packets| - i
  {
    if i == |packets| then 0 else if IsInitialSYN(packets[i]) then i else FirstSYNFrom(packets, i + 1)
  }

  lemma {:induction false} FirstSYNExact(packets: seq<Packet>, i: nat)
    requires i <= |packets| && packets != []
    ensures var k := FirstSYNFrom(packets, i);
            if exists j :: i <= j < |packets| && IsInitialSYN(packets[j])
            then i <= k && IsInitialSYN(packets[k]) && forall j | i <= j < k :: !IsInitialSYN(packets[j])
            else k == 0
    decreases |packets| - i
  {
    if i < |packets| && !IsInitialSYN(packets[i]) { FirstSYNExact(packets, i + 1); }
  }

  /** The direction is that of the earliest initial SYN; only without one is it that of the first packet. */
  lemma InferredDirection(packets: seq<Packet>)
    requires packets != []
    ensures if exists p :: p in packets && IsInitialSYN(p)
            then exists k :: 0 <= k < |packets| && IsInitialSYN(packets[k]) && InferFlow(packets) == FlowOf(packets[k])
                             && forall j | 0 <= j < k :: !IsInitialSYN(packets[j])
            else InferFlow(packets) == FlowOf(packets[0])
  {
    FirstSYNExact(packets, 0);
    if p :| p in packets && IsInitialSYN(p) {
      var j :| 0 <= j < |packets| && packets[j] == p;
    }
  }

  /** The eligible packets with this flow key, in input order. */
  function OfFlow(key: string, packets: seq<Packet>): seq<Packet> {
    Filter((p: Packet) => Eligible(p) && FlowKey(p) == key, packets)
  }

  /** The flow keys in the order in which they first occur. */
  function KeysOf(packets: seq<Packet>): seq<string> {
    if packets == [] then []
    else
      var before, p := KeysOf(packets[..|packets| - 1]), packets[|packets| - 1];
      if Eligible(p) && FlowKey(p) !in before then before + [FlowKey(p)] else before
  }

  function GroupOf(key: string, packets: seq<Packet>): Group {
    var sorted := Sort(PacketLess, OfFlow(key, packets));
    Group(InferFlow(sorted), sorted)
  }

  function GroupsFor(keys: seq<string>, packets: seq<Packet>): seq<Group> {
    if keys == [] then [] else [GroupOf(keys[0], packets)] + GroupsFor(keys[1..], packets)
  }

  /** All flow groups, in the order of their keys. */
  function FlowGroups(packets: seq<Packet>): seq<Group> {
    GroupsFor(Sort(StrLess, KeysOf(packets)), packets)
  }

  predicate NoDuplicates(keys: seq<string>) {
    forall i, j | 0 <= i < j < |keys| :: keys[i] != keys[j]
  }

  lemma {:induction false} KeysOfMember(packets: seq<Packet>)
    ensures NoDuplicates(KeysOf(packets))
    ensures forall k :: k in KeysOf(packets) <==> exists p :: p in packets && Eligible(p) && FlowKey(p) == k
  {
    if packets != [] {
      var init, last := packets[..|packets| - 1], packets[|packets| - 1];
      KeysOfMember(init);
      assert packets == init + [last];
    }
  }

  lemma StrLessStrictWeak()
    ensures StrictWeak(StrLess)
  {
    forall a, b, c
      ensures !StrLess(a, a)
      ensures StrLess(a, b) ==> !StrLess(b, a)
      ensures StrLess(a, b) && StrLess(b, c) ==> StrLess(a, c)
      ensures !StrLess(a, b) && !StrLess(b, c) ==> !StrLess(a, c)
    {
      StrLessIrreflexive(a);
      if StrLess(a, b) { StrLessAsymmetric(a, b); }
      if StrLess(a, b) && StrLess(b, c) { StrLessTransitive(a, b, c); }
      StrLessTotal(a, b);
      StrLessTotal(b, c);
      if StrLess(b, a) && StrLess(c, b) { StrLessTransitive(c, b, a); }
      if StrLess(c, a) { StrLessAsymmetric(c, a); }
    }
  }

  lemma PacketLessStrictWeak()
    ensures StrictWeak(PacketLess)
  {
  }

  lemma StrLessSeparates(keys: seq<string>)
    ensures forall a, b | a in keys && b in keys :: a == b || StrLess(a, b) || StrLess(b, a)
  {
    forall a, b | a in keys && b in keys
      ensures a == b || StrLess(a, b) || StrLess(b, a)
    {
      StrLessTotal(a, b);
    }
  }

  lemma {:induction false} NoDuplicatesCount(s: seq<string>)
    requires NoDuplicates(s)
    ensures forall k :: multiset(s)[k] == if k in s then 1 else 0
  {
    if s != [] {
      NoDuplicatesCount(s[1..]);
      assert s == [s[0]] + s[1..];
      assert s[0] !in s[1..];
    }
  }

  /** Two duplicate-free lists of the same keys sort to the same list. */
  lemma SameKeysSameOrder(s: seq<string>, t: seq<string>)
    requires NoDuplicates(s) && NoDuplicates(t) && forall k :: k in s <==> k in t
    ensures Sort(StrLess, s) == Sort(StrLess, t)
  {
    NoDuplicatesCount(s);
    NoDuplicatesCount(t);
    assert multiset(s) == multiset(t);
    StrLessStrictWeak();
    StrLessSeparates(s);
    SortUnique(StrLess, s, t);
  }

  // ---------- the loops of the program ----------

  lemma OfFlowAppend(key: string, before: seq<Packet>, p: Packet)
    ensures OfFlow(key, before + [p]) ==
            if Eligible(p) && FlowKey(p) == key then OfFlow(key, before) + [p] else OfFlow(key, before)
  {
    FilterConcat((p: Packet) => Eligible(p) && FlowKey(p) == key, before, [p]);
  }

  /** Appends every eligible packet to the list under its key. */
  method GroupByKey(packets: seq<Packet>) returns (grouped: map<string, seq<Packet>>)
    ensures forall k :: k in grouped <==> k in KeysOf(packets)
    ensures forall k | k in grouped :: grouped[k] == OfFlow(k, packets)
  {
    grouped := map[];
    for i := 0 to |packets|
      invariant forall k :: k in grouped <==> k in KeysOf(packets[..i])
      invariant forall k | k in grouped :: grouped[k] == OfFlow(k, packets[..i])
    {
      var p := packets[i];
      ghost var before := packets[..i];
      assert packets[..i + 1] == before + [p];
      assert (before + [p])[..|before|] == before;
      forall k
        ensures OfFlow(k, before + [p]) ==
                if Eligible(p) && FlowKey(p) == k then OfFlow(k, before) + [p] else OfFlow(k, before)
      {
        OfFlowAppend(k, before, p);
      }
      if Eligible(p) {
        var key := FlowKey(p);
        if key !in grouped { NothingUnderNewKey(key, before); }
        grouped := grouped[key := (if key in grouped then grouped[key] else []) + [p]];
      }
    }
    assert packets[..|packets|] == packets;
  }

  /** Lists the keys of a map in whatever order it yields them, and sorts them. */
  method SortedKeys(grouped: map<string, seq<Packet>>, ghost expected: seq<string>) returns (keys: seq<string>)
    requires NoDuplicates(expected) && forall k :: k in grouped <==> k in expected
    ensures keys == Sort(StrLess, expected)
  {
    keys := [];
    var todo := grouped.Keys;
    while todo != {}
      invariant NoDuplicates(keys)
      invariant forall k :: k in grouped.Keys <==> k in keys || k in todo
      invariant forall k | k in keys :: k !in todo
      decreases todo
    {
      var key :| key in todo;
      keys, todo := keys + [key], todo - {key};
    }
    SameKeysSameOrder(keys, expected);
    keys := Sort(StrLess, keys);
  }

  /** Sorts the list under each key and infers its direction. */
  method BuildGroups(keys: seq<string>, grouped: map<string, seq<Packet>>, ghost packets: seq<Packet>)
    returns (groups: seq<Group>)
    requires forall k | k in keys :: k in grouped && grouped[k] == OfFlow(k, packets)
    ensures groups == GroupsFor(keys, packets)
  {
    groups := [];
    for i := 0 to |keys|
      invariant groups == GroupsFor(keys[..i], packets)
    {
      assert keys[i] in keys;
      var sorted := Sort(PacketLess, grouped[keys[i]]);
      GroupsForConcat(keys[..i], [keys[i]], packets);
      assert keys[..i + 1] == keys[..i] + [keys[i]];
      assert GroupsFor([keys[i]], packets) == [Group(InferFlow(sorted), sorted)];
      groups := groups + [Group(InferFlow(sorted), sorted)];
    }
    assert keys[..|keys|] == keys;
  }

  /** The grouping as the program computes it: the order in which the map yields its keys does not matter. */
  method ComputeFlowGroups(packets: seq<Packet>) returns (groups: seq<Group>)
    ensures groups == FlowGroups(packets)
  {
    var grouped := GroupByKey(packets);
    assert NoDuplicates(KeysOf(packets)) by { KeysOfMember(packets); }
    var keys := SortedKeys(grouped, KeysOf(packets));
    SortMembers(StrLess, KeysOf(packets));
    groups := BuildGroups(keys, grouped, packets);
  }

  lemma {:induction false} GroupsForConcat(s: seq<string>, t: seq<string>, packets: seq<Packet>)
    ensures GroupsFor(s + t, packets) == GroupsFor(s, packets) + GroupsFor(t, packets)
  {
    if s == [] {
      assert s + t == t;
    } else {
      assert (s + t)[0] == s[0] && (s + t)[1..] == s[1..] + t;
      GroupsForConcat(s[1..], t, packets);
    }
  }

  lemma NothingUnderNewKey(key: string, packets: seq<Packet>)
    requires key !in KeysOf(packets)
    ensures OfFlow(key, packets) == []
  {
    var f := OfFlow(key, packets);
    assert f != [] ==> f[0] in f;
    KeysOfMember(packets);
    FilterMember((p: Packet) => Eligible(p) && FlowKey(p) == key, packets);
  }

  // ---------- partition ----------

  function AllPackets(groups: seq<Group>): seq<Packet> {
    if groups == [] then [] else groups[0].packets + AllPackets(groups[1..])
  }

  lemma {:induction false} GroupedCount(keys: seq<string>, packets: seq<Packet>, x: Packet)
    requires NoDuplicates(keys)
    ensures multiset(AllPackets(GroupsFor(keys, packets)))[x] ==
            if Eligible(x) && FlowKey(x) in keys then multiset(packets)[x] else 0
  {
    if keys != [] {
      GroupedCount(keys[1..], packets, x);
      GroupCount(keys[0], packets, x);
      AllPacketsHead(keys, packets);
      FirstOnly(keys);
    }
  }

  /** A packet occurs in the group of its key as often as in the input. */
  lemma GroupCount(key: string, packets: seq<Packet>, x: Packet)
    ensures multiset(GroupOf(key, packets).packets)[x] ==
            if Eligible(x) && FlowKey(x) == key then multiset(packets)[x] else 0
  {
    SortMultiset(PacketLess, OfFlow(key, packets));
    FilterMultiset((p: Packet) => Eligible(p) && FlowKey(p) == key, packets, x);
  }

  lemma AllPacketsHead(keys: seq<string>, packets: seq<Packet>)
    requires keys != []
    ensures AllPackets(GroupsFor(keys, packets)) ==
            GroupOf(keys[0], packets).packets + AllPackets(GroupsFor(keys[1..], packets))
  {
    var rest := GroupsFor(keys[1..], packets);
    assert ([GroupOf(keys[0], packets)] + rest)[1..] == rest;
  }

  lemma FirstOnly(keys: seq<string>)
    requires keys != [] && NoDuplicates(keys)
    ensures NoDuplicates(keys[1..]) && keys[0] !in keys[1..]
    ensures forall k :: k in keys <==> k == keys[0] || k in keys[1..]
  {
    assert keys == [keys[0]] + keys[1..];
  }

  /** Every eligible packet, as often as it occurs, is in the groups, and nothing else is. */
  lemma GroupsConserve(packets: seq<Packet>)
    ensures multiset(AllPackets(FlowGroups(packets))) == multiset(Filter(Eligible, packets))
  {
    var keys := Sort(StrLess, KeysOf(packets));
    KeysOfMember(packets);
    SortMembers(StrLess, KeysOf(packets));
    SortedNoDuplicates(KeysOf(packets));
    var a, b := multiset(AllPackets(FlowGroups(packets))), multiset(Filter(Eligible, packets));
    forall x: Packet
      ensures a[x] == b[x]
    {
      GroupedCount(keys, packets, x);
      FilterMultiset(Eligible, packets, x);
      if x in packets && Eligible(x) { assert FlowKey(x) in KeysOf(packets); }
    }
    assert a == b;
  }

  lemma TwiceCounted(s: seq<string>, i: nat, j: nat)
    requires i < j < |s| && s[i] == s[j]
    ensures multiset(s)[s[i]] >= 2
  {
    assert s == s[..j] + s[j..];
    assert s[i] in s[..j] && s[j] in s[j..];
  }

  lemma SortedNoDuplicates(keys: seq<string>)
    requires NoDuplicates(keys)
    ensures NoDuplicates(Sort(StrLess, keys))
  {
    var s := Sort(StrLess, keys);
    forall i, j | 0 <= i < j < |s| && s[i] == s[j]
      ensures multiset(s)[s[i]] >= 2
    {
      TwiceCounted(s, i, j);
    }
    SortMultiset(StrLess, keys);
    NoDuplicatesCount(keys);
  }

  lemma {:induction false} GroupsForAt(keys: seq<string>, packets: seq<Packet>, i: nat)
    requires i < |keys|
    ensures |GroupsFor(keys, packets)| == |keys| && GroupsFor(keys, packets)[i] == GroupOf(keys[i], packets)
  {
    GroupsForLength(keys, packets);
    if i > 0 { GroupsForAt(keys[1..], packets, i - 1); }
  }

  lemma {:induction false} GroupsForLength(keys: seq<string>, packets: seq<Packet>)
    ensures |GroupsFor(keys, packets)| == |keys|
  {
    if keys != [] { GroupsForLength(keys[1..], packets); }
  }

  lemma GroupMember(key: string, packets: seq<Packet>, p: Packet)
    ensures p in GroupOf(key, packets).packets <==> p in packets && Eligible(p) && FlowKey(p) == key
  {
    SortMembers(PacketLess, OfFlow(key, packets));
    FilterMember((p: Packet) => Eligible(p) && FlowKey(p) == key, packets);
  }

  /** Inside a group the packets are in time order; two well-formed eligible packets are in one group exactly
      if they are of one conversation. */
  lemma GroupsSeparate(packets: seq<Packet>, i: nat, p: Packet, q: Packet)
    requires i < |FlowGroups(packets)| && p in FlowGroups(packets)[i].packets
    requires q in packets && Eligible(q) && WellFormed(p) && WellFormed(q)
    ensures SortedBy(PacketLess, FlowGroups(packets)[i].packets)
    ensures q in FlowGroups(packets)[i].packets <==> SameConversation(p, q)
  {
    var keys := Sort(StrLess, KeysOf(packets));
    GroupsForLength(keys, packets);
    GroupsForAt(keys, packets, i);
    PacketLessStrictWeak();
    SortSorted(PacketLess, OfFlow(keys[i], packets));
    GroupMember(keys[i], packets, p);
    GroupMember(keys[i], packets, q);
    FlowKeyExact(p, q);
  }

  /** Every packet of a group runs with or against the flow that was inferred for it. */
  lemma GroupDirections(packets: seq<Packet>, i: nat, p: Packet)
    requires i < |FlowGroups(packets)| && p in FlowGroups(packets)[i].packets
    requires forall q | q in packets :: Eligible(q) ==> WellFormed(q)
    ensures Direction(FlowGroups(packets)[i].flow, p) in {1, -1}
  {
    var keys := Sort(StrLess, KeysOf(packets));
    GroupsForLength(keys, packets);
    GroupsForAt(keys, packets, i);
    var members := FlowGroups(packets)[i].packets;
    var q := members[FirstSYNFrom(members, 0)];
    assert q in members;
    GroupMember(keys[i], packets, p);
    GroupMember(keys[i], packets, q);
    GroupsSeparate(packets, i, p, q);
  }

  // ---------- order independence ----------

  predicate DistinctNumbers(packets: seq<Packet>) {
    forall i, j | 0 <= i < j < |packets| :: packets[i].number != packets[j].number
  }

  lemma PermutedMembers<T(!new)>(s: seq<T>, t: seq<T>)
    requires multiset(s) == multiset(t)
    ensures forall x :: x in s <==> x in t
  {
    assert forall x :: x in s <==> x in multiset(s);
    assert forall x :: x in t <==> x in multiset(t);
  }

  lemma DistinctSeparated(packets: seq<Packet>)
    requires DistinctNumbers(packets)
    ensures forall a, b | a in packets && b in packets :: a == b || PacketLess(a, b) || PacketLess(b, a)
  {
    forall a, b | a in packets && b in packets && a != b
      ensures a.number != b.number
    {
      var i :| 0 <= i < |packets| && packets[i] == a;
      var j :| 0 <= j < |packets| && packets[j] == b;
      assert i < j || j < i;
    }
  }

  /** With distinct frame numbers, the order in which packets arrive does not change a group. */
  lemma GroupPermuted(key: string, s: seq<Packet>, t: seq<Packet>)
    requires multiset(s) == multiset(t) && DistinctNumbers(s)
    ensures GroupOf(key, s) == GroupOf(key, t)
  {
    var keep := (p: Packet) => Eligible(p) && FlowKey(p) == key;
    FilterPermuted(keep, s, t);
    FilterMember(keep, s);
    assert OfFlow(key, s) == Filter(keep, s) && OfFlow(key, t) == Filter(keep, t);
    DistinctSeparated(s);
    PacketLessStrictWeak();
    SortUnique(PacketLess, OfFlow(key, s), OfFlow(key, t));
  }

  lemma {:induction false} GroupsForPermuted(keys: seq<string>, s: seq<Packet>, t: seq<Packet>)
    requires multiset(s) == multiset(t) && DistinctNumbers(s)
    ensures GroupsFor(keys, s) == GroupsFor(keys, t)
  {
    if keys != [] {
      GroupPermuted(keys[0], s, t);
      GroupsForPermuted(keys[1..], s, t);
    }
  }

  /** The flow groups do not depend on the order of the input rows. */
  lemma GroupsOrderIndependent(s: seq<Packet>, t: seq<Packet>)
    requires multiset(s) == multiset(t) && DistinctNumbers(s)
    ensures FlowGroups(s) == FlowGroups(t)
  {
    KeysOfMember(s);
    KeysOfMember(t);
    PermutedMembers(s, t);
    SameKeysSameOrder(KeysOf(s), KeysOf(t));
    GroupsForPermuted(Sort(StrLess, KeysOf(s)), s, t);
  }
}
