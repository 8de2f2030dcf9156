/** Putting fragments back together (face/lp-reassembler.cpp). */
module LpReassembler {
  import opened Common
  import opened Tlv
  import opened LpPacket

  /** Remote endpoint and message identifier, the sequence number of the first fragment. */
  datatype Key = Key(endpoint: nat, messageId: Uint64)

  /** A slot holds a fragment exactly when that fragment has a Sequence field; the drop timer
      fires at dropAt. */
  datatype PartialPacket = PartialPacket(fragments: seq<LpPacket>, fragCount: nat,
                                         nReceivedFragments: nat, dropAt: Option<int>)

  type Table = map<Key, PartialPacket>

  datatype Options = Options(nMaxFragments: nat, reassemblyTimeout: nat)

  /** What one received fragment leads to. Malformed is a payload with no complete element at
      its head, which the source reports by throwing. */
  datatype Outcome = Nothing | Delivered(netPkt: seq<Octet>, firstFrag: LpPacket) | Malformed

  /** The network packet at the head of reassembled octets. */
  function Deliver(octets: seq<Octet>, firstFrag: LpPacket): Outcome {
    var n := ElementSize(octets);
    if n.None? then Malformed else Delivered(octets[..n.value], firstFrag)
  }

  function FragIndex(p: LpPacket): Uint64 {
    if p.fragIndex.Some? then p.fragIndex.value else 0
  }

  function FragCount(p: LpPacket): Uint64 {
    if p.fragCount.Some? then p.fragCount.value else 1
  }

  /** The message a fragment belongs to: its sequence number less its index, mod 2^64. */
  function KeyOf(endpoint: nat, p: LpPacket): Key
    requires p.sequence.Some?
  {
    Key(endpoint, (p.sequence.value - FragIndex(p)) % TWO_64)
  }

  function NewPartial(fragCount: nat): PartialPacket {
    PartialPacket(seq(fragCount, _ => EMPTY), fragCount, 0, None)
  }

  ghost predicate Filled(slots: seq<LpPacket>) {
    forall s :: s in slots ==> s.sequence.Some? && s.fragment.Some?
  }

  function ReceivedSlots(slots: seq<LpPacket>): nat {
    if slots == [] then 0
    else ReceivedSlots(slots[..|slots| - 1]) + if slots[|slots| - 1].sequence.Some? then 1 else 0
  }

  /** Between calls, a partial packet has its slots allocated, counts them right, still lacks a
      fragment (unless its octets turned out malformed), and has a drop timer pending. */
  ghost predicate PartialOk(pp: PartialPacket) {
    2 <= pp.fragCount == |pp.fragments| &&
    pp.nReceivedFragments == ReceivedSlots(pp.fragments) > 0 &&
    pp.dropAt.Some? &&
    forall s :: s in pp.fragments ==> s.sequence.Some? ==> s.fragment.Some?
  }

  ghost predicate TableOk(table: Table) {
    forall k :: k in table ==> PartialOk(table[k])
  }

  lemma {:induction false} ReceivedSlotsBound(slots: seq<LpPacket>)
    ensures ReceivedSlots(slots) <= |slots|
    ensures ReceivedSlots(slots) == |slots| <==> forall s :: s in slots ==> s.sequence.Some?
  {
    if slots != [] {
      var init, last := slots[..|slots| - 1], slots[|slots| - 1];
      ReceivedSlotsBound(init);
      assert slots == init + [last];
    }
  }

  lemma {:induction false} ReceivedSlotsFill(slots: seq<LpPacket>, i: nat, p: LpPacket)
    requires i < |slots| && slots[i].sequence.None? && p.sequence.Some?
    ensures ReceivedSlots(slots[i := p]) == ReceivedSlots(slots) + 1
  {
    var n := |slots| - 1;
    if i == n {
      assert slots[i := p][..n] == slots[..n];
    } else {
      ReceivedSlotsFill(slots[..n], i, p);
      assert slots[i := p][..n] == slots[..n][i := p];
    }
  }

  lemma {:induction false} ReceivedSlotsEmpty(n: nat)
    ensures ReceivedSlots(seq(n, _ => EMPTY)) == 0
  {
    if n > 0 {
      ReceivedSlotsEmpty(n - 1);
      assert seq(n, _ => EMPTY)[..n - 1] == seq(n - 1, _ => EMPTY);
    }
  }

  lemma PartialSlots(pp: PartialPacket, n: nat)
    requires PartialOk(pp) || pp == NewPartial(n)
    ensures |pp.fragments| == pp.fragCount
  {
  }

  /** Stores a fragment in its slot. */
  function Store(pp: PartialPacket, p: LpPacket): PartialPacket
    requires FragIndex(p) < |pp.fragments|
  {
    pp.(fragments := pp.fragments[FragIndex(p) := p], nReceivedFragments := pp.nReceivedFragments + 1)
  }

  lemma StoreOk(pp: PartialPacket, p: LpPacket, dropAt: int)
    requires PartialOk(pp) || (pp == NewPartial(FragCount(p)) && 2 <= FragCount(p))
    requires FragIndex(p) < |pp.fragments| && pp.fragments[FragIndex(p)].sequence.None?
    requires p.sequence.Some? && p.fragment.Some?
    ensures PartialOk(Store(pp, p).(dropAt := Some(dropAt)))
    ensures Store(pp, p).nReceivedFragments == pp.fragCount ==> Filled(Store(pp, p).fragments)
  {
    if pp == NewPartial(FragCount(p)) {
      ReceivedSlotsEmpty(FragCount(p));
    }
    ReceivedSlotsFill(pp.fragments, FragIndex(p), p);
    ReceivedSlotsBound(Store(pp, p).fragments);
  }

  /** The partial packet a fragment is added to. */
  function PartialFor(table: Table, key: Key, p: LpPacket): PartialPacket {
    if key in table then table[key] else NewPartial(FragCount(p))
  }

  /** The checks before a fragment is stored: well-formed, within the limit, fragmented, numbered,
      agreeing with the fragments already there, and not a duplicate. */
  predicate Storable(table: Table, options: Options, endpoint: nat, p: LpPacket)
    requires TableOk(table)
  {
    FragIndex(p) < FragCount(p) <= options.nMaxFragments && 2 <= FragCount(p) && p.sequence.Some? &&
    var pp := PartialFor(table, KeyOf(endpoint, p), p);
    FragCount(p) == pp.fragCount && pp.fragments[FragIndex(p)].sequence.None?
  }

  /** Stores a fragment: the message is delivered when it was the last one missing. */
  function AddFragment(table: Table, key: Key, pp: PartialPacket, p: LpPacket, dropAt: int): (r: (Table, Outcome))
    requires TableOk(table) && (PartialOk(pp) || (pp == NewPartial(FragCount(p)) && 2 <= FragCount(p)))
    requires FragIndex(p) < |pp.fragments| && pp.fragments[FragIndex(p)].sequence.None?
    requires p.sequence.Some? && p.fragment.Some?
    requires key in table ==> table[key] == pp
    requires key !in table ==> pp == NewPartial(FragCount(p))
    ensures TableOk(r.0)
  {
    var stored := Store(pp, p);
    StoreOk(pp, p, dropAt);
    if stored.nReceivedFragments != stored.fragCount then
      (table[key := stored.(dropAt := Some(dropAt))], Nothing)
    else
      var outcome := Deliver(Payload(stored.fragments), stored.fragments[0]);
      (if outcome.Malformed? then table[key := stored] else table - {key}, outcome)
  }

  /** receiveFragment as a function of the table. */
  function Receive(table: Table, options: Options, endpoint: nat, p: LpPacket, now: int): (r: (Table, Outcome))
    requires p.fragment.Some? && TableOk(table)
    ensures TableOk(r.0)
  {
    if FragIndex(p) == 0 && FragCount(p) == 1 && 1 <= options.nMaxFragments then
      (table, Deliver(p.fragment.value, p))
    else if !Storable(table, options, endpoint, p) then (table, Nothing)
    else
      var key := KeyOf(endpoint, p);
      AddFragment(table, key, PartialFor(table, key, p), p, now + options.reassemblyTimeout)
  }

  /** A fragment is dropped, without a trace, if and only if its index or count is out of range, or, being one
      of several, it has no sequence number, or disagrees in count with those held, or is held already. */
  lemma FragmentDroppedIff(table: Table, options: Options, endpoint: nat, p: LpPacket, now: int)
    requires p.fragment.Some? && TableOk(table)
    ensures var index := if p.fragIndex.Some? then p.fragIndex.value else 0;
      var count := if p.fragCount.Some? then p.fragCount.value else 1;
      Receive(table, options, endpoint, p, now) == (table, Nothing) <==>
        index >= count || count > options.nMaxFragments ||
        (count > 1 && (p.sequence.None? ||
          var key := Key(endpoint, (p.sequence.value - index) % TWO_64);
          key in table && (table[key].fragCount != count || table[key].fragments[index].sequence.Some?)))
  {
    hide ElementSize;
    var i, c := FragIndex(p), FragCount(p);
    if i < c <= options.nMaxFragments && c > 1 && p.sequence.Some? {
      var key := KeyOf(endpoint, p);
      assert key in table ==> PartialOk(table[key]);
      if Storable(table, options, endpoint, p) {
        var pp := PartialFor(table, key, p);
        StoreOk(pp, p, now + options.reassemblyTimeout);
        var r := AddFragment(table, key, pp, p, now + options.reassemblyTimeout);
        assert key in r.0 ==> r.0[key].nReceivedFragments == pp.nReceivedFragments + 1;
      }
    }
  }

  class LpReassembler {
    const options: Options
    var partialPackets: Table
    var timeouts: seq<(nat, nat)>

    ghost predicate Valid()
      reads this
    {
      TableOk(partialPackets)
    }

    constructor (options: Options)
      ensures Valid() && this.options == options && partialPackets == map[] && timeouts == []
    {
      this.options := options;
      partialPackets := map[];
      timeouts := [];
    }

    method ReceiveFragment(remoteEndpoint: nat, packet: LpPacket, now: int) returns (r: Outcome)
      requires Valid() && packet.fragment.Some?
      modifies this`partialPackets
      ensures Valid()
      ensures (partialPackets, r) == Receive(old(partialPackets), options, remoteEndpoint, packet, now)
    {
      hide AddFragment, Deliver, PartialOk;
      var fragIndex, fragCount := 0, 1;
      if packet.fragIndex.Some? {
        fragIndex := packet.fragIndex.value;
      }
      if packet.fragCount.Some? {
        fragCount := packet.fragCount.value;
      }
      if fragIndex >= fragCount {
        return Nothing;
      }
      if fragCount > options.nMaxFragments {
        return Nothing;
      }
      if fragIndex == 0 && fragCount == 1 {
        return Deliver(packet.fragment.value, packet);
      }
      if packet.sequence.None? {
        return Nothing;
      }
      var key := Key(remoteEndpoint, (packet.sequence.value - fragIndex) % TWO_64);

      var pp := NewPartial(fragCount);
      if key in partialPackets {
        pp := partialPackets[key];
        assert PartialOk(pp);
        if fragCount != pp.fragCount {
          return Nothing;
        }
      }
      PartialSlots(pp, fragCount);
      if pp.fragments[fragIndex].sequence.Some? {
        return Nothing;
      }
      r := Add(key, pp, packet, now + options.reassemblyTimeout);
    }

    method Add(key: Key, partial: PartialPacket, packet: LpPacket, dropAt: int) returns (r: Outcome)
      requires TableOk(partialPackets)
      requires PartialOk(partial) || (partial == NewPartial(FragCount(packet)) && 2 <= FragCount(packet))
      requires FragIndex(packet) < |partial.fragments| && partial.fragments[FragIndex(packet)].sequence.None?
      requires packet.sequence.Some? && packet.fragment.Some?
      requires key in partialPackets ==> partialPackets[key] == partial
      requires key !in partialPackets ==> partial == NewPartial(FragCount(packet))
      modifies this`partialPackets
      ensures (partialPackets, r) == AddFragment(old(partialPackets), key, partial, packet, dropAt)
    {
      hide PartialOk, Deliver, FragIndex, FragCount, NewPartial, TableOk;
      StoreOk(partial, packet, dropAt);
      var pp := partial.(fragments := partial.fragments[FragIndex(packet) := packet]);
      pp := pp.(nReceivedFragments := pp.nReceivedFragments + 1);

      if pp.nReceivedFragments == pp.fragCount {
        var reassembled := DoReassembly(pp.fragments);
        r := Deliver(reassembled, pp.fragments[0]);
        partialPackets := if r.Malformed? then partialPackets[key := pp] else partialPackets - {key};
        return;
      }
      pp := pp.(dropAt := Some(dropAt));
      partialPackets := partialPackets[key := pp];
      return Nothing;
    }

    /** The drop timer of a partial packet fires. */
    method TimeoutPartialPacket(key: Key)
      requires Valid()
      modifies this
      ensures Valid() && partialPackets == old(partialPackets) - {key}
      ensures timeouts == old(timeouts) +
        if key in old(partialPackets) then [(key.endpoint, old(partialPackets)[key].nReceivedFragments)] else []
    {
      if key !in partialPackets {
        return;
      }
      timeouts := timeouts + [(key.endpoint, partialPackets[key].nReceivedFragments)];
      partialPackets := partialPackets - {key};
    }
  }

  /** Adds up the sizes, allocates one buffer and copies every fragment into it. */
  method DoReassembly(fragments: seq<LpPacket>) returns (octets: seq<Octet>)
    requires forall f :: f in fragments ==> f.fragment.Some?
    ensures octets == Payload(fragments)
  {
    var payloadSize := 0;
    for i := 0 to |fragments|
      invariant payloadSize == |Payload(fragments[..i])|
    {
      PayloadExtend(fragments, i);
      payloadSize := payloadSize + |fragments[i].fragment.value|;
    }
    assert fragments[..|fragments|] == fragments;

    var fragBuffer := new Octet[payloadSize];
    var it: nat := 0;
    for i := 0 to |fragments|
      invariant it + |Payload(fragments[i..])| == payloadSize == fragBuffer.Length
      invariant fragBuffer[..it] == Payload(fragments[..i])
    {
      PayloadExtend(fragments, i);
      var frag := fragments[i].fragment.value;
      assert fragments[i..][1..] == fragments[i + 1..];
      it := Copy(frag, fragBuffer, it);
    }
    assert fragBuffer[..] == fragBuffer[..it];
    octets := fragBuffer[..];
  }

  /** std::copy: writes s at offset `at` and returns where it stopped. */
  method Copy(s: seq<Octet>, buffer: array<Octet>, at: nat) returns (end: nat)
    requires at + |s| <= buffer.Length
    modifies buffer
    ensures end == at + |s|
    ensures buffer[..end] == old(buffer[..at]) + s
  {
    forall j | 0 <= j < |s| {
      buffer[at + j] := s[j];
    }
    end := at + |s|;
  }

  lemma PayloadExtend(fragments: seq<LpPacket>, i: nat)
    requires i < |fragments|
    requires forall f :: f in fragments ==> f.fragment.Some?
    ensures Payload(fragments[..i + 1]) == Payload(fragments[..i]) + fragments[i].fragment.value
  {
    PayloadConcat(fragments[..i], [fragments[i]]);
    assert fragments[..i + 1] == fragments[..i] + [fragments[i]];
  }
}
