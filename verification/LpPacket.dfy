/** NDNLPv2 packets as records with a wire size. */
module LpPacket {
  import opened Common
  import opened Tlv

  /** `headers` holds the encoded NDNLPv2 fields other than the four that fragmentation uses. */
  datatype LpPacket = LpPacket(headers: seq<Octet>, sequence: Option<Uint64>,
                               fragIndex: Option<Uint64>, fragCount: Option<Uint64>,
                               fragment: Option<seq<Octet>>)

  const EMPTY: LpPacket := LpPacket([], None, None, None, None)

  /** Octets of an element whose TLV-TYPE takes one octet. */
  function ElementOctets(length: nat): nat {
    1 + VarSize(length) + length
  }

  function NumberField(field: Option<Uint64>): (r: nat)
    ensures r <= 1 + 1 + 8
  {
    if field.None? then 0 else ElementOctets(NonNegativeIntegerSize(field.value))
  }

  function FragmentField(field: Option<seq<Octet>>): (r: nat)
    ensures r <= 1 + 9 + if field.None? then 0 else |field.value|
  {
    if field.None? then 0 else ElementOctets(|field.value|)
  }

  /** Octets of the fields other than Fragment. */
  function HeaderOctets(p: LpPacket): nat {
    |p.headers| + NumberField(p.sequence) + NumberField(p.fragIndex) + NumberField(p.fragCount)
  }

  /** A packet with nothing but a Fragment is sent bare, without the LpPacket envelope. */
  predicate IsBare(p: LpPacket) {
    p.fragment.Some? && p.headers == [] && p.sequence.None? && p.fragIndex.None? && p.fragCount.None?
  }

  function WireSize(p: LpPacket): nat {
    if IsBare(p) then |p.fragment.value|
    else ElementOctets(HeaderOctets(p) + FragmentField(p.fragment))
  }

  /** The payloads of a run of fragments, put end to end. */
  function Payload(frags: seq<LpPacket>): seq<Octet>
    requires forall f :: f in frags ==> f.fragment.Some?
  {
    if frags == [] then [] else frags[0].fragment.value + Payload(frags[1..])
  }

  lemma PayloadConcat(a: seq<LpPacket>, b: seq<LpPacket>)
    requires forall f :: f in a + b ==> f.fragment.Some?
    ensures forall f :: f in a ==> f.fragment.Some?
    ensures forall f :: f in b ==> f.fragment.Some?
    ensures Payload(a + b) == Payload(a) + Payload(b)
  {
    assert forall f :: f in a ==> f in a + b;
    assert forall f :: f in b ==> f in a + b;
    if a == [] {
      assert a + b == b;
    } else {
      assert (a + b)[1..] == a[1..] + b;
      PayloadConcat(a[1..], b);
      assert a[0] == (a + b)[0];
      ConcatAssociative(a[0].fragment.value, Payload(a[1..]), Payload(b));
    }
  }

  /** Only the payloads matter. */
  lemma {:induction false} PayloadOfSameFragments(a: seq<LpPacket>, b: seq<LpPacket>)
    requires |a| == |b|
    requires forall f :: f in a ==> f.fragment.Some?
    requires forall i :: 0 <= i < |a| ==> a[i].fragment == b[i].fragment
    ensures forall f :: f in b ==> f.fragment.Some?
    ensures Payload(a) == Payload(b)
  {
    forall f | f in b ensures f.fragment.Some? {
      var i :| 0 <= i < |b| && b[i] == f;
      assert a[i] in a;
    }
    if a != [] {
      PayloadOfSameFragments(a[1..], b[1..]);
    }
  }
}
