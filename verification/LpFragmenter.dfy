/** Splitting one network packet into fragments that fit the MTU (face/lp-fragmenter.cpp). */
module LpFragmenter {
  import opened Common
  import opened Tlv
  import opened LpPacket

  const MAX_SINGLE_FRAG_OVERHEAD: nat :=
    1 + 9 + // LpPacket TLV-TYPE and TLV-LENGTH
    1 + 1 + 8 + // Sequence TLV
    1 + 9 // Fragment TLV-TYPE and TLV-LENGTH

  const MAX_FRAG_OVERHEAD: nat :=
    1 + 9 + // LpPacket TLV-TYPE and TLV-LENGTH
    1 + 1 + 8 + // Sequence TLV
    1 + 1 + 8 + // FragIndex TLV
    1 + 1 + 8 + // FragCount TLV
    1 + 9 // Fragment TLV-TYPE and TLV-LENGTH

  /** What the callers of fragmentPacket hand in. */
  predicate Fragmentable(p: LpPacket) {
    p.fragment.Some? && p.fragIndex.None? && p.fragCount.None?
  }

  /** Cuts s into pieces of k octets; the last may be shorter. */
  function Split(s: seq<Octet>, k: nat): seq<seq<Octet>>
    requires k > 0
    decreases |s|
  {
    if s == [] then [] else if |s| <= k then [s] else [s[..k]] + Split(s[k..], k)
  }

  function Pieces(s: seq<Octet>, first: nat, k: nat): seq<seq<Octet>>
    requires first <= |s| && k > 0
  {
    [s[..first]] + Split(s[first..], k)
  }

  /** Number of pieces, as fragmentPacket computes it. */
  function FragCount(n: nat, first: nat, k: nat): nat
    requires first <= n && k > 0
  {
    1 + (n - first) / k + (if (n - first) % k != 0 then 1 else 0)
  }

  lemma {:induction false} SplitCount(s: seq<Octet>, k: nat)
    requires k > 0
    ensures |Split(s, k)| == |s| / k + (if |s| % k != 0 then 1 else 0)
    decreases |s|
  {
    if |s| > k {
      SplitCount(s[k..], k);
      DivisionStep(|s|, k);
    } else if |s| == k {
      DivisionStep(k, k);
    } else if s != [] {
      assert |s| / k == 0 && |s| % k == |s|;
    }
  }

  lemma DivisionStep(n: nat, k: nat)
    requires 0 < k <= n
    ensures n / k == (n - k) / k + 1 && n % k == (n - k) % k
  {
    var d := n / k - ((n - k) / k + 1);
    assert d * k == (n - k) % k - n % k by {
      Distribute(n / k, (n - k) / k + 1, k);
      Distribute((n - k) / k + 1, 1, k);
    }
    SmallMultiple(d, k);
  }

  lemma Distribute(a: int, b: int, k: int)
    ensures (a - b) * k == a * k - b * k
  {
  }

  lemma SmallMultiple(d: int, k: nat)
    ensures d == 0 || d * k >= k || d * k <= 0 - k
  {
    if d >= 1 {
      assert (d - 1) * k >= 0;
    } else if d <= -1 {
      assert (d + 1) * k <= 0;
    }
  }

  lemma {:induction false} SplitFlatten(s: seq<Octet>, k: nat)
    requires k > 0
    ensures Flatten(Split(s, k)) == s
    ensures forall p :: p in Split(s, k) ==> 0 < |p| <= k
    decreases |s|
  {
    if |s| > k {
      SplitFlatten(s[k..], k);
      FlattenPrepend(s[..k], Split(s[k..], k));
      assert s[..k] + s[k..] == s;
    } else if s != [] {
      FlattenPrepend(s, []);
      assert s + Flatten([]) == s;
    }
  }

  /** The i-th fragment: the first one keeps the other NDNLPv2 fields of the packet. */
  function Fragment(p: LpPacket, i: Uint64, count: Uint64, piece: seq<Octet>): LpPacket {
    (if i == 0 then p else EMPTY).(fragIndex := Some(i), fragCount := Some(count), fragment := Some(piece))
  }

  /** What is required of a list of fragments of p. */
  ghost predicate FragmentsOf(frags: seq<LpPacket>, p: LpPacket, mtu: nat)
    requires Fragmentable(p)
  {
    2 <= |frags| < TWO_64 &&
    (forall f :: f in frags ==> f.fragment.Some?) &&
    Payload(frags) == p.fragment.value &&
    (forall i :: 0 <= i < |frags| ==> FragmentOk(frags[i], i, |frags|, p, mtu))
  }

  ghost predicate FragmentOk(f: LpPacket, i: Uint64, count: Uint64, p: LpPacket, mtu: nat) {
    f.fragIndex == Some(i) && f.fragCount == Some(count) &&
    f.fragment.Some? && f.fragment.value != [] &&
    f.headers == (if i == 0 then p.headers else []) &&
    f.sequence == (if i == 0 then p.sequence else None) &&
    forall s: Uint64 :: WireSize(f.(sequence := Some(s))) <= mtu
  }

  function Assemble(p: LpPacket, pieces: seq<seq<Octet>>): (frags: seq<LpPacket>)
    requires |pieces| < TWO_64
    ensures |frags| == |pieces|
  {
    seq(|pieces|, i requires 0 <= i < |pieces| => Fragment(p, i, |pieces|, pieces[i]))
  }

  /** fragmentPacket as a function: None when the packet has to be dropped. */
  function FragmentSpec(p: LpPacket, mtu: nat, nMaxFragments: nat): Option<seq<LpPacket>>
    requires Fragmentable(p) && nMaxFragments < TWO_64
  {
    if MAX_SINGLE_FRAG_OVERHEAD + WireSize(p) <= mtu then Some([p]) else
    var net := p.fragment.value;
    var firstHeaderSize := FirstHeaderSize(p);
    if MAX_FRAG_OVERHEAD + firstHeaderSize + 1 > mtu then None else
    var first := Min(|net|, mtu - firstHeaderSize - MAX_FRAG_OVERHEAD);
    var k := mtu - MAX_FRAG_OVERHEAD;
    PiecesCount(net, first, k);
    if FragCount(|net|, first, k) > nMaxFragments then None else Some(Assemble(p, Pieces(net, first, k)))
  }

  function FirstHeaderSize(p: LpPacket): nat {
    if IsBare(p) then 0 else HeaderOctets(p)
  }

  lemma PiecesCount(s: seq<Octet>, first: nat, k: nat)
    requires first <= |s| && k > 0
    ensures |Pieces(s, first, k)| == FragCount(|s|, first, k)
  {
    SplitCount(s[first..], k);
  }

  /** The fast path leaves the packet alone; the slow path makes at least two fragments, whose
      payloads put end to end are the packet's, each of which encodes within the MTU whatever
      sequence number it is given. */
  lemma FragmentSpecCorrect(p: LpPacket, mtu: nat, nMaxFragments: nat)
    requires Fragmentable(p) && nMaxFragments < TWO_64
    ensures var r := FragmentSpec(p, mtu, nMaxFragments);
      r.Some? ==> if MAX_SINGLE_FRAG_OVERHEAD + WireSize(p) <= mtu then r.value == [p]
                  else FragmentsOf(r.value, p, mtu) && |r.value| <= nMaxFragments
  {
    hide WireSize, FragmentsOf, Pieces, Assemble, FragCount;
    var r := FragmentSpec(p, mtu, nMaxFragments);
    if MAX_SINGLE_FRAG_OVERHEAD + WireSize(p) > mtu && r.Some? {
      var net := p.fragment.value;
      SlowPathSplits(p, mtu);
      var first := mtu - FirstHeaderSize(p) - MAX_FRAG_OVERHEAD;
      assert Min(|net|, first) == first;
      PiecesCount(net, first, mtu - MAX_FRAG_OVERHEAD);
      AssembledFragments(p, first, mtu);
    }
  }

  /** Whether a packet can be sent in pieces: the first takes at least one octet, and all of the payload
      fits into as many fragments as are allowed, the first of which carries the headers. */
  predicate FitsFragments(p: LpPacket, mtu: nat, nMaxFragments: nat)
    requires p.fragment.Some?
  {
    MAX_FRAG_OVERHEAD + HeaderOctets(p) + 1 <= mtu &&
    |p.fragment.value| <= mtu - MAX_FRAG_OVERHEAD - HeaderOctets(p) + (nMaxFragments - 1) * (mtu - MAX_FRAG_OVERHEAD)
  }

  /** A packet is dropped if and only if it misses the fast path and does not fit the fragments allowed. */
  lemma FragmentedIff(p: LpPacket, mtu: nat, nMaxFragments: nat)
    requires Fragmentable(p) && nMaxFragments < TWO_64
    ensures FragmentSpec(p, mtu, nMaxFragments).Some? <==>
      MAX_SINGLE_FRAG_OVERHEAD + WireSize(p) <= mtu || FitsFragments(p, mtu, nMaxFragments)
  {
    hide WireSize, Assemble, Pieces;
    var h := HeaderOctets(p);
    assert FirstHeaderSize(p) == h;
    if MAX_SINGLE_FRAG_OVERHEAD + WireSize(p) > mtu && MAX_FRAG_OVERHEAD + h + 1 <= mtu {
      SlowPathSplits(p, mtu);
      var first, k := mtu - MAX_FRAG_OVERHEAD - h, mtu - MAX_FRAG_OVERHEAD;
      PiecesUpTo(|p.fragment.value| - first, k, nMaxFragments - 1);
    }
  }

  /** n octets make at most m pieces of k octets if and only if they are at most m times k. */
  lemma PiecesUpTo(n: nat, k: nat, m: int)
    requires k > 0
    ensures n / k + (if n % k != 0 then 1 else 0) <= m <==> n <= m * k
  {
    var q, r := n / k, n % k;
    assert n == q * k + r;
    Distribute(m, q, k);
    if m > q {
      Grows(m - q, k);
    } else if m < q {
      Grows(q - m, k);
      Distribute(q, m, k);
    }
  }

  lemma Grows(d: nat, k: nat)
    requires d >= 1
    ensures d * k >= k
  {
    assert (d - 1) * k >= 0;
  }

  lemma AssembledFragments(p: LpPacket, first: nat, mtu: nat)
    requires Fragmentable(p) && first == mtu - FirstHeaderSize(p) - MAX_FRAG_OVERHEAD
    requires 0 < first < |p.fragment.value|
    requires |Pieces(p.fragment.value, first, mtu - MAX_FRAG_OVERHEAD)| < TWO_64
    ensures FragmentsOf(Assemble(p, Pieces(p.fragment.value, first, mtu - MAX_FRAG_OVERHEAD)), p, mtu)
  {
    hide WireSize, FirstHeaderSize, FragmentOk;
    var net, k := p.fragment.value, mtu - MAX_FRAG_OVERHEAD;
    var pieces := Pieces(net, first, k);
    var frags := Assemble(p, pieces);
    SplitFlatten(net[first..], k);
    FlattenPrepend(net[..first], Split(net[first..], k));
    assert net[..first] + net[first..] == net;
    FragmentsCarryPieces(frags, pieces);
    assert Split(net[first..], k) != [];
    forall i | 0 <= i < |frags| ensures FragmentOk(frags[i], i, |frags|, p, mtu) {
      assert i > 0 ==> pieces[i] == Split(net[first..], k)[i - 1];
      FragmentFits(p, i, |frags|, pieces[i], mtu);
    }
  }

  /** A packet too large for the fast path is larger than the first fragment can hold. */
  lemma SlowPathSplits(p: LpPacket, mtu: nat)
    requires Fragmentable(p) && MAX_SINGLE_FRAG_OVERHEAD + WireSize(p) > mtu
    ensures |p.fragment.value| > mtu - FirstHeaderSize(p) - MAX_FRAG_OVERHEAD
  {
  }

  lemma FragmentFits(p: LpPacket, i: Uint64, count: Uint64, piece: seq<Octet>, mtu: nat)
    requires Fragmentable(p) && piece != []
    requires MAX_FRAG_OVERHEAD + (if i == 0 then FirstHeaderSize(p) else 0) + |piece| <= mtu
    ensures FragmentOk(Fragment(p, i, count, piece), i, count, p, mtu)
  {
    var f := Fragment(p, i, count, piece);
    forall s: Uint64 ensures WireSize(f.(sequence := Some(s))) <= mtu {
      var g := f.(sequence := Some(s));
      assert HeaderOctets(g) <= (if i == 0 then FirstHeaderSize(p) else 0) + 30;
    }
  }

  lemma {:induction false} FragmentsCarryPieces(frags: seq<LpPacket>, pieces: seq<seq<Octet>>)
    requires |frags| == |pieces|
    requires forall i :: 0 <= i < |frags| ==> frags[i].fragment == Some(pieces[i])
    ensures forall f :: f in frags ==> f.fragment.Some?
    ensures Payload(frags) == Flatten(pieces)
  {
    if frags != [] {
      FragmentsCarryPieces(frags[1..], pieces[1..]);
    }
  }

  /** Splits the network packet, as the source does, with one pass over its octets. */
  method FragmentPacket(packet: LpPacket, mtu: nat, nMaxFragments: nat) returns (r: Option<seq<LpPacket>>)
    requires Fragmentable(packet) && nMaxFragments < TWO_64
    ensures r == FragmentSpec(packet, mtu, nMaxFragments)
    ensures r.Some? <==>
      MAX_SINGLE_FRAG_OVERHEAD + WireSize(packet) <= mtu || FitsFragments(packet, mtu, nMaxFragments)
  {
    hide FitsFragments;
    FragmentedIff(packet, mtu, nMaxFragments);
    if MAX_SINGLE_FRAG_OVERHEAD + WireSize(packet) <= mtu {
      return Some([packet]);
    }
    var netPkt := packet.fragment.value;
    var firstHeaderSize := 0;
    if !IsBare(packet) {
      firstHeaderSize := HeaderOctets(packet);
    }
    if MAX_FRAG_OVERHEAD + firstHeaderSize + 1 > mtu {
      return None;
    }
    var firstPayloadSize := Min(|netPkt|, mtu - firstHeaderSize - MAX_FRAG_OVERHEAD);
    var payloadSize := mtu - MAX_FRAG_OVERHEAD;
    var fragCount := FragCount(|netPkt|, firstPayloadSize, payloadSize);
    if fragCount > nMaxFragments {
      return None;
    }
    var frags := Populate(packet, firstPayloadSize, payloadSize, fragCount);
    r := Some(frags);
  }

  method Populate(packet: LpPacket, first: nat, k: nat, fragCount: nat) returns (frags: seq<LpPacket>)
    requires Fragmentable(packet) && k > 0 && 0 < first <= |packet.fragment.value|
    requires fragCount == FragCount(|packet.fragment.value|, first, k) < TWO_64
    ensures fragCount == |Pieces(packet.fragment.value, first, k)|
    ensures frags == Assemble(packet, Pieces(packet.fragment.value, first, k))
  {
    hide Split, FragCount;
    var netPkt := packet.fragment.value;
    ghost var pieces := Pieces(netPkt, first, k);
    PiecesCount(netPkt, first, k);

    frags := seq(fragCount, _ => EMPTY);
    frags := frags[0 := packet];
    var fragIndex := 0;
    var fragBegin, fragEnd := 0, first;
    ghost var left := Split(netPkt[first..], k);
    while fragBegin < |netPkt|
      invariant |frags| == fragCount == |pieces|
      invariant 0 <= fragBegin <= fragEnd <= |netPkt|
      invariant 0 <= fragIndex <= |pieces|
      invariant if fragBegin == |netPkt| then fragIndex == |pieces| else
          fragBegin < fragEnd && left == Split(netPkt[fragEnd..], k) &&
          pieces[fragIndex..] == [netPkt[fragBegin..fragEnd]] + left
      invariant forall j :: 0 <= j < fragIndex ==> frags[j] == Fragment(packet, j, fragCount, pieces[j])
      invariant forall j :: fragIndex <= j < fragCount ==> frags[j] == if j == 0 then packet else EMPTY
      decreases |netPkt| - fragBegin
    {
      assert pieces[fragIndex] == pieces[fragIndex..][0];
      var frag := frags[fragIndex];
      frag := frag.(fragIndex := Some(fragIndex));
      frag := frag.(fragCount := Some(fragCount));
      frag := frag.(fragment := Some(netPkt[fragBegin..fragEnd]));
      frags := frags[fragIndex := frag];

      assert pieces[fragIndex + 1..] == pieces[fragIndex..][1..] == left;
      fragIndex := fragIndex + 1;
      fragBegin := fragEnd;
      fragEnd := Min(|netPkt|, fragBegin + k);
      NextPiece(netPkt, fragBegin, k);
      left := Split(netPkt[fragEnd..], k);
    }
  }

  /** What the loop cuts off next is the next piece. */
  lemma NextPiece(net: seq<Octet>, begin: nat, k: nat)
    requires begin <= |net| && k > 0
    ensures var end := Min(|net|, begin + k);
      Split(net[begin..], k) == if begin == |net| then [] else [net[begin..end]] + Split(net[end..], k)
  {
    var s := net[begin..];
    if |s| > k {
      assert s[..k] == net[begin..begin + k] && s[k..] == net[begin + k..];
    } else if s != [] {
      assert net[begin..|net|] == s && net[|net|..] == [];
    }
  }
}
