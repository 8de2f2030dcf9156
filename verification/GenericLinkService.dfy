/** Sending network packets over a link (face/generic-link-service.cpp). */
module GenericLinkService {
  import opened Common
  import opened LpPacket
  import opened LpFragmenter

  /** m_lastSeqNo starts at -2, so the first fragment ever sent is numbered 2^64 - 1. */
  const INITIAL_LAST_SEQ_NO: Uint64 := TWO_64 - 2

  function After(seqNo: Uint64, n: nat): Uint64 {
    (seqNo + n) % TWO_64
  }

  lemma AfterAdds(seqNo: Uint64, i: nat, j: nat)
    ensures After(After(seqNo, i), j) == After(seqNo, i + j)
  {
  }

  lemma AfterZero(seqNo: Uint64)
    ensures After(seqNo, 0) == seqNo
  {
  }

  /** Options of the link service and the MTU of its transport; None is MTU_UNLIMITED. */
  datatype Link = Link(allowFragmentation: bool, nMaxFragments: Uint64, mtu: Option<nat>)

  /** Numbers the fragments consecutively, wrapping at 2^64. */
  function Sequenced(frags: seq<LpPacket>, lastSeqNo: Uint64): (r: seq<LpPacket>)
    ensures |r| == |frags|
  {
    seq(|frags|, i requires 0 <= i < |frags| => frags[i].(sequence := Some(After(lastSeqNo, i + 1))))
  }

  /** The link-layer packets made from p; None when p is dropped by the fragmenter. */
  function Frames(link: Link, lastSeqNo: Uint64, p: LpPacket): Option<seq<LpPacket>>
    requires Fragmentable(p)
  {
    var frags := if link.allowFragmentation && link.mtu.Some?
                 then FragmentSpec(p, link.mtu.value, link.nMaxFragments) else Some([p]);
    if frags.Some? && |frags.value| > 1 then Some(Sequenced(frags.value, lastSeqNo)) else frags
  }

  function NextSeqNo(link: Link, lastSeqNo: Uint64, p: LpPacket): Uint64
    requires Fragmentable(p)
  {
    var frames := Frames(link, lastSeqNo, p);
    if frames.Some? && |frames.value| > 1 then After(lastSeqNo, |frames.value|) else lastSeqNo
  }

  /** Packets that the link sends: any where it does not fragment, else those that fit the MTU, whole or
      in pieces. */
  predicate Takes(link: Link, p: LpPacket)
    requires Fragmentable(p)
  {
    !link.allowFragmentation || link.mtu.None? || MAX_SINGLE_FRAG_OVERHEAD + WireSize(p) <= link.mtu.value ||
    FitsFragments(p, link.mtu.value, link.nMaxFragments)
  }

  lemma FramesIff(link: Link, lastSeqNo: Uint64, p: LpPacket)
    requires Fragmentable(p)
    ensures Frames(link, lastSeqNo, p).Some? <==> Takes(link, p)
  {
    hide FragmentSpec, WireSize, FitsFragments, Sequenced;
    if link.allowFragmentation && link.mtu.Some? {
      FragmentedIff(p, link.mtu.value, link.nMaxFragments);
    }
  }

  predicate FitsMtu(link: Link, f: LpPacket) {
    link.mtu.Some? ==> WireSize(f) <= link.mtu.value
  }

  /** The frames the transport accepts; the others are counted and dropped. */
  function Fitting(link: Link, frames: seq<LpPacket>): (r: seq<LpPacket>)
    ensures |r| <= |frames|
  {
    if frames == [] then []
    else Fitting(link, frames[..|frames| - 1]) +
         (if FitsMtu(link, frames[|frames| - 1]) then [frames[|frames| - 1]] else [])
  }

  /** Exactly the frames within the MTU pass. */
  lemma {:induction false} FittingExactly(link: Link, frames: seq<LpPacket>)
    ensures forall f :: f in Fitting(link, frames) <==> f in frames && (link.mtu.None? || WireSize(f) <= link.mtu.value)
  {
    hide WireSize;
    if frames != [] {
      var init, last := frames[..|frames| - 1], frames[|frames| - 1];
      FittingExactly(link, init);
      assert frames == init + [last];
    }
  }

  lemma {:induction false} AllFit(link: Link, frames: seq<LpPacket>)
    requires forall f :: f in frames ==> FitsMtu(link, f)
    ensures Fitting(link, frames) == frames
  {
    if frames != [] {
      AllFit(link, frames[..|frames| - 1]);
      assert frames[|frames| - 1] in frames;
      assert frames == frames[..|frames| - 1] + [frames[|frames| - 1]];
    }
  }

  /** What is sent for p arrives at the transport whole: nothing is over the MTU; one frame is p itself;
      several are fragments numbered from `first` that carry its payload and headers. */
  ghost predicate SentWhole(link: Link, p: LpPacket, frames: seq<LpPacket>, first: Uint64) {
    p.fragment.Some? && frames != [] &&
    Fitting(link, frames) == frames &&
    (|frames| == 1 ==> frames == [p]) &&
    (|frames| != 1 ==> Numbered(frames, first) && |frames| <= link.nMaxFragments) &&
    (forall f :: f in frames ==> f.fragment.Some?) &&
    Payload(frames) == p.fragment.value && frames[0].headers == p.headers
  }

  lemma OneFrame(link: Link, p: LpPacket, first: Uint64)
    requires Fragmentable(p) && FitsMtu(link, p)
    ensures SentWhole(link, p, [p], first)
  {
    hide FitsMtu, WireSize;
    AllFit(link, [p]);
    assert Payload([p]) == p.fragment.value + Payload([]);
  }

  lemma ManyFrames(link: Link, lastSeqNo: Uint64, p: LpPacket, frags: seq<LpPacket>)
    requires link.mtu.Some? && Fragmentable(p) && FragmentsOf(frags, p, link.mtu.value) && |frags| <= link.nMaxFragments
    ensures SentWhole(link, p, Sequenced(frags, lastSeqNo), After(lastSeqNo, 1))
  {
    hide FitsMtu, After, Fitting, FragmentOk;
    var frames := Sequenced(frags, lastSeqNo);
    SequencedFits(link, frags, lastSeqNo, p);
    NumberedCarries(frames, After(lastSeqNo, 1));
    hide Numbered;
    AllFit(link, frames);
    PayloadOfSameFragments(frags, frames);
    assert frags[0].headers == p.headers by { FirstHeaders(frags, p, link.mtu.value); }
  }

  lemma NumberedCarries(frames: seq<LpPacket>, first: Uint64)
    requires Numbered(frames, first)
    ensures 2 <= |frames| && forall f :: f in frames ==> f.fragment.Some?
  {
  }

  lemma FirstHeaders(frags: seq<LpPacket>, p: LpPacket, mtu: nat)
    requires Fragmentable(p) && FragmentsOf(frags, p, mtu)
    ensures frags[0].headers == p.headers
  {
    assert FragmentOk(frags[0], 0, |frags|, p, mtu);
  }

  /** The fast path is taken only where the packet fits. */
  lemma FastPathFits(p: LpPacket, mtu: nat)
    requires MAX_SINGLE_FRAG_OVERHEAD + WireSize(p) <= mtu
    ensures WireSize(p) <= mtu
  {
  }

  /** Where fragmentation is on, or the MTU is unlimited, whatever is sent arrives whole: nothing is
      dropped for its size. */
  lemma FramesFitMtu(link: Link, lastSeqNo: Uint64, p: LpPacket)
    requires Fragmentable(p)
    requires link.allowFragmentation || link.mtu.None?
    ensures Frames(link, lastSeqNo, p).Some? ==>
      SentWhole(link, p, Frames(link, lastSeqNo, p).value, After(lastSeqNo, 1))
  {
    hide WireSize, FragmentSpec, SentWhole, Sequenced, After, FragmentsOf, Fragmentable;
    if link.mtu.None? {
      OneFrame(link, p, After(lastSeqNo, 1));
    } else {
      var r := FragmentSpec(p, link.mtu.value, link.nMaxFragments);
      FragmentSpecCorrect(p, link.mtu.value, link.nMaxFragments);
      if r.Some? {
        if MAX_SINGLE_FRAG_OVERHEAD + WireSize(p) <= link.mtu.value {
          FastPathFits(p, link.mtu.value);
          OneFrame(link, p, After(lastSeqNo, 1));
        } else {
          FragmentsMany(r.value, p, link.mtu.value);
          ManyFrames(link, lastSeqNo, p, r.value);
        }
      }
    }
  }

  lemma FragmentsMany(frags: seq<LpPacket>, p: LpPacket, mtu: nat)
    requires Fragmentable(p) && FragmentsOf(frags, p, mtu)
    ensures |frags| >= 2
  {
  }

  /** Fragments of one message: indexed from zero and numbered from `first`. */
  ghost predicate Numbered(frames: seq<LpPacket>, first: Uint64) {
    2 <= |frames| < TWO_64 &&
    forall i :: 0 <= i < |frames| ==>
      frames[i].fragment.Some? && frames[i].fragIndex == Some(i) &&
      frames[i].fragCount == Some(|frames|) && frames[i].sequence == Some(After(first, i))
  }

  lemma SequencedFits(link: Link, frags: seq<LpPacket>, lastSeqNo: Uint64, p: LpPacket)
    requires link.mtu.Some? && Fragmentable(p) && FragmentsOf(frags, p, link.mtu.value)
    ensures Numbered(Sequenced(frags, lastSeqNo), After(lastSeqNo, 1))
    ensures forall f :: f in Sequenced(frags, lastSeqNo) ==> FitsMtu(link, f)
  {
    hide WireSize, After;
    var frames := Sequenced(frags, lastSeqNo);
    forall i | 0 <= i < |frames|
      ensures FitsMtu(link, frames[i]) && frames[i].fragment.Some?
      ensures frames[i].fragIndex == Some(i) && frames[i].fragCount == Some(|frames|)
      ensures frames[i].sequence == Some(After(After(lastSeqNo, 1), i))
    {
      assert FragmentOk(frags[i], i, |frags|, p, link.mtu.value);
      AfterAdds(lastSeqNo, 1, i);
    }
  }

  class GenericLinkService {
    const link: Link
    var lastSeqNo: Uint64
    var nFragmentationErrors: nat
    var nOutOverMtu: nat
    var sent: seq<LpPacket>

    constructor (link: Link)
      ensures this.link == link && lastSeqNo == INITIAL_LAST_SEQ_NO
      ensures sent == [] && nFragmentationErrors == nOutOverMtu == 0
    {
      this.link := link;
      lastSeqNo := INITIAL_LAST_SEQ_NO;
      nFragmentationErrors, nOutOverMtu, sent := 0, 0, [];
    }

    method SendNetPacket(pkt: LpPacket)
      requires Fragmentable(pkt)
      modifies this
      ensures var frames := Frames(link, old(lastSeqNo), pkt);
        lastSeqNo == NextSeqNo(link, old(lastSeqNo), pkt) &&
        if frames.None? then
          sent == old(sent) && nOutOverMtu == old(nOutOverMtu) &&
          nFragmentationErrors == old(nFragmentationErrors) + 1
        else
          sent == old(sent) + Fitting(link, frames.value) &&
          nOutOverMtu == old(nOutOverMtu) + |frames.value| - |Fitting(link, frames.value)| &&
          nFragmentationErrors == old(nFragmentationErrors)
      ensures nFragmentationErrors == old(nFragmentationErrors) + if Takes(link, pkt) then 0 else 1
      ensures old(sent) <= sent
      ensures link.mtu.Some? ==> forall f :: f in sent[|old(sent)|..] ==> WireSize(f) <= link.mtu.value
    {
      hide WireSize, FragmentSpec, FitsFragments, Fitting, Takes;
      FramesIff(link, lastSeqNo, pkt);
      var frags := [pkt];
      if link.allowFragmentation && link.mtu.Some? {
        var r := FragmentPacket(pkt, link.mtu.value, link.nMaxFragments);
        if r.None? {
          nFragmentationErrors := nFragmentationErrors + 1;
          return;
        }
        frags := r.value;
      }
      if |frags| > 1 {
        frags := AssignSequences(frags);
      }
      FittingExactly(link, frags);
      ghost var before := sent;
      Transmit(frags);
      assert sent[|before|..] == Fitting(link, frags);
    }

    method AssignSequences(pkts: seq<LpPacket>) returns (r: seq<LpPacket>)
      modifies this`lastSeqNo
      ensures r == Sequenced(pkts, old(lastSeqNo))
      ensures lastSeqNo == After(old(lastSeqNo), |pkts|)
    {
      hide After;
      r := pkts;
      AfterZero(lastSeqNo);
      for i := 0 to |pkts|
        invariant |r| == |pkts|
        invariant forall j :: 0 <= j < i ==> r[j] == pkts[j].(sequence := Some(After(old(lastSeqNo), j + 1)))
        invariant forall j :: i <= j < |pkts| ==> r[j] == pkts[j]
        invariant lastSeqNo == After(old(lastSeqNo), i)
      {
        AfterAdds(old(lastSeqNo), i, 1);
        lastSeqNo := After(lastSeqNo, 1);
        r := r[i := r[i].(sequence := Some(lastSeqNo))];
      }
    }

    method Transmit(frags: seq<LpPacket>)
      modifies this`sent, this`nOutOverMtu
      ensures sent == old(sent) + Fitting(link, frags)
      ensures nOutOverMtu == old(nOutOverMtu) + |frags| - |Fitting(link, frags)|
    {
      hide WireSize;
      for i := 0 to |frags|
        invariant sent == old(sent) + Fitting(link, frags[..i])
        invariant nOutOverMtu == old(nOutOverMtu) + i - |Fitting(link, frags[..i])|
      {
        assert frags[..i + 1][..i] == frags[..i];
        if link.mtu.Some? && WireSize(frags[i]) > link.mtu.value {
          nOutOverMtu := nOutOverMtu + 1;
          continue;
        }
        sent := sent + [frags[i]];
      }
      assert frags[..|frags|] == frags;
    }
  }
}
