/** The Type-Length-Value encoding of the NDN Packet Format Specification, as far as the
    link layer depends on it: sizes of encoded numbers and of the element at the head of a
    buffer (what Block::fromBuffer decides). */
module Tlv {
  import opened Common

  /** Octets of a TLV-TYPE or TLV-LENGTH ("Variable Size Encoding"). */
  function VarSize(n: nat): (r: nat)
    ensures 1 <= r <= 9
  {
    if n < 253 then 1 else if n < 0x1_0000 then 3 else if n < 0x1_0000_0000 then 5 else 9
  }

  /** Octets of a number in a TLV-VALUE ("Non Negative Integer Encoding"). */
  function NonNegativeIntegerSize(n: nat): (r: nat)
    ensures 1 <= r <= 8
  {
    if n < 0x100 then 1 else if n < 0x1_0000 then 2 else if n < 0x1_0000_0000 then 4 else 8
  }

  function BigEndian(s: seq<Octet>): nat {
    if s == [] then 0 else BigEndian(s[..|s| - 1]) * 256 + s[|s| - 1] as nat
  }

  /** Reads one variable-size number: its value and how many octets it took. */
  function ReadVarNumber(s: seq<Octet>): (r: Option<(nat, nat)>)
    ensures r.Some? ==> 1 <= r.value.1 <= |s|
  {
    if s == [] then None
    else if s[0] < 253 then Some((s[0] as nat, 1))
    else
      var n := if s[0] == 253 then 2 else if s[0] == 254 then 4 else 8;
      if |s| < 1 + n then None else Some((BigEndian(s[1..1 + n]), 1 + n))
  }

  /** Size of the complete TLV element at the head of the buffer, if there is one. */
  function ElementSize(s: seq<Octet>): (r: Option<nat>)
    ensures r.Some? ==> 2 <= r.value <= |s|
  {
    var t := ReadVarNumber(s);
    if t.None? || t.value.0 > 0xFFFF_FFFF then None else
    var l := ReadVarNumber(s[t.value.1..]);
    if l.None? then None else
    var total := t.value.1 + l.value.1 + l.value.0;
    if total > |s| then None else Some(total)
  }

  lemma ReadVarNumberStable(s: seq<Octet>, more: seq<Octet>)
    requires ReadVarNumber(s).Some?
    ensures ReadVarNumber(s + more) == ReadVarNumber(s)
  {
    if s[0] >= 253 {
      var n := if s[0] == 253 then 2 else if s[0] == 254 then 4 else 8;
      assert (s + more)[1..1 + n] == s[1..1 + n];
    }
  }

  /** More octets behind a complete element change nothing about it. */
  lemma ElementSizeStable(s: seq<Octet>, more: seq<Octet>)
    requires ElementSize(s).Some?
    ensures ElementSize(s + more) == ElementSize(s)
  {
    ReadVarNumberStable(s, more);
    var t := ReadVarNumber(s).value.1;
    ReadVarNumberStable(s[t..], more);
    assert (s + more)[t..] == s[t..] + more;
  }

  /** A whole buffer that is exactly one element: what a network packet looks like. */
  predicate IsElement(s: seq<Octet>) {
    ElementSize(s) == Some(|s|)
  }

  /** n as k octets, the most significant first. */
  function Digits(n: nat, k: nat): (r: seq<Octet>)
    ensures |r| == k
  {
    if k == 0 then [] else Digits(n / 256, k - 1) + [(n % 256) as Octet]
  }

  function Power(k: nat): nat {
    if k == 0 then 1 else 256 * Power(k - 1)
  }

  lemma {:induction false} BigEndianDigits(n: nat, k: nat)
    requires n < Power(k)
    ensures BigEndian(Digits(n, k)) == n
  {
    if k > 0 {
      BigEndianDigits(n / 256, k - 1);
      assert Digits(n, k)[..k - 1] == Digits(n / 256, k - 1);
    }
  }

  /** A number in the shortest of its encodings. */
  function VarNumber(n: nat): seq<Octet> {
    if n < 253 then [n as Octet]
    else if n < 0x1_0000 then [253] + Digits(n, 2)
    else if n < 0x1_0000_0000 then [254] + Digits(n, 4)
    else [255] + Digits(n, 8)
  }

  /** Numbers are read back as they are encoded, whatever follows. */
  lemma ReadBack(n: nat, more: seq<Octet>)
    requires n < TWO_64
    ensures |VarNumber(n)| == VarSize(n) && ReadVarNumber(VarNumber(n) + more) == Some((n, VarSize(n)))
  {
    var s := VarNumber(n) + more;
    if n >= 253 {
      var k := VarSize(n) - 1;
      assert s[1..1 + k] == Digits(n, k);
      Powers();
      BigEndianDigits(n, k);
    }
  }

  lemma Powers()
    ensures Power(2) == 0x1_0000 && Power(4) == 0x1_0000_0000 && Power(8) == TWO_64
  {
    assert Power(1) == 256 && Power(2) == 256 * Power(1) && Power(3) == 256 * Power(2) && Power(4) == 256 * Power(3);
    assert Power(5) == 256 * Power(4) && Power(6) == 256 * Power(5) && Power(7) == 256 * Power(6);
  }

  /** An encoded element is one element, found at the head of any stream that begins with it. */
  lemma EncodedElement(tlvType: nat, value: seq<Octet>, more: seq<Octet>)
    requires tlvType <= 0xFFFF_FFFF && |value| < TWO_64
    ensures var element := VarNumber(tlvType) + VarNumber(|value|) + value;
      ElementSize(element + more) == Some(|element|)
  {
    var element := VarNumber(tlvType) + VarNumber(|value|) + value;
    ReadBack(tlvType, VarNumber(|value|) + value + more);
    ReadBack(|value|, value + more);
    var s := element + more;
    assert s == VarNumber(tlvType) + (VarNumber(|value|) + value + more);
    assert s[VarSize(tlvType)..] == VarNumber(|value|) + (value + more);
  }

  /** All complete elements at the head of a stream, and the octets left behind them. */
  datatype Parsed = Parsed(packets: seq<seq<Octet>>, rest: seq<Octet>) {
    /** The same result when `earlier` packets have already been taken off. */
    function Behind(earlier: seq<seq<Octet>>): Parsed {
      Parsed(earlier + packets, rest)
    }
  }

  function Parse(s: seq<Octet>): Parsed
    decreases |s|
  {
    var n := ElementSize(s);
    if n.None? then Parsed([], s) else
      var r := Parse(s[n.value..]);
      Parsed([s[..n.value]] + r.packets, r.rest)
  }

  /** Parsing loses no octet and stops only where no complete element is left. */
  lemma {:induction false} ParseSplits(s: seq<Octet>)
    ensures Flatten(Parse(s).packets) + Parse(s).rest == s
    ensures ElementSize(Parse(s).rest) == None
    decreases |s|
  {
    hide Parse, ElementSize;
    var n := ElementSize(s);
    if n.None? {
      ParseEnd(s);
    } else {
      var head, tail := s[..n.value], s[n.value..];
      ParseHead(s);
      ParseSplits(tail);
      FlattenPrepend(head, Parse(tail).packets);
      ConcatAssociative(head, Flatten(Parse(tail).packets), Parse(tail).rest);
      assert head + tail == s;
    }
  }

  /** Where no complete element is left, the stream is parsed. */
  lemma ParseEnd(s: seq<Octet>)
    requires s == [] || ElementSize(s).None?
    ensures Parse(s) == Parsed([], s)
  {
  }

  lemma ParseHead(s: seq<Octet>)
    requires ElementSize(s).Some?
    ensures var n := ElementSize(s).value;
      Parse(s).packets == [s[..n]] + Parse(s[n..]).packets && Parse(s).rest == Parse(s[n..]).rest
  {
  }

  /** Parsing can stop at any point and resume on the unparsed tail once more octets came. */
  lemma {:induction false} ParseResumes(s: seq<Octet>, more: seq<Octet>)
    ensures Parse(s + more) == Parse(Parse(s).rest + more).Behind(Parse(s).packets)
    decreases |s|
  {
    var n := ElementSize(s);
    if n.None? {
      assert Parse(s).packets + Parse(s + more).packets == Parse(s + more).packets;
    } else {
      ElementSizeStable(s, more);
      assert (s + more)[..n.value] == s[..n.value];
      assert (s + more)[n.value..] == s[n.value..] + more;
      ParseResumes(s[n.value..], more);
      var rest := Parse(s[n.value..]);
      ConcatAssociative([s[..n.value]], rest.packets, Parse(rest.rest + more).packets);
    }
  }

  /** One framing step: the element at `offset` is the next packet of the stream. */
  lemma ParseStep(s: seq<Octet>, offset: nat, element: seq<Octet>)
    requires offset <= |s| && ElementSize(s[offset..]) == Some(|element|)
    requires element == s[offset..][..|element|]
    ensures var next := Parse(s[offset + |element|..]);
      Parse(s[offset..]) == next.Behind([element])
  {
    assert s[offset..][|element|..] == s[offset + |element|..];
  }

  /** A complete packet in front of a stream is parsed off first. */
  lemma ParsePrepend(p: seq<Octet>, rest: seq<Octet>)
    requires IsElement(p)
    ensures Parse(p + rest) == Parse(rest).Behind([p])
  {
    ElementSizeStable(p, rest);
    assert (p + rest)[..|p|] == p && (p + rest)[|p|..] == rest;
  }

  /** No proper prefix of a packet is complete. */
  lemma PrefixIncomplete(p: seq<Octet>, cut: nat)
    requires IsElement(p) && cut < |p|
    ensures ElementSize(p[..cut]) == None
  {
    assert p[..cut] + p[cut..] == p;
    if ElementSize(p[..cut]).Some? {
      ElementSizeStable(p[..cut], p[cut..]);
    }
  }
}
