/**
 * Bit ranges over the 32 positions of an IPv4 address (position 1 is the most significant bit of
 * the first octet): the range record, the two ranges derived from a mask, the mapping from
 * (octet, bit) to a position and the CSS classes a bit button receives.
 */
module BitRanges {
  import opened Binary
  import opened TextInput

  /** A run of positions `start..end` drawn with `cssClass` and described by `labelText` (the source's `label`, a reserved word in Dafny); nothing forces start <= end. */
  datatype BitRange = BitRange(start: int, end: int, cssClass: string, labelText: string)

  const NETWORK_CLASS: string := "bg-blue-100 hover:bg-blue-200"
  const NETWORK_LABEL: string := "Réseau"
  const HOST_CLASS: string := "bg-green-100 hover:bg-green-200"
  const HOST_LABEL: string := "Hôte"
  const DEFAULT_CLASS: string := "bit-default"

  predicate Contains(r: BitRange, p: int)
  {
    r.start <= p <= r.end
  }

  /**
   * The shape of every range the widget builds: bounds within 1..32, and at worst empty by one
   * (`[1, 0]` for a /0 mask, `[33, 32]` for a /32 mask).
   */
  predicate WellFormed(r: BitRange)
  {
    1 <= r.start <= r.end + 1 <= 33
  }

  predicate AllWellFormed(ranges: seq<BitRange>)
  {
    forall i :: 0 <= i < |ranges| ==> WellFormed(ranges[i])
  }

  /** The 32 bits of a mask, most significant first: the octets' 8-bit strings joined (`maskBits`). */
  function MaskBits(mask: seq<int>): (bits: seq<bool>)
    requires ValidOctets(mask)
    ensures |bits| == 32
  {
    Bits(mask[0], 8) + Bits(mask[1], 8) + Bits(mask[2], 8) + Bits(mask[3], 8)
  }

  /** The number of 1s before the first 0; later 1s do not count. */
  function LeadingOnesCount(bits: seq<bool>): (n: nat)
    ensures n <= |bits|
    ensures forall i :: 0 <= i < n ==> bits[i]
    ensures n < |bits| ==> !bits[n]
  {
    if bits == [] || !bits[0] then 0 else 1 + LeadingOnesCount(bits[1..])
  }

  /** The prefix length a mask stands for (`networkBits`). */
  function PrefixLength(mask: seq<int>): (n: nat)
    requires ValidOctets(mask)
    ensures n <= 32
  {
    LeadingOnesCount(MaskBits(mask))
  }

  /** The two ranges of a prefix length: the network part, then the host part. */
  function MaskRangesOf(n: int): seq<BitRange>
  {
    [BitRange(1, n, NETWORK_CLASS, NETWORK_LABEL), BitRange(n + 1, 32, HOST_CLASS, HOST_LABEL)]
  }

  /**
   * `getMaskRanges`: counts the leading 1 bits of the mask, stopping at the first 0, and returns
   * the network range `[1, n]` and the host range `[n + 1, 32]`, empty ones included.
   */
  method GetMaskRanges(mask: seq<int>) returns (ranges: seq<BitRange>)
    requires ValidOctets(mask)
    ensures ranges == MaskRangesOf(PrefixLength(mask))
  {
    var maskBits := MaskBits(mask);
    var networkBits := 0;
    var i := 0;
    while i < |maskBits|
      invariant 0 <= i <= |maskBits|
      invariant networkBits == i
      invariant forall j :: 0 <= j < i ==> maskBits[j]
    {
      if maskBits[i] {
        networkBits := networkBits + 1;
      } else {
        break;
      }
      i := i + 1;
    }
    ranges := [
      BitRange(1, networkBits, NETWORK_CLASS, NETWORK_LABEL),
      BitRange(networkBits + 1, 32, HOST_CLASS, HOST_LABEL)
    ];
  }

  /**
   * The mask ranges are two well-formed ranges that split 1..32 between them: position p is in
   * the network range exactly when the first p bits of the mask are all 1, and in the host range
   * otherwise.
   */
  lemma MaskRangesSplit(mask: seq<int>, p: int)
    requires ValidOctets(mask)
    requires 1 <= p <= 32
    ensures AllWellFormed(MaskRangesOf(PrefixLength(mask)))
    ensures Contains(MaskRangesOf(PrefixLength(mask))[0], p) <==> forall j :: 0 <= j < p ==> MaskBits(mask)[j]
    ensures Contains(MaskRangesOf(PrefixLength(mask))[1], p) <==> !Contains(MaskRangesOf(PrefixLength(mask))[0], p)
  {
    var n := PrefixLength(mask);
    if p > n {
      assert !MaskBits(mask)[n];
    }
  }

  /** `getBitPosition`: octet o, bit b (0 = most significant) is position 8o + b + 1. */
  function BitPosition(octetIndex: int, bitIndex: int): int
  {
    octetIndex * 8 + bitIndex + 1
  }

  /** The octet that holds position p. */
  function OctetOf(p: int): int
  {
    (p - 1) / 8
  }

  /** The bit within its octet of position p. */
  function BitOf(p: int): int
  {
    (p - 1) % 8
  }

  /** Octet 0..3 and bit 0..7 map one to one onto positions 1..32. */
  lemma BitPositionBijective(octetIndex: int, bitIndex: int, p: int)
    ensures 0 <= octetIndex < 4 && 0 <= bitIndex < 8 ==>
      1 <= BitPosition(octetIndex, bitIndex) <= 32 &&
      OctetOf(BitPosition(octetIndex, bitIndex)) == octetIndex &&
      BitOf(BitPosition(octetIndex, bitIndex)) == bitIndex
    ensures 1 <= p <= 32 ==>
      0 <= OctetOf(p) < 4 && 0 <= BitOf(p) < 8 && BitPosition(OctetOf(p), BitOf(p)) == p
  {
  }

  /** Position p is the bit the user sees at that place in the mask: bit b of octet o. */
  lemma MaskBitAtPosition(mask: seq<int>, octetIndex: int, bitIndex: int)
    requires ValidOctets(mask)
    requires 0 <= octetIndex < 4 && 0 <= bitIndex < 8
    ensures MaskBits(mask)[BitPosition(octetIndex, bitIndex) - 1] == Bits(mask[octetIndex], 8)[bitIndex]
  {
  }

  /** The classes of the ranges that contain position p, in range order. */
  function CoveringClasses(ranges: seq<BitRange>, p: int): (classes: seq<string>)
    ensures |classes| <= |ranges|
    ensures forall k :: 0 <= k < |classes| ==>
      exists i :: 0 <= i < |ranges| && Contains(ranges[i], p) && ranges[i].cssClass == classes[k]
    ensures forall i :: 0 <= i < |ranges| && Contains(ranges[i], p) ==> ranges[i].cssClass in classes
  {
    if ranges == [] then []
    else
      var n := |ranges|;
      CoveringClasses(ranges[..n - 1], p) + (if Contains(ranges[n - 1], p) then [ranges[n - 1].cssClass] else [])
  }

  /**
   * `getBitClasses`: "bit-default" followed by the class of every range containing the bit's
   * position, in range order, joined with spaces.
   */
  method BitClasses(octetIndex: int, bitIndex: int, bitRanges: seq<BitRange>) returns (className: string)
    ensures className == Join([DEFAULT_CLASS] + CoveringClasses(bitRanges, BitPosition(octetIndex, bitIndex)), ' ')
  {
    var position := BitPosition(octetIndex, bitIndex);
    var classes := [DEFAULT_CLASS];
    for i := 0 to |bitRanges|
      invariant classes == [DEFAULT_CLASS] + CoveringClasses(bitRanges[..i], position)
    {
      var range := bitRanges[i];
      assert bitRanges[..i + 1][..i] == bitRanges[..i];
      if position >= range.start && position <= range.end {
        classes := classes + [range.cssClass];
      }
    }
    assert bitRanges[..|bitRanges|] == bitRanges;
    className := Join(classes, ' ');
  }
}
