/**
 * The arithmetic behind the address fields of IPMaskDisplay.jsx: a click on a bit (a toggle, or
 * on the mask a new prefix length), the octet update that keeps a mask's octets around the edited
 * one at 255 and 0, the contiguous masks that result, and the network and broadcast addresses.
 */
module Octets {
  import opened Wrappers
  import opened Binary
  import opened TextInput
  import opened BitRanges

  /** The octet value whose first k bits are 1: 0, 128, 192, ..., 255. */
  function PrefixOctet(k: nat): (v: int)
    requires k <= 8
    ensures IsByte(v)
    ensures v == 256 - Pow2(8 - k)
  {
    LeadingOnesValue(8, k);
    FromBits(LeadingOnes(8, k))
  }

  /** Its bits are k ones followed by zeros. */
  lemma PrefixOctetBits(k: nat)
    requires k <= 8
    ensures Bits(PrefixOctet(k), 8) == LeadingOnes(8, k)
  {
    BitsOfFromBits(LeadingOnes(8, k));
  }

  /**
   * `Octet.handleBitChange` on a mask: a 32-entry array is filled with the octet's own bits, then
   * every entry up to the clicked bit is set to 1 and every later one to 0, and the octet's eight
   * entries are read back.  The old value is overwritten entirely, so the result is the octet with
   * the first index + 1 bits set.
   */
  method MaskBitClick(octetIndex: int, index: int, value: int) returns (newValue: int)
    requires 0 <= octetIndex < 4 && 0 <= index < 8 && IsByte(value)
    ensures IsByte(newValue)
    ensures Bits(newValue, 8) == LeadingOnes(8, index + 1)
    ensures newValue == 256 - Pow2(7 - index)
  {
    var bitPosition := octetIndex * 8 + index;
    var currentValue := Bits(value, 8);
    var allBits := new bool[32];
    for i := 0 to 8 {
      allBits[octetIndex * 8 + i] := currentValue[i];
    }
    for i := 0 to bitPosition + 1
      invariant forall j :: 0 <= j < i ==> allBits[j]
    {
      allBits[i] := true;
    }
    for i := bitPosition + 1 to 32
      invariant forall j :: 0 <= j <= bitPosition ==> allBits[j]
      invariant forall j :: bitPosition < j < i ==> !allBits[j]
    {
      allBits[i] := false;
    }
    var newOctetBits := allBits[octetIndex * 8 .. (octetIndex + 1) * 8];
    assert newOctetBits == LeadingOnes(8, index + 1);
    newValue := PrefixOctet(index + 1);
    PrefixOctetBits(index + 1);
  }

  /** `Octet.handleBitChange`: the mask rule on a mask, a single-bit toggle elsewhere. */
  method HandleBitChange(value: int, octetIndex: int, index: int, isMask: bool) returns (newValue: int)
    requires IsByte(value) && 0 <= octetIndex < 4 && 0 <= index < 8
    ensures IsByte(newValue)
    ensures isMask ==> newValue == 256 - Pow2(7 - index)
    ensures !isMask ==> newValue == ToggleBit(value, index)
  {
    if isMask {
      newValue := MaskBitClick(octetIndex, index, value);
    } else {
      newValue := ToggleBit(value, index);
    }
  }

  /** The octets after `handleOctetChange(index, newValue)`. */
  function OctetsAfterChange(octets: seq<int>, index: int, newValue: int, isMask: bool): (r: seq<int>)
    requires |octets| == 4 && 0 <= index < 4
    ensures |r| == 4 && r[index] == newValue
    ensures forall i :: 0 <= i < 4 && i != index ==> r[i] == if isMask then (if i < index then 255 else 0) else octets[i]
  {
    if isMask then seq(4, i => if i < index then 255 else if i == index then newValue else 0)
    else octets[index := newValue]
  }

  /**
   * `handleOctetChange`: a copy of the octets receives the new value; on a mask the octets to the
   * left are then set to 255 and those to the right to 0, one by one.
   */
  method HandleOctetChange(octets: seq<int>, index: int, newValue: int, isMask: bool) returns (newOctets: seq<int>)
    requires |octets| == 4 && 0 <= index < 4
    ensures newOctets == OctetsAfterChange(octets, index, newValue, isMask)
  {
    var a := new int[4](i requires 0 <= i < 4 => octets[i]);
    a[index] := newValue;
    if isMask {
      for i := 0 to index
        invariant a[index] == newValue
        invariant forall j :: 0 <= j < i ==> a[j] == 255
      {
        a[i] := 255;
      }
      for i := index + 1 to 4
        invariant a[index] == newValue
        invariant forall j :: 0 <= j < index ==> a[j] == 255
        invariant forall j :: index < j < i ==> a[j] == 0
      {
        a[i] := 0;
      }
    }
    newOctets := a[..];
  }

  /** The contiguous mask of prefix length n. */
  function PrefixMask(n: int): (mask: seq<int>)
    requires 0 <= n <= 32
    ensures ValidOctets(mask)
  {
    seq(4, o requires 0 <= o < 4 => PrefixOctet(if n - 8 * o < 0 then 0 else if n - 8 * o > 8 then 8 else n - 8 * o))
  }

  /** Bit j of the 32 is bit j % 8 of octet j / 8. */
  lemma MaskBitsIndex(x: seq<int>, j: int)
    requires ValidOctets(x) && 0 <= j < 32
    ensures MaskBits(x)[j] == Bits(x[j / 8], 8)[j % 8]
  {
    MaskBitAtPosition(x, j / 8, j % 8);
  }

  /** The first k of k leading ones are ones and the (k+1)-th, if any, is not: the count is k. */
  lemma LeadingOnesCountOf(n: nat, k: nat)
    requires k <= n
    ensures LeadingOnesCount(LeadingOnes(n, k)) == k
  {
    var bs := LeadingOnes(n, k);
    var c := LeadingOnesCount(bs);
    assert c < n ==> bs[c] == (c < k);
    assert k < n ==> !bs[k];
  }

  /** The prefix mask of n has exactly n leading ones and no other ones, so its prefix length is n. */
  lemma PrefixMaskBits(n: int)
    requires 0 <= n <= 32
    ensures MaskBits(PrefixMask(n)) == LeadingOnes(32, n)
    ensures PrefixLength(PrefixMask(n)) == n
  {
    var mask := PrefixMask(n);
    forall j | 0 <= j < 32
      ensures MaskBits(mask)[j] == (j < n)
    {
      MaskBitsIndex(mask, j);
      var o, b := j / 8, j % 8;
      assert j == 8 * o + b && 0 <= o < 4 && 0 <= b < 8;
      var k := if n - 8 * o < 0 then 0 else if n - 8 * o > 8 then 8 else n - 8 * o;
      assert mask[o] == PrefixOctet(k);
      PrefixOctetBits(k);
      assert Bits(mask[o], 8)[b] == (b < k);
    }
    LeadingOnesCountOf(32, n);
  }

  /**
   * A mask click on bit i of octet o, passed through `handleOctetChange`, leaves the contiguous
   * mask of prefix length 8o + i + 1, whatever the mask was before.
   */
  lemma MaskClickSetsPrefix(octets: seq<int>, o: int, i: int)
    requires |octets| == 4 && 0 <= o < 4 && 0 <= i < 8
    ensures OctetsAfterChange(octets, o, 256 - Pow2(7 - i), true) == PrefixMask(8 * o + i + 1)
    ensures PrefixLength(OctetsAfterChange(octets, o, 256 - Pow2(7 - i), true)) == 8 * o + i + 1
  {
    ClickedOctet(i);
    EditedPrefixMask(octets, o, i + 1);
    PrefixMaskBits(8 * o + i + 1);
  }

  /** The octet a mask click on bit i leaves is the one with i + 1 leading ones. */
  lemma ClickedOctet(i: int)
    requires 0 <= i < 8
    ensures PrefixOctet(i + 1) == 256 - Pow2(7 - i)
  {
    var k := 8 - (i + 1);
    assert k == 7 - i;
  }

  /** Setting octet o of a mask to the octet of k >= 1 leading ones gives the prefix mask of 8o + k. */
  lemma EditedPrefixMask(octets: seq<int>, o: int, k: int)
    requires |octets| == 4 && 0 <= o < 4 && 1 <= k <= 8
    ensures OctetsAfterChange(octets, o, PrefixOctet(k), true) == PrefixMask(8 * o + k)
  {
    var v := PrefixOctet(k);
    PrefixOctetEnds();
    var after := OctetsAfterChange(octets, o, v, true);
    var mask := PrefixMask(8 * o + k);
    if o == 0 {
      assert after == [v, 0, 0, 0] == mask;
    } else if o == 1 {
      assert after == [255, v, 0, 0] == mask;
    } else if o == 2 {
      assert after == [255, 255, v, 0] == mask;
    } else {
      assert after == [255, 255, 255, v] == mask;
    }
  }

  /** The all-ones and the all-zeros octet. */
  lemma PrefixOctetEnds()
    ensures PrefixOctet(8) == 255 && PrefixOctet(0) == 0
  {
  }

  /** Counting leading ones over a concatenation: the second part counts only if the first is all ones. */
  lemma {:induction false} LeadingOnesCountAppend(a: seq<bool>, b: seq<bool>)
    ensures LeadingOnesCount(a + b) == if LeadingOnesCount(a) == |a| then |a| + LeadingOnesCount(b) else LeadingOnesCount(a)
  {
    if a != [] {
      assert (a + b)[0] == a[0];
      assert (a + b)[1..] == a[1..] + b;
      LeadingOnesCountAppend(a[1..], b);
      assert LeadingOnesCount(a) == if a[0] then 1 + LeadingOnesCount(a[1..]) else 0;
      assert LeadingOnesCount(a + b) == if a[0] then 1 + LeadingOnesCount(a[1..] + b) else 0;
    } else {
      assert a + b == b;
    }
  }

  /** Runs of ones, and runs of zeros, join into longer runs. */
  lemma RunsJoin(a: nat, b: nat)
    ensures LeadingOnes(a, a) + LeadingOnes(b, b) == LeadingOnes(a + b, a + b)
    ensures LeadingOnes(a, 0) + LeadingOnes(b, 0) == LeadingOnes(a + b, 0)
  {
  }

  /** The 32 bits of a mask after octet o was set to v: 8o ones, the bits of v, then zeros. */
  lemma MaskEditBits(octets: seq<int>, o: int, v: int)
    requires |octets| == 4 && 0 <= o < 4 && IsByte(v)
    ensures ValidOctets(OctetsAfterChange(octets, o, v, true))
    ensures MaskBits(OctetsAfterChange(octets, o, v, true)) == LeadingOnes(8 * o, 8 * o) + Bits(v, 8) + LeadingOnes(24 - 8 * o, 0)
  {
    var after := OctetsAfterChange(octets, o, v, true);
    PrefixOctetEnds();
    PrefixOctetBits(8);
    PrefixOctetBits(0);
    var ones, zeros, bits := LeadingOnes(8, 8), LeadingOnes(8, 0), Bits(v, 8);
    RunsJoin(8, 8);
    RunsJoin(16, 8);
    assert LeadingOnes(0, 0) == [];
    if o == 0 {
      assert MaskBits(after) == [] + bits + (zeros + zeros + zeros);
    } else if o == 1 {
      assert MaskBits(after) == ones + bits + (zeros + zeros);
    } else if o == 2 {
      assert MaskBits(after) == (ones + ones) + bits + zeros;
    } else {
      assert MaskBits(after) == (ones + ones + ones) + bits + [];
    }
  }

  /**
   * A value typed into octet o of the mask keeps its own bits there: the prefix length is 8o plus
   * the leading ones of the typed value, and later ones in it are ignored.
   */
  lemma MaskOctetEditPrefix(octets: seq<int>, o: int, v: int)
    requires |octets| == 4 && 0 <= o < 4 && IsByte(v)
    ensures ValidOctets(OctetsAfterChange(octets, o, v, true))
    ensures PrefixLength(OctetsAfterChange(octets, o, v, true)) == 8 * o + LeadingOnesCount(Bits(v, 8))
  {
    var after := OctetsAfterChange(octets, o, v, true);
    var ones, zeros := LeadingOnes(8 * o, 8 * o), LeadingOnes(24 - 8 * o, 0);
    MaskEditBits(octets, o, v);
    assert MaskBits(after) == ones + (Bits(v, 8) + zeros);
    LeadingOnesCountOf(8 * o, 8 * o);
    LeadingOnesCountOf(24 - 8 * o, 0);
    LeadingOnesCountAppend(ones, Bits(v, 8) + zeros);
    LeadingOnesCountAppend(Bits(v, 8), zeros);
  }

  /**
   * A click on bit i of octet o of an address (not a mask), passed through `handleOctetChange`,
   * flips position 8o + i of the 32 bits and no other.
   */
  lemma AddressClickFlipsOneBit(octets: seq<int>, o: int, i: int)
    requires ValidOctets(octets) && 0 <= o < 4 && 0 <= i < 8
    ensures ValidOctets(OctetsAfterChange(octets, o, ToggleBit(octets[o], i), false))
    ensures MaskBits(OctetsAfterChange(octets, o, ToggleBit(octets[o], i), false)) ==
      MaskBits(octets)[8 * o + i := !MaskBits(octets)[8 * o + i]]
  {
    var after := OctetsAfterChange(octets, o, ToggleBit(octets[o], i), false);
    ToggleBitBits(octets[o], i);
    forall j | 0 <= j < 32
      ensures MaskBits(after)[j] == MaskBits(octets)[8 * o + i := !MaskBits(octets)[8 * o + i]][j]
    {
      MaskBitsIndex(after, j);
      MaskBitsIndex(octets, j);
      MaskBitsIndex(octets, 8 * o + i);
    }
  }

  /** `setNetworkAddress`: each octet ANDed with the mask's. */
  function Network(octets: seq<int>, mask: seq<int>): (r: seq<int>)
    requires ValidOctets(octets) && ValidOctets(mask)
    ensures ValidOctets(r)
  {
    seq(4, i requires 0 <= i < 4 => ByteAnd(octets[i], mask[i]))
  }

  /** `setBroadcastAddress`: each octet ORed with the low eight bits of the mask's complement. */
  function Broadcast(octets: seq<int>, mask: seq<int>): (r: seq<int>)
    requires ValidOctets(octets) && ValidOctets(mask)
    ensures ValidOctets(r)
  {
    seq(4, i requires 0 <= i < 4 => ByteOr(octets[i], ByteNot(mask[i])))
  }

  /**
   * Bit by bit: where the mask has a 1 both addresses keep the address's bit; where it has a 0 the
   * network address has 0 and the broadcast address 1.
   */
  lemma NetworkBroadcastBits(octets: seq<int>, mask: seq<int>, j: int)
    requires ValidOctets(octets) && ValidOctets(mask) && 0 <= j < 32
    ensures MaskBits(Network(octets, mask))[j] == (MaskBits(mask)[j] && MaskBits(octets)[j])
    ensures MaskBits(Broadcast(octets, mask))[j] == (!MaskBits(mask)[j] || MaskBits(octets)[j])
  {
    MaskBitsIndex(Network(octets, mask), j);
    MaskBitsIndex(Broadcast(octets, mask), j);
    MaskBitsIndex(mask, j);
    MaskBitsIndex(octets, j);
  }

  /** Octet by octet, the network address is at most the address and the broadcast address at least. */
  lemma NetworkBelowBroadcast(octets: seq<int>, mask: seq<int>)
    requires ValidOctets(octets) && ValidOctets(mask)
    ensures forall i :: 0 <= i < 4 ==> Network(octets, mask)[i] <= octets[i] <= Broadcast(octets, mask)[i]
  {
    forall i | 0 <= i < 4
      ensures Network(octets, mask)[i] <= octets[i] <= Broadcast(octets, mask)[i]
    {
      AndOrBounds(octets[i], mask[i]);
      AndOrBounds(octets[i], ByteNot(mask[i]));
    }
  }

  /** Two addresses with the same 32 bits are the same. */
  lemma SameBitsSameOctets(x: seq<int>, y: seq<int>)
    requires ValidOctets(x) && ValidOctets(y)
    requires MaskBits(x) == MaskBits(y)
    ensures x == y
  {
    forall o | 0 <= o < 4
      ensures x[o] == y[o]
    {
      forall b | 0 <= b < 8
        ensures Bits(x[o], 8)[b] == Bits(y[o], 8)[b]
      {
        MaskBitAtPosition(x, o, b);
        MaskBitAtPosition(y, o, b);
      }
      SameBitsSameByte(x[o], y[o]);
    }
  }

  /**
   * Pressing either button twice is pressing it once, and each undoes what the other did to the
   * host bits: both addresses depend only on the network bits of the address.
   */
  lemma NetworkBroadcastIdempotent(octets: seq<int>, mask: seq<int>)
    requires ValidOctets(octets) && ValidOctets(mask)
    ensures Network(Network(octets, mask), mask) == Network(octets, mask)
    ensures Broadcast(Broadcast(octets, mask), mask) == Broadcast(octets, mask)
    ensures Network(Broadcast(octets, mask), mask) == Network(octets, mask)
    ensures Broadcast(Network(octets, mask), mask) == Broadcast(octets, mask)
  {
    var n, b := Network(octets, mask), Broadcast(octets, mask);
    forall j | 0 <= j < 32
      ensures MaskBits(Network(n, mask))[j] == MaskBits(n)[j]
      ensures MaskBits(Broadcast(b, mask))[j] == MaskBits(b)[j]
      ensures MaskBits(Network(b, mask))[j] == MaskBits(n)[j]
      ensures MaskBits(Broadcast(n, mask))[j] == MaskBits(b)[j]
    {
      NetworkBroadcastBits(octets, mask, j);
      NetworkBroadcastBits(n, mask, j);
      NetworkBroadcastBits(b, mask, j);
    }
    SameBitsSameOctets(Network(n, mask), n);
    SameBitsSameOctets(Broadcast(b, mask), b);
    SameBitsSameOctets(Network(b, mask), n);
    SameBitsSameOctets(Broadcast(n, mask), b);
  }

  /**
   * With a prefix mask the network address keeps the first n bits of the address and clears the
   * rest, and the broadcast address keeps them and sets the rest: with 255.255.255.0, for example,
   * a.b.c.d gives a.b.c.0 and a.b.c.255.
   */
  lemma NetworkBroadcastOfPrefix(octets: seq<int>, n: int)
    requires ValidOctets(octets) && 0 <= n <= 32
    ensures forall j :: 0 <= j < 32 ==> MaskBits(Network(octets, PrefixMask(n)))[j] == (j < n && MaskBits(octets)[j])
    ensures forall j :: 0 <= j < 32 ==> MaskBits(Broadcast(octets, PrefixMask(n)))[j] == (j >= n || MaskBits(octets)[j])
  {
    PrefixMaskBits(n);
    forall j | 0 <= j < 32
      ensures MaskBits(Network(octets, PrefixMask(n)))[j] == (j < n && MaskBits(octets)[j])
      ensures MaskBits(Broadcast(octets, PrefixMask(n)))[j] == (j >= n || MaskBits(octets)[j])
    {
      NetworkBroadcastBits(octets, PrefixMask(n), j);
    }
  }

  /** 255.255.255.0 is the prefix mask of 24. */
  lemma Mask24()
    ensures PrefixMask(24) == [255, 255, 255, 0]
    ensures PrefixLength([255, 255, 255, 0]) == 24
  {
    var mask := PrefixMask(24);
    assert mask[0] == PrefixOctet(8) && mask[3] == PrefixOctet(0);
    assert PrefixOctet(8) == 255 && PrefixOctet(0) == 0;
    PrefixMaskBits(24);
  }

  /** The /24 case octet by octet: the last octet becomes 0 or 255 and the first three stay. */
  lemma NetworkBroadcastOf24(octets: seq<int>)
    requires ValidOctets(octets)
    ensures Network(octets, PrefixMask(24)) == octets[3 := 0]
    ensures Broadcast(octets, PrefixMask(24)) == octets[3 := 255]
  {
    Mask24();
    forall i | 0 <= i < 4
      ensures Network(octets, PrefixMask(24))[i] == octets[3 := 0][i]
      ensures Broadcast(octets, PrefixMask(24))[i] == octets[3 := 255][i]
    {
      FullAndEmptyOctet(octets[i]);
    }
  }

  /** Against a mask octet of 255 an octet is kept by both; against 0 it becomes 0 and 255. */
  lemma FullAndEmptyOctet(x: int)
    requires IsByte(x)
    ensures ByteAnd(x, 255) == x && ByteOr(x, ByteNot(255)) == x
    ensures ByteAnd(x, 0) == 0 && ByteOr(x, ByteNot(0)) == 255
  {
    PrefixOctetEnds();
    PrefixOctetBits(8);
    PrefixOctetBits(0);
    SameBitsSameByte(ByteAnd(x, 255), x);
    SameBitsSameByte(ByteOr(x, ByteNot(255)), x);
    SameBitsSameByte(ByteAnd(x, 0), 0);
    SameBitsSameByte(ByteOr(x, ByteNot(0)), 255);
  }

}
