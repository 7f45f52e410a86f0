/**
 * The state of IPMaskDisplay.jsx and how its handlers change it.  Each address field (`IPDisplay`)
 * holds its four octets; the screen holds the three fields (mask, address, work address), the
 * three colourings and the mode.  The screen's `mask`, `ip` and `padIP` strings are always the
 * dotted text of the matching field's octets (every edit reports `octets.join('.')` upwards), so
 * they are represented here by those octets.
 */
module Session {
  import opened Wrappers
  import opened Binary
  import opened TextInput
  import opened BitRanges
  import opened Paint
  import opened MaskSync
  import opened Octets

  /** `handleCopyColors`: a range-for-range copy of the address's colouring. */
  function CopyColors(source: seq<BitRange>): (copy: seq<BitRange>)
    ensures |copy| == |source|
    ensures forall i :: 0 <= i < |source| ==> copy[i] == source[i]
  {
    seq(|source|, i requires 0 <= i < |source| =>
      BitRange(source[i].start, source[i].end, source[i].cssClass, source[i].labelText))
  }

  /** The first mask and address, 255.255.255.0 and 192.168.1.1. */
  const INITIAL_MASK: seq<int> := [255, 255, 255, 0]
  const INITIAL_IP: seq<int> := [192, 168, 1, 1]

  /** The first mask stands for /24. */
  lemma InitialMaskIs24()
    ensures ValidOctets(INITIAL_MASK) && ValidOctets(INITIAL_IP)
    ensures PrefixLength(INITIAL_MASK) == 24
  {
    Mask24();
  }

  /**
   * After the first render the address shows exactly the mask's two ranges, unless one of them
   * is a single bit (a /1 or /31 mask) or empty (a /0 or /32 mask).
   */
  lemma MountedColouring(n: int)
    requires 2 <= n <= 30
    ensures Resync(MaskRangesOf(n), MaskRangesOf(n)) == MaskRangesOf(n)
  {
    var masks := MaskRangesOf(n);
    forall x | x in masks
      ensures x.start != x.end
    {
    }
    ResyncUncustomised(masks, masks);
    NonEmptyMaskRanges(n);
  }

  /** One `IPDisplay`: four octets, edited bit by bit, octet by octet or as dotted text. */
  class AddressField {
    var octets: seq<int>
    const isMask: bool

    ghost predicate Valid()
      reads this
    {
      ValidOctets(octets)
    }

    constructor (initial: seq<int>, isMask: bool)
      requires ValidOctets(initial)
      ensures Valid() && octets == initial && this.isMask == isMask
    {
      octets := initial;
      this.isMask := isMask;
    }

    /** A bit-mode click on bit `bitIndex` of octet `octetIndex`: `handleBitChange`, then `handleOctetChange`. */
    method ClickBit(octetIndex: int, bitIndex: int)
      requires Valid() && 0 <= octetIndex < 4 && 0 <= bitIndex < 8
      modifies this
      ensures Valid()
      ensures octets == OctetsAfterChange(old(octets), octetIndex,
        if isMask then 256 - Pow2(7 - bitIndex) else ToggleBit(old(octets)[octetIndex], bitIndex), isMask)
    {
      var newValue := HandleBitChange(octets[octetIndex], octetIndex, bitIndex, isMask);
      octets := HandleOctetChange(octets, octetIndex, newValue, isMask);
    }

    /** Text typed into the number field of octet `octetIndex`: clamped, then `handleOctetChange`. */
    method EnterNumber(octetIndex: int, text: string)
      requires Valid() && 0 <= octetIndex < 4
      modifies this
      ensures Valid()
      ensures octets == OctetsAfterChange(old(octets), octetIndex, NumericInput(text), isMask)
    {
      octets := HandleOctetChange(octets, octetIndex, NumericInput(text), isMask);
    }

    /** Text typed into the dotted field: taken only when it has four groups, with no mask rule. */
    method EnterText(text: string)
      requires Valid()
      modifies this
      ensures Valid()
      ensures octets == DottedEdit(old(octets), text)
    {
      octets := DottedEdit(octets, text);
    }

    /** The "network address" button: each octet ANDed with the mask's, or nothing without a mask. */
    method SetNetworkAddress(mask: Option<seq<int>>)
      requires Valid() && (mask.Some? ==> ValidOctets(mask.value))
      modifies this
      ensures Valid()
      ensures octets == if mask.Some? then Network(old(octets), mask.value) else old(octets)
    {
      if mask.Some? {
        octets := Network(octets, mask.value);
      }
    }

    /** The "broadcast address" button: each octet ORed with the complement of the mask's. */
    method SetBroadcastAddress(mask: Option<seq<int>>)
      requires Valid() && (mask.Some? ==> ValidOctets(mask.value))
      modifies this
      ensures Valid()
      ensures octets == if mask.Some? then Broadcast(old(octets), mask.value) else old(octets)
    {
      if mask.Some? {
        octets := Broadcast(octets, mask.value);
      }
    }

    /** The "copy source IP" button: the source address's octets, or nothing without a source. */
    method CopySourceIP(source: Option<seq<int>>)
      requires Valid() && (source.Some? ==> ValidOctets(source.value))
      modifies this
      ensures Valid()
      ensures octets == if source.Some? then source.value else old(octets)
    {
      if source.Some? {
        octets := source.value;
      }
    }
  }

  /** The whole screen: the mask, address and work-address fields with their colourings. */
  class MaskScreen {
    const maskField: AddressField
    const ipField: AddressField
    const padField: AddressField
    var customIPRanges: seq<BitRange>
    var customMaskRanges: seq<BitRange>
    var customPadRanges: seq<BitRange>
    var paintMode: bool

    ghost predicate Valid()
      reads this, maskField, ipField, padField
    {
      maskField != ipField && maskField != padField && ipField != padField &&
      maskField.Valid() && ipField.Valid() && padField.Valid() &&
      maskField.isMask && !ipField.isMask && !padField.isMask &&
      AllWellFormed(customIPRanges) && AllWellFormed(customMaskRanges) && AllWellFormed(customPadRanges)
    }

    /**
     * The first render, with `new MaskScreen(INITIAL_MASK, INITIAL_IP)`: the mask field and both
     * address fields take their first values, every colouring starts empty, in bit mode.
     */
    constructor (initialMask: seq<int>, initialIP: seq<int>)
      requires ValidOctets(initialMask) && ValidOctets(initialIP)
      ensures Valid() && fresh(maskField) && fresh(ipField) && fresh(padField)
      ensures maskField.octets == initialMask && ipField.octets == initialIP && padField.octets == initialIP
      ensures customIPRanges == [] && customMaskRanges == [] && customPadRanges == [] && !paintMode
    {
      var m := new AddressField(initialMask, true);
      var ip := new AddressField(initialIP, false);
      var pad := new AddressField(initialIP, false);
      maskField, ipField, padField := m, ip, pad;
      customIPRanges, customMaskRanges, customPadRanges := [], [], [];
      paintMode := false;
    }

    /**
     * The effects of the first render, in order: the address's and the mask's colourings are set
     * to the mask ranges, then the address's colouring is passed through the mask effect once.
     */
    method Mount()
      requires Valid()
      modifies this
      ensures Valid()
      ensures customMaskRanges == MaskRangesOf(PrefixLength(maskField.octets))
      ensures customIPRanges == Resync(customMaskRanges, customMaskRanges)
      ensures customPadRanges == old(customPadRanges) && paintMode == old(paintMode)
    {
      var maskRanges := GetMaskRanges(maskField.octets);
      var r := Resync(maskRanges, maskRanges);
      ResyncWellFormed(maskRanges, maskRanges);
      MaskRangesSplit(maskField.octets, 1);
      customMaskRanges := maskRanges;
      customIPRanges := r;
    }

    /**
     * What follows an edit of the mask field: `setMask`; in bit mode the mask's colouring is reset
     * from the new mask; and when the mask text changed, the address's colouring is resynchronised
     * with the new mask ranges.
     */
    method MaskReported(oldMask: seq<int>)
      requires Valid() && ValidOctets(oldMask)
      modifies this
      ensures Valid()
      ensures customMaskRanges == if paintMode then old(customMaskRanges) else MaskRangesOf(PrefixLength(maskField.octets))
      ensures customIPRanges ==
        if maskField.octets != oldMask then Resync(old(customIPRanges), MaskRangesOf(PrefixLength(maskField.octets)))
        else old(customIPRanges)
      ensures customPadRanges == old(customPadRanges) && paintMode == old(paintMode)
    {
      var maskRanges := GetMaskRanges(maskField.octets);
      MaskRangesSplit(maskField.octets, 1);
      if !paintMode {
        customMaskRanges := maskRanges;
      }
      FormatDottedInjective(maskField.octets, oldMask);
      if FormatDotted(maskField.octets) != FormatDotted(oldMask) {
        ResyncWellFormed(customIPRanges, maskRanges);
        customIPRanges := Resync(customIPRanges, maskRanges);
      }
    }

    /**
     * A bit-mode click on bit i of octet o of the mask: the mask becomes the contiguous mask of
     * prefix length 8o + i + 1, and the colourings follow it.
     */
    method ClickMaskBit(o: int, i: int)
      requires Valid() && !paintMode && 0 <= o < 4 && 0 <= i < 8
      modifies this, maskField
      ensures Valid()
      ensures maskField.octets == PrefixMask(8 * o + i + 1)
      ensures customMaskRanges == MaskRangesOf(8 * o + i + 1)
      ensures customIPRanges ==
        if maskField.octets != old(maskField.octets) then Resync(old(customIPRanges), MaskRangesOf(8 * o + i + 1))
        else old(customIPRanges)
      ensures ipField.octets == old(ipField.octets) && padField.octets == old(padField.octets)
      ensures customPadRanges == old(customPadRanges) && paintMode == old(paintMode)
    {
      var oldMask := maskField.octets;
      maskField.ClickBit(o, i);
      MaskClickSetsPrefix(oldMask, o, i);
      MaskReported(oldMask);
    }

    /** A number typed into octet o of the mask: the mask rule, then the colourings follow. */
    method EnterMaskNumber(o: int, text: string)
      requires Valid() && 0 <= o < 4
      modifies this, maskField
      ensures Valid()
      ensures maskField.octets == OctetsAfterChange(old(maskField.octets), o, NumericInput(text), true)
      ensures PrefixLength(maskField.octets) == 8 * o + LeadingOnesCount(Bits(NumericInput(text), 8))
      ensures customMaskRanges == if paintMode then old(customMaskRanges) else MaskRangesOf(PrefixLength(maskField.octets))
      ensures customIPRanges ==
        if maskField.octets != old(maskField.octets) then Resync(old(customIPRanges), MaskRangesOf(PrefixLength(maskField.octets)))
        else old(customIPRanges)
      ensures ipField.octets == old(ipField.octets) && padField.octets == old(padField.octets)
      ensures customPadRanges == old(customPadRanges) && paintMode == old(paintMode)
    {
      var oldMask := maskField.octets;
      maskField.EnterNumber(o, text);
      MaskOctetEditPrefix(oldMask, o, NumericInput(text));
      MaskReported(oldMask);
    }

    /**
     * Dotted text typed into the mask field: text of four dot-separated groups is taken and the
     * colourings follow it; any other text changes nothing.
     */
    method EnterMaskText(text: string)
      requires Valid()
      modifies this, maskField
      ensures Valid()
      ensures maskField.octets == DottedEdit(old(maskField.octets), text)
      ensures customMaskRanges ==
        if paintMode || Count(text, '.') != 3 then old(customMaskRanges) else MaskRangesOf(PrefixLength(maskField.octets))
      ensures customIPRanges ==
        if maskField.octets != old(maskField.octets) then Resync(old(customIPRanges), MaskRangesOf(PrefixLength(maskField.octets)))
        else old(customIPRanges)
      ensures ipField.octets == old(ipField.octets) && padField.octets == old(padField.octets)
      ensures customPadRanges == old(customPadRanges) && paintMode == old(paintMode)
    {
      if Count(text, '.') == 3 {
        var oldMask := maskField.octets;
        maskField.EnterText(text);
        MaskReported(oldMask);
      }
    }

    /**
     * A paint-mode click on position p of the mask (`isMask`) or of the address: `handleColorChange`
     * as written repaints that colouring, and the other colourings stay as they were.
     */
    method PaintBit(p: int, color: Color, isMask: bool)
      requires Valid() && paintMode && 1 <= p <= 32
      modifies this
      ensures Valid()
      ensures customMaskRanges == if isMask then Painted(old(customMaskRanges), p, color) else old(customMaskRanges)
      ensures customIPRanges == if isMask then old(customIPRanges) else Painted(old(customIPRanges), p, color)
      ensures customPadRanges == old(customPadRanges) && paintMode == old(paintMode)
    {
      if isMask {
        PaintedWellFormed(customMaskRanges, p, color);
        customMaskRanges := HandleColorChange(customMaskRanges, p, color);
      } else {
        PaintedWellFormed(customIPRanges, p, color);
        customIPRanges := HandleColorChange(customIPRanges, p, color);
      }
    }

    /**
     * The same click with the corrected `handleColorChange`, which keeps the same-class ranges
     * that do not touch p and so changes the colour of p only.
     */
    method PaintBitFixed(p: int, color: Color, isMask: bool)
      requires Valid() && paintMode && 1 <= p <= 32
      modifies this
      ensures Valid()
      ensures customMaskRanges == if isMask then PaintedFixed(old(customMaskRanges), p, color) else old(customMaskRanges)
      ensures customIPRanges == if isMask then old(customIPRanges) else PaintedFixed(old(customIPRanges), p, color)
      ensures customPadRanges == old(customPadRanges) && paintMode == old(paintMode)
    {
      if isMask {
        PaintedFixedWellFormed(customMaskRanges, p, color);
        customMaskRanges := HandleColorChangeFixed(customMaskRanges, p, color);
      } else {
        PaintedFixedWellFormed(customIPRanges, p, color);
        customIPRanges := HandleColorChangeFixed(customIPRanges, p, color);
      }
    }

    /** The "copy colours" button of the work address: it takes the address's colouring. */
    method CopyColorsToPad()
      requires Valid()
      modifies this
      ensures Valid()
      ensures customPadRanges == old(customIPRanges)
      ensures customIPRanges == old(customIPRanges) && customMaskRanges == old(customMaskRanges)
      ensures paintMode == old(paintMode)
    {
      customPadRanges := CopyColors(customIPRanges);
    }

    /** The network-address button of the work address, with the mask as it stands. */
    method PadNetwork()
      requires Valid()
      modifies padField
      ensures Valid()
      ensures padField.octets == Network(old(padField.octets), maskField.octets)
    {
      padField.SetNetworkAddress(Some(maskField.octets));
    }

    /** The broadcast-address button of the work address, with the mask as it stands. */
    method PadBroadcast()
      requires Valid()
      modifies padField
      ensures Valid()
      ensures padField.octets == Broadcast(old(padField.octets), maskField.octets)
    {
      padField.SetBroadcastAddress(Some(maskField.octets));
    }

    /** The copy-source-IP button of the work address: it takes the address's octets. */
    method PadCopySource()
      requires Valid()
      modifies padField
      ensures Valid()
      ensures padField.octets == ipField.octets
    {
      padField.CopySourceIP(Some(ipField.octets));
    }

    /** The mode button: bit mode and paint mode alternate. */
    method TogglePaintMode()
      requires Valid()
      modifies this
      ensures Valid()
      ensures paintMode == !old(paintMode)
      ensures customIPRanges == old(customIPRanges) && customMaskRanges == old(customMaskRanges)
      ensures customPadRanges == old(customPadRanges)
    {
      paintMode := !paintMode;
    }
  }
}
