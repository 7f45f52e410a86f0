/**
 * IPAddressDisplay.jsx: a list of address strings, each shown by a display of four octets that
 * edits one octet at a time and reports its octets back as dotted text.
 */
module AddressDisplay {
  import opened Wrappers
  import opened Binary
  import opened TextInput
  import opened BitRanges
  import opened Octets

  /**
   * A copy of the list with entry `index` replaced: both `handleOctetChange` on the four octets
   * and the parent's `onIPChange` handler on the list of address strings.
   */
  function Replaced<T>(s: seq<T>, index: int, v: T): (r: seq<T>)
    requires 0 <= index < |s|
    ensures |r| == |s| && r[index] == v
    ensures forall i :: 0 <= i < |s| && i != index ==> r[i] == s[i]
  {
    s[index := v]
  }

  /**
   * A bit click in this file's display flips one bit of the address and no other, just as a bit
   * click does on an address in IPMaskDisplay.jsx; a second click on the same bit restores it.
   */
  lemma BitClickFlipsOneBit(octets: seq<int>, o: int, i: int)
    requires ValidOctets(octets) && 0 <= o < 4 && 0 <= i < 8
    ensures Replaced(octets, o, ToggleBit(octets[o], i)) == OctetsAfterChange(octets, o, ToggleBit(octets[o], i), false)
    ensures MaskBits(Replaced(octets, o, ToggleBit(octets[o], i))) ==
      MaskBits(octets)[8 * o + i := !MaskBits(octets)[8 * o + i]]
    ensures var once := Replaced(octets, o, ToggleBit(octets[o], i));
      Replaced(once, o, ToggleBit(once[o], i)) == octets
  {
    AddressClickFlipsOneBit(octets, o, i);
    ToggleBitTwice(octets[o], i);
  }

  /**
   * What the parent list holds after a display reports its octets: entry `index` is their dotted
   * text, which parses back to the same octets, and every other entry is unchanged.
   */
  lemma ReportedAddressRoundTrip(ips: seq<string>, index: int, octets: seq<int>)
    requires 0 <= index < |ips| && ValidOctets(octets)
    ensures ParseDotted(Replaced(ips, index, FormatDotted(octets))[index]) == Some(octets)
    ensures forall i :: 0 <= i < |ips| && i != index ==> Replaced(ips, index, FormatDotted(octets))[i] == ips[i]
  {
    DottedRoundTrip(octets);
  }
}
