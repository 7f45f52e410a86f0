# IP mask visualizer — a Dafny model

This project models the two React components of the IP mask visualizer:

- `IPMaskDisplay.jsx` shows a subnet mask, an IPv4 address and a work address as 32 clickable
  bits. Each bit is drawn with the colours of the bit ranges that cover it.
- `IPAddressDisplay.jsx` shows a list of addresses bit by bit.

What the model covers:

- Octets and bit strings (`Binary`): an octet is printed as eight binary digits and parsed back.
  A bit-mode click flips one digit. The work address uses `&`, `|` and `~m & 255`.
- Text input (`TextInput`): `parseInt` on decimal text, the `[0, 255]` clamp applied to every typed
  octet, and `split('.')` / `join('.')`. A dotted-decimal edit is taken only with exactly four
  groups.
- Mask ranges (`BitRanges`):
  - `getMaskRanges` counts the leading ones of the mask and returns the network range and the host
    range;
  - `getBitPosition` maps an (octet, bit) pair to a position;
  - `getBitClasses` gives the class list of a bit button.
- Octet editing (`Octets`):
  - a mask bit click sets every bit up to it and clears the rest;
  - an octet edit on a mask sets the octets to its left to 255 and those to its right to 0;
  - the network and broadcast buttons of the work address.
- The list of addresses in `IPAddressDisplay.jsx` (`AddressDisplay`).
- Painting (`Paint`): `handleColorChange`.
  - The range under the painted bit is split around it.
  - The new one-bit range is merged with the adjacent ranges of the same colour, in start order.
  - The absorbed halves of the split are removed with `indexOf`/`splice`.
  - The new list is assembled.
- Painting when several ranges hold the bit (`PaintAllHolders`). The code splits only the first of
  them and drops the others; the corrected operation splits all of them.
- The mask-change effect (`MaskSync`). When the mask changes, the address's colouring becomes the
  mask's ranges narrowed around the bits painted individually, followed by those one-bit ranges.
- The component state (`Session`).
  - The class `AddressField` is one `IPDisplay` with its octets.
  - The class `MaskScreen` is the page with its three fields, three colourings and the paint mode.
  - Each handler is a method stated against the functions above.

Bits are `seq<bool>`, most significant first, with `true` standing for `'1'`. Octets are `int`s
between 0 and 255, and positions run from 1 to 32. The dotted strings that the page keeps in its
state are represented by the octets they print. React passes the value of
`octets.join('.')` up on every change, so each string is always the printed form of its
field's octets. `TextInput.DottedRoundTrip` proves that reading such a string back gives the
octets.

## Model

| member | source | states |
|---|---|---|
| Binary.Bits | src/components/IPMaskDisplay.jsx:104 | the binary form of an octet, padded to the width, has exactly that many digits |
| Binary.FromBits | src/components/IPMaskDisplay.jsx:131 | the value of a base-2 digit string is below 2 to its length |
| Binary.FromBitsOfBits | src/components/IPMaskDisplay.jsx:137 | parsing the padded binary form of a value that fits gives the value back |
| Binary.BitsOfFromBits | src/components/IPMaskDisplay.jsx:135-137 | printing a parsed digit string at its own width gives the digit string back |
| Binary.FromBitsUpdate | src/components/IPMaskDisplay.jsx:136 | setting one digit adds its weight, clearing it removes that weight, and rewriting it changes nothing |
| Binary.FromBitsComplement | src/components/IPMaskDisplay.jsx:235 | complementing every digit of a w-digit string maps v to 2^w - 1 - v |
| Binary.LeadingOnesValue | src/components/IPMaskDisplay.jsx:121-127 | k ones followed by n - k zeros denote 2^n - 2^(n-k) |
| Binary.ToggleBit | src/components/IPMaskDisplay.jsx:133-139 | a bit-mode click on an octet yields an octet |
| Binary.ToggleBitBits | src/components/IPMaskDisplay.jsx:135-137 | the click flips exactly the clicked digit and keeps the other seven |
| Binary.ToggleBitIsXor | src/components/IPMaskDisplay.jsx:135-137 | the click subtracts 2^(7-index) when the digit was 1 and adds it when it was 0 |
| Binary.ToggleBitTwice | src/components/IPAddressDisplay.jsx:19-24 | clicking the same bit twice restores the octet |
| Binary.ByteAnd | src/components/IPMaskDisplay.jsx:226 | `octet & mask` is an octet whose bits are the conjunction of the two operands' bits |
| Binary.ByteOr | src/components/IPMaskDisplay.jsx:235 | `octet \| x` is an octet whose bits are the disjunction of the two operands' bits |
| Binary.ByteNot | src/components/IPMaskDisplay.jsx:235 | `~m & 255` is 255 - m, with every bit of m complemented |
| Binary.SameBitsSameByte | src/components/IPMaskDisplay.jsx:104 | two octets with the same eight digits are equal |
| Binary.AndOrBounds | src/components/IPMaskDisplay.jsx:223-239 | masking never raises an octet and or-ing never lowers it |
| TextInput.DecimalString | src/components/IPMaskDisplay.jsx:255 | the decimal form of a number is digits only, denotes the number and has no leading zero |
| TextInput.DigitPrefix | src/components/IPMaskDisplay.jsx:150 | `parseInt` reads the longest run of digits at the front and stops at the first non-digit |
| TextInput.TrimStart | src/components/IPMaskDisplay.jsx:150 | `parseInt` skips exactly the leading white space |
| TextInput.ParseIntOfDigits | src/components/IPMaskDisplay.jsx:150 | `parseInt` of a non-empty digit string is its decimal value |
| TextInput.ParseIntOfDecimalString | src/components/IPMaskDisplay.jsx:259 | `parseInt` reads back the decimal form of every natural number |
| TextInput.ClampByte | src/components/IPMaskDisplay.jsx:150 | `Math.min(255, Math.max(0, parseInt(t) \|\| 0))`: NaN gives 0, an octet value is kept, above 255 gives 255, below 0 gives 0 |
| TextInput.NumericInput | src/components/IPMaskDisplay.jsx:150 | whatever is typed into an octet box, the octet stays between 0 and 255 |
| TextInput.NumericInputClamps | src/components/IPMaskDisplay.jsx:150 | the typed octet is 0 when nothing parses, otherwise the parsed number clamped to [0, 255] |
| TextInput.Split | src/components/IPMaskDisplay.jsx:257 | `split` yields one more part than there are separators, no part holds the separator, and joining the parts gives the text back |
| TextInput.SplitJoin | src/components/IPMaskDisplay.jsx:255-257 | splitting the join of separator-free parts gives the parts back |
| TextInput.ParseDotted | src/components/IPMaskDisplay.jsx:256-262 | the text is accepted if and only if it has exactly three dots; each accepted octet is the clamped `parseInt` of its group |
| TextInput.GroupsReadBack | src/components/IPMaskDisplay.jsx:255 | each printed group is dot-free and reads back as its octet |
| TextInput.DottedRoundTrip | src/components/IPMaskDisplay.jsx:255-262 | parsing the dotted text of four octets gives those octets |
| TextInput.FormatDottedInjective | src/components/IPMaskDisplay.jsx:255 | two octet lists print the same dotted text if and only if they are equal |
| TextInput.DottedEdit | src/components/IPMaskDisplay.jsx:256-262 | text without exactly four groups leaves the octets unchanged; otherwise each octet becomes its group's clamped value |
| TextInput.DottedEditRoundTrip | src/components/IPAddressDisplay.jsx:82-88 | typing back the text a field shows sets exactly the octets it showed |
| BitRanges.MaskBits | src/components/IPMaskDisplay.jsx:25-28 | the joined binary form of a mask has 32 digits |
| BitRanges.LeadingOnesCount | src/components/IPMaskDisplay.jsx:30-34 | the count stops at the first 0: every bit before it is 1 and the bit at it, if any, is 0 |
| BitRanges.PrefixLength | src/components/IPMaskDisplay.jsx:24-34 | the network bit count of a mask is at most 32 |
| BitRanges.GetMaskRanges | src/components/IPMaskDisplay.jsx:24-40 | the counting loop returns the network range 1..n and the host range n+1..32 for the mask's n leading ones |
| BitRanges.MaskRangesSplit | src/components/IPMaskDisplay.jsx:36-39 | both ranges are well formed; a position is in the network range if and only if every mask bit up to it is 1, and in the host range otherwise |
| BitRanges.BitPositionBijective | src/components/IPMaskDisplay.jsx:42-44 | (octet, bit) to position is a bijection between 4×8 pairs and positions 1..32 |
| BitRanges.MaskBitAtPosition | src/components/IPMaskDisplay.jsx:42-44 | the mask bit at a bit's position is that bit of its octet |
| BitRanges.CoveringClasses | src/components/IPMaskDisplay.jsx:50-54 | every class listed comes from a range holding the position, and every range holding it contributes its class |
| BitRanges.BitClasses | src/components/IPMaskDisplay.jsx:46-57 | the class string is `bit-default` followed by the classes of the covering ranges, in order, space-separated |
| Octets.PrefixOctet | src/components/IPMaskDisplay.jsx:129-131 | an octet with k leading ones is 256 - 2^(8-k) |
| Octets.PrefixOctetBits | src/components/IPMaskDisplay.jsx:129-131 | that octet's binary form is k ones followed by zeros |
| Octets.MaskBitClick | src/components/IPMaskDisplay.jsx:107-132 | the array loops give the clicked octet ones up to and including the clicked bit and zeros after it, that is 256 - 2^(7-index) |
| Octets.HandleBitChange | src/components/IPMaskDisplay.jsx:106-140 | a mask click yields 256 - 2^(7-index), and an address click yields the toggled octet |
| Octets.OctetsAfterChange | src/components/IPMaskDisplay.jsx:201-217 | the edited octet takes the new value; on a mask the octets to its left become 255 and those to its right 0; on an address they are unchanged |
| Octets.HandleOctetChange | src/components/IPMaskDisplay.jsx:201-221 | the copying and filling loops compute that list of octets |
| Octets.PrefixMaskBits | src/components/IPMaskDisplay.jsx:24-34 | the /n mask has n leading ones and then zeros, and `getMaskRanges` counts n network bits in it |
| Octets.MaskClickSetsPrefix | src/components/IPMaskDisplay.jsx:107-132 | clicking bit i of mask octet o makes the whole mask the /(8o+i+1) mask |
| Octets.EditedPrefixMask | src/components/IPMaskDisplay.jsx:206-217 | typing a k-leading-ones octet into mask octet o makes the mask /(8o+k) |
| Octets.MaskEditBits | src/components/IPMaskDisplay.jsx:206-217 | after an edit of mask octet o the mask bits are 8o ones, the typed octet's bits, then zeros |
| Octets.MaskOctetEditPrefix | src/components/IPMaskDisplay.jsx:201-221 | after typing v into mask octet o the network bit count is 8o plus the leading ones of v |
| Octets.AddressClickFlipsOneBit | src/components/IPMaskDisplay.jsx:133-139 | an address bit click flips exactly one of the 32 bits, the one at 8o+i |
| Octets.Network | src/components/IPMaskDisplay.jsx:223-230 | the network address of valid octets is valid octets |
| Octets.Broadcast | src/components/IPMaskDisplay.jsx:232-239 | the broadcast address of valid octets is valid octets |
| Octets.NetworkBroadcastBits | src/components/IPMaskDisplay.jsx:223-239 | a network bit is address-and-mask; a broadcast bit is address-or-not-mask |
| Octets.NetworkBelowBroadcast | src/components/IPMaskDisplay.jsx:223-239 | octet by octet, network ≤ address ≤ broadcast |
| Octets.NetworkBroadcastIdempotent | src/components/IPMaskDisplay.jsx:223-239 | pressing either button twice, or one after the other, gives the result of the last one pressed |
| Octets.NetworkBroadcastOfPrefix | src/components/IPMaskDisplay.jsx:223-239 | under a /n mask the network address keeps the first n bits and clears the rest; the broadcast address sets the rest |
| Octets.Mask24 | src/components/IPMaskDisplay.jsx:337 | 255.255.255.0 is the /24 mask and has 24 network bits |
| Octets.NetworkBroadcastOf24 | src/components/IPMaskDisplay.jsx:223-239 | under /24 the network address zeroes the last octet and the broadcast address sets it to 255 |
| Octets.FullAndEmptyOctet | src/components/IPMaskDisplay.jsx:226-235 | a 255 mask octet keeps the address octet under both buttons; a 0 mask octet gives 0 and 255 |
| AddressDisplay.Replaced | src/components/IPAddressDisplay.jsx:70-74 | an octet edit, like the list update at lines 125-129, changes only the entry edited, to the new value |
| AddressDisplay.BitClickFlipsOneBit | src/components/IPAddressDisplay.jsx:19-24 | a bit click changes the octet list as an address edit does, flips exactly one of the 32 bits, and a second click restores the list |
| AddressDisplay.ReportedAddressRoundTrip | src/components/IPAddressDisplay.jsx:65-68 | the reported text parses back to the field's octets, and the other addresses are untouched |
| Paint.Palette | src/components/IPMaskDisplay.jsx:174-180 | five colours, none of which has a mask range's class |
| Paint.Unaffected | src/components/IPMaskDisplay.jsx:408-410 | exactly the ranges that do not hold the bit |
| Paint.FindContaining | src/components/IPMaskDisplay.jsx:413-415 | none if and only if no range holds the bit; otherwise the first range that holds it |
| Paint.Residuals | src/components/IPMaskDisplay.jsx:418-438 | at most a left part and then a right part; neither holds the bit, and both keep the class and label of the split range |
| Paint.OfClass | src/components/IPMaskDisplay.jsx:445 | exactly the candidates of the colour's class |
| Paint.Insert | src/components/IPMaskDisplay.jsx:446 | inserting into a start-sorted list keeps it sorted and adds exactly the element |
| Paint.SortByStart | src/components/IPMaskDisplay.jsx:446 | the sort orders by start and is a permutation of its input |
| Paint.SortByStartSorted | src/components/IPMaskDisplay.jsx:446 | sorting a list already sorted by start leaves it unchanged |
| Paint.Candidates | src/components/IPMaskDisplay.jsx:444-446 | `sameColorRanges` is sorted by start and holds exactly the unaffected ranges and residuals of the colour's class |
| Paint.CandidateOrigin | src/components/IPMaskDisplay.jsx:444-446 | each candidate is an unaffected range or a residual, at its index, of the colour's class |
| Paint.IndexOf | src/components/IPMaskDisplay.jsx:452 | `indexOf` gives the first index holding the value, or -1 when none does |
| Paint.Survivors | src/components/IPMaskDisplay.jsx:452-457 | the residuals that remain are residuals, and every residual not absorbed remains |
| Paint.SpliceSurvivor | src/components/IPMaskDisplay.jsx:452-457 | splicing out the `indexOf` of an absorbed residual removes exactly that residual |
| Paint.AbsorbStep | src/components/IPMaskDisplay.jsx:450-458 | one merging step updates the remaining residuals as the splice does, and absorbing an unaffected range removes nothing |
| Paint.SpliceOut | src/components/IPMaskDisplay.jsx:452-457 | the `indexOf`/`splice` pair turns the remaining residuals into those left after one more absorption |
| Paint.MergeSameColor | src/components/IPMaskDisplay.jsx:449-459 | the merging loop ends with the merged range and the remaining residuals of the merge specification |
| Paint.SplitAndMerge | src/components/IPMaskDisplay.jsx:406-459 | the updater's unaffected ranges, merged range, remaining residuals and merged candidates are those of the specification |
| Paint.HandleColorChange | src/components/IPMaskDisplay.jsx:403-467 | as written, the updater returns the unaffected ranges of other classes, then the remaining residuals, then the merged range |
| Paint.HandleColorChangeFixed | src/components/IPMaskDisplay.jsx:461-465 | corrected, the updater returns the unaffected ranges that were not merged, then the remaining residuals, then the merged range |
| Paint.MergeAllFacts | src/components/IPMaskDisplay.jsx:449-459 | merging only widens the new range, which keeps the bit, stays within 1..32 and keeps the colour's class and name; every absorbed range lies inside it |
| Paint.MergeAllCovers | src/components/IPMaskDisplay.jsx:449-459 | a range is absorbed only when it touches the growing range, so the merged range covers exactly the one-bit range and the absorbed ranges, with no gap |
| Paint.MergeAllAppend | src/components/IPMaskDisplay.jsx:449-459 | the merging loop over two lists in turn is the loop over their concatenation |
| Paint.StartFrom | src/components/IPMaskDisplay.jsx:449-459 | the merged range starts where the one-bit range started or where some candidate starts |
| Paint.EndStays | src/components/IPMaskDisplay.jsx:449-459 | when no candidate starts just after the end, the end of the merged range never moves |
| Paint.MergeAllFrom | src/components/IPMaskDisplay.jsx:449-459 | the steps after a given candidate only widen the range built up to it |
| Paint.MergeAbsorbsLeft | src/components/IPMaskDisplay.jsx:446-459 | a candidate that ends just before the bit is reached: the merged range starts no later than it, because candidates come sorted by start |
| Paint.MergeAbsorbsRight | src/components/IPMaskDisplay.jsx:446-459 | the first candidate in sort order that starts just after the bit is absorbed: the merged range ends no earlier than it |
| Paint.FirstStarting | src/components/IPMaskDisplay.jsx:446 | the first index of a candidate with a given start, or the length when none has it |
| Paint.FinalMergeReachesLeft | src/components/IPMaskDisplay.jsx:441-459 | a range of the colour's class that ends just before the bit lies within the merged range |
| Paint.FinalMergeReachesRight | src/components/IPMaskDisplay.jsx:441-459 | a range of the colour's class that starts just after the bit lies within the merged range, when no other range of that class starts there or holds the bit |
| Paint.PaintedAbsorbsLeft | src/components/IPMaskDisplay.jsx:403-467 | as written and corrected, a same-colour range touching the bit on the left lies within the new last range |
| Paint.PaintedAbsorbsRight | src/components/IPMaskDisplay.jsx:403-467 | as written and corrected, a same-colour range touching the bit on the right lies within the new last range, when no other range of that class starts there or holds the bit |
| Paint.AbsorbedAreCandidates | src/components/IPMaskDisplay.jsx:449-459 | only candidates are absorbed |
| Paint.FinalRange | src/components/IPMaskDisplay.jsx:441-459 | the merged range holds the bit, lies within 1..32 and has the colour's class and name |
| Paint.PaintedNewRange | src/components/IPMaskDisplay.jsx:461-465 | after painting, the last range holds the bit with the chosen colour, and every range is well formed |
| Paint.PaintedWellFormed | src/components/IPMaskDisplay.jsx:403-467 | painting well-formed ranges yields well-formed ranges |
| Paint.PaintedFixedWellFormed | src/components/IPMaskDisplay.jsx:403-467 | the corrected painting also yields well-formed ranges |
| Paint.PaintedContents | src/components/IPMaskDisplay.jsx:461-465 | every range of another class that does not hold the bit, and every residual of another class, is kept; everything else but the last range is one of those |
| Paint.ResidualCoverage | src/components/IPMaskDisplay.jsx:418-459 | when one range holds the bit, a position of that range other than the painted bit keeps its class, either in a remaining residual or in the merged range |
| Paint.PaintedKeepsColoursOutsideSameClass | src/components/IPMaskDisplay.jsx:403-467 | as written, when one range holds the bit, every other position keeps its class unless its range is of the painted colour and does not hold the bit |
| Paint.ResidualsWithin | src/components/IPMaskDisplay.jsx:418-438 | the residuals of a range around the bit lie within that range |
| Paint.MergedRangeOrigin | src/components/IPMaskDisplay.jsx:441-459 | every position other than the bit that the merged range covers was covered before by a range of the chosen colour |
| Paint.PaintedGainsNoColour | src/components/IPMaskDisplay.jsx:403-467 | as written, a range of the result that covers a position other than the bit had a range of its class over that position before |
| Paint.PaintedNoCandidate | src/components/IPMaskDisplay.jsx:444-465 | with no range of the colour around, painting only splits: the other ranges, the residuals, then the one-bit range |
| Paint.PaintedOneCandidate | src/components/IPMaskDisplay.jsx:449-465 | with one unaffected range of the colour, that range is dropped and the result ends in the range merged with it |
| Paint.PaintedDropsDistant | src/components/IPMaskDisplay.jsx:462 | as written, a same-colour range that does not touch the bit is dropped, and nothing replaces it |
| Paint.Kept | src/components/IPMaskDisplay.jsx:462 | the corrected filter keeps only unaffected ranges, and keeps every one that is of another class or was not absorbed |
| Paint.PaintedFixedKeepsColours | src/components/IPMaskDisplay.jsx:461-465 | corrected, when one range holds the bit: painting changes the colour of the painted bit only, and every other covered position keeps its class |
| Paint.PaintedFixedGainsNoColour | src/components/IPMaskDisplay.jsx:461-465 | corrected: no position other than the bit gains a class; with `PaintedFixedKeepsColours`, when one range holds the bit, the colour of every other position is unchanged |
| Paint.PaintedFixedNewRange | src/components/IPMaskDisplay.jsx:461-465 | corrected: the new last range is the same as before and holds the bit with the chosen colour |
| Paint.PaintedFixedKeepsDistant | src/components/IPMaskDisplay.jsx:461-465 | corrected: a same-colour range that does not touch the bit is kept |
| Paint.MergeOwnResiduals | src/components/IPMaskDisplay.jsx:449-459 | the one-bit range absorbs the left and then the right residual of a range around the bit, and spans that range again |
| Paint.RepaintOwnClassMerge | src/components/IPMaskDisplay.jsx:441-459 | painting a bit with the class of its own range, when that range is the only one holding the bit and no other range has that class: the merged range is that range under the colour's name, and no residual remains |
| Paint.PaintedOwnClass | src/components/IPMaskDisplay.jsx:403-467 | as written, repainting a bit with its own range's class, when that range is the only one holding the bit and no other range has that class, gives the same set of ranges, that range relabelled |
| Paint.PaintedFixedOwnClass | src/components/IPMaskDisplay.jsx:461-465 | corrected: the same repaint, under the same conditions, gives the same set of ranges, that range relabelled |
| Paint.SplitExample | src/components/IPMaskDisplay.jsx:418-441 | painting inside a single 1..32 range of another colour gives [1, p-1], [p+1, 32] and [p, p] |
| Paint.MergeExample | src/components/IPMaskDisplay.jsx:449-465 | painting the last network bit with the host's class merges it into the host range |
| Paint.NoMergeExample | src/components/IPMaskDisplay.jsx:461-465 | painting the last network bit with a third colour puts the host range first, then the split network part, then the bit |
| Paint.PaletteNeverMergesWithMaskRanges | src/components/IPMaskDisplay.jsx:174-180 | no palette colour has a mask range's class, so painting the network/host boundary never merges |
| Paint.DropsDistantSameClassRange | src/components/IPMaskDisplay.jsx:461-465 | as written: painting bit 20 of [1-8 colour A, 9-32 other] with A leaves bits 1-8 uncoloured |
| Paint.FixedKeepsDistantSameClassRange | src/components/IPMaskDisplay.jsx:461-465 | corrected: the same paint keeps 1-8 in colour A |
| PaintAllHolders.AllResidualsOrigin | src/components/IPMaskDisplay.jsx:418-438 | corrected: each residual is non-empty, does not hold the bit, and lies within a range that holds the bit, with its class |
| PaintAllHolders.AllResidualsCover | src/components/IPMaskDisplay.jsx:418-438 | each position other than the bit of a range that holds it is covered by one of that range's residuals |
| PaintAllHolders.AllResidualsWellFormed | src/components/IPMaskDisplay.jsx:418-438 | the residuals of well-formed ranges are well formed |
| PaintAllHolders.AllResidualsSingle | src/components/IPMaskDisplay.jsx:412-438 | when one range holds the bit, its residuals are those of the code's `find` |
| PaintAllHolders.AllHoldersWellFormed | src/components/IPMaskDisplay.jsx:403-467 | the corrected painting of well-formed ranges ends in the merged range over the bit, and every range is well formed |
| PaintAllHolders.AllHoldersKeepColours | src/components/IPMaskDisplay.jsx:403-467 | corrected, for any colouring: every other covered position keeps its class |
| PaintAllHolders.AllHoldersGainNoColour | src/components/IPMaskDisplay.jsx:403-467 | corrected, for any colouring: no position other than the bit gains a class |
| PaintAllHolders.AllHoldersAgree | src/components/IPMaskDisplay.jsx:461-465 | when one range holds the bit, splitting every holder is the filter-corrected painting |
| PaintAllHolders.SecondHolderSplitOnly | src/components/IPMaskDisplay.jsx:406-465 | as written and filter-corrected, when two of four ranges hold the bit, the second holder is dropped without a residual |
| PaintAllHolders.SecondHolderDropped | src/components/IPMaskDisplay.jsx:406-415 | as written and filter-corrected: with [1, 5] and [5, 6] holding bit 5, painting it with a third colour leaves bit 6 uncovered |
| PaintAllHolders.OverlapStepPaint | src/components/IPMaskDisplay.jsx:403-467 | painting bit 5 of the /24 colouring splits the network range |
| PaintAllHolders.OverlapStepResync | src/components/IPMaskDisplay.jsx:356-389 | widening the mask to /20 gives [1, 20], [21, 32] and the one-bit range at 5, which overlaps [1, 20] |
| PaintAllHolders.OverlapStepGrow | src/components/IPMaskDisplay.jsx:403-467 | painting bit 6 with the same colour grows the range at 5 to [5, 6] and splits [1, 20] around bit 6 |
| PaintAllHolders.OverlapReachable | src/components/IPMaskDisplay.jsx:350-467 | those three steps from the /24 colouring reach the colouring of `SecondHolderDropped` |
| PaintAllHolders.ReachedColouringLosesBit | src/components/IPMaskDisplay.jsx:350-467 | as written, after those steps painting bit 5 with another colour leaves bit 6 uncovered |
| PaintAllHolders.SecondHolderKept | src/components/IPMaskDisplay.jsx:403-467 | corrected: on the same colouring, bit 6 keeps colour a |
| MaskSync.Customized | src/components/IPMaskDisplay.jsx:360-362 | the customised bits are exactly the positions of one-bit ranges |
| MaskSync.FreePositions | src/components/IPMaskDisplay.jsx:367-370 | exactly the positions of the range that are not customised, in increasing order |
| MaskSync.Narrowed | src/components/IPMaskDisplay.jsx:365-379 | dropped if and only if every position is customised; otherwise it spans the first to the last free position, with the mask range's class and label |
| MaskSync.NarrowAll | src/components/IPMaskDisplay.jsx:365-380 | exactly the narrowed mask ranges that survive the `filter(Boolean)` |
| MaskSync.Singletons | src/components/IPMaskDisplay.jsx:383-385 | exactly the one-bit ranges of the current colouring |
| MaskSync.ResyncKeepsSingletons | src/components/IPMaskDisplay.jsx:383-387 | every one-bit range survives a mask change |
| MaskSync.ResyncContents | src/components/IPMaskDisplay.jsx:356-389 | every range after a mask change is a kept one-bit range or a narrowed mask range |
| MaskSync.ResyncCovers | src/components/IPMaskDisplay.jsx:356-389 | each position of a mask range is covered, by that range's class or by a painted single bit |
| MaskSync.ResyncWellFormed | src/components/IPMaskDisplay.jsx:356-389 | a mask change keeps every range well formed and non-empty |
| MaskSync.NarrowAllUncustomised | src/components/IPMaskDisplay.jsx:365-380 | with nothing customised, the narrowed ranges are the non-empty mask ranges |
| MaskSync.ResyncUncustomised | src/components/IPMaskDisplay.jsx:356-389 | without one-bit ranges, a mask change yields the non-empty mask ranges |
| MaskSync.NonEmptyMaskRanges | src/components/IPMaskDisplay.jsx:36-39 | only a /0 or /32 mask has an empty range, and it is the network or the host one respectively |
| Session.CopyColors | src/components/IPMaskDisplay.jsx:392-400 | the copy has the same ranges, range for range |
| Session.InitialMaskIs24 | src/components/IPMaskDisplay.jsx:337-338 | the first mask and address are valid, and the mask has 24 network bits |
| Session.MountedColouring | src/components/IPMaskDisplay.jsx:350-389 | for /2 to /30, after the first render the address shows exactly the mask's two ranges |
| Session.AddressField.constructor | src/components/IPMaskDisplay.jsx:199 | a field starts with the octets it was given |
| Session.AddressField.ClickBit | src/components/IPMaskDisplay.jsx:106-140 | a bit click sets the octets to the mask click or the toggle, as the edit of that octet |
| Session.AddressField.EnterNumber | src/components/IPMaskDisplay.jsx:150 | a typed number sets the octet edit to the clamped value |
| Session.AddressField.EnterText | src/components/IPMaskDisplay.jsx:256-262 | dotted text sets the octets as the dotted edit does |
| Session.AddressField.SetNetworkAddress | src/components/IPMaskDisplay.jsx:223-230 | with a mask the octets become the network address; without one nothing changes |
| Session.AddressField.SetBroadcastAddress | src/components/IPMaskDisplay.jsx:232-239 | with a mask the octets become the broadcast address; without one nothing changes |
| Session.AddressField.CopySourceIP | src/components/IPMaskDisplay.jsx:241-247 | with a source the octets become the source address; without one nothing changes |
| Session.MaskScreen.constructor | src/components/IPMaskDisplay.jsx:337-344 | three fresh fields holding the first mask and address; empty colourings; bit mode |
| Session.MaskScreen.Mount | src/components/IPMaskDisplay.jsx:350-389 | the mask's ranges become the mask colouring, and the address colouring becomes their resync; the rest is unchanged |
| Session.MaskScreen.MaskReported | src/components/IPMaskDisplay.jsx:504-519 | in bit mode the mask colouring becomes the new mask's ranges; when the mask text changed the address colouring is resynced |
| Session.MaskScreen.ClickMaskBit | src/components/IPMaskDisplay.jsx:71-79 | a mask bit click makes the /(8o+i+1) mask, and the colourings follow; the other fields are unchanged |
| Session.MaskScreen.EnterMaskNumber | src/components/IPMaskDisplay.jsx:150 | a typed mask octet sets the mask and its network bit count, and the colourings follow |
| Session.MaskScreen.EnterMaskText | src/components/IPMaskDisplay.jsx:256-262 | text of four dot-separated groups sets the mask as the dotted edit does and the colourings follow (lines 507-513); any other text changes nothing |
| Session.MaskScreen.PaintBit | src/components/IPMaskDisplay.jsx:515-528 | in paint mode a click repaints the colouring of the field clicked with `handleColorChange` as written, and leaves the other colourings untouched |
| Session.MaskScreen.PaintBitFixed | src/components/IPMaskDisplay.jsx:515-528 | the same click with the corrected painting: only the colouring of the field clicked changes |
| Session.MaskScreen.CopyColorsToPad | src/components/IPMaskDisplay.jsx:309 | the work address takes the address's colouring |
| Session.MaskScreen.PadNetwork | src/components/IPMaskDisplay.jsx:223-230 | the work address becomes its network address under the current mask |
| Session.MaskScreen.PadBroadcast | src/components/IPMaskDisplay.jsx:232-239 | the work address becomes its broadcast address under the current mask |
| Session.MaskScreen.PadCopySource | src/components/IPMaskDisplay.jsx:241-247 | the work address becomes the address |
| Session.MaskScreen.TogglePaintMode | src/components/IPMaskDisplay.jsx:473 | the mode flips and the colourings are unchanged |

## Left out

- Rendering is not modelled: the JSX markup, the legend (lines 317-329), the colour picker and the hover styles. `getBitClasses` is modelled up to the class string.
- React scheduling is not modelled. Every `setState` takes effect at once, in the order the handler issues it. The mount effect and the first run of the mask effect form `MaskScreen.Mount`, after the constructor.
- The selected colour is not part of `MaskScreen`. It is a parameter of `PaintBit` and `PaintBitFixed`, because `setSelectedColor` only picks a palette entry.
- The work address's paint clicks are left out. That field passes `handleCopyColors` as `onColorChange`, so a paint click on it calls `handleCopyColors(position, color)`. That call maps over a number, which would be a runtime error. Its colour-copy button is modelled as `CopyColorsToPad`.
- `parseInt` is modelled on decimal text only. A `0x` prefix (read as hexadecimal) is not modelled, and leading whitespace is limited to space, tab, newline and carriage return.
- The first octets of a field come from `parseInt` without a clamp (line 199 and line 62 of `IPAddressDisplay.jsx`). The model starts from valid octets and requires them of its constructors.
- BitRange objects are values here. `handleCopyColors` builds new objects, which `CopyColors` models by value. Object identity matters only inside `handleColorChange` (`includes`, `indexOf`), and there it is modelled by tagging each candidate with its origin and index.
- The `label` field is named `labelText`, because `label` is a reserved word in Dafny.
- The `ips` state of `IPAddressDisplay.jsx` (line 114) is modelled only through `Replaced`. The text box of `BinaryIPDisplay` (lines 83-89) uses the same dotted edit as `IPMaskDisplay.jsx`.
- PaintedKeepsColoursOutsideSameClass: requires that only one range hold the bit. The mask-change effect (lines 356-389) keeps one-bit ranges inside the narrowed mask ranges, so colourings where two ranges hold a bit are reachable (`PaintAllHolders.OverlapReachable`). On those, the code drops every holder but the first, and positions lose their colour (`PaintAllHolders.SecondHolderDropped`).
- PaintedFixedKeepsColours: requires that only one range hold the bit, for the same reason. Only the filter is corrected there; `PaintAllHolders.AllHoldersKeepColours` proves the property for every colouring once every holder is split.
- ResidualCoverage: requires that only one range hold the bit, since it is about the range that `find` returns.
- RepaintOwnClassMerge: requires that only one range hold the bit.
- PaintedOwnClass: requires that only one range hold the bit.
- PaintedFixedOwnClass: requires that only one range hold the bit.
- PaintedAbsorbsRight: requires that no other range of the colour's class start just after the bit or hold it. With several such candidates the loop absorbs the first in start order, which `Paint.MergeAbsorbsRight` states.
- FinalMergeReachesRight: requires the same as `PaintedAbsorbsRight`, for the same reason.
- `PaintAllHolders.PaintedAllHolders` is stated as a function only. `Session.MaskScreen.PaintBitFixed` uses the filter-corrected `Paint.HandleColorChangeFixed`, whose merging loop splices at most two residuals. `PaintAllHolders.AllHoldersAgree` shows that the two corrections agree when one range holds the bit.

## Findings

| source | as written | input that shows it | evidently intended | confidence | as-written member | corrected member |
|---|---|---|---|---|---|---|
| src/components/IPMaskDisplay.jsx:462 | the final filter removes every unaffected range whose class is the painted colour's, whether or not it was merged | colouring [bits 1-8 in colour A, bits 9-32 in another colour]; paint bit 20 with colour A | remove only the same-colour ranges that were merged into the new range, so that painting one bit changes the colour of that bit only | not executed | Paint.DropsDistantSameClassRange | Paint.FixedKeepsDistantSameClassRange |
| src/components/IPMaskDisplay.jsx:406-415 | `find` splits only the first range that holds the bit, and the filter on `unaffectedRanges` drops every other range that holds it, so their other positions lose their colour | from the /24 colouring, paint bit 5 with colour a, set the mask to /20, paint bit 6 with a: the colouring is [21-32 host, 1-5 network, 7-20 network, 5-6 a]; paint bit 5 with a colour b, and bit 6 is left with no colour | split every range that holds the bit, so that painting changes the colour of that bit only | not executed | PaintAllHolders.ReachedColouringLosesBit | PaintAllHolders.SecondHolderKept |

`Session.MaskScreen.PaintBit` paints with `Paint.HandleColorChange`, the code as written. `Session.MaskScreen.PaintBitFixed` is the same click with the corrected operation `Paint.HandleColorChangeFixed`. `Paint.PaintedFixedKeepsColours` and `Paint.PaintedFixedGainsNoColour` together prove that the corrected operation changes the colour of the painted bit only, when one range holds the bit. `PaintAllHolders.AllHoldersKeepColours` and `PaintAllHolders.AllHoldersGainNoColour` prove it for every colouring of the operation that also splits every range holding the bit.
