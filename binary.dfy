/**
 * Bit strings of octets.  A byte is shown by the widget as `value.toString(2).padStart(8, '0')`
 * and read back with `parseInt(bits.join(''), 2)`; here a bit string is a `seq<bool>`, most
 * significant bit first, `true` standing for the character '1'.
 */
module Binary {

  /** 2 to the power k. */
  function Pow2(k: nat): (r: nat)
    ensures r >= 1
  {
    if k == 0 then 1 else 2 * Pow2(k - 1)
  }

  /** An octet value: what every octet of an address or mask holds. */
  predicate IsByte(x: int)
  {
    0 <= x < 256
  }

  /** 0 or 1 for a bit. */
  function BitValue(b: bool): nat
  {
    if b then 1 else 0
  }

  /** The w low-order bits of v, most significant first (`toString(2).padStart(w, '0')`). */
  function Bits(v: nat, w: nat): (bs: seq<bool>)
    ensures |bs| == w
  {
    if w == 0 then [] else Bits(v / 2, w - 1) + [v % 2 == 1]
  }

  /** The number a bit string denotes (`parseInt(bits.join(''), 2)`); it fits in |bs| bits. */
  function FromBits(bs: seq<bool>): (v: nat)
    ensures v < Pow2(|bs|)
  {
    if bs == [] then 0 else 2 * FromBits(bs[..|bs| - 1]) + BitValue(bs[|bs| - 1])
  }

  /** Reading back the bits of a value that fits gives the value. */
  lemma {:induction false} FromBitsOfBits(v: nat, w: nat)
    requires v < Pow2(w)
    ensures FromBits(Bits(v, w)) == v
  {
    if w > 0 {
      var bs := Bits(v, w);
      assert bs[..w - 1] == Bits(v / 2, w - 1);
      FromBitsOfBits(v / 2, w - 1);
    }
  }

  /** Printing the value of a bit string with its own width gives the bit string back. */
  lemma {:induction false} BitsOfFromBits(bs: seq<bool>)
    ensures Bits(FromBits(bs), |bs|) == bs
  {
    if bs != [] {
      var n := |bs|;
      var high := FromBits(bs[..n - 1]);
      var v := 2 * high + BitValue(bs[n - 1]);
      assert v / 2 == high && (v % 2 == 1 <==> bs[n - 1]);
      BitsOfFromBits(bs[..n - 1]);
      assert bs == bs[..n - 1] + [bs[n - 1]];
    }
  }

  /** Changing bit j adds or removes exactly that bit's weight 2^(|bs| - 1 - j). */
  lemma {:induction false} FromBitsUpdate(bs: seq<bool>, j: nat, b: bool)
    requires j < |bs|
    ensures b == bs[j] ==> FromBits(bs[j := b]) == FromBits(bs)
    ensures b && !bs[j] ==> FromBits(bs[j := b]) == FromBits(bs) + Pow2(|bs| - 1 - j)
    ensures !b && bs[j] ==> FromBits(bs[j := b]) == FromBits(bs) - Pow2(|bs| - 1 - j)
  {
    var n := |bs|;
    var cs := bs[j := b];
    if j < n - 1 {
      assert cs[..n - 1] == bs[..n - 1][j := b];
      FromBitsUpdate(bs[..n - 1], j, b);
      assert Pow2(n - 1 - j) == 2 * Pow2(n - 2 - j);
    } else {
      assert cs[..n - 1] == bs[..n - 1];
    }
  }

  /** A bit string that has a 1 wherever another has one denotes at least as much. */
  lemma {:induction false} FromBitsMonotone(xs: seq<bool>, ys: seq<bool>)
    requires |xs| == |ys|
    requires forall j :: 0 <= j < |xs| && xs[j] ==> ys[j]
    ensures FromBits(xs) <= FromBits(ys)
  {
    if xs != [] {
      FromBitsMonotone(xs[..|xs| - 1], ys[..|ys| - 1]);
    }
  }

  /** Complementing every bit of a w-bit string maps value v to 2^w - 1 - v. */
  lemma {:induction false} FromBitsComplement(bs: seq<bool>)
    ensures FromBits(seq(|bs|, j requires 0 <= j < |bs| => !bs[j])) == Pow2(|bs|) - 1 - FromBits(bs)
  {
    if bs != [] {
      var n := |bs|;
      var cs := seq(n, j requires 0 <= j < n => !bs[j]);
      assert cs[..n - 1] == seq(n - 1, j requires 0 <= j < n - 1 => !bs[..n - 1][j]);
      FromBitsComplement(bs[..n - 1]);
    }
  }

  /** The n-bit string whose first k bits are 1 and the rest 0. */
  function LeadingOnes(n: nat, k: nat): (bs: seq<bool>)
    ensures |bs| == n
  {
    seq(n, j => j < k)
  }

  /** k leading ones followed by n - k zeros denote 2^n - 2^(n-k). */
  lemma {:induction false} LeadingOnesValue(n: nat, k: nat)
    requires k <= n
    ensures FromBits(LeadingOnes(n, k)) == Pow2(n) - Pow2(n - k)
  {
    if n > 0 {
      assert LeadingOnes(n, k)[..n - 1] == LeadingOnes(n - 1, if k == n then n - 1 else k);
      LeadingOnesValue(n - 1, if k == n then n - 1 else k);
    }
  }

  /**
   * Bit-mode click on bit `index` (0 = most significant) of an octet: the bit string is copied,
   * that one character flipped, and the result parsed back in base 2.
   */
  function ToggleBit(v: int, index: int): (r: int)
    requires IsByte(v) && 0 <= index < 8
    ensures IsByte(r)
  {
    var bits := Bits(v, 8);
    FromBits(bits[index := !bits[index]])
  }

  /** The toggle's bit string is the old one with exactly bit `index` flipped. */
  lemma ToggleBitBits(v: int, index: int)
    requires IsByte(v) && 0 <= index < 8
    ensures forall j :: 0 <= j < 8 ==> (Bits(ToggleBit(v, index), 8)[j] <==> (if j == index then !Bits(v, 8)[j] else Bits(v, 8)[j]))
  {
    var bits := Bits(v, 8);
    BitsOfFromBits(bits[index := !bits[index]]);
  }

  /** The toggle is an exclusive or with 2^(7 - index): it adds that weight or takes it away. */
  lemma ToggleBitIsXor(v: int, index: int)
    requires IsByte(v) && 0 <= index < 8
    ensures ToggleBit(v, index) == if Bits(v, 8)[index] then v - Pow2(7 - index) else v + Pow2(7 - index)
  {
    assert Pow2(8) == 256;
    FlipByteBit(v, 8, index, 7 - index);
    var bits := Bits(v, 8);
    assert ToggleBit(v, index) == FromBits(bits[index := !bits[index]]);
  }

  /** Flipping bit `index` of the w-bit form of v adds or removes that bit's weight. */
  lemma FlipByteBit(v: nat, w: nat, index: nat, k: nat)
    requires v < Pow2(w) && index + 1 + k == w
    ensures var bits := Bits(v, w);
      FromBits(bits[index := !bits[index]]) == if bits[index] then v - Pow2(k) else v + Pow2(k)
  {
    FlipBitValue(Bits(v, w), index, k);
    FromBitsOfBits(v, w);
  }

  /** Flipping bit j of a bit string adds or removes that bit's weight. */
  lemma FlipBitValue(bs: seq<bool>, j: nat, k: nat)
    requires j + 1 + k == |bs|
    ensures FromBits(bs[j := !bs[j]]) == if bs[j] then FromBits(bs) - Pow2(k) else FromBits(bs) + Pow2(k)
  {
    FromBitsUpdate(bs, j, !bs[j]);
  }

  /** Clicking the same bit twice restores the octet. */
  lemma ToggleBitTwice(v: int, index: int)
    requires IsByte(v) && 0 <= index < 8
    ensures ToggleBit(ToggleBit(v, index), index) == v
  {
    var once := ToggleBit(v, index);
    var r := ToggleBit(once, index);
    ToggleBitBits(v, index);
    ToggleBitBits(once, index);
    assert Bits(r, 8) == Bits(v, 8);
    FromBitsOfBits(r, 8);
    FromBitsOfBits(v, 8);
  }

  /** `x & y` on two octets. */
  function ByteAnd(x: int, y: int): (r: int)
    requires IsByte(x) && IsByte(y)
    ensures IsByte(r)
    ensures forall j :: 0 <= j < 8 ==> (Bits(r, 8)[j] <==> Bits(x, 8)[j] && Bits(y, 8)[j])
  {
    var bits := seq(8, j requires 0 <= j < 8 => Bits(x, 8)[j] && Bits(y, 8)[j]);
    BitsOfFromBits(bits);
    FromBits(bits)
  }

  /** `x | y` on two octets. */
  function ByteOr(x: int, y: int): (r: int)
    requires IsByte(x) && IsByte(y)
    ensures IsByte(r)
    ensures forall j :: 0 <= j < 8 ==> (Bits(r, 8)[j] <==> Bits(x, 8)[j] || Bits(y, 8)[j])
  {
    var bits := seq(8, j requires 0 <= j < 8 => Bits(x, 8)[j] || Bits(y, 8)[j]);
    BitsOfFromBits(bits);
    FromBits(bits)
  }

  /** `~m & 255` on an octet: the low eight bits of the 32-bit complement, which is 255 - m. */
  function ByteNot(m: int): (r: int)
    requires IsByte(m)
    ensures r == 255 - m
    ensures forall j :: 0 <= j < 8 ==> (Bits(r, 8)[j] <==> !Bits(m, 8)[j])
  {
    var bits := seq(8, j requires 0 <= j < 8 => !Bits(m, 8)[j]);
    BitsOfFromBits(bits);
    FromBitsComplement(Bits(m, 8));
    FromBitsOfBits(m, 8);
    FromBits(bits)
  }

  /** Octets with the same eight bits are equal. */
  lemma SameBitsSameByte(x: int, y: int)
    requires IsByte(x) && IsByte(y)
    requires forall j :: 0 <= j < 8 ==> Bits(x, 8)[j] == Bits(y, 8)[j]
    ensures x == y
  {
    assert Bits(x, 8) == Bits(y, 8);
    FromBitsOfBits(x, 8);
    FromBitsOfBits(y, 8);
  }

  /** `x & m` never exceeds x, and `x | m` is never below x. */
  lemma AndOrBounds(x: int, m: int)
    requires IsByte(x) && IsByte(m)
    ensures ByteAnd(x, m) <= x <= ByteOr(x, m)
  {
    FromBitsOfBits(x, 8);
    FromBitsOfBits(ByteAnd(x, m), 8);
    FromBitsOfBits(ByteOr(x, m), 8);
    FromBitsMonotone(Bits(ByteAnd(x, m), 8), Bits(x, 8));
    FromBitsMonotone(Bits(x, 8), Bits(ByteOr(x, m), 8));
  }
}
