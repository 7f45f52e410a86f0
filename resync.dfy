/**
 * What happens to the address's colours when the mask changes: every one-bit range counts as a
 * bit the user customised; each new mask range is narrowed to run from its first to its last
 * position that is not customised (or dropped when none is left), and the one-bit ranges follow.
 */
module MaskSync {
  import opened Wrappers
  import opened BitRanges

  /** `customizedBits`: the position of every one-bit range, in order. */
  function Customized(ranges: seq<BitRange>): (custom: seq<int>)
    ensures forall q :: q in custom <==> exists r :: r in ranges && r.start == r.end && r.start == q
  {
    if ranges == [] then []
    else
      var rest := Customized(ranges[1..]);
      assert forall r :: r in ranges[1..] ==> r in ranges;
      assert forall r :: r in ranges ==> r == ranges[0] || r in ranges[1..];
      (if ranges[0].start == ranges[0].end then [ranges[0].start] else []) + rest
  }

  /** `rangeBits`: the positions lo..hi that are not customised, in increasing order. */
  function FreePositions(lo: int, hi: int, custom: seq<int>): (free: seq<int>)
    ensures forall q :: q in free <==> lo <= q <= hi && q !in custom
    ensures forall i, j :: 0 <= i < j < |free| ==> free[i] < free[j]
    ensures forall i :: 0 <= i < |free| ==> lo <= free[i] <= hi
    decreases hi - lo
  {
    if lo > hi then []
    else
      var rest := FreePositions(lo + 1, hi, custom);
      (if lo in custom then [] else [lo]) + rest
  }

  /**
   * One mask range after the edit: from its least to its greatest free position, with the mask
   * range's class and label, or nothing when every position of it is customised.
   */
  function Narrowed(m: BitRange, custom: seq<int>): (r: Option<BitRange>)
    ensures r.None? <==> forall q :: m.start <= q <= m.end ==> q in custom
    ensures r.Some? ==>
      r.value.cssClass == m.cssClass && r.value.labelText == m.labelText &&
      m.start <= r.value.start <= r.value.end <= m.end &&
      r.value.start !in custom && r.value.end !in custom &&
      forall q :: (m.start <= q <= m.end && !Contains(r.value, q)) ==> q in custom
  {
    var free := FreePositions(m.start, m.end, custom);
    if |free| == 0 then None
    else
      var last := free[|free| - 1];
      assert free[0] in free && last in free;
      assert forall q :: q in free ==> free[0] <= q <= last;
      Some(BitRange(free[0], last, m.cssClass, m.labelText))
  }

  /** `updatedRanges`: every mask range narrowed, the ones with nothing left dropped, in order. */
  function NarrowAll(maskRanges: seq<BitRange>, custom: seq<int>): (r: seq<BitRange>)
    ensures |r| <= |maskRanges|
    ensures forall y :: y in r ==> exists m :: m in maskRanges && Narrowed(m, custom) == Some(y)
    ensures forall m :: m in maskRanges && Narrowed(m, custom).Some? ==> Narrowed(m, custom).value in r
  {
    if maskRanges == [] then []
    else
      var head := match Narrowed(maskRanges[0], custom) case None => [] case Some(x) => [x];
      var rest := NarrowAll(maskRanges[1..], custom);
      assert forall m :: m in maskRanges[1..] ==> m in maskRanges;
      assert forall m :: m in maskRanges ==> m == maskRanges[0] || m in maskRanges[1..];
      head + rest
  }

  /** `customRanges`: the one-bit ranges, in order. */
  function Singletons(ranges: seq<BitRange>): (r: seq<BitRange>)
    ensures forall y :: y in r <==> y in ranges && y.start == y.end
  {
    if ranges == [] then []
    else (if ranges[0].start == ranges[0].end then [ranges[0]] else []) + Singletons(ranges[1..])
  }

  /** The address's ranges after the mask changed to one with ranges `maskRanges`. */
  function Resync(current: seq<BitRange>, maskRanges: seq<BitRange>): seq<BitRange>
  {
    NarrowAll(maskRanges, Customized(current)) + Singletons(current)
  }

  /** `a` lies within the bounds of `b`. */
  predicate Within(a: BitRange, b: BitRange)
  {
    b.start <= a.start && a.end <= b.end
  }

  /** y is a non-empty part of m with m's class and label, and begins and ends at free positions. */
  predicate NarrowingOf(y: BitRange, m: BitRange, custom: seq<int>)
  {
    Within(y, m) && y.cssClass == m.cssClass && y.labelText == m.labelText &&
    y.start <= y.end && y.start !in custom && y.end !in custom
  }

  /** Every one-bit range survives a mask change unchanged. */
  lemma ResyncKeepsSingletons(current: seq<BitRange>, maskRanges: seq<BitRange>, x: BitRange)
    requires x in current && x.start == x.end
    ensures x in Resync(current, maskRanges)
  {
  }

  /**
   * Everything else in the result is a mask range narrowed: it lies within that mask range,
   * keeps its class and label, is not empty, and begins and ends at positions not customised.
   */
  lemma ResyncContents(current: seq<BitRange>, maskRanges: seq<BitRange>, y: BitRange)
    requires y in Resync(current, maskRanges)
    ensures (y in current && y.start == y.end) || exists m :: m in maskRanges && NarrowingOf(y, m, Customized(current))
  {
    var custom := Customized(current);
    assert y in NarrowAll(maskRanges, custom) || y in Singletons(current);
    if y in NarrowAll(maskRanges, custom) {
      var m :| m in maskRanges && Narrowed(m, custom) == Some(y);
      assert NarrowingOf(y, m, custom);
    }
  }

  /**
   * No position loses its colour: a position of a mask range is covered afterwards by a range of
   * that mask range's class, unless a one-bit range of the old colouring sits on it, which is then
   * kept.
   */
  lemma ResyncCovers(current: seq<BitRange>, maskRanges: seq<BitRange>, m: BitRange, q: int)
    requires m in maskRanges && Contains(m, q)
    ensures exists y :: (y in Resync(current, maskRanges) && Contains(y, q) &&
      (y.cssClass == m.cssClass || (y in current && y.start == y.end == q)))
  {
    var custom := Customized(current);
    var r := Resync(current, maskRanges);
    if q in custom {
      var x :| x in current && x.start == x.end && x.start == q;
      assert x in r && Contains(x, q);
    } else {
      var n := Narrowed(m, custom);
      assert n.Some?;
      assert n.value in r;
      assert Contains(n.value, q);
    }
  }

  /** Every range of the result is non-empty, so `[1, 0]` and `[33, 32]` never survive; well-formed input stays well-formed. */
  lemma ResyncWellFormed(current: seq<BitRange>, maskRanges: seq<BitRange>)
    requires AllWellFormed(current) && AllWellFormed(maskRanges)
    ensures var r := Resync(current, maskRanges);
      AllWellFormed(r) && forall i :: 0 <= i < |r| ==> r[i].start <= r[i].end
  {
    var r := Resync(current, maskRanges);
    forall i | 0 <= i < |r|
      ensures WellFormed(r[i]) && r[i].start <= r[i].end
    {
      ResyncContents(current, maskRanges, r[i]);
      if !(r[i] in current && r[i].start == r[i].end) {
        var m :| m in maskRanges && NarrowingOf(r[i], m, Customized(current));
        var k :| 0 <= k < |maskRanges| && maskRanges[k] == m;
        assert WellFormed(maskRanges[k]);
      } else {
        var k :| 0 <= k < |current| && current[k] == r[i];
        assert WellFormed(current[k]);
      }
    }
  }

  /** With nothing customised, a non-empty mask range is narrowed to itself. */
  lemma NarrowedUncustomised(m: BitRange)
    requires m.start <= m.end
    ensures Narrowed(m, []) == Some(m)
  {
    var n := Narrowed(m, []);
    assert m.start !in [];
    assert n.Some?;
    assert Contains(n.value, m.start) && Contains(n.value, m.end);
  }

  /** The ranges that hold at least one position, in order. */
  function NonEmpty(ranges: seq<BitRange>): (r: seq<BitRange>)
    ensures forall y :: y in r <==> y in ranges && y.start <= y.end
  {
    if ranges == [] then []
    else (if ranges[0].start <= ranges[0].end then [ranges[0]] else []) + NonEmpty(ranges[1..])
  }

  /** With nothing customised, narrowing keeps every non-empty mask range as it is. */
  lemma {:induction false} NarrowAllUncustomised(maskRanges: seq<BitRange>)
    ensures NarrowAll(maskRanges, []) == NonEmpty(maskRanges)
  {
    if maskRanges != [] {
      NarrowAllUncustomised(maskRanges[1..]);
      var m := maskRanges[0];
      if m.start <= m.end {
        NarrowedUncustomised(m);
      } else {
        assert Narrowed(m, []).None?;
      }
    }
  }

  /** Without one-bit ranges nothing is customised. */
  lemma {:induction false} NothingCustomised(current: seq<BitRange>)
    requires forall x :: x in current ==> x.start != x.end
    ensures Customized(current) == [] && Singletons(current) == []
  {
    if current != [] {
      assert current[0] in current;
      assert forall x :: x in current[1..] ==> x in current;
      NothingCustomised(current[1..]);
    }
  }

  /**
   * Without one-bit ranges the result is just the new mask ranges, an empty one (of a /0 or /32
   * mask) left out: going from 255.255.255.0 to 255.255.0.0, say, gives `[1, 16]` and `[17, 32]`.
   */
  lemma ResyncUncustomised(current: seq<BitRange>, maskRanges: seq<BitRange>)
    requires forall x :: x in current ==> x.start != x.end
    ensures Resync(current, maskRanges) == NonEmpty(maskRanges)
  {
    NothingCustomised(current);
    NarrowAllUncustomised(maskRanges);
  }

  /** The non-empty mask ranges of a prefix length: both, except for /0 and /32. */
  lemma NonEmptyMaskRanges(n: int)
    requires 0 <= n <= 32
    ensures NonEmpty(MaskRangesOf(n)) ==
      if n == 0 then [MaskRangesOf(n)[1]] else if n == 32 then [MaskRangesOf(n)[0]] else MaskRangesOf(n)
  {
    var masks := MaskRangesOf(n);
    assert masks[1..] == [masks[1]];
    assert NonEmpty(masks[1..]) == (if n < 32 then [masks[1]] else []) + NonEmpty([masks[1]][1..]);
    assert [masks[1]][1..] == [];
  }
}
