/**
 * `handleColorChange` when several ranges hold the clicked position.  The code splits only the
 * first range that holds it (`find`) and drops every other one with the filter on unaffected
 * ranges, so their other positions lose their colour.  Such colourings arise: the resync on a mask
 * change keeps one-bit ranges next to a narrowed range that spans them.
 *
 * The corrected operation splits every range that holds the position and, as `PaintedFixed`
 * does, drops only the same-class ranges that were merged.
 */
module PaintAllHolders {
  import opened Wrappers
  import opened BitRanges
  import opened Paint
  import MaskSync

  /** The residuals of every range that holds p, in the order of those ranges. */
  function AllResiduals(ranges: seq<BitRange>, p: int): (res: seq<BitRange>)
  {
    if ranges == [] then []
    else (if Contains(ranges[0], p) then Residuals(Some(ranges[0]), p) else []) + AllResiduals(ranges[1..], p)
  }

  /** Each residual is a non-empty part, not holding p, of a range that holds p, with its class. */
  lemma {:induction false} AllResidualsOrigin(ranges: seq<BitRange>, p: int, r: BitRange)
    requires r in AllResiduals(ranges, p)
    ensures r.start <= r.end && !Contains(r, p)
    ensures exists x :: x in ranges && Contains(x, p) && Within(r, x) && r.cssClass == x.cssClass
  {
    var head := if Contains(ranges[0], p) then Residuals(Some(ranges[0]), p) else [];
    assert AllResiduals(ranges, p) == head + AllResiduals(ranges[1..], p);
    if r in head {
      ResidualsWithin(Some(ranges[0]), p);
      assert ranges[0] in ranges;
    } else {
      AllResidualsOrigin(ranges[1..], p, r);
      var x :| x in ranges[1..] && Contains(x, p) && Within(r, x) && r.cssClass == x.cssClass;
      assert x in ranges;
    }
  }

  /** Every other position of a range that holds p is covered by one of its residuals, of its class. */
  lemma {:induction false} AllResidualsCover(ranges: seq<BitRange>, p: int, x: BitRange, q: int)
    requires x in ranges && Contains(x, p) && Contains(x, q) && q != p
    ensures exists r :: r in AllResiduals(ranges, p) && Contains(r, q) && r.cssClass == x.cssClass
  {
    var head := if Contains(ranges[0], p) then Residuals(Some(ranges[0]), p) else [];
    assert AllResiduals(ranges, p) == head + AllResiduals(ranges[1..], p);
    if ranges[0] == x {
      var r := if q < p then BitRange(x.start, p - 1, x.cssClass, x.labelText) else BitRange(p + 1, x.end, x.cssClass, x.labelText);
      assert r in head;
    } else {
      AllResidualsCover(ranges[1..], p, x, q);
    }
  }

  /** The residuals of well-formed ranges are well-formed. */
  lemma AllResidualsWellFormed(ranges: seq<BitRange>, p: int)
    requires AllWellFormed(ranges)
    ensures AllWellFormed(AllResiduals(ranges, p))
  {
    var res := AllResiduals(ranges, p);
    forall i | 0 <= i < |res|
      ensures WellFormed(res[i])
    {
      AllResidualsOrigin(ranges, p, res[i]);
      var x :| x in ranges && Contains(x, p) && Within(res[i], x) && res[i].cssClass == x.cssClass;
      var k :| 0 <= k < |ranges| && ranges[k] == x;
    }
  }

  /** The merge state after splitting every range that holds p. */
  function MergeAllHolders(current: seq<BitRange>, p: int, color: Color): Merge
  {
    var cs := Candidates(Unaffected(current, p), AllResiduals(current, p), color.cssClass);
    MergeAll(Merge(BitRange(p, p, color.cssClass, color.name), []), cs)
  }

  /**
   * The corrected painting: the unaffected ranges not merged, the residuals of every range that
   * held p that were not merged, then the new range.
   */
  function PaintedAllHolders(current: seq<BitRange>, p: int, color: Color): seq<BitRange>
  {
    var m := MergeAllHolders(current, p, color);
    Kept(Unaffected(current, p), color.cssClass, m.absorbed, 0) +
    Survivors(AllResiduals(current, p), m.absorbed, 0) +
    [m.range]
  }

  /** The corrected painting assembled from its parts. */
  lemma AllHoldersAssembled(current: seq<BitRange>, p: int, color: Color, m: Merge, front: seq<BitRange>)
    requires MergeAllHolders(current, p, color) == m
    requires Kept(Unaffected(current, p), color.cssClass, m.absorbed, 0) + Survivors(AllResiduals(current, p), m.absorbed, 0) == front
    ensures PaintedAllHolders(current, p, color) == front + [m.range]
  {
    var kept := Kept(Unaffected(current, p), color.cssClass, m.absorbed, 0);
    var sv := Survivors(AllResiduals(current, p), m.absorbed, 0);
    assert PaintedAllHolders(current, p, color) == kept + sv + [m.range];
  }

  /** The facts of the merge after splitting every holder: its range, and what it absorbed. */
  lemma AllHoldersMergeFacts(current: seq<BitRange>, p: int, color: Color)
    requires AllWellFormed(current)
    requires 1 <= p <= 32
    ensures var m := MergeAllHolders(current, p, color);
      var cs := Candidates(Unaffected(current, p), AllResiduals(current, p), color.cssClass);
      1 <= m.range.start <= p <= m.range.end <= 32 &&
      m.range.cssClass == color.cssClass && m.range.labelText == color.name &&
      (forall c :: c in m.absorbed ==> Within(c.range, m.range) && c in cs) &&
      (forall q :: Contains(m.range, q) <==> q == p || exists c :: c in m.absorbed && Contains(c.range, q))
  {
    var u := Unaffected(current, p);
    var res := AllResiduals(current, p);
    HitResiduals(current, p);
    AllResidualsWellFormed(current, p);
    var cs := Candidates(u, res, color.cssClass);
    CandidatesWellFormed(u, res, color.cssClass);
    var m0 := Merge(BitRange(p, p, color.cssClass, color.name), []);
    MergeAllFacts(m0, cs, p);
    MergeAllCovers(m0, cs, p);
  }

  /** The corrected painting keeps every range well-formed, and ends in the new range, which holds p. */
  lemma AllHoldersWellFormed(current: seq<BitRange>, p: int, color: Color)
    requires AllWellFormed(current)
    requires 1 <= p <= 32
    ensures var r := PaintedAllHolders(current, p, color);
      AllWellFormed(r) && Contains(r[|r| - 1], p) &&
      r[|r| - 1].cssClass == color.cssClass && r[|r| - 1].labelText == color.name
  {
    var u := Unaffected(current, p);
    var res := AllResiduals(current, p);
    HitResiduals(current, p);
    AllResidualsWellFormed(current, p);
    AllHoldersMergeFacts(current, p, color);
    var m := MergeAllHolders(current, p, color);
    var front := Kept(u, color.cssClass, m.absorbed, 0) + Survivors(res, m.absorbed, 0);
    assert forall x :: x in front ==> x in u || x in res;
    AllHoldersAssembled(current, p, color, m, front);
    WellFormedAppend(front, m.range);
  }

  /**
   * The corrected painting changes the colour of p only, whatever the colouring: every other
   * position covered by a range of some class is still covered by a range of that class.
   */
  lemma AllHoldersKeepColours(current: seq<BitRange>, p: int, color: Color, q: int, x: BitRange)
    requires AllWellFormed(current)
    requires 1 <= p <= 32
    requires x in current && Contains(x, q) && q != p
    ensures exists y :: y in PaintedAllHolders(current, p, color) && Contains(y, q) && y.cssClass == x.cssClass
  {
    var u := Unaffected(current, p);
    var res := AllResiduals(current, p);
    AllHoldersMergeFacts(current, p, color);
    var m := MergeAllHolders(current, p, color);
    var kept := Kept(u, color.cssClass, m.absorbed, 0);
    var survivors := Survivors(res, m.absorbed, 0);
    AllHoldersAssembled(current, p, color, m, kept + survivors);
    var r := PaintedAllHolders(current, p, color);
    if Contains(x, p) {
      AllResidualsCover(current, p, x, q);
      var y :| y in res && Contains(y, q) && y.cssClass == x.cssClass;
      var j :| 0 <= j < |res| && res[j] == y;
      if Candidate(y, true, j) in m.absorbed {
        assert Contains(m.range, q) && m.range in r;
        CandidateOrigin(u, res, color.cssClass, Candidate(y, true, j));
      } else {
        assert y in survivors;
        assert y in r;
      }
    } else {
      var i :| 0 <= i < |u| && u[i] == x;
      if x.cssClass == color.cssClass && Candidate(x, false, i) in m.absorbed {
        assert Contains(m.range, q) && m.range in r;
      } else {
        assert x in kept;
        assert x in r;
      }
    }
  }

  /**
   * Nor does the corrected painting give any position other than p a class it did not have: a
   * range of the result that covers q != p stands for a range of the same class that covered q.
   */
  lemma AllHoldersGainNoColour(current: seq<BitRange>, p: int, color: Color, q: int, y: BitRange)
    requires AllWellFormed(current)
    requires 1 <= p <= 32
    requires y in PaintedAllHolders(current, p, color) && Contains(y, q) && q != p
    ensures exists x :: x in current && Contains(x, q) && x.cssClass == y.cssClass
  {
    var u := Unaffected(current, p);
    var res := AllResiduals(current, p);
    AllHoldersMergeFacts(current, p, color);
    var m := MergeAllHolders(current, p, color);
    var front := Kept(u, color.cssClass, m.absorbed, 0) + Survivors(res, m.absorbed, 0);
    AllHoldersAssembled(current, p, color, m, front);
    if y == m.range {
      var c :| c in m.absorbed && Contains(c.range, q);
      CandidateOrigin(u, res, color.cssClass, c);
      if c.fromSplit {
        AllResidualsOrigin(current, p, c.range);
      }
    } else if y in res {
      AllResidualsOrigin(current, p, y);
    }
  }

  /** No range holds p: no residual. */
  lemma {:induction false} NoHolderNoResiduals(ranges: seq<BitRange>, p: int)
    requires forall x :: x in ranges ==> !Contains(x, p)
    ensures AllResiduals(ranges, p) == []
  {
    if ranges != [] {
      assert ranges[0] in ranges;
      NoHolderNoResiduals(ranges[1..], p);
    }
  }

  /** With a single range holding p, splitting every holder splits just that one. */
  lemma {:induction false} AllResidualsSingle(ranges: seq<BitRange>, p: int)
    requires SingleHolder(ranges, p)
    ensures AllResiduals(ranges, p) == Residuals(FindContaining(ranges, p), p)
  {
    if ranges != [] {
      var rest := ranges[1..];
      if Contains(ranges[0], p) {
        forall x | x in rest
          ensures !Contains(x, p)
        {
          var j :| 0 <= j < |rest| && rest[j] == x;
          assert ranges[j + 1] == x;
        }
        NoHolderNoResiduals(rest, p);
      } else {
        assert SingleHolder(rest, p) by {
          forall i, j | 0 <= i < |rest| && 0 <= j < |rest| && Contains(rest[i], p) && Contains(rest[j], p)
            ensures i == j
          {
            assert ranges[i + 1] == rest[i] && ranges[j + 1] == rest[j];
          }
        }
        AllResidualsSingle(rest, p);
      }
    }
  }

  /** With a single range holding p, the corrected painting is `PaintedFixed`. */
  lemma AllHoldersAgree(current: seq<BitRange>, p: int, color: Color)
    requires SingleHolder(current, p)
    ensures PaintedAllHolders(current, p, color) == PaintedFixed(current, p, color)
  {
    AllResidualsSingle(current, p);
  }

  /** With nothing absorbed, every unaffected range from index k on is kept. */
  lemma {:induction false} KeptOfNone(unaffected: seq<BitRange>, cls: string, k: nat)
    requires k <= |unaffected|
    ensures Kept(unaffected, cls, [], k) == unaffected[k..]
    decreases |unaffected| - k
  {
    if k < |unaffected| {
      KeptOfNone(unaffected, cls, k + 1);
    }
  }

  /** A colouring of four ranges of which the second and the fourth hold p: the unaffected ones. */
  lemma SecondAndFourthUnaffected(w: BitRange, x: BitRange, y: BitRange, z: BitRange, p: int)
    requires !Contains(w, p) && Contains(x, p) && !Contains(y, p) && Contains(z, p)
    ensures Unaffected([w, x, y, z], p) == [w, y]
  {
    assert [w, x, y, z][1..] == [x, y, z];
    assert [x, y, z][1..] == [y, z];
    assert [y, z][1..] == [z];
    assert [z][1..] == [];
    assert Unaffected([z], p) == [];
    assert Unaffected([y, z], p) == [y];
    assert Unaffected([x, y, z], p) == [y];
  }

  /** The same colouring: the range split is the second. */
  lemma SecondAndFourthSplit(w: BitRange, x: BitRange, y: BitRange, z: BitRange, p: int)
    requires !Contains(w, p) && Contains(x, p)
    ensures FindContaining([w, x, y, z], p) == Some(x)
  {
    assert [w, x, y, z][1..] == [x, y, z];
  }

  /** Two ranges of classes other than `cls` are both kept by `OtherClass`. */
  lemma OtherClassPair(w: BitRange, y: BitRange, cls: string)
    requires w.cssClass != cls && y.cssClass != cls
    ensures OtherClass([w, y], cls) == [w, y]
  {
    assert [w, y][1..] == [y] && [y][1..] == [];
    assert OtherClass([y], cls) == [y] + OtherClass([], cls);
  }

  /**
   * Painting p with colour b when the second and fourth of four ranges hold p and no range has
   * b's class: the second is split, the fourth is dropped, as written and with the filter
   * corrected alike.
   */
  lemma SecondHolderSplitOnly(w: BitRange, x: BitRange, y: BitRange, z: BitRange, p: int, b: Color)
    requires !Contains(w, p) && Contains(x, p) && !Contains(y, p) && Contains(z, p)
    requires w.cssClass != b.cssClass && x.cssClass != b.cssClass && y.cssClass != b.cssClass
    ensures var r := [w, y] + Residuals(Some(x), p) + [BitRange(p, p, b.cssClass, b.name)];
      Painted([w, x, y, z], p, b) == r && PaintedFixed([w, x, y, z], p, b) == r
  {
    var current := [w, x, y, z];
    SecondAndFourthUnaffected(w, x, y, z, p);
    SecondAndFourthSplit(w, x, y, z, p);
    var u := [w, y];
    var res := Residuals(Some(x), p);
    PaintedNoCandidate(current, p, b, u, res);
    OtherClassPair(w, y, b.cssClass);
    NoCandidates(u, res, b.cssClass);
    KeptOfNone(u, b.cssClass, 0);
    SurvivorsOfNone(res, 0);
    assert u[0..] == u && res[0..] == res;
    PaintedFixedAssembled(current, p, b, Merge(BitRange(p, p, b.cssClass, b.name), []), u + res);
  }

  /** Splitting [1, 5] at bit 5 leaves [1, 4]. */
  lemma LowResidual()
    ensures Residuals(Some(BitRange(1, 5, NETWORK_CLASS, NETWORK_LABEL)), 5) ==
      [BitRange(1, 4, NETWORK_CLASS, NETWORK_LABEL)]
  {
  }

  /** Two pairs of ranges side by side make a list of four. */
  lemma ConcatFour(w: BitRange, y: BitRange, lo: BitRange, m: BitRange)
    ensures [w, y] + [lo] + [m] == [w, y, lo, m]
  {
  }

  /**
   * A colouring in which two ranges hold bit 5: [1, 5] of the network class and [5, 6] of colour
   * a.  Painting bit 5 with a third colour b splits [1, 5] and drops [5, 6], as written and with
   * only the filter corrected alike: bit 6 is left without a colour.
   */
  lemma SecondHolderDropped(a: Color, b: Color)
    requires b.cssClass != NETWORK_CLASS && b.cssClass != HOST_CLASS
    ensures var current := [BitRange(21, 32, HOST_CLASS, HOST_LABEL), BitRange(1, 5, NETWORK_CLASS, NETWORK_LABEL),
        BitRange(7, 20, NETWORK_CLASS, NETWORK_LABEL), BitRange(5, 6, a.cssClass, a.name)];
      var expected := [BitRange(21, 32, HOST_CLASS, HOST_LABEL), BitRange(7, 20, NETWORK_CLASS, NETWORK_LABEL),
        BitRange(1, 4, NETWORK_CLASS, NETWORK_LABEL), BitRange(5, 5, b.cssClass, b.name)];
      Painted(current, 5, b) == expected && PaintedFixed(current, 5, b) == expected &&
      forall y :: y in expected ==> !Contains(y, 6)
  {
    var w, x := BitRange(21, 32, HOST_CLASS, HOST_LABEL), BitRange(1, 5, NETWORK_CLASS, NETWORK_LABEL);
    var y, z := BitRange(7, 20, NETWORK_CLASS, NETWORK_LABEL), BitRange(5, 6, a.cssClass, a.name);
    LowResidual();
    SecondHolderSplitOnly(w, x, y, z, 5, b);
    var lo, m := BitRange(1, 4, NETWORK_CLASS, NETWORK_LABEL), BitRange(5, 5, b.cssClass, b.name);
    ConcatFour(w, y, lo, m);
  }

  /** Splitting [1, 24] at bit 5 leaves [1, 4] and [6, 24]. */
  lemma MountResiduals()
    ensures Residuals(Some(BitRange(1, 24, NETWORK_CLASS, NETWORK_LABEL)), 5) ==
      [BitRange(1, 4, NETWORK_CLASS, NETWORK_LABEL), BitRange(6, 24, NETWORK_CLASS, NETWORK_LABEL)]
  {
  }

  /** Splitting [1, 20] at bit 6 leaves [1, 5] and [7, 20]. */
  lemma WidenedResiduals()
    ensures Residuals(Some(BitRange(1, 20, NETWORK_CLASS, NETWORK_LABEL)), 6) ==
      [BitRange(1, 5, NETWORK_CLASS, NETWORK_LABEL), BitRange(7, 20, NETWORK_CLASS, NETWORK_LABEL)]
  {
  }

  /** Painting p, held only by the first of two ranges, with a class neither has: a split. */
  lemma FirstHolderSplit(n: BitRange, h: BitRange, p: int, a: Color)
    requires Contains(n, p) && !Contains(h, p)
    requires n.cssClass != a.cssClass && h.cssClass != a.cssClass
    ensures Painted([n, h], p, a) == [h] + Residuals(Some(n), p) + [BitRange(p, p, a.cssClass, a.name)]
  {
    FirstHolding(n, h, p);
    PaintedNoCandidate([n, h], p, a, [h], Residuals(Some(n), p));
    OtherClassSingle(h, a.cssClass);
  }

  /** First step: on the /24 colouring, bit 5 is painted with a. */
  lemma OverlapStepPaint(a: Color)
    requires a.cssClass != NETWORK_CLASS && a.cssClass != HOST_CLASS
    ensures Painted(MaskRangesOf(24), 5, a) == [BitRange(25, 32, HOST_CLASS, HOST_LABEL),
      BitRange(1, 4, NETWORK_CLASS, NETWORK_LABEL), BitRange(6, 24, NETWORK_CLASS, NETWORK_LABEL),
      BitRange(5, 5, a.cssClass, a.name)]
  {
    var n, h := BitRange(1, 24, NETWORK_CLASS, NETWORK_LABEL), BitRange(25, 32, HOST_CLASS, HOST_LABEL);
    var lo, hi := BitRange(1, 4, NETWORK_CLASS, NETWORK_LABEL), BitRange(6, 24, NETWORK_CLASS, NETWORK_LABEL);
    FirstHolderSplit(n, h, 5, a);
    MountResiduals();
    ConcatOneTwoOne(h, lo, hi, BitRange(5, 5, a.cssClass, a.name));
  }

  /** One range, then two, then one make a list of four. */
  lemma ConcatOneTwoOne(w: BitRange, x: BitRange, y: BitRange, z: BitRange)
    ensures [w] + [x, y] + [z] == [w, x, y, z]
  {
  }

  /** Of four ranges, only the last has one bit: its position is the only one customised. */
  lemma LastCustomized(w: BitRange, x: BitRange, y: BitRange, z: BitRange)
    requires w.start != w.end && x.start != x.end && y.start != y.end && z.start == z.end
    ensures MaskSync.Customized([w, x, y, z]) == [z.start]
    ensures MaskSync.Singletons([w, x, y, z]) == [z]
  {
    assert [w, x, y, z][1..] == [x, y, z] && [x, y, z][1..] == [y, z] && [y, z][1..] == [z] && [z][1..] == [];
    assert MaskSync.Customized([z]) == [z.start] && MaskSync.Singletons([z]) == [z];
    assert MaskSync.Customized([y, z]) == [z.start] && MaskSync.Singletons([y, z]) == [z];
    assert MaskSync.Customized([x, y, z]) == [z.start] && MaskSync.Singletons([x, y, z]) == [z];
  }

  /** A mask range whose two ends are not customised keeps its bounds. */
  lemma NarrowedWhole(m: BitRange, custom: seq<int>)
    requires m.start <= m.end && m.start !in custom && m.end !in custom
    ensures MaskSync.Narrowed(m, custom) == Some(m)
  {
    var r := MaskSync.Narrowed(m, custom);
    assert r.Some?;
    assert Contains(r.value, m.start) && Contains(r.value, m.end);
  }

  /** A mask of two ranges whose ends are all free, over four ranges of which only the last has one bit. */
  lemma ResyncKeepsMask(n: BitRange, h: BitRange, w: BitRange, x: BitRange, y: BitRange, z: BitRange)
    requires w.start != w.end && x.start != x.end && y.start != y.end && z.start == z.end
    requires n.start <= n.end && h.start <= h.end
    requires z.start != n.start && z.start != n.end && z.start != h.start && z.start != h.end
    ensures MaskSync.Resync([w, x, y, z], [n, h]) == [n, h, z]
  {
    LastCustomized(w, x, y, z);
    NarrowedWhole(n, [z.start]);
    NarrowedWhole(h, [z.start]);
    NarrowAllPair(n, h, [z.start]);
    ResyncAssembled([w, x, y, z], [n, h], [n, h], [z]);
    ConcatTwoOne(n, h, z);
  }

  /** The resync assembled from its parts: the narrowed mask ranges, then the one-bit ranges. */
  lemma ResyncAssembled(current: seq<BitRange>, maskRanges: seq<BitRange>, front: seq<BitRange>, singles: seq<BitRange>)
    requires MaskSync.NarrowAll(maskRanges, MaskSync.Customized(current)) == front
    requires MaskSync.Singletons(current) == singles
    ensures MaskSync.Resync(current, maskRanges) == front + singles
  {
  }

  /** Two ranges and then one make a list of three. */
  lemma ConcatTwoOne(x: BitRange, y: BitRange, z: BitRange)
    ensures [x, y] + [z] == [x, y, z]
  {
  }

  /** Two mask ranges that both keep their bounds are kept, in order. */
  lemma NarrowAllPair(n: BitRange, h: BitRange, custom: seq<int>)
    requires MaskSync.Narrowed(n, custom) == Some(n) && MaskSync.Narrowed(h, custom) == Some(h)
    ensures MaskSync.NarrowAll([n, h], custom) == [n, h]
  {
    assert [n, h][1..] == [h] && [h][1..] == [];
    assert MaskSync.NarrowAll([], custom) == [];
    assert MaskSync.NarrowAll([h], custom) == [h] + MaskSync.NarrowAll([], custom);
    assert MaskSync.NarrowAll([n, h], custom) == [n] + MaskSync.NarrowAll([h], custom);
  }

  /** Second step: the mask becomes /20, which spans the one-bit range at 5. */
  lemma OverlapStepResync(a: Color)
    ensures MaskSync.Resync([BitRange(25, 32, HOST_CLASS, HOST_LABEL), BitRange(1, 4, NETWORK_CLASS, NETWORK_LABEL),
      BitRange(6, 24, NETWORK_CLASS, NETWORK_LABEL), BitRange(5, 5, a.cssClass, a.name)], MaskRangesOf(20)) ==
      [BitRange(1, 20, NETWORK_CLASS, NETWORK_LABEL), BitRange(21, 32, HOST_CLASS, HOST_LABEL), BitRange(5, 5, a.cssClass, a.name)]
  {
    ResyncKeepsMask(BitRange(1, 20, NETWORK_CLASS, NETWORK_LABEL), BitRange(21, 32, HOST_CLASS, HOST_LABEL),
      BitRange(25, 32, HOST_CLASS, HOST_LABEL), BitRange(1, 4, NETWORK_CLASS, NETWORK_LABEL),
      BitRange(6, 24, NETWORK_CLASS, NETWORK_LABEL), BitRange(5, 5, a.cssClass, a.name));
  }

  /** With one other-class range and then one range of class `cls` unaffected, the latter is the only candidate. */
  lemma SecondUnaffectedCandidate(w: BitRange, x: BitRange, res: seq<BitRange>, cls: string)
    requires w.cssClass != cls && x.cssClass == cls
    requires forall r :: r in res ==> r.cssClass != cls
    ensures Candidates([w, x], res, cls) == [Candidate(x, false, 1)]
  {
    var c := Candidate(x, false, 1);
    var tail := Tagged(res, true);
    var all := Tagged([w, x], false) + tail;
    assert all[0] == Candidate(w, false, 0) && all[1..][0] == c && all[1..][1..] == tail;
    OfClassNone(tail, cls);
    assert OfClass(all[1..], cls) == [c];
    assert OfClass(all, cls) == [c];
    assert [c][1..] == [];
  }

  /** Three ranges of which only the first holds p: the other two are unaffected and it is split. */
  lemma FirstOfThreeHolding(n: BitRange, h: BitRange, x: BitRange, p: int)
    requires Contains(n, p) && !Contains(h, p) && !Contains(x, p)
    ensures Unaffected([n, h, x], p) == [h, x] && FindContaining([n, h, x], p) == Some(n)
  {
    assert [n, h, x][1..] == [h, x] && [h, x][1..] == [x] && [x][1..] == [];
    assert Unaffected([x], p) == [x];
    assert Unaffected([h, x], p) == [h, x];
  }

  /**
   * Painting p, held by the first of three ranges, when the third has the chosen class and ends
   * just before p: the first is split and the third grows by p.
   */
  lemma GrowBesideHolder(n: BitRange, h: BitRange, x: BitRange, p: int, a: Color)
    requires Contains(n, p) && !Contains(h, p) && x.end + 1 == p
    requires n.cssClass != a.cssClass && h.cssClass != a.cssClass && x.cssClass == a.cssClass
    ensures Painted([n, h, x], p, a) == [h] + Residuals(Some(n), p) + [BitRange(x.start, p, a.cssClass, a.name)]
  {
    var res := Residuals(Some(n), p);
    var c := Candidate(x, false, 1);
    GrowMerge(n, h, x, p, a);
    SurvivorsIgnoresUnaffected(res, [], c, 0);
    SurvivorsOfNone(res, 0);
    assert res[0..] == res && [] + [c] == [c];
    assert Survivors(res, [c], 0) == res;
    OtherClassPairDrop(h, x, a.cssClass);
    assert OtherClass(Unaffected([n, h, x], p), a.cssClass) == [h];
    assert Residuals(FindContaining([n, h, x], p), p) == res;
    PaintedAssembled([n, h, x], p, a, Merge(BitRange(x.start, p, a.cssClass, a.name), [c]), [h] + res);
  }

  /** The merge of that painting: the third range is the one candidate and is absorbed. */
  lemma GrowMerge(n: BitRange, h: BitRange, x: BitRange, p: int, a: Color)
    requires Contains(n, p) && !Contains(h, p) && x.end + 1 == p
    requires n.cssClass != a.cssClass && h.cssClass != a.cssClass && x.cssClass == a.cssClass
    ensures Unaffected([n, h, x], p) == [h, x] && FindContaining([n, h, x], p) == Some(n)
    ensures FinalMerge([n, h, x], p, a) == Merge(BitRange(x.start, p, a.cssClass, a.name), [Candidate(x, false, 1)])
  {
    FirstOfThreeHolding(n, h, x, p);
    SecondUnaffectedCandidate(h, x, Residuals(Some(n), p), a.cssClass);
    MergeOne(Merge(BitRange(p, p, a.cssClass, a.name), []), Candidate(x, false, 1));
  }

  /** Of a range of another class and one of class `cls`, `OtherClass` keeps the first. */
  lemma OtherClassPairDrop(h: BitRange, x: BitRange, cls: string)
    requires h.cssClass != cls && x.cssClass == cls
    ensures OtherClass([h, x], cls) == [h]
  {
    assert [h, x][1..] == [x];
    OtherClassSingle(x, cls);
  }

  /** Third step: bit 6 is painted with a, which grows the one-bit range at 5 and splits [1, 20]. */
  lemma OverlapStepGrow(a: Color)
    requires a.cssClass != NETWORK_CLASS && a.cssClass != HOST_CLASS
    ensures Painted([BitRange(1, 20, NETWORK_CLASS, NETWORK_LABEL), BitRange(21, 32, HOST_CLASS, HOST_LABEL),
      BitRange(5, 5, a.cssClass, a.name)], 6, a) == [BitRange(21, 32, HOST_CLASS, HOST_LABEL),
      BitRange(1, 5, NETWORK_CLASS, NETWORK_LABEL), BitRange(7, 20, NETWORK_CLASS, NETWORK_LABEL),
      BitRange(5, 6, a.cssClass, a.name)]
  {
    var n, h := BitRange(1, 20, NETWORK_CLASS, NETWORK_LABEL), BitRange(21, 32, HOST_CLASS, HOST_LABEL);
    GrowBesideHolder(n, h, BitRange(5, 5, a.cssClass, a.name), 6, a);
    WidenedResiduals();
    ConcatOneTwoOne(h, BitRange(1, 5, NETWORK_CLASS, NETWORK_LABEL), BitRange(7, 20, NETWORK_CLASS, NETWORK_LABEL),
      BitRange(5, 6, a.cssClass, a.name));
  }

  /**
   * The colouring of `SecondHolderDropped` arises from the one the /24 mask sets up: paint bit 5
   * with a, widen the mask to /20, paint bit 6 with a.
   */
  lemma OverlapReachable(a: Color)
    requires a.cssClass != NETWORK_CLASS && a.cssClass != HOST_CLASS
    ensures Painted(MaskSync.Resync(Painted(MaskRangesOf(24), 5, a), MaskRangesOf(20)), 6, a) ==
      [BitRange(21, 32, HOST_CLASS, HOST_LABEL), BitRange(1, 5, NETWORK_CLASS, NETWORK_LABEL),
      BitRange(7, 20, NETWORK_CLASS, NETWORK_LABEL), BitRange(5, 6, a.cssClass, a.name)]
  {
    OverlapStepPaint(a);
    OverlapStepResync(a);
    OverlapStepGrow(a);
  }

  /**
   * The whole sequence as written: after painting bit 5 with a, widening the mask from /24 to /20
   * and painting bit 6 with a, painting bit 5 with b leaves bit 6 with no colour at all.
   */
  lemma ReachedColouringLosesBit(a: Color, b: Color)
    requires a.cssClass != NETWORK_CLASS && a.cssClass != HOST_CLASS
    requires b.cssClass != NETWORK_CLASS && b.cssClass != HOST_CLASS
    ensures var reached := Painted(MaskSync.Resync(Painted(MaskRangesOf(24), 5, a), MaskRangesOf(20)), 6, a);
      forall y :: y in Painted(reached, 5, b) ==> !Contains(y, 6)
  {
    OverlapReachable(a);
    SecondHolderDropped(a, b);
  }

  /** The corrected painting of that colouring keeps bit 6 in colour a. */
  lemma SecondHolderKept(a: Color, b: Color)
    ensures var current := [BitRange(21, 32, HOST_CLASS, HOST_LABEL), BitRange(1, 5, NETWORK_CLASS, NETWORK_LABEL),
        BitRange(7, 20, NETWORK_CLASS, NETWORK_LABEL), BitRange(5, 6, a.cssClass, a.name)];
      exists y :: y in PaintedAllHolders(current, 5, b) && Contains(y, 6) && y.cssClass == a.cssClass
  {
    var current := [BitRange(21, 32, HOST_CLASS, HOST_LABEL), BitRange(1, 5, NETWORK_CLASS, NETWORK_LABEL),
        BitRange(7, 20, NETWORK_CLASS, NETWORK_LABEL), BitRange(5, 6, a.cssClass, a.name)];
    assert AllWellFormed(current);
    AllHoldersKeepColours(current, 5, b, 6, current[3]);
  }
}
