/**
 * The paint operation `handleColorChange` of IPMaskDisplay.jsx: the range that holds the clicked
 * position is split around it, the clicked position becomes a new one-bit range of the chosen
 * colour, which then absorbs same-class ranges that touch it, and every other same-class range
 * that does not hold the position is dropped from the result.
 *
 * The source compares range objects by identity (`indexOf`, `includes`).  Identity is kept here by
 * tagging each candidate for merging with the list it came from and its index in that list.
 */
module Paint {
  import opened Wrappers
  import opened BitRanges

  /** A palette entry: the name shown in the legend and the CSS class. */
  datatype Color = Color(name: string, cssClass: string)

  /** The five palette entries; none of their classes is a mask-derived class. */
  function Palette(): (colors: seq<Color>)
    ensures |colors| == 5
    ensures forall i :: 0 <= i < 5 ==> colors[i].cssClass != NETWORK_CLASS && colors[i].cssClass != HOST_CLASS
  {
    [ Color("Réseau", "bg-blue-300 hover:bg-blue-400"),
      Color("Sous-réseau", "bg-yellow-300 hover:bg-yellow-400"),
      Color("Hôte", "bg-green-300 hover:bg-green-400"),
      Color("Spécial", "bg-purple-300 hover:bg-purple-400"),
      Color("Aucune", "bg-white hover:bg-gray-100") ]
  }

  /** `unaffectedRanges`: the ranges that do not hold p, in their order. */
  function Unaffected(ranges: seq<BitRange>, p: int): (u: seq<BitRange>)
    ensures |u| <= |ranges|
    ensures forall r :: r in u <==> r in ranges && !Contains(r, p)
  {
    if ranges == [] then []
    else (if Contains(ranges[0], p) then [] else [ranges[0]]) + Unaffected(ranges[1..], p)
  }

  /** `affectedRange`: the first range that holds p, if any. */
  function FindContaining(ranges: seq<BitRange>, p: int): (a: Option<BitRange>)
    ensures a.None? <==> forall r :: r in ranges ==> !Contains(r, p)
    ensures a.Some? ==> exists i :: (0 <= i < |ranges| && ranges[i] == a.value && Contains(a.value, p) &&
      forall j :: 0 <= j < i ==> !Contains(ranges[j], p))
  {
    if ranges == [] then None
    else if Contains(ranges[0], p) then Some(ranges[0])
    else
      var a := FindContaining(ranges[1..], p);
      if a.Some? then
        var i :| 0 <= i < |ranges[1..]| && ranges[1..][i] == a.value && Contains(a.value, p) &&
          forall j :: 0 <= j < i ==> !Contains(ranges[1..][j], p);
        assert ranges[i + 1] == a.value;
        a
      else a
  }

  /**
   * The parts of the affected range left and right of p (`newRanges` before merging); each
   * keeps the affected range's class and label.
   */
  function Residuals(affected: Option<BitRange>, p: int): (res: seq<BitRange>)
    ensures |res| <= 2
    ensures |res| == 2 ==> res[0].start < res[1].start
    ensures forall r :: r in res ==> (affected.Some? && !Contains(r, p) &&
      r.cssClass == affected.value.cssClass && r.labelText == affected.value.labelText)
  {
    match affected
    case None => []
    case Some(a) =>
      (if a.start < p then [BitRange(a.start, p - 1, a.cssClass, a.labelText)] else []) +
      (if a.end > p then [BitRange(p + 1, a.end, a.cssClass, a.labelText)] else [])
  }

  /** A range considered for merging, tagged with its origin: a residual or an unaffected range, and its index there. */
  datatype Candidate = Candidate(range: BitRange, fromSplit: bool, index: nat)

  function Tagged(ranges: seq<BitRange>, fromSplit: bool): (cs: seq<Candidate>)
    ensures |cs| == |ranges|
    ensures forall i :: 0 <= i < |ranges| ==> cs[i] == Candidate(ranges[i], fromSplit, i)
    ensures forall c :: c in cs ==> c.fromSplit == fromSplit && c.index < |ranges| && c.range == ranges[c.index]
  {
    seq(|ranges|, i requires 0 <= i < |ranges| => Candidate(ranges[i], fromSplit, i))
  }

  /** The candidates of class `cls`, in their order. */
  function OfClass(cs: seq<Candidate>, cls: string): (r: seq<Candidate>)
    ensures forall c :: c in r <==> c in cs && c.range.cssClass == cls
  {
    if cs == [] then []
    else (if cs[0].range.cssClass == cls then [cs[0]] else []) + OfClass(cs[1..], cls)
  }

  predicate SortedByStart(cs: seq<Candidate>)
  {
    forall i, j :: 0 <= i < j < |cs| ==> cs[i].range.start <= cs[j].range.start
  }

  /** Inserts c before the first element that does not start before it. */
  function Insert(c: Candidate, sorted: seq<Candidate>): (r: seq<Candidate>)
    requires SortedByStart(sorted)
    ensures SortedByStart(r)
    ensures multiset(r) == multiset(sorted) + multiset{c}
    ensures forall x :: x in r <==> x in sorted || x == c
  {
    if sorted == [] || c.range.start <= sorted[0].range.start then
      SortedCons(c, sorted);
      [c] + sorted
    else
      var tail := sorted[1..];
      assert SortedByStart(tail);
      var rest := Insert(c, tail);
      assert sorted == [sorted[0]] + tail;
      assert forall y :: y in tail ==> sorted[0].range.start <= y.range.start;
      SortedCons(sorted[0], rest);
      [sorted[0]] + rest
  }

  /** A candidate that starts no later than any element of a sorted list can go in front of it. */
  lemma SortedCons(x: Candidate, sorted: seq<Candidate>)
    requires SortedByStart(sorted)
    requires forall y :: y in sorted ==> x.range.start <= y.range.start
    ensures SortedByStart([x] + sorted)
  {
    var r := [x] + sorted;
    forall i, j | 0 <= i < j < |r|
      ensures r[i].range.start <= r[j].range.start
    {
      assert r[j] == sorted[j - 1];
      if i > 0 {
        assert r[i] == sorted[i - 1];
      }
    }
  }

  /** `sort((a, b) => a.start - b.start)`, a stable sort by start position. */
  function SortByStart(cs: seq<Candidate>): (r: seq<Candidate>)
    ensures SortedByStart(r)
    ensures multiset(r) == multiset(cs)
  {
    if cs == [] then []
    else
      assert cs == [cs[0]] + cs[1..];
      Insert(cs[0], SortByStart(cs[1..]))
  }

  /** `sameColorRanges`: unaffected ranges then residuals, those of class `cls`, sorted by start. */
  function Candidates(unaffected: seq<BitRange>, residuals: seq<BitRange>, cls: string): (cs: seq<Candidate>)
    ensures SortedByStart(cs)
    ensures forall c :: c in cs <==> c in Tagged(unaffected, false) + Tagged(residuals, true) && c.range.cssClass == cls
  {
    var all := Tagged(unaffected, false) + Tagged(residuals, true);
    var cs := SortByStart(OfClass(all, cls));
    assert forall c :: c in cs <==> c in multiset(cs);
    cs
  }

  /** The new range while merging, and the candidates it has absorbed so far. */
  datatype Merge = Merge(range: BitRange, absorbed: seq<Candidate>)

  /** One iteration of the merging loop. */
  function MergeStep(m: Merge, c: Candidate): Merge
  {
    if c.range.end + 1 == m.range.start then Merge(m.range.(start := c.range.start), m.absorbed + [c])
    else if c.range.start - 1 == m.range.end then Merge(m.range.(end := c.range.end), m.absorbed + [c])
    else m
  }

  /** The merging loop run over all candidates in order. */
  function MergeAll(m: Merge, cs: seq<Candidate>): Merge
  {
    if cs == [] then m else MergeStep(MergeAll(m, cs[..|cs| - 1]), cs[|cs| - 1])
  }

  /** The residuals (from index k on) that no absorbed candidate stands for. */
  function Survivors(residuals: seq<BitRange>, absorbed: seq<Candidate>, k: nat): (r: seq<BitRange>)
    ensures forall x :: x in r ==> x in residuals
    ensures forall j :: k <= j < |residuals| && Candidate(residuals[j], true, j) !in absorbed ==> residuals[j] in r
    decreases |residuals| - k
  {
    if k >= |residuals| then []
    else (if Candidate(residuals[k], true, k) in absorbed then [] else [residuals[k]]) + Survivors(residuals, absorbed, k + 1)
  }

  /** The ranges of a class other than `cls`, in their order. */
  function OtherClass(ranges: seq<BitRange>, cls: string): (r: seq<BitRange>)
    ensures forall x :: x in r <==> x in ranges && x.cssClass != cls
  {
    if ranges == [] then []
    else (if ranges[0].cssClass != cls then [ranges[0]] else []) + OtherClass(ranges[1..], cls)
  }

  /** The merge state the loop of `handleColorChange` ends in. */
  function FinalMerge(current: seq<BitRange>, p: int, color: Color): Merge
  {
    var unaffected := Unaffected(current, p);
    var residuals := Residuals(FindContaining(current, p), p);
    MergeAll(Merge(BitRange(p, p, color.cssClass, color.name), []), Candidates(unaffected, residuals, color.cssClass))
  }

  /**
   * What `handleColorChange` stores: the unaffected ranges of another class, then the residuals
   * that were not absorbed, then the new range.
   */
  function Painted(current: seq<BitRange>, p: int, color: Color): seq<BitRange>
  {
    var m := FinalMerge(current, p, color);
    OtherClass(Unaffected(current, p), color.cssClass) +
    Survivors(Residuals(FindContaining(current, p), p), m.absorbed, 0) +
    [m.range]
  }

  /** `indexOf` on values: the first index of x in s, or -1. */
  function IndexOf(s: seq<BitRange>, x: BitRange): (i: int)
    ensures -1 <= i < |s|
    ensures i >= 0 ==> s[i] == x && x !in s[..i]
    ensures i == -1 ==> x !in s
  {
    if s == [] then -1
    else if s[0] == x then 0
    else
      var i := IndexOf(s[1..], x);
      if i == -1 then -1 else i + 1
  }

  /**
   * Removing residual k from the survivors by value, as `indexOf` and `splice` do, is the same as
   * marking its candidate absorbed: the residuals differ in their start, so value and identity agree.
   */
  lemma SpliceSurvivor(residuals: seq<BitRange>, absorbed: seq<Candidate>, k: nat)
    requires |residuals| <= 2
    requires |residuals| == 2 ==> residuals[0].start < residuals[1].start
    requires k < |residuals|
    ensures
      var s := Survivors(residuals, absorbed, 0);
      var i := IndexOf(s, residuals[k]);
      Survivors(residuals, absorbed + [Candidate(residuals[k], true, k)], 0) ==
        if i >= 0 then s[..i] + s[i + 1..] else s
  {
    var c := Candidate(residuals[k], true, k);
    var a := absorbed + [c];
    if |residuals| == 2 {
      var c0, c1 := Candidate(residuals[0], true, 0), Candidate(residuals[1], true, 1);
      assert residuals[0] != residuals[1];
      assert Survivors(residuals, absorbed, 2) == [] && Survivors(residuals, a, 2) == [];
      assert Survivors(residuals, absorbed, 0) ==
        (if c0 in absorbed then [] else [residuals[0]]) + (if c1 in absorbed then [] else [residuals[1]]);
      assert Survivors(residuals, a, 0) ==
        (if c0 in a then [] else [residuals[0]]) + (if c1 in a then [] else [residuals[1]]);
      assert c0 in a <==> c0 in absorbed || k == 0;
      assert c1 in a <==> c1 in absorbed || k == 1;
    } else {
      assert Survivors(residuals, absorbed, 1) == [] && Survivors(residuals, a, 1) == [];
      assert c in a;
    }
  }

  /** One absorption keeps `newRanges` equal to the survivors of the absorbed candidates. */
  lemma AbsorbStep(residuals: seq<BitRange>, absorbed: seq<Candidate>, c: Candidate, newRanges: seq<BitRange>)
    requires |residuals| <= 2
    requires |residuals| == 2 ==> residuals[0].start < residuals[1].start
    requires c.fromSplit ==> c.index < |residuals| && c.range == residuals[c.index]
    requires newRanges == Survivors(residuals, absorbed, 0)
    ensures
      var i := if c.fromSplit then IndexOf(newRanges, c.range) else -1;
      Survivors(residuals, absorbed + [c], 0) == if i > -1 then newRanges[..i] + newRanges[i + 1..] else newRanges
  {
    if c.fromSplit {
      SpliceSurvivor(residuals, absorbed, c.index);
    } else {
      SurvivorsIgnoresUnaffected(residuals, absorbed, c, 0);
    }
  }

  /** Every residual candidate is the residual at its index. */
  lemma CandidateOrigin(unaffected: seq<BitRange>, residuals: seq<BitRange>, cls: string, c: Candidate)
    requires c in Candidates(unaffected, residuals, cls)
    ensures c.fromSplit ==> c.index < |residuals| && c.range == residuals[c.index]
    ensures !c.fromSplit ==> c.index < |unaffected| && c.range == unaffected[c.index]
    ensures if c.fromSplit then c.range in residuals else c.range in unaffected
    ensures c.range.cssClass == cls
  {
    assert c in Tagged(unaffected, false) || c in Tagged(residuals, true);
  }

  /** The merging loop over one more candidate. */
  lemma MergeAllStep(m: Merge, cs: seq<Candidate>, i: nat)
    requires i < |cs|
    ensures MergeAll(m, cs[..i + 1]) == MergeStep(MergeAll(m, cs[..i]), cs[i])
  {
    assert cs[..i + 1][..i] == cs[..i];
  }

  /**
   * `handleColorChange` up to the returned list: split the range holding `bitPosition`, merge the
   * new one-bit range with the same-class ranges that touch it, and keep the unaffected ranges,
   * the residuals still in `newRanges` and the candidates that were merged.
   */
  method SplitAndMerge(currentRanges: seq<BitRange>, bitPosition: int, color: Color)
    returns (unaffectedRanges: seq<BitRange>, newBitRange: BitRange, newRanges: seq<BitRange>, absorbed: seq<Candidate>)
    ensures unaffectedRanges == Unaffected(currentRanges, bitPosition)
    ensures newBitRange == FinalMerge(currentRanges, bitPosition, color).range
    ensures absorbed == FinalMerge(currentRanges, bitPosition, color).absorbed
    ensures newRanges == Survivors(Residuals(FindContaining(currentRanges, bitPosition), bitPosition), absorbed, 0)
  {
    unaffectedRanges := Unaffected(currentRanges, bitPosition);
    var affectedRange := FindContaining(currentRanges, bitPosition);
    var residuals := Residuals(affectedRange, bitPosition);
    var sameColorRanges := Candidates(unaffectedRanges, residuals, color.cssClass);
    forall c | c in sameColorRanges && c.fromSplit
      ensures c.index < |residuals| && c.range == residuals[c.index]
    {
      CandidateOrigin(unaffectedRanges, residuals, color.cssClass, c);
    }
    newBitRange, newRanges, absorbed := MergeSameColor(BitRange(bitPosition, bitPosition, color.cssClass, color.name), residuals, sameColorRanges);
  }

  /**
   * `handleColorChange` as written: the unaffected ranges of another class, then the residuals
   * left in `newRanges`, then the merged range.
   */
  method HandleColorChange(currentRanges: seq<BitRange>, bitPosition: int, color: Color) returns (result: seq<BitRange>)
    ensures result == Painted(currentRanges, bitPosition, color)
  {
    var unaffectedRanges, newBitRange, newRanges, absorbed := SplitAndMerge(currentRanges, bitPosition, color);
    result := OtherClass(unaffectedRanges, color.cssClass) + newRanges + [newBitRange];
    PaintedAssembled(currentRanges, bitPosition, color, FinalMerge(currentRanges, bitPosition, color),
      OtherClass(unaffectedRanges, color.cssClass) + newRanges);
  }

  /**
   * `handleColorChange` as evidently intended: the final filter drops only the unaffected ranges
   * that were merged into the new range.
   */
  method HandleColorChangeFixed(currentRanges: seq<BitRange>, bitPosition: int, color: Color) returns (result: seq<BitRange>)
    ensures result == PaintedFixed(currentRanges, bitPosition, color)
  {
    var unaffectedRanges, newBitRange, newRanges, absorbed := SplitAndMerge(currentRanges, bitPosition, color);
    result := Kept(unaffectedRanges, color.cssClass, absorbed, 0) + newRanges + [newBitRange];
    PaintedFixedAssembled(currentRanges, bitPosition, color, FinalMerge(currentRanges, bitPosition, color),
      Kept(unaffectedRanges, color.cssClass, absorbed, 0) + newRanges);
  }

  /**
   * The merging loop of `handleColorChange`: walk the start-sorted same-class ranges, widen the
   * new range over one that ends just before it or else one that starts just after it, and splice
   * that one out of `newRanges` when it is found there.
   */
  method MergeSameColor(newBitRange: BitRange, newRanges: seq<BitRange>, sameColorRanges: seq<Candidate>)
    returns (merged: BitRange, remaining: seq<BitRange>, absorbed: seq<Candidate>)
    requires |newRanges| <= 2
    requires |newRanges| == 2 ==> newRanges[0].start < newRanges[1].start
    requires forall c :: c in sameColorRanges && c.fromSplit ==> c.index < |newRanges| && c.range == newRanges[c.index]
    ensures merged == MergeAll(Merge(newBitRange, []), sameColorRanges).range
    ensures absorbed == MergeAll(Merge(newBitRange, []), sameColorRanges).absorbed
    ensures remaining == Survivors(newRanges, absorbed, 0)
  {
    merged, remaining, absorbed := newBitRange, newRanges, [];
    SurvivorsOfNone(newRanges, 0);
    for i := 0 to |sameColorRanges|
      invariant MergeAll(Merge(newBitRange, []), sameColorRanges[..i]) == Merge(merged, absorbed)
      invariant remaining == Survivors(newRanges, absorbed, 0)
    {
      var range := sameColorRanges[i];
      assert range in sameColorRanges;
      MergeAllStep(Merge(newBitRange, []), sameColorRanges, i);
      if range.range.end + 1 == merged.start {
        merged := merged.(start := range.range.start);
        remaining := SpliceOut(newRanges, absorbed, range, remaining);
        absorbed := absorbed + [range];
      } else if range.range.start - 1 == merged.end {
        merged := merged.(end := range.range.end);
        remaining := SpliceOut(newRanges, absorbed, range, remaining);
        absorbed := absorbed + [range];
      }
    }
    assert sameColorRanges[..|sameColorRanges|] == sameColorRanges;
  }

  /**
   * `const index = newRanges.indexOf(range); if (index > -1) newRanges.splice(index, 1)`: an
   * unaffected range is a different object from every element of `newRanges`, so `indexOf`
   * finds only residuals.  Removing the absorbed range keeps `newRanges` equal to the survivors.
   */
  method SpliceOut(residuals: seq<BitRange>, ghost absorbed: seq<Candidate>, range: Candidate, newRanges: seq<BitRange>)
    returns (r: seq<BitRange>)
    requires |residuals| <= 2
    requires |residuals| == 2 ==> residuals[0].start < residuals[1].start
    requires range.fromSplit ==> range.index < |residuals| && range.range == residuals[range.index]
    requires newRanges == Survivors(residuals, absorbed, 0)
    ensures r == Survivors(residuals, absorbed + [range], 0)
  {
    var index := if range.fromSplit then IndexOf(newRanges, range.range) else -1;
    AbsorbStep(residuals, absorbed, range, newRanges);
    if index > -1 {
      r := newRanges[..index] + newRanges[index + 1..];
    } else {
      r := newRanges;
    }
  }

  /** Before anything is absorbed, every residual survives. */
  lemma {:induction false} SurvivorsOfNone(residuals: seq<BitRange>, k: nat)
    requires k <= |residuals|
    ensures Survivors(residuals, [], k) == residuals[k..]
    decreases |residuals| - k
  {
    if k < |residuals| {
      SurvivorsOfNone(residuals, k + 1);
    }
  }

  /** Absorbing an unaffected range leaves the survivors among the residuals as they were. */
  lemma {:induction false} SurvivorsIgnoresUnaffected(residuals: seq<BitRange>, absorbed: seq<Candidate>, c: Candidate, k: nat)
    requires !c.fromSplit
    ensures Survivors(residuals, absorbed + [c], k) == Survivors(residuals, absorbed, k)
    decreases |residuals| - k
  {
    if k < |residuals| {
      SurvivorsIgnoresUnaffected(residuals, absorbed, c, k + 1);
    }
  }

  /** `a` lies within the bounds of `b`. */
  predicate Within(a: BitRange, b: BitRange)
  {
    b.start <= a.start && a.end <= b.end
  }

  /**
   * Merging only widens the new range, keeps it around p, inside 1..32, and of its class and
   * label, and every absorbed candidate lies within it; absorbed candidates come from the list.
   */
  lemma {:induction false} MergeAllFacts(m0: Merge, cs: seq<Candidate>, p: int)
    requires forall c :: c in cs ==> WellFormed(c.range)
    requires 1 <= m0.range.start <= p <= m0.range.end <= 32
    requires forall c :: c in m0.absorbed ==> Within(c.range, m0.range)
    ensures var m := MergeAll(m0, cs);
      1 <= m.range.start <= p <= m.range.end <= 32 &&
      m.range.start <= m0.range.start && m0.range.end <= m.range.end &&
      m.range.cssClass == m0.range.cssClass && m.range.labelText == m0.range.labelText &&
      (forall c :: c in m.absorbed ==> Within(c.range, m.range)) &&
      (forall c :: c in m.absorbed ==> c in m0.absorbed || c in cs)
  {
    if cs != [] {
      var n := |cs|;
      assert forall c :: c in cs[..n - 1] ==> c in cs;
      MergeAllFacts(m0, cs[..n - 1], p);
    }
  }

  /** Absorbed candidates always come from the candidate list. */
  lemma {:induction false} AbsorbedAreCandidates(m0: Merge, cs: seq<Candidate>)
    ensures forall c :: c in MergeAll(m0, cs).absorbed ==> c in m0.absorbed || c in cs
  {
    if cs != [] {
      var n := |cs|;
      assert forall c :: c in cs[..n - 1] ==> c in cs;
      AbsorbedAreCandidates(m0, cs[..n - 1]);
    }
  }

  /**
   * The merged range is exactly what the ranges it absorbed cover together with the one it
   * started from: each candidate is absorbed only when it touches the growing range (its end
   * just before the start, or its start just after the end), so no position is skipped.
   */
  lemma {:induction false} MergeAllCovers(m0: Merge, cs: seq<Candidate>, p: int)
    requires forall c :: c in cs ==> WellFormed(c.range)
    requires 1 <= m0.range.start <= p <= m0.range.end <= 32
    requires forall c :: c in m0.absorbed ==> Within(c.range, m0.range)
    ensures var m := MergeAll(m0, cs);
      forall q :: Contains(m.range, q) <==> Contains(m0.range, q) || exists c :: c in m.absorbed && Contains(c.range, q)
  {
    if cs != [] {
      var n := |cs|;
      assert forall c :: c in cs[..n - 1] ==> c in cs;
      MergeAllCovers(m0, cs[..n - 1], p);
      MergeAllFacts(m0, cs[..n - 1], p);
      var prev := MergeAll(m0, cs[..n - 1]);
      var c := cs[n - 1];
      var m := MergeAll(m0, cs);
      if c.range.end + 1 == prev.range.start || c.range.start - 1 == prev.range.end {
        assert m.absorbed == prev.absorbed + [c];
        forall q
          ensures (exists a :: a in m.absorbed && Contains(a.range, q)) <==>
            (exists a :: a in prev.absorbed && Contains(a.range, q)) || Contains(c.range, q)
        {
          if Contains(c.range, q) {
            assert c in m.absorbed;
          }
          forall a | a in prev.absorbed
            ensures a in m.absorbed
          {
          }
        }
      }
    }
  }

  /** Merging over two lists in turn is merging over their concatenation. */
  lemma {:induction false} MergeAllAppend(m0: Merge, a: seq<Candidate>, b: seq<Candidate>)
    ensures MergeAll(m0, a + b) == MergeAll(MergeAll(m0, a), b)
  {
    if b == [] {
      assert a + b == a;
    } else {
      var n := |b|;
      var ab := a + b;
      assert ab[..|ab| - 1] == a + b[..n - 1] && ab[|ab| - 1] == b[n - 1];
      MergeAllAppend(m0, a, b[..n - 1]);
    }
  }

  /** The merged range starts where it began or where some candidate starts. */
  lemma {:induction false} StartFrom(m0: Merge, cs: seq<Candidate>)
    ensures var m := MergeAll(m0, cs);
      m.range.start == m0.range.start || exists k :: 0 <= k < |cs| && cs[k].range.start == m.range.start
  {
    if cs != [] {
      var n := |cs|;
      StartFrom(m0, cs[..n - 1]);
      var prev := MergeAll(m0, cs[..n - 1]);
      if prev.range.start != m0.range.start && cs[n - 1].range.end + 1 != prev.range.start {
        var k :| 0 <= k < n - 1 && cs[..n - 1][k].range.start == prev.range.start;
        assert cs[k].range.start == MergeAll(m0, cs).range.start;
      }
    }
  }

  /** With no candidate starting just after the end, the end of the range never moves. */
  lemma {:induction false} EndStays(m0: Merge, cs: seq<Candidate>)
    requires forall k :: 0 <= k < |cs| ==> cs[k].range.start != m0.range.end + 1
    ensures MergeAll(m0, cs).range.end == m0.range.end
  {
    if cs != [] {
      var n := |cs|;
      EndStays(m0, cs[..n - 1]);
    }
  }

  /** At the step on a candidate that ends just before p, the range comes to start no later than it. */
  lemma LeftStepStart(m0: Merge, cs: seq<Candidate>, p: int, i: int)
    requires forall c :: c in cs ==> WellFormed(c.range)
    requires m0.range.start == p && 1 <= p <= m0.range.end <= 32
    requires forall c :: c in m0.absorbed ==> Within(c.range, m0.range)
    requires SortedByStart(cs)
    requires 0 <= i < |cs| && cs[i].range.end + 1 == p
    ensures MergeAll(m0, cs[..i + 1]).range.start <= cs[i].range.start
  {
    var before := cs[..i];
    assert forall c :: c in before ==> c in cs;
    StartFrom(m0, before);
    MergeAllFacts(m0, before, p);
    var mi := MergeAll(m0, before);
    if mi.range.start != p {
      var k :| 0 <= k < i && before[k].range.start == mi.range.start;
      assert cs[k].range.start <= cs[i].range.start;
    }
    MergeAllStep(m0, cs, i);
  }

  /**
   * A candidate that ends just before p is absorbed, or the range already reaches over it: the
   * candidates come sorted by start, so any earlier left-hand absorption starts no later.
   */
  lemma MergeAbsorbsLeft(m0: Merge, cs: seq<Candidate>, p: int, i: int)
    requires forall c :: c in cs ==> WellFormed(c.range)
    requires m0.range.start == p && 1 <= p <= m0.range.end <= 32
    requires forall c :: c in m0.absorbed ==> Within(c.range, m0.range)
    requires SortedByStart(cs)
    requires 0 <= i < |cs| && cs[i].range.end + 1 == p
    ensures MergeAll(m0, cs).range.start <= cs[i].range.start
  {
    LeftStepStart(m0, cs, p, i);
    MergeAllFrom(m0, cs, p, i);
  }

  /**
   * Merging the candidates after index i only widens what the merge up to i built: its start
   * can only move down and its end only up.
   */
  lemma MergeAllFrom(m0: Merge, cs: seq<Candidate>, p: int, i: int)
    requires forall c :: c in cs ==> WellFormed(c.range)
    requires 1 <= m0.range.start <= p <= m0.range.end <= 32
    requires forall c :: c in m0.absorbed ==> Within(c.range, m0.range)
    requires 0 <= i < |cs|
    ensures MergeAll(m0, cs).range.start <= MergeAll(m0, cs[..i + 1]).range.start
    ensures MergeAll(m0, cs[..i + 1]).range.end <= MergeAll(m0, cs).range.end
  {
    var upTo := cs[..i + 1];
    assert forall c :: c in upTo ==> c in cs;
    MergeAllFacts(m0, upTo, p);
    var rest := cs[i + 1..];
    assert forall c :: c in rest ==> c in cs;
    assert cs == upTo + rest;
    MergeAllAppend(m0, upTo, rest);
    MergeAllFacts(MergeAll(m0, upTo), rest, p);
  }

  /**
   * The first candidate in sort order that starts just after p is absorbed: until then the end
   * of the range stays at p, so it touches; the merged range then reaches its end.
   */
  lemma MergeAbsorbsRight(m0: Merge, cs: seq<Candidate>, p: int, i: int)
    requires forall c :: c in cs ==> WellFormed(c.range)
    requires m0.range.end == p && 1 <= m0.range.start <= p <= 32
    requires forall c :: c in m0.absorbed ==> Within(c.range, m0.range)
    requires 0 <= i < |cs| && cs[i].range.start == p + 1
    requires forall k :: 0 <= k < i ==> cs[k].range.start != p + 1
    ensures cs[i].range.end <= MergeAll(m0, cs).range.end
  {
    var before := cs[..i];
    assert forall c :: c in before ==> c in cs;
    EndStays(m0, before);
    MergeAllFacts(m0, before, p);
    MergeAllStep(m0, cs, i);
    MergeAllFrom(m0, cs, p, i);
  }

  /** The index of the first candidate that starts at s, or the length when none does. */
  function FirstStarting(cs: seq<Candidate>, s: int): (i: nat)
    ensures i <= |cs|
    ensures i < |cs| ==> cs[i].range.start == s
    ensures forall k :: 0 <= k < i ==> cs[k].range.start != s
  {
    if cs == [] then 0
    else if cs[0].range.start == s then 0
    else 1 + FirstStarting(cs[1..], s)
  }

  /** The residuals of a range around p lie within it. */
  lemma ResidualsWithin(affected: Option<BitRange>, p: int)
    requires affected.Some? ==> Contains(affected.value, p)
    ensures forall r :: r in Residuals(affected, p) ==> Within(r, affected.value)
  {
  }

  /** The residuals of a well-formed range around p are well-formed. */
  lemma ResidualsWellFormed(affected: Option<BitRange>, p: int)
    requires affected.Some? ==> WellFormed(affected.value) && Contains(affected.value, p)
    ensures AllWellFormed(Residuals(affected, p))
  {
  }

  /** The candidates of well-formed ranges are well-formed. */
  lemma CandidatesWellFormed(unaffected: seq<BitRange>, residuals: seq<BitRange>, cls: string)
    requires AllWellFormed(unaffected) && AllWellFormed(residuals)
    ensures forall c :: c in Candidates(unaffected, residuals, cls) ==> WellFormed(c.range)
  {
    forall c | c in Candidates(unaffected, residuals, cls)
      ensures WellFormed(c.range)
    {
      CandidateOrigin(unaffected, residuals, cls, c);
    }
  }

  /** The residuals of the range that holds p, with the facts the lemmas below rely on. */
  lemma HitResiduals(current: seq<BitRange>, p: int)
    requires AllWellFormed(current)
    ensures AllWellFormed(Unaffected(current, p))
    ensures AllWellFormed(Residuals(FindContaining(current, p), p))
  {
    var u := Unaffected(current, p);
    forall i | 0 <= i < |u|
      ensures WellFormed(u[i])
    {
      assert u[i] in current;
    }
    var a := FindContaining(current, p);
    ResidualsWellFormed(a, p);
  }

  /** The merged new range holds p, lies within 1..32 and has the colour's class and name. */
  lemma FinalRange(current: seq<BitRange>, p: int, color: Color)
    requires AllWellFormed(current)
    requires 1 <= p <= 32
    ensures var m := FinalMerge(current, p, color).range;
      1 <= m.start <= p <= m.end <= 32 && m.cssClass == color.cssClass && m.labelText == color.name
  {
    var u := Unaffected(current, p);
    var res := Residuals(FindContaining(current, p), p);
    HitResiduals(current, p);
    CandidatesWellFormed(u, res, color.cssClass);
    MergeAllFacts(Merge(BitRange(p, p, color.cssClass, color.name), []), Candidates(u, res, color.cssClass), p);
  }

  /**
   * After painting p, the last range is the new one: it holds p and carries the colour's class
   * and name; every range stays well-formed.
   */
  lemma PaintedNewRange(current: seq<BitRange>, p: int, color: Color)
    requires AllWellFormed(current)
    requires 1 <= p <= 32
    ensures var r := Painted(current, p, color);
      |r| >= 1 && Contains(r[|r| - 1], p) &&
      r[|r| - 1].cssClass == color.cssClass && r[|r| - 1].labelText == color.name &&
      AllWellFormed(r)
  {
    FinalRange(current, p, color);
    PaintedLast(current, p, color);
    PaintedWellFormed(current, p, color);
  }

  /** The last range painted is the merged new range. */
  lemma PaintedLast(current: seq<BitRange>, p: int, color: Color)
    ensures var r := Painted(current, p, color);
      |r| >= 1 && r[|r| - 1] == FinalMerge(current, p, color).range
  {
    var m := FinalMerge(current, p, color);
    var front := OtherClass(Unaffected(current, p), color.cssClass) + Survivors(Residuals(FindContaining(current, p), p), m.absorbed, 0);
    PaintedAssembled(current, p, color, m, front);
  }

  /** Painting keeps every range well-formed. */
  lemma PaintedWellFormed(current: seq<BitRange>, p: int, color: Color)
    requires AllWellFormed(current)
    requires 1 <= p <= 32
    ensures AllWellFormed(Painted(current, p, color))
  {
    var u := Unaffected(current, p);
    var res := Residuals(FindContaining(current, p), p);
    HitResiduals(current, p);
    FinalRange(current, p, color);
    var m := FinalMerge(current, p, color);
    var front := OtherClass(u, color.cssClass) + Survivors(res, m.absorbed, 0);
    assert forall x :: x in front ==> x in u || x in res;
    PaintedAssembled(current, p, color, m, front);
    WellFormedAppend(front, m.range);
  }

  /** The corrected painting keeps every range well-formed too. */
  lemma PaintedFixedWellFormed(current: seq<BitRange>, p: int, color: Color)
    requires AllWellFormed(current)
    requires 1 <= p <= 32
    ensures AllWellFormed(PaintedFixed(current, p, color))
  {
    var u := Unaffected(current, p);
    var res := Residuals(FindContaining(current, p), p);
    HitResiduals(current, p);
    FinalRange(current, p, color);
    var m := FinalMerge(current, p, color);
    var front := Kept(u, color.cssClass, m.absorbed, 0) + Survivors(res, m.absorbed, 0);
    assert forall x :: x in front ==> x in u || x in res;
    PaintedFixedAssembled(current, p, color, m, front);
    WellFormedAppend(front, m.range);
  }

  /** Appending a well-formed range to well-formed ones keeps them well-formed; it is the last. */
  lemma WellFormedAppend(front: seq<BitRange>, x: BitRange)
    requires forall y :: y in front ==> WellFormed(y)
    requires WellFormed(x)
    ensures AllWellFormed(front + [x]) && (front + [x])[|front|] == x
  {
    forall i | 0 <= i < |front| + 1
      ensures WellFormed((front + [x])[i])
    {
      if i < |front| {
        assert (front + [x])[i] == front[i];
      }
    }
  }

  /**
   * What painting keeps and drops: every range of another class that does not hold p is kept;
   * every residual of another class is kept; and apart from the new last range, the result holds
   * only such ranges and residuals, so a same-class range that does not hold p never survives,
   * adjacent to p or not.
   */
  lemma PaintedContents(current: seq<BitRange>, p: int, color: Color)
    ensures var r := Painted(current, p, color);
      var res := Residuals(FindContaining(current, p), p);
      (forall x :: x in current && !Contains(x, p) && x.cssClass != color.cssClass ==> x in r) &&
      (forall x :: x in res && x.cssClass != color.cssClass ==> x in r) &&
      (forall i :: 0 <= i < |r| - 1 ==>
        (r[i] in current && !Contains(r[i], p) && r[i].cssClass != color.cssClass) || r[i] in res)
  {
    var u := Unaffected(current, p);
    var res := Residuals(FindContaining(current, p), p);
    var cs := Candidates(u, res, color.cssClass);
    var m0 := Merge(BitRange(p, p, color.cssClass, color.name), []);
    var m := FinalMerge(current, p, color);
    AbsorbedAreCandidates(m0, cs);
    var r := Painted(current, p, color);
    var others := OtherClass(u, color.cssClass);
    var survivors := Survivors(res, m.absorbed, 0);
    PaintedAssembled(current, p, color, m, others + survivors);
    forall x | x in res && x.cssClass != color.cssClass
      ensures x in r
    {
      var j :| 0 <= j < |res| && res[j] == x;
      assert Candidate(x, true, j) !in cs;
    }
    forall i | 0 <= i < |r| - 1
      ensures (r[i] in current && !Contains(r[i], p) && r[i].cssClass != color.cssClass) || r[i] in res
    {
      if i < |others| {
        assert r[i] in others;
      } else {
        assert r[i] in survivors;
      }
    }
  }

  /** The unaffected ranges (from index k on) that are of another class or were not absorbed. */
  function Kept(unaffected: seq<BitRange>, cls: string, absorbed: seq<Candidate>, k: nat): (r: seq<BitRange>)
    ensures forall x :: x in r ==> x in unaffected
    ensures forall j :: (k <= j < |unaffected| &&
      (unaffected[j].cssClass != cls || Candidate(unaffected[j], false, j) !in absorbed)) ==> unaffected[j] in r
    decreases |unaffected| - k
  {
    if k >= |unaffected| then []
    else
      (if unaffected[k].cssClass != cls || Candidate(unaffected[k], false, k) !in absorbed then [unaffected[k]] else []) +
      Kept(unaffected, cls, absorbed, k + 1)
  }

  /**
   * `handleColorChange` as evidently intended: the final filter drops only the same-class
   * ranges that were merged into the new range, not every same-class range.
   */
  function PaintedFixed(current: seq<BitRange>, p: int, color: Color): seq<BitRange>
  {
    var m := FinalMerge(current, p, color);
    Kept(Unaffected(current, p), color.cssClass, m.absorbed, 0) +
    Survivors(Residuals(FindContaining(current, p), p), m.absorbed, 0) +
    [m.range]
  }

  /** At most one range holds p, as in any colouring whose ranges do not overlap. */
  predicate SingleHolder(current: seq<BitRange>, p: int)
  {
    forall i, j :: 0 <= i < |current| && 0 <= j < |current| && Contains(current[i], p) && Contains(current[j], p) ==> i == j
  }

  /** The range that holds p is the affected one when it is the only one. */
  lemma FindsSingleHolder(current: seq<BitRange>, p: int, x: BitRange)
    requires SingleHolder(current, p)
    requires x in current && Contains(x, p)
    ensures FindContaining(current, p) == Some(x)
  {
    var k :| 0 <= k < |current| && current[k] == x;
    var a := FindContaining(current, p);
    var i :| 0 <= i < |current| && current[i] == a.value && Contains(a.value, p) &&
      forall j :: 0 <= j < i ==> !Contains(current[j], p);
  }

  /**
   * A residual of the painted range that covers q keeps its colour at q: it survives, or it was
   * absorbed by a new range of its own class that now spans it.
   */
  lemma ResidualCoverage(current: seq<BitRange>, p: int, color: Color, q: int, x: BitRange)
    requires AllWellFormed(current)
    requires 1 <= p <= 32
    requires SingleHolder(current, p)
    requires x in current && Contains(x, p) && Contains(x, q) && q != p
    ensures var m := FinalMerge(current, p, color);
      var survivors := Survivors(Residuals(FindContaining(current, p), p), m.absorbed, 0);
      (exists y :: y in survivors && Contains(y, q) && y.cssClass == x.cssClass) ||
      (Contains(m.range, q) && m.range.cssClass == x.cssClass)
  {
    var u := Unaffected(current, p);
    FindsSingleHolder(current, p, x);
    var res := Residuals(FindContaining(current, p), p);
    HitResiduals(current, p);
    var cs := Candidates(u, res, color.cssClass);
    CandidatesWellFormed(u, res, color.cssClass);
    var m0 := Merge(BitRange(p, p, color.cssClass, color.name), []);
    MergeAllFacts(m0, cs, p);
    var m := FinalMerge(current, p, color);
    var j := if q < p then 0 else |res| - 1;
    var y := res[j];
    assert Contains(y, q) && y.cssClass == x.cssClass;
    var c := Candidate(y, true, j);
    if c in m.absorbed {
      assert Within(y, m.range);
      assert c in cs;
    }
  }

  /**
   * The corrected operation changes the colour of p only: with well-formed ranges and a single
   * range holding p, every other position covered by a range of some class is still covered by a
   * range of that class, and p is covered by the new range of the chosen class.
   */
  lemma PaintedFixedKeepsColours(current: seq<BitRange>, p: int, color: Color, q: int, x: BitRange)
    requires AllWellFormed(current)
    requires 1 <= p <= 32
    requires SingleHolder(current, p)
    requires x in current && Contains(x, q) && q != p
    ensures exists y :: y in PaintedFixed(current, p, color) && Contains(y, q) && y.cssClass == x.cssClass
  {
    var u := Unaffected(current, p);
    var res := Residuals(FindContaining(current, p), p);
    HitResiduals(current, p);
    var cs := Candidates(u, res, color.cssClass);
    CandidatesWellFormed(u, res, color.cssClass);
    var m0 := Merge(BitRange(p, p, color.cssClass, color.name), []);
    MergeAllFacts(m0, cs, p);
    var m := FinalMerge(current, p, color);
    var kept := Kept(u, color.cssClass, m.absorbed, 0);
    var survivors := Survivors(res, m.absorbed, 0);
    var r := PaintedFixed(current, p, color);
    assert r == kept + survivors + [m.range];
    if Contains(x, p) {
      ResidualCoverage(current, p, color, q, x);
      if Contains(m.range, q) && m.range.cssClass == x.cssClass {
        assert m.range in r;
      } else {
        var y :| y in survivors && Contains(y, q) && y.cssClass == x.cssClass;
        assert y in r;
      }
    } else {
      assert x in u;
      var i :| 0 <= i < |u| && u[i] == x;
      var c := Candidate(x, false, i);
      if x.cssClass == color.cssClass && c in m.absorbed {
        assert Within(x, m.range);
        assert m.range in r;
      } else {
        assert x in kept;
        assert x in r;
      }
    }
  }

  /**
   * Every position other than p that the merged range covers was already covered by a range of
   * the chosen class: an unaffected one, or the painted range itself through its residual.
   */
  lemma MergedRangeOrigin(current: seq<BitRange>, p: int, color: Color, q: int)
    requires AllWellFormed(current)
    requires 1 <= p <= 32
    requires Contains(FinalMerge(current, p, color).range, q) && q != p
    ensures exists x :: x in current && Contains(x, q) && x.cssClass == color.cssClass
  {
    var u := Unaffected(current, p);
    var a := FindContaining(current, p);
    var res := Residuals(a, p);
    HitResiduals(current, p);
    var cs := Candidates(u, res, color.cssClass);
    CandidatesWellFormed(u, res, color.cssClass);
    var m0 := Merge(BitRange(p, p, color.cssClass, color.name), []);
    MergeAllFacts(m0, cs, p);
    MergeAllCovers(m0, cs, p);
    var m := FinalMerge(current, p, color);
    var c :| c in m.absorbed && Contains(c.range, q);
    CandidateOrigin(u, res, color.cssClass, c);
    if c.fromSplit {
      ResidualsWithin(a, p);
      assert c.range in res;
      assert a.value in current;
    } else {
      assert c.range in u;
    }
  }

  /**
   * Painting gives no position other than p a colour it did not have: a range of the result that
   * covers q != p stands for a range of the same class that covered q before.
   */
  lemma PaintedGainsNoColour(current: seq<BitRange>, p: int, color: Color, q: int, y: BitRange)
    requires AllWellFormed(current)
    requires 1 <= p <= 32
    requires y in Painted(current, p, color) && Contains(y, q) && q != p
    ensures exists x :: x in current && Contains(x, q) && x.cssClass == y.cssClass
  {
    var a := FindContaining(current, p);
    var res := Residuals(a, p);
    var m := FinalMerge(current, p, color);
    var front := OtherClass(Unaffected(current, p), color.cssClass) + Survivors(res, m.absorbed, 0);
    PaintedAssembled(current, p, color, m, front);
    FinalRange(current, p, color);
    if y == m.range {
      MergedRangeOrigin(current, p, color, q);
    } else if y in res {
      ResidualsWithin(a, p);
      assert a.value in current;
    }
  }

  /** The corrected painting gives no position other than p a colour it did not have either. */
  lemma PaintedFixedGainsNoColour(current: seq<BitRange>, p: int, color: Color, q: int, y: BitRange)
    requires AllWellFormed(current)
    requires 1 <= p <= 32
    requires y in PaintedFixed(current, p, color) && Contains(y, q) && q != p
    ensures exists x :: x in current && Contains(x, q) && x.cssClass == y.cssClass
  {
    var a := FindContaining(current, p);
    var res := Residuals(a, p);
    var m := FinalMerge(current, p, color);
    var front := Kept(Unaffected(current, p), color.cssClass, m.absorbed, 0) + Survivors(res, m.absorbed, 0);
    PaintedFixedAssembled(current, p, color, m, front);
    FinalRange(current, p, color);
    if y == m.range {
      MergedRangeOrigin(current, p, color, q);
    } else if y in res {
      ResidualsWithin(a, p);
      assert a.value in current;
    }
  }

  /** The corrected operation covers p with the new range, exactly as the code does. */
  lemma PaintedFixedNewRange(current: seq<BitRange>, p: int, color: Color)
    requires AllWellFormed(current)
    requires 1 <= p <= 32
    ensures var r := PaintedFixed(current, p, color);
      |r| >= 1 && Contains(r[|r| - 1], p) && r[|r| - 1] == Painted(current, p, color)[|Painted(current, p, color)| - 1] &&
      r[|r| - 1].cssClass == color.cssClass && r[|r| - 1].labelText == color.name
  {
    PaintedNewRange(current, p, color);
  }

  /** An unaffected range of class `cls` is a candidate, at some index of the sorted list. */
  lemma UnaffectedCandidate(u: seq<BitRange>, res: seq<BitRange>, cls: string, x: BitRange) returns (k: int)
    requires x in u && x.cssClass == cls
    ensures 0 <= k < |Candidates(u, res, cls)|
    ensures var c := Candidates(u, res, cls)[k]; c.range == x && !c.fromSplit
  {
    var i :| 0 <= i < |u| && u[i] == x;
    assert Tagged(u, false)[i] == Candidate(x, false, i);
    var cs := Candidates(u, res, cls);
    k :| 0 <= k < |cs| && cs[k] == Candidate(x, false, i);
  }

  /**
   * When x is the only unaffected range of class `cls` that starts at s and no residual is of
   * that class, the first candidate starting at s is x.
   */
  lemma FirstStartingIs(u: seq<BitRange>, res: seq<BitRange>, cls: string, x: BitRange, s: int)
    requires x in u && x.cssClass == cls && x.start == s
    requires forall y :: y in u && y.cssClass == cls && y.start == s ==> y == x
    requires forall r :: r in res ==> r.cssClass != cls
    ensures var cs := Candidates(u, res, cls);
      FirstStarting(cs, s) < |cs| && cs[FirstStarting(cs, s)].range == x
  {
    var cs := Candidates(u, res, cls);
    var k := UnaffectedCandidate(u, res, cls, x);
    var j := FirstStarting(cs, s);
    CandidateOrigin(u, res, cls, cs[j]);
  }

  /** A range of the chosen class that ends just before p is spanned by the merged range. */
  lemma FinalMergeReachesLeft(current: seq<BitRange>, p: int, color: Color, x: BitRange)
    requires AllWellFormed(current)
    requires 1 <= p <= 32
    requires x in current && x.end + 1 == p && x.cssClass == color.cssClass
    ensures Within(x, FinalMerge(current, p, color).range)
  {
    var u := Unaffected(current, p);
    var res := Residuals(FindContaining(current, p), p);
    HitResiduals(current, p);
    CandidatesWellFormed(u, res, color.cssClass);
    var k := UnaffectedCandidate(u, res, color.cssClass, x);
    MergeAbsorbsLeft(Merge(BitRange(p, p, color.cssClass, color.name), []), Candidates(u, res, color.cssClass), p, k);
    FinalRange(current, p, color);
  }

  /**
   * A range of the chosen class that starts just after p is spanned by the merged range, when it
   * is the only range of that class starting there or holding p.
   */
  lemma FinalMergeReachesRight(current: seq<BitRange>, p: int, color: Color, x: BitRange)
    requires AllWellFormed(current)
    requires 1 <= p <= 32
    requires x in current && x.start == p + 1 && x.cssClass == color.cssClass
    requires forall y :: y in current && y.cssClass == color.cssClass && (y.start == p + 1 || Contains(y, p)) ==> y == x
    ensures Within(x, FinalMerge(current, p, color).range)
  {
    var u := Unaffected(current, p);
    var a := FindContaining(current, p);
    var res := Residuals(a, p);
    HitResiduals(current, p);
    CandidatesWellFormed(u, res, color.cssClass);
    assert a.Some? ==> a.value in current && a.value.cssClass != color.cssClass;
    FirstStartingIs(u, res, color.cssClass, x, p + 1);
    var cs := Candidates(u, res, color.cssClass);
    MergeAbsorbsRight(Merge(BitRange(p, p, color.cssClass, color.name), []), cs, p, FirstStarting(cs, p + 1));
    FinalRange(current, p, color);
  }

  /**
   * Both the code as written and the corrected operation absorb a same-class range that touches
   * p on the left: the new last range spans it.
   */
  lemma PaintedAbsorbsLeft(current: seq<BitRange>, p: int, color: Color, x: BitRange)
    requires AllWellFormed(current)
    requires 1 <= p <= 32
    requires x in current && x.end + 1 == p && x.cssClass == color.cssClass
    ensures var r := Painted(current, p, color);
      |r| >= 1 && Within(x, r[|r| - 1])
    ensures var f := PaintedFixed(current, p, color);
      |f| >= 1 && Within(x, f[|f| - 1])
  {
    FinalMergeReachesLeft(current, p, color, x);
    PaintedLast(current, p, color);
    PaintedFixedNewRange(current, p, color);
  }

  /**
   * Both absorb a same-class range that touches p on the right, when it is the only range of
   * that class starting there or holding p: the new last range spans it.
   */
  lemma PaintedAbsorbsRight(current: seq<BitRange>, p: int, color: Color, x: BitRange)
    requires AllWellFormed(current)
    requires 1 <= p <= 32
    requires x in current && x.start == p + 1 && x.cssClass == color.cssClass
    requires forall y :: y in current && y.cssClass == color.cssClass && (y.start == p + 1 || Contains(y, p)) ==> y == x
    ensures var r := Painted(current, p, color);
      |r| >= 1 && Within(x, r[|r| - 1])
    ensures var f := PaintedFixed(current, p, color);
      |f| >= 1 && Within(x, f[|f| - 1])
  {
    FinalMergeReachesRight(current, p, color, x);
    PaintedLast(current, p, color);
    PaintedFixedNewRange(current, p, color);
  }

  /**
   * The code as written keeps the colour of every position except those of same-class ranges that
   * do not hold p: with a single range holding p, a position covered by any other range is still
   * covered by a range of the same class.
   */
  lemma PaintedKeepsColoursOutsideSameClass(current: seq<BitRange>, p: int, color: Color, q: int, x: BitRange)
    requires AllWellFormed(current)
    requires 1 <= p <= 32
    requires SingleHolder(current, p)
    requires x in current && Contains(x, q) && q != p
    requires Contains(x, p) || x.cssClass != color.cssClass
    ensures exists y :: y in Painted(current, p, color) && Contains(y, q) && y.cssClass == x.cssClass
  {
    var r := Painted(current, p, color);
    var m := FinalMerge(current, p, color);
    var res := Residuals(FindContaining(current, p), p);
    var survivors := Survivors(res, m.absorbed, 0);
    assert r == OtherClass(Unaffected(current, p), color.cssClass) + survivors + [m.range];
    if Contains(x, p) {
      ResidualCoverage(current, p, color, q, x);
      if Contains(m.range, q) && m.range.cssClass == x.cssClass {
        assert m.range in r;
      } else {
        var y :| y in survivors && Contains(y, q) && y.cssClass == x.cssClass;
        assert y in r;
      }
    } else {
      PaintedContents(current, p, color);
      assert x in r;
    }
  }

  /** OtherClass keeps a one-range list exactly when its class differs. */
  lemma OtherClassSingle(x: BitRange, cls: string)
    ensures OtherClass([x], cls) == if x.cssClass != cls then [x] else []
  {
    assert [x][1..] == [];
  }

  /** No candidate of class `cls`, nothing kept. */
  lemma {:induction false} OfClassNone(cs: seq<Candidate>, cls: string)
    requires forall c :: c in cs ==> c.range.cssClass != cls
    ensures OfClass(cs, cls) == []
  {
    if cs != [] {
      OfClassNone(cs[1..], cls);
    }
  }

  /** No range of class `cls`, no candidate. */
  lemma NoCandidates(unaffected: seq<BitRange>, residuals: seq<BitRange>, cls: string)
    requires forall x :: x in unaffected ==> x.cssClass != cls
    requires forall x :: x in residuals ==> x.cssClass != cls
    ensures Candidates(unaffected, residuals, cls) == []
  {
    OfClassNone(Tagged(unaffected, false) + Tagged(residuals, true), cls);
  }

  /** One unaffected range of class `cls` and no residual of it: that range is the only candidate. */
  lemma OneCandidate(x: BitRange, residuals: seq<BitRange>, cls: string)
    requires x.cssClass == cls
    requires forall r :: r in residuals ==> r.cssClass != cls
    ensures Candidates([x], residuals, cls) == [Candidate(x, false, 0)]
  {
    var c := Candidate(x, false, 0);
    var tail := Tagged(residuals, true);
    var all := Tagged([x], false) + tail;
    assert all[0] == c && all[1..] == tail;
    OfClassNone(tail, cls);
    assert [c][1..] == [];
  }

  /** `handleColorChange` assembled from its parts: the kept ranges and residuals, then the new range. */
  lemma PaintedAssembled(current: seq<BitRange>, p: int, color: Color, m: Merge, front: seq<BitRange>)
    requires FinalMerge(current, p, color) == m
    requires OtherClass(Unaffected(current, p), color.cssClass) + Survivors(Residuals(FindContaining(current, p), p), m.absorbed, 0) == front
    ensures Painted(current, p, color) == front + [m.range]
  {
    var oc := OtherClass(Unaffected(current, p), color.cssClass);
    var sv := Survivors(Residuals(FindContaining(current, p), p), m.absorbed, 0);
    assert Painted(current, p, color) == oc + sv + [m.range];
  }

  /** The corrected assembly from its parts. */
  lemma PaintedFixedAssembled(current: seq<BitRange>, p: int, color: Color, m: Merge, front: seq<BitRange>)
    requires FinalMerge(current, p, color) == m
    requires Kept(Unaffected(current, p), color.cssClass, m.absorbed, 0) + Survivors(Residuals(FindContaining(current, p), p), m.absorbed, 0) == front
    ensures PaintedFixed(current, p, color) == front + [m.range]
  {
    var kept := Kept(Unaffected(current, p), color.cssClass, m.absorbed, 0);
    var sv := Survivors(Residuals(FindContaining(current, p), p), m.absorbed, 0);
    assert PaintedFixed(current, p, color) == kept + sv + [m.range];
  }

  /** With one unaffected range x of the chosen class and no residual of it, the loop makes one step against x. */
  lemma FinalMergeOneCandidate(current: seq<BitRange>, p: int, color: Color, x: BitRange, res: seq<BitRange>)
    requires Unaffected(current, p) == [x] && Residuals(FindContaining(current, p), p) == res
    requires x.cssClass == color.cssClass
    requires forall r :: r in res ==> r.cssClass != color.cssClass
    ensures FinalMerge(current, p, color) == MergeStep(Merge(BitRange(p, p, color.cssClass, color.name), []), Candidate(x, false, 0))
  {
    OneCandidate(x, res, color.cssClass);
    MergeOne(Merge(BitRange(p, p, color.cssClass, color.name), []), Candidate(x, false, 0));
  }

  /** Absorbing at most one unaffected range leaves every residual standing. */
  lemma SurvivorsAfterUnaffected(res: seq<BitRange>, m0: Merge, x: BitRange)
    requires m0.absorbed == []
    ensures Survivors(res, MergeStep(m0, Candidate(x, false, 0)).absorbed, 0) == res
  {
    var c := Candidate(x, false, 0);
    var absorbed := MergeStep(m0, c).absorbed;
    assert absorbed == [] || absorbed == [c];
    SurvivorsIgnoresUnaffected(res, [], c, 0);
    SurvivorsOfNone(res, 0);
    assert res[0..] == res;
  }

  /** With no range of the chosen class around, painting only splits: nothing is merged or dropped. */
  lemma PaintedNoCandidate(current: seq<BitRange>, p: int, color: Color, u: seq<BitRange>, res: seq<BitRange>)
    requires Unaffected(current, p) == u && Residuals(FindContaining(current, p), p) == res
    requires forall x :: x in u ==> x.cssClass != color.cssClass
    requires forall x :: x in res ==> x.cssClass != color.cssClass
    ensures Painted(current, p, color) == OtherClass(u, color.cssClass) + res + [BitRange(p, p, color.cssClass, color.name)]
  {
    var m0 := Merge(BitRange(p, p, color.cssClass, color.name), []);
    NoCandidates(u, res, color.cssClass);
    SurvivorsOfNone(res, 0);
    assert res[0..] == res;
    PaintedAssembled(current, p, color, m0, OtherClass(u, color.cssClass) + res);
  }

  /**
   * With one unaffected range x of the chosen class and no residual of it, the result is the
   * residuals and the new range after one merging step against x; x itself is not kept.
   */
  lemma PaintedOneCandidate(current: seq<BitRange>, p: int, color: Color, x: BitRange, res: seq<BitRange>)
    requires Unaffected(current, p) == [x] && Residuals(FindContaining(current, p), p) == res
    requires x.cssClass == color.cssClass
    requires forall r :: r in res ==> r.cssClass != color.cssClass
    ensures Painted(current, p, color) ==
      res + [MergeStep(Merge(BitRange(p, p, color.cssClass, color.name), []), Candidate(x, false, 0)).range]
  {
    var m0 := Merge(BitRange(p, p, color.cssClass, color.name), []);
    var m := MergeStep(m0, Candidate(x, false, 0));
    FinalMergeOneCandidate(current, p, color, x, res);
    SurvivorsAfterUnaffected(res, m0, x);
    OtherClassSingle(x, color.cssClass);
    PaintedAssembled(current, p, color, m, res);
  }

  /** A same-class range x that does not touch p is dropped by `handleColorChange`. */
  lemma PaintedDropsDistant(current: seq<BitRange>, p: int, color: Color, x: BitRange, res: seq<BitRange>)
    requires Unaffected(current, p) == [x] && Residuals(FindContaining(current, p), p) == res
    requires x.cssClass == color.cssClass && x.end + 1 != p && x.start - 1 != p
    requires forall r :: r in res ==> r.cssClass != color.cssClass
    ensures Painted(current, p, color) == res + [BitRange(p, p, color.cssClass, color.name)]
  {
    var m0 := Merge(BitRange(p, p, color.cssClass, color.name), []);
    assert MergeStep(m0, Candidate(x, false, 0)) == m0;
    PaintedOneCandidate(current, p, color, x, res);
  }

  /** The corrected assembly keeps a same-class range x that does not touch p. */
  lemma PaintedFixedKeepsDistant(current: seq<BitRange>, p: int, color: Color, x: BitRange, res: seq<BitRange>)
    requires Unaffected(current, p) == [x] && Residuals(FindContaining(current, p), p) == res
    requires x.cssClass == color.cssClass && x.end + 1 != p && x.start - 1 != p
    requires forall r :: r in res ==> r.cssClass != color.cssClass
    ensures PaintedFixed(current, p, color) == [x] + res + [BitRange(p, p, color.cssClass, color.name)]
  {
    var m0 := Merge(BitRange(p, p, color.cssClass, color.name), []);
    assert MergeStep(m0, Candidate(x, false, 0)) == m0;
    FinalMergeOneCandidate(current, p, color, x, res);
    SurvivorsAfterUnaffected(res, m0, x);
    KeptSingle([x], color.cssClass, []);
    PaintedFixedAssembled(current, p, color, m0, [x] + res);
  }

  /** With nothing absorbed, a single unaffected range is kept. */
  lemma KeptSingle(unaffected: seq<BitRange>, cls: string, absorbed: seq<Candidate>)
    requires |unaffected| == 1 && absorbed == []
    ensures Kept(unaffected, cls, absorbed, 0) == unaffected
  {
    assert Kept(unaffected, cls, absorbed, 1) == [];
  }

  /** Candidates of class `cls` only, in a list where all of them are: the list itself. */
  lemma {:induction false} OfClassAll(cs: seq<Candidate>, cls: string)
    requires forall c :: c in cs ==> c.range.cssClass == cls
    ensures OfClass(cs, cls) == cs
  {
    if cs != [] {
      OfClassAll(cs[1..], cls);
      assert cs == [cs[0]] + cs[1..];
    }
  }

  /** A prefix with no candidate of class `cls` contributes nothing. */
  lemma {:induction false} OfClassSkip(a: seq<Candidate>, b: seq<Candidate>, cls: string)
    requires forall c :: c in a ==> c.range.cssClass != cls
    ensures OfClass(a + b, cls) == OfClass(b, cls)
  {
    if a != [] {
      var ab := a + b;
      assert a[0] in a;
      assert ab[0] == a[0] && ab[1..] == a[1..] + b;
      OfClassSkip(a[1..], b, cls);
      assert OfClass(ab, cls) == [] + OfClass(ab[1..], cls);
    } else {
      assert a + b == b;
    }
  }

  /** Sorting a list already sorted by start leaves it as it is. */
  lemma {:induction false} SortByStartSorted(cs: seq<Candidate>)
    requires SortedByStart(cs)
    ensures SortByStart(cs) == cs
  {
    if cs != [] {
      var tail := cs[1..];
      assert SortedByStart(tail) by {
        forall i, j | 0 <= i < j < |tail|
          ensures tail[i].range.start <= tail[j].range.start
        {
          assert tail[i] == cs[i + 1] && tail[j] == cs[j + 1];
        }
      }
      SortByStartSorted(tail);
      assert tail != [] ==> cs[0].range.start <= tail[0].range.start;
      assert cs == [cs[0]] + tail;
    }
  }

  /** No residual absorbed from index k on is left over when every one of them was absorbed. */
  lemma {:induction false} SurvivorsAllAbsorbed(residuals: seq<BitRange>, absorbed: seq<Candidate>, k: nat)
    requires forall j :: k <= j < |residuals| ==> Candidate(residuals[j], true, j) in absorbed
    ensures Survivors(residuals, absorbed, k) == []
    decreases |residuals| - k
  {
    if k < |residuals| {
      SurvivorsAllAbsorbed(residuals, absorbed, k + 1);
    }
  }

  /** With no unaffected candidate and only residuals of class `cls`, the candidates are the residuals in order. */
  lemma ResidualCandidates(unaffected: seq<BitRange>, residuals: seq<BitRange>, cls: string)
    requires forall y :: y in unaffected ==> y.cssClass != cls
    requires forall r :: r in residuals ==> r.cssClass == cls
    requires |residuals| <= 2 && (|residuals| == 2 ==> residuals[0].start < residuals[1].start)
    ensures Candidates(unaffected, residuals, cls) == Tagged(residuals, true)
  {
    var t := Tagged(residuals, true);
    OfClassSkip(Tagged(unaffected, false), t, cls);
    OfClassAll(t, cls);
    SortByStartSorted(t);
  }

  /**
   * Merging the one-bit range at p with the residuals of a range x around p, in order: the first
   * ends just before p, the last starts just after it, so both are absorbed and x is spanned again.
   */
  lemma MergeOwnResiduals(x: BitRange, p: int, cls: string, name: string)
    requires Contains(x, p)
    ensures var t := Tagged(Residuals(Some(x), p), true);
      var m := MergeAll(Merge(BitRange(p, p, cls, name), []), t);
      m.range == BitRange(x.start, x.end, cls, name) && m.absorbed == t
  {
    var t := Tagged(Residuals(Some(x), p), true);
    var m0 := Merge(BitRange(p, p, cls, name), []);
    if |t| == 2 {
      MergeAllStep(m0, t, 0);
      MergeAllStep(m0, t, 1);
      assert t[..0] == [] && t[..2] == t;
    } else if |t| == 1 {
      MergeAllStep(m0, t, 0);
      assert t[..0] == [] && t[..1] == t;
    }
  }

  /**
   * Painting p inside a range x of the colour's own class, when no other range has that class:
   * both residuals of x are the candidates, both are absorbed, and the new range spans x again.
   */
  lemma RepaintOwnClassMerge(current: seq<BitRange>, p: int, color: Color, x: BitRange)
    requires SingleHolder(current, p)
    requires x in current && Contains(x, p) && x.cssClass == color.cssClass
    requires forall y :: y in current && !Contains(y, p) ==> y.cssClass != color.cssClass
    ensures var m := FinalMerge(current, p, color);
      var res := Residuals(FindContaining(current, p), p);
      m.range == BitRange(x.start, x.end, color.cssClass, color.name) && Survivors(res, m.absorbed, 0) == []
  {
    FindsSingleHolder(current, p, x);
    var res := Residuals(Some(x), p);
    ResidualCandidates(Unaffected(current, p), res, color.cssClass);
    MergeOwnResiduals(x, p, color.cssClass, color.name);
    var t := Tagged(res, true);
    assert forall j :: 0 <= j < |res| ==> Candidate(res[j], true, j) in t by {
      forall j | 0 <= j < |res|
        ensures Candidate(res[j], true, j) in t
      {
        assert t[j] == Candidate(res[j], true, j);
      }
    }
    SurvivorsAllAbsorbed(res, t, 0);
  }

  /** Under a single holder, a range other than x that is in the colouring does not hold p. */
  lemma OthersMissP(current: seq<BitRange>, p: int, x: BitRange)
    requires SingleHolder(current, p)
    requires x in current && Contains(x, p)
    ensures forall y :: y in current && y != x ==> !Contains(y, p)
  {
    forall y | y in current && y != x
      ensures !Contains(y, p)
    {
      var i :| 0 <= i < |current| && current[i] == y;
      var k :| 0 <= k < |current| && current[k] == x;
    }
  }

  /** A list of x's companions followed by a new last range, as a set. */
  lemma SetOfReplaced(front: seq<BitRange>, last: BitRange, current: seq<BitRange>, x: BitRange)
    requires forall y :: y in front <==> y in current && y != x
    ensures (set y | y in front + [last]) == (set y | y in current) - {x} + {last}
  {
  }

  /**
   * Repainting a bit with the class of the range it lies in, when no other range has that class,
   * gives the same ranges back, the one around p relabelled with the colour's name.
   */
  lemma PaintedOwnClass(current: seq<BitRange>, p: int, color: Color, x: BitRange)
    requires SingleHolder(current, p)
    requires x in current && Contains(x, p) && x.cssClass == color.cssClass
    requires forall y :: y in current && !Contains(y, p) ==> y.cssClass != color.cssClass
    ensures (set y | y in Painted(current, p, color)) ==
      (set y | y in current) - {x} + {BitRange(x.start, x.end, color.cssClass, color.name)}
  {
    RepaintOwnClassMerge(current, p, color, x);
    OthersMissP(current, p, x);
    var m := FinalMerge(current, p, color);
    var others := OtherClass(Unaffected(current, p), color.cssClass);
    var front := others + Survivors(Residuals(FindContaining(current, p), p), m.absorbed, 0);
    assert front == others;
    PaintedAssembled(current, p, color, m, front);
    SetOfReplaced(front, m.range, current, x);
  }

  /** The corrected painting gives the same ranges back in that case too. */
  lemma PaintedFixedOwnClass(current: seq<BitRange>, p: int, color: Color, x: BitRange)
    requires SingleHolder(current, p)
    requires x in current && Contains(x, p) && x.cssClass == color.cssClass
    requires forall y :: y in current && !Contains(y, p) ==> y.cssClass != color.cssClass
    ensures (set y | y in PaintedFixed(current, p, color)) ==
      (set y | y in current) - {x} + {BitRange(x.start, x.end, color.cssClass, color.name)}
  {
    RepaintOwnClassMerge(current, p, color, x);
    OthersMissP(current, p, x);
    var u := Unaffected(current, p);
    var m := FinalMerge(current, p, color);
    var kept := Kept(u, color.cssClass, m.absorbed, 0);
    var front := kept + Survivors(Residuals(FindContaining(current, p), p), m.absorbed, 0);
    assert front == kept;
    forall y | y in current && y != x
      ensures y in kept
    {
      var j :| 0 <= j < |u| && u[j] == y;
    }
    PaintedFixedAssembled(current, p, color, m, front);
    SetOfReplaced(front, m.range, current, x);
  }

  /** Concatenation around a two-element list, as a four-element display. */
  lemma AroundPair(a: BitRange, res: seq<BitRange>, b: BitRange, c: BitRange, d: BitRange)
    requires res == [b, c]
    ensures [a] + res + [d] == [a, b, c, d] && res + [d] == [b, c, d] && [] + res + [d] == [b, c, d]
  {
  }

  /** Concatenation around a one-element list, as a display. */
  lemma AroundSingle(a: BitRange, res: seq<BitRange>, b: BitRange, d: BitRange)
    requires res == [b]
    ensures [a] + res + [d] == [a, b, d] && res + [d] == [b, d]
  {
  }

  /** A colouring of one range that holds p. */
  lemma OneRangeHolding(a: BitRange, p: int)
    requires Contains(a, p)
    ensures Unaffected([a], p) == [] && FindContaining([a], p) == Some(a)
  {
    assert [a][1..] == [];
  }

  /** A colouring of two ranges of which only the second holds p. */
  lemma SecondHolding(a: BitRange, b: BitRange, p: int)
    requires !Contains(a, p) && Contains(b, p)
    ensures Unaffected([a, b], p) == [a] && FindContaining([a, b], p) == Some(b)
  {
    assert [a, b][1..] == [b];
    assert [b][1..] == [];
  }

  /** A colouring of two ranges of which only the first holds p. */
  lemma FirstHolding(a: BitRange, b: BitRange, p: int)
    requires Contains(a, p) && !Contains(b, p)
    ensures Unaffected([a, b], p) == [b] && FindContaining([a, b], p) == Some(a)
  {
    assert [a, b][1..] == [b];
    assert [b][1..] == [];
  }

  /** The merging loop over a single candidate is one step. */
  lemma MergeOne(m0: Merge, c: Candidate)
    ensures MergeAll(m0, [c]) == MergeStep(m0, c)
  {
    assert [c][..0] == [];
  }

  /**
   * Splitting: painting position p inside a single range [1, 32] of another class leaves the two
   * halves [1, p - 1] and [p + 1, 32] and appends the one-bit range.
   */
  lemma SplitExample(cls: string, lbl: string, p: int, color: Color)
    requires 2 <= p <= 31
    requires color.cssClass != cls
    ensures Painted([BitRange(1, 32, cls, lbl)], p, color) ==
      [BitRange(1, p - 1, cls, lbl), BitRange(p + 1, 32, cls, lbl), BitRange(p, p, color.cssClass, color.name)]
  {
    var whole := BitRange(1, 32, cls, lbl);
    var res := Residuals(Some(whole), p);
    assert res == [BitRange(1, p - 1, cls, lbl), BitRange(p + 1, 32, cls, lbl)];
    OneRangeHolding(whole, p);
    PaintedNoCandidate([whole], p, color, [], res);
    assert OtherClass([], color.cssClass) == [];
    AroundPair(whole, res, res[0], res[1], BitRange(p, p, color.cssClass, color.name));
  }

  /**
   * Merging: in a colouring [1, n] / [n + 1, 32], painting position n with the second range's own
   * class widens the new range over [n + 1, 32], which disappears, and leaves [1, n - 1].
   */
  lemma MergeExample(netClass: string, netLabel: string, hostLabel: string, n: int, color: Color)
    requires 2 <= n <= 31
    requires netClass != color.cssClass
    ensures Painted([BitRange(1, n, netClass, netLabel), BitRange(n + 1, 32, color.cssClass, hostLabel)], n, color) ==
      [BitRange(1, n - 1, netClass, netLabel), BitRange(n, 32, color.cssClass, color.name)]
  {
    var net := BitRange(1, n, netClass, netLabel);
    var host := BitRange(n + 1, 32, color.cssClass, hostLabel);
    var res := Residuals(Some(net), n);
    assert res == [BitRange(1, n - 1, netClass, netLabel)];
    var m0 := Merge(BitRange(n, n, color.cssClass, color.name), []);
    var m := MergeStep(m0, Candidate(host, false, 0));
    assert m.range == BitRange(n, 32, color.cssClass, color.name);
    FirstHolding(net, host, n);
    PaintedOneCandidate([net, host], n, color, host, res);
    AroundSingle(host, res, res[0], m.range);
  }

  /**
   * Without a class in common nothing merges: painting position n of a colouring [1, n] /
   * [n + 1, 32] keeps the second range, the residual [1, n - 1] and the one-bit range.
   */
  lemma NoMergeExample(netClass: string, netLabel: string, hostClass: string, hostLabel: string, n: int, color: Color)
    requires 2 <= n <= 31
    requires netClass != color.cssClass && hostClass != color.cssClass
    ensures Painted([BitRange(1, n, netClass, netLabel), BitRange(n + 1, 32, hostClass, hostLabel)], n, color) ==
      [BitRange(n + 1, 32, hostClass, hostLabel), BitRange(1, n - 1, netClass, netLabel), BitRange(n, n, color.cssClass, color.name)]
  {
    var net := BitRange(1, n, netClass, netLabel);
    var host := BitRange(n + 1, 32, hostClass, hostLabel);
    var res := Residuals(Some(net), n);
    assert res == [BitRange(1, n - 1, netClass, netLabel)];
    FirstHolding(net, host, n);
    OtherClassSingle(host, color.cssClass);
    PaintedNoCandidate([net, host], n, color, [host], res);
    AroundSingle(host, res, res[0], BitRange(n, n, color.cssClass, color.name));
  }

  /**
   * Palette colours never merge with the mask-derived ranges: painting the last network bit of a
   * /n colouring with the palette's host colour leaves the mask's host range apart.
   */
  lemma PaletteNeverMergesWithMaskRanges(n: int, i: int)
    requires 2 <= n <= 31 && 0 <= i < 5
    ensures Painted(MaskRangesOf(n), n, Palette()[i]) ==
      [BitRange(n + 1, 32, HOST_CLASS, HOST_LABEL), BitRange(1, n - 1, NETWORK_CLASS, NETWORK_LABEL),
       BitRange(n, n, Palette()[i].cssClass, Palette()[i].name)]
  {
    NoMergeExample(NETWORK_CLASS, NETWORK_LABEL, HOST_CLASS, HOST_LABEL, n, Palette()[i]);
  }

  /**
   * The final filter of `handleColorChange` as written loses colours.  In the colouring
   * [1, 8] of the chosen class and [9, 32] of another, painting position 20 leaves [1, 8], which
   * neither holds 20 nor touches it, out of the result: position 5 is no longer covered.  The
   * corrected operation keeps [1, 8].
   */
  lemma DropsDistantSameClassRange(otherClass: string, ownLabel: string, otherLabel: string, color: Color)
    requires otherClass != color.cssClass
    ensures var current := [BitRange(1, 8, color.cssClass, ownLabel), BitRange(9, 32, otherClass, otherLabel)];
      Painted(current, 20, color) ==
        [BitRange(9, 19, otherClass, otherLabel), BitRange(21, 32, otherClass, otherLabel), BitRange(20, 20, color.cssClass, color.name)] &&
      forall y :: y in Painted(current, 20, color) ==> !Contains(y, 5)
  {
    var own := BitRange(1, 8, color.cssClass, ownLabel);
    var other := BitRange(9, 32, otherClass, otherLabel);
    var res := Residuals(Some(other), 20);
    assert res == [BitRange(9, 19, otherClass, otherLabel), BitRange(21, 32, otherClass, otherLabel)];
    SecondHolding(own, other, 20);
    PaintedDropsDistant([own, other], 20, color, own, res);
    AroundPair(own, res, res[0], res[1], BitRange(20, 20, color.cssClass, color.name));
  }

  /** The corrected assembly keeps that range: painting bit 20 leaves bit 5 coloured. */
  lemma FixedKeepsDistantSameClassRange(otherClass: string, ownLabel: string, otherLabel: string, color: Color)
    requires otherClass != color.cssClass
    ensures var current := [BitRange(1, 8, color.cssClass, ownLabel), BitRange(9, 32, otherClass, otherLabel)];
      PaintedFixed(current, 20, color) ==
        [BitRange(1, 8, color.cssClass, ownLabel), BitRange(9, 19, otherClass, otherLabel),
         BitRange(21, 32, otherClass, otherLabel), BitRange(20, 20, color.cssClass, color.name)]
  {
    var own := BitRange(1, 8, color.cssClass, ownLabel);
    var other := BitRange(9, 32, otherClass, otherLabel);
    var res := Residuals(Some(other), 20);
    assert res == [BitRange(9, 19, otherClass, otherLabel), BitRange(21, 32, otherClass, otherLabel)];
    SecondHolding(own, other, 20);
    PaintedFixedKeepsDistant([own, other], 20, color, own, res);
    AroundPair(own, res, res[0], res[1], BitRange(20, 20, color.cssClass, color.name));
  }
}
