/**
 Lists of bit regions (klee/lib/Core/AnalyzeConstraint.cpp:67-186, Executor.cpp:1124-1150,
 1985-2040, 2188-2192).

 Regions have non-negative offsets and positive sizes, and their ends fit in an `int`, so
 that the mixed signed and unsigned arithmetic of the original is that of the integers.
 */
module Regions {
  import opened Options

  datatype Region = Region(offset: int, size: int)

  predicate Proper(r: Region) {
    r.offset >= 0 && r.size > 0
  }

  predicate AllProper(rs: seq<Region>) {
    forall i | 0 <= i < |rs| :: Proper(rs[i])
  }

  /** The bits of a region and of a list. */
  predicate In(b: int, r: Region) {
    r.offset <= b < r.offset + r.size
  }

  predicate Covers(rs: seq<Region>, b: int) {
    exists i | 0 <= i < |rs| :: In(b, rs[i])
  }

  predicate Inside(r: Region, s: Region) {
    s.offset <= r.offset && r.offset + r.size <= s.offset + s.size
  }

  ghost predicate Meets(r: Region, s: Region) {
    exists b :: In(b, r) && In(b, s)
  }

  lemma CoversAppend(rs: seq<Region>, ss: seq<Region>, b: int)
    ensures Covers(rs + ss, b) <==> Covers(rs, b) || Covers(ss, b)
  {
    if Covers(rs, b) {
      var i :| 0 <= i < |rs| && In(b, rs[i]);
      assert (rs + ss)[i] == rs[i];
    }
    if Covers(ss, b) {
      var i :| 0 <= i < |ss| && In(b, ss[i]);
      assert (rs + ss)[|rs| + i] == ss[i];
    }
  }

  lemma CoversOne(r: Region, b: int)
    ensures Covers([r], b) <==> In(b, r)
  {
    if In(b, r) {
      assert In(b, [r][0]);
    }
  }

  lemma CoversPush(rs: seq<Region>, r: Region, b: int)
    ensures Covers(rs + [r], b) <==> Covers(rs, b) || In(b, r)
  {
    CoversAppend(rs, [r], b);
    CoversOne(r, b);
  }

  // ----- Intersecting and shifting -----

  /** Inclusive ranges, as the original passes them. */
  predicate RangesIntersect(min1: int, max1: int, min2: int, max2: int) {
    !(min1 > max2 || min2 > max1)
  }

  lemma RangesMeet(r: Region, s: Region)
    requires Proper(r) && Proper(s)
    ensures RangesIntersect(r.offset, r.offset + r.size - 1, s.offset, s.offset + s.size - 1) <==> Meets(r, s)
  {
    if RangesIntersect(r.offset, r.offset + r.size - 1, s.offset, s.offset + s.size - 1) {
      var b := if r.offset > s.offset then r.offset else s.offset;
      assert In(b, r) && In(b, s);
    }
  }

  method Intersect(r1: Region, r2: Region) returns (res: Option<Region>)
    requires Proper(r1) && Proper(r2)
    ensures res.Some? <==> Meets(r1, r2)
    ensures res.Some? ==> Proper(res.value) && forall b :: In(b, res.value) <==> In(b, r1) && In(b, r2)
  {
    var min1, max1 := r1.offset, r1.offset + r1.size - 1;
    var min2, max2 := r2.offset, r2.offset + r2.size - 1;
    var maxofmin := if min1 > min2 then min1 else min2;
    var minofmax := if max1 < max2 then max1 else max2;
    RangesMeet(r1, r2);
    if maxofmin > minofmax {
      return None;
    }
    return Some(Region(maxofmin, minofmax - maxofmin + 1));
  }

  method IntersectAll(r1: Region, r2: seq<Region>, rs: seq<Region>) returns (result: bool, rs': seq<Region>)
    requires Proper(r1) && AllProper(r2) && AllProper(rs)
    ensures AllProper(rs') && rs <= rs'
    ensures result <==> exists i | 0 <= i < |r2| :: Meets(r1, r2[i])
    ensures forall b :: Covers(rs', b) <==> Covers(rs, b) || (In(b, r1) && Covers(r2, b))
  {
    result, rs' := false, rs;
    for i := 0 to |r2|
      invariant AllProper(rs') && rs <= rs'
      invariant result <==> exists j | 0 <= j < i :: Meets(r1, r2[j])
      invariant forall b :: Covers(rs', b) <==> Covers(rs, b) || (In(b, r1) && Covers(r2[..i], b))
    {
      var r := Intersect(r1, r2[i]);
      ghost var before := rs';
      if r.Some? {
        rs' := rs' + [r.value];
        result := true;
      }
      forall b ensures Covers(rs', b) <==> Covers(rs, b) || (In(b, r1) && Covers(r2[..i + 1], b)) {
        CoversNext(r2, i, b);
        if r.Some? {
          CoversPush(before, r.value, b);
        }
      }
    }
    assert r2[..|r2|] == r2;
  }

  lemma CoversNext(rs: seq<Region>, i: nat, b: int)
    requires i < |rs|
    ensures Covers(rs[..i + 1], b) <==> Covers(rs[..i], b) || In(b, rs[i])
  {
    assert rs[..i + 1] == rs[..i] + [rs[i]];
    CoversPush(rs[..i], rs[i], b);
  }

  /** Bits move up; those at `width` or above fall off. */
  method ShiftLeft(r1: Region, rs: seq<Region>, value: nat, width: nat) returns (rs': seq<Region>)
    requires Proper(r1) && AllProper(rs)
    ensures AllProper(rs') && rs <= rs'
    ensures forall b :: Covers(rs', b) <==> Covers(rs, b) || (In(b - value, r1) && b < width)
  {
    var offset := r1.offset + value;
    var size := if r1.offset + value + r1.size > width then width - offset else r1.size;
    rs' := if size > 0 then rs + [Region(offset, size)] else rs;
    forall b ensures Covers(rs', b) <==> Covers(rs, b) || (In(b - value, r1) && b < width) {
      CoversPush(rs, Region(offset, size), b);
    }
  }

  /** Bits move down; those that would be below zero fall off. */
  method ShiftRight(r1: Region, rs: seq<Region>, value: nat) returns (rs': seq<Region>)
    requires Proper(r1) && AllProper(rs)
    ensures AllProper(rs') && rs <= rs'
    ensures forall b :: Covers(rs', b) <==> Covers(rs, b) || (In(b + value, r1) && b >= 0)
  {
    var offset := r1.offset - value;
    var size := r1.size;
    if offset < 0 {
      offset, size := 0, r1.size + r1.offset - value;
    }
    rs' := if size > 0 then rs + [Region(offset, size)] else rs;
    forall b ensures Covers(rs', b) <==> Covers(rs, b) || (In(b + value, r1) && b >= 0) {
      CoversPush(rs, Region(offset, size), b);
    }
  }

  // ----- Merging -----

  predicate CanCoalesce(r1: Region, r2: Region) {
    || r1.offset + r1.size == r2.offset || r2.offset + r2.size == r1.offset
    || RangesIntersect(r1.offset, r1.offset + r1.size - 1, r2.offset, r2.offset + r2.size - 1)
  }

  ghost predicate IsUnion(res: Region, r1: Region, r2: Region) {
    Proper(res) && forall b :: In(b, res) <==> In(b, r1) || In(b, r2)
  }

  /** Two regions can be coalesced just when one region has exactly their bits. */
  lemma CoalescesExactly(r1: Region, r2: Region)
    requires Proper(r1) && Proper(r2)
    ensures CanCoalesce(r1, r2) <==> exists res :: IsUnion(res, r1, r2)
  {
    if CanCoalesce(r1, r2) {
      var low := if r1.offset < r2.offset then r1.offset else r2.offset;
      var high := if r1.offset + r1.size > r2.offset + r2.size then r1.offset + r1.size else r2.offset + r2.size;
      assert IsUnion(Region(low, high - low), r1, r2);
    } else {
      forall res ensures !IsUnion(res, r1, r2) {
        var gap := if r1.offset < r2.offset then r1.offset + r1.size else r2.offset + r2.size;
        assert !In(gap, r1) && !In(gap, r2) && In(r1.offset, r1) && In(r2.offset, r2);
        assert In(r1.offset, res) && In(r2.offset, res) ==> In(gap, res);
      }
    }
  }

  method Coalesce(r1: Region, r2: Region) returns (res: Option<Region>)
    requires Proper(r1) && Proper(r2)
    ensures res.Some? <==> CanCoalesce(r1, r2)
    ensures res.Some? ==> IsUnion(res.value, r1, r2)
  {
    if CanCoalesce(r1, r2) {
      var newoffset := if r1.offset < r2.offset then r1.offset else r2.offset;
      var newsize :=
        if r1.offset + r1.size - 1 > r2.offset + r2.size - 1 then r1.offset + r1.size - newoffset
        else r2.offset + r2.size - newoffset;
      return Some(Region(newoffset, newsize));
    }
    return None;
  }

  /** A region the added one touches has become their union, and any other is as it was. */
  ghost predicate Grown(res: Region, r1: Region, r: Region) {
    if CanCoalesce(r1, r) then IsUnion(res, r1, r) else res == r
  }

  /**
   Adds one region, growing every region it touches: no region left can be coalesced with it and lacks a bit of it.
   */
  method MergeOne(r1: Region, rs2: seq<Region>) returns (rs3: seq<Region>)
    requires Proper(r1) && AllProper(rs2)
    ensures AllProper(rs3) && |rs3| == |rs2| + if exists i | 0 <= i < |rs2| :: CanCoalesce(r1, rs2[i]) then 0 else 1
    ensures forall b :: Covers(rs3, b) <==> In(b, r1) || Covers(rs2, b)
    ensures forall i | 0 <= i < |rs2| :: Grown(rs3[i], r1, rs2[i])
    ensures forall i, b | 0 <= i < |rs3| && CanCoalesce(r1, rs3[i]) :: In(b, r1) ==> In(b, rs3[i])
  {
    var insert := true;
    rs3 := [];
    for i := 0 to |rs2|
      invariant AllProper(rs3) && |rs3| == i
      invariant insert <==> forall j | 0 <= j < i :: !CanCoalesce(r1, rs2[j])
      invariant forall j | 0 <= j < i :: Grown(rs3[j], r1, rs2[j])
      invariant forall b :: Covers(rs3, b) <==> (!insert && In(b, r1)) || Covers(rs2[..i], b)
    {
      var r := Coalesce(r1, rs2[i]);
      ghost var before, inserted := rs3, insert;
      if r.Some? {
        insert := false;
        rs3 := rs3 + [r.value];
      } else {
        rs3 := rs3 + [rs2[i]];
      }
      forall b ensures Covers(rs3, b) <==> (!insert && In(b, r1)) || Covers(rs2[..i + 1], b) {
        CoversNext(rs2, i, b);
        CoversPush(before, if r.Some? then r.value else rs2[i], b);
      }
    }
    assert rs2[..|rs2|] == rs2;
    ghost var before := rs3;
    if insert {
      rs3 := rs3 + [r1];
    }
    forall b ensures Covers(rs3, b) <==> In(b, r1) || Covers(rs2, b) {
      CoversPush(before, r1, b);
    }
  }

  /** The union of the two lists, put at the end of the third. */
  method MergeAndCoalesce(rs1: seq<Region>, rs2: seq<Region>, rs3: seq<Region>) returns (rs3': seq<Region>)
    requires AllProper(rs1) && AllProper(rs2) && AllProper(rs3)
    ensures AllProper(rs3') && rs3 <= rs3'
    ensures forall b :: Covers(rs3', b) <==> Covers(rs3, b) || Covers(rs1, b) || Covers(rs2, b)
  {
    var temp := rs2;
    for i := 0 to |rs1|
      invariant AllProper(temp)
      invariant forall b :: Covers(temp, b) <==> Covers(rs1[..i], b) || Covers(rs2, b)
    {
      ghost var before := temp;
      temp := MergeOne(rs1[i], temp);
      forall b ensures Covers(temp, b) <==> Covers(rs1[..i + 1], b) || Covers(rs2, b) {
        CoversNext(rs1, i, b);
      }
    }
    assert rs1[..|rs1|] == rs1;
    rs3' := rs3;
    for i := 0 to |temp|
      invariant rs3' == rs3 + temp[..i]
    {
      rs3' := rs3' + [temp[i]];
    }
    assert temp[..|temp|] == temp;
    forall b ensures Covers(rs3', b) <==> Covers(rs3, b) || Covers(rs1, b) || Covers(rs2, b) {
      CoversAppend(rs3, temp, b);
    }
  }

  // ----- Clearing -----

  /** What is left of bit `b` of `s`: where the regions overlap, the bits of exactly one of them. */
  predicate Left(r: Region, s: Region, b: int) {
    if Overlap(r, s) then In(b, r) != In(b, s) else In(b, s)
  }

  predicate Overlap(r: Region, s: Region) {
    RangesIntersect(r.offset, r.offset + r.size - 1, s.offset, s.offset + s.size - 1)
  }

  /** The region is inside the source region or apart from it. */
  predicate FitsOne(r: Region, s: Region) {
    Overlap(r, s) ==> Inside(r, s)
  }

  predicate Fits(r: Region, source: seq<Region>) {
    forall i | 0 <= i < |source| :: FitsOne(r, source[i])
  }

  predicate Apart(rs: seq<Region>) {
    forall i, j | 0 <= i < j < |rs| :: !Overlap(rs[i], rs[j])
  }

  method ClearFrom(r: Region, s: Region) returns (pieces: seq<Region>)
    requires Proper(r) && Proper(s)
    ensures AllProper(pieces) && Apart(pieces)
    ensures forall b :: Covers(pieces, b) <==> Left(r, s, b)
    ensures FitsOne(r, s) ==> forall i | 0 <= i < |pieces| :: Inside(pieces[i], s)
    ensures FitsOne(r, s) ==> forall q | Proper(q) && FitsOne(q, s) && !Overlap(r, q) :: Fits(q, pieces)
  {
    if r.offset == s.offset && r.size == s.size {
      return [];
    }
    var min1, max1, size1 := r.offset, r.offset + r.size - 1, r.size;
    var min2, max2, size2 := s.offset, s.offset + s.size - 1, s.size;
    if RangesIntersect(min1, max1, min2, max2) {
      if min1 + size1 == min2 + size2 {
        var r1 := Region(if min1 < min2 then min1 else min2, if min1 < min2 then size1 - size2 else size2 - size1);
        pieces := [r1];
        forall b ensures Covers(pieces, b) <==> Left(r, s, b) { CoversOne(r1, b); }
      } else if min1 == min2 {
        var r1 := Region(if size1 > size2 then min2 + size2 else min1 + size1,
                         if size1 > size2 then size1 - size2 else size2 - size1);
        pieces := [r1];
        forall b ensures Covers(pieces, b) <==> Left(r, s, b) { CoversOne(r1, b); }
      } else {
        var r1 := Region(if min1 < min2 then min1 else min2, if min1 > min2 then min1 - min2 else min2 - min1);
        var r2 := Region(if max1 < max2 then max1 + 1 else max2 + 1, if max1 > max2 then max1 - max2 else max2 - max1);
        pieces := [r1] + [r2];
        forall b ensures Covers(pieces, b) <==> Left(r, s, b) { CoversPush([r1], r2, b); CoversOne(r1, b); }
      }
    } else {
      pieces := [s];
      forall b ensures Covers(pieces, b) <==> Left(r, s, b) { CoversOne(s, b); }
    }
  }

  /**
   Clears one region. What is left is the set difference just when every source region
   the cleared one overlaps contains it; otherwise bits outside the source appear.
   */
  method ClearOne(r: Region, source: seq<Region>) returns (target: seq<Region>)
    requires Proper(r) && AllProper(source)
    ensures AllProper(target)
    ensures forall b :: Covers(target, b) <==> exists i | 0 <= i < |source| :: Left(r, source[i], b)
    ensures Fits(r, source) <==> forall b :: Covers(target, b) <==> Covers(source, b) && !In(b, r)
    ensures Fits(r, source) && Apart(source) ==> Apart(target)
    ensures Fits(r, source) ==> forall q | Proper(q) && Fits(q, source) && !Overlap(r, q) :: Fits(q, target)
  {
    target := [];
    for i := 0 to |source|
      invariant AllProper(target)
      invariant forall b :: Covers(target, b) <==> exists j | 0 <= j < i :: Left(r, source[j], b)
      invariant Fits(r, source) ==>
        forall k | 0 <= k < |target| :: exists j | 0 <= j < i :: Inside(target[k], source[j])
      invariant Fits(r, source) && Apart(source) ==> Apart(target)
      invariant Fits(r, source) ==> forall q | Proper(q) && Fits(q, source) && !Overlap(r, q) :: Fits(q, target)
    {
      var pieces := ClearFrom(r, source[i]);
      ghost var before := target;
      target := target + pieces;
      forall b ensures Covers(target, b) <==> exists j | 0 <= j < i + 1 :: Left(r, source[j], b) {
        CoversAppend(before, pieces, b);
      }
    }
    ClearsExactly(r, source, target);
  }

  lemma ClearsExactly(r: Region, source: seq<Region>, target: seq<Region>)
    requires Proper(r) && AllProper(source)
    requires forall b :: Covers(target, b) <==> exists i | 0 <= i < |source| :: Left(r, source[i], b)
    ensures Fits(r, source) <==> forall b :: Covers(target, b) <==> Covers(source, b) && !In(b, r)
  {
    if Fits(r, source) {
      forall b ensures Covers(target, b) <==> Covers(source, b) && !In(b, r) {
        if Covers(source, b) && !In(b, r) {
          var i :| 0 <= i < |source| && In(b, source[i]);
          assert Left(r, source[i], b);
        }
      }
    } else {
      var i :| 0 <= i < |source| && !FitsOne(r, source[i]);
      var b := if r.offset < source[i].offset then r.offset else r.offset + r.size - 1;
      assert In(b, r) && Left(r, source[i], b);
    }
  }

  predicate AllFit(rs: seq<Region>, source: seq<Region>) {
    forall k | 0 <= k < |rs| :: Fits(rs[k], source)
  }

  /** Clearing a region that sticks out below the source adds the bits it sticks out with. */
  method ClearingAdds() returns (target: seq<Region>)
    ensures Covers(target, 0) && Covers(target, 1)
    ensures forall b | 0 <= b <= 1 :: In(b, Region(0, 4)) && !Covers([Region(2, 4)], b)
    ensures !Fits(Region(0, 4), [Region(2, 4)])
  {
    var r, source := Region(0, 4), [Region(2, 4)];
    target := ClearOne(r, source);
    assert source[0] == Region(2, 4);
    assert Left(r, source[0], 0) && Left(r, source[0], 1);
  }

  /**
   Clearing a list of regions that are apart, each inside one source region or apart from all, leaves the set
   difference.
   */
  method ClearAll(rs: seq<Region>, source: seq<Region>) returns (target: seq<Region>)
    requires AllProper(rs) && AllProper(source)
    ensures AllProper(target)
    ensures Apart(rs) && AllFit(rs, source) ==> forall b :: Covers(target, b) <==> Covers(source, b) && !Covers(rs, b)
    ensures Apart(rs) && AllFit(rs, source) && Apart(source) ==> Apart(target)
  {
    ghost var neat := Apart(rs) && AllFit(rs, source);
    target := source;
    for i := 0 to |rs|
      invariant AllProper(target)
      invariant neat ==> forall k | i <= k < |rs| :: Fits(rs[k], target)
      invariant neat ==> forall b :: Covers(target, b) <==> Covers(source, b) && !Covers(rs[..i], b)
      invariant neat && Apart(source) ==> Apart(target)
    {
      ghost var before := target;
      target := ClearOne(rs[i], target);
      if neat {
        forall b ensures Covers(target, b) <==> Covers(source, b) && !Covers(rs[..i + 1], b) {
          CoversNext(rs, i, b);
        }
      }
      if |target| == 0 {
        CoversPrefix(rs, i + 1);
        assert forall b :: !Covers(target, b);
        break;
      }
    }
    assert |target| > 0 ==> rs[..|rs|] == rs;
  }

  lemma CoversPrefix(rs: seq<Region>, i: nat)
    requires i <= |rs|
    ensures forall b :: Covers(rs[..i], b) ==> Covers(rs, b)
  {
    forall b | Covers(rs[..i], b) ensures Covers(rs, b) {
      var k :| 0 <= k < i && In(b, rs[..i][k]);
      assert rs[k] == rs[..i][k];
    }
  }

  // ----- Gaps -----

  /** Ordered by offset, and each ends before the next begins. */
  predicate Ordered(rs: seq<Region>) {
    forall i, j | 0 <= i < j < |rs| :: rs[i].offset + rs[i].size <= rs[j].offset
  }

  /** What the loop makes of the part not yet covered and the regions still to come. */
  function Gaps(uncovered: Region, rgs: seq<Region>): seq<Region>
    decreases |rgs|
  {
    if uncovered.size <= 0 then []
    else if rgs == [] then [uncovered]
    else if rgs[0].offset <= uncovered.offset then Gaps(Shrunk(uncovered, rgs[0]), rgs[1..])
    else [Region(uncovered.offset, rgs[0].offset - uncovered.offset)] + Gaps(Shrunk(uncovered, rgs[0]), rgs[1..])
  }

  /** The uncovered part begins where the region ends, and still ends where it did. */
  function Shrunk(uncovered: Region, g: Region): Region {
    Region(g.offset + g.size, uncovered.offset + uncovered.size - (g.offset + g.size))
  }

  /** The loop itself, whatever the list. */
  method DiffPartition(r1: Region, rgs: seq<Region>) returns (res: seq<Region>)
    ensures res == Gaps(r1, rgs)
  {
    res := [];
    var uncovered := r1;
    for i := 0 to |rgs|
      invariant res + Gaps(uncovered, rgs[i..]) == Gaps(r1, rgs)
      invariant uncovered.offset + uncovered.size == r1.offset + r1.size
    {
      if uncovered.size <= 0 {
        assert res + [] == res;
        break;
      }
      var g := rgs[i];
      assert rgs[i..][1..] == rgs[i + 1..];
      if g.offset == uncovered.offset {
        uncovered := Region(uncovered.offset + g.size, uncovered.size - g.size);
      } else if g.offset < uncovered.offset {
        uncovered := Region(g.offset + g.size, uncovered.size - (g.offset + g.size - uncovered.offset));
      } else {
        var r := Region(uncovered.offset, g.offset - uncovered.offset);
        res := res + [r];
        uncovered := Region(g.offset + g.size, uncovered.size - (r.size + g.size));
      }
    }
    if uncovered.size > 0 {
      res := res + [uncovered];
    }
  }

  lemma CoversFirst(rs: seq<Region>, b: int)
    requires rs != []
    ensures Covers(rs, b) <==> In(b, rs[0]) || Covers(rs[1..], b)
  {
    assert rs == [rs[0]] + rs[1..];
    CoversAppend([rs[0]], rs[1..], b);
    CoversOne(rs[0], b);
  }

  // ----- When the gaps are exact -----

  function End(r: Region): int {
    r.offset + r.size
  }

  /** What the comment on the original asks for: sorted by offset, every member meeting the region. */
  predicate Stated(r1: Region, rgs: seq<Region>) {
    && (forall i, j | 0 <= i < j < |rgs| :: rgs[i].offset <= rgs[j].offset)
    && (forall i | 0 <= i < |rgs| :: rgs[i].offset < End(r1) && r1.offset < End(rgs[i]))
  }

  /** The loop comes to member `i`: no earlier one ends at or past the end of the region. */
  predicate Processed(r1: Region, rgs: seq<Region>, i: nat)
    requires i <= |rgs|
  {
    forall j | 0 <= j < i :: End(rgs[j]) < End(r1)
  }

  /** Member `i` ends at or past all earlier ends, or the next member starts at or before its end. */
  predicate Advances(rgs: seq<Region>, i: nat)
    requires i < |rgs|
  {
    (forall j | 0 <= j < i :: End(rgs[j]) <= End(rgs[i])) || (i + 1 < |rgs| && rgs[i + 1].offset <= End(rgs[i]))
  }

  predicate NoRelapse(r1: Region, rgs: seq<Region>) {
    forall i | 0 <= i < |rgs| && Processed(r1, rgs, i) :: Advances(rgs, i)
  }

  /** The gaps are the bits of the region that the list leaves uncovered. */
  ghost predicate GapsAreUncovered(r1: Region, rgs: seq<Region>) {
    forall b :: Covers(Gaps(r1, rgs), b) <==> In(b, r1) && !Covers(rgs, b)
  }

  lemma GapsUnfold(r1: Region, rgs: seq<Region>, b: int)
    ensures r1.size <= 0 ==> !Covers(Gaps(r1, rgs), b)
    ensures r1.size > 0 && rgs == [] ==> (Covers(Gaps(r1, rgs), b) <==> In(b, r1))
    ensures r1.size > 0 && rgs != [] ==>
      (Covers(Gaps(r1, rgs), b) <==> r1.offset <= b < rgs[0].offset || Covers(Gaps(Shrunk(r1, rgs[0]), rgs[1..]), b))
  {
    if r1.size > 0 && rgs == [] {
      CoversOne(r1, b);
    } else if r1.size > 0 && rgs[0].offset > r1.offset {
      CoversFirst(Gaps(r1, rgs), b);
    }
  }

  /** No uncovered bit is ever lost, sorted or not. */
  lemma {:induction false} GapsComplete(r1: Region, rgs: seq<Region>, b: int)
    requires In(b, r1) && !Covers(rgs, b)
    ensures Covers(Gaps(r1, rgs), b)
    decreases |rgs|
  {
    GapsUnfold(r1, rgs, b);
    if rgs != [] {
      CoversFirst(rgs, b);
      if !(r1.offset <= b < rgs[0].offset) {
        GapsComplete(Shrunk(r1, rgs[0]), rgs[1..], b);
      }
    }
  }

  /** Gaps stay inside the region. */
  lemma {:induction false} GapsInside(u: Region, rgs: seq<Region>, low: int, end: int, b: int)
    requires End(u) == end && low <= u.offset
    requires forall i | 0 <= i < |rgs| :: rgs[i].offset < end && low < End(rgs[i])
    ensures Covers(Gaps(u, rgs), b) ==> low <= b < end
    decreases |rgs|
  {
    GapsUnfold(u, rgs, b);
    if rgs != [] {
      GapsInside(Shrunk(u, rgs[0]), rgs[1..], low, end, b);
    }
  }

  /** Where the loop stands after `i` members. */
  function Remaining(r1: Region, rgs: seq<Region>, i: nat): Region
    requires i <= |rgs|
  {
    if i == 0 then r1 else Region(End(rgs[i - 1]), End(r1) - End(rgs[i - 1]))
  }

  /** The gap before member `i`, or after the last, holds no covered bit when member `i - 1` advances. */
  lemma GapHoldsNothing(r1: Region, rgs: seq<Region>, i: nat, b: int)
    requires AllProper(rgs) && Stated(r1, rgs) && i <= |rgs| && (i > 0 ==> Advances(rgs, i - 1)) && Covers(rgs, b)
    ensures i < |rgs| ==> !(Remaining(r1, rgs, i).offset <= b < rgs[i].offset)
    ensures i == |rgs| ==> b < Remaining(r1, rgs, i).offset
  {
    var k :| 0 <= k < |rgs| && In(b, rgs[k]);
    if i > 0 {
      assert k < i && (i == |rgs| || End(rgs[i - 1]) < rgs[i].offset) ==> End(rgs[k]) <= End(rgs[i - 1]);
    }
  }

  /** Once the loop has come to member `i`, no covered bit is in the gaps still to come. */
  lemma {:induction false} GapsSound(r1: Region, rgs: seq<Region>, i: nat, b: int)
    requires AllProper(rgs) && Stated(r1, rgs) && NoRelapse(r1, rgs) && i <= |rgs|
    requires Processed(r1, rgs, i) && (i > 0 ==> Advances(rgs, i - 1))
    requires Covers(rgs, b)
    ensures !Covers(Gaps(Remaining(r1, rgs, i), rgs[i..]), b)
    decreases |rgs| - i
  {
    hide Covers, Gaps, AllProper, Stated, Advances;
    var u := Remaining(r1, rgs, i);
    GapsUnfold(u, rgs[i..], b);
    GapHoldsNothing(r1, rgs, i, b);
    if i < |rgs| {
      assert rgs[i..][1..] == rgs[i + 1..];
      if End(rgs[i]) < End(r1) {
        GapsSound(r1, rgs, i + 1, b);
      } else {
        GapsUnfold(Shrunk(u, rgs[i]), rgs[i + 1..], b);
      }
    }
  }

  lemma {:induction false} GapsContainRest(r1: Region, rgs: seq<Region>, i: nat, b: int)
    requires i <= |rgs| && Proper(r1) && Processed(r1, rgs, i) && Covers(Gaps(Remaining(r1, rgs, i), rgs[i..]), b)
    ensures Covers(Gaps(r1, rgs), b)
    decreases i
  {
    if i == 0 {
      assert rgs[0..] == rgs;
    } else {
      var u := Remaining(r1, rgs, i - 1);
      assert rgs[i - 1..][1..] == rgs[i..];
      GapsUnfold(u, rgs[i - 1..], b);
      GapsContainRest(r1, rgs, i - 1, b);
    }
  }

  /**
   For a list as the comment asks, the gaps are exact if and only if every member the loop
   comes to ends at or past all earlier ends, or the next one starts at or before its end.
   */
  lemma GapsExactlyWhen(r1: Region, rgs: seq<Region>)
    requires Proper(r1) && AllProper(rgs) && Stated(r1, rgs)
    ensures GapsAreUncovered(r1, rgs) <==> NoRelapse(r1, rgs)
  {
    assert rgs[0..] == rgs;
    if NoRelapse(r1, rgs) {
      forall b ensures Covers(Gaps(r1, rgs), b) <==> In(b, r1) && !Covers(rgs, b) {
        GapsInside(r1, rgs, r1.offset, End(r1), b);
        if Covers(rgs, b) {
          GapsSound(r1, rgs, 0, b);
        } else if In(b, r1) {
          GapsComplete(r1, rgs, b);
        }
      }
    } else {
      var i :| 0 <= i < |rgs| && Processed(r1, rgs, i) && !Advances(rgs, i);
      RelapseReappears(r1, rgs, i);
    }
  }

  /** A member that ends before an earlier one, with no member following on, brings covered bits back. */
  lemma RelapseReappears(r1: Region, rgs: seq<Region>, i: nat)
    requires Proper(r1) && AllProper(rgs) && Stated(r1, rgs) && i < |rgs| && Processed(r1, rgs, i) && !Advances(rgs, i)
    ensures Covers(Gaps(r1, rgs), End(rgs[i])) && Covers(rgs, End(rgs[i]))
  {
    var j :| 0 <= j < i && End(rgs[j]) > End(rgs[i]);
    var b := End(rgs[i]);
    assert In(b, rgs[j]);
    GapsUnfold(Remaining(r1, rgs, i + 1), rgs[i + 1..], b);
    GapsContainRest(r1, rgs, i + 1, b);
  }

  lemma OrderedAdvances(r1: Region, rgs: seq<Region>)
    requires AllProper(rgs) && Ordered(rgs)
    ensures NoRelapse(r1, rgs)
  {}

  /** The gaps themselves are in order, and none begins before the region. */
  lemma {:induction false} GapsOrdered(r1: Region, rgs: seq<Region>)
    requires r1.offset >= 0 && AllProper(rgs) && Ordered(rgs)
    requires forall i | 0 <= i < |rgs| :: r1.offset < End(rgs[i])
    ensures AllProper(Gaps(r1, rgs)) && Ordered(Gaps(r1, rgs))
    ensures forall i | 0 <= i < |Gaps(r1, rgs)| :: r1.offset <= Gaps(r1, rgs)[i].offset
    decreases |rgs|
  {
    if r1.size > 0 && rgs != [] {
      GapsOrdered(Shrunk(r1, rgs[0]), rgs[1..]);
    }
  }

  /** When the list is sorted and disjoint and meets the region, the gaps are its uncovered bits, in order. */
  lemma GapsExact(r1: Region, rgs: seq<Region>)
    requires r1.offset >= 0 && AllProper(rgs) && Ordered(rgs)
    requires forall i | 0 <= i < |rgs| :: rgs[i].offset < End(r1) && r1.offset < End(rgs[i])
    ensures AllProper(Gaps(r1, rgs)) && Ordered(Gaps(r1, rgs))
    ensures forall i | 0 <= i < |Gaps(r1, rgs)| :: r1.offset <= Gaps(r1, rgs)[i].offset
    ensures GapsAreUncovered(r1, rgs)
  {
    GapsOrdered(r1, rgs);
    if r1.size > 0 {
      hide Gaps, Covers, NoRelapse, GapsAreUncovered;
      assert Stated(r1, rgs) by {
        forall i, j | 0 <= i < j < |rgs| ensures rgs[i].offset <= rgs[j].offset {
          assert rgs[i].offset < End(rgs[i]) <= rgs[j].offset;
        }
      }
      OrderedAdvances(r1, rgs);
      GapsExactlyWhen(r1, rgs);
    }
  }

  /** A member nested in an earlier one, with none following on, brings covered bits back. */
  lemma NestedReappears()
    ensures var r1, rgs := Region(0, 10), [Region(0, 8), Region(2, 2)];
      && Stated(r1, rgs) && !NoRelapse(r1, rgs)
      && Gaps(r1, rgs) == [Region(4, 6)] && Covers(Gaps(r1, rgs), 5) && Covers(rgs, 5)
  {
    var r1, rgs := Region(0, 10), [Region(0, 8), Region(2, 2)];
    assert End(rgs[0]) > End(rgs[1]);
    assert Processed(r1, rgs, 1) && !Advances(rgs, 1);
    assert rgs[1..] == [Region(2, 2)] && rgs[1..][1..] == [];
    assert Gaps(Region(4, 6), []) == [Region(4, 6)];
    assert Gaps(Region(8, 2), rgs[1..]) == [Region(4, 6)];
    assert In(5, [Region(4, 6)][0]) && In(5, rgs[0]);
  }

  /** Members that overlap and go on past each other are handled right. */
  lemma OverlapHandled()
    ensures var r1, rgs := Region(0, 10), [Region(0, 4), Region(2, 4)];
      Stated(r1, rgs) && !Ordered(rgs) && GapsAreUncovered(r1, rgs)
  {
    hide Covers, Gaps, GapsAreUncovered;
    var r1, rgs := Region(0, 10), [Region(0, 4), Region(2, 4)];
    assert rgs[0].offset + rgs[0].size > rgs[1].offset;
    assert Stated(r1, rgs) && AllProper(rgs) && NoRelapse(r1, rgs);
    GapsExactlyWhen(r1, rgs);
  }
}
