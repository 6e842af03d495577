/**
 Finding the objects a pointer can lie in (klee/lib/Core/AddressSpace.cpp:58-292,
 bounds expressions in klee/lib/Core/Memory.h:122-154).

 The objects of an address space are given as the sequence that iterating over its
 address-ordered map yields; the balanced tree behind the map is not part of this model.
 */
module Resolution {
  import opened Arithmetic
  import opened CopyOnWrite
  import opened Exprs
  import opened Options
  import opened Sequences
  import opened Solvers

  const ADDRESS_LIMIT: nat := 0x1_0000_0000_0000_0000

  function BaseExpr(mo: MemoryObject): Expr {
    Const(mo.address, INT64)
  }

  function OffsetExpr(mo: MemoryObject, pointer: Expr): Expr {
    Bin(Sub, pointer, BaseExpr(mo))
  }

  /** `getBoundsCheckPointer(pointer)`: the pointer lies in the object. */
  function BoundsCheck(mo: MemoryObject, pointer: Expr): Expr {
    if mo.size == 0 then Cmp(Eq, OffsetExpr(mo, pointer), Const(0, INT64))
    else Cmp(Ult, OffsetExpr(mo, pointer), Const(mo.size, INT64))
  }

  /** `getBoundsCheckPointer(pointer, bytes)`: an access of that many bytes lies in the object. */
  function AccessCheck(mo: MemoryObject, pointer: Expr, bytes: nat): Expr {
    if bytes <= mo.size then Cmp(Ult, OffsetExpr(mo, pointer), Const(mo.size - bytes + 1, INT64))
    else FALSE_EXPR
  }

  predicate Contains(mo: MemoryObject, address: nat) {
    if mo.size == 0 then address == mo.address else mo.address <= address < mo.address + mo.size
  }

  /** A non-empty access from `address` on lies in the object. */
  predicate ContainsAccess(mo: MemoryObject, address: nat, bytes: nat) {
    mo.address <= address && address + bytes <= mo.address + mo.size
  }

  /** Sizes are 32-bit and no object runs past the end of memory. */
  predicate Allocated(mo: MemoryObject) {
    mo.size < 0x1_0000_0000 && mo.address < ADDRESS_LIMIT && mo.address + mo.size <= ADDRESS_LIMIT
  }

  /** Objects in address order, without overlap; no empty object lies inside or at the start of another. */
  ghost predicate Layout(objects: seq<MemoryObject>) {
    && (forall mo <- objects :: Allocated(mo))
    && (forall i, j | 0 <= i < j < |objects| ::
          objects[i].address < objects[j].address && objects[i].address + objects[i].size <= objects[j].address)
  }

  predicate IsPointer(p: Expr) {
    WellFormed(p) && Width(p) == INT64
  }

  // ----- What the bounds expressions mean -----

  lemma Pow2Pointer()
    ensures Pow2(64) == ADDRESS_LIMIT
  {
    assert Pow2(4) == 16;
    Pow2Add(4, 4);
    Pow2Add(8, 8);
    Pow2Add(16, 16);
    Pow2Add(32, 32);
  }

  lemma ConstValue(value: nat, a: Assignment)
    requires value < ADDRESS_LIMIT
    ensures Eval(Const(value, INT64), a) == value
  {
    Pow2Pointer();
    Small(value, ADDRESS_LIMIT);
  }

  /** The offset wraps around below the base. */
  lemma OffsetValue(mo: MemoryObject, p: Expr, a: Assignment)
    requires IsPointer(p) && Allocated(mo)
    ensures Eval(p, a) < ADDRESS_LIMIT
    ensures Eval(OffsetExpr(mo, p), a) ==
      if mo.address <= Eval(p, a) then Eval(p, a) - mo.address else Eval(p, a) - mo.address + ADDRESS_LIMIT
  {
    hide Eval, Pow2;
    Pow2Pointer();
    EvalBound(p, a);
    ConstValue(mo.address, a);
    BinMeans(Sub, p, BaseExpr(mo), a);
    var d := Eval(p, a) - mo.address;
    if mo.address <= Eval(p, a) {
      Small(d, ADDRESS_LIMIT);
    } else {
      Quotient(d, ADDRESS_LIMIT, -1, d + ADDRESS_LIMIT);
    }
  }

  lemma ChecksAreBool(mo: MemoryObject, p: Expr, bytes: nat)
    requires IsPointer(p)
    ensures IsBool(BoundsCheck(mo, p)) && IsBool(AccessCheck(mo, p, bytes))
  {
    assert WellFormed(OffsetExpr(mo, p));
    assert forall n :: WellFormed(Const(n, INT64));
  }

  lemma BoundsCheckMeans(mo: MemoryObject, p: Expr, a: Assignment)
    requires IsPointer(p) && Allocated(mo)
    ensures IsTrue(BoundsCheck(mo, p), a) <==> Contains(mo, Eval(p, a))
  {
    hide Eval, IsTrue;
    OffsetValue(mo, p, a);
    ConstValue(mo.size, a);
    CompareMeans(if mo.size == 0 then Eq else Ult, OffsetExpr(mo, p), Const(mo.size, INT64), a);
  }

  lemma AccessCheckMeans(mo: MemoryObject, p: Expr, bytes: nat, a: Assignment)
    requires IsPointer(p) && Allocated(mo) && 0 < bytes
    ensures IsTrue(AccessCheck(mo, p, bytes), a) <==> ContainsAccess(mo, Eval(p, a), bytes)
  {
    FalseMeans(a);
    hide Eval, IsTrue;
    OffsetValue(mo, p, a);
    if bytes <= mo.size {
      ConstValue(mo.size - bytes + 1, a);
      CompareMeans(Ult, OffsetExpr(mo, p), Const(mo.size - bytes + 1, INT64), a);
    }
  }

  lemma FalseMeans(a: Assignment)
    ensures !IsTrue(FALSE_EXPR, a)
  {}

  lemma OrderMeans(cmp: CmpOp, mo: MemoryObject, p: Expr, a: Assignment)
    requires IsPointer(p) && Allocated(mo)
    ensures IsTrue(Cmp(cmp, p, BaseExpr(mo)), a) <==> Compare(cmp, INT64, Eval(p, a), mo.address)
  {
    hide Eval, IsTrue;
    ConstValue(mo.address, a);
    CompareMeans(cmp, p, BaseExpr(mo), a);
  }

  // ----- Feasible objects -----

  /** Some assignment satisfying the constraints puts the pointer in the object. */
  ghost predicate Feasible(constraints: seq<Expr>, p: Expr, mo: MemoryObject) {
    exists a :: Sat(constraints, a) && Contains(mo, Eval(p, a))
  }

  /** Every assignment satisfying the constraints puts the pointer in the object. */
  ghost predicate Inside(constraints: seq<Expr>, p: Expr, mo: MemoryObject) {
    forall a :: Sat(constraints, a) ==> Contains(mo, Eval(p, a))
  }

  lemma InBoundsQueries(solver: Solver, constraints: seq<Expr>, p: Expr, mo: MemoryObject)
    requires solver.Sound() && Satisfiable(constraints) && IsPointer(p) && Allocated(mo)
    ensures var q := BoundsCheck(mo, p);
      && (solver.MayBeTrue(constraints, q).Some? ==>
            (solver.MayBeTrue(constraints, q).value <==> Feasible(constraints, p, mo)))
      && (solver.MustBeTrue(constraints, q).Some? ==>
            (solver.MustBeTrue(constraints, q).value <==> Inside(constraints, p, mo)))
  {
    var q := BoundsCheck(mo, p);
    ChecksAreBool(mo, p, 0);
    hide IsTrue, BoundsCheck, Contains, IsBool;
    forall a ensures IsTrue(q, a) <==> Contains(mo, Eval(p, a)) {
      BoundsCheckMeans(mo, p, a);
    }
    solver.MayBeTrueMeans(constraints, q);
    solver.MustBeTrueMeans(constraints, q);
  }

  /** A pointer at or past an object's base cannot lie in any earlier object. */
  lemma NothingBelow(solver: Solver, constraints: seq<Expr>, p: Expr, objects: seq<MemoryObject>, i: nat)
    requires solver.Sound() && Satisfiable(constraints) && IsPointer(p) && Layout(objects) && i < |objects|
    requires solver.MustBeTrue(constraints, Cmp(Uge, p, BaseExpr(objects[i]))) == Some(true)
    ensures forall j | 0 <= j < i :: !Feasible(constraints, p, objects[j])
  {
    solver.MustBeTrueMeans(constraints, Cmp(Uge, p, BaseExpr(objects[i])));
    forall j, a | 0 <= j < i && Sat(constraints, a) ensures !Contains(objects[j], Eval(p, a)) {
      OrderMeans(Uge, objects[i], p, a);
    }
  }

  /** A pointer below an object's base cannot lie in it or in any later object. */
  lemma NothingAbove(solver: Solver, constraints: seq<Expr>, p: Expr, objects: seq<MemoryObject>, i: nat)
    requires solver.Sound() && Satisfiable(constraints) && IsPointer(p) && Layout(objects) && i < |objects|
    requires solver.MustBeTrue(constraints, Cmp(Ult, p, BaseExpr(objects[i]))) == Some(true)
    ensures forall j | i <= j < |objects| :: !Feasible(constraints, p, objects[j])
  {
    solver.MustBeTrueMeans(constraints, Cmp(Ult, p, BaseExpr(objects[i])));
    forall j, a | i <= j < |objects| && Sat(constraints, a) ensures !Contains(objects[j], Eval(p, a)) {
      OrderMeans(Ult, objects[i], p, a);
    }
  }

  /** A pointer always inside one object cannot lie in another. */
  lemma InsideExcludes(constraints: seq<Expr>, p: Expr, objects: seq<MemoryObject>, i: nat)
    requires Layout(objects) && i < |objects| && Inside(constraints, p, objects[i])
    ensures forall j | 0 <= j < |objects| && j != i :: !Feasible(constraints, p, objects[j])
  {}

  lemma InsideMeans(mo: MemoryObject, address: nat)
    requires mo.address <= address && address - mo.address < mo.size
    ensures Contains(mo, address)
  {}

  lemma ConcreteFeasible(constraints: seq<Expr>, p: Expr)
    requires p.Const? && Satisfiable(constraints)
    ensures forall mo :: Feasible(constraints, p, mo) <==> Contains(mo, p.value % Pow2(p.bits))
  {}

  lemma ExampleIsFeasible(solver: Solver, constraints: seq<Expr>, p: Expr, mo: MemoryObject)
    requires solver.Sound() && !p.Const? && solver.GetValue(constraints, p).Some?
    requires Contains(mo, solver.GetValue(constraints, p).value)
    ensures Feasible(constraints, p, mo)
  {}

  lemma LayoutAllocated(objects: seq<MemoryObject>)
    requires Layout(objects)
    ensures forall i | 0 <= i < |objects| :: Allocated(objects[i])
  {}

  // ----- The searches -----

  /** How many objects start at or below the address: where `upper_bound` points. */
  function UpperBound(objects: seq<MemoryObject>, address: nat): (k: nat)
    requires Layout(objects)
    ensures k <= |objects|
    ensures forall i | 0 <= i < k :: objects[i].address <= address
    ensures forall i | k <= i < |objects| :: address < objects[i].address
  {
    if objects == [] || address < objects[0].address then 0 else 1 + UpperBound(objects[1..], address)
  }

  /** Resolves a concrete address: the object containing it, if there is one. */
  method ResolveOneConcrete(objects: seq<MemoryObject>, address: nat) returns (result: Option<MemoryObject>)
    requires Layout(objects)
    ensures result.Some? ==> result.value in objects && Contains(result.value, address)
    ensures result.None? ==> forall mo <- objects :: !Contains(mo, address)
  {
    var k := UpperBound(objects, address);
    if k > 0 {
      var mo := objects[k - 1];
      if (mo.size == 0 && address == mo.address) || address - mo.address < mo.size {
        return Some(mo);
      }
      assert forall i | 0 <= i < k - 1 :: !Contains(objects[i], address);
    }
    return None;
  }

  lemma AllAnswered(solver: Solver, constraints: seq<Expr>, p: Expr)
    requires Answers(solver, constraints, p)
    ensures solver.GetValue(constraints, p).Some?
    ensures forall q :: solver.MustBeTrue(constraints, q).Some? && solver.MayBeTrue(constraints, q).Some?
  {
    AnswersValue(solver, constraints, p);
    forall q ensures solver.MustBeTrue(constraints, q).Some? && solver.MayBeTrue(constraints, q).Some? {
      AnswersBounds(solver, constraints, p, q);
    }
  }

  /**
   Resolves a pointer to one feasible object. `answered` is false when a query timed out;
   otherwise failure means that no object is feasible. A concrete pointer needs no query.
   */
  method ResolveOne(solver: Solver, constraints: seq<Expr>, address: Expr, objects: seq<MemoryObject>)
    returns (answered: bool, result: Option<MemoryObject>)
    requires solver.Sound() && IsPointer(address) && Layout(objects) && Satisfiable(constraints)
    ensures answered && result.Some? ==> result.value in objects && Feasible(constraints, address, result.value)
    ensures answered && result.None? ==> forall mo <- objects :: !Feasible(constraints, address, mo)
    ensures address.Const? || Answers(solver, constraints, address) ==>
              answered && (result.Some? <==> exists mo <- objects :: Feasible(constraints, address, mo))
  {
    hide *;
    LayoutAllocated(objects);
    if Answers(solver, constraints, address) {
      AllAnswered(solver, constraints, address);
    }
    if address.Const? {
      result := ResolveOneConcrete(objects, address.value % Pow2(address.bits));
      ConcreteFeasible(constraints, address);
      return true, result;
    }
    var cex := solver.GetValue(constraints, address);
    if cex.None? {
      return false, None;
    }
    var example := cex.value;
    var start := UpperBound(objects, example);
    if start > 0 {
      var mo := objects[start - 1];
      if example - mo.address < mo.size {
        InsideMeans(mo, example);
        ExampleIsFeasible(solver, constraints, address, mo);
        return true, Some(mo);
      }
    }
    var oi := start;
    while oi != 0
      invariant 0 <= oi <= start
      invariant forall j | oi <= j < start :: !Feasible(constraints, address, objects[j])
    {
      oi := oi - 1;
      var mo := objects[oi];
      InBoundsQueries(solver, constraints, address, mo);
      var mayBeTrue := solver.MayBeTrue(constraints, BoundsCheck(mo, address));
      if mayBeTrue.None? {
        return false, None;
      }
      if mayBeTrue.value {
        return true, Some(mo);
      }
      var mustBeTrue := solver.MustBeTrue(constraints, Cmp(Uge, address, BaseExpr(mo)));
      if mustBeTrue.None? {
        return false, None;
      }
      if mustBeTrue.value {
        NothingBelow(solver, constraints, address, objects, oi);
        break;
      }
    }
    assert forall j | 0 <= j < start :: !Feasible(constraints, address, objects[j]);
    oi := start;
    while oi != |objects|
      invariant start <= oi <= |objects|
      invariant forall j | 0 <= j < oi :: !Feasible(constraints, address, objects[j])
    {
      var mo := objects[oi];
      var mustBeTrue := solver.MustBeTrue(constraints, Cmp(Ult, address, BaseExpr(mo)));
      if mustBeTrue.None? {
        return false, None;
      }
      if mustBeTrue.value {
        NothingAbove(solver, constraints, address, objects, oi);
        break;
      }
      InBoundsQueries(solver, constraints, address, mo);
      var mayBeTrue := solver.MayBeTrue(constraints, BoundsCheck(mo, address));
      if mayBeTrue.None? {
        return false, None;
      }
      if mayBeTrue.value {
        return true, Some(mo);
      }
      oi := oi + 1;
    }
    return true, None;
  }

  /** The feasible objects among `objects[lo..hi]`, from the highest down. */
  ghost function HitsDown(constraints: seq<Expr>, p: Expr, objects: seq<MemoryObject>, lo: nat,
                          hi: nat): seq<MemoryObject>
    requires lo <= hi <= |objects|
    decreases hi - lo
  {
    if lo == hi then [] else
    HitsDown(constraints, p, objects, lo + 1, hi) +
      if Feasible(constraints, p, objects[lo]) then [objects[lo]] else []
  }

  /** The feasible objects among `objects[lo..hi]`, from the lowest up. */
  ghost function HitsUp(constraints: seq<Expr>, p: Expr, objects: seq<MemoryObject>, lo: nat,
                        hi: nat): seq<MemoryObject>
    requires lo <= hi <= |objects|
  {
    if lo == hi then [] else
    HitsUp(constraints, p, objects, lo, hi - 1) +
      if Feasible(constraints, p, objects[hi - 1]) then [objects[hi - 1]] else []
  }

  ghost function Hits(constraints: seq<Expr>, p: Expr, objects: seq<MemoryObject>, start: nat): seq<MemoryObject>
    requires start <= |objects|
  {
    HitsDown(constraints, p, objects, 0, start) + HitsUp(constraints, p, objects, start, |objects|)
  }

  lemma NothingTwice(s: seq<MemoryObject>)
    requires |s| <= 1
    ensures NoDuplicates(s)
  {}

  lemma {:induction false} HitsDownAre(constraints: seq<Expr>, p: Expr, objects: seq<MemoryObject>, lo: nat, hi: nat)
    requires Layout(objects) && lo <= hi <= |objects|
    ensures var hits := HitsDown(constraints, p, objects, lo, hi);
      && NoDuplicates(hits)
      && (forall mo <- hits :: Feasible(constraints, p, mo) && exists j | lo <= j < hi :: objects[j] == mo)
      && (forall j | lo <= j < hi && Feasible(constraints, p, objects[j]) :: objects[j] in hits)
    decreases hi - lo
  {
    hide Layout, Feasible, NoDuplicates;
    NothingTwice([]);
    if lo < hi {
      HitsDownAre(constraints, p, objects, lo + 1, hi);
      var rest, mo := HitsDown(constraints, p, objects, lo + 1, hi), objects[lo];
      forall x | x in rest ensures x != mo {
        var j :| lo <= j < hi && j != lo && objects[j] == x;
        PlacesDiffer(objects, if j < lo then j else lo, if j < lo then lo else j);
      }
      NothingTwice([mo]);
      NoDuplicatesConcat(rest, [mo]);
      assert rest + [] == rest;
    }
  }

  lemma {:induction false} HitsUpAre(constraints: seq<Expr>, p: Expr, objects: seq<MemoryObject>, lo: nat, hi: nat)
    requires Layout(objects) && lo <= hi <= |objects|
    ensures var hits := HitsUp(constraints, p, objects, lo, hi);
      && NoDuplicates(hits)
      && (forall mo <- hits :: Feasible(constraints, p, mo) && exists j | lo <= j < hi :: objects[j] == mo)
      && (forall j | lo <= j < hi && Feasible(constraints, p, objects[j]) :: objects[j] in hits)
    decreases hi - lo
  {
    hide Layout, Feasible, NoDuplicates;
    NothingTwice([]);
    if lo < hi {
      HitsUpAre(constraints, p, objects, lo, hi - 1);
      var rest, mo := HitsUp(constraints, p, objects, lo, hi - 1), objects[hi - 1];
      forall x | x in rest ensures x != mo {
        var j :| lo <= j < hi && j != hi - 1 && objects[j] == x;
        PlacesDiffer(objects, if j < hi - 1 then j else hi - 1, if j < hi - 1 then hi - 1 else j);
      }
      NothingTwice([mo]);
      NoDuplicatesConcat(rest, [mo]);
      assert rest + [] == rest;
    }
  }

  lemma PlacesDiffer(objects: seq<MemoryObject>, i: nat, j: nat)
    requires Layout(objects) && i < j < |objects|
    ensures objects[i] != objects[j]
  {}

  /** The hits are the feasible objects, each once, wherever the search starts. */
  lemma HitsAre(constraints: seq<Expr>, p: Expr, objects: seq<MemoryObject>, start: nat)
    requires Layout(objects) && start <= |objects|
    ensures NoDuplicates(Hits(constraints, p, objects, start))
    ensures forall mo :: mo in Hits(constraints, p, objects, start) <==> mo in objects && Feasible(constraints, p, mo)
  {
    hide HitsDown, HitsUp, Feasible, Layout, NoDuplicates;
    HitsDownAre(constraints, p, objects, 0, start);
    HitsUpAre(constraints, p, objects, start, |objects|);
    var down := HitsDown(constraints, p, objects, 0, start);
    var up := HitsUp(constraints, p, objects, start, |objects|);
    forall x, y | x in down && y in up ensures x != y {
      var i :| 0 <= i < start && objects[i] == x;
      var j :| start <= j < |objects| && objects[j] == y;
      PlacesDiffer(objects, i, j);
    }
    NoDuplicatesConcat(down, up);
  }

  lemma {:induction false} NoHitsDown(constraints: seq<Expr>, p: Expr, objects: seq<MemoryObject>, lo: nat, mid: nat,
                                      hi: nat)
    requires lo <= mid <= hi <= |objects|
    requires forall j | lo <= j < mid :: !Feasible(constraints, p, objects[j])
    ensures HitsDown(constraints, p, objects, lo, hi) == HitsDown(constraints, p, objects, mid, hi)
    decreases mid - lo
  {
    if lo < mid {
      NoHitsDown(constraints, p, objects, lo + 1, mid, hi);
    }
  }

  lemma {:induction false} NoHitsUp(constraints: seq<Expr>, p: Expr, objects: seq<MemoryObject>, lo: nat, mid: nat,
                                    hi: nat)
    requires lo <= mid <= hi <= |objects|
    requires forall j | mid <= j < hi :: !Feasible(constraints, p, objects[j])
    ensures HitsUp(constraints, p, objects, lo, hi) == HitsUp(constraints, p, objects, lo, mid)
    decreases hi - mid
  {
    if mid < hi {
      NoHitsUp(constraints, p, objects, lo, mid, hi - 1);
    }
  }

  lemma {:induction false} DownIsPrefix(constraints: seq<Expr>, p: Expr, objects: seq<MemoryObject>, lo: nat, mid: nat,
                                        hi: nat)
    requires lo <= mid <= hi <= |objects|
    ensures HitsDown(constraints, p, objects, mid, hi) <= HitsDown(constraints, p, objects, lo, hi)
    decreases mid - lo
  {
    if lo < mid {
      DownIsPrefix(constraints, p, objects, lo + 1, mid, hi);
    }
  }

  lemma {:induction false} UpIsPrefix(constraints: seq<Expr>, p: Expr, objects: seq<MemoryObject>, lo: nat, mid: nat,
                                      hi: nat)
    requires lo <= mid <= hi <= |objects|
    ensures HitsUp(constraints, p, objects, lo, mid) <= HitsUp(constraints, p, objects, lo, hi)
    decreases hi - mid
  {
    if mid < hi {
      UpIsPrefix(constraints, p, objects, lo, mid, hi - 1);
    }
  }

  /** A pointer always inside one object has that object as its only hit. */
  lemma OnlyHit(constraints: seq<Expr>, p: Expr, objects: seq<MemoryObject>, start: nat, i: nat)
    requires Layout(objects) && start <= |objects| && i < |objects|
    requires Satisfiable(constraints) && Inside(constraints, p, objects[i])
    ensures Hits(constraints, p, objects, start) == [objects[i]]
  {
    InsideExcludes(constraints, p, objects, i);
    assert Feasible(constraints, p, objects[i]);
    HitsAre(constraints, p, objects, start);
    forall mo ensures mo in Hits(constraints, p, objects, start) <==> mo == objects[i] {}
    NoDuplicatesSingle(Hits(constraints, p, objects, start), objects[i]);
  }

  /** Some object holds the pointer under every assignment. */
  ghost predicate SingleObject(constraints: seq<Expr>, p: Expr, objects: seq<MemoryObject>) {
    exists i :: 0 <= i < |objects| && Inside(constraints, p, objects[i])
  }

  /** The solver answers every query a resolution of `p` asks. */
  ghost predicate Answers(solver: Solver, constraints: seq<Expr>, p: Expr) {
    && solver.getValue(constraints, p).Some?
    && (forall q :: solver.mustBeTrue(constraints, q).Some?)
  }

  lemma AnswersResolution(solver: Solver, constraints: seq<Expr>, p: Expr)
    requires solver.Answers(constraints)
    ensures Answers(solver, constraints, p)
  {}

  /** The object before where a feasible example address points to is the one the pointer is always inside. */
  lemma ExampleFindsSingle(solver: Solver, constraints: seq<Expr>, p: Expr, objects: seq<MemoryObject>, example: nat)
    requires solver.Sound() && !p.Const? && Layout(objects) && solver.GetValue(constraints, p) == Some(example)
    requires SingleObject(constraints, p, objects)
    ensures UpperBound(objects, example) > 0
    ensures Inside(constraints, p, objects[UpperBound(objects, example) - 1])
  {
    var i :| 0 <= i < |objects| && Inside(constraints, p, objects[i]);
    var a :| Sat(constraints, a) && Eval(p, a) == example;
    assert Contains(objects[i], example);
    assert UpperBound(objects, example) == i + 1;
  }

  lemma NoHitsYet(constraints: seq<Expr>, p: Expr, objects: seq<MemoryObject>, start: nat)
    requires start <= |objects|
    ensures HitsDown(constraints, p, objects, start, start) == [] && HitsUp(constraints, p, objects, start, start) == []
  {}

  lemma DownStep(constraints: seq<Expr>, p: Expr, objects: seq<MemoryObject>, lo: nat, hi: nat)
    requires lo < hi <= |objects|
    ensures HitsDown(constraints, p, objects, lo, hi) ==
      if Feasible(constraints, p, objects[lo])
      then HitsDown(constraints, p, objects, lo + 1, hi) + [objects[lo]]
      else HitsDown(constraints, p, objects, lo + 1, hi)
    ensures HitsDown(constraints, p, objects, lo, hi) <= HitsDown(constraints, p, objects, 0, hi)
    ensures HitsDown(constraints, p, objects, lo + 1, hi) <= HitsDown(constraints, p, objects, 0, hi)
  {
    DownIsPrefix(constraints, p, objects, 0, lo, hi);
    DownIsPrefix(constraints, p, objects, 0, lo + 1, hi);
  }

  lemma UpStep(constraints: seq<Expr>, p: Expr, objects: seq<MemoryObject>, lo: nat, hi: nat)
    requires lo <= hi < |objects|
    ensures HitsUp(constraints, p, objects, lo, hi + 1) ==
      if Feasible(constraints, p, objects[hi])
      then HitsUp(constraints, p, objects, lo, hi) + [objects[hi]]
      else HitsUp(constraints, p, objects, lo, hi)
    ensures HitsUp(constraints, p, objects, lo, hi) <= HitsUp(constraints, p, objects, lo, |objects|)
    ensures HitsUp(constraints, p, objects, lo, hi + 1) <= HitsUp(constraints, p, objects, lo, |objects|)
  {
    UpIsPrefix(constraints, p, objects, lo, hi, |objects|);
    UpIsPrefix(constraints, p, objects, lo, hi + 1, |objects|);
  }

  lemma AnswersBounds(solver: Solver, constraints: seq<Expr>, p: Expr, q: Expr)
    requires Answers(solver, constraints, p)
    ensures solver.MustBeTrue(constraints, q).Some? && solver.MayBeTrue(constraints, q).Some?
  {
    solver.AnswersDerived(constraints, q);
  }

  lemma AnswersValue(solver: Solver, constraints: seq<Expr>, p: Expr)
    requires Answers(solver, constraints, p)
    ensures solver.GetValue(constraints, p).Some?
  {
    solver.AnswersDerived(constraints, p);
  }

  lemma InsideIsFeasible(constraints: seq<Expr>, p: Expr, mo: MemoryObject)
    requires Satisfiable(constraints) && Inside(constraints, p, mo)
    ensures Feasible(constraints, p, mo)
  {}

  /** Two live objects are feasible. */
  ghost predicate SeveralFeasible(constraints: seq<Expr>, p: Expr, objects: seq<MemoryObject>) {
    exists i, j ::
      0 <= i < j < |objects| && Feasible(constraints, p, objects[i]) && Feasible(constraints, p, objects[j])
  }

  lemma SeveralHits(constraints: seq<Expr>, p: Expr, objects: seq<MemoryObject>, start: nat)
    requires Layout(objects) && start <= |objects|
    ensures |Hits(constraints, p, objects, start)| <= 1 <==> !SeveralFeasible(constraints, p, objects)
  {
    hide Feasible, Hits, Layout, SeveralFeasible, NoDuplicates;
    HitsAre(constraints, p, objects, start);
    var hits := Hits(constraints, p, objects, start);
    if |hits| > 1 {
      assert hits[0] in hits && hits[1] in hits && hits[0] != hits[1] by { TwoDiffer(hits); }
      SomeTwo(constraints, p, objects, hits[0], hits[1]);
    }
    if SeveralFeasible(constraints, p, objects) {
      var i, j := TwoFeasible(constraints, p, objects);
      PlacesDiffer(objects, i, j);
      assert objects[i] in hits && objects[j] in hits && objects[i] != objects[j];
    }
  }

  lemma TwoDiffer(hits: seq<MemoryObject>)
    requires NoDuplicates(hits) && |hits| > 1
    ensures hits[0] != hits[1]
  {}

  lemma SomeTwo(constraints: seq<Expr>, p: Expr, objects: seq<MemoryObject>, x: MemoryObject, y: MemoryObject)
    requires x in objects && y in objects && x != y && Feasible(constraints, p, x) && Feasible(constraints, p, y)
    ensures SeveralFeasible(constraints, p, objects)
  {
    hide Feasible;
    var i :| 0 <= i < |objects| && objects[i] == x;
    var j :| 0 <= j < |objects| && objects[j] == y;
    assert i < j || j < i;
  }

  lemma TwoFeasible(constraints: seq<Expr>, p: Expr, objects: seq<MemoryObject>) returns (i: nat, j: nat)
    requires SeveralFeasible(constraints, p, objects)
    ensures i < j < |objects| && Feasible(constraints, p, objects[i]) && Feasible(constraints, p, objects[j])
  {
    hide Feasible;
    i, j :| 0 <= i < j < |objects| && Feasible(constraints, p, objects[i]) && Feasible(constraints, p, objects[j]);
  }

  /** How one direction of the search ended: it may continue in the other, or the result stands as it is. */
  datatype Progress = Continue | Finished | CutShort

  /** The two queries that decide whether an object is a hit and whether the first hit is the only one. */
  method TryObject(solver: Solver, constraints: seq<Expr>, p: Expr, size: nat, mo: MemoryObject, maxResolutions: nat)
    returns (progress: Progress, hit: bool, queries: nat)
    requires solver.Sound() && IsPointer(p) && Satisfiable(constraints) && Allocated(mo)
    ensures !progress.CutShort? ==> (hit <==> Feasible(constraints, p, mo))
    ensures hit ==> Feasible(constraints, p, mo)
    ensures progress.Finished? ==> hit && size == 0 && Inside(constraints, p, mo)
    ensures progress.Continue? && hit ==> size == 0 || size + 1 != maxResolutions
    ensures Answers(solver, constraints, p) && progress.CutShort? ==> hit && 0 < size && size + 1 == maxResolutions
    ensures size == 0 && Inside(constraints, p, mo) && Answers(solver, constraints, p) ==>
      progress.Finished? && queries == 2
  {
    InBoundsQueries(solver, constraints, p, mo);
    hide Solver.Sound, Feasible, Inside, BoundsCheck, IsPointer, Allocated;
    var mayBeTrue := solver.MayBeTrue(constraints, BoundsCheck(mo, p));
    if Answers(solver, constraints, p) {
      AnswersBounds(solver, constraints, p, BoundsCheck(mo, p));
    }
    if Inside(constraints, p, mo) {
      InsideIsFeasible(constraints, p, mo);
    }
    if mayBeTrue.None? {
      return CutShort, false, 1;
    }
    if !mayBeTrue.value {
      return Continue, false, 1;
    }
    if size == 0 {
      var mustBeTrue := solver.MustBeTrue(constraints, BoundsCheck(mo, p));
      return if mustBeTrue.None? then CutShort else if mustBeTrue.value then Finished else Continue, true, 2;
    }
    return if size + 1 == maxResolutions then CutShort else Continue, true, 1;
  }

  /** One object on the way down; `past` tells that no lower object can hold the pointer. */
  method LookDown(solver: Solver, constraints: seq<Expr>, p: Expr, size: nat, mo: MemoryObject, maxResolutions: nat,
                  late: bool)
    returns (progress: Progress, hit: bool, past: bool, queries: nat)
    requires solver.Sound() && IsPointer(p) && Satisfiable(constraints) && Allocated(mo)
    ensures progress.Continue? ==> (hit <==> Feasible(constraints, p, mo))
    ensures hit ==> Feasible(constraints, p, mo)
    ensures progress.Finished? ==> hit && size == 0 && Inside(constraints, p, mo)
    ensures progress.Continue? && hit ==> size == 0 || size + 1 != maxResolutions
    ensures progress.Continue? ==> (past <==> solver.MustBeTrue(constraints, Cmp(Uge, p, BaseExpr(mo))) == Some(true))
    ensures past ==> progress.Continue?
    ensures late ==> progress.CutShort? && !hit
    ensures Answers(solver, constraints, p) && !late && progress.CutShort? ==>
              hit && 0 < size && size + 1 == maxResolutions
    ensures size == 0 && Inside(constraints, p, mo) && Answers(solver, constraints, p) && !late ==>
              progress.Finished? && queries == 2
  {
    hide *;
    if late {
      return CutShort, false, false, 0;
    }
    progress, hit, queries := TryObject(solver, constraints, p, size, mo, maxResolutions);
    if !progress.Continue? {
      return progress, hit, false, queries;
    }
    var q := Cmp(Uge, p, BaseExpr(mo));
    if Answers(solver, constraints, p) {
      AnswersBounds(solver, constraints, p, q);
    }
    var mustBeTrue := solver.MustBeTrue(constraints, q);
    if mustBeTrue.None? {
      return CutShort, hit, false, queries + 1;
    }
    return Continue, hit, mustBeTrue.value, queries + 1;
  }

  /** One object on the way up; `past` tells that neither it nor any higher object can hold the pointer. */
  method LookUp(solver: Solver, constraints: seq<Expr>, p: Expr, size: nat, mo: MemoryObject, maxResolutions: nat,
                late: bool)
    returns (progress: Progress, hit: bool, past: bool, queries: nat)
    requires solver.Sound() && IsPointer(p) && Satisfiable(constraints) && Allocated(mo)
    ensures progress.Continue? && !past ==> (hit <==> Feasible(constraints, p, mo))
    ensures hit ==> Feasible(constraints, p, mo)
    ensures progress.Finished? ==> hit && size == 0 && Inside(constraints, p, mo)
    ensures progress.Continue? && hit ==> size == 0 || size + 1 != maxResolutions
    ensures past <==> !late && solver.MustBeTrue(constraints, Cmp(Ult, p, BaseExpr(mo))) == Some(true)
    ensures past ==> progress.Continue? && !hit
    ensures late ==> progress.CutShort? && !hit
    ensures Answers(solver, constraints, p) && !late && progress.CutShort? ==>
              hit && 0 < size && size + 1 == maxResolutions
  {
    hide *;
    if late {
      return CutShort, false, false, 0;
    }
    var q := Cmp(Ult, p, BaseExpr(mo));
    if Answers(solver, constraints, p) {
      AnswersBounds(solver, constraints, p, q);
    }
    var mustBeTrue := solver.MustBeTrue(constraints, q);
    if mustBeTrue.None? {
      return CutShort, false, false, 1;
    }
    if mustBeTrue.value {
      return Continue, false, true, 1;
    }
    progress, hit, queries := TryObject(solver, constraints, p, size, mo, maxResolutions);
    return progress, hit, false, queries + 1;
  }

  /** The part of `resolve` that walks down from the example's object; `size` hits are on the list already. */
  method SearchBackwards(solver: Solver, constraints: seq<Expr>, p: Expr, size: nat, objects: seq<MemoryObject>,
                         start: nat, maxResolutions: nat, expired: nat -> bool)
    returns (progress: Progress, hits: seq<MemoryObject>, queries: nat, looks: nat)
    requires solver.Sound() && IsPointer(p) && Layout(objects) && Satisfiable(constraints) && start <= |objects|
    ensures hits <= HitsDown(constraints, p, objects, 0, start)
    ensures progress.Continue? ==> hits == HitsDown(constraints, p, objects, 0, start)
    ensures progress.Finished? ==> size == 0 && hits == Hits(constraints, p, objects, start) && |hits| == 1
    ensures maxResolutions >= 2 && size < maxResolutions ==>
              size + |hits| <= maxResolutions && (progress.Continue? ==> size + |hits| < maxResolutions)
    ensures (size == 0 && start > 0 && Inside(constraints, p, objects[start - 1]) && !expired(0)
             && Answers(solver, constraints, p)) ==> progress.Finished? && queries == 2
    ensures start == 0 ==> progress.Continue? && looks == 0 && hits == []
    ensures start > 0 && expired(0) ==> progress.CutShort? && hits == []
    ensures Answers(solver, constraints, p) && (forall k :: !expired(k)) && progress.CutShort? ==>
              size + |hits| == maxResolutions && maxResolutions >= 2
  {
    hide *;
    LayoutAllocated(objects);
    NoHitsYet(constraints, p, objects, start);
    ghost var single := size == 0 && start > 0 && Inside(constraints, p, objects[start - 1]) && !expired(0)
                        && Answers(solver, constraints, p);
    hits, queries, looks := [], 0, 0;
    var oi := start;
    while oi != 0
      invariant 0 <= oi <= start
      invariant hits == HitsDown(constraints, p, objects, oi, start)
      invariant maxResolutions >= 2 && size < maxResolutions ==> size + |hits| < maxResolutions
      invariant single ==> oi == start && queries == 0 && looks == 0
      invariant oi < start ==> !expired(0)
      invariant looks == start - oi
    {
      oi := oi - 1;
      looks := looks + 1;
      DownStep(constraints, p, objects, oi, start);
      var hit, past, more;
      progress, hit, past, more :=
        LookDown(solver, constraints, p, size + |hits|, objects[oi], maxResolutions, expired(looks - 1));
      queries := queries + more;
      if hit {
        hits := hits + [objects[oi]];
      }
      if !progress.Continue? {
        if progress.Finished? {
          OnlyHit(constraints, p, objects, start, oi);
        }
        return;
      }
      if past {
        NothingBelow(solver, constraints, p, objects, oi);
        NoHitsDown(constraints, p, objects, 0, oi, start);
        break;
      }
    }
    progress := Continue;
  }

  /** The part of `resolve` that walks up. */
  method SearchForwards(solver: Solver, constraints: seq<Expr>, p: Expr, size: nat, objects: seq<MemoryObject>,
                        start: nat, maxResolutions: nat, expired: nat -> bool, looked: nat)
    returns (progress: Progress, hits: seq<MemoryObject>, queries: nat)
    requires solver.Sound() && IsPointer(p) && Layout(objects) && Satisfiable(constraints) && start <= |objects|
    ensures hits <= HitsUp(constraints, p, objects, start, |objects|)
    ensures progress.Continue? ==> hits == HitsUp(constraints, p, objects, start, |objects|)
    ensures progress.Finished? ==> size == 0 && hits == Hits(constraints, p, objects, start) && |hits| == 1
    ensures maxResolutions >= 2 && size < maxResolutions ==>
              size + |hits| <= maxResolutions && (progress.Continue? ==> size + |hits| < maxResolutions)
    ensures start < |objects| && expired(looked) ==> progress.CutShort? && hits == []
    ensures Answers(solver, constraints, p) && (forall k :: !expired(k)) && progress.CutShort? ==>
              size + |hits| == maxResolutions && maxResolutions >= 2
  {
    hide *;
    LayoutAllocated(objects);
    NoHitsYet(constraints, p, objects, start);
    hits, queries := [], 0;
    var looks := looked;
    var oi := start;
    while oi != |objects|
      invariant start <= oi <= |objects| && looks == looked + (oi - start)
      invariant start < oi ==> !expired(looked)
      invariant hits == HitsUp(constraints, p, objects, start, oi)
      invariant maxResolutions >= 2 && size < maxResolutions ==> size + |hits| < maxResolutions
    {
      looks := looks + 1;
      UpStep(constraints, p, objects, start, oi);
      var hit, past, more;
      progress, hit, past, more :=
        LookUp(solver, constraints, p, size + |hits|, objects[oi], maxResolutions, expired(looks - 1));
      queries := queries + more;
      if hit {
        hits := hits + [objects[oi]];
      }
      if !progress.Continue? {
        if progress.Finished? {
          OnlyHit(constraints, p, objects, start, oi);
        }
        return;
      }
      if past {
        NothingAbove(solver, constraints, p, objects, oi);
        NoHitsUp(constraints, p, objects, start, oi, |objects|);
        break;
      }
      oi := oi + 1;
    }
    progress := Continue;
  }

  /**
   Resolves a pointer to all feasible objects, appended to `before`. `incomplete` tells
   that the search was cut short. `expired(k)` is the `k`-th look at the clock and
   `queries` counts the solver calls made after the first one; `start` is where the
   search began.

   A cap of two or more is respected, and with every query answered in time the search is
   cut short only by reaching it. A cap of one has no effect at all: the result is then
   complete, so that the cap is exceeded exactly when two objects are feasible.
   */
  method Resolve(solver: Solver, constraints: seq<Expr>, p: Expr, before: seq<MemoryObject>,
                 objects: seq<MemoryObject>, maxResolutions: nat, expired: nat -> bool)
    returns (incomplete: bool, rl: seq<MemoryObject>, queries: nat, start: nat)
    requires solver.Sound() && IsPointer(p) && Layout(objects) && Satisfiable(constraints)
    ensures start <= |objects|
    ensures rl <= before + Hits(constraints, p, objects, start)
    ensures !incomplete ==> rl == before + Hits(constraints, p, objects, start)
    ensures maxResolutions >= 2 && |before| < maxResolutions ==> |rl| <= maxResolutions
    ensures !p.Const? && objects != [] && expired(0) ==> incomplete && rl == before
    ensures incomplete && Answers(solver, constraints, p) && (forall k :: !expired(k)) ==>
              |rl| == maxResolutions && maxResolutions >= 2
    ensures maxResolutions >= 2 && |before| + 1 < maxResolutions && |rl| == maxResolutions ==> incomplete
    ensures (before == [] && maxResolutions == 1 && Answers(solver, constraints, p) && forall k :: !expired(k)) ==>
              (|rl| <= maxResolutions <==> !SeveralFeasible(constraints, p, objects))
    ensures (before == [] && !p.Const? && SingleObject(constraints, p, objects) && !expired(0)
             && Answers(solver, constraints, p)) ==> queries == 2 && !incomplete
  {
    hide Feasible, Inside, Contains, Layout, Satisfiable, Solver.Sound, SingleObject, SeveralFeasible, HitsDown, HitsUp;
    hide Answers, Eval, Pow2, IsPointer;
    if Answers(solver, constraints, p) {
      AnswersValue(solver, constraints, p);
    }
    if p.Const? {
      var address := p.value % Pow2(p.bits);
      var found := ResolveOneConcrete(objects, address);
      ConcreteHits(constraints, p, objects, found);
      SeveralHits(constraints, p, objects, 0);
      return false, if found.Some? then before + [found.value] else before, 0, 0;
    }
    var cex := solver.GetValue(constraints, p);
    if cex.None? {
      return true, before, 0, 0;
    }
    start := UpperBound(objects, cex.value);
    SeveralHits(constraints, p, objects, start);
    if SingleObject(constraints, p, objects) {
      ExampleFindsSingle(solver, constraints, p, objects, cex.value);
    }
    var progress, hits, looks;
    progress, hits, queries, looks :=
      SearchBackwards(solver, constraints, p, |before|, objects, start, maxResolutions, expired);
    if progress.Continue? {
      var more, above;
      progress, above, more :=
        SearchForwards(solver, constraints, p, |before| + |hits|, objects, start, maxResolutions, expired, looks);
      queries := queries + more;
      hits := hits + above;
    }
    assert before + [] == before;
    return progress.CutShort?, before + hits, queries, start;
  }

  lemma ConcreteHits(constraints: seq<Expr>, p: Expr, objects: seq<MemoryObject>, found: Option<MemoryObject>)
    requires p.Const? && Layout(objects) && Satisfiable(constraints)
    requires found.Some? ==> found.value in objects && Contains(found.value, p.value % Pow2(p.bits))
    requires found.None? ==> forall mo <- objects :: !Contains(mo, p.value % Pow2(p.bits))
    ensures Hits(constraints, p, objects, 0) == if found.Some? then [found.value] else []
  {
    assert forall a :: Eval(p, a) == p.value % Pow2(p.bits);
    if found.Some? {
      var i :| 0 <= i < |objects| && objects[i] == found.value;
      OnlyHit(constraints, p, objects, 0, i);
    } else {
      NoHitsUp(constraints, p, objects, 0, 0, |objects|);
    }
  }

  // ----- A cap of one -----

  const LOW_OBJECT := MemoryObject(0, 16, 4)
  const HIGH_OBJECT := MemoryObject(1, 32, 4)

  /** Points to the one object or the other, depending on an input byte. */
  const EITHER := Select(Cmp(Eq, Read(Array("x", 1), NoUpdates, Const(0, INT32)), Const(0, INT8)),
                         Const(16, INT64), Const(32, INT64))

  lemma EitherIsFeasible()
    ensures var objects := [LOW_OBJECT, HIGH_OBJECT];
      && IsPointer(EITHER) && Layout(objects) && Satisfiable([]) && SeveralFeasible([], EITHER, objects)
  {
    hide Eval, Pow2, Width;
    var objects := [LOW_OBJECT, HIGH_OBJECT];
    EitherIsPointer();
    EitherValue(map[Array("x", 1) := [0]], 0);
    EitherValue(map[Array("x", 1) := [1]], 1);
    assert Sat([], map[Array("x", 1) := [0]]) && Sat([], map[Array("x", 1) := [1]]);
    assert Feasible([], EITHER, objects[0]) && Feasible([], EITHER, objects[1]);
  }

  lemma EitherIsPointer()
    ensures IsPointer(EITHER)
  {}

  lemma EitherValue(a: Assignment, v: Exprs.byte)
    requires Array("x", 1) in a && a[Array("x", 1)] == [v]
    ensures Eval(EITHER, a) == if v == 0 then 16 else 32
  {
    var read := Read(Array("x", 1), NoUpdates, Const(0, INT32));
    Small(0, Pow2(INT32));
    assert Eval(Const(0, INT32), a) == 0 && Eval(read, a) == v;
    Small(0, Pow2(INT8));
    assert Eval(Const(0, INT8), a) == 0;
    CompareMeans(Eq, read, Const(0, INT8), a);
    ConstValue(16, a);
    ConstValue(32, a);
  }

  /** With a cap of one both objects are returned. */
  method CapOfOneIgnored(solver: Solver, expired: nat -> bool) returns (rl: seq<MemoryObject>)
    requires solver.Sound() && Answers(solver, [], EITHER) && forall k :: !expired(k)
    ensures |rl| == 2 && LOW_OBJECT in rl && HIGH_OBJECT in rl
  {
    hide *;
    EitherIsFeasible();
    var incomplete, queries, start;
    ghost var objects := [LOW_OBJECT, HIGH_OBJECT];
    incomplete, rl, queries, start := Resolve(solver, [], EITHER, [], [LOW_OBJECT, HIGH_OBJECT], 1, expired);
    TwoHits([], EITHER, LOW_OBJECT, HIGH_OBJECT, start, rl);
  }

  lemma TwoHits(constraints: seq<Expr>, p: Expr, x: MemoryObject, y: MemoryObject, start: nat, rl: seq<MemoryObject>)
    requires Layout([x, y]) && start <= 2 && SeveralFeasible(constraints, p, [x, y])
    requires rl == [] + Hits(constraints, p, [x, y], start)
    ensures |rl| == 2 && x in rl && y in rl
  {
    hide Feasible, Hits;
    HitsAre(constraints, p, [x, y], start);
    SeveralHits(constraints, p, [x, y], start);
    assert rl == Hits(constraints, p, [x, y], start);
    DistinctFit(rl, [x, y]);
    var i, j :| 0 <= i < j < |[x, y]| && Feasible(constraints, p, [x, y][i]) && Feasible(constraints, p, [x, y][j]);
    assert i == 0 && j == 1;
  }
}
