/**
 Merging one execution state into another (klee/lib/Core/ExecutionState.cpp:368-527).

 The constraint sets are visited in an arbitrary order: the original orders them by the
 structure of expressions, which does not matter here.
 */
module Merging {
  import opened AddressSpaces
  import opened CopyOnWrite
  import opened ExecutionStates
  import opened Exprs
  import opened ObjectStates
  import opened Options
  import opened Solvers

  /** `Aborted` is the failed assertion on a mutated object that is read-only. */
  datatype Outcome = Merged | Refused | Aborted

  // ----- What merged values mean -----

  /** `m` is the value `x` where A's constraints hold, and `y` where only B's hold. */
  predicate Merges(holdsA: bool, holdsB: bool, x: nat, y: nat, m: nat) {
    (holdsA ==> m == x) && (holdsB && !holdsA ==> m == y)
  }

  ghost predicate LocalMerges(cA: seq<Expr>, cB: seq<Expr>, av: Option<Expr>, bv: Option<Expr>, mv: Option<Expr>) {
    if av.None? || bv.None? then
      mv == av
    else
      mv.Some? && forall a :: Merges(Sat(cA, a), Sat(cB, a), Eval(av.value, a), Eval(bv.value, a), Eval(mv.value, a))
  }

  ghost predicate FrameMerges(cA: seq<Expr>, cB: seq<Expr>, af: Frame, bf: Frame, mf: Frame) {
    && mf.caller == af.caller && mf.function_ == af.function_ && |mf.locals| == |af.locals| == |bf.locals|
    && forall i | 0 <= i < |af.locals| :: LocalMerges(cA, cB, af.locals[i], bf.locals[i], mf.locals[i])
  }

  ghost predicate StackMerges(cA: seq<Expr>, cB: seq<Expr>, sa: seq<Frame>, sb: seq<Frame>, sm: seq<Frame>) {
    |sm| == |sa| == |sb| && forall k | 0 <= k < |sa| :: FrameMerges(cA, cB, sa[k], sb[k], sm[k])
  }

  ghost predicate StoreMerges(cA: seq<Expr>, cB: seq<Expr>, sa: Store, sb: Store, sm: Store, size: nat) {
    forall k: nat, a | k < size :: Merges(Sat(cA, a), Sat(cB, a), ByteAt(sa, k, a), ByteAt(sb, k, a), ByteAt(sm, k, a))
  }

  /** The two spaces see the same objects, and every byte of the merged one is A's or B's. */
  ghost predicate SightMerges(cA: seq<Expr>, cB: seq<Expr>, va: Sight, vb: Sight, vm: Sight) {
    && vm.Keys == va.Keys == vb.Keys
    && forall mo | mo in va :: StoreMerges(cA, cB, va[mo], vb[mo], vm[mo], mo.size)
  }

  // ----- What the code builds -----

  function MergedLocal(inA: Expr, av: Option<Expr>, bv: Option<Expr>): Option<Expr> {
    if av.None? || bv.None? then av else Some(Select(inA, av.value, bv.value))
  }

  /** Registers below `n` merged. */
  function MergedFrame(inA: Expr, af: Frame, bf: Frame, n: nat): Frame
    requires n <= |af.locals| == |bf.locals|
  {
    af.(locals := seq(|af.locals|, i requires 0 <= i < |af.locals| =>
      if i < n then MergedLocal(inA, af.locals[i], bf.locals[i]) else af.locals[i]))
  }

  predicate SameShape(sa: seq<Frame>, sb: seq<Frame>) {
    |sa| == |sb| && forall k | 0 <= k < |sa| :: sa[k].caller == sb[k].caller && sa[k].function_ == sb[k].function_
  }

  /** A frame has as many registers as its function (`KFunction::numRegisters`). */
  predicate Sized(stack: seq<Frame>, registers: nat -> nat) {
    forall k | 0 <= k < |stack| :: |stack[k].locals| == registers(stack[k].function_)
  }

  /** Byte `i` chosen from the one store or the other, for all bytes below `n`. */
  function MergedStore(inA: Expr, sa: Store, sb: Store, n: nat): Store {
    if n == 0 then sa else
    var before := MergedStore(inA, sa, sb, n - 1);
    var at := Const(n - 1, INT32);
    before.(updates := Update(at, Select(inA, Read8(before, at), Read8(sb, at)), before.updates))
  }

  /** Objects in `done` merged. */
  function MergedSight(inA: Expr, va: Sight, vb: Sight, done: set<MemoryObject>): Sight
    requires va.Keys == vb.Keys
  {
    map mo | mo in va :: if mo in done then MergedStore(inA, va[mo], vb[mo], mo.size) else va[mo]
  }

  // ----- The methods -----

  method StacksMatch(sa: seq<Frame>, sb: seq<Frame>) returns (same: bool)
    ensures same == SameShape(sa, sb)
  {
    var k := 0;
    while k < |sa| && k < |sb|
      invariant 0 <= k <= |sa| && k <= |sb|
      invariant SameShape(sa[..k], sb[..k])
    {
      if sa[k].caller != sb[k].caller || sa[k].function_ != sb[k].function_ {
        return false;
      }
      assert SameShape(sa[..k + 1], sb[..k + 1]);
      k := k + 1;
    }
    return k == |sa| == |sb|;
  }

  ghost predicate Rising(order: seq<MemoryObject>) {
    forall i, j | 0 <= i < j < |order| :: order[i].address < order[j].address
  }

  /** The order in which a memory map is walked. */
  ghost predicate Walks(order: seq<MemoryObject>, objects: map<MemoryObject, ObjectState>) {
    Rising(order) && forall mo :: mo in order <==> mo in objects
  }

  lemma PrefixHas(order: seq<MemoryObject>, k: nat)
    requires k < |order|
    ensures forall mo :: mo in order[..k + 1] <==> mo in order[..k] || mo == order[k]
  {
    assert order[..k + 1] == order[..k] + [order[k]];
  }

  /** Where two walks part, the object with the lower address is missing from the other walk. */
  lemma WalksPart(order: seq<MemoryObject>, other: seq<MemoryObject>, k: nat)
    requires k < |order| && k <= |other| && order[..k] == other[..k] && Rising(order) && Rising(other)
    requires k < |other| ==> order[k] != other[k] && order[k].address <= other[k].address
    ensures order[k] in order && order[k] !in other
  {
    forall j | 0 <= j < |other| ensures other[j] != order[k] {
      if j < k {
        assert other[j] == other[..k][j] == order[..k][j] == order[j];
      }
    }
  }

  lemma KeysDiffer(objectsA: map<MemoryObject, ObjectState>, orderA: seq<MemoryObject>,
                   objectsB: map<MemoryObject, ObjectState>, orderB: seq<MemoryObject>, k: nat)
    requires Walks(orderA, objectsA) && Walks(orderB, objectsB)
    requires k <= |orderA| && k <= |orderB| && orderA[..k] == orderB[..k] && (k < |orderA| || k < |orderB|)
    requires k < |orderA| && k < |orderB| ==> orderA[k] != orderB[k]
    ensures objectsA.Keys != objectsB.Keys
  {
    if k < |orderA| && (k < |orderB| ==> orderA[k].address <= orderB[k].address) {
      WalksPart(orderA, orderB, k);
      assert orderA[k] in objectsA && orderA[k] !in objectsB;
    } else {
      WalksPart(orderB, orderA, k);
      assert orderB[k] in objectsB && orderB[k] !in objectsA;
    }
  }

  /** The two maps walked side by side: the objects bound to different states, or nothing if the objects differ. */
  method CompareObjects(objectsA: map<MemoryObject, ObjectState>, orderA: seq<MemoryObject>,
                        objectsB: map<MemoryObject, ObjectState>, orderB: seq<MemoryObject>)
    returns (result: Option<set<MemoryObject>>)
    requires Walks(orderA, objectsA) && Walks(orderB, objectsB)
    ensures result.Some? <==> objectsA.Keys == objectsB.Keys
    ensures result.Some? ==> result.value == set mo | mo in objectsA && objectsA[mo] != objectsB[mo]
  {
    var mutated: set<MemoryObject> := {};
    var k := 0;
    while k < |orderA| && k < |orderB|
      invariant 0 <= k <= |orderA| && k <= |orderB| && orderA[..k] == orderB[..k]
      invariant forall mo :: mo in mutated <==>
        mo in orderA[..k] && mo in objectsA && mo in objectsB && objectsA[mo] != objectsB[mo]
    {
      if orderA[k] != orderB[k] {
        KeysDiffer(objectsA, orderA, objectsB, orderB, k);
        return None;
      }
      PrefixHas(orderA, k);
      PrefixHas(orderB, k);
      if objectsA[orderA[k]] != objectsB[orderB[k]] {
        mutated := mutated + {orderA[k]};
      }
      k := k + 1;
    }
    if k != |orderA| || k != |orderB| {
      KeysDiffer(objectsA, orderA, objectsB, orderB, k);
      return None;
    }
    assert orderA[..k] == orderA && orderB[..k] == orderB;
    return Some(mutated);
  }

  /** The conjunction of a set of constraints, starting from the true expression. */
  method Conjunction(suffix: set<Expr>) returns (e: Expr)
    requires forall c <- suffix :: IsBool(c)
    ensures IsBool(e)
    ensures forall a :: IsTrue(e, a) <==> forall c <- suffix :: IsTrue(c, a)
  {
    e := TRUE_EXPR;
    var todo := suffix;
    TrueHolds();
    while todo != {}
      invariant todo <= suffix && IsBool(e)
      invariant forall a :: IsTrue(e, a) <==> forall c <- suffix - todo :: IsTrue(c, a)
    {
      var c :| c in todo;
      ghost var e0, done := e, suffix - todo;
      e := Bin(And, e, c);
      todo := todo - {c};
      assert suffix - todo == done + {c};
      forall a ensures IsTrue(e, a) <==> forall d <- done + {c} :: IsTrue(d, a) {
        EvalAnd(e0, c, a);
      }
      EvalAnd(e0, c, map[]);
    }
    assert suffix - todo == suffix;
  }

  lemma TrueHolds()
    ensures IsBool(TRUE_EXPR) && forall a :: IsTrue(TRUE_EXPR, a)
  {
    Pow2One();
  }

  method MergeStacks(a: ExecutionState, b: ExecutionState, inA: Expr)
    requires a != b && SameShape(a.stack, b.stack)
    requires forall k | 0 <= k < |a.stack| :: |a.stack[k].locals| == |b.stack[k].locals|
    modifies a`stack
    ensures |a.stack| == |b.stack|
    ensures forall k | 0 <= k < |b.stack| ::
      a.stack[k] == MergedFrame(inA, old(a.stack[k]), b.stack[k], |b.stack[k].locals|)
  {
    ghost var sa := a.stack;
    for k := 0 to |a.stack|
      invariant |a.stack| == |sa|
      invariant forall j | 0 <= j < |sa| ::
        a.stack[j] == if j < k then MergedFrame(inA, sa[j], b.stack[j], |b.stack[j].locals|) else sa[j]
    {
      var af, bf := a.stack[k], b.stack[k];
      for i := 0 to |bf.locals|
        invariant af == MergedFrame(inA, sa[k], bf, i)
      {
        if af.locals[i].Some? && bf.locals[i].Some? {
          af := af.(locals := af.locals[i := Some(Select(inA, af.locals[i].value, bf.locals[i].value))]);
        }
      }
      a.stack := a.stack[k := af];
    }
  }

  lemma WrittenTwice<S, O, C>(w: World<S, O, C>, o: O, c: C, c': C)
    requires o in w.cells
    ensures SetContents(SetContents(w, o, c), o, c') == SetContents(w, o, c')
    ensures c == w.cells[o].contents ==> SetContents(w, o, c) == w
  {}

  lemma SnapshotCell(spaces: set<AddressSpace>, states: set<ObjectState>, o: ObjectState)
    requires o in states
    ensures var w := Snapshot(spaces, states); o in w.cells && w.cells[o] == Cell(o.owner, o.readOnly, o.store)
  {}

  /** The bytes of one object, through a state the space owns. Nothing else that any space sees changes. */
  method MergeObject(space: AddressSpace, mo: MemoryObject, os: ObjectState, otherOS: ObjectState, inA: Expr,
                     ghost spaces: set<AddressSpace>, ghost states: set<ObjectState>)
    returns (ghost states': set<ObjectState>)
    requires space in spaces && mo in space.objects && space.objects[mo] == os && os in states && !os.readOnly
    requires os != otherOS && AllIsolated(spaces, states)
    modifies space`objects, os`store
    ensures states <= states' && fresh(states' - states)
    ensures mo in space.objects && space.objects == old(space.objects)[mo := space.objects[mo]]
    ensures AllIsolated(spaces, states') && space in old(Sights(spaces, states))
    ensures var v := old(Sights(spaces, states));
      Sights(spaces, states') == v[space := v[space][mo := MergedStore(inA, old(os.store), otherOS.store, mo.size)]]
  {
    hide *;
    ghost var w, sa := Snapshot(spaces, states), os.store;
    SnapshotBinds(spaces, states, space, mo);
    SightHas(spaces, states, space, mo);
    Unfold(spaces, states);
    var wos := space.GetWriteable(mo, os, spaces, states);
    states' := states + {wos};
    ghost var w1 := Snapshot(spaces, states');
    CellsAre(spaces, states');
    SnapshotCell(spaces, states', wos);
    WrittenTwice(w1, wos, wos.store, wos.store);
    MergedStoreStep(inA, sa, otherOS.store, 0);
    for i := 0 to mo.size
      invariant wos.store == MergedStore(inA, sa, otherOS.store, i)
      invariant Snapshot(spaces, states') == SetContents(w1, wos, wos.store)
      invariant space.objects == old(space.objects)[mo := wos]
    {
      var at := Const(i, INT32);
      var merged := Select(inA, Read8(wos.store, at), Read8(otherOS.store, at));
      var store := wos.store.(updates := Update(at, merged, wos.store.updates));
      WrittenTwice(w1, wos, wos.store, store);
      MergedStoreStep(inA, sa, otherOS.store, i);
      WriteThrough(wos, store, spaces, states');
    }
    WriteIsolates(w, w1, space, mo, wos, wos.store);
    Unfold(spaces, states');
  }

  lemma MergedStoreStep(inA: Expr, sa: Store, sb: Store, i: nat)
    ensures MergedStore(inA, sa, sb, 0) == sa
    ensures var before, at := MergedStore(inA, sa, sb, i), Const(i, INT32);
      MergedStore(inA, sa, sb, i + 1) ==
        before.(updates := Update(at, Select(inA, Read8(before, at), Read8(sb, at)), before.updates))
  {}

  /** Objects in `done` are merged, and those in `todo` are as they were. */
  ghost predicate Progress(v: map<AddressSpace, Sight>, space: AddressSpace, other: AddressSpace, inA: Expr,
                           objects: map<MemoryObject, ObjectState>, todo: set<MemoryObject>, done: set<MemoryObject>,
                           spaces: set<AddressSpace>, states: set<ObjectState>)
    reads spaces, states, space
  {
    && space in spaces && other in spaces && Paired(v, space, other) && AllIsolated(spaces, states)
    && objects.Values <= states && space.objects.Keys == objects.Keys == v[space].Keys && todo <= objects.Keys
    && done !! todo
    && (forall mo <- todo :: space.objects[mo] == objects[mo])
    && Sights(spaces, states) == SightsAfterMerge(v, space, other, inA, done)
  }

  method MergeNext(space: AddressSpace, other: AddressSpace, mo: MemoryObject, inA: Expr,
                   ghost v: map<AddressSpace, Sight>, ghost objects: map<MemoryObject, ObjectState>,
                   ghost todo: set<MemoryObject>, ghost done: set<MemoryObject>, os: ObjectState,
                   ghost spaces: set<AddressSpace>, ghost states: set<ObjectState>)
    returns (ghost states': set<ObjectState>)
    requires Progress(v, space, other, inA, objects, todo, done, spaces, states)
    requires mo in todo && objects[mo] == os && !os.readOnly
    requires mo in other.objects && os != other.objects[mo] && other.objects[mo] in states
    modifies space`objects, os`store
    ensures states <= states' && fresh(states' - states)
    ensures Progress(v, space, other, inA, objects, todo - {mo}, done + {mo}, spaces, states')
  {
    hide *;
    ProgressHas(v, space, other, inA, objects, todo, done, spaces, states, mo);
    SightHas(spaces, states, space, mo);
    SightHas(spaces, states, other, mo);
    OneMoreMerged(v, space, other, inA, done, mo);
    ghost var was := space.objects;
    states' := MergeObject(space, mo, os, other.objects[mo], inA, spaces, states);
    ProgressMade(v, space, other, inA, objects, todo, done, spaces, states', mo, was);
  }

  lemma ProgressHas(v: map<AddressSpace, Sight>, space: AddressSpace, other: AddressSpace, inA: Expr,
                    objects: map<MemoryObject, ObjectState>, todo: set<MemoryObject>, done: set<MemoryObject>,
                    spaces: set<AddressSpace>, states: set<ObjectState>, mo: MemoryObject)
    requires Progress(v, space, other, inA, objects, todo, done, spaces, states) && mo in todo
    ensures space in spaces && other in spaces && Paired(v, space, other) && AllIsolated(spaces, states) && mo !in done
    ensures mo in v[space] && mo in space.objects && mo in objects
    ensures space.objects[mo] == objects[mo] && objects[mo] in states
    ensures space.objects.Keys == objects.Keys == v[space].Keys
    ensures todo <= objects.Keys && done !! todo && objects.Values <= states
    ensures forall m <- todo :: space.objects[m] == objects[m]
    ensures Sights(spaces, states) == SightsAfterMerge(v, space, other, inA, done)
  {
    hide Sights, AllIsolated, SightsAfterMerge;
    assert objects[mo] in objects.Values;
  }

  lemma ProgressMade(v: map<AddressSpace, Sight>, space: AddressSpace, other: AddressSpace, inA: Expr,
                     objects: map<MemoryObject, ObjectState>, todo: set<MemoryObject>, done: set<MemoryObject>,
                     spaces: set<AddressSpace>, states: set<ObjectState>, mo: MemoryObject,
                     was: map<MemoryObject, ObjectState>)
    requires space in spaces && other in spaces && Paired(v, space, other) && AllIsolated(spaces, states)
    requires mo in todo && todo <= objects.Keys && done !! todo && was.Keys == objects.Keys == v[space].Keys
    requires objects.Values <= states && forall m <- todo :: was[m] == objects[m]
    requires mo in space.objects && space.objects == was[mo := space.objects[mo]]
    requires Sights(spaces, states) == SightsAfterMerge(v, space, other, inA, done + {mo})
    ensures Progress(v, space, other, inA, objects, todo - {mo}, done + {mo}, spaces, states)
  {
    hide Sights, AllIsolated, SightsAfterMerge;
  }

  ghost predicate NoneReadOnly(objects: map<MemoryObject, ObjectState>, mos: set<MemoryObject>)
    requires mos <= objects.Keys
    reads objects.Values`readOnly
  {
    forall mo <- mos :: !objects[mo].readOnly
  }

  lemma OneMoreWritable(objects: map<MemoryObject, ObjectState>, done: set<MemoryObject>, todo: set<MemoryObject>,
                        mo: MemoryObject, all: set<MemoryObject>)
    requires all <= objects.Keys && mo in todo && done + todo == all
    ensures (done + {mo}) + (todo - {mo}) == all
    ensures objects[mo].readOnly ==> !NoneReadOnly(objects, all)
    ensures !objects[mo].readOnly && NoneReadOnly(objects, done) ==> NoneReadOnly(objects, done + {mo})
  {}

  lemma NoneYet(objects: map<MemoryObject, ObjectState>)
    ensures NoneReadOnly(objects, {})
  {}

  /** All mutated objects. False stands for the failed assertion that none of them is read-only. */
  method MergeObjects(space: AddressSpace, other: AddressSpace, mutated: set<MemoryObject>, inA: Expr,
                      ghost mine: set<ObjectState>, ghost spaces: set<AddressSpace>, ghost states: set<ObjectState>)
    returns (ok: bool, ghost states': set<ObjectState>)
    requires space in spaces && other in spaces && space != other && space.objects.Keys == other.objects.Keys
    requires mutated <= space.objects.Keys && forall mo <- mutated :: space.objects[mo] != other.objects[mo]
    requires mine == space.objects.Values && mine <= states
    requires other.objects.Values <= states && AllIsolated(spaces, states)
    modifies space`objects, mine`store
    ensures ok <==> NoneReadOnly(old(space.objects), mutated)
    ensures states <= states' && fresh(states' - states)
    ensures ok ==> AllIsolated(spaces, states')
    ensures Paired(old(Sights(spaces, states)), space, other)
    ensures ok ==> Sights(spaces, states') == SightsAfterMerge(old(Sights(spaces, states)), space, other, inA, mutated)
  {
    hide *;
    ghost var v := Sights(spaces, states);
    var objects, todo := space.objects, mutated;
    ghost var done: set<MemoryObject> := {};
    states' := states;
    NoneYet(objects);
    NothingMerged(v, space, other, inA, objects, mutated, spaces, states);
    while todo != {}
      invariant done + todo == mutated && states <= states' && fresh(states' - states)
      invariant done <= objects.Keys && NoneReadOnly(objects, done)
      invariant Progress(v, space, other, inA, objects, todo, done, spaces, states')
    {
      var mo :| mo in todo;
      OneMoreWritable(objects, done, todo, mo, mutated);
      if objects[mo].readOnly {
        return false, states';
      }
      assert objects[mo] in mine && other.objects[mo] in other.objects.Values;
      ProgressHas(v, space, other, inA, objects, todo, done, spaces, states', mo);
      var os := space.objects[mo];
      states' := MergeNext(space, other, mo, inA, v, objects, todo, done, os, spaces, states');
      todo, done := todo - {mo}, done + {mo};
    }
    assert done == mutated;
    AllMerged(v, space, other, inA, objects, todo, done, spaces, states');
    return true, states';
  }

  lemma AllMerged(v: map<AddressSpace, Sight>, space: AddressSpace, other: AddressSpace, inA: Expr,
                  objects: map<MemoryObject, ObjectState>, todo: set<MemoryObject>, done: set<MemoryObject>,
                  spaces: set<AddressSpace>, states: set<ObjectState>)
    requires Progress(v, space, other, inA, objects, todo, done, spaces, states)
    ensures AllIsolated(spaces, states)
    ensures Sights(spaces, states) == SightsAfterMerge(v, space, other, inA, done)
  {
    hide Sights, AllIsolated, SightsAfterMerge;
  }

  ghost predicate Paired(v: map<AddressSpace, Sight>, space: AddressSpace, other: AddressSpace) {
    space in v && other in v && space != other && v[space].Keys == v[other].Keys
  }

  ghost function SightsAfterMerge(v: map<AddressSpace, Sight>, space: AddressSpace, other: AddressSpace, inA: Expr,
                                  done: set<MemoryObject>): map<AddressSpace, Sight>
    requires Paired(v, space, other)
  {
    v[space := MergedSight(inA, v[space], v[other], done)]
  }

  lemma SightOf(spaces: set<AddressSpace>, states: set<ObjectState>, space: AddressSpace)
    requires space in spaces && space.objects.Values <= states
    ensures space in Sights(spaces, states) && Sights(spaces, states)[space].Keys == space.objects.Keys
  {
    forall mo | mo in space.objects ensures space.objects[mo] in states {
      assert space.objects[mo] in space.objects.Values;
    }
  }

  lemma NothingMerged(v: map<AddressSpace, Sight>, space: AddressSpace, other: AddressSpace, inA: Expr,
                      objects: map<MemoryObject, ObjectState>, mutated: set<MemoryObject>,
                      spaces: set<AddressSpace>, states: set<ObjectState>)
    requires space in spaces && other in spaces && space != other && space.objects.Keys == other.objects.Keys
    requires space.objects.Values <= states && other.objects.Values <= states && AllIsolated(spaces, states)
    requires v == Sights(spaces, states) && objects == space.objects && mutated <= objects.Keys
    ensures Paired(v, space, other) && Progress(v, space, other, inA, objects, mutated, {}, spaces, states)
  {
    hide Sights, AllIsolated;
    SightOf(spaces, states, space);
    SightOf(spaces, states, other);
    assert MergedSight(inA, v[space], v[other], {}) == v[space];
  }

  lemma OneMoreMerged(v: map<AddressSpace, Sight>, space: AddressSpace, other: AddressSpace, inA: Expr,
                      done: set<MemoryObject>, mo: MemoryObject)
    requires Paired(v, space, other) && mo in v[space] && mo !in done
    ensures var now := SightsAfterMerge(v, space, other, inA, done);
      && now[space][mo] == v[space][mo] && now[other] == v[other]
      && SightsAfterMerge(v, space, other, inA, done + {mo}) ==
           now[space := now[space][mo := MergedStore(inA, v[space][mo], v[other][mo], mo.size)]]
  {
    assert MergedSight(inA, v[space], v[other], done + {mo}) ==
           MergedSight(inA, v[space], v[other], done)[mo := MergedStore(inA, v[space][mo], v[other][mo], mo.size)];
  }

  // ----- What the results mean -----

  /** A's constraints hold just when the common ones and A's own do. */
  ghost predicate Splits(constraints: seq<Expr>, common: set<Expr>, own: set<Expr>) {
    forall c :: c in constraints <==> c in common || c in own
  }

  /** `inA` holds just when A's own constraints do. */
  ghost predicate Stands(inA: Expr, own: set<Expr>) {
    IsBool(inA) && forall a :: IsTrue(inA, a) <==> forall c <- own :: IsTrue(c, a)
  }

  lemma SatSplits(constraints: seq<Expr>, common: set<Expr>, own: set<Expr>, inA: Expr, a: Assignment)
    requires Splits(constraints, common, own) && Stands(inA, own)
    ensures Sat(constraints, a) <==> (forall c <- common :: IsTrue(c, a)) && IsTrue(inA, a)
  {}

  /** Under B's constraints, which share the common ones, `inA` decides A's. */
  lemma SelectMerges(cA: seq<Expr>, cB: seq<Expr>, common: set<Expr>, ownA: set<Expr>, inA: Expr, x: nat, y: nat,
                     a: Assignment)
    requires Splits(cA, common, ownA) && Stands(inA, ownA) && forall c <- common :: c in cB
    ensures Merges(Sat(cA, a), Sat(cB, a), x, y, if IsTrue(inA, a) then x else y)
  {
    SatSplits(cA, common, ownA, inA, a);
  }

  lemma LocalsMerge(cA: seq<Expr>, cB: seq<Expr>, common: set<Expr>, ownA: set<Expr>, inA: Expr, af: Frame, bf: Frame)
    requires Splits(cA, common, ownA) && Stands(inA, ownA) && forall c <- common :: c in cB
    requires |af.locals| == |bf.locals|
    ensures FrameMerges(cA, cB, af, bf, MergedFrame(inA, af, bf, |bf.locals|))
  {
    var mf := MergedFrame(inA, af, bf, |bf.locals|);
    forall i | 0 <= i < |af.locals| ensures LocalMerges(cA, cB, af.locals[i], bf.locals[i], mf.locals[i]) {
      LocalMerge(cA, cB, common, ownA, inA, af.locals[i], bf.locals[i]);
    }
  }

  lemma LocalMerge(cA: seq<Expr>, cB: seq<Expr>, common: set<Expr>, ownA: set<Expr>, inA: Expr, av: Option<Expr>,
                   bv: Option<Expr>)
    requires Splits(cA, common, ownA) && Stands(inA, ownA) && forall c <- common :: c in cB
    ensures LocalMerges(cA, cB, av, bv, MergedLocal(inA, av, bv))
  {
    hide Splits, Stands, Sat, Merges, IsTrue;
    if av.Some? && bv.Some? {
      forall a
        ensures Merges(Sat(cA, a), Sat(cB, a), Eval(av.value, a), Eval(bv.value, a),
                       Eval(Select(inA, av.value, bv.value), a))
      {
        SelectMeans(inA, av.value, bv.value, a);
        SelectMerges(cA, cB, common, ownA, inA, Eval(av.value, a), Eval(bv.value, a), a);
      }
    }
  }

  lemma SelectMeans(c: Expr, t: Expr, f: Expr, a: Assignment)
    ensures Eval(Select(c, t, f), a) == if IsTrue(c, a) then Eval(t, a) else Eval(f, a)
  {}

  /** Every byte below `n` of the merged store is chosen by `inA`; the rest is A's. */
  lemma {:induction false} MergedStoreMeans(inA: Expr, sa: Store, sb: Store, n: nat, k: nat, a: Assignment)
    requires n <= 0x1_0000_0000
    ensures ByteAt(MergedStore(inA, sa, sb, n), k, a) ==
            if k >= n || IsTrue(inA, a) then ByteAt(sa, k, a) else ByteAt(sb, k, a)
  {
    hide Eval, ByteAt, IsTrue;
    if n > 0 {
      var before, at := MergedStore(inA, sa, sb, n - 1), Const(n - 1, INT32);
      MergedStoreMeans(inA, sa, sb, n - 1, n - 1, a);
      MergedStoreMeans(inA, sa, sb, n - 1, k, a);
      ConstOffset(n - 1, a);
      Read8Means(before, at, a);
      Read8Means(sb, at, a);
      SelectMeans(inA, Read8(before, at), Read8(sb, at), a);
      UpdatedByte(before, at, Select(inA, Read8(before, at), Read8(sb, at)), n - 1,
                  if IsTrue(inA, a) then ByteAt(sa, n - 1, a) else ByteAt(sb, n - 1, a), k, a);
    }
  }

  lemma StoresMerge(cA: seq<Expr>, cB: seq<Expr>, common: set<Expr>, ownA: set<Expr>, inA: Expr, sa: Store, sb: Store,
                    size: nat)
    requires Splits(cA, common, ownA) && Stands(inA, ownA) && forall c <- common :: c in cB
    requires size <= 0x1_0000_0000
    ensures StoreMerges(cA, cB, sa, sb, MergedStore(inA, sa, sb, size), size)
  {
    hide Splits, Stands, Sat, Merges, IsTrue, ByteAt;
    forall k: nat, a | k < size
      ensures Merges(Sat(cA, a), Sat(cB, a), ByteAt(sa, k, a), ByteAt(sb, k, a),
                     ByteAt(MergedStore(inA, sa, sb, size), k, a))
    {
      MergedStoreMeans(inA, sa, sb, size, k, a);
      SelectMerges(cA, cB, common, ownA, inA, ByteAt(sa, k, a), ByteAt(sb, k, a), a);
    }
  }

  /** Objects bound to the same state in both spaces need no merging. */
  lemma SightsMerge(cA: seq<Expr>, cB: seq<Expr>, common: set<Expr>, ownA: set<Expr>, inA: Expr,
                    va: Sight, vb: Sight, mutated: set<MemoryObject>)
    requires Splits(cA, common, ownA) && Stands(inA, ownA) && forall c <- common :: c in cB
    requires va.Keys == vb.Keys && forall mo <- va :: mo.size <= 0x1_0000_0000 && (mo in mutated || va[mo] == vb[mo])
    ensures SightMerges(cA, cB, va, vb, MergedSight(inA, va, vb, mutated))
  {
    hide Splits, Stands, StoreMerges;
    var vm := MergedSight(inA, va, vb, mutated);
    forall mo | mo in va ensures StoreMerges(cA, cB, va[mo], vb[mo], vm[mo], mo.size) {
      if mo in mutated {
        StoresMerge(cA, cB, common, ownA, inA, va[mo], vb[mo], mo.size);
      } else {
        SameStore(cA, cB, va[mo], mo.size);
      }
    }
  }

  lemma SameStore(cA: seq<Expr>, cB: seq<Expr>, s: Store, size: nat)
    ensures StoreMerges(cA, cB, s, s, s, size)
  {}

  /** The merged constraints: the common ones and the disjunction of what sets A and B apart. */
  lemma ConstraintsMerge(cA: seq<Expr>, cB: seq<Expr>, cM: seq<Expr>, common: set<Expr>, ownA: set<Expr>,
                         ownB: set<Expr>, inA: Expr, inB: Expr)
    requires Splits(cA, common, ownA) && Stands(inA, ownA) && Splits(cB, common, ownB) && Stands(inB, ownB)
    requires forall c :: c in cM <==> c in common || c == Bin(Or, inA, inB)
    ensures forall a :: Sat(cM, a) <==> Sat(cA, a) || Sat(cB, a)
  {
    hide Splits, Stands, IsTrue;
    forall a ensures Sat(cM, a) <==> Sat(cA, a) || Sat(cB, a) {
      StandsBool(inA, ownA);
      StandsBool(inB, ownB);
      SatSplits(cA, common, ownA, inA, a);
      SatSplits(cB, common, ownB, inB, a);
      EvalOr(inA, inB, a);
      assert Sat(cM, a) <==> (forall c <- common :: IsTrue(c, a)) && IsTrue(Bin(Or, inA, inB), a);
    }
  }

  lemma StandsBool(inA: Expr, own: set<Expr>)
    requires Stands(inA, own)
    ensures IsBool(inA)
  {}

  // ----- The merge itself -----

  /** Program counter, symbolics, frames or live objects differ, so that the states cannot be merged. */
  predicate Mismatched(a: ExecutionState, b: ExecutionState)
    reads a, b, a.addressSpace, b.addressSpace
  {
    || a.pc != b.pc || a.symbolics != b.symbolics || !SameShape(a.stack, b.stack)
    || a.addressSpace.objects.Keys != b.addressSpace.objects.Keys
  }

  /** Some object of A's that B has changed is read-only. */
  ghost predicate Blocked(space: AddressSpace, other: AddressSpace)
    reads space, other, space.objects.Values
  {
    exists mo :: mo in space.objects && mo in other.objects && space.objects[mo] != other.objects[mo]
      && space.objects[mo].readOnly
  }

  /** What makes the states two states of one program. */
  ghost predicate Comparable(a: ExecutionState, b: ExecutionState, registers: nat -> nat)
    reads a, b, a.addressSpace, b.addressSpace
  {
    && a != b && a.addressSpace != b.addressSpace
    && AllBool(a.constraints) && AllBool(b.constraints)
    && Sized(a.stack, registers) && Sized(b.stack, registers)
    && forall mo <- a.addressSpace.objects :: mo.size <= 0x1_0000_0000
  }

  method MergeConstraints(a: ExecutionState, b: ExecutionState)
    returns (inA: Expr, common: set<Expr>, ghost ownA: set<Expr>, constraints: seq<Expr>)
    requires AllBool(a.constraints) && AllBool(b.constraints)
    ensures Splits(a.constraints, common, ownA) && Stands(inA, ownA) && forall c <- common :: c in b.constraints
    ensures AllBool(constraints)
    ensures forall x :: Sat(constraints, x) <==> Sat(a.constraints, x) || Sat(b.constraints, x)
  {
    var setA, setB := set c | c in a.constraints, set c | c in b.constraints;
    common := setA * setB;
    ownA := setA - common;
    var ownB := setB - common;
    inA := Conjunction(setA - common);
    var inB := Conjunction(ownB);
    constraints := [];
    var todo := common;
    while todo != {}
      invariant todo <= common && forall c :: c in constraints <==> c in common - todo
    {
      var c :| c in todo;
      constraints, todo := constraints + [c], todo - {c};
    }
    constraints := constraints + [Bin(Or, inA, inB)];
    EvalOr(inA, inB, map[]);
    ConstraintsMerge(a.constraints, b.constraints, constraints, common, ownA, ownB, inA, inB);
  }

  lemma StacksMerge(cA: seq<Expr>, cB: seq<Expr>, common: set<Expr>, ownA: set<Expr>, inA: Expr,
                    sa: seq<Frame>, sb: seq<Frame>, sm: seq<Frame>)
    requires Splits(cA, common, ownA) && Stands(inA, ownA) && forall c <- common :: c in cB
    requires |sm| == |sa| == |sb| && forall k | 0 <= k < |sa| :: |sa[k].locals| == |sb[k].locals|
    requires forall k | 0 <= k < |sa| :: sm[k] == MergedFrame(inA, sa[k], sb[k], |sb[k].locals|)
    ensures StackMerges(cA, cB, sa, sb, sm)
  {
    hide Splits, Stands, FrameMerges, MergedFrame;
    forall k | 0 <= k < |sa| ensures FrameMerges(cA, cB, sa[k], sb[k], sm[k]) {
      LocalsMerge(cA, cB, common, ownA, inA, sa[k], sb[k]);
    }
  }

  lemma SizesAgree(sa: seq<Frame>, sb: seq<Frame>, registers: nat -> nat)
    requires SameShape(sa, sb) && Sized(sa, registers) && Sized(sb, registers)
    ensures |sa| == |sb| && forall k | 0 <= k < |sa| :: |sa[k].locals| == |sb[k].locals|
  {}

  /** One space sees the merge of what the two saw, and every other space what it saw. */
  ghost predicate OnlyMerged(cA: seq<Expr>, cB: seq<Expr>, space: AddressSpace, other: AddressSpace,
                             v: map<AddressSpace, Sight>, v': map<AddressSpace, Sight>) {
    && v.Keys == v'.Keys && space in v && other in v
    && (forall s | s in v && s != space :: v'[s] == v[s])
    && SightMerges(cA, cB, v[space], v[other], v'[space])
  }

  lemma MutatedSights(spaces: set<AddressSpace>, states: set<ObjectState>, space: AddressSpace, other: AddressSpace,
                      cA: seq<Expr>, cB: seq<Expr>, common: set<Expr>, ownA: set<Expr>, inA: Expr,
                      mutated: set<MemoryObject>)
    requires space in spaces && other in spaces && space.objects.Keys == other.objects.Keys
    requires space != other && space.objects.Values <= states && other.objects.Values <= states
    requires forall mo <- space.objects ::
      mo.size <= 0x1_0000_0000 && (mo in mutated || space.objects[mo] == other.objects[mo])
    requires Splits(cA, common, ownA) && Stands(inA, ownA) && forall c <- common :: c in cB
    ensures Paired(Sights(spaces, states), space, other)
    ensures var v := Sights(spaces, states);
      OnlyMerged(cA, cB, space, other, v, SightsAfterMerge(v, space, other, inA, mutated))
  {
    hide Splits, Stands, SightMerges, MergedSight, Sights;
    var v := Sights(spaces, states);
    SightOf(spaces, states, space);
    SightOf(spaces, states, other);
    forall mo: MemoryObject | mo in v[space]
      ensures mo.size <= 0x1_0000_0000 && (mo in mutated || v[space][mo] == v[other][mo])
    {
      assert space.objects[mo] in space.objects.Values && other.objects[mo] in other.objects.Values;
      SightHas(spaces, states, space, mo);
      SightHas(spaces, states, other, mo);
    }
    SightsMerge(cA, cB, common, ownA, inA, v[space], v[other], mutated);
  }

  lemma NoneDangle(spaces: set<AddressSpace>, states: set<ObjectState>, space: AddressSpace)
    requires AllIsolated(spaces, states) && space in spaces
    ensures space.objects.Values <= states
  {
    SnapshotSpace(spaces, states, space);
    CellsAre(spaces, states);
    assert NoDangling(Snapshot(spaces, states));
    forall mo | mo in space.objects ensures space.objects[mo] in states {
      assert mo in Snapshot(spaces, states).spaces[space].objects;
    }
  }

  /** The checks that come before any change, and the objects the two states disagree on. */
  method MutatedObjects(a: ExecutionState, b: ExecutionState, orderA: seq<MemoryObject>, orderB: seq<MemoryObject>)
    returns (mutated: Option<set<MemoryObject>>)
    requires Walks(orderA, a.addressSpace.objects) && Walks(orderB, b.addressSpace.objects)
    ensures mutated.None? <==> Mismatched(a, b)
    ensures mutated.Some? ==>
      && SameShape(a.stack, b.stack) && a.addressSpace.objects.Keys == b.addressSpace.objects.Keys
      && (mutated.value ==
          set mo | mo in a.addressSpace.objects && a.addressSpace.objects[mo] != b.addressSpace.objects[mo])
      && (Blocked(a.addressSpace, b.addressSpace) <==> !NoneReadOnly(a.addressSpace.objects, mutated.value))
  {
    hide SameShape, Walks, Blocked;
    if a.pc != b.pc || a.symbolics != b.symbolics {
      return None;
    }
    var shaped := StacksMatch(a.stack, b.stack);
    if !shaped {
      return None;
    }
    mutated := CompareObjects(a.addressSpace.objects, orderA, b.addressSpace.objects, orderB);
    if mutated.Some? {
      BlockedMeans(a.addressSpace, b.addressSpace, mutated.value);
    }
  }

  /** Registers and memory. False stands for the failed assertion that no mutated object is read-only. */
  method MergeContents(a: ExecutionState, b: ExecutionState, mutated: set<MemoryObject>, inA: Expr,
                       ghost common: set<Expr>, ghost ownA: set<Expr>, ghost mine: set<ObjectState>,
                       ghost spaces: set<AddressSpace>, ghost states: set<ObjectState>)
    returns (ok: bool, ghost states': set<ObjectState>)
    requires a != b && a.addressSpace != b.addressSpace && a.addressSpace in spaces && b.addressSpace in spaces
    requires SameShape(a.stack, b.stack) && |a.stack| == |b.stack|
    requires forall k | 0 <= k < |a.stack| :: |a.stack[k].locals| == |b.stack[k].locals|
    requires a.addressSpace.objects.Keys == b.addressSpace.objects.Keys
    requires mutated ==
             set mo | mo in a.addressSpace.objects && a.addressSpace.objects[mo] != b.addressSpace.objects[mo]
    requires forall mo <- a.addressSpace.objects :: mo.size <= 0x1_0000_0000
    requires Splits(a.constraints, common, ownA) && Stands(inA, ownA) && forall c <- common :: c in b.constraints
    requires AllIsolated(spaces, states) && mine == a.addressSpace.objects.Values
    modifies a`stack, a.addressSpace`objects, mine`store
    ensures ok <==> NoneReadOnly(old(a.addressSpace.objects), mutated)
    ensures states <= states' && fresh(states' - states)
    ensures StackMerges(a.constraints, b.constraints, old(a.stack), b.stack, a.stack)
    ensures ok ==> AllIsolated(spaces, states')
    ensures ok ==> OnlyMerged(a.constraints, b.constraints, a.addressSpace, b.addressSpace,
                              old(Sights(spaces, states)), Sights(spaces, states'))
  {
    hide *;
    NoneDangle(spaces, states, a.addressSpace);
    NoneDangle(spaces, states, b.addressSpace);
    MergeStacks(a, b, inA);
    StacksMerge(a.constraints, b.constraints, common, ownA, inA, old(a.stack), b.stack, a.stack);
    MutatedSights(spaces, states, a.addressSpace, b.addressSpace, a.constraints, b.constraints, common, ownA, inA,
                  mutated);
    ok, states' := MergeObjects(a.addressSpace, b.addressSpace, mutated, inA, mine, spaces, states);
  }

  /**
   A's state becomes the merge of both. When it refuses nothing changes; when it
   succeeds only A's space sees anything new, and what it sees is A's byte where A's
   constraints held and B's where only B's did, as for the registers set in both.
   */
  method Merge(a: ExecutionState, b: ExecutionState, orderA: seq<MemoryObject>, orderB: seq<MemoryObject>,
               ghost registers: nat -> nat, ghost mine: set<ObjectState>,
               ghost spaces: set<AddressSpace>, ghost states: set<ObjectState>)
    returns (outcome: Outcome, ghost states': set<ObjectState>)
    requires Comparable(a, b, registers) && a.addressSpace in spaces && b.addressSpace in spaces
    requires Walks(orderA, a.addressSpace.objects) && Walks(orderB, b.addressSpace.objects)
    requires AllIsolated(spaces, states) && mine == a.addressSpace.objects.Values
    modifies a`stack, a`constraints, a.addressSpace`objects, mine`store
    ensures outcome.Refused? <==> old(Mismatched(a, b))
    ensures outcome.Refused? ==>
      && unchanged(a) && unchanged(a.addressSpace) && states' == states
      && AllIsolated(spaces, states) && Sights(spaces, states) == old(Sights(spaces, states))
    ensures outcome.Aborted? <==> !old(Mismatched(a, b)) && old(Blocked(a.addressSpace, b.addressSpace))
    ensures outcome.Merged? ==>
      && AllBool(a.constraints)
      && forall x :: Sat(a.constraints, x) <==> old(Sat(a.constraints, x)) || Sat(b.constraints, x)
    ensures outcome.Merged? ==> StackMerges(old(a.constraints), b.constraints, old(a.stack), b.stack, a.stack)
    ensures states <= states' && fresh(states' - states)
    ensures outcome.Merged? ==> AllIsolated(spaces, states')
    ensures outcome.Merged? ==>
      OnlyMerged(old(a.constraints), b.constraints, a.addressSpace, b.addressSpace,
                 old(Sights(spaces, states)), Sights(spaces, states'))
  {
    hide *;
    ComparableMeans(a, b, registers);
    var mutated := MutatedObjects(a, b, orderA, orderB);
    if mutated.None? {
      return Refused, states;
    }
    var inA, common, ownA, constraints := MergeConstraints(a, b);
    SizesAgree(a.stack, b.stack, registers);
    var ok;
    ok, states' := MergeContents(a, b, mutated.value, inA, common, ownA, mine, spaces, states);
    if !ok {
      return Aborted, states';
    }
    a.constraints := constraints;
    return Merged, states';
  }

  lemma ComparableMeans(a: ExecutionState, b: ExecutionState, registers: nat -> nat)
    requires Comparable(a, b, registers)
    ensures a != b && a.addressSpace != b.addressSpace && AllBool(a.constraints) && AllBool(b.constraints)
    ensures Sized(a.stack, registers) && Sized(b.stack, registers)
    ensures forall mo <- a.addressSpace.objects :: mo.size <= 0x1_0000_0000
  {}

  lemma BlockedMeans(space: AddressSpace, other: AddressSpace, mutated: set<MemoryObject>)
    requires space.objects.Keys == other.objects.Keys
    requires mutated == set mo | mo in space.objects && space.objects[mo] != other.objects[mo]
    ensures Blocked(space, other) <==> !NoneReadOnly(space.objects, mutated)
  {}
}
