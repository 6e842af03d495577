/**
 A load or store through a pointer that may lie in several objects: one successor per
 object, and one for the inputs that miss them all
 (klee/lib/Core/Executor.cpp:9207-9310). Lazy initialisation and preferred resolution
 are off.
 */
module MemoryOps {
  import opened AddressSpaces
  import opened CopyOnWrite
  import opened ExecutionStates
  import opened Exprs
  import opened ObjectStates
  import opened Options
  import opened Paths
  import opened Resolution
  import opened Sequences
  import opened Solvers

  datatype Access = Load(width: nat, target: nat) | Store(value: Expr)
  {
    function Width(): nat {
      if Load? then width else Exprs.Width(value)
    }

    /** The bytes accessed: no fewer than the value needs, and no more. */
    function Bytes(): (bytes: nat)
      ensures match this
        case Load(width, _) => width <= 8 * bytes < width + 8
        case Store(value) => Exprs.Width(value) <= 8 * bytes < Exprs.Width(value) + 8
    {
      BytesFor(Width())
    }

    /** What the instruction set guarantees of an access. */
    predicate Valid() {
      Accessible(Width()) && (Store? ==> WellFormed(value))
    }
  }

  datatype Effect = Loaded(result: Expr) | Stored | ReadOnlyFault

  // ----- Which inputs reach which object -----

  /** `objects[i]` is the first object that holds the whole access. */
  predicate FirstHolder(objects: seq<MemoryObject>, i: nat, address: nat, bytes: nat)
    requires i < |objects|
  {
    ContainsAccess(objects[i], address, bytes) && NoHolder(objects, i, address, bytes)
  }

  predicate NoHolder(objects: seq<MemoryObject>, k: nat, address: nat, bytes: nat)
    requires k <= |objects|
  {
    forall j | 0 <= j < k :: !ContainsAccess(objects[j], address, bytes)
  }

  /** The constraints hold of exactly the inputs for which `objects[i]` is the first holder. */
  ghost predicate HoldsAt(constraints: seq<Expr>, pc: seq<Expr>, p: Expr, bytes: nat, objects: seq<MemoryObject>,
                          i: nat)
    requires i < |objects|
  {
    forall a :: Sat(constraints, a) <==> Sat(pc, a) && FirstHolder(objects, i, Eval(p, a), bytes)
  }

  /** The constraints hold of exactly the inputs for which none of the first `k` objects is a holder. */
  ghost predicate MissesFirst(constraints: seq<Expr>, pc: seq<Expr>, p: Expr, bytes: nat, objects: seq<MemoryObject>,
                              k: nat)
    requires k <= |objects|
  {
    forall a :: Sat(constraints, a) <==> Sat(pc, a) && NoHolder(objects, k, Eval(p, a), bytes)
  }

  lemma AccessQuery(mo: MemoryObject, p: Expr, bytes: nat)
    requires IsPointer(p) && Allocated(mo) && 0 < bytes
    ensures IsBool(AccessCheck(mo, p, bytes))
    ensures forall a :: IsTrue(AccessCheck(mo, p, bytes), a) <==> ContainsAccess(mo, Eval(p, a), bytes)
    ensures forall a :: IsTrue(IsZero(AccessCheck(mo, p, bytes)), a) <==> !ContainsAccess(mo, Eval(p, a), bytes)
  {
    ChecksAreBool(mo, p, bytes);
    hide AccessCheck, ContainsAccess, IsTrue, IsBool;
    forall a
      ensures IsTrue(AccessCheck(mo, p, bytes), a) <==> ContainsAccess(mo, Eval(p, a), bytes)
      ensures IsTrue(IsZero(AccessCheck(mo, p, bytes)), a) <==> !ContainsAccess(mo, Eval(p, a), bytes)
    {
      AccessCheckMeans(mo, p, bytes, a);
      EvalIsZero(AccessCheck(mo, p, bytes), a);
    }
  }

  lemma Narrow(before: seq<Expr>, after: seq<Expr>, pc: seq<Expr>, p: Expr, bytes: nat, objects: seq<MemoryObject>,
               k: nat)
    requires k < |objects| && MissesFirst(before, pc, p, bytes, objects, k)
    ensures (forall a :: Sat(after, a) <==> Sat(before, a) && ContainsAccess(objects[k], Eval(p, a), bytes)) ==>
              HoldsAt(after, pc, p, bytes, objects, k)
    ensures (forall a :: Sat(after, a) <==> Sat(before, a) && !ContainsAccess(objects[k], Eval(p, a), bytes)) ==>
              MissesFirst(after, pc, p, bytes, objects, k + 1)
  {
    hide Sat, Eval, ContainsAccess;
  }

  lemma Appended(constraints: seq<Expr>, e: Expr)
    ensures forall a :: Sat(constraints + [e], a) <==> Sat(constraints, a) && IsTrue(e, a)
  {
    forall a ensures Sat(constraints + [e], a) <==> Sat(constraints, a) && IsTrue(e, a) {
      SatAppend(constraints, e, a);
    }
  }

  /** What each outcome of the fork on `objects[k]` says about the inputs. */
  lemma ForkOnObject(before: seq<Expr>, pc: seq<Expr>, p: Expr, bytes: nat, objects: seq<MemoryObject>, k: nat,
                     solver: Solver)
    requires k < |objects| && IsPointer(p) && Allocated(objects[k]) && 0 < bytes
    requires MissesFirst(before, pc, p, bytes, objects, k) && solver.Sound() && Satisfiable(before)
    ensures var q := AccessCheck(objects[k], p, bytes);
      match solver.Evaluate(before, q)
      case None => true
      case Some(ProvablyTrue) => HoldsAt(before, pc, p, bytes, objects, k)
      case Some(ProvablyFalse) => MissesFirst(before, pc, p, bytes, objects, k + 1)
      case Some(Unknown) =>
        && !q.Const?
        && HoldsAt(before + [q], pc, p, bytes, objects, k)
        && Satisfiable(before + [q])
        && MissesFirst(before + [IsZero(q)], pc, p, bytes, objects, k + 1)
        && Satisfiable(before + [IsZero(q)])
  {
    var q := AccessCheck(objects[k], p, bytes);
    AccessQuery(objects[k], p, bytes);
    solver.EvaluateMeans(before, q);
    hide AccessCheck, ContainsAccess, IsTrue, Eval, Solver.Sound, MissesFirst, HoldsAt, Sat;
    Narrow(before, before, pc, p, bytes, objects, k);
    Narrow(before, before + [q], pc, p, bytes, objects, k);
    Narrow(before, before + [IsZero(q)], pc, p, bytes, objects, k);
    Appended(before, q);
    Appended(before, IsZero(q));
  }

  // ----- What an access does to one object -----

  lemma AccessOffset(mo: MemoryObject, p: Expr, bytes: nat, a: Assignment)
    requires IsPointer(p) && Allocated(mo) && ContainsAccess(mo, Eval(p, a), bytes)
    ensures Eval(OffsetExpr(mo, p), a) == Eval(p, a) - mo.address
    ensures Eval(OffsetExpr(mo, p), a) + bytes <= 0x1_0000_0000
  {
    hide Eval;
    Resolution.OffsetValue(mo, p, a);
  }

  /** The target register of the top frame gets the value; nothing else changes. */
  function BindLocal(stack: seq<Frame>, target: nat, value: Expr): (bound: seq<Frame>)
    requires stack != [] && target < |stack[|stack| - 1].locals|
    ensures |bound| == |stack| && |bound[|stack| - 1].locals| == |stack[|stack| - 1].locals|
    ensures forall k | 0 <= k < |stack| ::
              bound[k].caller == stack[k].caller && bound[k].function_ == stack[k].function_
    ensures forall k | 0 <= k < |stack| - 1 :: bound[k] == stack[k]
    ensures var before, after := stack[|stack| - 1].locals, bound[|stack| - 1].locals;
      && after[target] == Some(value)
      && forall i | 0 <= i < |after| && i != target :: after[i] == before[i]
  {
    var top := stack[|stack| - 1];
    stack[|stack| - 1 := top.(locals := top.locals[target := Some(value)])]
  }

  /** A load needs its target register in the top frame. */
  predicate HasTarget(stack: seq<Frame>, access: Access) {
    access.Load? ==> stack != [] && access.target < |stack[|stack| - 1].locals|
  }

  /** The registers after the access: a load binds its target. */
  function StackAfter(stack: seq<Frame>, access: Access, effect: Effect): seq<Frame>
    requires HasTarget(stack, access)
  {
    if access.Load? && effect.Loaded? then BindLocal(stack, access.target, effect.result) else stack
  }

  function EffectOn(mo: MemoryObject, store: Store, readOnly: bool, p: Expr, access: Access): Effect
    requires access.Valid()
  {
    if access.Load? then Loaded(ReadExpr(store, OffsetExpr(mo, p), access.width))
    else if readOnly then ReadOnlyFault else Stored
  }

  /** The contents of the accessed object after the effect. */
  function StoreAfter(store: Store, mo: MemoryObject, p: Expr, access: Access, effect: Effect): Store
    requires access.Valid()
  {
    if effect.Stored? && access.Store? then WriteExpr(store, OffsetExpr(mo, p), access.value) else store
  }

  /** For every input the object holds, the load yields its bytes at the concrete offset and changes nothing. */
  lemma LoadMeans(mo: MemoryObject, store: Store, readOnly: bool, p: Expr, access: Access, a: Assignment)
    requires IsPointer(p) && Allocated(mo) && access.Valid() && access.Load?
    requires ContainsAccess(mo, Eval(p, a), access.Bytes())
    ensures var effect := EffectOn(mo, store, readOnly, p, access);
      && effect.Loaded? && StoreAfter(store, mo, p, access, effect) == store
      && Eval(effect.result, a) ==
         if access.width == BOOL then ByteAt(store, Eval(p, a) - mo.address, a) % 2
         else LittleEndian(store, Eval(p, a) - mo.address, access.width / 8, a)
  {
    AccessOffset(mo, p, access.Bytes(), a);
    hide Eval, ReadExpr;
    ReadExprMeans(store, OffsetExpr(mo, p), access.width, a);
  }

  /**
   For every input the object holds, the store changes the bytes at the concrete offset and
   no others; in a read-only object it is an error and changes none.
   */
  lemma StoreMeans(mo: MemoryObject, store: Store, readOnly: bool, p: Expr, access: Access, k: nat, a: Assignment)
    requires IsPointer(p) && Allocated(mo) && access.Valid() && access.Store?
    requires ContainsAccess(mo, Eval(p, a), access.Bytes())
    ensures var effect := EffectOn(mo, store, readOnly, p, access);
      && effect == (if readOnly then ReadOnlyFault else Stored)
      && ByteAt(StoreAfter(store, mo, p, access, effect), k, a) ==
         if readOnly then ByteAt(store, k, a)
         else ByteAfterWrite(store, Eval(p, a) - mo.address, Eval(access.value, a), Exprs.Width(access.value), k, a)
  {
    AccessOffset(mo, p, access.Bytes(), a);
    hide Eval, WriteExpr;
    WriteExprMeans(store, OffsetExpr(mo, p), access.value, k, a);
  }

  /** What a space sees after the effect on one of its objects. */
  function ObjectSight(v: Sight, mo: MemoryObject, p: Expr, access: Access, effect: Effect): Sight
    requires access.Valid()
  {
    if mo in v then v[mo := StoreAfter(v[mo], mo, p, access, effect)] else v
  }

  ghost function SightAfter(v: map<AddressSpace, Sight>, space: AddressSpace, mo: MemoryObject, p: Expr, access: Access,
                            effect: Effect): map<AddressSpace, Sight>
    requires access.Valid()
  {
    if space in v then v[space := ObjectSight(v[space], mo, p, access, effect)] else v
  }

  method LoadFrom(bound: ExecutionState, mo: MemoryObject, os: ObjectState, p: Expr, width: nat, target: nat)
    returns (effect: Effect)
    requires Accessible(width) && bound.stack != [] && target < |bound.stack[|bound.stack| - 1].locals|
    modifies bound`stack
    ensures effect == Loaded(ReadExpr(os.store, OffsetExpr(mo, p), width))
    ensures bound.stack == BindLocal(old(bound.stack), target, effect.result)
  {
    hide ReadExpr;
    var result := ReadObject(os.store, OffsetExpr(mo, p), width);
    bound.stack := BindLocal(bound.stack, target, result);
    effect := Loaded(result);
  }

  method StoreInto(space: AddressSpace, mo: MemoryObject, os: ObjectState, p: Expr, value: Expr, ghost calm: bool,
                   ghost spaces: set<AddressSpace>, ghost states: set<ObjectState>)
    returns (ghost states': set<ObjectState>)
    requires space in spaces && mo in space.objects && space.objects[mo] == os && os in states && !os.readOnly
    requires Access.Store(value).Valid() && (calm ==> AllIsolated(spaces, states))
    modifies space`objects, os`store
    ensures states <= states' && fresh(states' - states) && (calm ==> AllIsolated(spaces, states'))
    ensures mo in space.objects && space.objects[mo].store == WriteExpr(old(os.store), OffsetExpr(mo, p), value)
    ensures !space.objects[mo].readOnly
    ensures calm ==>
      Sights(spaces, states') == SightAfter(old(Sights(spaces, states)), space, mo, p, Access.Store(value), Stored)
  {
    hide Sights, AllIsolated, WriteExpr, SightAfter;
    SightHas(spaces, states, space, mo);
    var store := WriteObject(os.store, OffsetExpr(mo, p), value);
    StoredSight(Sights(spaces, states), space, mo, os.store, p, value);
    states' := Replace(space, mo, os, store, calm, spaces, states);
  }

  lemma UnchangedSight(v: map<AddressSpace, Sight>, space: AddressSpace, mo: MemoryObject, p: Expr, access: Access)
    requires access.Valid()
    ensures forall effect: Effect | !effect.Stored? :: SightAfter(v, space, mo, p, access, effect) == v
  {
    forall effect: Effect | !effect.Stored? && space in v
      ensures ObjectSight(v[space], mo, p, access, effect) == v[space]
    {}
  }

  lemma StoredSight(v: map<AddressSpace, Sight>, space: AddressSpace, mo: MemoryObject,
                    store: ObjectStates.Store, p: Expr, value: Expr)
    requires space in v && mo in v[space] && v[space][mo] == store && Accessible(Width(value)) && WellFormed(value)
    ensures SightAfter(v, space, mo, p, Access.Store(value), Stored) ==
            v[space := v[space][mo := WriteExpr(store, OffsetExpr(mo, p), value)]]
  {}

  /**
   The effect of the access on the object, for a state whose inputs all stay inside it. The caller says by `calm`
   whether the spaces are isolated; only then is the effect invisible to the others.
   */
  method ApplyAccess(bound: ExecutionState, mo: MemoryObject, os: ObjectState, p: Expr, access: Access,
                     ghost calm: bool, ghost spaces: set<AddressSpace>, ghost states: set<ObjectState>)
    returns (effect: Effect, ghost states': set<ObjectState>)
    requires bound.addressSpace in spaces && mo in bound.addressSpace.objects
    requires bound.addressSpace.objects[mo] == os && os in states
    requires access.Valid() && HasTarget(bound.stack, access) && (calm ==> AllIsolated(spaces, states))
    modifies bound`stack, bound.addressSpace`objects, os`store
    ensures states <= states' && fresh(states' - states) && (calm ==> AllIsolated(spaces, states'))
    ensures effect == EffectOn(mo, old(os.store), os.readOnly, p, access)
    ensures bound.stack == StackAfter(old(bound.stack), access, effect)
    ensures mo in bound.addressSpace.objects
    ensures bound.addressSpace.objects[mo].store == StoreAfter(old(os.store), mo, p, access, effect)
    ensures bound.addressSpace.objects[mo].readOnly == os.readOnly
    ensures calm ==>
      Sights(spaces, states') == SightAfter(old(Sights(spaces, states)), bound.addressSpace, mo, p, access, effect)
  {
    hide Sights, AllIsolated, ReadExpr, WriteExpr, BindLocal, Accessible, WellFormed, Width, SightAfter;
    UnchangedSight(Sights(spaces, states), bound.addressSpace, mo, p, access);
    match access {
      case Load(width, target) =>
        effect := LoadFrom(bound, mo, os, p, width, target);
        states' := states;
      case Store(value) =>
        if os.readOnly {
          return ReadOnlyFault, states;
        }
        states' := StoreInto(bound.addressSpace, mo, os, p, value, calm, spaces, states);
        effect := Stored;
    }
  }

  // ----- One object of the list -----

  /** The state that misses everything so far, before object `k` is tried. */
  ghost predicate Pending(unbound: ExecutionState, pc: seq<Expr>, p: Expr, bytes: nat, rl: seq<MemoryObject>, k: nat,
                          objects: map<MemoryObject, ObjectState>, stack: seq<Frame>,
                          spaces: set<AddressSpace>, states: set<ObjectState>)
    requires k <= |rl|
    reads unbound, unbound.addressSpace
  {
    && MissesFirst(unbound.constraints, pc, p, bytes, rl, k) && Satisfiable(unbound.constraints)
    && unbound.stack == stack && unbound.addressSpace in spaces && unbound.addressSpace.objects == objects
    && (forall mo <- rl :: mo in objects) && (forall mo <- objects :: objects[mo] in states)
  }

  /** No input is left that misses the first `k` objects. */
  ghost predicate NoneMisses(pc: seq<Expr>, p: Expr, bytes: nat, rl: seq<MemoryObject>, k: nat)
    requires k <= |rl|
  {
    forall a :: Sat(pc, a) ==> !NoHolder(rl, k, Eval(p, a), bytes)
  }

  /** No input has object `k` as its first holder. */
  ghost predicate NoneHolds(pc: seq<Expr>, p: Expr, bytes: nat, rl: seq<MemoryObject>, k: nat)
    requires k < |rl|
  {
    forall a :: Sat(pc, a) ==> !FirstHolder(rl, k, Eval(p, a), bytes)
  }

  lemma BothMiss(constraints: seq<Expr>, pc: seq<Expr>, p: Expr, bytes: nat, rl: seq<MemoryObject>, k: nat)
    requires k < |rl| && MissesFirst(constraints, pc, p, bytes, rl, k)
    ensures MissesFirst(constraints, pc, p, bytes, rl, k + 1) ==> NoneHolds(pc, p, bytes, rl, k)
    ensures HoldsAt(constraints, pc, p, bytes, rl, k) ==> NoneMisses(pc, p, bytes, rl, k + 1)
  {
    hide Sat, Eval, ContainsAccess;
  }

  /** What handling object `k` leaves, whatever the fork's outcome; both null is a timeout. */
  ghost predicate Outcome(bound: ExecutionState?, rest: ExecutionState?, pc: seq<Expr>, p: Expr, bytes: nat,
                          rl: seq<MemoryObject>, k: nat)
    requires k < |rl|
    reads bound, rest
  {
    && (bound != null ==> HoldsAt(bound.constraints, pc, p, bytes, rl, k) && Satisfiable(bound.constraints))
    && (rest != null ==> MissesFirst(rest.constraints, pc, p, bytes, rl, k + 1) && Satisfiable(rest.constraints))
    && (bound != null && rest == null ==> NoneMisses(pc, p, bytes, rl, k + 1))
    && (bound == null && rest != null ==> NoneHolds(pc, p, bytes, rl, k))
  }

  method ForkOnAccess(unbound: ExecutionState, solver: Solver, ghost pc: seq<Expr>, p: Expr, bytes: nat,
                      ghost rl: seq<MemoryObject>, ghost k: nat, mo: MemoryObject,
                      ghost objects: map<MemoryObject, ObjectState>, ghost stack: seq<Frame>, ghost calm: bool,
                      ghost spaces: set<AddressSpace>, ghost states: set<ObjectState>)
    returns (bound: ExecutionState?, rest: ExecutionState?, ghost spaces': set<AddressSpace>)
    requires k < |rl| && rl[k] == mo && IsPointer(p) && Allocated(mo) && 0 < bytes && solver.Sound()
    requires Pending(unbound, pc, p, bytes, rl, k, objects, stack, spaces, states)
    requires calm ==> AllIsolated(spaces, states) && unbound.addressSpace.cowKey + 1 < KEY_LIMIT
    modifies unbound`constraints, unbound`weight, unbound`depth, unbound.addressSpace`cowKey
    ensures Outcome(bound, rest, pc, p, bytes, rl, k)
    ensures bound != null ==> bound == unbound
    ensures rest != null && bound != null ==> fresh(rest) && fresh(rest.addressSpace)
    ensures rest != null && bound == null ==> rest == unbound
    ensures bound == null && rest == null <==>
      solver.Evaluate(old(unbound.constraints), AccessCheck(mo, p, bytes)).None?
    ensures bound == null && rest == null ==> unbound.constraints == old(unbound.constraints)
    ensures rest != null ==> Pending(rest, pc, p, bytes, rl, k + 1, objects, stack, spaces', states)
    ensures calm && rest != null ==> rest.addressSpace.cowKey <= old(unbound.addressSpace.cowKey) + 1
    ensures spaces <= spaces' && (calm ==> AllIsolated(spaces', states))
    ensures unbound.addressSpace in old(Sights(spaces, states))
    ensures calm ==>
      (var was := old(Sights(spaces, states));
       Sights(spaces', states) ==
       (if bound != null && rest != null then was[rest.addressSpace := was[unbound.addressSpace]] else was))
  {
    hide Sights, AllIsolated, HoldsAt, MissesFirst, NoneMisses;
    hide NoneHolds, Satisfiable, Solver.Sound, Solver.Evaluate, AccessCheck;
    SightKeys(spaces, states);
    ghost var before := unbound.constraints;
    ForkOnObject(before, pc, p, bytes, rl, k, solver);
    BothMiss(before, pc, p, bytes, rl, k);
    bound, rest := Fork(unbound, AccessCheck(mo, p, bytes), solver, spaces, states);
    spaces' := if bound != null && rest != null then spaces + {rest.addressSpace} else spaces;
  }

  /** What the spaces see after object `k`: a rest that split off sees what was there, the bound state the effect. */
  ghost function HandledSights(was: map<AddressSpace, Sight>, unbound: AddressSpace, bound: ExecutionState?,
                               rest: ExecutionState?, mo: MemoryObject, p: Expr, access: Access,
                               effect: Effect): map<AddressSpace, Sight>
    requires access.Valid() && unbound in was
  {
    var split := if bound != null && rest != null then was[rest.addressSpace := was[unbound]] else was;
    if bound != null then SightAfter(split, unbound, mo, p, access, effect) else split
  }

  method HandleObject(unbound: ExecutionState, solver: Solver, ghost pc: seq<Expr>, p: Expr, access: Access,
                      ghost rl: seq<MemoryObject>, ghost k: nat, mo: MemoryObject, os: ObjectState,
                      ghost objects: map<MemoryObject, ObjectState>, ghost stack: seq<Frame>, ghost calm: bool,
                      ghost spaces: set<AddressSpace>, ghost states: set<ObjectState>)
    returns (bound: ExecutionState?, rest: ExecutionState?, effect: Effect,
             ghost spaces': set<AddressSpace>, ghost states': set<ObjectState>)
    requires k < |rl| && rl[k] == mo && mo in objects && objects[mo] == os
    requires IsPointer(p) && Allocated(mo) && access.Valid() && HasTarget(stack, access) && solver.Sound()
    requires Pending(unbound, pc, p, access.Bytes(), rl, k, objects, stack, spaces, states)
    requires calm ==> AllIsolated(spaces, states) && unbound.addressSpace.cowKey + 1 < KEY_LIMIT
    modifies unbound, unbound.addressSpace, os`store
    ensures Outcome(bound, rest, pc, p, access.Bytes(), rl, k)
    ensures bound != null ==> bound == unbound
    ensures rest != null && bound != null ==> fresh(rest) && fresh(rest.addressSpace)
    ensures rest != null && bound == null ==> rest == unbound
    ensures bound == null && rest == null <==>
            solver.Evaluate(old(unbound.constraints), AccessCheck(mo, p, access.Bytes())).None?
    ensures bound == null && rest == null ==> unbound.constraints == old(unbound.constraints)
    ensures rest != null ==> Pending(rest, pc, p, access.Bytes(), rl, k + 1, objects, stack, spaces', states')
    ensures calm && rest != null ==> rest.addressSpace.cowKey <= old(unbound.addressSpace.cowKey) + 1
    ensures spaces <= spaces' && states <= states' && (calm ==> AllIsolated(spaces', states'))
    ensures bound != null ==> effect == EffectOn(mo, old(os.store), os.readOnly, p, access)
    ensures bound != null ==> bound.stack == StackAfter(stack, access, effect)
    ensures bound != null ==>
      && mo in bound.addressSpace.objects
      && bound.addressSpace.objects[mo].store == StoreAfter(old(os.store), mo, p, access, effect)
      && bound.addressSpace.objects[mo].readOnly == os.readOnly
    ensures unbound.addressSpace in old(Sights(spaces, states))
    ensures calm ==>
      (Sights(spaces', states') ==
       HandledSights(old(Sights(spaces, states)), unbound.addressSpace, bound, rest, mo, p, access, effect))
  {
    hide Sights, AllIsolated, HoldsAt, MissesFirst, NoneMisses;
    hide NoneHolds, Satisfiable, Solver.Sound, SightAfter, Access.Valid, EffectOn;
    PositiveBytes(access);
    bound, rest, spaces' :=
      ForkOnAccess(unbound, solver, pc, p, access.Bytes(), rl, k, mo, objects, stack, calm, spaces, states);
    states' := states;
    effect := ReadOnlyFault;
    if bound != null {
      effect, states' := ApplyAccess(bound, mo, os, p, access, calm, spaces', states);
    }
  }

  lemma PositiveBytes(access: Access)
    requires access.Valid()
    ensures 0 < access.Bytes()
  {}

  // ----- The loop over the resolved objects -----

  /** A state that goes on, the position of its object in the list, and the effect there. */
  datatype Successor = Successor(state: ExecutionState, at: nat, effect: Effect)

  ghost function Extended(successors: seq<Successor>, bound: ExecutionState?, k: nat, effect: Effect): seq<Successor> {
    if bound != null then successors + [Successor(bound, k, effect)] else successors
  }

  /**
   Each successor holds exactly the inputs its object is the first to hold, and no input of the first `k` objects is
   lost.
   */
  ghost predicate Settled(successors: seq<Successor>, pc: seq<Expr>, p: Expr, bytes: nat, rl: seq<MemoryObject>, k: nat)
    requires k <= |rl|
    reads set i | 0 <= i < |successors| :: successors[i].state
  {
    && (forall i | 0 <= i < |successors| ::
          && successors[i].at < k && HoldsAt(successors[i].state.constraints, pc, p, bytes, rl, successors[i].at)
          && Satisfiable(successors[i].state.constraints))
    && (forall i, j | 0 <= i < j < |successors| :: successors[i].at < successors[j].at)
    && (forall j | 0 <= j < k ::
          NoneHolds(pc, p, bytes, rl, j) || exists i :: 0 <= i < |successors| && successors[i].at == j)
  }

  /** States and spaces of successors are distinct, and distinct from the given one. */
  ghost predicate Apart(successors: seq<Successor>, unbound: ExecutionState?) {
    && (forall i, j | 0 <= i < j < |successors| ::
          successors[i].state != successors[j].state
            && successors[i].state.addressSpace != successors[j].state.addressSpace)
    && (unbound != null ==> forall i | 0 <= i < |successors| ::
          successors[i].state != unbound && successors[i].state.addressSpace != unbound.addressSpace)
  }

  /** Each successor's space shows the effect of the access on its object and nothing else. */
  ghost predicate Shown(successors: seq<Successor>, v: map<AddressSpace, Sight>, v0: Sight,
                        objects: map<MemoryObject, bool>, rl: seq<MemoryObject>, p: Expr, access: Access)
    requires access.Valid()
  {
    forall i | 0 <= i < |successors| ::
      && successors[i].at < |rl| && rl[successors[i].at] in v0 && rl[successors[i].at] in objects
      && successors[i].state.addressSpace in v
      && var mo := rl[successors[i].at];
         && successors[i].effect == EffectOn(mo, v0[mo], objects[mo], p, access)
         && v[successors[i].state.addressSpace] == ObjectSight(v0, mo, p, access, successors[i].effect)
  }

  /** The spaces of other states see what they saw. */
  ghost predicate OthersKept(before: map<AddressSpace, Sight>, v: map<AddressSpace, Sight>, space: AddressSpace) {
    forall t <- before :: t != space ==> t in v && v[t] == before[t]
  }

  lemma SettledStep(successors: seq<Successor>, bound: ExecutionState?, rest: ExecutionState?, effect: Effect,
                    pc: seq<Expr>, p: Expr, bytes: nat, rl: seq<MemoryObject>, k: nat)
    requires k < |rl| && Settled(successors, pc, p, bytes, rl, k) && Outcome(bound, rest, pc, p, bytes, rl, k)
    requires bound != null || rest != null
    ensures Settled(Extended(successors, bound, k, effect), pc, p, bytes, rl, k + 1)
  {
    hide HoldsAt, NoneHolds, NoneMisses, MissesFirst, Satisfiable;
    if bound != null {
      var successors' := successors + [Successor(bound, k, effect)];
      assert successors'[|successors|].at == k;
      forall j | 0 <= j < k && !NoneHolds(pc, p, bytes, rl, j)
        ensures exists i :: 0 <= i < |successors'| && successors'[i].at == j
      {
        var i :| 0 <= i < |successors| && successors[i].at == j;
        assert successors'[i].at == j;
      }
    }
  }

  lemma ShownStep(successors: seq<Successor>, was: map<AddressSpace, Sight>, v0: Sight,
                  readOnly: map<MemoryObject, bool>, rl: seq<MemoryObject>, k: nat, p: Expr, access: Access,
                  unbound: ExecutionState, bound: ExecutionState?, rest: ExecutionState?, effect: Effect)
    requires access.Valid() && k < |rl| && rl[k] in v0 && rl[k] in readOnly
    requires Shown(successors, was, v0, readOnly, rl, p, access) && Apart(successors, unbound)
    requires unbound.addressSpace in was && was[unbound.addressSpace] == v0
    requires bound != null ==> bound == unbound && effect == EffectOn(rl[k], v0[rl[k]], readOnly[rl[k]], p, access)
    requires rest != null && bound != null ==> rest.addressSpace !in was
    ensures var v := HandledSights(was, unbound.addressSpace, bound, rest, rl[k], p, access, effect);
      Shown(Extended(successors, bound, k, effect), v, v0, readOnly, rl, p, access)
  {
    hide EffectOn, ObjectSight;
  }

  lemma OthersStep(before: map<AddressSpace, Sight>, was: map<AddressSpace, Sight>, space: AddressSpace,
                   unbound: ExecutionState, bound: ExecutionState?, rest: ExecutionState?, mo: MemoryObject, p: Expr,
                   access: Access, effect: Effect)
    requires access.Valid() && OthersKept(before, was, space) && unbound.addressSpace in was
    requires unbound.addressSpace == space || unbound.addressSpace !in before
    requires rest != null && bound != null ==> rest.addressSpace !in was
    ensures OthersKept(before, HandledSights(was, unbound.addressSpace, bound, rest, mo, p, access, effect), space)
  {
    hide ObjectSight;
  }

  /** The state not yet bound: a new one or the original, seeing what the original saw. */
  ghost predicate Rest(unbound: ExecutionState, pc: seq<Expr>, p: Expr, bytes: nat, rl: seq<MemoryObject>, k: nat,
                       objects: map<MemoryObject, ObjectState>, stack: seq<Frame>, v0: Sight, calm: bool, key: nat,
                       spaces: set<AddressSpace>, states: set<ObjectState>)
    requires k <= |rl|
    reads unbound, unbound.addressSpace, spaces, states
  {
    && Pending(unbound, pc, p, bytes, rl, k, objects, stack, spaces, states)
    && (calm ==>
          && unbound.addressSpace.cowKey <= key
          && unbound.addressSpace in Sights(spaces, states) && Sights(spaces, states)[unbound.addressSpace] == v0)
  }

  lemma StartsPending(state: ExecutionState, p: Expr, bytes: nat, rl: seq<MemoryObject>, calm: bool,
                      spaces: set<AddressSpace>, states: set<ObjectState>)
    requires Satisfiable(state.constraints) && state.addressSpace in spaces
    requires forall mo <- rl :: mo in state.addressSpace.objects
    requires forall mo <- state.addressSpace.objects :: state.addressSpace.objects[mo] in states
    ensures Sights(spaces, states).Keys == spaces
    ensures forall mo <- state.addressSpace.objects :: mo in Sights(spaces, states)[state.addressSpace]
    ensures Rest(state, state.constraints, p, bytes, rl, 0, state.addressSpace.objects, state.stack,
                 Sights(spaces, states)[state.addressSpace], calm, state.addressSpace.cowKey, spaces, states)
  {
    forall mo | mo in state.addressSpace.objects ensures mo in Sights(spaces, states)[state.addressSpace] {
      SightHas(spaces, states, state.addressSpace, mo);
    }
  }

  lemma NothingSettled(pc: seq<Expr>, p: Expr, bytes: nat, rl: seq<MemoryObject>, before: map<AddressSpace, Sight>,
                       v0: Sight, readOnly: map<MemoryObject, bool>, access: Access, space: AddressSpace)
    requires access.Valid()
    ensures Settled([], pc, p, bytes, rl, 0) && Shown([], before, v0, readOnly, rl, p, access)
    ensures OthersKept(before, before, space) && Apart([], null)
  {}

  lemma PendingBinds(unbound: ExecutionState, pc: seq<Expr>, p: Expr, bytes: nat, rl: seq<MemoryObject>, k: nat,
                     objects: map<MemoryObject, ObjectState>, stack: seq<Frame>,
                     spaces: set<AddressSpace>, states: set<ObjectState>)
    requires k <= |rl| && Pending(unbound, pc, p, bytes, rl, k, objects, stack, spaces, states)
    ensures MissesFirst(unbound.constraints, pc, p, bytes, rl, k) && Satisfiable(unbound.constraints)
    ensures unbound.addressSpace in spaces && unbound.addressSpace.objects == objects
    ensures forall mo <- rl :: mo in objects && objects[mo] in states
  {}

  lemma OutcomeMeans(bound: ExecutionState?, rest: ExecutionState?, pc: seq<Expr>, p: Expr, bytes: nat,
                     rl: seq<MemoryObject>, k: nat)
    requires k < |rl| && Outcome(bound, rest, pc, p, bytes, rl, k)
    ensures bound != null && rest == null ==> NoneMisses(pc, p, bytes, rl, k + 1)
  {}

  /** What is left over still sees what was there. */
  lemma RestSees(was: map<AddressSpace, Sight>, unbound: ExecutionState, bound: ExecutionState?, rest: ExecutionState?,
                 mo: MemoryObject, p: Expr, access: Access, effect: Effect)
    requires access.Valid() && unbound.addressSpace in was && rest != null
    requires bound == null ==> rest == unbound
    requires bound != null ==> rest.addressSpace !in was
    ensures var v := HandledSights(was, unbound.addressSpace, bound, rest, mo, p, access, effect);
      rest.addressSpace in v && v[rest.addressSpace] == was[unbound.addressSpace]
  {
    hide ObjectSight;
  }

  /** What stays fixed while the loop runs. It is calm when the spaces are isolated and the key counter has room. */
  datatype Setting = Setting(pc: seq<Expr>, p: Expr, access: Access, rl: seq<MemoryObject>,
                             objects: map<MemoryObject, ObjectState>, stack: seq<Frame>,
                             readOnly: map<MemoryObject, bool>, before: map<AddressSpace, Sight>, space: AddressSpace,
                             calm: bool)
  {
    ghost predicate Valid() {
      && access.Valid() && IsPointer(p) && HasTarget(stack, access) && space in before
      && (forall mo <- rl :: Allocated(mo) && mo in objects && mo in readOnly && mo in before[space])
    }

    ghost predicate ReadOnlyKept()
      reads set mo | mo in objects :: objects[mo]
    {
      forall mo <- objects :: mo in readOnly && objects[mo].readOnly == readOnly[mo]
    }
  }

  /** The successors so far are right and, in a calm setting, right about what every space sees. */
  ghost predicate Done(s: Setting, successors: seq<Successor>, k: nat, spaces: set<AddressSpace>,
                       states: set<ObjectState>)
    requires s.Valid() && k <= |s.rl|
    reads spaces, states, set i | 0 <= i < |successors| :: successors[i].state
  {
    && Settled(successors, s.pc, s.p, s.access.Bytes(), s.rl, k)
    && (s.calm ==>
          && AllIsolated(spaces, states)
          && Shown(successors, Sights(spaces, states), s.before[s.space], s.readOnly, s.rl, s.p, s.access)
          && OthersKept(s.before, Sights(spaces, states), s.space))
    && Registers(successors, s.stack, s.access)
    && (forall i | 0 <= i < |successors| :: successors[i].state.addressSpace in spaces)
  }

  ghost predicate Registers(successors: seq<Successor>, stack: seq<Frame>, access: Access)
    requires HasTarget(stack, access)
    reads set i | 0 <= i < |successors| :: successors[i].state
  {
    forall i | 0 <= i < |successors| :: successors[i].state.stack == StackAfter(stack, access, successors[i].effect)
  }

  /** The unbound state misses the first `k` objects and is apart from all successors. */
  ghost predicate Open(s: Setting, successors: seq<Successor>, unbound: ExecutionState, k: nat, key: nat,
                       spaces: set<AddressSpace>, states: set<ObjectState>)
    requires s.Valid() && k <= |s.rl|
    reads unbound, unbound.addressSpace, spaces, states
  {
    && Rest(unbound, s.pc, s.p, s.access.Bytes(), s.rl, k, s.objects, s.stack, s.before[s.space], s.calm,
            key, spaces, states)
    && Apart(successors, unbound)
    && (unbound.addressSpace == s.space || unbound.addressSpace !in s.before)
  }

  lemma DoneStep(s: Setting, successors: seq<Successor>, was: map<AddressSpace, Sight>, k: nat,
                 spaces: set<AddressSpace>, spaces': set<AddressSpace>, states': set<ObjectState>,
                 unbound: ExecutionState, bound: ExecutionState?, rest: ExecutionState?, effect: Effect)
    requires s.Valid() && k < |s.rl| && (bound != null || rest != null)
    requires Settled(successors, s.pc, s.p, s.access.Bytes(), s.rl, k) && Apart(successors, unbound)
    requires s.calm ==>
      && Shown(successors, was, s.before[s.space], s.readOnly, s.rl, s.p, s.access)
      && OthersKept(s.before, was, s.space)
      && AllIsolated(spaces', states')
    requires forall i | 0 <= i < |successors| :: successors[i].state.addressSpace in spaces
    requires Registers(successors, s.stack, s.access)
    requires bound != null ==> bound.stack == StackAfter(s.stack, s.access, effect)
    requires unbound.addressSpace == s.space || unbound.addressSpace !in s.before
    requires unbound.addressSpace in was
    requires (s.calm ==> was[unbound.addressSpace] == s.before[s.space]) && was.Keys == spaces
    requires unbound.addressSpace in spaces && spaces <= spaces'
    requires Outcome(bound, rest, s.pc, s.p, s.access.Bytes(), s.rl, k)
    requires bound != null ==> bound == unbound
    requires s.calm && bound != null ==>
      effect == EffectOn(s.rl[k], s.before[s.space][s.rl[k]], s.readOnly[s.rl[k]], s.p, s.access)
    requires rest != null && bound != null ==> rest.addressSpace !in spaces
    requires s.calm ==>
      Sights(spaces', states') == HandledSights(was, unbound.addressSpace, bound, rest, s.rl[k], s.p, s.access, effect)
    ensures Done(s, Extended(successors, bound, k, effect), k + 1, spaces', states')
  {
    hide Sights, AllIsolated, Settled, Shown, OthersKept;
    hide HandledSights, Outcome, Apart, EffectOn, Access.Valid, StackAfter;
    SettledStep(successors, bound, rest, effect, s.pc, s.p, s.access.Bytes(), s.rl, k);
    if s.calm {
      ShownStep(successors, was, s.before[s.space], s.readOnly, s.rl, k, s.p, s.access, unbound, bound, rest, effect);
      OthersStep(s.before, was, s.space, unbound, bound, rest, s.rl[k], s.p, s.access, effect);
    }
  }

  lemma OpenStep(s: Setting, successors: seq<Successor>, was: map<AddressSpace, Sight>, k: nat, key: nat,
                 spaces: set<AddressSpace>, spaces': set<AddressSpace>, states': set<ObjectState>,
                 unbound: ExecutionState, bound: ExecutionState?, rest: ExecutionState, effect: Effect)
    requires s.Valid() && k < |s.rl| && Apart(successors, unbound)
    requires forall i | 0 <= i < |successors| ::
      successors[i].state.addressSpace in spaces && successors[i].state != rest
    requires unbound.addressSpace == s.space || unbound.addressSpace !in s.before
    requires unbound.addressSpace in was
    requires (s.calm ==> was[unbound.addressSpace] == s.before[s.space]) && was.Keys == spaces
    requires s.before.Keys <= spaces
    requires Pending(rest, s.pc, s.p, s.access.Bytes(), s.rl, k + 1, s.objects, s.stack, spaces', states')
    requires s.calm ==> rest.addressSpace.cowKey <= key
    requires if bound == null then rest == unbound
      else bound == unbound && rest != unbound && rest.addressSpace !in spaces
    requires unbound.addressSpace in spaces
    requires s.calm ==>
      Sights(spaces', states') == HandledSights(was, unbound.addressSpace, bound, rest, s.rl[k], s.p, s.access, effect)
    ensures Open(s, Extended(successors, bound, k, effect), rest, k + 1, key, spaces', states')
  {
    hide Sights, AllIsolated, Pending, HandledSights, Access.Valid, IsPointer;
    RestSees(was, unbound, bound, rest, s.rl[k], s.p, s.access, effect);
  }

  /** One round of the loop. Without a bound or a remaining state the fork timed out. */
  method Advance(ghost s: Setting, successors: seq<Successor>, unbound: ExecutionState, solver: Solver, p: Expr,
                 access: Access, k: nat, mo: MemoryObject, os: ObjectState, ghost key: nat,
                 ghost spaces: set<AddressSpace>, ghost states: set<ObjectState>)
    returns (successors': seq<Successor>, bound: ExecutionState?, rest: ExecutionState?,
             ghost spaces': set<AddressSpace>, ghost states': set<ObjectState>)
    requires s.Valid() && k < |s.rl| && p == s.p && access == s.access && mo == s.rl[k] && os == s.objects[mo]
    requires solver.Sound() && (s.calm ==> key + 1 < KEY_LIMIT) && s.before.Keys <= spaces
    requires Done(s, successors, k, spaces, states) && Open(s, successors, unbound, k, key, spaces, states)
    requires s.ReadOnlyKept()
    modifies unbound, unbound.addressSpace, os`store
    ensures spaces <= spaces' && states <= states' && s.ReadOnlyKept()
    ensures bound == null && rest == null <==>
            solver.Evaluate(old(unbound.constraints), AccessCheck(mo, p, access.Bytes())).None?
    ensures bound == null && rest == null ==>
              && unbound.constraints == old(unbound.constraints)
              && MissesFirst(unbound.constraints, s.pc, p, access.Bytes(), s.rl, k)
              && Satisfiable(unbound.constraints)
              && successors' == successors && Done(s, successors', k, spaces', states')
    ensures bound != null || rest != null ==> Done(s, successors', k + 1, spaces', states')
    ensures rest != null ==> Open(s, successors', rest, k + 1, key + 1, spaces', states')
    ensures rest != null ==> rest == unbound || (fresh(rest) && fresh(rest.addressSpace))
    ensures bound != null && rest == null ==> NoneMisses(s.pc, p, access.Bytes(), s.rl, k + 1)
    ensures Apart(successors', null)
  {
    hide Sights, AllIsolated, Settled, Shown, OthersKept, HandledSights;
    hide Outcome, EffectOn, Access.Valid, Pending, HasTarget, Solver.Sound, Solver.Evaluate, AccessCheck, Access.Bytes;
    hide Satisfiable, MissesFirst, NoneMisses, IsPointer, Allocated;
    hide Registers, StackAfter;
    ghost var was := Sights(spaces, states);
    PendingBinds(unbound, s.pc, p, access.Bytes(), s.rl, k, s.objects, s.stack, spaces, states);
    SightHas(spaces, states, unbound.addressSpace, mo);
    var effect;
    bound, rest, effect, spaces', states' :=
      HandleObject(unbound, solver, s.pc, p, access, s.rl, k, mo, os, s.objects, s.stack, s.calm, spaces, states);
    successors' := successors;
    if bound == null && rest == null {
      NothingHandled(was, unbound.addressSpace, mo, p, access, effect);
      return;
    }
    DoneStep(s, successors, was, k, spaces, spaces', states', unbound, bound, rest, effect);
    OutcomeMeans(bound, rest, s.pc, p, access.Bytes(), s.rl, k);
    if rest != null {
      OpenStep(s, successors, was, k, key + 1, spaces, spaces', states', unbound, bound, rest, effect);
    }
    if bound != null {
      successors' := successors + [Successor(bound, k, effect)];
    }
  }

  lemma NothingHandled(was: map<AddressSpace, Sight>, unbound: AddressSpace, mo: MemoryObject, p: Expr, access: Access,
                       effect: Effect)
    requires access.Valid() && unbound in was
    ensures HandledSights(was, unbound, null, null, mo, p, access, effect) == was
  {}

  /**
   The loop over the resolved objects. The results are the successors that access an
   object, the state of the inputs that miss all handled objects, and a state terminated
   early when a fork timed out; `handled` counts the objects dealt with. `maxForks` is
   the bound on forks of one access, 2147483647 in the original.
   */
  method ExecuteResolved(state: ExecutionState, solver: Solver, p: Expr, rl: seq<MemoryObject>, access: Access,
                         maxForks: nat, ghost spaces: set<AddressSpace>, ghost states: set<ObjectState>)
    returns (successors: seq<Successor>, unbound: ExecutionState?, timedOut: ExecutionState?, handled: nat,
             ghost s: Setting, ghost spaces': set<AddressSpace>, ghost states': set<ObjectState>)
    requires solver.Sound() && IsPointer(p) && access.Valid() && HasTarget(state.stack, access)
    requires Satisfiable(state.constraints) && state.addressSpace in spaces
    requires forall mo <- rl :: Allocated(mo) && mo in state.addressSpace.objects
    requires forall mo <- state.addressSpace.objects :: state.addressSpace.objects[mo] in states
    modifies state, state.addressSpace, state.addressSpace.objects.Values
    ensures s == old(SettingOf(state, p, access, rl, spaces, states)) && s.Valid()
    ensures handled <= |rl| && handled <= maxForks + 1
    ensures Done(s, successors, handled, spaces', states') && Apart(successors, null)
    ensures unbound != null ==> timedOut == null && (handled == |rl| || handled == maxForks + 1)
    ensures unbound != null ==>
              MissesFirst(unbound.constraints, s.pc, p, access.Bytes(), rl, handled) && Satisfiable(unbound.constraints)
    ensures timedOut != null ==>
              MissesFirst(timedOut.constraints, s.pc, p, access.Bytes(), rl, handled)
                && Satisfiable(timedOut.constraints)
    ensures timedOut != null ==>
      handled < |rl| && solver.Evaluate(timedOut.constraints, AccessCheck(rl[handled], p, access.Bytes())).None?
    ensures unbound == null && timedOut == null ==> NoneMisses(s.pc, p, access.Bytes(), rl, handled)
  {
    hide Done, Open, Setting.Valid, Setting.ReadOnlyKept, MissesFirst;
    hide NoneMisses, Satisfiable, Solver.Sound, AllIsolated, Sights;
    hide Access.Valid, IsPointer, HasTarget, Allocated;
    s := SettingOf(state, p, access, rl, spaces, states);
    ghost var key0 := state.addressSpace.cowKey;
    var objects := state.addressSpace.objects;
    StartLoop(state, p, access, rl, spaces, states);
    successors, unbound, timedOut, handled, spaces', states' := [], state, null, 0, spaces, states;
    while handled < |rl|
      invariant handled <= |rl| && handled <= maxForks && unbound != null && timedOut == null
      invariant spaces <= spaces' && s.Valid()
      invariant unbound == state || (fresh(unbound) && fresh(unbound.addressSpace))
      invariant Done(s, successors, handled, spaces', states')
      invariant Open(s, successors, unbound, handled, key0 + handled, spaces', states')
      invariant s.ReadOnlyKept() && Apart(successors, null)
    {
      var mo := rl[handled];
      var current := unbound;
      var rest, bound;
      successors, bound, rest, spaces', states' :=
        Advance(s, successors, current, solver, p, access, handled, mo, objects[mo], key0 + handled, spaces', states');
      unbound := rest;
      if bound == null && rest == null {
        timedOut := current;
        return;
      }
      handled := handled + 1;
      if unbound == null {
        return;
      }
      if handled > maxForks {
        break;
      }
    }
    OpenMisses(s, successors, unbound, handled, key0 + handled, spaces', states');
  }

  ghost function SettingOf(state: ExecutionState, p: Expr, access: Access, rl: seq<MemoryObject>,
                           spaces: set<AddressSpace>, states: set<ObjectState>): Setting
    reads state, state.addressSpace, spaces, states, state.addressSpace.objects.Values
  {
    var objects := state.addressSpace.objects;
    Setting(state.constraints, p, access, rl, objects, state.stack, map mo | mo in objects :: objects[mo].readOnly,
            Sights(spaces, states), state.addressSpace,
            AllIsolated(spaces, states) && state.addressSpace.cowKey + |rl| < KEY_LIMIT)
  }

  lemma StartLoop(state: ExecutionState, p: Expr, access: Access, rl: seq<MemoryObject>,
                  spaces: set<AddressSpace>, states: set<ObjectState>)
    requires IsPointer(p) && access.Valid() && HasTarget(state.stack, access)
    requires Satisfiable(state.constraints) && state.addressSpace in spaces
    requires forall mo <- rl :: Allocated(mo) && mo in state.addressSpace.objects
    requires forall mo <- state.addressSpace.objects :: state.addressSpace.objects[mo] in states
    ensures var s := SettingOf(state, p, access, rl, spaces, states);
      && s.Valid() && s.ReadOnlyKept() && s.before.Keys == spaces && s.objects == state.addressSpace.objects
      && s.pc == state.constraints && s.rl == rl && s.p == p && s.access == access
      && (forall mo <- rl :: mo in s.objects)
      && Done(s, [], 0, spaces, states) && Open(s, [], state, 0, state.addressSpace.cowKey, spaces, states)
  {
    hide AllIsolated, Sights, Access.Valid, IsPointer, HasTarget, Allocated;
    var s := SettingOf(state, p, access, rl, spaces, states);
    StartsPending(state, p, access.Bytes(), rl, s.calm, spaces, states);
    NothingSettled(s.pc, p, access.Bytes(), rl, s.before, s.before[s.space], s.readOnly, access, s.space);
  }

  lemma OpenMisses(s: Setting, successors: seq<Successor>, unbound: ExecutionState, k: nat, key: nat,
                   spaces: set<AddressSpace>, states: set<ObjectState>)
    requires s.Valid() && k <= |s.rl| && Open(s, successors, unbound, k, key, spaces, states)
    ensures MissesFirst(unbound.constraints, s.pc, s.p, s.access.Bytes(), s.rl, k) && Satisfiable(unbound.constraints)
  {}

  // ----- What the whole operation does to the inputs -----

  /** Every input of `pc` satisfies exactly one of the successors' constraints and `left`'s. */
  ghost predicate Partitions(successors: seq<Successor>, left: ExecutionState?, pc: seq<Expr>)
    reads left, set i | 0 <= i < |successors| :: successors[i].state
  {
    forall a | Sat(pc, a) ::
      && ((exists i :: 0 <= i < |successors| && Sat(successors[i].state.constraints, a)) <==>
            !(left != null && Sat(left.constraints, a)))
      && forall i, j | 0 <= i < j < |successors| ::
           !(Sat(successors[i].state.constraints, a) && Sat(successors[j].state.constraints, a))
  }

  /** Each successor holds exactly the inputs whose whole access lies in its object. */
  ghost predicate ByObject(successors: seq<Successor>, pc: seq<Expr>, p: Expr, bytes: nat, rl: seq<MemoryObject>)
    reads set i | 0 <= i < |successors| :: successors[i].state
  {
    forall i | 0 <= i < |successors| :: successors[i].at < |rl| &&
      forall a :: Sat(successors[i].state.constraints, a) <==>
                    Sat(pc, a) && ContainsAccess(rl[successors[i].at], Eval(p, a), bytes)
  }

  /** The constraints hold of exactly the inputs whose access lies in no live object. */
  ghost predicate OutOfBounds(constraints: seq<Expr>, pc: seq<Expr>, p: Expr, bytes: nat, objects: seq<MemoryObject>) {
    forall a :: Sat(constraints, a) <==> Sat(pc, a) && forall mo <- objects :: !ContainsAccess(mo, Eval(p, a), bytes)
  }

  /** The access lies in no live object for some input. */
  ghost predicate SomeOutOfBounds(pc: seq<Expr>, p: Expr, bytes: nat, objects: seq<MemoryObject>) {
    exists a :: Sat(pc, a) && forall mo <- objects :: !ContainsAccess(mo, Eval(p, a), bytes)
  }

  /** Who misses the handled objects is left over, and nobody else is. */
  lemma LeftOver(constraints: seq<Expr>, pc: seq<Expr>, p: Expr, bytes: nat, rl: seq<MemoryObject>, k: nat)
    requires k <= |rl| && MissesFirst(constraints, pc, p, bytes, rl, k) && Satisfiable(constraints)
    ensures !NoneMisses(pc, p, bytes, rl, k)
  {
    hide Sat, Eval, NoHolder;
    var a :| Sat(constraints, a);
    assert Sat(pc, a) && NoHolder(rl, k, Eval(p, a), bytes);
  }

  lemma NoneMissesMore(pc: seq<Expr>, p: Expr, bytes: nat, rl: seq<MemoryObject>, k: nat)
    requires k <= |rl| && NoneMisses(pc, p, bytes, rl, k)
    ensures NoneMisses(pc, p, bytes, rl, |rl|)
  {
    hide Sat, Eval, ContainsAccess;
  }

  /** Missing a complete list is missing every live object. */
  lemma NoneMissesAll(pc: seq<Expr>, p: Expr, bytes: nat, rl: seq<MemoryObject>, objects: seq<MemoryObject>)
    requires 0 < bytes && forall mo :: mo in rl <==> mo in objects && Feasible(pc, p, mo)
    ensures NoneMisses(pc, p, bytes, rl, |rl|) <==> !SomeOutOfBounds(pc, p, bytes, objects)
  {
    hide Eval, Sat;
    forall a | Sat(pc, a)
      ensures NoHolder(rl, |rl|, Eval(p, a), bytes) <==> forall mo <- objects :: !ContainsAccess(mo, Eval(p, a), bytes)
    {
      forall mo | mo in objects && ContainsAccess(mo, Eval(p, a), bytes) ensures mo in rl {
        assert Contains(mo, Eval(p, a));
      }
    }
  }

  lemma {:induction false} FirstHolderExists(rl: seq<MemoryObject>, k: nat, address: nat, bytes: nat) returns (j: nat)
    requires k <= |rl| && !NoHolder(rl, k, address, bytes)
    ensures j < k && FirstHolder(rl, j, address, bytes)
  {
    if NoHolder(rl, k - 1, address, bytes) {
      j := k - 1;
    } else {
      j := FirstHolderExists(rl, k - 1, address, bytes);
    }
  }

  lemma SettledPartitions(successors: seq<Successor>, left: ExecutionState?, pc: seq<Expr>, p: Expr, bytes: nat,
                          rl: seq<MemoryObject>, k: nat)
    requires k <= |rl| && Settled(successors, pc, p, bytes, rl, k)
    requires if left != null then MissesFirst(left.constraints, pc, p, bytes, rl, k)
      else NoneMisses(pc, p, bytes, rl, k)
    ensures Partitions(successors, left, pc)
  {
    hide Sat, Eval, ContainsAccess;
    forall a | Sat(pc, a)
      ensures (exists i :: 0 <= i < |successors| && Sat(successors[i].state.constraints, a)) <==>
                !(left != null && Sat(left.constraints, a))
    {
      if !NoHolder(rl, k, Eval(p, a), bytes) {
        var j := FirstHolderExists(rl, k, Eval(p, a), bytes);
        assert !NoneHolds(pc, p, bytes, rl, j);
        var i :| 0 <= i < |successors| && successors[i].at == j;
        assert Sat(successors[i].state.constraints, a);
      }
    }
    forall a, i, j | Sat(pc, a) && 0 <= i < j < |successors|
      ensures !(Sat(successors[i].state.constraints, a) && Sat(successors[j].state.constraints, a))
    {
      assert successors[i].at < successors[j].at;
    }
  }

  /** Overlapping accesses would need overlapping objects. */
  lemma OneHolder(objects: seq<MemoryObject>, x: MemoryObject, y: MemoryObject, address: nat, bytes: nat)
    requires Layout(objects) && x in objects && y in objects && 0 < bytes
    requires ContainsAccess(x, address, bytes) && ContainsAccess(y, address, bytes)
    ensures x == y
  {}

  lemma SettledByObject(successors: seq<Successor>, pc: seq<Expr>, p: Expr, bytes: nat, rl: seq<MemoryObject>, k: nat,
                        objects: seq<MemoryObject>)
    requires k <= |rl| && Settled(successors, pc, p, bytes, rl, k) && Layout(objects) && 0 < bytes
    requires NoDuplicates(rl) && forall mo <- rl :: mo in objects
    ensures ByObject(successors, pc, p, bytes, rl)
  {
    hide Sat, Eval, ContainsAccess, Layout;
    forall i, a | 0 <= i < |successors|
      ensures Sat(successors[i].state.constraints, a) <==>
                Sat(pc, a) && ContainsAccess(rl[successors[i].at], Eval(p, a), bytes)
    {
      var at := successors[i].at;
      forall j | 0 <= j < at && ContainsAccess(rl[at], Eval(p, a), bytes)
        ensures !ContainsAccess(rl[j], Eval(p, a), bytes)
      {
        if ContainsAccess(rl[j], Eval(p, a), bytes) {
          OneHolder(objects, rl[j], rl[at], Eval(p, a), bytes);
        }
      }
    }
  }

  /** With a complete resolution the inputs that miss the list miss every live object. */
  lemma MissesAll(constraints: seq<Expr>, pc: seq<Expr>, p: Expr, bytes: nat, rl: seq<MemoryObject>,
                  objects: seq<MemoryObject>)
    requires MissesFirst(constraints, pc, p, bytes, rl, |rl|) && 0 < bytes
    requires forall mo :: mo in rl <==> mo in objects && Feasible(pc, p, mo)
    ensures OutOfBounds(constraints, pc, p, bytes, objects)
  {
    forall a | Sat(pc, a)
      ensures NoHolder(rl, |rl|, Eval(p, a), bytes) <==> forall mo <- objects :: !ContainsAccess(mo, Eval(p, a), bytes)
    {
      forall mo | mo in objects && ContainsAccess(mo, Eval(p, a), bytes) ensures mo in rl {
        assert Contains(mo, Eval(p, a));
      }
    }
  }

  /**
   The error path of a memory operation: resolve the pointer to a list, then fork over it.
   `error` is the state reported as out of bounds, `early` one that a timeout ended.
   */
  method ExecuteOnErrorPath(state: ExecutionState, solver: Solver, p: Expr, access: Access, maxForks: nat,
                            expired: nat -> bool, live: seq<MemoryObject>, ghost spaces: set<AddressSpace>,
                            ghost states: set<ObjectState>)
    returns (successors: seq<Successor>, error: ExecutionState?, early: ExecutionState?, incomplete: bool,
             rl: seq<MemoryObject>, ghost s: Setting, ghost handled: nat,
             ghost spaces': set<AddressSpace>, ghost states': set<ObjectState>)
    requires solver.Sound() && IsPointer(p) && access.Valid() && HasTarget(state.stack, access)
    requires Satisfiable(state.constraints) && state.addressSpace in spaces
    requires Layout(live) && forall mo :: mo in live <==> mo in state.addressSpace.objects
    requires forall mo <- state.addressSpace.objects :: state.addressSpace.objects[mo] in states
    modifies state, state.addressSpace, state.addressSpace.objects.Values
    ensures s == old(SettingOf(state, p, access, rl, spaces, states)) && s.Valid()
    ensures handled <= |rl| && handled <= maxForks + 1
    ensures Done(s, successors, handled, spaces', states') && Apart(successors, null)
    ensures error == null || early == null
    ensures Partitions(successors, if error != null then error else early, s.pc)
    ensures ByObject(successors, s.pc, p, access.Bytes(), rl)
    ensures error != null ==> MissesFirst(error.constraints, s.pc, p, access.Bytes(), rl, handled)
    ensures early != null ==> MissesFirst(early.constraints, s.pc, p, access.Bytes(), rl, handled)
    ensures error != null ==> handled == |rl| || handled == maxForks + 1
    ensures error != null && |rl| <= maxForks + 1 ==> OutOfBounds(error.constraints, s.pc, p, access.Bytes(), live)
    ensures |rl| <= |live|
    ensures !incomplete ==> forall mo :: mo in rl <==> mo in live && Feasible(s.pc, p, mo)
    ensures incomplete ==> !Resolution.Answers(solver, s.pc, p) || exists k :: expired(k)
    ensures error == null && early == null <==> NoneMisses(s.pc, p, access.Bytes(), rl, handled)
    ensures error != null ==> !incomplete
    ensures early != null && !incomplete ==>
      handled < |rl| && solver.Evaluate(early.constraints, AccessCheck(rl[handled], p, access.Bytes())).None?
    ensures solver.Answering() && (forall k :: !expired(k)) ==>
      early == null && (error != null <==> !NoneMisses(s.pc, p, access.Bytes(), rl, handled))
    ensures solver.Answering() && (forall k :: !expired(k)) && |live| <= maxForks + 1 ==>
      (error != null <==> SomeOutOfBounds(s.pc, p, access.Bytes(), live))
  {
    hide Done, Setting.Valid, Setting.ReadOnlyKept, MissesFirst;
    hide NoneMisses, Satisfiable, Solver.Sound, AllIsolated, Sights;
    hide Access.Valid, IsPointer, HasTarget, Allocated, Layout, Hits;
    hide Settled, Partitions, ByObject, OutOfBounds, SettingOf, NoDuplicates;
    hide Feasible, SingleObject, Answers;
    var queries, start;
    incomplete, rl, queries, start := Resolve(solver, state.constraints, p, [], live, 0, expired);
    ResolvedList(state.constraints, p, live, start, rl);
    PositiveBytes(access);
    ghost var pc := state.constraints;
    SettingHas(state, p, access, rl, spaces, states);
    var unbound, timedOut, count;
    successors, unbound, timedOut, count, s, spaces', states' :=
      ExecuteResolved(state, solver, p, rl, access, maxForks, spaces, states);
    handled := count;
    DoneIsSettled(s, successors, handled, spaces', states');
    SettledPartitions(successors, if unbound != null then unbound else timedOut, pc, p, access.Bytes(), rl, handled);
    SettledByObject(successors, pc, p, access.Bytes(), rl, handled, live);
    if !incomplete {
      CompleteList(pc, p, live, start);
      NoneMissesAll(pc, p, access.Bytes(), rl, live);
    }
    if unbound != null && !incomplete && |rl| <= maxForks + 1 {
      MissesAll(unbound.constraints, pc, p, access.Bytes(), rl, live);
    }
    ghost var left := if unbound != null then unbound else timedOut;
    if left != null {
      LeftOver(left.constraints, pc, p, access.Bytes(), rl, handled);
    }
    if left == null {
      NoneMissesMore(pc, p, access.Bytes(), rl, handled);
    }
    AnsweredAll(solver, pc, p, timedOut, if timedOut != null then AccessCheck(rl[handled], p, access.Bytes()) else p);
    error := if incomplete then null else unbound;
    early := if incomplete && unbound != null then unbound else timedOut;
  }

  /** A solver that always answers leaves no timeout to report. */
  lemma AnsweredAll(solver: Solver, pc: seq<Expr>, p: Expr, timedOut: ExecutionState?, q: Expr)
    requires Satisfiable(pc) && (timedOut != null ==> Satisfiable(timedOut.constraints))
    ensures solver.Answering() ==> Resolution.Answers(solver, pc, p)
    ensures solver.Answering() && timedOut != null ==> solver.Evaluate(timedOut.constraints, q).Some?
  {
    hide Satisfiable, Resolution.Answers;
    if solver.Answering() {
      AnswersResolution(solver, pc, p);
      if timedOut != null {
        solver.AnswersDerived(timedOut.constraints, q);
      }
    }
  }

  lemma SettingHas(state: ExecutionState, p: Expr, access: Access, rl: seq<MemoryObject>,
                   spaces: set<AddressSpace>, states: set<ObjectState>)
    ensures var s := SettingOf(state, p, access, rl, spaces, states);
      s.pc == state.constraints && s.rl == rl && s.p == p && s.access == access
  {}

  lemma DoneIsSettled(s: Setting, successors: seq<Successor>, k: nat, spaces: set<AddressSpace>,
                      states: set<ObjectState>)
    requires s.Valid() && k <= |s.rl| && Done(s, successors, k, spaces, states)
    ensures Settled(successors, s.pc, s.p, s.access.Bytes(), s.rl, k)
  {}

  /** Whatever part of the hits was listed, it is distinct live objects, no more than there are. */
  lemma ResolvedList(constraints: seq<Expr>, p: Expr, live: seq<MemoryObject>, start: nat, rl: seq<MemoryObject>)
    requires Layout(live) && start <= |live| && rl <= [] + Hits(constraints, p, live, start)
    ensures NoDuplicates(rl) && |rl| <= |live|
    ensures forall mo <- rl :: mo in live && Allocated(mo)
  {
    HitsAre(constraints, p, live, start);
    var hits := Hits(constraints, p, live, start);
    assert [] + hits == hits;
    assert forall i | 0 <= i < |rl| :: rl[i] == hits[i];
    assert forall mo <- rl :: mo in hits;
    DistinctFit(rl, live);
  }

  lemma CompleteList(constraints: seq<Expr>, p: Expr, live: seq<MemoryObject>, start: nat)
    requires Layout(live) && start <= |live|
    ensures forall mo :: mo in [] + Hits(constraints, p, live, start) <==> mo in live && Feasible(constraints, p, mo)
  {
    HitsAre(constraints, p, live, start);
    assert [] + Hits(constraints, p, live, start) == Hits(constraints, p, live, start);
  }
}
