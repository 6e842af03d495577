/**
 Execution states and the executor's forking of them
 (klee/lib/Core/ExecutionState.cpp:201-293, Executor.cpp:3397-3481, 3483-3790).

 Timeouts are solver queries without an answer. Seeds, replay, fork limits and the
 process tree are not modelled, nor is the depth limit, which is off by default.
 */
module ExecutionStates {
  import opened AddressSpaces
  import opened CopyOnWrite
  import opened Exprs
  import opened ObjectStates
  import opened Options
  import opened Paths
  import opened Solvers

  /** A register is null until it is first assigned. */
  datatype Frame = Frame(caller: int, function_: nat, locals: seq<Option<Expr>>)

  class ExecutionState {
    var pc: nat
    var symbolics: seq<(MemoryObject, Array)>
    var stack: seq<Frame>
    var constraints: seq<Expr>
    var weight: real
    var depth: nat
    const addressSpace: AddressSpace

    /** The part of the state that forking is about. */
    function Leaf(): Path
      reads this
    {
      Path(constraints, weight, depth)
    }

    constructor (pc: nat, stack: seq<Frame>)
      ensures this.pc == pc && this.stack == stack && symbolics == []
      ensures Leaf() == Path([], 1.0, 0)
      ensures fresh(addressSpace) && addressSpace.objects == map[]
    {
      this.pc, this.stack, symbolics := pc, stack, [];
      constraints, weight, depth := [], 1.0, 0;
      addressSpace := new AddressSpace();
    }

    /** The copy constructor: everything is shared or copied, and the address space is forked. */
    constructor Copy(source: ExecutionState, ghost spaces: set<AddressSpace>, ghost states: set<ObjectState>)
      requires source.addressSpace in spaces
      modifies source.addressSpace`cowKey
      ensures pc == source.pc && symbolics == source.symbolics && stack == source.stack
      ensures Leaf() == source.Leaf()
      ensures fresh(addressSpace) && addressSpace.objects == source.addressSpace.objects
      ensures addressSpace.cowKey == source.addressSpace.cowKey == (old(source.addressSpace.cowKey) + 1) % KEY_LIMIT
      ensures (old(AllIsolated(spaces, states)) && old(source.addressSpace.cowKey) + 1 < KEY_LIMIT) ==>
        Copied(old(Sights(spaces, states)), source.addressSpace, addressSpace, spaces + {addressSpace}, states)
    {
      hide Copied, AllIsolated, Sights;
      pc, symbolics, stack := source.pc, source.symbolics, source.stack;
      constraints, weight, depth := source.constraints, source.weight, source.depth;
      var space := CopySpace(source.addressSpace, spaces, states);
      addressSpace := space;
    }

    /** False stands for the fatal error on a condition that is literally false. */
    method AddConstraint(condition: Expr) returns (ok: bool)
      modifies this`constraints
      ensures ok == Addable(condition)
      ensures Leaf() == if ok then Constrain(old(Leaf()), condition) else old(Leaf())
    {
      if condition.Const? {
        return condition.value % Pow2(condition.bits) == 1;
      }
      constraints := constraints + [condition];
      return true;
    }

    method Branch(ghost spaces: set<AddressSpace>, ghost states: set<ObjectState>) returns (falseState: ExecutionState)
      requires addressSpace in spaces
      modifies this`weight, this`depth, addressSpace`cowKey
      ensures fresh(falseState) && fresh(falseState.addressSpace)
      ensures (Leaf(), falseState.Leaf()) == Halve(old(Leaf())) && SameProgram(falseState, this)
      ensures SpaceForked(falseState, this, old(addressSpace.cowKey))
      ensures (old(AllIsolated(spaces, states)) && old(addressSpace.cowKey) + 1 < KEY_LIMIT) ==>
        Copied(old(Sights(spaces, states)), addressSpace, falseState.addressSpace, spaces + {falseState.addressSpace},
               states)
    {
      hide Copied, AllIsolated, Sights;
      depth := depth + 1;
      falseState := new ExecutionState.Copy(this, spaces, states);
      weight := weight * 0.5;
      falseState.weight := falseState.weight - weight;
    }
  }

  predicate SameProgram(s: ExecutionState, t: ExecutionState)
    reads s, t
  {
    s.pc == t.pc && s.symbolics == t.symbolics && s.stack == t.stack
  }

  /** The new state's space binds what the old one's binds, and both have moved to the next key. */
  predicate SpaceForked(s: ExecutionState, t: ExecutionState, key: nat)
    reads s.addressSpace, t.addressSpace
  {
    && s.addressSpace.objects == t.addressSpace.objects
    && s.addressSpace.cowKey == t.addressSpace.cowKey == (key + 1) % KEY_LIMIT
  }

  /** Two-way fork on a condition. Both results are null when the solver times out. */
  method Fork(current: ExecutionState, condition: Expr, solver: Solver,
              ghost spaces: set<AddressSpace>, ghost states: set<ObjectState>)
    returns (trueState: ExecutionState?, falseState: ExecutionState?)
    requires current.addressSpace in spaces
    modifies current`constraints, current`weight, current`depth, current.addressSpace`cowKey
    ensures var answer := solver.Evaluate(old(current.constraints), condition);
      if answer == Some(Unknown) then
        && trueState == current && falseState != null
        && fresh(falseState) && fresh(falseState.addressSpace)
        && [current.Leaf(), falseState.Leaf()] == ForkPath(old(current.Leaf()), condition, answer)
        && SameProgram(falseState, current) && SpaceForked(falseState, current, old(current.addressSpace.cowKey))
        && ((old(AllIsolated(spaces, states)) && old(current.addressSpace.cowKey) + 1 < KEY_LIMIT) ==>
              Copied(old(Sights(spaces, states)), current.addressSpace, falseState.addressSpace,
                     spaces + {falseState.addressSpace}, states))
      else
        && trueState == (if answer == Some(ProvablyTrue) then current else null)
        && falseState == (if answer == Some(ProvablyFalse) then current else null)
        && current.Leaf() == old(current.Leaf()) && current.addressSpace.cowKey == old(current.addressSpace.cowKey)
  {
    hide Copied, AllIsolated, Sights;
    var answer := solver.Evaluate(current.constraints, condition);
    match answer {
      case None => return null, null;
      case Some(ProvablyTrue) => return current, null;
      case Some(ProvablyFalse) => return null, current;
      case Some(Unknown) =>
        falseState := current.Branch(spaces, states);
        var _ := current.AddConstraint(condition);
        var _ := falseState.AddConstraint(IsZero(condition));
        return current, falseState;
    }
  }

  ghost function Leaves(states: seq<ExecutionState>): seq<Path>
    reads states
  {
    seq(|states|, i requires 0 <= i < |states| reads states => states[i].Leaf())
  }

  /** Distinct states, all but the first created here, each with an address space of its own. */
  ghost predicate Separate(states: seq<ExecutionState>) {
    && (forall i, j | 0 <= i < j < |states| :: states[i] != states[j])
    && (forall i, j | 0 <= i < j < |states| :: states[i].addressSpace != states[j].addressSpace)
  }

  /** The states branched off `state` so far, itself first: they agree on everything but their leaves. */
  ghost predicate Offspring(result: seq<ExecutionState>, state: ExecutionState, spaces: set<AddressSpace>)
    reads result, state, spaces
  {
    && |result| > 0 && result[0] == state && state.addressSpace in spaces && Separate(result)
    && forall k | 0 <= k < |result| ::
         && SameProgram(result[k], state)
         && result[k].addressSpace in spaces
         && result[k].addressSpace.objects == state.addressSpace.objects
  }

  /** No key is above the bound, which leaves room for one more copy. */
  ghost predicate KeysAtMost(result: seq<ExecutionState>, bound: nat)
    reads set k | 0 <= k < |result| :: result[k].addressSpace
  {
    bound < KEY_LIMIT && forall k | 0 <= k < |result| :: result[k].addressSpace.cowKey <= bound
  }

  /** Every space that was there sees what it saw, and no key is above the bound. */
  ghost predicate Quiet(before: map<AddressSpace, Sight>, result: seq<ExecutionState>,
                        spaces: set<AddressSpace>, states: set<ObjectState>, bound: nat)
    reads spaces, states, set k | 0 <= k < |result| :: result[k].addressSpace
  {
    SameSights(before, spaces, states) && KeysAtMost(result, bound)
  }

  ghost predicate SameSights(before: map<AddressSpace, Sight>, spaces: set<AddressSpace>, states: set<ObjectState>)
    reads spaces, states
  {
    && AllIsolated(spaces, states)
    && forall s <- before :: s in Sights(spaces, states) && Sights(spaces, states)[s] == before[s]
  }

  lemma SameSightsAfterCopy(before: map<AddressSpace, Sight>, was: map<AddressSpace, Sight>,
                            source: AddressSpace, child: AddressSpace, spaces: set<AddressSpace>,
                            states: set<ObjectState>)
    requires Copied(was, source, child, spaces, states) && child !in before
    requires forall s <- before :: s in was && was[s] == before[s]
    ensures SameSights(before, spaces, states)
  {}

  /** One round of the first loop of `branch`: a new state splits off `es`. */
  method SplitOne(ghost result: seq<ExecutionState>, ghost j: nat, ghost state: ExecutionState, es: ExecutionState,
                  ghost spaces: set<AddressSpace>, ghost states: set<ObjectState>,
                  ghost before: map<AddressSpace, Sight>, ghost bound: nat)
    returns (ns: ExecutionState)
    requires Offspring(result, state, spaces) && j < |result| && result[j] == es && before.Keys <= spaces
    modifies es`weight, es`depth, es.addressSpace`cowKey
    ensures fresh(ns) && fresh(ns.addressSpace)
    ensures Offspring(result + [ns], state, spaces + {ns.addressSpace})
    ensures var r := old(Leaves(result)); Leaves(result + [ns]) == r[j := Halve(r[j]).0] + [Halve(r[j]).1]
    ensures old(Quiet(before, result, spaces, states, bound)) && bound + 1 < KEY_LIMIT ==>
              Quiet(before, result + [ns], spaces + {ns.addressSpace}, states, bound + 1)
  {
    hide Copied, AllIsolated, Sights;
    ghost var r, was := Leaves(result), Sights(spaces, states);
    ns := es.Branch(spaces, states);
    LeavesAfterSplit(result, ns, r, j);
    if old(Quiet(before, result, spaces, states, bound)) && bound + 1 < KEY_LIMIT {
      SameSightsAfterCopy(before, was, es.addressSpace, ns.addressSpace, spaces + {ns.addressSpace}, states);
    }
  }

  lemma LeavesAfterSplit(result: seq<ExecutionState>, ns: ExecutionState, before: seq<Path>, j: nat)
    requires |before| == |result| && j < |result|
    requires forall k | 0 <= k < |result| && k != j :: result[k].Leaf() == before[k]
    requires (result[j].Leaf(), ns.Leaf()) == Halve(before[j])
    ensures Leaves(result + [ns]) == before[j := Halve(before[j]).0] + [Halve(before[j]).1]
  {}

  /** The first loop of `branch`: every new state splits off a randomly chosen earlier one. */
  method SplitStates(state: ExecutionState, choices: seq<nat>, ghost spaces: set<AddressSpace>,
                     ghost states: set<ObjectState>)
    returns (result: seq<ExecutionState>, ghost spaces': set<AddressSpace>)
    requires state.addressSpace in spaces
    modifies state`weight, state`depth, state.addressSpace`cowKey
    ensures |result| == |choices| + 1 && spaces <= spaces' && Offspring(result, state, spaces')
    ensures forall i | 0 < i < |result| :: fresh(result[i]) && fresh(result[i].addressSpace)
    ensures Leaves(result) == SplitMany(old(state.Leaf()), choices)
    ensures (old(AllIsolated(spaces, states)) && old(state.addressSpace.cowKey) + |choices| < KEY_LIMIT) ==>
              SameSights(old(Sights(spaces, states)), spaces', states)
  {
    hide Quiet, SameSights, AllIsolated, Sights, Leaves, SplitMany;
    result, spaces' := [state], spaces;
    ghost var before, key0 := Sights(spaces, states), state.addressSpace.cowKey;
    ghost var calm := AllIsolated(spaces, states) && key0 + |choices| < KEY_LIMIT;
    SightKeys(spaces, states);
    if calm {
      QuietAtFirst(state, spaces, states);
    }
    LeavesAtFirst(state, choices);
    for i := 0 to |choices|
      invariant |result| == i + 1 && result[0] == state && spaces <= spaces' && Offspring(result, state, spaces')
      invariant forall k | 0 < k <= i :: fresh(result[k]) && fresh(result[k].addressSpace)
      invariant Leaves(result) == SplitMany(old(state.Leaf()), choices[..i])
      invariant calm ==> Quiet(before, result, spaces', states, key0 + i)
      invariant forall s <- spaces' :: allocated(s)
    {
      var j := choices[i] % |result|;
      var ns := SplitOne(result, j, state, result[j], spaces', states, before, key0 + i);
      SplitManyStep(old(state.Leaf()), choices, i);
      result := result + [ns];
      spaces' := spaces' + {ns.addressSpace};
    }
    assert choices[..|choices|] == choices;
    if calm {
      QuietSights(before, result, spaces', states, key0 + |choices|);
    }
  }

  lemma QuietAtFirst(state: ExecutionState, spaces: set<AddressSpace>, states: set<ObjectState>)
    requires AllIsolated(spaces, states) && state.addressSpace.cowKey < KEY_LIMIT
    ensures Quiet(Sights(spaces, states), [state], spaces, states, state.addressSpace.cowKey)
  {}

  lemma LeavesAtFirst(state: ExecutionState, choices: seq<nat>)
    ensures Leaves([state]) == SplitMany(state.Leaf(), choices[..0])
  {}

  lemma QuietSights(before: map<AddressSpace, Sight>, result: seq<ExecutionState>,
                    spaces: set<AddressSpace>, states: set<ObjectState>, bound: nat)
    requires Quiet(before, result, spaces, states, bound)
    ensures SameSights(before, spaces, states)
  {}

  lemma SplitManyStep(p: Path, choices: seq<nat>, i: nat)
    requires i < |choices|
    ensures var r := SplitMany(p, choices[..i]);
      var j := choices[i] % |r|;
      SplitMany(p, choices[..i + 1]) == r[j := Halve(r[j]).0] + [Halve(r[j]).1]
  {
    assert choices[..i + 1][..i] == choices[..i];
  }

  /** The last loop of `branch`. False stands for the fatal error. */
  method AddConditions(result: seq<ExecutionState>, conditions: seq<Expr>) returns (ok: bool)
    requires |result| == |conditions| && Separate(result)
    modifies result
    ensures forall k | 0 <= k < |result| ::
              && result[k].pc == old(result[k].pc)
              && result[k].symbolics == old(result[k].symbolics)
              && result[k].stack == old(result[k].stack)
    ensures ok <==> forall c <- conditions :: Addable(c)
    ensures ok ==> Leaves(result) == ConstrainEach(old(Leaves(result)), conditions)
  {
    ghost var before := Leaves(result);
    for i := 0 to |conditions|
      invariant forall k | 0 <= k < i :: Addable(conditions[k])
      invariant forall k | 0 <= k < |result| ::
                  result[k].Leaf() == if k < i then Constrain(before[k], conditions[k]) else before[k]
      invariant forall k | 0 <= k < |result| ::
              && result[k].pc == old(result[k].pc)
              && result[k].symbolics == old(result[k].symbolics)
              && result[k].stack == old(result[k].stack)
    {
      var added := result[i].AddConstraint(conditions[i]);
      if !added {
        assert conditions[i] in conditions;
        return false;
      }
    }
    assert Leaves(result) == ConstrainEach(before, conditions);
    return true;
  }

  /**
   Many-way branch: one state per condition, split off randomly chosen earlier ones
   (`choices` are the random numbers). False stands for the fatal error.
   */
  method BranchOn(state: ExecutionState, conditions: seq<Expr>, choices: seq<nat>,
                  ghost spaces: set<AddressSpace>, ghost states: set<ObjectState>)
    returns (ok: bool, result: seq<ExecutionState>, ghost spaces': set<AddressSpace>)
    requires |conditions| == |choices| + 1 && state.addressSpace in spaces
    modifies state, state.addressSpace`cowKey
    ensures ok <==> forall c <- conditions :: Addable(c)
    ensures |result| == |conditions| && spaces <= spaces' && Offspring(result, state, spaces')
    ensures forall i | 0 < i < |result| :: fresh(result[i]) && fresh(result[i].addressSpace)
    ensures unchanged(state`pc, state`symbolics, state`stack, state.addressSpace`objects)
    ensures ok ==> Leaves(result) == BranchPath(old(state.Leaf()), conditions, choices)
    ensures (old(AllIsolated(spaces, states)) && old(state.addressSpace.cowKey) + |choices| < KEY_LIMIT) ==>
              SameSights(old(Sights(spaces, states)), spaces', states)
  {
    hide SameSights, Sights, AllIsolated;
    result, spaces' := SplitStates(state, choices, spaces, states);
    ok := AddConditions(result, conditions);
  }
}
