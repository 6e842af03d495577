/**
 Forking as a step on the leaves of the execution tree: what it does to path conditions
 and search weights (klee/lib/Core/Executor.cpp:3397-3481, 3483-3790,
 ExecutionState.cpp:274-293). Leaves that were terminated early stay in the sequence.
 */
module Paths {
  import opened Exprs
  import opened Options
  import opened Solvers

  datatype Path = Path(constraints: seq<Expr>, weight: real, depth: nat)

  /** `ExecutionState::branch`: the state itself afterwards, and the new state. */
  function Halve(p: Path): (Path, Path) {
    var parent := p.(weight := p.weight * 0.5, depth := p.depth + 1);
    (parent, parent.(weight := p.weight - parent.weight))
  }

  /** `addConstraint`: a condition that is literally true is not recorded. */
  function Constrain(p: Path, condition: Expr): Path {
    if condition.Const? then p else p.(constraints := p.constraints + [condition])
  }

  /** Adding a condition that is literally false is a fatal error. */
  predicate Addable(condition: Expr) {
    condition.Const? ==> condition.value % Pow2(condition.bits) == 1
  }

  /** `fork`: what becomes of the forked leaf, and the new leaf if there is one. */
  function ForkPath(p: Path, condition: Expr, answer: Option<Validity>): seq<Path> {
    if answer == Some(Unknown) then
      [Constrain(Halve(p).0, condition), Constrain(Halve(p).1, IsZero(condition))]
    else
      [p]
  }

  /** The loop of `branch`: each new state splits off a randomly chosen earlier one. */
  function SplitMany(p: Path, choices: seq<nat>): (result: seq<Path>)
    ensures |result| == |choices| + 1
  {
    if choices == [] then [p] else
    var r := SplitMany(p, choices[..|choices| - 1]);
    var j := choices[|choices| - 1] % |r|;
    r[j := Halve(r[j]).0] + [Halve(r[j]).1]
  }

  function ConstrainEach(paths: seq<Path>, conditions: seq<Expr>): (result: seq<Path>)
    requires |paths| == |conditions|
    ensures |result| == |paths|
    ensures forall i | 0 <= i < |paths| :: result[i] == Constrain(paths[i], conditions[i])
  {
    if paths == [] then [] else
    ConstrainEach(paths[..|paths| - 1], conditions[..|paths| - 1]) +
      [Constrain(paths[|paths| - 1], conditions[|paths| - 1])]
  }

  function BranchPath(p: Path, conditions: seq<Expr>, choices: seq<nat>): seq<Path>
    requires |conditions| == |choices| + 1
  {
    ConstrainEach(SplitMany(p, choices), conditions)
  }

  // ----- Runs -----

  datatype Step =
    | ForkStep(leaf: nat, condition: Expr, solver: Solver)
    | BranchStep(leaf: nat, conditions: seq<Expr>, choices: seq<nat>)

  function CountTrue(conditions: seq<Expr>, a: Assignment): nat {
    if conditions == [] then 0 else
    CountTrue(conditions[..|conditions| - 1], a) + if IsTrue(conditions[|conditions| - 1], a) then 1 else 0
  }

  /** Under the constraints exactly one condition is true. */
  ghost predicate ExclusiveAndExhaustive(constraints: seq<Expr>, conditions: seq<Expr>) {
    forall a :: Sat(constraints, a) ==> CountTrue(conditions, a) == 1
  }

  ghost predicate Enabled(leaves: seq<Path>, step: Step) {
    && step.leaf < |leaves|
    && match step
       case ForkStep(i, condition, solver) =>
         solver.Sound() && IsBool(condition) && Satisfiable(leaves[i].constraints)
       case BranchStep(i, conditions, choices) =>
         && |conditions| == |choices| + 1
         && (forall c <- conditions :: Addable(c))
         && ExclusiveAndExhaustive(leaves[i].constraints, conditions)
  }

  function Successors(leaf: Path, step: Step): seq<Path>
    requires step.BranchStep? ==> |step.conditions| == |step.choices| + 1
  {
    match step
    case ForkStep(_, condition, solver) => ForkPath(leaf, condition, solver.Evaluate(leaf.constraints, condition))
    case BranchStep(_, conditions, choices) => BranchPath(leaf, conditions, choices)
  }

  ghost function Next(leaves: seq<Path>, step: Step): seq<Path>
    requires Enabled(leaves, step)
  {
    leaves[..step.leaf] + leaves[step.leaf + 1..] + Successors(leaves[step.leaf], step)
  }

  ghost predicate Runnable(leaves: seq<Path>, steps: seq<Step>)
    decreases |steps|
  {
    steps == [] || (Enabled(leaves, steps[0]) && Runnable(Next(leaves, steps[0]), steps[1..]))
  }

  ghost function Run(leaves: seq<Path>, steps: seq<Step>): seq<Path>
    requires Runnable(leaves, steps)
    decreases |steps|
  {
    if steps == [] then leaves else Run(Next(leaves, steps[0]), steps[1..])
  }

  // ----- What is conserved -----

  ghost function Covers(p: Path, a: Assignment): nat {
    if Sat(p.constraints, a) then 1 else 0
  }

  /** How many leaves an assignment reaches. */
  ghost function Coverage(leaves: seq<Path>, a: Assignment): nat {
    if leaves == [] then 0 else Coverage(leaves[..|leaves| - 1], a) + Covers(leaves[|leaves| - 1], a)
  }

  function TotalWeight(leaves: seq<Path>): real {
    if leaves == [] then 0.0 else TotalWeight(leaves[..|leaves| - 1]) + leaves[|leaves| - 1].weight
  }

  function Half(n: nat): real {
    if n == 0 then 1.0 else Half(n - 1) * 0.5
  }

  /** A leaf's weight is the initial one halved once for every level below the root. */
  predicate HalvedFrom(p: Path, root: Path) {
    p.depth >= root.depth && p.weight == root.weight * Half(p.depth - root.depth)
  }

  predicate WeightFollowsDepth(leaves: seq<Path>, root: Path) {
    forall p <- leaves :: HalvedFrom(p, root)
  }

  lemma HalveHalves(p: Path, root: Path)
    requires HalvedFrom(p, root)
    ensures HalvedFrom(Halve(p).0, root) && HalvedFrom(Halve(p).1, root)
  {}

  lemma HalvedTransitively(p: Path, q: Path, root: Path)
    requires HalvedFrom(p, q) && HalvedFrom(q, root)
    ensures HalvedFrom(p, root)
  {
    var m, n := q.depth - root.depth, p.depth - q.depth;
    HalfAdd(m, n);
    assert p.weight == root.weight * (Half(m) * Half(n));
  }

  lemma {:induction false} CoverageConcat(s: seq<Path>, t: seq<Path>, a: Assignment)
    ensures Coverage(s + t, a) == Coverage(s, a) + Coverage(t, a)
  {
    if t == [] {
      assert s + t == s;
    } else {
      CoverageConcat(s, t[..|t| - 1], a);
      assert (s + t)[..|s + t| - 1] == s + t[..|t| - 1];
    }
  }

  lemma {:induction false} WeightConcat(s: seq<Path>, t: seq<Path>)
    ensures TotalWeight(s + t) == TotalWeight(s) + TotalWeight(t)
  {
    if t == [] {
      assert s + t == s;
    } else {
      WeightConcat(s, t[..|t| - 1]);
      assert (s + t)[..|s + t| - 1] == s + t[..|t| - 1];
    }
  }

  lemma One(p: Path, a: Assignment)
    ensures Coverage([p], a) == Covers(p, a) && TotalWeight([p]) == p.weight
  {
    assert [p][..0] == [];
  }

  lemma ConstrainCovers(p: Path, condition: Expr, a: Assignment)
    requires Addable(condition)
    ensures Covers(Constrain(p, condition), a) == if IsTrue(condition, a) then Covers(p, a) else 0
  {
    SatAppend(p.constraints, condition, a);
  }

  lemma ForkConserves(p: Path, condition: Expr, solver: Solver, a: Assignment)
    requires solver.Sound() && IsBool(condition) && Satisfiable(p.constraints)
    ensures var successors := ForkPath(p, condition, solver.Evaluate(p.constraints, condition));
      Coverage(successors, a) == Covers(p, a) && TotalWeight(successors) == p.weight
  {
    var successors := ForkPath(p, condition, solver.Evaluate(p.constraints, condition));
    if solver.Evaluate(p.constraints, condition) == Some(Unknown) {
      var (t, f) := (successors[0], successors[1]);
      assert successors == [t] + [f];
      CoverageConcat([t], [f], a);
      WeightConcat([t], [f]);
      One(t, a);
      One(f, a);
      EvalIsZero(condition, a);
      ConstrainCovers(Halve(p).0, condition, a);
      ConstrainCovers(Halve(p).1, IsZero(condition), a);
    } else {
      One(p, a);
    }
  }

  lemma {:induction false} SplitManyIs(p: Path, choices: seq<nat>)
    ensures var r := SplitMany(p, choices);
      (forall q <- r :: q.constraints == p.constraints) && TotalWeight(r) == p.weight
  {
    if choices == [] {
      One(p, map[]);
    } else {
      var init := choices[..|choices| - 1];
      SplitManyIs(p, init);
      var r := SplitMany(p, init);
      var j := choices[|choices| - 1] % |r|;
      var (parent, child) := Halve(r[j]);
      WeightUpdate(r, j, parent);
      WeightConcat(r[j := parent], [child]);
      One(child, map[]);
      assert r[j] in r;
    }
  }

  lemma {:induction false} SplitManyHalves(p: Path, choices: seq<nat>)
    ensures WeightFollowsDepth(SplitMany(p, choices), p)
  {
    if choices != [] {
      SplitManyHalves(p, choices[..|choices| - 1]);
      var r := SplitMany(p, choices[..|choices| - 1]);
      var j := choices[|choices| - 1] % |r|;
      assert r[j] in r;
      HalveHalves(r[j], p);
    }
  }

  lemma WeightUpdate(s: seq<Path>, j: nat, p: Path)
    requires j < |s|
    ensures TotalWeight(s[j := p]) == TotalWeight(s) - s[j].weight + p.weight
  {
    assert s == s[..j] + [s[j]] + s[j + 1..];
    assert s[j := p] == s[..j] + [p] + s[j + 1..];
    WeightConcat(s[..j] + [s[j]], s[j + 1..]);
    WeightConcat(s[..j] + [p], s[j + 1..]);
    WeightConcat(s[..j], [s[j]]);
    WeightConcat(s[..j], [p]);
    One(p, map[]);
    One(s[j], map[]);
  }

  lemma {:induction false} ConstrainEachConserves(paths: seq<Path>, conditions: seq<Expr>, constraints: seq<Expr>,
                                                  a: Assignment)
    requires |paths| == |conditions| && (forall c <- conditions :: Addable(c))
    requires forall q <- paths :: q.constraints == constraints
    ensures TotalWeight(ConstrainEach(paths, conditions)) == TotalWeight(paths)
    ensures Coverage(ConstrainEach(paths, conditions), a) == if Sat(constraints, a) then CountTrue(conditions, a) else 0
  {
    if paths != [] {
      var n := |paths| - 1;
      var (paths', conditions') := (paths[..n], conditions[..n]);
      ConstrainEachConserves(paths', conditions', constraints, a);
      ConstrainCovers(paths[n], conditions[n], a);
      assert ConstrainEach(paths, conditions)[..n] == ConstrainEach(paths', conditions');
      assert paths[n] in paths;
    }
  }

  lemma LeafReplaced(leaves: seq<Path>, i: nat, successors: seq<Path>, a: Assignment)
    requires i < |leaves|
    ensures var next := leaves[..i] + leaves[i + 1..] + successors;
      && Coverage(next, a) == Coverage(leaves, a) - Covers(leaves[i], a) + Coverage(successors, a)
      && TotalWeight(next) == TotalWeight(leaves) - leaves[i].weight + TotalWeight(successors)
  {
    hide Coverage, TotalWeight, Covers;
    var before, leaf, after := leaves[..i], leaves[i], leaves[i + 1..];
    assert leaves == before + [leaf] + after;
    CoverageConcat(before + [leaf], after, a);
    CoverageConcat(before, [leaf], a);
    CoverageConcat(before + after, successors, a);
    CoverageConcat(before, after, a);
    WeightConcat(before + [leaf], after);
    WeightConcat(before, [leaf]);
    WeightConcat(before + after, successors);
    WeightConcat(before, after);
    One(leaf, a);
  }

  lemma SuccessorsConserve(leaf: Path, step: Step, a: Assignment)
    requires Enabled([leaf], step)
    ensures Coverage(Successors(leaf, step), a) == Covers(leaf, a) && TotalWeight(Successors(leaf, step)) == leaf.weight
  {
    hide Coverage, TotalWeight, SplitMany, ConstrainEach, ForkPath, CountTrue;
    match step {
      case ForkStep(_, condition, solver) => ForkConserves(leaf, condition, solver, a);
      case BranchStep(_, conditions, choices) =>
        SplitManyIs(leaf, choices);
        ConstrainEachConserves(SplitMany(leaf, choices), conditions, leaf.constraints, a);
    }
  }

  /** A step moves an assignment from the leaf it reached to exactly one successor, and shares out the weight. */
  lemma StepConserves(leaves: seq<Path>, step: Step, a: Assignment)
    requires Enabled(leaves, step)
    ensures Coverage(Next(leaves, step), a) == Coverage(leaves, a)
    ensures TotalWeight(Next(leaves, step)) == TotalWeight(leaves)
  {
    hide Coverage, TotalWeight, Successors, Covers;
    var i := step.leaf;
    LeafReplaced(leaves, i, Successors(leaves[i], step), a);
    SuccessorsConserve(leaves[i], step.(leaf := 0), a);
    OnlyTheLeaf(leaves[i], step);
  }

  lemma OnlyTheLeaf(leaf: Path, step: Step)
    requires step.BranchStep? ==> |step.conditions| == |step.choices| + 1
    ensures Successors(leaf, step.(leaf := 0)) == Successors(leaf, step)
  {}

  lemma {:induction false} RunConserves(leaves: seq<Path>, steps: seq<Step>, a: Assignment)
    requires Runnable(leaves, steps)
    ensures Coverage(Run(leaves, steps), a) == Coverage(leaves, a)
    ensures TotalWeight(Run(leaves, steps)) == TotalWeight(leaves)
    decreases |steps|
  {
    if steps == [] {
    } else {
      StepConserves(leaves, steps[0], a);
      RunConserves(Next(leaves, steps[0]), steps[1..], a);
    }
  }

  lemma {:induction false} CoverageIsUnique(leaves: seq<Path>, a: Assignment, i: nat, j: nat)
    requires i < j < |leaves| && Sat(leaves[i].constraints, a) && Sat(leaves[j].constraints, a)
    ensures Coverage(leaves, a) >= 2
  {
    var n := |leaves| - 1;
    if j < n {
      CoverageIsUnique(leaves[..n], a, i, j);
    } else {
      CoverageAtLeast(leaves[..n], a, i);
    }
  }

  lemma {:induction false} CoverageAtLeast(leaves: seq<Path>, a: Assignment, i: nat)
    requires i < |leaves| && Sat(leaves[i].constraints, a)
    ensures Coverage(leaves, a) >= 1
  {
    var n := |leaves| - 1;
    if i < n {
      CoverageAtLeast(leaves[..n], a, i);
    }
  }

  lemma {:induction false} CoverageFinds(leaves: seq<Path>, a: Assignment) returns (i: nat)
    requires Coverage(leaves, a) >= 1
    ensures i < |leaves| && Sat(leaves[i].constraints, a)
  {
    var n := |leaves| - 1;
    if Sat(leaves[n].constraints, a) {
      i := n;
    } else {
      i := CoverageFinds(leaves[..n], a);
    }
  }

  /**
   Whatever is forked and branched, and whichever states the random choices split, the
   leaves' path conditions partition the inputs of the root and their weights add up to
   the root's.
   */
  lemma RunPartitions(root: Path, steps: seq<Step>)
    requires Runnable([root], steps)
    ensures var leaves := Run([root], steps);
      && TotalWeight(leaves) == root.weight
      && (forall a :: Sat(root.constraints, a) <==> exists i :: 0 <= i < |leaves| && Sat(leaves[i].constraints, a))
      && (forall a, i, j | 0 <= i < j < |leaves| :: !(Sat(leaves[i].constraints, a) && Sat(leaves[j].constraints, a)))
  {
    var leaves := Run([root], steps);
    RunConserves([root], steps, map[]);
    forall a ensures Coverage(leaves, a) == Covers(root, a) {
      RunConserves([root], steps, a);
      One(root, a);
    }
    One(root, map[]);
    forall a
      ensures Sat(root.constraints, a) <==> exists i :: 0 <= i < |leaves| && Sat(leaves[i].constraints, a)
    {
      if Sat(root.constraints, a) {
        var i := CoverageFinds(leaves, a);
      } else if exists i :: 0 <= i < |leaves| && Sat(leaves[i].constraints, a) {
        var i :| 0 <= i < |leaves| && Sat(leaves[i].constraints, a);
        CoverageAtLeast(leaves, a, i);
      }
    }
    forall a, i, j | 0 <= i < j < |leaves|
      ensures !(Sat(leaves[i].constraints, a) && Sat(leaves[j].constraints, a))
    {
      if Sat(leaves[i].constraints, a) && Sat(leaves[j].constraints, a) {
        CoverageIsUnique(leaves, a, i, j);
      }
    }
  }

  lemma SuccessorsHalve(leaf: Path, step: Step)
    requires step.BranchStep? ==> |step.conditions| == |step.choices| + 1
    ensures WeightFollowsDepth(Successors(leaf, step), leaf)
  {
    match step
    case ForkStep(_, _, _) => HalveHalves(leaf, leaf);
    case BranchStep(_, conditions, choices) =>
      SplitManyHalves(leaf, choices);
      var r := SplitMany(leaf, choices);
      forall i | 0 <= i < |r| ensures HalvedFrom(Constrain(r[i], conditions[i]), leaf) {
        assert r[i] in r;
      }
  }

  /** Splitting anywhere keeps every leaf's weight tied to its depth. */
  lemma {:induction false} RunWeights(root: Path, leaves: seq<Path>, steps: seq<Step>)
    requires Runnable(leaves, steps) && WeightFollowsDepth(leaves, root)
    ensures WeightFollowsDepth(Run(leaves, steps), root)
    decreases |steps|
  {
    if steps == [] {
    } else {
      var leaf, step := leaves[steps[0].leaf], steps[0];
      SuccessorsHalve(leaf, step);
      forall q | q in Next(leaves, step) ensures HalvedFrom(q, root) {
        if q in Successors(leaf, step) {
          assert leaf in leaves;
          HalvedTransitively(q, leaf, root);
        } else {
          assert q in leaves;
        }
      }
      RunWeights(root, Next(leaves, step), steps[1..]);
    }
  }

  lemma {:induction false} HalfAdd(m: nat, n: nat)
    ensures Half(m + n) == Half(m) * Half(n)
  {
    if n > 0 {
      HalfAdd(m, n - 1);
    }
  }
}
