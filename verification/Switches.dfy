/**
 Lowering a switch on a symbolic value to one condition per target block
 (klee/lib/Core/Executor.cpp:4896-4985).
 */
module Switches {
  import opened Arithmetic
  import opened Exprs
  import opened Options
  import opened Paths
  import opened Sequences
  import opened Solvers

  datatype Case = Case(value: nat, block: nat)

  /** Case values fit the width of the switched value and are distinct; blocks may be shared. */
  ghost predicate ValidCases(cases: seq<Case>, width: nat) {
    && (forall c <- cases :: c.value < Pow2(width))
    && (forall i, j | 0 <= i < j < |cases| :: cases[i].value != cases[j].value)
  }

  /** The block that a switch on value `v` transfers to. */
  function Target(cases: seq<Case>, defaultBlock: nat, v: nat): nat {
    if cases == [] then defaultBlock
    else if cases[0].value == v then cases[0].block
    else Target(cases[1..], defaultBlock, v)
  }

  function Match(cond: Expr, c: Case): Expr {
    Cmp(Eq, cond, Const(c.value, Width(cond)))
  }

  /** The value misses every case. */
  ghost predicate Misses(cases: seq<Case>, v: nat) {
    forall c <- cases :: c.value != v
  }

  /** Some assignment satisfying the constraints makes the switched value hit this case. */
  ghost predicate Reached(constraints: seq<Expr>, cond: Expr, c: Case) {
    exists a :: Sat(constraints, a) && Eval(cond, a) == c.value
  }

  ghost predicate DefaultReached(constraints: seq<Expr>, cond: Expr, cases: seq<Case>) {
    exists a :: Sat(constraints, a) && Misses(cases, Eval(cond, a))
  }

  lemma MatchMeans(cond: Expr, c: Case, a: Assignment)
    requires WellFormed(cond) && c.value < Pow2(Width(cond))
    ensures IsBool(Match(cond, c))
    ensures IsTrue(Match(cond, c), a) <==> Eval(cond, a) == c.value
  {
    Small(c.value, Pow2(Width(cond)));
    assert Eval(Const(c.value, Width(cond)), a) == c.value;
  }

  lemma {:induction false} TargetOfHit(cases: seq<Case>, defaultBlock: nat, i: nat)
    requires i < |cases| && forall k, l | 0 <= k < l < |cases| :: cases[k].value != cases[l].value
    ensures Target(cases, defaultBlock, cases[i].value) == cases[i].block
  {
    if i > 0 {
      TargetOfHit(cases[1..], defaultBlock, i - 1);
    }
  }

  lemma {:induction false} TargetOfMiss(cases: seq<Case>, defaultBlock: nat, v: nat)
    requires Misses(cases, v)
    ensures Target(cases, defaultBlock, v) == defaultBlock
  {
    if cases != [] {
      assert cases[0] in cases;
      TargetOfMiss(cases[1..], defaultBlock, v);
    }
  }

  /** Under the assignment one of the first `k` cases leads to the block. */
  ghost predicate LeadsTo(cond: Expr, cases: seq<Case>, k: nat, b: nat, a: Assignment)
    requires k <= |cases|
  {
    exists i :: 0 <= i < k && cases[i].block == b && Eval(cond, a) == cases[i].value
  }

  /** One of the first `k` cases leads to the block under some input. */
  ghost predicate Live(constraints: seq<Expr>, cond: Expr, cases: seq<Case>, k: nat, b: nat)
    requires k <= |cases|
  {
    exists i :: 0 <= i < k && cases[i].block == b && Reached(constraints, cond, cases[i])
  }

  /** After `k` cases: the live blocks, each with the condition that one of those cases leads to it. */
  ghost predicate Collected(constraints: seq<Expr>, cond: Expr, cases: seq<Case>, k: nat, order: seq<nat>,
                            targets: map<nat, Expr>)
    requires k <= |cases|
  {
    && (forall b :: b in order <==> b in targets)
    && NoDuplicates(order)
    && (forall b :: b in targets <==> Live(constraints, cond, cases, k, b))
    && (forall b <- targets :: IsBool(targets[b]))
    && (forall b, a | b in targets && Sat(constraints, a) :: IsTrue(targets[b], a) <==> LeadsTo(cond, cases, k, b, a))
  }

  /** The generated conditions choose the block the switch chooses, for every input of the state. */
  ghost predicate Faithful(constraints: seq<Expr>, cond: Expr, cases: seq<Case>, defaultBlock: nat,
                           order: seq<nat>, conditions: seq<Expr>)
    requires |conditions| == |order|
  {
    && ExclusiveAndExhaustive(constraints, conditions)
    && forall a, i | Sat(constraints, a) && 0 <= i < |order| ::
         IsTrue(conditions[i], a) <==> order[i] == Target(cases, defaultBlock, Eval(cond, a))
  }

  function ConditionsFor(order: seq<nat>, targets: map<nat, Expr>): seq<Expr>
    requires forall b <- order :: b in targets
  {
    seq(|order|, i requires 0 <= i < |order| => targets[order[i]])
  }

  lemma LiveStep(constraints: seq<Expr>, cond: Expr, cases: seq<Case>, k: nat, b: nat)
    requires k < |cases|
    ensures Live(constraints, cond, cases, k + 1, b) <==>
              Live(constraints, cond, cases, k, b) || (cases[k].block == b && Reached(constraints, cond, cases[k]))
  {}

  lemma LeadsToStep(cond: Expr, cases: seq<Case>, k: nat, b: nat, a: Assignment)
    requires k < |cases|
    ensures LeadsTo(cond, cases, k + 1, b, a) <==>
              LeadsTo(cond, cases, k, b, a) || (cases[k].block == b && Eval(cond, a) == cases[k].value)
  {}

  lemma NotLiveNotLed(constraints: seq<Expr>, cond: Expr, cases: seq<Case>, k: nat, b: nat, a: Assignment)
    requires k <= |cases| && Sat(constraints, a) && LeadsTo(cond, cases, k, b, a)
    ensures Live(constraints, cond, cases, k, b)
  {}

  function OrMatch(cond: Expr, c: Case, targets: map<nat, Expr>): Expr {
    Bin(Or, Match(cond, c), if c.block in targets then targets[c.block] else FALSE_EXPR)
  }

  lemma OrMatchMeans(constraints: seq<Expr>, cond: Expr, cases: seq<Case>, k: nat, order: seq<nat>,
                     targets: map<nat, Expr>, a: Assignment)
    requires k < |cases| && WellFormed(cond) && cases[k].value < Pow2(Width(cond))
    requires Collected(constraints, cond, cases, k, order, targets)
    ensures IsBool(OrMatch(cond, cases[k], targets))
    ensures Sat(constraints, a) ==>
              (IsTrue(OrMatch(cond, cases[k], targets), a) <==> LeadsTo(cond, cases, k + 1, cases[k].block, a))
  {
    var b, m := cases[k].block, Match(cond, cases[k]);
    var before := if b in targets then targets[b] else FALSE_EXPR;
    MatchMeans(cond, cases[k], a);
    EvalOr(m, before, a);
    LeadsToStep(cond, cases, k, b, a);
    assert !IsTrue(FALSE_EXPR, a);
    if Sat(constraints, a) && LeadsTo(cond, cases, k, b, a) {
      NotLiveNotLed(constraints, cond, cases, k, b, a);
    }
  }

  lemma AddHit(constraints: seq<Expr>, cond: Expr, cases: seq<Case>, k: nat, order: seq<nat>, targets: map<nat, Expr>)
    requires k < |cases| && WellFormed(cond) && cases[k].value < Pow2(Width(cond))
    requires Collected(constraints, cond, cases, k, order, targets) && Reached(constraints, cond, cases[k])
    ensures var b := cases[k].block;
      Collected(constraints, cond, cases, k + 1, if b in targets then order else order + [b],
                targets[b := OrMatch(cond, cases[k], targets)])
  {
    hide Live, LeadsTo, OrMatch, Reached, IsBool, IsTrue, Sat, Eval, Pow2;
    var b, e := cases[k].block, OrMatch(cond, cases[k], targets);
    OrMatchMeans(constraints, cond, cases, k, order, targets, map[]);
    forall a | Sat(constraints, a) ensures IsTrue(e, a) <==> LeadsTo(cond, cases, k + 1, b, a) {
      OrMatchMeans(constraints, cond, cases, k, order, targets, a);
    }
    forall c ensures Live(constraints, cond, cases, k + 1, c) <==> c == b || c in targets {
      LiveStep(constraints, cond, cases, k, c);
    }
    forall c, a | c != b ensures LeadsTo(cond, cases, k + 1, c, a) <==> LeadsTo(cond, cases, k, c, a) {
      LeadsToStep(cond, cases, k, c, a);
    }
  }

  lemma NotReachedMisses(constraints: seq<Expr>, cond: Expr, c: Case)
    requires !Reached(constraints, cond, c)
    ensures forall a | Sat(constraints, a) :: Eval(cond, a) != c.value
  {}

  lemma SkipMiss(constraints: seq<Expr>, cond: Expr, cases: seq<Case>, k: nat, order: seq<nat>, targets: map<nat, Expr>)
    requires k < |cases| && Collected(constraints, cond, cases, k, order, targets)
    requires !Reached(constraints, cond, cases[k])
    ensures Collected(constraints, cond, cases, k + 1, order, targets)
  {
    hide Live, LeadsTo, Reached, IsBool, IsTrue, Sat, Eval;
    NotReachedMisses(constraints, cond, cases[k]);
    forall c ensures Live(constraints, cond, cases, k + 1, c) <==> Live(constraints, cond, cases, k, c) {
      LiveStep(constraints, cond, cases, k, c);
    }
    forall c, a | Sat(constraints, a) ensures LeadsTo(cond, cases, k + 1, c, a) <==> LeadsTo(cond, cases, k, c, a) {
      LeadsToStep(cond, cases, k, c, a);
    }
  }

  lemma {:induction false} CountOne(conditions: seq<Expr>, order: seq<nat>, target: nat, a: Assignment)
    requires |conditions| == |order| && NoDuplicates(order)
    requires forall i | 0 <= i < |order| :: IsTrue(conditions[i], a) <==> order[i] == target
    ensures CountTrue(conditions, a) == if target in order then 1 else 0
  {
    if order != [] {
      var n := |order| - 1;
      CountOne(conditions[..n], order[..n], target, a);
      assert order == order[..n] + [order[n]];
      if order[n] == target {
        assert target !in order[..n];
      }
    }
  }

  /** The default condition built up over the first `k` cases. */
  ghost predicate IsDefault(e: Expr, cond: Expr, cases: seq<Case>, k: nat)
    requires k <= |cases|
  {
    IsBool(e) && Addable(e) && forall a :: IsTrue(e, a) <==> Misses(cases[..k], Eval(cond, a))
  }

  lemma DefaultStep(e: Expr, cond: Expr, cases: seq<Case>, k: nat)
    requires k < |cases| && WellFormed(cond) && cases[k].value < Pow2(Width(cond)) && IsDefault(e, cond, cases, k)
    ensures IsDefault(Bin(And, e, IsZero(Match(cond, cases[k]))), cond, cases, k + 1)
  {
    var m := Match(cond, cases[k]);
    MatchMeans(cond, cases[k], map[]);
    EvalIsZero(m, map[]);
    EvalAnd(e, IsZero(m), map[]);
    forall a ensures IsTrue(Bin(And, e, IsZero(m)), a) <==> Misses(cases[..k + 1], Eval(cond, a)) {
      MatchMeans(cond, cases[k], a);
      EvalIsZero(m, a);
      EvalAnd(e, IsZero(m), a);
      MissesStep(cases, k, Eval(cond, a));
    }
  }

  lemma MissesStep(cases: seq<Case>, k: nat, v: nat)
    requires k < |cases|
    ensures Misses(cases[..k + 1], v) <==> Misses(cases[..k], v) && cases[k].value != v
  {
    assert cases[..k + 1] == cases[..k] + [cases[k]];
  }

  lemma LeadsNowhere(cond: Expr, cases: seq<Case>, b: nat, a: Assignment)
    requires Misses(cases, Eval(cond, a))
    ensures !LeadsTo(cond, cases, |cases|, b, a)
  {
    hide Eval;
    assert forall i | 0 <= i < |cases| :: cases[i] in cases;
  }

  lemma LeadsOnlyTo(constraints: seq<Expr>, cond: Expr, cases: seq<Case>, i: nat, b: nat, a: Assignment)
    requires forall k, l | 0 <= k < l < |cases| :: cases[k].value != cases[l].value
    requires i < |cases| && cases[i].value == Eval(cond, a) && Sat(constraints, a)
    ensures LeadsTo(cond, cases, |cases|, b, a) <==> b == cases[i].block
    ensures Live(constraints, cond, cases, |cases|, cases[i].block)
  {
    hide Eval, Sat;
    assert Reached(constraints, cond, cases[i]);
  }

  /** Where an input that satisfies the constraints goes, and which conditions it makes true. */
  lemma CollectedTargets(constraints: seq<Expr>, cond: Expr, cases: seq<Case>, defaultBlock: nat,
                         order: seq<nat>, targets: map<nat, Expr>, a: Assignment)
    requires ValidCases(cases, Width(cond)) && Collected(constraints, cond, cases, |cases|, order, targets)
    requires Sat(constraints, a)
    ensures var v, t := Eval(cond, a), Target(cases, defaultBlock, Eval(cond, a));
      if Misses(cases, v)
      then t == defaultBlock && forall b <- targets :: !IsTrue(targets[b], a)
      else t in targets && forall b <- targets :: IsTrue(targets[b], a) <==> b == t
  {
    hide Eval, Sat, IsTrue, LeadsTo, Live, Target, IsBool;
    var v := Eval(cond, a);
    if Misses(cases, v) {
      TargetOfMiss(cases, defaultBlock, v);
      forall b | b in targets ensures !IsTrue(targets[b], a) {
        LeadsNowhere(cond, cases, b, a);
      }
    } else {
      var c :| c in cases && c.value == v;
      var i :| 0 <= i < |cases| && cases[i] == c;
      TargetOfHit(cases, defaultBlock, i);
      forall b ensures LeadsTo(cond, cases, |cases|, b, a) <==> b == cases[i].block {
        LeadsOnlyTo(constraints, cond, cases, i, b, a);
      }
      LeadsOnlyTo(constraints, cond, cases, i, 0, a);
    }
  }

  /** The default block is also where some reachable case leads. */
  ghost predicate DefaultShared(constraints: seq<Expr>, cond: Expr, cases: seq<Case>, defaultBlock: nat) {
    Live(constraints, cond, cases, |cases|, defaultBlock)
  }

  /** A default block with no entry gets the default condition. */
  function WithDefault(order: seq<nat>, targets: map<nat, Expr>, reached: bool, defaultBlock: nat, e: Expr)
    : (seq<nat>, map<nat, Expr>)
  {
    if reached && defaultBlock !in targets then (order + [defaultBlock], targets[defaultBlock := e])
    else (order, targets)
  }

  lemma WithDefaultTargets(constraints: seq<Expr>, cond: Expr, cases: seq<Case>, defaultBlock: nat,
                           order: seq<nat>, targets: map<nat, Expr>, e: Expr, a: Assignment)
    requires ValidCases(cases, Width(cond)) && Collected(constraints, cond, cases, |cases|, order, targets)
    requires IsDefault(e, cond, cases, |cases|) && Sat(constraints, a)
    requires !(DefaultReached(constraints, cond, cases) && DefaultShared(constraints, cond, cases, defaultBlock))
    ensures var (_, ts) := WithDefault(order, targets, DefaultReached(constraints, cond, cases), defaultBlock, e);
      var t := Target(cases, defaultBlock, Eval(cond, a));
      t in ts && forall b <- ts :: IsTrue(ts[b], a) <==> b == t
  {
    hide Eval, Sat, IsTrue, Live, Target, ValidCases, Misses, Collected;
    CollectedTargets(constraints, cond, cases, defaultBlock, order, targets, a);
    TargetsLive(constraints, cond, cases, order, targets);
    assert cases[..|cases|] == cases;
  }

  lemma TargetsLive(constraints: seq<Expr>, cond: Expr, cases: seq<Case>, order: seq<nat>, targets: map<nat, Expr>)
    requires Collected(constraints, cond, cases, |cases|, order, targets)
    ensures forall b :: b in targets <==> Live(constraints, cond, cases, |cases|, b)
  {}

  /**
   The conditions choose as the switch does if and only if the default block is not both
   reached by default and the block of a reachable case: an entry for the block is then
   there already and the default condition is dropped.
   */
  lemma FaithfulIff(constraints: seq<Expr>, cond: Expr, cases: seq<Case>, defaultBlock: nat,
                    order: seq<nat>, targets: map<nat, Expr>, e: Expr, os: seq<nat>, ts: map<nat, Expr>)
    requires ValidCases(cases, Width(cond)) && Collected(constraints, cond, cases, |cases|, order, targets)
    requires IsDefault(e, cond, cases, |cases|)
    requires (os, ts) == WithDefault(order, targets, DefaultReached(constraints, cond, cases), defaultBlock, e)
    ensures forall b :: b in os <==> b in ts
    ensures Faithful(constraints, cond, cases, defaultBlock, os, ConditionsFor(os, ts)) <==>
              !(DefaultReached(constraints, cond, cases) && DefaultShared(constraints, cond, cases, defaultBlock))
  {
    hide Collected, IsDefault, ValidCases, Faithful, Live;
    OrderedAsTargets(constraints, cond, cases, order, targets);
    if DefaultReached(constraints, cond, cases) && DefaultShared(constraints, cond, cases, defaultBlock) {
      ClashUnfaithful(constraints, cond, cases, defaultBlock, order, targets);
    } else {
      NoClashFaithful(constraints, cond, cases, defaultBlock, order, targets, e, os, ts);
    }
  }

  lemma OrderedAsTargets(constraints: seq<Expr>, cond: Expr, cases: seq<Case>, order: seq<nat>, targets: map<nat, Expr>)
    requires Collected(constraints, cond, cases, |cases|, order, targets)
    ensures forall b :: b in order <==> b in targets
    ensures NoDuplicates(order)
    ensures forall b :: b in targets <==> Live(constraints, cond, cases, |cases|, b)
  {}

  /** An input that misses every case makes no condition true. */
  lemma ClashUnfaithful(constraints: seq<Expr>, cond: Expr, cases: seq<Case>, defaultBlock: nat,
                        order: seq<nat>, targets: map<nat, Expr>)
    requires ValidCases(cases, Width(cond)) && Collected(constraints, cond, cases, |cases|, order, targets)
    requires DefaultReached(constraints, cond, cases) && DefaultShared(constraints, cond, cases, defaultBlock)
    ensures forall b <- order :: b in targets
    ensures !Faithful(constraints, cond, cases, defaultBlock, order, ConditionsFor(order, targets))
  {
    hide Collected, Eval, Sat, IsTrue, Live, Target, ExclusiveAndExhaustive;
    OrderedAsTargets(constraints, cond, cases, order, targets);
    var a :| Sat(constraints, a) && Misses(cases, Eval(cond, a));
    CollectedTargets(constraints, cond, cases, defaultBlock, order, targets, a);
    var i :| 0 <= i < |order| && order[i] == defaultBlock;
    assert !IsTrue(ConditionsFor(order, targets)[i], a);
  }

  lemma NoClashFaithful(constraints: seq<Expr>, cond: Expr, cases: seq<Case>, defaultBlock: nat,
                        order: seq<nat>, targets: map<nat, Expr>, e: Expr, os: seq<nat>, ts: map<nat, Expr>)
    requires ValidCases(cases, Width(cond)) && Collected(constraints, cond, cases, |cases|, order, targets)
    requires IsDefault(e, cond, cases, |cases|)
    requires (os, ts) == WithDefault(order, targets, DefaultReached(constraints, cond, cases), defaultBlock, e)
    requires !(DefaultReached(constraints, cond, cases) && DefaultShared(constraints, cond, cases, defaultBlock))
    ensures forall b :: b in os <==> b in ts
    ensures Faithful(constraints, cond, cases, defaultBlock, os, ConditionsFor(os, ts))
  {
    hide Collected, IsDefault, Eval, Sat, IsTrue, Live, Target, DefaultShared, DefaultReached;
    OrderedAsTargets(constraints, cond, cases, order, targets);
    var conditions := ConditionsFor(os, ts);
    forall a | Sat(constraints, a)
      ensures CountTrue(conditions, a) == 1
      ensures forall i | 0 <= i < |os| :: IsTrue(conditions[i], a) <==>
        os[i] == Target(cases, defaultBlock, Eval(cond, a))
    {
      WithDefaultTargets(constraints, cond, cases, defaultBlock, order, targets, e, a);
      forall i | 0 <= i < |os|
        ensures IsTrue(conditions[i], a) <==> os[i] == Target(cases, defaultBlock, Eval(cond, a))
      {
        assert os[i] in ts;
      }
      CountOne(conditions, os, Target(cases, defaultBlock, Eval(cond, a)), a);
    }
  }

  lemma MatchQuery(solver: Solver, constraints: seq<Expr>, cond: Expr, c: Case)
    requires solver.Sound() && Satisfiable(constraints) && WellFormed(cond) && c.value < Pow2(Width(cond))
    ensures solver.MayBeTrue(constraints, Match(cond, c)).Some? ==>
              (solver.MayBeTrue(constraints, Match(cond, c)).value <==> Reached(constraints, cond, c))
  {
    MatchMeans(cond, c, map[]);
    solver.MayBeTrueMeans(constraints, Match(cond, c));
    forall a ensures IsTrue(Match(cond, c), a) <==> Eval(cond, a) == c.value {
      MatchMeans(cond, c, a);
    }
  }

  lemma DefaultQuery(solver: Solver, constraints: seq<Expr>, cond: Expr, cases: seq<Case>, e: Expr)
    requires solver.Sound() && Satisfiable(constraints) && IsDefault(e, cond, cases, |cases|)
    ensures solver.MayBeTrue(constraints, e).Some? ==>
              (solver.MayBeTrue(constraints, e).value <==> DefaultReached(constraints, cond, cases))
  {
    solver.MayBeTrueMeans(constraints, e);
    assert cases[..|cases|] == cases;
  }

  /**
   At least one distinct block, conditions that can be added, and a faithful choice exactly where there is no clash.
   */
  ghost predicate Lowered(constraints: seq<Expr>, cond: Expr, cases: seq<Case>, defaultBlock: nat,
                          order: seq<nat>, conditions: seq<Expr>)
  {
    && |order| == |conditions| && |order| > 0
    && NoDuplicates(order)
    && (forall c <- conditions :: Addable(c))
    && (Faithful(constraints, cond, cases, defaultBlock, order, conditions) <==>
          !(DefaultReached(constraints, cond, cases) && DefaultShared(constraints, cond, cases, defaultBlock)))
  }

  /**
   The target blocks in the order found and one condition for each. `answered` is false
   where the original's assertion that a query succeeds fails.
   */
  method LowerSwitch(solver: Solver, constraints: seq<Expr>, cond: Expr, cases: seq<Case>, defaultBlock: nat)
    returns (answered: bool, order: seq<nat>, conditions: seq<Expr>)
    requires solver.Sound() && Satisfiable(constraints) && WellFormed(cond) && ValidCases(cases, Width(cond))
    ensures answered ==> Lowered(constraints, cond, cases, defaultBlock, order, conditions)
    ensures solver.Answers(constraints) ==> answered
  {
    order := [];
    var targets: map<nat, Expr> := map[];
    var defaultValue := TRUE_EXPR;
    InitiallyCollected(constraints, cond, cases);
    hide Lowered, Collected, IsDefault, Reached;
    hide Satisfiable, Solver.Sound, Solver.Answers, Solver.MayBeTrue, DefaultReached, WithDefault;
    for k := 0 to |cases|
      invariant Collected(constraints, cond, cases, k, order, targets)
      invariant forall b <- targets :: !targets[b].Const?
      invariant IsDefault(defaultValue, cond, cases, k)
    {
      var match_ := Match(cond, cases[k]);
      DefaultStep(defaultValue, cond, cases, k);
      defaultValue := Bin(And, defaultValue, IsZero(match_));
      MatchQuery(solver, constraints, cond, cases[k]);
      solver.AnswersDerived(constraints, match_);
      var possible := solver.MayBeTrue(constraints, match_);
      if possible.None? {
        return false, [], [];
      }
      if possible.value {
        AddHit(constraints, cond, cases, k, order, targets);
        var b := cases[k].block;
        var known := b in targets;
        targets := targets[b := OrMatch(cond, cases[k], targets)];
        if !known {
          order := order + [b];
        }
      } else {
        SkipMiss(constraints, cond, cases, k, order, targets);
      }
    }
    DefaultQuery(solver, constraints, cond, cases, defaultValue);
    solver.AnswersDerived(constraints, defaultValue);
    var possible := solver.MayBeTrue(constraints, defaultValue);
    if possible.None? {
      return false, [], [];
    }
    var (os, ts) := WithDefault(order, targets, possible.value, defaultBlock, defaultValue);
    Finish(constraints, cond, cases, defaultBlock, order, targets, defaultValue, os, ts);
    return true, os, ConditionsFor(os, ts);
  }

  lemma InitiallyCollected(constraints: seq<Expr>, cond: Expr, cases: seq<Case>)
    ensures Collected(constraints, cond, cases, 0, [], map[]) && IsDefault(TRUE_EXPR, cond, cases, 0)
  {}

  lemma Finish(constraints: seq<Expr>, cond: Expr, cases: seq<Case>, defaultBlock: nat,
               order: seq<nat>, targets: map<nat, Expr>, e: Expr, os: seq<nat>, ts: map<nat, Expr>)
    requires ValidCases(cases, Width(cond)) && Collected(constraints, cond, cases, |cases|, order, targets)
    requires IsDefault(e, cond, cases, |cases|) && Satisfiable(constraints) && forall b <- targets :: !targets[b].Const?
    requires (os, ts) == WithDefault(order, targets, DefaultReached(constraints, cond, cases), defaultBlock, e)
    ensures forall b <- os :: b in ts
    ensures Lowered(constraints, cond, cases, defaultBlock, os, ConditionsFor(os, ts))
  {
    hide Faithful, DefaultShared, Satisfiable;
    FaithfulIff(constraints, cond, cases, defaultBlock, order, targets, e, os, ts);
    SomeTarget(constraints, cond, cases, defaultBlock, order, targets);
  }

  /** A state with any input has somewhere to go. */
  lemma SomeTarget(constraints: seq<Expr>, cond: Expr, cases: seq<Case>, defaultBlock: nat,
                   order: seq<nat>, targets: map<nat, Expr>)
    requires ValidCases(cases, Width(cond)) && Collected(constraints, cond, cases, |cases|, order, targets)
    requires Satisfiable(constraints)
    ensures DefaultReached(constraints, cond, cases) || |order| > 0
  {
    hide Collected, Target, Eval, Sat, Misses;
    var a :| Sat(constraints, a);
    CollectedTargets(constraints, cond, cases, defaultBlock, order, targets, a);
    OrderedAsTargets(constraints, cond, cases, order, targets);
  }

  /**
   Branching on the conditions of a switch without a clash: one leaf per block, and each
   leaf holds exactly the inputs of the state that the switch sends to its block.
   */
  lemma SwitchPartitions(p: Path, cond: Expr, cases: seq<Case>, defaultBlock: nat,
                         order: seq<nat>, conditions: seq<Expr>, choices: seq<nat>)
    requires Lowered(p.constraints, cond, cases, defaultBlock, order, conditions) && |conditions| == |choices| + 1
    requires !(DefaultReached(p.constraints, cond, cases) && DefaultShared(p.constraints, cond, cases, defaultBlock))
    ensures Enabled([p], BranchStep(0, conditions, choices))
    ensures var leaves := BranchPath(p, conditions, choices);
      && |leaves| == |order|
      && forall i, a | 0 <= i < |order| ::
           Sat(leaves[i].constraints, a) <==>
             Sat(p.constraints, a) && order[i] == Target(cases, defaultBlock, Eval(cond, a))
  {
    hide DefaultReached, DefaultShared, Sat, Eval, Target, SplitMany;
    var before, leaves := SplitMany(p, choices), BranchPath(p, conditions, choices);
    SplitManyIs(p, choices);
    forall i, a | 0 <= i < |order|
      ensures Sat(leaves[i].constraints, a) <==>
        Sat(p.constraints, a) && order[i] == Target(cases, defaultBlock, Eval(cond, a))
    {
      assert before[i] in before && conditions[i] in conditions;
      ConstrainCovers(before[i], conditions[i], a);
    }
  }

  const SWITCHED := Read(Array("x", 1), NoUpdates, Const(0, INT32))

  /**
   A switch with a clash: case 0 and the default lead to block 7, and an input other than 0 makes no condition true.
   */
  lemma ClashingSwitch()
    ensures var cases, e := [Case(0, 7)], OrMatch(SWITCHED, Case(0, 7), map[]);
      && ValidCases(cases, Width(SWITCHED))
      && DefaultReached([], SWITCHED, cases) && DefaultShared([], SWITCHED, cases, 7)
      && Collected([], SWITCHED, cases, 1, [7], map[7 := e])
      && (forall d :: WithDefault([7], map[7 := e], true, 7, d) == ([7], map[7 := e]))
      && (exists a :: Target(cases, 7, Eval(SWITCHED, a)) == 7 && !IsTrue(e, a))
  {
    hide Eval, IsTrue, OrMatch, Collected, Pow2, IsDefault;
    var cases, c, e := [Case(0, 7)], Case(0, 7), OrMatch(SWITCHED, Case(0, 7), map[]);
    var x := Array("x", 1);
    var zero: Assignment, one: Assignment := map[x := [0]], map[x := [1]];
    SwitchedValue(zero, 0);
    SwitchedValue(one, 1);
    Pow2Byte();
    InitiallyCollected([], SWITCHED, cases);
    assert Sat([], zero) && Sat([], one);
    assert Reached([], SWITCHED, c);
    assert Misses(cases, Eval(SWITCHED, one));
    var none: map<nat, Expr> := map[];
    AddHit([], SWITCHED, cases, 0, [], none);
    assert [] + [7] == [7] && none[7 := e] == map[7 := e] && 7 !in none;
    OrMatchMeans([], SWITCHED, cases, 0, [], none, one);
    assert !LeadsTo(SWITCHED, cases, 1, 7, one);
  }

  lemma SwitchedValue(a: Assignment, v: Exprs.byte)
    requires Array("x", 1) in a && a[Array("x", 1)] == [v]
    ensures Eval(SWITCHED, a) == v
  {
    Small(0, Pow2(INT32));
    assert Eval(Const(0, INT32), a) == 0;
  }
}
