/**
 The solver as an oracle (klee/include/klee/Solver.h) and the queries the executor
 derives from it (klee/lib/Core/TimingSolver.cpp).

 An oracle may give no answer to any query: that is a timeout. What it does answer
 is right.
 */
module Solvers {
  import opened Exprs
  import opened Options

  /** `Solver::True`, `Solver::False` and `Solver::Unknown`. */
  datatype Validity = ProvablyTrue | ProvablyFalse | Unknown

  ghost predicate Satisfiable(constraints: seq<Expr>) {
    exists a :: Sat(constraints, a)
  }

  /** Every assignment satisfying the constraints makes the query true. */
  ghost predicate Valid(constraints: seq<Expr>, query: Expr) {
    forall a :: Sat(constraints, a) ==> IsTrue(query, a)
  }

  /** Every assignment satisfying the constraints makes the query false. */
  ghost predicate Refuted(constraints: seq<Expr>, query: Expr) {
    forall a :: Sat(constraints, a) ==> !IsTrue(query, a)
  }

  datatype Solver = Solver(
    mustBeTrue: (seq<Expr>, Expr) -> Option<bool>,
    evaluate: (seq<Expr>, Expr) -> Option<Validity>,
    getValue: (seq<Expr>, Expr) -> Option<nat>)
  {
    /** The contract of the three primitive queries. */
    ghost predicate Sound() {
      && (forall cs, q :: mustBeTrue(cs, q).Some? ==> (mustBeTrue(cs, q).value <==> Valid(cs, q)))
      && (forall cs, q :: evaluate(cs, q).Some? ==>
            evaluate(cs, q).value ==
              if Valid(cs, q) then ProvablyTrue else if Refuted(cs, q) then ProvablyFalse else Unknown)
      && (forall cs, q :: getValue(cs, q).Some? ==>
            exists a :: Sat(cs, a) && Eval(q, a) == getValue(cs, q).value)
    }

    /** It answers whatever is asked about these constraints. */
    ghost predicate Answers(constraints: seq<Expr>) {
      forall q ::
        mustBeTrue(constraints, q).Some? && evaluate(constraints, q).Some? && getValue(constraints, q).Some?
    }

    /** It answers whatever is asked about constraints that can be satisfied. */
    ghost predicate Answering() {
      forall cs | Satisfiable(cs) :: Answers(cs)
    }

    function MustBeTrue(constraints: seq<Expr>, query: Expr): Option<bool> {
      if query.Const? then Some(query.value % Pow2(query.bits) == 1) else mustBeTrue(constraints, query)
    }

    function MustBeFalse(constraints: seq<Expr>, query: Expr): Option<bool> {
      MustBeTrue(constraints, IsZero(query))
    }

    function MayBeTrue(constraints: seq<Expr>, query: Expr): Option<bool> {
      match MustBeFalse(constraints, query)
      case None => None
      case Some(refuted) => Some(!refuted)
    }

    function Evaluate(constraints: seq<Expr>, query: Expr): Option<Validity> {
      if query.Const? then
        Some(if query.value % Pow2(query.bits) == 1 then ProvablyTrue else ProvablyFalse)
      else
        evaluate(constraints, query)
    }

    function GetValue(constraints: seq<Expr>, query: Expr): Option<nat> {
      if query.Const? then Some(query.value % Pow2(query.bits)) else getValue(constraints, query)
    }

    lemma MustBeTrueMeans(constraints: seq<Expr>, query: Expr)
      requires Sound() && Satisfiable(constraints)
      ensures MustBeTrue(constraints, query).Some? ==>
                (MustBeTrue(constraints, query).value <==> Valid(constraints, query))
    {
      if query.Const? {
        var a :| Sat(constraints, a);
        assert IsTrue(query, a) <==> query.value % Pow2(query.bits) == 1;
      }
    }

    /** The answer is derived from the negated query, yet decides satisfiability of the query itself. */
    lemma MayBeTrueMeans(constraints: seq<Expr>, query: Expr)
      requires Sound() && Satisfiable(constraints) && IsBool(query)
      ensures MayBeTrue(constraints, query).Some? ==>
                (MayBeTrue(constraints, query).value <==> exists a :: Sat(constraints, a) && IsTrue(query, a))
    {
      MustBeTrueMeans(constraints, IsZero(query));
      forall a ensures IsTrue(IsZero(query), a) <==> !IsTrue(query, a) {
        EvalIsZero(query, a);
      }
    }

    lemma GetValueMeans(constraints: seq<Expr>, query: Expr)
      requires Sound() && Satisfiable(constraints) && GetValue(constraints, query).Some?
      ensures exists a :: Sat(constraints, a) && Eval(query, a) == GetValue(constraints, query).value
    {
      var a :| Sat(constraints, a);
    }

    /** Constants need no answer, and derived queries none but those they are derived from. */
    lemma AnswersDerived(constraints: seq<Expr>, query: Expr)
      ensures query.Const? || Answers(constraints) ==>
        && MustBeTrue(constraints, query).Some?
        && Evaluate(constraints, query).Some?
        && GetValue(constraints, query).Some?
      ensures mustBeTrue(constraints, IsZero(query)).Some? ==> MayBeTrue(constraints, query).Some?
      ensures Answers(constraints) ==> MayBeTrue(constraints, query).Some?
    {}

    lemma EvaluateMeans(constraints: seq<Expr>, query: Expr)
      requires Sound() && Satisfiable(constraints)
      ensures Evaluate(constraints, query).Some? ==>
        && (Evaluate(constraints, query).value.ProvablyTrue? <==> Valid(constraints, query))
        && (Evaluate(constraints, query).value.ProvablyFalse? <==> Refuted(constraints, query))
    {
      var a :| Sat(constraints, a);
      if query.Const? {
        assert IsTrue(query, a) <==> query.value % Pow2(query.bits) == 1;
      }
    }
  }

  // ----- A solver that always answers -----

  ghost function ExampleValue(constraints: seq<Expr>, query: Expr): Option<nat> {
    if Satisfiable(constraints) then
      var a :| Sat(constraints, a);
      Some(Eval(query, a))
    else None
  }

  /** The contract can be met without a single timeout. */
  lemma PerfectSolver() returns (solver: Solver)
    ensures solver.Sound() && solver.Answering()
  {
    hide Eval, Sat;
    solver := Solver((cs, q) => Some(Valid(cs, q)),
                     (cs, q) => Some(if Valid(cs, q) then ProvablyTrue
                                     else if Refuted(cs, q) then ProvablyFalse else Unknown),
                     (cs, q) => ExampleValue(cs, q));
  }
}
