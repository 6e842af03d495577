/**
 Symbolic expressions and their meaning under an assignment of bytes to arrays
 (klee/include/klee/Expr.h and klee/include/klee/util/Assignment.h).

 Every value is a natural number below two to the width of its expression. The
 smart constructors of the original (`AddExpr::create` and the like) fold and
 canonicalise; here an expression is the tree as written, which has the same value.
 */
module Exprs {

  type byte = b: int | 0 <= b < 256

  /** A symbolic array. The array cache returns one object per name and size. */
  datatype Array = Array(name: string, size: nat)

  type Assignment = map<Array, seq<byte>>

  datatype BinOp = Add | Sub | Mul | UDiv | SDiv | URem | SRem | And | Or | Xor | Shl | LShr | AShr

  datatype CmpOp = Eq | Ne | Ult | Ule | Ugt | Uge | Slt | Sle | Sgt | Sge

  /** The chain of writes on top of an array, the most recent one first. */
  datatype Updates = NoUpdates | Update(index: Expr, value: Expr, next: Updates)

  datatype Expr =
    | Const(value: nat, bits: nat)
    | NotOptimized(src: Expr)
    | Read(root: Array, updates: Updates, index: Expr)
    | Select(cond: Expr, ifTrue: Expr, ifFalse: Expr)
    | Concat(left: Expr, right: Expr)
    | Extract(expr: Expr, offset: nat, bits: nat)
    | ZExt(src: Expr, bits: nat)
    | SExt(src: Expr, bits: nat)
    | Not(src: Expr)
    | Bin(op: BinOp, left: Expr, right: Expr)
    | Cmp(cmp: CmpOp, left: Expr, right: Expr)

  const BOOL := 1
  const INT8 := 8
  const INT32 := 32
  const INT64 := 64

  function Pow2(n: nat): (p: nat)
    ensures 0 < p
  {
    if n == 0 then 1 else 2 * Pow2(n - 1)
  }

  function Width(e: Expr): nat {
    match e
    case Const(_, bits) => bits
    case NotOptimized(src) => Width(src)
    case Read(_, _, _) => INT8
    case Select(_, t, _) => Width(t)
    case Concat(l, r) => Width(l) + Width(r)
    case Extract(_, _, bits) => bits
    case ZExt(_, bits) => bits
    case SExt(_, bits) => bits
    case Not(src) => Width(src)
    case Bin(_, l, _) => Width(l)
    case Cmp(_, _, _) => BOOL
  }

  // ----- Operations on values -----

  /** Two's complement reading of the `w`-bit value `x`. */
  function Signed(x: nat, w: nat): int {
    if w > 0 && x >= Pow2(w - 1) then x - Pow2(w) else x
  }

  /** Division that truncates toward zero, as machine division does. */
  function TruncDiv(x: int, y: int): int
    requires y != 0
  {
    if x >= 0 then x / y else -((-x) / y)
  }

  function Bitwise(op: BinOp, x: nat, y: nat): nat
    requires op in {And, Or, Xor}
    decreases x + y
  {
    if x == 0 && y == 0 then 0 else
    var (p, q) := (x % 2 == 1, y % 2 == 1);
    var bit := if op == And then p && q else if op == Or then p || q else p != q;
    (if bit then 1 else 0) + 2 * Bitwise(op, x / 2, y / 2)
  }

  /** The mathematical result, before it is cut to `w` bits. Division by zero gives zero. */
  function RawBin(op: BinOp, w: nat, x: nat, y: nat): int {
    match op
    case Add => x + y
    case Sub => x - y
    case Mul => x * y
    case UDiv => if y == 0 then 0 else x / y
    case SDiv => if Signed(y, w) == 0 then 0 else TruncDiv(Signed(x, w), Signed(y, w))
    case URem => if y == 0 then 0 else x % y
    case SRem =>
      if Signed(y, w) == 0 then 0
      else Signed(x, w) - Signed(y, w) * TruncDiv(Signed(x, w), Signed(y, w))
    case Shl => if y >= w then 0 else x * Pow2(y)
    case LShr => if y >= w then 0 else x / Pow2(y)
    case AShr => Signed(x, w) / Pow2(if y >= w then w else y)
    case _ => Bitwise(op, x, y)
  }

  predicate Compare(cmp: CmpOp, w: nat, x: nat, y: nat) {
    match cmp
    case Eq => x == y
    case Ne => x != y
    case Ult => x < y
    case Ule => x <= y
    case Ugt => x > y
    case Uge => x >= y
    case Slt => Signed(x, w) < Signed(y, w)
    case Sle => Signed(x, w) <= Signed(y, w)
    case Sgt => Signed(x, w) > Signed(y, w)
    case Sge => Signed(x, w) >= Signed(y, w)
  }

  // ----- Evaluation -----

  /** The byte an assignment gives to position `k`: zero where nothing is bound. */
  function InitialByte(root: Array, k: nat, a: Assignment): byte {
    if root in a && k < |a[root]| then a[root][k] else 0
  }

  /** The byte at position `k` after the updates: the most recent matching write wins. */
  function ReadByte(root: Array, updates: Updates, k: nat, a: Assignment): byte
    decreases updates
  {
    match updates
    case NoUpdates => InitialByte(root, k, a)
    case Update(index, value, next) =>
      if Eval(index, a) == k then Eval(value, a) % 256 else ReadByte(root, next, k, a)
  }

  /** The value of an expression. */
  function Eval(e: Expr, a: Assignment): (v: nat)
    decreases e
  {
    match e
    case Const(value, bits) => value % Pow2(bits)
    case NotOptimized(src) => Eval(src, a)
    case Read(root, updates, index) => ReadByte(root, updates, Eval(index, a), a)
    case Select(c, t, f) => if Eval(c, a) == 1 then Eval(t, a) else Eval(f, a)
    case Concat(l, r) => Eval(l, a) * Pow2(Width(r)) + Eval(r, a)
    case Extract(src, offset, bits) => Eval(src, a) / Pow2(offset) % Pow2(bits)
    case ZExt(src, bits) => Eval(src, a) % Pow2(bits)
    case SExt(src, bits) => Signed(Eval(src, a), Width(src)) % Pow2(bits)
    case Not(src) => (Pow2(Width(src)) - 1 - Eval(src, a)) % Pow2(Width(src))
    case Bin(op, l, r) => RawBin(op, Width(l), Eval(l, a), Eval(r, a)) % Pow2(Width(l))
    case Cmp(cmp, l, r) => if Compare(cmp, Width(l), Eval(l, a), Eval(r, a)) then 1 else 0
  }

  lemma BinMeans(op: BinOp, l: Expr, r: Expr, a: Assignment)
    ensures Eval(Bin(op, l, r), a) == RawBin(op, Width(l), Eval(l, a), Eval(r, a)) % Pow2(Width(l))
  {}

  lemma ConcatMeans(l: Expr, r: Expr, a: Assignment)
    ensures Eval(Concat(l, r), a) == Eval(l, a) * Pow2(Width(r)) + Eval(r, a)
  {}

  predicate IsTrue(e: Expr, a: Assignment) {
    Eval(e, a) == 1
  }

  lemma CompareMeans(cmp: CmpOp, l: Expr, r: Expr, a: Assignment)
    ensures IsTrue(Cmp(cmp, l, r), a) <==> Compare(cmp, Width(l), Eval(l, a), Eval(r, a))
  {}

  /** Both arms of every `Select` outside reads have the same width. */
  predicate WellFormed(e: Expr) {
    match e
    case Const(_, _) => true
    case Read(_, _, _) => true
    case Select(c, t, f) => WellFormed(c) && WellFormed(t) && WellFormed(f) && Width(t) == Width(f)
    case Concat(l, r) => WellFormed(l) && WellFormed(r)
    case Bin(_, l, r) => WellFormed(l) && WellFormed(r)
    case Cmp(_, l, r) => WellFormed(l) && WellFormed(r)
    case Extract(src, _, _) => WellFormed(src)
    case _ => WellFormed(e.src)
  }

  lemma {:induction false} Pow2Add(m: nat, n: nat)
    ensures Pow2(m + n) == Pow2(m) * Pow2(n)
  {
    if m > 0 {
      Pow2Add(m - 1, n);
      assert Pow2(m + n) == 2 * Pow2(m - 1 + n);
    }
  }

  lemma Pow2Byte()
    ensures Pow2(8) == 256
  {}

  lemma ConcatBound(x: nat, y: nat, p: nat, q: nat)
    requires x < p && y < q
    ensures x * q + y < p * q
  {
    assert (x + 1) * q <= p * q;
  }

  /** A well-formed expression stays below two to its width. */
  lemma {:induction false} EvalBound(e: Expr, a: Assignment)
    requires WellFormed(e)
    ensures Eval(e, a) < Pow2(Width(e))
    decreases e
  {
    match e
    case Const(_, _) =>
    case NotOptimized(src) => EvalBound(src, a);
    case Read(root, updates, index) =>
      Pow2Byte();
    case Select(c, t, f) => EvalBound(t, a); EvalBound(f, a);
    case Concat(l, r) =>
      EvalBound(l, a);
      EvalBound(r, a);
      Pow2Add(Width(l), Width(r));
      ConcatBound(Eval(l, a), Eval(r, a), Pow2(Width(l)), Pow2(Width(r)));
    case _ =>
  }

  // ----- Boolean expressions -----

  /** What constraints and branch conditions are: well-formed and one bit wide. */
  predicate IsBool(e: Expr) {
    WellFormed(e) && Width(e) == BOOL
  }

  const TRUE_EXPR := Const(1, BOOL)
  const FALSE_EXPR := Const(0, BOOL)

  function IsZero(e: Expr): Expr {
    Cmp(Eq, e, Const(0, Width(e)))
  }

  lemma Pow2One()
    ensures Pow2(0) == 1 && Pow2(1) == 2
  {}

  lemma BoolValue(e: Expr, a: Assignment)
    requires IsBool(e)
    ensures Eval(e, a) == 0 || Eval(e, a) == 1
  {
    EvalBound(e, a);
    Pow2One();
  }

  lemma EvalAnd(l: Expr, r: Expr, a: Assignment)
    requires IsBool(l) && IsBool(r)
    ensures IsBool(Bin(And, l, r))
    ensures IsTrue(Bin(And, l, r), a) <==> IsTrue(l, a) && IsTrue(r, a)
  {
    BoolValue(l, a);
    BoolValue(r, a);
    Pow2One();
    assert Bitwise(And, 0, 0) == 0;
  }

  lemma EvalOr(l: Expr, r: Expr, a: Assignment)
    requires IsBool(l) && IsBool(r)
    ensures IsBool(Bin(Or, l, r))
    ensures IsTrue(Bin(Or, l, r), a) <==> IsTrue(l, a) || IsTrue(r, a)
  {
    BoolValue(l, a);
    BoolValue(r, a);
    Pow2One();
    assert Bitwise(Or, 0, 0) == 0;
  }

  lemma EvalIsZero(e: Expr, a: Assignment)
    requires IsBool(e)
    ensures IsBool(IsZero(e))
    ensures IsTrue(IsZero(e), a) <==> !IsTrue(e, a)
  {
    BoolValue(e, a);
    Pow2One();
    assert Eval(Const(0, BOOL), a) == 0;
  }

  lemma EvalNot(e: Expr, a: Assignment)
    requires IsBool(e)
    ensures IsBool(Not(e))
    ensures IsTrue(Not(e), a) <==> !IsTrue(e, a)
  {
    BoolValue(e, a);
    Pow2One();
  }

  // ----- Constraint sets -----

  /** The assignment satisfies every constraint. */
  ghost predicate Sat(constraints: seq<Expr>, a: Assignment) {
    forall c <- constraints :: IsTrue(c, a)
  }

  ghost predicate AllBool(constraints: seq<Expr>) {
    forall c <- constraints :: IsBool(c)
  }

  lemma SatAppend(constraints: seq<Expr>, e: Expr, a: Assignment)
    ensures Sat(constraints + [e], a) <==> Sat(constraints, a) && IsTrue(e, a)
  {
    assert forall c :: c in constraints + [e] <==> c in constraints || c == e;
  }
}
