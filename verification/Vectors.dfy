/**
 Inserting and extracting vector elements, in the layout of the main executor and in that
 of the thread executor (klee/lib/Core/Executor.cpp:6183-6251, ExecutorAsync.cpp:1770-1843,
 klee/lib/Expr/Expr.cpp:612-621).
 */
module Vectors {
  import opened Arithmetic
  import opened Exprs

  datatype Outcome = Value(value: Expr) | SymbolicIndex | BadVectorAccess

  /** Element widths, counts and offsets are 32-bit unsigned numbers. */
  function Unsigned(x: nat): nat {
    x % 0x1_0000_0000
  }

  /** The `k`-th group of `bits` bits, from the least significant on. */
  function Lane(v: nat, bits: nat, k: nat): int {
    v / Pow2(bits * k) % Pow2(bits)
  }

  /** A vector of `count` elements, no wider than a width can be. */
  predicate IsVector(vec: Expr, bits: nat, count: nat) {
    WellFormed(vec) && 0 < count && 0 < bits && Width(vec) == bits * count < 0x1_0000_0000
  }

  predicate IsElement(e: Expr, bits: nat) {
    WellFormed(e) && Width(e) == bits
  }

  // ----- Concatenation -----

  function Assemble(kids: seq<Expr>): Expr
    requires kids != []
  {
    if |kids| == 1 then kids[0] else Concat(kids[0], Assemble(kids[1..]))
  }

  /** `ConcatExpr::createN` builds from the right. */
  method CreateN(kids: seq<Expr>) returns (r: Expr)
    requires kids != []
    ensures r == Assemble(kids)
  {
    r := kids[|kids| - 1];
    for i := |kids| - 1 downto 0
      invariant r == Assemble(kids[i..])
    {
      assert kids[i..][1..] == kids[i + 1..];
      r := Concat(kids[i], r);
    }
    assert kids[0..] == kids;
  }

  /** A vector of `n` lanes as the lanes below `m`, lane `m` and the rest. */
  lemma SplitAt(bits: nat, m: nat, rest: nat, n: nat)
    requires n == m + 1 + rest
    ensures Pow2(bits * n) == Pow2(bits * m) * (Pow2(bits) * Pow2(bits * rest))
  {
    hide Pow2;
    Spread(bits, m, rest, n);
    Natural(bits, rest);
    Natural(bits, m);
    Pow2Thrice(bits * m, bits, bits * rest, bits * n);
  }

  lemma Pow2Thrice(x: nat, y: nat, z: nat, sum: nat)
    requires sum == x + y + z
    ensures Pow2(sum) == Pow2(x) * (Pow2(y) * Pow2(z))
  {
    hide Pow2;
    Pow2Add(y, z);
    Pow2Add(x, y + z);
    assert Pow2(sum) == Pow2(x) * Pow2(y + z);
  }

  lemma Natural(x: nat, y: nat)
    ensures x * y >= 0
  {}

  /** A higher lane on top of lower ones. */
  lemma LaneOfConcat(x: nat, low: nat, bits: nat, n: nat, m: nat)
    requires x < Pow2(bits) && low < Pow2(bits * n) && m <= n
    ensures Lane(x * Pow2(bits * n) + low, bits, m) == if m == n then x else Lane(low, bits, m)
  {
    hide Pow2;
    if m == n {
      Quotient(x * Pow2(bits * n) + low, Pow2(bits * n), x, low);
      Small(x, Pow2(bits));
    } else {
      var rest := n - m - 1;
      SplitAt(bits, m, rest, n);
      DigitBelow(x, low, Pow2(bits * m), Pow2(bits), Pow2(bits * rest));
    }
  }

  /** The last element is the least significant lane. */
  lemma {:induction false} AssembledLane(kids: seq<Expr>, bits: nat, m: nat, a: Assignment)
    requires m < |kids| && forall k | 0 <= k < |kids| :: IsElement(kids[k], bits)
    ensures Width(Assemble(kids)) == bits * |kids| && WellFormed(Assemble(kids))
    ensures Lane(Eval(Assemble(kids), a), bits, m) == Eval(kids[|kids| - 1 - m], a)
  {
    hide Pow2, Lane, Eval;
    EvalBound(kids[0], a);
    if |kids| == 1 {
      WholeLane(Eval(kids[0], a), bits);
    } else {
      var rest, n := kids[1..], |kids| - 1;
      AssembledLane(rest, bits, if m < n then m else 0, a);
      EvalBound(Assemble(rest), a);
      LaneOfConcat(Eval(kids[0], a), Eval(Assemble(rest), a), bits, n, m);
      Distribute(bits, n, 1);
      ConcatMeans(kids[0], Assemble(rest), a);
    }
  }

  lemma WholeLane(v: nat, bits: nat)
    requires v < Pow2(bits)
    ensures Lane(v, bits, 0) == v
  {
    Pow2One();
    Small(v, Pow2(bits));
  }

  // ----- The operations, by lane -----

  function LaneExpr(vec: Expr, newElt: Expr, lane: nat, bits: nat, k: nat): Expr {
    if k == lane then newElt else Extract(vec, bits * k, bits)
  }

  /** The lanes of `vec`, the given one replaced, the most significant first. */
  function Replaced(vec: Expr, newElt: Expr, lane: nat, bits: nat, count: nat): seq<Expr> {
    seq(count, j requires 0 <= j < count => LaneExpr(vec, newElt, lane, bits, count - 1 - j))
  }

  /** What a concrete index evaluates to. */
  function IndexOf(idx: Expr): (index: nat)
    requires idx.Const?
    ensures forall a :: Eval(idx, a) == index
  {
    idx.value % Pow2(idx.bits)
  }

  /** What inserting in a lane makes of the vector, for every assignment. */
  ghost predicate Inserted(result: Expr, vec: Expr, newElt: Expr, lane: nat, bits: nat, count: nat) {
    && IsVector(result, bits, count)
    && forall a, k: nat | k < count ::
         Lane(Eval(result, a), bits, k) == if k == lane then Eval(newElt, a) else Lane(Eval(vec, a), bits, k)
  }

  lemma NoOverflow(bits: nat, k: nat, count: nat)
    requires k < count && bits * count < 0x1_0000_0000
    ensures Unsigned(bits * k) == bits * k
  {
    assert bits * k + bits * (count - k) == bits * count;
    assert 0 <= bits * (count - k);
  }

  lemma ReplacedElements(vec: Expr, newElt: Expr, lane: nat, bits: nat, count: nat)
    requires IsVector(vec, bits, count) && IsElement(newElt, bits)
    ensures forall j | 0 <= j < count ::
      && IsElement(Replaced(vec, newElt, lane, bits, count)[j], bits)
      && Replaced(vec, newElt, lane, bits, count)[j] == LaneExpr(vec, newElt, lane, bits, count - 1 - j)
  {
    forall j | 0 <= j < count ensures IsElement(Replaced(vec, newElt, lane, bits, count)[j], bits) {
      assert Replaced(vec, newElt, lane, bits, count)[j] == LaneExpr(vec, newElt, lane, bits, count - 1 - j);
    }
  }

  lemma ReplacedPrefix(vec: Expr, newElt: Expr, lane: nat, bits: nat, count: nat, j: nat)
    requires j < count
    ensures var r := Replaced(vec, newElt, lane, bits, count);
      r[..j + 1] == r[..j] + [LaneExpr(vec, newElt, lane, bits, count - 1 - j)]
  {}

  lemma ReplacedInserts(vec: Expr, newElt: Expr, lane: nat, bits: nat, count: nat)
    requires IsVector(vec, bits, count) && IsElement(newElt, bits) && lane < count
    ensures Inserted(Assemble(Replaced(vec, newElt, lane, bits, count)), vec, newElt, lane, bits, count)
  {
    hide Lane, Pow2, Eval, Assemble, Replaced, LaneExpr;
    var kids := Replaced(vec, newElt, lane, bits, count);
    ReplacedElements(vec, newElt, lane, bits, count);
    ReplacedLength(vec, newElt, lane, bits, count);
    var result := Assemble(kids);
    forall a, k: nat | k < count
      ensures Lane(Eval(result, a), bits, k) == if k == lane then Eval(newElt, a) else Lane(Eval(vec, a), bits, k)
    {
      AssembledLane(kids, bits, k, a);
      LaneExprMeans(vec, newElt, lane, bits, k, a);
    }
    AssembledLane(kids, bits, 0, map[]);
  }

  lemma ReplacedLength(vec: Expr, newElt: Expr, lane: nat, bits: nat, count: nat)
    ensures |Replaced(vec, newElt, lane, bits, count)| == count
  {}

  lemma LaneExprMeans(vec: Expr, newElt: Expr, lane: nat, bits: nat, k: nat, a: Assignment)
    ensures Eval(LaneExpr(vec, newElt, lane, bits, k), a) ==
            if k == lane then Eval(newElt, a) else Lane(Eval(vec, a), bits, k)
  {}

  /** The main executor: element `i` is lane `i`. */
  method InsertElement(vec: Expr, newElt: Expr, idx: Expr, bits: nat, elementCount: nat) returns (outcome: Outcome)
    requires IsVector(vec, bits, elementCount) && IsElement(newElt, bits)
    ensures outcome.SymbolicIndex? <==> !idx.Const?
    ensures outcome.BadVectorAccess? <==> idx.Const? && IndexOf(idx) >= elementCount
    ensures outcome.Value? ==> Inserted(outcome.value, vec, newElt, IndexOf(idx), bits, elementCount)
    ensures outcome.Value? ==> outcome.value == Assemble(Replaced(vec, newElt, IndexOf(idx), bits, elementCount))
  {
    if !idx.Const? {
      return SymbolicIndex;
    }
    var iIdx := IndexOf(idx);
    if iIdx >= elementCount {
      return BadVectorAccess;
    }
    var elems: seq<Expr> := [];
    for i := elementCount downto 0
      invariant elems == Replaced(vec, newElt, iIdx, bits, elementCount)[..elementCount - i]
    {
      ReplacedPrefix(vec, newElt, iIdx, bits, elementCount, elementCount - 1 - i);
      NoOverflow(bits, i, elementCount);
      var bitOffset := Unsigned(bits * i);
      elems := elems + [if i == iIdx then newElt else Extract(vec, bitOffset, bits)];
    }
    assert elems == Replaced(vec, newElt, iIdx, bits, elementCount);
    ReplacedInserts(vec, newElt, iIdx, bits, elementCount);
    var r := CreateN(elems);
    return Value(r);
  }

  method ExtractElement(vec: Expr, idx: Expr, bits: nat, elementCount: nat) returns (outcome: Outcome)
    requires IsVector(vec, bits, elementCount)
    ensures outcome.SymbolicIndex? <==> !idx.Const?
    ensures outcome.BadVectorAccess? <==> idx.Const? && IndexOf(idx) >= elementCount
    ensures outcome.Value? ==>
      IsElement(outcome.value, bits) && forall a :: Eval(outcome.value, a) == Lane(Eval(vec, a), bits, IndexOf(idx))
  {
    if !idx.Const? {
      return SymbolicIndex;
    }
    var iIdx := IndexOf(idx);
    if iIdx >= elementCount {
      return BadVectorAccess;
    }
    NoOverflow(bits, iIdx, elementCount);
    return Value(Extract(vec, Unsigned(bits * iIdx), bits));
  }

  /** The thread executor: element `i` is lane `elementCount - 1 - i`. */
  method InsertElementThread(vec: Expr, newElt: Expr, idx: Expr, bits: nat, elementCount: nat)
    returns (outcome: Outcome)
    requires IsVector(vec, bits, elementCount) && IsElement(newElt, bits)
    ensures outcome.SymbolicIndex? <==> !idx.Const?
    ensures outcome.BadVectorAccess? <==> idx.Const? && IndexOf(idx) >= elementCount
    ensures outcome.Value? ==> Inserted(outcome.value, vec, newElt, elementCount - 1 - IndexOf(idx), bits, elementCount)
    ensures outcome.Value? ==>
      outcome.value == Assemble(Replaced(vec, newElt, elementCount - 1 - IndexOf(idx), bits, elementCount))
  {
    if !idx.Const? {
      return SymbolicIndex;
    }
    var iIdx := IndexOf(idx);
    if iIdx >= elementCount {
      return BadVectorAccess;
    }
    var elems: seq<Expr> := [];
    for i := 0 to elementCount
      invariant elems == Replaced(vec, newElt, elementCount - 1 - iIdx, bits, elementCount)[..i]
    {
      ReplacedPrefix(vec, newElt, elementCount - 1 - iIdx, bits, elementCount, i);
      NoOverflow(bits, elementCount - i - 1, elementCount);
      var bitOffset := Unsigned(bits * (elementCount - i - 1));
      elems := elems + [if i == iIdx then newElt else Extract(vec, bitOffset, bits)];
    }
    assert elems == Replaced(vec, newElt, elementCount - 1 - iIdx, bits, elementCount);
    ReplacedInserts(vec, newElt, elementCount - 1 - iIdx, bits, elementCount);
    var r := CreateN(elems);
    return Value(r);
  }

  method ExtractElementThread(vec: Expr, idx: Expr, bits: nat, elementCount: nat) returns (outcome: Outcome)
    requires IsVector(vec, bits, elementCount)
    ensures outcome.SymbolicIndex? <==> !idx.Const?
    ensures outcome.BadVectorAccess? <==> idx.Const? && IndexOf(idx) >= elementCount
    ensures outcome.Value? ==>
      && IsElement(outcome.value, bits)
      && forall a :: Eval(outcome.value, a) == Lane(Eval(vec, a), bits, elementCount - 1 - IndexOf(idx))
  {
    if !idx.Const? {
      return SymbolicIndex;
    }
    var iIdx := IndexOf(idx);
    if iIdx >= elementCount {
      return BadVectorAccess;
    }
    NoOverflow(bits, elementCount - iIdx - 1, elementCount);
    return Value(Extract(vec, Unsigned(bits * (elementCount - iIdx - 1)), bits));
  }

  // ----- The laws -----

  /** Numbers of the same width with the same lanes are the same. */
  lemma {:induction false} LanesDetermine(u: nat, v: nat, bits: nat, count: nat)
    requires u < Pow2(bits * count) && v < Pow2(bits * count)
    requires forall k: nat | k < count :: Lane(u, bits, k) == Lane(v, bits, k)
    ensures u == v
    decreases count
  {
    hide Pow2, Lane;
    if count == 0 {
      assert bits * 0 == 0;
      Pow2One();
    } else {
      var p, q := Pow2(bits * (count - 1)), Pow2(bits);
      Distribute(bits, count - 1, 1);
      Pow2Add(bits * (count - 1), bits);
      DivideTwice(u, p, q);
      DivideTwice(v, p, q);
      forall k: nat | k < count - 1 ensures Lane(u % p, bits, k) == Lane(v % p, bits, k) {
        LaneOfLow(u, bits, count - 1, k);
        LaneOfLow(v, bits, count - 1, k);
      }
      LanesDetermine(u % p, v % p, bits, count - 1);
      TopLane(u, bits, count - 1);
      TopLane(v, bits, count - 1);
      Small(u, p * q);
      Small(v, p * q);
    }
  }

  lemma TopLane(v: nat, bits: nat, k: nat)
    ensures Lane(v, bits, k) == v / Pow2(bits * k) % Pow2(bits)
  {}

  /** Cutting off higher lanes leaves the lower ones. */
  lemma LaneOfLow(v: nat, bits: nat, n: nat, m: nat)
    requires m < n
    ensures Lane(v % Pow2(bits * n), bits, m) == Lane(v, bits, m)
  {
    hide Pow2;
    var rest := n - m - 1;
    SplitAt(bits, m, rest, n);
    DigitOfRemainder(v, Pow2(bits * m), Pow2(bits), Pow2(bits * rest));
  }

  /** An insertion is fixed by what its lanes are. */
  lemma InsertedOnce(r: Expr, s: Expr, vec: Expr, newElt: Expr, lane: nat, bits: nat, count: nat, a: Assignment)
    requires Inserted(r, vec, newElt, lane, bits, count) && Inserted(s, vec, newElt, lane, bits, count)
    ensures Eval(r, a) == Eval(s, a)
  {
    hide Lane, Pow2;
    EvalBound(r, a);
    EvalBound(s, a);
    LanesDetermine(Eval(r, a), Eval(s, a), bits, count);
  }

  /** Putting back the element that is there changes nothing. */
  lemma InsertBack(r: Expr, vec: Expr, newElt: Expr, lane: nat, bits: nat, count: nat, a: Assignment)
    requires IsVector(vec, bits, count) && lane < count && Inserted(r, vec, newElt, lane, bits, count)
    requires Eval(newElt, a) == Lane(Eval(vec, a), bits, lane)
    ensures Eval(r, a) == Eval(vec, a)
  {
    hide Lane, Pow2;
    EvalBound(r, a);
    EvalBound(vec, a);
    LanesDetermine(Eval(r, a), Eval(vec, a), bits, count);
  }

  /** The same elements in opposite order. */
  ghost predicate Mirrored(u: Expr, v: Expr, bits: nat, count: nat) {
    forall a, k: nat | k < count :: Lane(Eval(u, a), bits, k) == Lane(Eval(v, a), bits, count - 1 - k)
  }

  /** The two executors are mirror images: inserting the same element keeps mirrored vectors mirrored. */
  lemma InsertsMirror(u: Expr, v: Expr, r: Expr, s: Expr, newElt: Expr, i: nat, bits: nat, count: nat)
    requires i < count && Mirrored(u, v, bits, count)
    requires Inserted(r, u, newElt, i, bits, count) && Inserted(s, v, newElt, count - 1 - i, bits, count)
    ensures Mirrored(r, s, bits, count)
  {
    hide Lane;
    forall a, k: nat | k < count ensures Lane(Eval(r, a), bits, k) == Lane(Eval(s, a), bits, count - 1 - k) {
      assert count - 1 - k == count - 1 - i <==> k == i;
    }
  }

  /**
   Extracting `j` after inserting at `i`, in either executor: the new element if they are equal, and the old one
   otherwise.
   */
  method InsertThenExtract(vec: Expr, newElt: Expr, idx: Expr, jdx: Expr, bits: nat, elementCount: nat, thread: bool)
    returns (after: Outcome, before: Outcome)
    requires IsVector(vec, bits, elementCount) && IsElement(newElt, bits) && idx.Const? && jdx.Const?
    requires IndexOf(idx) < elementCount && IndexOf(jdx) < elementCount
    ensures after.Value? && before.Value?
    ensures forall a ::
      Eval(after.value, a) == (if IndexOf(idx) == IndexOf(jdx) then Eval(newElt, a) else Eval(before.value, a))
  {
    hide Lane, IndexOf, Pow2, Assemble, Replaced;
    if thread {
      var inserted := InsertElementThread(vec, newElt, idx, bits, elementCount);
      after := ExtractElementThread(inserted.value, jdx, bits, elementCount);
      before := ExtractElementThread(vec, jdx, bits, elementCount);
    } else {
      var inserted := InsertElement(vec, newElt, idx, bits, elementCount);
      after := ExtractElement(inserted.value, jdx, bits, elementCount);
      before := ExtractElement(vec, jdx, bits, elementCount);
    }
  }
}
