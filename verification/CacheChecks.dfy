/**
 Whether the address of a `getelementptr` can fall in different cache lines for
 different values of high (secret) arrays: the address is compared with a copy of itself
 whose high arrays are renamed (klee/lib/Core/AnalyzeConstraint.cpp:354-361, 639-691,
 Executor.cpp:5712-5738).

 Arrays are symbolic; constant arrays are not part of this model.
 */
module CacheChecks {
  import opened Arithmetic
  import opened Exprs
  import opened Options
  import opened Solvers

  // ----- Renaming -----

  function Decimal(n: nat): (s: string)
    ensures s != [] && forall i | 0 <= i < |s| :: s[i] != '_'
  {
    var digit := "0123456789"[n % 10];
    if n < 10 then [digit] else Decimal(n / 10) + [digit]
  }

  function RenameArray(x: Array, high: set<string>, id: nat): Array {
    if x.name in high then Array(x.name + "_r_" + Decimal(id), x.size) else x
  }

  /**
   The copy with high arrays renamed. Nothing where the original aborts: a `Not`, which
   `createFromKind` cannot build, or a constant too wide for 64 bits. Read indices and
   update chains stay as they are.
   */
  function Rename(e: Expr, high: set<string>, id: nat): Option<Expr> {
    match e
    case Const(_, bits) => if bits <= 64 then Some(e) else None
    case Read(root, updates, index) => Some(Read(RenameArray(root, high, id), updates, index))
    case Extract(src, offset, bits) =>
      (match Rename(src, high, id)
       case Some(x) => Some(Extract(x, offset, bits))
       case None => None)
    case NotOptimized(src) => (match Rename(src, high, id) case Some(x) => Some(NotOptimized(x)) case None => None)
    case ZExt(src, bits) => (match Rename(src, high, id) case Some(x) => Some(ZExt(x, bits)) case None => None)
    case SExt(src, bits) => (match Rename(src, high, id) case Some(x) => Some(SExt(x, bits)) case None => None)
    case Not(_) => None
    case Select(c, t, f) => (
      match (Rename(c, high, id), Rename(t, high, id), Rename(f, high, id))
      case (Some(x), Some(y), Some(z)) => Some(Select(x, y, z))
      case _ => None)
    case Concat(l, r) => (
      match (Rename(l, high, id), Rename(r, high, id)) case (Some(x), Some(y)) => Some(Concat(x, y)) case _ => None)
    case Bin(op, l, r) => (
      match (Rename(l, high, id), Rename(r, high, id)) case (Some(x), Some(y)) => Some(Bin(op, x, y)) case _ => None)
    case Cmp(cmp, l, r) => (
      match (Rename(l, high, id), Rename(r, high, id)) case (Some(x), Some(y)) => Some(Cmp(cmp, x, y)) case _ => None)
  }

  // ----- Where arrays occur -----

  function ChainArrays(updates: Updates): set<Array>
    decreases updates, 0
  {
    match updates
    case NoUpdates => {}
    case Update(index, value, next) => Arrays(index) + Arrays(value) + ChainArrays(next)
  }

  /** Every array in the expression. */
  function Arrays(e: Expr): set<Array>
    decreases e, 1
  {
    Roots(e) + Inner(e)
  }

  /** The arrays read directly, outside any index or update. */
  function Roots(e: Expr): set<Array> {
    match e
    case Const(_, _) => {}
    case Read(root, _, _) => {root}
    case Extract(src, _, _) => Roots(src)
    case Select(c, t, f) => Roots(c) + Roots(t) + Roots(f)
    case Concat(l, r) => Roots(l) + Roots(r)
    case Bin(_, l, r) => Roots(l) + Roots(r)
    case Cmp(_, l, r) => Roots(l) + Roots(r)
    case _ => Roots(e.src)
  }

  /** The arrays in read indices and update chains. */
  function Inner(e: Expr): set<Array>
    decreases e, 0
  {
    match e
    case Const(_, _) => {}
    case Read(_, updates, index) => ChainArrays(updates) + Roots(index) + Inner(index)
    case Extract(src, _, _) => Inner(src)
    case Select(c, t, f) => Inner(c) + Inner(t) + Inner(f)
    case Concat(l, r) => Inner(l) + Inner(r)
    case Bin(_, l, r) => Inner(l) + Inner(r)
    case Cmp(_, l, r) => Inner(l) + Inner(r)
    case _ => Inner(e.src)
  }

  ghost predicate NoneHigh(arrays: set<Array>, high: set<string>) {
    forall x <- arrays :: x.name !in high
  }

  /** `x` holds under `a` what `y` holds under `b`. */
  ghost predicate SameBytes(x: Array, a: Assignment, y: Array, b: Assignment) {
    forall k: nat :: InitialByte(x, k, a) == InitialByte(y, k, b)
  }

  ghost predicate Agree(arrays: set<Array>, a: Assignment, b: Assignment) {
    forall x <- arrays :: SameBytes(x, a, x, b)
  }

  // ----- The substitution lemma -----

  /** A kid outside reads: its arrays are among its parent's. */
  predicate Kid(e: Expr, kid: Expr) {
    match e
    case Const(_, _) => false
    case Read(_, _, _) => false
    case Extract(src, _, _) => kid == src
    case Select(c, t, f) => kid == c || kid == t || kid == f
    case Concat(l, r) => kid == l || kid == r
    case Bin(_, l, r) => kid == l || kid == r
    case Cmp(_, l, r) => kid == l || kid == r
    case _ => kid == e.src
  }

  lemma KidArrays(e: Expr, kid: Expr)
    requires Kid(e, kid)
    ensures Roots(kid) <= Roots(e) && Inner(kid) <= Inner(e)
  {}

  lemma AgreeOnLess(arrays: set<Array>, more: set<Array>, a: Assignment, b: Assignment)
    requires Agree(more, a, b) && arrays <= more
    ensures Agree(arrays, a, b)
  {}

  lemma {:induction false} ChainAgrees(root: Array, root': Array, updates: Updates, k: nat, a: Assignment,
                                       b: Assignment)
    requires SameBytes(root', a, root, b) && Agree(ChainArrays(updates), a, b)
    ensures ReadByte(root', updates, k, a) == ReadByte(root, updates, k, b)
    decreases updates
  {
    hide Agree, Arrays, Eval;
    match updates
    case NoUpdates => FirstByte(root, root', k, a, b);
    case Update(index, value, next) =>
      AgreeOnLess(Arrays(index), ChainArrays(updates), a, b);
      AgreeOnLess(Arrays(value), ChainArrays(updates), a, b);
      AgreeOnLess(ChainArrays(next), ChainArrays(updates), a, b);
      EvalAgrees(index, a, b);
      EvalAgrees(value, a, b);
      ChainAgrees(root, root', next, k, a, b);
  }

  lemma FirstByte(root: Array, root': Array, k: nat, a: Assignment, b: Assignment)
    requires SameBytes(root', a, root, b)
    ensures ReadByte(root', NoUpdates, k, a) == ReadByte(root, NoUpdates, k, b)
  {}

  lemma ReadAgrees(root: Array, root': Array, updates: Updates, index: Expr, a: Assignment, b: Assignment)
    requires SameBytes(root', a, root, b) && Agree(Inner(Read(root, updates, index)), a, b)
    ensures Eval(Read(root', updates, index), a) == Eval(Read(root, updates, index), b)
    decreases Read(root, updates, index), 0
  {
    hide Agree, SameBytes;
    var inner := Inner(Read(root, updates, index));
    AgreeOnLess(Arrays(index), inner, a, b);
    AgreeOnLess(ChainArrays(updates), inner, a, b);
    EvalAgrees(index, a, b);
    ChainAgrees(root, root', updates, Eval(index, a), a, b);
  }

  /** The value depends only on the arrays that occur. */
  lemma {:induction false} EvalAgrees(e: Expr, a: Assignment, b: Assignment)
    requires Agree(Arrays(e), a, b)
    ensures Eval(e, a) == Eval(e, b)
    decreases e, 1
  {
    hide Agree, Arrays, Inner, Roots, RawBin, Compare, Signed, Pow2, Width, ReadByte;
    forall kid | Kid(e, kid) ensures kid < e && Eval(kid, a) == Eval(kid, b) {
      KidAgrees(e, kid, a, b);
      EvalAgrees(kid, a, b);
    }
    if e.Read? {
      RootAgrees(e, a, b);
      ReadAgrees(e.root, e.root, e.updates, e.index, a, b);
    }
  }

  lemma KidAgrees(e: Expr, kid: Expr, a: Assignment, b: Assignment)
    requires Kid(e, kid) && Agree(Arrays(e), a, b)
    ensures kid < e && Agree(Arrays(kid), a, b)
  {
    KidArrays(e, kid);
  }

  lemma RootAgrees(e: Expr, a: Assignment, b: Assignment)
    requires e.Read? && Agree(Arrays(e), a, b)
    ensures SameBytes(e.root, a, e.root, b) && Agree(Inner(e), a, b)
  {
    AgreeOnLess(Inner(e), Arrays(e), a, b);
    assert e.root in Arrays(e);
  }

  /** Under `a` the renamed roots hold what the roots hold under `b`, and the rest is the same. */
  ghost predicate Renames(roots: set<Array>, inner: set<Array>, high: set<string>, id: nat, a: Assignment,
                          b: Assignment) {
    && (forall x <- roots :: SameBytes(RenameArray(x, high, id), a, x, b))
    && Agree(inner, a, b)
  }

  /** Evaluating the renamed copy is evaluating the original with the renamed bytes put in. */
  lemma {:induction false} RenameMeans(e: Expr, high: set<string>, id: nat, a: Assignment, b: Assignment)
    requires Rename(e, high, id).Some? && Renames(Roots(e), Inner(e), high, id, a, b)
    ensures var r := Rename(e, high, id).value; Eval(r, a) == Eval(e, b) && Width(r) == Width(e)
    decreases e
  {
    hide Agree, Inner, Roots, Renames, RawBin, Compare, Signed, Pow2, ReadByte, SameBytes;
    forall kid | Kid(e, kid)
      ensures kid < e && Rename(kid, high, id).Some?
      ensures var r := Rename(kid, high, id).value; Eval(r, a) == Eval(kid, b) && Width(r) == Width(kid)
    {
      KidRenames(e, kid, high, id, a, b);
      RenameMeans(kid, high, id, a, b);
    }
    if e.Read? {
      RootRenames(e, high, id, a, b);
      ReadAgrees(e.root, RenameArray(e.root, high, id), e.updates, e.index, a, b);
    }
  }

  lemma KidRenames(e: Expr, kid: Expr, high: set<string>, id: nat, a: Assignment, b: Assignment)
    requires Kid(e, kid) && Rename(e, high, id).Some? && Renames(Roots(e), Inner(e), high, id, a, b)
    ensures kid < e && Rename(kid, high, id).Some? && Renames(Roots(kid), Inner(kid), high, id, a, b)
  {
    KidArrays(e, kid);
  }

  lemma RootRenames(e: Expr, high: set<string>, id: nat, a: Assignment, b: Assignment)
    requires e.Read? && Renames(Roots(e), Inner(e), high, id, a, b)
    ensures SameBytes(RenameArray(e.root, high, id), a, e.root, b) && Agree(Inner(e), a, b)
  {}

  lemma {:induction false} RenamedWellFormed(e: Expr, high: set<string>, id: nat)
    requires Rename(e, high, id).Some?
    ensures var r := Rename(e, high, id).value; Width(r) == Width(e) && (WellFormed(r) <==> WellFormed(e))
    decreases e
  {
    forall kid | Kid(e, kid)
      ensures kid < e && Rename(kid, high, id).Some?
      ensures var r := Rename(kid, high, id).value; Width(r) == Width(kid) && (WellFormed(r) <==> WellFormed(kid))
    {
      RenamedWellFormed(kid, high, id);
    }
  }

  /** Renaming goes through just when there is nothing `createFromKind` or `getZExtValue` refuses. */
  predicate Renameable(e: Expr) {
    match e
    case Const(_, bits) => bits <= 64
    case Read(_, _, _) => true
    case Extract(src, _, _) => Renameable(src)
    case Select(c, t, f) => Renameable(c) && Renameable(t) && Renameable(f)
    case Concat(l, r) => Renameable(l) && Renameable(r)
    case Bin(_, l, r) => Renameable(l) && Renameable(r)
    case Cmp(_, l, r) => Renameable(l) && Renameable(r)
    case Not(_) => false
    case _ => Renameable(e.src)
  }

  lemma {:induction false} RenamesExactly(e: Expr, high: set<string>, id: nat)
    ensures Rename(e, high, id).Some? <==> Renameable(e)
    decreases e
  {
    forall kid | Kid(e, kid) ensures kid < e && (Rename(kid, high, id).Some? <==> Renameable(kid)) {
      RenamesExactly(kid, high, id);
    }
  }

  // ----- The check -----

  datatype Mode = CacheLine(bits: nat) | BitMask(mask: nat)
  {
    predicate Valid() {
      if CacheLine? then bits < Pow2(INT64) else mask < Pow2(INT64)
    }

    /** What an observer of the cache sees of an address. */
    function Line(address: nat): int {
      match this
      case CacheLine(bits) => if bits < INT64 then address / Pow2(bits) else 0
      case BitMask(mask) => Bitwise(And, address, mask)
    }
  }

  predicate InBlock(address: nat, size: nat, k: nat) {
    k * size <= address < (k + 1) * size
  }

  lemma BlockOf(address: nat, size: nat, k: nat)
    requires 0 < size
    ensures address / size == k <==> InBlock(address, size, k)
  {
    var q := address / size;
    assert address == q * size + address % size;
    if k < q {
      Monotone(k + 1, q, size);
    } else if q < k {
      Monotone(q + 1, k, size);
    }
  }

  /** Some block of the size, aligned to it, holds both. */
  ghost predicate ShareBlock(x: nat, y: nat, size: nat) {
    exists k: nat :: InBlock(x, size, k) && InBlock(y, size, k)
  }

  lemma SameBlock(x: nat, y: nat, size: nat)
    requires 0 < size
    ensures x / size == y / size <==> ShareBlock(x, y, size)
  {
    hide InBlock;
    var k := DividedNatural(x, size);
    BlockOf(x, size, k);
    BlockOf(y, size, k);
    if k: nat :| InBlock(x, size, k) && InBlock(y, size, k) {
      BlockOf(x, size, k);
      BlockOf(y, size, k);
    }
  }

  /** An observer of the cache tells two addresses apart just when no block of the line size holds both. */
  lemma LineIsBlock(bits: nat, x: nat, y: nat)
    requires bits < INT64
    ensures CacheLine(bits).Line(x) == CacheLine(bits).Line(y) <==> ShareBlock(x, y, Pow2(bits))
  {
    SameBlock(x, y, Pow2(bits));
  }

  lemma DividedNatural(x: nat, size: nat) returns (k: nat)
    requires 0 < size
    ensures k == x / size
  {
    DividesDown(x, size);
    k := x / size;
  }

  function LineExpr(mode: Mode, address: Expr): Expr {
    match mode
    case CacheLine(bits) => Bin(LShr, address, Const(bits, INT64))
    case BitMask(mask) => Bin(And, address, Const(mask, Width(address)))
  }

  function DifferentLines(mode: Mode, base: Expr, renamed: Expr): Expr {
    Not(Cmp(Eq, LineExpr(mode, base), LineExpr(mode, renamed)))
  }

  predicate IsAddress(e: Expr) {
    WellFormed(e) && Width(e) == INT64
  }

  lemma {:induction false} AndBelow(x: nat, y: nat)
    ensures Bitwise(And, x, y) <= x
    decreases x + y
  {
    if x != 0 || y != 0 {
      AndBelow(x / 2, y / 2);
    }
  }

  lemma DividesDown(x: nat, d: nat)
    requires 0 < d
    ensures 0 <= x / d <= x
  {
    var q := x / d;
    assert x == q * d + x % d;
    if q > 0 {
      Monotone(1, d, q);
    }
  }

  lemma ShiftedMeans(address: Expr, bits: nat, a: Assignment)
    requires bits < Pow2(INT64) && IsAddress(address)
    ensures Eval(Bin(LShr, address, Const(bits, INT64)), a) == if bits < INT64 then Eval(address, a) / Pow2(bits) else 0
  {
    hide Pow2;
    EvalBound(address, a);
    var x, w := Eval(address, a), Pow2(INT64);
    Small(bits, w);
    BinMeans(LShr, address, Const(bits, INT64), a);
    if bits < INT64 {
      DividesDown(x, Pow2(bits));
      Small(x / Pow2(bits), w);
    } else {
      Small(0, w);
    }
  }

  lemma MaskedMeans(address: Expr, mask: nat, a: Assignment)
    requires mask < Pow2(INT64) && IsAddress(address)
    ensures Eval(Bin(And, address, Const(mask, Width(address))), a) == Bitwise(And, Eval(address, a), mask)
  {
    hide Pow2, Bitwise;
    EvalBound(address, a);
    var x, w := Eval(address, a), Pow2(INT64);
    Small(mask, w);
    BinMeans(And, address, Const(mask, Width(address)), a);
    AndBelow(x, mask);
    Small(Bitwise(And, x, mask), w);
  }

  lemma LineMeans(mode: Mode, address: Expr, a: Assignment)
    requires mode.Valid() && IsAddress(address)
    ensures Eval(LineExpr(mode, address), a) == mode.Line(Eval(address, a))
    ensures WellFormed(LineExpr(mode, address)) && Width(LineExpr(mode, address)) == INT64
  {
    hide Pow2, Bitwise, Eval;
    match mode
    case CacheLine(bits) => ShiftedMeans(address, bits, a);
    case BitMask(mask) => MaskedMeans(address, mask, a);
  }

  lemma DifferentLinesMeans(mode: Mode, base: Expr, renamed: Expr, a: Assignment)
    requires mode.Valid() && IsAddress(base) && IsAddress(renamed)
    ensures IsBool(DifferentLines(mode, base, renamed))
    ensures IsTrue(DifferentLines(mode, base, renamed), a) <==> mode.Line(Eval(base, a)) != mode.Line(Eval(renamed, a))
  {
    hide Pow2, Mode.Line, LineExpr;
    LineMeans(mode, base, a);
    LineMeans(mode, renamed, a);
    EvalNot(Cmp(Eq, LineExpr(mode, base), LineExpr(mode, renamed)), a);
  }

  // ----- Two runs -----

  /** The two assignments agree on every array that is not high. */
  ghost predicate AgreeOffHigh(a: Assignment, b: Assignment, high: set<string>) {
    forall x: Array | x.name !in high :: SameBytes(x, a, x, b)
  }

  /** Two runs, only the first of which need satisfy the path condition, whose addresses an observer can tell apart. */
  ghost predicate Distinguishable(pc: seq<Expr>, base: Expr, mode: Mode, high: set<string>, a: Assignment,
                                  b: Assignment) {
    Sat(pc, a) && AgreeOffHigh(a, b, high) && mode.Line(Eval(base, a)) != mode.Line(Eval(base, b))
  }

  function PathArrays(pc: seq<Expr>): set<Array> {
    set c, x | c in pc && x in Arrays(c) :: x
  }

  /** The names made up for the copy occur nowhere yet. */
  ghost predicate FreshNames(pc: seq<Expr>, base: Expr, high: set<string>, id: nat) {
    forall x | x in Roots(base) && x.name in high :: RenameArray(x, high, id) !in PathArrays(pc) + Arrays(base)
  }

  function Bytes(x: Array, a: Assignment): seq<byte> {
    if x in a then a[x] else []
  }

  /** What the high roots hold under the renamed names, put back under their own. */
  function Unrenamed(roots: set<Array>, high: set<string>, id: nat, a: Assignment): Assignment {
    a + map x | x in roots && x.name in high :: Bytes(RenameArray(x, high, id), a)
  }

  /** No high array is read both directly and inside an index or update. */
  ghost predicate Separated(base: Expr, high: set<string>) {
    forall x | x in Inner(base) && x.name in high :: x !in Roots(base)
  }

  lemma UnrenamedMeans(base: Expr, high: set<string>, id: nat, a: Assignment)
    requires Separated(base, high)
    ensures var b := Unrenamed(Roots(base), high, id, a);
      && AgreeOffHigh(a, b, high) && Agree(Inner(base), a, b)
      && Renames(Roots(base), Inner(base), high, id, a, b)
  {
    hide Roots, Inner;
    var b := Unrenamed(Roots(base), high, id, a);
    assert AgreeOffHigh(a, b, high);
    assert Agree(Inner(base), a, b);
  }

  lemma NoneHighSeparates(base: Expr, high: set<string>)
    requires NoneHigh(Inner(base), high)
    ensures Separated(base, high)
  {}

  lemma SuffixInjective(s: string, t: string, suffix: string)
    requires s + suffix == t + suffix
    ensures s == t
  {
    assert |s| == |t|;
    assert s == (s + suffix)[..|s|] && t == (t + suffix)[..|t|];
  }

  lemma RenameInjective(x: Array, y: Array, high: set<string>, id: nat)
    requires x.name in high && y.name in high && RenameArray(x, high, id) == RenameArray(y, high, id)
    ensures x == y
  {
    var suffix := "_r_" + Decimal(id);
    assert x.name + "_r_" + Decimal(id) == x.name + suffix && y.name + "_r_" + Decimal(id) == y.name + suffix;
    SuffixInjective(x.name, y.name, suffix);
  }

  /** The first run's assignment with the second run's high bytes under the renamed names. */
  lemma Joined(base: Expr, high: set<string>, id: nat, a: Assignment, b: Assignment) returns (c: Assignment)
    ensures forall x | x in Roots(base) && x.name in high :: SameBytes(RenameArray(x, high, id), c, x, b)
    ensures forall y | (forall x | x in Roots(base) && x.name in high :: RenameArray(x, high, id) != y) ::
      SameBytes(y, c, y, a)
  {
    hide Roots;
    var highs := set x | x in Roots(base) && x.name in high;
    c := JoinAll(highs, high, id, a, b);
  }

  lemma {:induction false} JoinAll(highs: set<Array>, high: set<string>, id: nat, a: Assignment, b: Assignment)
    returns (c: Assignment)
    requires forall x <- highs :: x.name in high
    ensures forall x <- highs :: SameBytes(RenameArray(x, high, id), c, x, b)
    ensures forall y | (forall x <- highs :: RenameArray(x, high, id) != y) :: SameBytes(y, c, y, a)
    decreases highs
  {
    hide RenameArray;
    if highs == {} {
      c := a;
    } else {
      var x :| x in highs;
      var rest := JoinAll(highs - {x}, high, id, a, b);
      var r := RenameArray(x, high, id);
      c := rest[r := Bytes(x, b)];
      forall y | y in highs && y != x ensures RenameArray(y, high, id) != r {
        if RenameArray(y, high, id) == r {
          RenameInjective(x, y, high, id);
        }
      }
      forall y | (forall x <- highs :: RenameArray(x, high, id) != y) ensures SameBytes(y, c, y, a) {
        assert r != y;
        assert forall z <- highs - {x} :: RenameArray(z, high, id) != y;
        assert SameBytes(y, rest, y, a);
      }
    }
  }

  lemma JoinedMeans(pc: seq<Expr>, base: Expr, high: set<string>, id: nat, a: Assignment, b: Assignment)
    returns (c: Assignment)
    requires Agree(Inner(base), a, b) && FreshNames(pc, base, high, id) && AgreeOffHigh(a, b, high)
    ensures Agree(PathArrays(pc), c, a) && Agree(Arrays(base), c, a)
    ensures Renames(Roots(base), Inner(base), high, id, c, b)
  {
    hide Roots, Inner, PathArrays;
    c := Joined(base, high, id, a, b);
    forall x | x in Roots(base) ensures SameBytes(RenameArray(x, high, id), c, x, b) {
      if x.name !in high {
        assert x in Arrays(base);
        assert SameBytes(x, c, x, a);
      }
    }
    forall x | x in Inner(base) ensures SameBytes(x, c, x, b) {
      assert x in Arrays(base);
      assert SameBytes(x, c, x, a);
    }
  }

  lemma PathAgrees(pc: seq<Expr>, a: Assignment, c: Assignment)
    requires Agree(PathArrays(pc), c, a) && Sat(pc, a)
    ensures Sat(pc, c)
  {
    forall e <- pc ensures IsTrue(e, c) {
      assert Arrays(e) <= PathArrays(pc);
      AgreeOnLess(Arrays(e), PathArrays(pc), c, a);
      EvalAgrees(e, c, a);
    }
  }

  /** The path condition can be satisfied together with the query. */
  ghost predicate IsReported(pc: seq<Expr>, base: Expr, mode: Mode, high: set<string>, id: nat)
    requires Renameable(base)
  {
    RenamesExactly(base, high, id);
    exists a :: Sat(pc, a) && IsTrue(DifferentLines(mode, base, Rename(base, high, id).value), a)
  }

  /** Two runs an observer can tell apart although they agree on everything in indices and updates. */
  ghost predicate DirectlyDistinguishable(pc: seq<Expr>, base: Expr, mode: Mode, high: set<string>, a: Assignment,
                                          b: Assignment) {
    Distinguishable(pc, base, mode, high, a, b) && Agree(Inner(base), a, b)
  }

  /**
   What the query means: the path condition can be satisfied with it just when some run
   that satisfies it and some run that agrees with that one off the high arrays, and on
   everything in indices and updates, address different lines.
   */
  lemma QueryMeans(pc: seq<Expr>, base: Expr, mode: Mode, high: set<string>, id: nat)
    requires mode.Valid() && IsAddress(base) && Renameable(base)
    requires Separated(base, high) && FreshNames(pc, base, high, id)
    ensures IsReported(pc, base, mode, high, id) <==>
            exists a, b :: DirectlyDistinguishable(pc, base, mode, high, a, b)
  {
    hide *;
    RenamesExactly(base, high, id);
    var renamed := Rename(base, high, id).value;
    RenamedIsAddress(base, high, id);
    ReportedBy(pc, base, mode, high, id);
    if a :| Sat(pc, a) && IsTrue(DifferentLines(mode, base, renamed), a) {
      ReportIsDistinguishable(pc, base, mode, high, id, a);
      assert exists a, b :: DirectlyDistinguishable(pc, base, mode, high, a, b);
    }
    if a, b :| DirectlyDistinguishable(pc, base, mode, high, a, b) {
      Distinguish(pc, base, mode, high, a, b);
      var c := JoinedMeans(pc, base, high, id, a, b);
      PathAgrees(pc, a, c);
      EvalAgrees(base, c, a);
      RenameMeans(base, high, id, c, b);
      DifferentLinesMeans(mode, base, renamed, c);
    }
  }

  /** A solution of the query is two such runs, with the second run's bytes under the renamed names. */
  lemma ReportIsDistinguishable(pc: seq<Expr>, base: Expr, mode: Mode, high: set<string>, id: nat, a: Assignment)
    requires mode.Valid() && IsAddress(base) && Rename(base, high, id).Some? && Separated(base, high)
    requires Sat(pc, a) && IsTrue(DifferentLines(mode, base, Rename(base, high, id).value), a)
    ensures DirectlyDistinguishable(pc, base, mode, high, a, Unrenamed(Roots(base), high, id, a))
  {
    hide *;
    var b := Unrenamed(Roots(base), high, id, a);
    RenamedIsAddress(base, high, id);
    UnrenamedMeans(base, high, id, a);
    RenameMeans(base, high, id, a, b);
    DifferentLinesMeans(mode, base, Rename(base, high, id).value, a);
    Distinguish(pc, base, mode, high, a, b);
  }

  lemma ReportedBy(pc: seq<Expr>, base: Expr, mode: Mode, high: set<string>, id: nat)
    requires Renameable(base) && Rename(base, high, id).Some?
    ensures IsReported(pc, base, mode, high, id) <==>
            exists a :: Sat(pc, a) && IsTrue(DifferentLines(mode, base, Rename(base, high, id).value), a)
  {}

  /**
   One query decides a property of two runs, when no high array is read in an index or
   update: it can be satisfied with the path condition just when some run that satisfies
   that and some run that agrees with it off the high arrays address different lines.
   */
  lemma QueryDecides(pc: seq<Expr>, base: Expr, mode: Mode, high: set<string>, id: nat)
    requires mode.Valid() && IsAddress(base) && Renameable(base)
    requires NoneHigh(Inner(base), high) && FreshNames(pc, base, high, id)
    ensures IsReported(pc, base, mode, high, id) <==> exists a, b :: Distinguishable(pc, base, mode, high, a, b)
  {
    hide *;
    NoneHighSeparates(base, high);
    QueryMeans(pc, base, mode, high, id);
    forall a, b ensures Distinguishable(pc, base, mode, high, a, b) <==>
                          DirectlyDistinguishable(pc, base, mode, high, a, b) {
      Distinguish(pc, base, mode, high, a, b);
      if AgreeOffHigh(a, b, high) {
        NoneHighAgrees(Inner(base), high, a, b);
      }
    }
  }

  lemma NoneHighAgrees(arrays: set<Array>, high: set<string>, a: Assignment, b: Assignment)
    requires NoneHigh(arrays, high) && AgreeOffHigh(a, b, high)
    ensures Agree(arrays, a, b)
  {}

  lemma RenamedIsAddress(base: Expr, high: set<string>, id: nat)
    requires IsAddress(base) && Rename(base, high, id).Some?
    ensures IsAddress(Rename(base, high, id).value)
  {
    RenamedWellFormed(base, high, id);
  }

  lemma Distinguish(pc: seq<Expr>, base: Expr, mode: Mode, high: set<string>, a: Assignment, b: Assignment)
    ensures Distinguishable(pc, base, mode, high, a, b) <==>
      Sat(pc, a) && AgreeOffHigh(a, b, high) && mode.Line(Eval(base, a)) != mode.Line(Eval(base, b))
    ensures DirectlyDistinguishable(pc, base, mode, high, a, b) <==>
      Distinguishable(pc, base, mode, high, a, b) && Agree(Inner(base), a, b)
  {}

  // ----- Two runs of the path -----

  /** Two runs that both satisfy the path condition, whose addresses an observer can tell apart. */
  ghost predicate Leaks(pc: seq<Expr>, base: Expr, mode: Mode, high: set<string>, a: Assignment, b: Assignment) {
    Distinguishable(pc, base, mode, high, a, b) && Sat(pc, b)
  }

  /** Whether the path is taken does not depend on high arrays. */
  ghost predicate Independent(pc: seq<Expr>, high: set<string>) {
    forall a, b | AgreeOffHigh(a, b, high) :: Sat(pc, a) ==> Sat(pc, b)
  }

  /** An address for which the query decides. */
  ghost predicate Checkable(pc: seq<Expr>, base: Expr, mode: Mode, high: set<string>, id: nat) {
    && mode.Valid() && IsAddress(base) && Renameable(base)
    && NoneHigh(Inner(base), high) && FreshNames(pc, base, high, id)
  }

  /** Whatever address is reported on this path is a leak between two runs of the path. */
  ghost predicate NoFalseAlarm(pc: seq<Expr>, high: set<string>) {
    forall base, mode, id | Checkable(pc, base, mode, high, id) && IsReported(pc, base, mode, high, id) ::
      exists a, b :: Leaks(pc, base, mode, high, a, b)
  }

  /** A path condition that mentions no high array does not depend on any. */
  lemma CleanPathIndependent(pc: seq<Expr>, high: set<string>)
    requires NoneHigh(PathArrays(pc), high)
    ensures Independent(pc, high)
  {
    forall a, b | AgreeOffHigh(a, b, high) && Sat(pc, a) ensures Sat(pc, b) {
      forall x | x in PathArrays(pc) ensures SameBytes(x, b, x, a) {
        assert SameBytes(x, a, x, b);
      }
      PathAgrees(pc, a, b);
    }
  }

  lemma IndependentLeaks(pc: seq<Expr>, base: Expr, mode: Mode, high: set<string>)
    requires Independent(pc, high)
    ensures (exists a, b :: Distinguishable(pc, base, mode, high, a, b)) <==>
            (exists a, b :: Leaks(pc, base, mode, high, a, b))
  {
    hide AgreeOffHigh, Sat, Eval, Mode.Line;
    forall a, b ensures Distinguishable(pc, base, mode, high, a, b) <==> Leaks(pc, base, mode, high, a, b) {}
  }

  /** The positions of arrays that evaluation under the assignment can look at. */
  function Touched(e: Expr, a: Assignment): seq<(Array, nat)>
    decreases e, 1
  {
    match e
    case Const(_, _) => []
    case Read(root, updates, index) => Touched(index, a) + TouchedChain(root, updates, Eval(index, a), a)
    case Extract(src, _, _) => Touched(src, a)
    case Select(c, t, f) => Touched(c, a) + Touched(t, a) + Touched(f, a)
    case Concat(l, r) => Touched(l, a) + Touched(r, a)
    case Bin(_, l, r) => Touched(l, a) + Touched(r, a)
    case Cmp(_, l, r) => Touched(l, a) + Touched(r, a)
    case _ => Touched(e.src, a)
  }

  function TouchedChain(root: Array, updates: Updates, k: nat, a: Assignment): seq<(Array, nat)>
    decreases updates, 0
  {
    match updates
    case NoUpdates => [(root, k)]
    case Update(index, value, next) => Touched(index, a) + Touched(value, a) + TouchedChain(root, next, k, a)
  }

  /** The assignments agree at these positions. */
  ghost predicate Match(ps: seq<(Array, nat)>, a: Assignment, b: Assignment) {
    forall p <- ps :: InitialByte(p.0, p.1, a) == InitialByte(p.0, p.1, b)
  }

  lemma MatchParts(ps: seq<(Array, nat)>, qs: seq<(Array, nat)>, a: Assignment, b: Assignment)
    ensures Match(ps + qs, a, b) <==> Match(ps, a, b) && Match(qs, a, b)
  {
    assert forall p :: p in ps + qs <==> p in ps || p in qs;
  }

  lemma KidTouched(e: Expr, kid: Expr, a: Assignment, p: (Array, nat))
    requires Kid(e, kid) && p in Touched(kid, a)
    ensures p in Touched(e, a)
  {}

  lemma KidMatches(e: Expr, kid: Expr, a: Assignment, b: Assignment)
    requires Kid(e, kid) && Match(Touched(e, b), a, b)
    ensures kid < e && Match(Touched(kid, b), a, b)
  {
    hide Touched;
    forall p | p in Touched(kid, b) ensures p in Touched(e, b) {
      KidTouched(e, kid, b, p);
    }
  }

  /** The value depends only on the positions touched. */
  lemma {:induction false} EvalMatches(e: Expr, a: Assignment, b: Assignment)
    requires Match(Touched(e, b), a, b)
    ensures Eval(e, a) == Eval(e, b)
    decreases e, 1
  {
    hide Match, Touched, RawBin, Compare, Signed, Pow2, Width, ReadByte;
    forall kid | Kid(e, kid) ensures kid < e && Eval(kid, a) == Eval(kid, b) {
      KidMatches(e, kid, a, b);
      EvalMatches(kid, a, b);
    }
    if e.Read? {
      ReadMatches(e.root, e.updates, e.index, a, b);
    }
  }

  lemma ReadMatches(root: Array, updates: Updates, index: Expr, a: Assignment, b: Assignment)
    requires Match(Touched(Read(root, updates, index), b), a, b)
    ensures Eval(Read(root, updates, index), a) == Eval(Read(root, updates, index), b)
    decreases Read(root, updates, index), 0
  {
    hide Match, TouchedChain;
    MatchParts(Touched(index, b), TouchedChain(root, updates, Eval(index, b), b), a, b);
    EvalMatches(index, a, b);
    ChainMatches(root, updates, Eval(index, b), a, b);
  }

  lemma {:induction false} ChainMatches(root: Array, updates: Updates, k: nat, a: Assignment, b: Assignment)
    requires Match(TouchedChain(root, updates, k, b), a, b)
    ensures ReadByte(root, updates, k, a) == ReadByte(root, updates, k, b)
    decreases updates
  {
    hide Match, Touched, Eval;
    match updates
    case NoUpdates => SingleMatches(root, k, a, b);
    case Update(index, value, next) =>
      MatchParts(Touched(index, b) + Touched(value, b), TouchedChain(root, next, k, b), a, b);
      MatchParts(Touched(index, b), Touched(value, b), a, b);
      EvalMatches(index, a, b);
      EvalMatches(value, a, b);
      ChainMatches(root, next, k, a, b);
  }

  lemma SingleMatches(root: Array, k: nat, a: Assignment, b: Assignment)
    requires Match([(root, k)], a, b)
    ensures InitialByte(root, k, a) == InitialByte(root, k, b)
  {
    assert (root, k) in [(root, k)];
  }

  function PathTouched(pc: seq<Expr>, a: Assignment): seq<(Array, nat)> {
    if pc == [] then [] else Touched(pc[0], a) + PathTouched(pc[1..], a)
  }

  lemma {:induction false} PathMatches(pc: seq<Expr>, a: Assignment, b: Assignment)
    requires Match(PathTouched(pc, b), a, b)
    ensures Sat(pc, a) <==> Sat(pc, b)
  {
    hide Match, Touched, Eval;
    if pc != [] {
      MatchParts(Touched(pc[0], b), PathTouched(pc[1..], b), a, b);
      EvalMatches(pc[0], a, b);
      PathMatches(pc[1..], a, b);
      assert forall c :: c in pc <==> c == pc[0] || c in pc[1..];
    }
  }

  lemma {:induction false} TouchedArrays(e: Expr, a: Assignment, p: (Array, nat))
    requires p in Touched(e, a)
    ensures p.0 in Arrays(e)
    decreases e, 1
  {
    if e.Read? {
      if p in Touched(e.index, a) {
        TouchedArrays(e.index, a, p);
      } else {
        TouchedChainArrays(e.root, e.updates, Eval(e.index, a), a, p);
      }
    } else if kid :| Kid(e, kid) && p in Touched(kid, a) {
      KidArrays(e, kid);
      TouchedArrays(kid, a, p);
    }
  }

  lemma {:induction false} TouchedChainArrays(root: Array, updates: Updates, k: nat, a: Assignment, p: (Array, nat))
    requires p in TouchedChain(root, updates, k, a)
    ensures p.0 == root || p.0 in ChainArrays(updates)
    decreases updates, 0
  {
    if updates.Update? {
      if p in Touched(updates.index, a) {
        TouchedArrays(updates.index, a, p);
      } else if p in Touched(updates.value, a) {
        TouchedArrays(updates.value, a, p);
      } else {
        TouchedChainArrays(root, updates.next, k, a, p);
      }
    }
  }

  lemma {:induction false} PathTouchedArrays(pc: seq<Expr>, a: Assignment, p: (Array, nat))
    requires p in PathTouched(pc, a)
    ensures p.0 in PathArrays(pc)
  {
    if p in Touched(pc[0], a) {
      TouchedArrays(pc[0], a, p);
      assert pc[0] in pc;
    } else {
      PathTouchedArrays(pc[1..], a, p);
      var c :| c in pc[1..] && p.0 in Arrays(c);
      assert c in pc;
    }
  }

  // ----- An address that gives a path's inputs away -----

  /** A number of any width, put together from bytes. */
  function Literal(k: nat, w: nat): Expr {
    if w <= INT8 then Const(k, w) else Concat(Literal(k / 256, w - INT8), Const(k % 256, INT8))
  }

  lemma {:induction false} LiteralMeans(k: nat, w: nat, a: Assignment)
    requires k < Pow2(w)
    ensures Eval(Literal(k, w), a) == k
    decreases w
  {
    hide Pow2, Eval;
    if w <= INT8 {
      ConstMeans(k, w, a);
    } else {
      Pow2Add(w - INT8, INT8);
      Pow2Byte();
      LiteralMeans(k / 256, w - INT8, a);
      ConstMeans(k % 256, INT8, a);
      ConcatMeans(Literal(k / 256, w - INT8), Const(k % 256, INT8), a);
    }
  }

  lemma ConstMeans(k: nat, w: nat, a: Assignment)
    requires k < Pow2(w)
    ensures Eval(Const(k, w), a) == k
  {
    hide Pow2;
    Small(k, Pow2(w));
  }

  lemma {:induction false} LiteralIsPlain(k: nat, w: nat)
    ensures Renameable(Literal(k, w)) && Roots(Literal(k, w)) == {} && Inner(Literal(k, w)) == {}
    decreases w
  {
    if w > INT8 {
      LiteralIsPlain(k / 256, w - INT8);
      var low := Const(k % 256, INT8);
      assert Roots(low) == {} && Inner(low) == {} && Renameable(low);
    }
  }

  lemma {:induction false} BelowPow2(k: nat)
    ensures k < Pow2(k)
  {
    if k > 0 {
      BelowPow2(k - 1);
    }
  }

  /** The array holds this byte at this position. */
  function HoldsByte(x: Array, k: nat, v: byte): Expr {
    Cmp(Eq, Read(x, NoUpdates, Literal(k, k)), Const(v, INT8))
  }

  lemma HoldsByteMeans(x: Array, k: nat, v: byte, a: Assignment)
    ensures var e := HoldsByte(x, k, v);
      && IsBool(e) && Renameable(e) && Roots(e) == {x} && Inner(e) == {}
      && (IsTrue(e, a) <==> InitialByte(x, k, a) == v)
  {
    hide Pow2, InitialByte, Literal, Eval;
    BelowPow2(k);
    LiteralMeans(k, k, a);
    LiteralIsPlain(k, k);
    Pow2Byte();
    ConstMeans(v, INT8, a);
    PlainReadMeans(x, Literal(k, k), a);
    var read, c := Read(x, NoUpdates, Literal(k, k)), Const(v, INT8);
    CompareMeans(Eq, read, c, a);
    assert WellFormed(read) && WellFormed(c);
    assert Inner(read) == ChainArrays(NoUpdates) + Roots(Literal(k, k)) + Inner(Literal(k, k)) && Inner(c) == {};
  }

  lemma PlainReadMeans(x: Array, index: Expr, a: Assignment)
    ensures Eval(Read(x, NoUpdates, index), a) == InitialByte(x, Eval(index, a), a)
  {}

  /** The arrays hold at these positions what they hold under `b`. */
  function HoldsAll(ps: seq<(Array, nat)>, b: Assignment): Expr {
    if ps == [] then TRUE_EXPR
    else Bin(And, HoldsAll(ps[1..], b), HoldsByte(ps[0].0, ps[0].1, InitialByte(ps[0].0, ps[0].1, b)))
  }

  lemma {:induction false} HoldsAllMeans(ps: seq<(Array, nat)>, b: Assignment, a: Assignment)
    ensures var e := HoldsAll(ps, b);
      && IsBool(e) && Renameable(e) && Inner(e) == {} && (forall x <- Roots(e) :: exists k :: (x, k) in ps)
      && (IsTrue(e, a) <==> Match(ps, a, b))
  {
    hide HoldsByte, InitialByte, Eval;
    if ps == [] {
      TrueMeans(a);
    } else {
      var p, rest := ps[0], ps[1..];
      HoldsAllMeans(rest, b, a);
      HoldsByteMeans(p.0, p.1, InitialByte(p.0, p.1, b), a);
      EvalAnd(HoldsAll(rest, b), HoldsByte(p.0, p.1, InitialByte(p.0, p.1, b)), a);
      assert forall q :: q in ps <==> q == p || q in rest;
      assert (p.0, p.1) in ps;
    }
  }

  lemma TrueMeans(a: Assignment)
    ensures IsBool(TRUE_EXPR) && IsTrue(TRUE_EXPR, a)
  {
    Pow2One();
  }

  /** One where the assignment matches `b` wherever the path condition can look, and zero elsewhere. */
  function Telltale(pc: seq<Expr>, b: Assignment): Expr {
    Select(HoldsAll(PathTouched(pc, b), b), Const(1, INT64), Const(0, INT64))
  }

  lemma TelltaleMeans(pc: seq<Expr>, b: Assignment, a: Assignment)
    ensures var base := Telltale(pc, b);
      && IsAddress(base) && Renameable(base) && Inner(base) == {} && Roots(base) <= PathArrays(pc)
      && Eval(base, a) == if Match(PathTouched(pc, b), a, b) then 1 else 0
  {
    hide HoldsAll, Match, PathTouched, PathArrays, Eval, IsTrue;
    var ps := PathTouched(pc, b);
    var c := HoldsAll(ps, b);
    HoldsAllMeans(ps, b, a);
    forall x | x in Roots(c) ensures x in PathArrays(pc) {
      var k :| (x, k) in ps;
      PathTouchedArrays(pc, b, (x, k));
    }
    ChoiceMeans(c, a);
    ChoiceIsPlain(c);
  }

  lemma ChoiceIsPlain(c: Expr)
    requires IsBool(c)
    ensures var e := Select(c, Const(1, INT64), Const(0, INT64));
      IsAddress(e) && (Renameable(e) <==> Renameable(c)) && Inner(e) == Inner(c) && Roots(e) == Roots(c)
  {}

  lemma ChoiceMeans(c: Expr, a: Assignment)
    ensures Eval(Select(c, Const(1, INT64), Const(0, INT64)), a) == if IsTrue(c, a) then 1 else 0
  {
    Small(0, Pow2(INT64));
    Pow2Add(1, INT64 - 1);
    Small(1, Pow2(INT64));
  }

  lemma {:induction false} NameBound(arrays: set<Array>) returns (n: nat)
    ensures forall x <- arrays :: |x.name| < n
    decreases arrays
  {
    n := 0;
    if arrays != {} {
      var x :| x in arrays;
      n := NameBound(arrays - {x});
      n := n + |x.name| + 1;
    }
  }

  lemma {:induction false} LongNumber(n: nat) returns (id: nat)
    ensures 0 < id && |Decimal(id)| >= n
  {
    if n == 0 {
      id := 1;
    } else {
      id := LongNumber(n - 1);
      id := 10 * id;
      assert id / 10 * 10 == id;
    }
  }

  /** Numbers for which the made-up names are new always exist. */
  lemma FreshNumber(pc: seq<Expr>, base: Expr, high: set<string>) returns (id: nat)
    ensures FreshNames(pc, base, high, id)
  {
    var n := NameBound(PathArrays(pc) + Arrays(base));
    id := LongNumber(n);
  }

  lemma ReportMeans(pc: seq<Expr>, base: Expr, mode: Mode, high: set<string>, id: nat)
    requires Checkable(pc, base, mode, high, id)
    ensures IsReported(pc, base, mode, high, id) <==> exists a, b :: Distinguishable(pc, base, mode, high, a, b)
  {
    hide Distinguishable, FreshNames, NoneHigh, IsReported;
    QueryDecides(pc, base, mode, high, id);
  }

  /** The telltale of an input that leaves the path is reported, although on the path it is constant. */
  lemma TelltaleAlarm(pc: seq<Expr>, high: set<string>, a: Assignment, b: Assignment) returns (id: nat)
    requires AgreeOffHigh(a, b, high) && Sat(pc, a) && !Sat(pc, b)
    ensures var base := Telltale(pc, b);
      && Checkable(pc, base, CacheLine(0), high, id) && IsReported(pc, base, CacheLine(0), high, id)
      && forall c, d :: !Leaks(pc, base, CacheLine(0), high, c, d)
  {
    hide AgreeOffHigh, Sat, Telltale, Eval, Mode.Line, PathTouched, Match, FreshNames, IsReported;
    var base, mode := Telltale(pc, b), CacheLine(0);
    forall c ensures Sat(pc, c) ==> mode.Line(Eval(base, c)) == 0 {
      TelltaleMeans(pc, b, c);
      WholeAddress(Eval(base, c));
      if Match(PathTouched(pc, b), c, b) {
        PathMatches(pc, c, b);
      }
    }
    TelltaleMeans(pc, b, b);
    WholeAddress(Eval(base, b));
    MatchesItself(PathTouched(pc, b), b);
    ValidMode();
    id := FreshNumber(pc, base, high);
    assert Distinguishable(pc, base, mode, high, a, b);
    ReportMeans(pc, base, mode, high, id);
  }

  lemma MatchesItself(ps: seq<(Array, nat)>, a: Assignment)
    ensures Match(ps, a, a)
  {}

  /** No address is falsely reported on a path if and only if the path does not depend on high arrays. */
  lemma AlarmsExactly(pc: seq<Expr>, high: set<string>)
    ensures NoFalseAlarm(pc, high) <==> Independent(pc, high)
  {
    hide AgreeOffHigh, Sat, FreshNames, IsReported, Leaks, Distinguishable;
    if Independent(pc, high) {
      forall base, mode, id | Checkable(pc, base, mode, high, id) && IsReported(pc, base, mode, high, id)
        ensures exists a, b :: Leaks(pc, base, mode, high, a, b)
      {
        ReportMeans(pc, base, mode, high, id);
        IndependentLeaks(pc, base, mode, high);
      }
    } else {
      var a, b :| AgreeOffHigh(a, b, high) && Sat(pc, a) && !Sat(pc, b);
      var id := TelltaleAlarm(pc, high, a, b);
    }
  }

  lemma ValidMode()
    ensures CacheLine(0).Valid()
  {}

  lemma WholeAddress(address: nat)
    ensures CacheLine(0).Line(address) == address
  {
    Pow2One();
  }

  // ----- The executor's use of it -----

  /** `Skipped`: the check does not apply. `Aborted`: renaming cannot build the copy, or the solver gives no answer. */
  datatype Report = Skipped | Reported(leaks: bool) | Aborted

  /** There is a copy, and a leak is reported just when the query can be satisfied. */
  ghost predicate Says(leaks: bool, pc: seq<Expr>, base: Expr, mode: Mode, high: set<string>, id: nat) {
    Renameable(base) && (leaks <==> IsReported(pc, base, mode, high, id))
  }

  lemma SaysReported(leaks: bool, pc: seq<Expr>, base: Expr, mode: Mode, high: set<string>, id: nat)
    requires Renameable(base) && (leaks <==> IsReported(pc, base, mode, high, id))
    ensures Says(leaks, pc, base, mode, high, id)
  {}

  /** `hasHigh` is what `exprHasSymRegion` answers for the address. */
  method CheckAddress(inEnclave: bool, hasHigh: bool, pc: seq<Expr>, base: Expr, mode: Mode, high: set<string>, id: nat,
                      solver: Solver)
    returns (report: Report)
    requires mode.Valid() && IsAddress(base) && solver.Sound() && Satisfiable(pc)
    ensures report.Skipped? <==> !(inEnclave && hasHigh)
    ensures inEnclave && hasHigh && !Renameable(base) ==> report.Aborted?
    ensures solver.Answers(pc) ==> (report.Aborted? <==> inEnclave && hasHigh && !Renameable(base))
    ensures report.Reported? ==> Says(report.leaks, pc, base, mode, high, id)
    ensures report.Reported? && Separated(base, high) && FreshNames(pc, base, high, id) ==>
      (report.leaks <==> exists a, b :: DirectlyDistinguishable(pc, base, mode, high, a, b))
    ensures report.Reported? && NoneHigh(Inner(base), high) && FreshNames(pc, base, high, id) ==>
      (report.leaks <==> exists a, b :: Distinguishable(pc, base, mode, high, a, b))
    ensures report.Reported? && NoneHigh(Inner(base), high) && FreshNames(pc, base, high, id)
            && NoneHigh(PathArrays(pc), high) ==>
      (report.leaks <==> exists a, b :: Leaks(pc, base, mode, high, a, b))
  {
    hide *;
    if !(inEnclave && hasHigh) {
      return Skipped;
    }
    RenamesExactly(base, high, id);
    var renamed := Rename(base, high, id);
    if renamed.None? {
      return Aborted;
    }
    RenamedIsAddress(base, high, id);
    DifferentLinesMeans(mode, base, renamed.value, map[]);
    var query := DifferentLines(mode, base, renamed.value);
    solver.MayBeTrueMeans(pc, query);
    solver.AnswersDerived(pc, query);
    var result := solver.MayBeTrue(pc, query);
    ReportedBy(pc, base, mode, high, id);
    if Separated(base, high) && FreshNames(pc, base, high, id) {
      QueryMeans(pc, base, mode, high, id);
    }
    if NoneHigh(Inner(base), high) && FreshNames(pc, base, high, id) {
      QueryDecides(pc, base, mode, high, id);
    }
    if NoneHigh(PathArrays(pc), high) {
      CleanPathIndependent(pc, high);
      IndependentLeaks(pc, base, mode, high);
    }
    if result.None? {
      return Aborted;
    }
    SaysReported(result.value, pc, base, mode, high, id);
    return Reported(result.value);
  }

  // ----- Where renaming falls short of substitution -----

  /** Every high array renamed, in indices and updates too. */
  function Subst(e: Expr, high: set<string>, id: nat): Expr {
    match e
    case Const(_, _) => e
    case NotOptimized(src) => NotOptimized(Subst(src, high, id))
    case Read(root, updates, index) =>
      Read(RenameArray(root, high, id), SubstChain(updates, high, id), Subst(index, high, id))
    case Select(c, t, f) => Select(Subst(c, high, id), Subst(t, high, id), Subst(f, high, id))
    case Concat(l, r) => Concat(Subst(l, high, id), Subst(r, high, id))
    case Extract(src, offset, bits) => Extract(Subst(src, high, id), offset, bits)
    case ZExt(src, bits) => ZExt(Subst(src, high, id), bits)
    case SExt(src, bits) => SExt(Subst(src, high, id), bits)
    case Not(src) => Not(Subst(src, high, id))
    case Bin(op, l, r) => Bin(op, Subst(l, high, id), Subst(r, high, id))
    case Cmp(cmp, l, r) => Cmp(cmp, Subst(l, high, id), Subst(r, high, id))
  }

  function SubstChain(updates: Updates, high: set<string>, id: nat): Updates {
    match updates
    case NoUpdates => NoUpdates
    case Update(index, value, next) =>
      Update(Subst(index, high, id), Subst(value, high, id), SubstChain(next, high, id))
  }

  lemma RenamedDiffers(x: Array, high: set<string>, id: nat)
    ensures RenameArray(x, high, id) == x <==> x.name !in high
  {
    assert |x.name + "_r_" + Decimal(id)| > |x.name|;
  }

  lemma {:induction false} SubstKeeps(e: Expr, high: set<string>, id: nat)
    ensures Subst(e, high, id) == e <==> NoneHigh(Arrays(e), high)
    decreases e, 1
  {
    hide RenameArray;
    forall kid | Kid(e, kid) ensures kid < e && (Subst(kid, high, id) == kid <==> NoneHigh(Arrays(kid), high)) {
      SubstKeeps(kid, high, id);
    }
    if e.Read? {
      RenamedDiffers(e.root, high, id);
      SubstKeeps(e.index, high, id);
      SubstKeepsChain(e.updates, high, id);
    }
  }

  lemma {:induction false} SubstKeepsChain(updates: Updates, high: set<string>, id: nat)
    ensures SubstChain(updates, high, id) == updates <==> NoneHigh(ChainArrays(updates), high)
    decreases updates, 0
  {
    if updates.Update? {
      SubstKeeps(updates.index, high, id);
      SubstKeeps(updates.value, high, id);
      SubstKeepsChain(updates.next, high, id);
    }
  }

  /** Renaming is the full substitution just when no index or update mentions a high array. */
  lemma {:induction false} SubstitutesExactly(e: Expr, high: set<string>, id: nat)
    requires Renameable(e)
    ensures Rename(e, high, id) == Some(Subst(e, high, id)) <==> NoneHigh(Inner(e), high)
    decreases e
  {
    hide RenameArray;
    RenamesExactly(e, high, id);
    forall kid | Kid(e, kid)
      ensures kid < e && Rename(kid, high, id).Some?
      ensures Rename(kid, high, id).value == Subst(kid, high, id) <==> NoneHigh(Inner(kid), high)
    {
      SubstitutesExactly(kid, high, id);
      RenamesExactly(kid, high, id);
    }
    if e.Read? {
      SubstKeeps(e.index, high, id);
      SubstKeepsChain(e.updates, high, id);
    }
  }

  lemma {:induction false} RenamesToItself(e: Expr, high: set<string>, id: nat)
    requires Renameable(e) && NoneHigh(Roots(e), high)
    ensures Rename(e, high, id) == Some(e)
    decreases e
  {
    hide RenameArray;
    forall kid | Kid(e, kid) ensures kid < e && Rename(kid, high, id) == Some(kid) {
      KidArrays(e, kid);
      RenamesToItself(kid, high, id);
    }
    if e.Read? {
      RenamedDiffers(e.root, high, id);
    }
  }

  /** An address that reads high arrays in indices and updates only: the query has no solution at all. */
  lemma IndirectMissed(base: Expr, mode: Mode, high: set<string>, id: nat)
    requires mode.Valid() && IsAddress(base) && Renameable(base) && NoneHigh(Roots(base), high)
    ensures Rename(base, high, id) == Some(base)
    ensures forall a :: !IsTrue(DifferentLines(mode, base, base), a)
    ensures forall pc :: !IsReported(pc, base, mode, high, id)
  {
    hide *;
    RenamesToItself(base, high, id);
    forall a ensures !IsTrue(DifferentLines(mode, base, base), a) {
      DifferentLinesMeans(mode, base, base, a);
    }
    forall pc ensures !IsReported(pc, base, mode, high, id) {
      ReportedBy(pc, base, mode, high, id);
    }
  }

  // ----- When the check is right about an address -----

  /** Whatever two runs can differ in, one of them can differ in by the bytes read directly alone. */
  ghost predicate ShowsDirectly(base: Expr, mode: Mode, high: set<string>) {
    forall a, b | Distinguishable([], base, mode, high, a, b) ::
      exists c :: DirectlyDistinguishable([], base, mode, high, a, c)
  }

  /** On every path the address is reported exactly when two runs can be told apart. */
  ghost predicate RightOnAllPaths(base: Expr, mode: Mode, high: set<string>)
    requires Renameable(base)
  {
    forall pc, id | FreshNames(pc, base, high, id) ::
      IsReported(pc, base, mode, high, id) <==> exists a, b :: Distinguishable(pc, base, mode, high, a, b)
  }

  /** Assignments that match on what indices and updates look at look at the same positions. */
  lemma {:induction false} TouchedSame(e: Expr, a: Assignment, b: Assignment)
    requires forall p <- Touched(e, b) :: p.0 in Inner(e) ==> InitialByte(p.0, p.1, a) == InitialByte(p.0, p.1, b)
    ensures Touched(e, a) == Touched(e, b)
    decreases e, 1
  {
    hide InitialByte, Eval;
    forall kid | Kid(e, kid) ensures kid < e && Touched(kid, a) == Touched(kid, b) {
      KidArrays(e, kid);
      forall p | p in Touched(kid, b) && p.0 in Inner(kid)
        ensures InitialByte(p.0, p.1, a) == InitialByte(p.0, p.1, b)
      {
        KidTouched(e, kid, b, p);
      }
      TouchedSame(kid, a, b);
    }
    if e.Read? {
      var k := Eval(e.index, b);
      forall p | p in Touched(e.index, b) ensures InitialByte(p.0, p.1, a) == InitialByte(p.0, p.1, b) {
        TouchedArrays(e.index, b, p);
      }
      EvalMatches(e.index, a, b);
      TouchedSame(e.index, a, b);
      TouchedChainSame(e.root, e.updates, k, Inner(e), a, b);
    }
  }

  lemma {:induction false} TouchedChainSame(root: Array, updates: Updates, k: nat, inner: set<Array>, a: Assignment,
                                            b: Assignment)
    requires ChainArrays(updates) <= inner
    requires forall p <- TouchedChain(root, updates, k, b) ::
      p.0 in inner ==> InitialByte(p.0, p.1, a) == InitialByte(p.0, p.1, b)
    ensures TouchedChain(root, updates, k, a) == TouchedChain(root, updates, k, b)
    decreases updates, 0
  {
    hide InitialByte;
    if updates.Update? {
      forall p | p in Touched(updates.index, b) ensures InitialByte(p.0, p.1, a) == InitialByte(p.0, p.1, b) {
        TouchedArrays(updates.index, b, p);
      }
      forall p | p in Touched(updates.value, b) ensures InitialByte(p.0, p.1, a) == InitialByte(p.0, p.1, b) {
        TouchedArrays(updates.value, b, p);
      }
      TouchedSame(updates.index, a, b);
      TouchedSame(updates.value, a, b);
      TouchedChainSame(root, updates.next, k, inner, a, b);
    }
  }

  /** The first run with the second run's bytes in the high arrays that are read directly. */
  function Mixed(roots: set<Array>, high: set<string>, a: Assignment, b: Assignment): Assignment {
    a + map x | x in roots && x.name in high :: Bytes(x, b)
  }

  lemma MixedMeans(base: Expr, high: set<string>, a: Assignment, b: Assignment)
    requires Separated(base, high)
    ensures var c := Mixed(Roots(base), high, a, b);
      && AgreeOffHigh(a, c, high) && Agree(Inner(base), a, c)
      && (forall x <- Roots(base) | x.name in high :: SameBytes(x, c, x, b))
      && (forall x | x !in Roots(base) || x.name !in high :: SameBytes(x, c, x, a))
  {
    hide Roots, Inner;
  }

  /**
   On the path that pins down what the address looks at under `a`, two runs that differ directly yield one for `a`.
   */
  lemma Transfers(base: Expr, mode: Mode, high: set<string>, a: Assignment, a': Assignment, b': Assignment)
    requires Separated(base, high) && Match(Touched(base, a), a', a)
    requires DirectlyDistinguishable([], base, mode, high, a', b')
    ensures DirectlyDistinguishable([], base, mode, high, a, Mixed(Roots(base), high, a, b'))
  {
    hide Roots, Inner, Touched, InitialByte, Mixed, Eval, Separated, Mode.Line;
    var c := Mixed(Roots(base), high, a, b');
    MixedMeans(base, high, a, b');
    EvalMatches(base, a', a);
    TouchedSame(base, a', a);
    forall p | p in Touched(base, a') && p.0 in Inner(base)
      ensures InitialByte(p.0, p.1, b') == InitialByte(p.0, p.1, a')
    {
      assert SameBytes(p.0, a', p.0, b');
    }
    TouchedSame(base, b', a');
    forall p | p in Touched(base, b') ensures InitialByte(p.0, p.1, c) == InitialByte(p.0, p.1, b') {
      TouchedArrays(base, b', p);
      if p.0 in Roots(base) && p.0.name in high {
        assert SameBytes(p.0, c, p.0, b');
      } else {
        assert SameBytes(p.0, c, p.0, a) && SameBytes(p.0, a', p.0, b');
      }
    }
    EvalMatches(base, c, b');
  }

  lemma NothingRequired(base: Expr, mode: Mode, high: set<string>, pc: seq<Expr>, a: Assignment, b: Assignment)
    ensures Distinguishable(pc, base, mode, high, a, b) <==> Sat(pc, a) && Distinguishable([], base, mode, high, a, b)
    ensures DirectlyDistinguishable(pc, base, mode, high, a, b) <==>
            Sat(pc, a) && DirectlyDistinguishable([], base, mode, high, a, b)
  {}

  lemma PinnedPath(ps: seq<(Array, nat)>, b: Assignment, a: Assignment)
    ensures Sat([HoldsAll(ps, b)], a) <==> Match(ps, a, b)
  {
    hide HoldsAll, Match, Eval;
    HoldsAllMeans(ps, b, a);
    var pc := [HoldsAll(ps, b)];
    assert pc[0] in pc && forall c <- pc :: c == pc[0];
  }

  lemma ShownIsReported(pc: seq<Expr>, base: Expr, mode: Mode, high: set<string>, id: nat)
    requires mode.Valid() && IsAddress(base) && Renameable(base) && Separated(base, high)
    requires ShowsDirectly(base, mode, high) && FreshNames(pc, base, high, id)
    ensures IsReported(pc, base, mode, high, id) <==> exists a, b :: Distinguishable(pc, base, mode, high, a, b)
  {
    hide Distinguishable, DirectlyDistinguishable, IsReported, FreshNames, Separated, Sat;
    QueryMeans(pc, base, mode, high, id);
    if a, b :| DirectlyDistinguishable(pc, base, mode, high, a, b) {
      Distinguish(pc, base, mode, high, a, b);
    }
    if a, b :| Distinguishable(pc, base, mode, high, a, b) {
      NothingRequired(base, mode, high, pc, a, b);
      var c :| DirectlyDistinguishable([], base, mode, high, a, c);
      NothingRequired(base, mode, high, pc, a, c);
    }
  }

  lemma RightShows(base: Expr, mode: Mode, high: set<string>, a: Assignment, b: Assignment) returns (c: Assignment)
    requires mode.Valid() && IsAddress(base) && Renameable(base) && Separated(base, high)
    requires RightOnAllPaths(base, mode, high) && Distinguishable([], base, mode, high, a, b)
    ensures DirectlyDistinguishable([], base, mode, high, a, c)
  {
    hide Distinguishable, DirectlyDistinguishable, IsReported, FreshNames, Separated, Sat, HoldsAll, Touched;
    var ps := Touched(base, a);
    var pc := [HoldsAll(ps, a)];
    var id := FreshNumber(pc, base, high);
    PinnedPath(ps, a, a);
    MatchesItself(ps, a);
    NothingRequired(base, mode, high, pc, a, b);
    QueryMeans(pc, base, mode, high, id);
    var a', b' :| DirectlyDistinguishable(pc, base, mode, high, a', b');
    NothingRequired(base, mode, high, pc, a', b');
    PinnedPath(ps, a, a');
    Transfers(base, mode, high, a, a', b');
    c := Mixed(Roots(base), high, a, b');
  }

  /** The check is right about an address on every path if and only if all differences show in what is read directly. */
  lemma RightExactly(base: Expr, mode: Mode, high: set<string>)
    requires mode.Valid() && IsAddress(base) && Renameable(base) && Separated(base, high)
    ensures RightOnAllPaths(base, mode, high) <==> ShowsDirectly(base, mode, high)
  {
    hide Distinguishable, DirectlyDistinguishable, IsReported, FreshNames, Separated;
    if ShowsDirectly(base, mode, high) {
      forall pc, id | FreshNames(pc, base, high, id)
        ensures IsReported(pc, base, mode, high, id) <==> exists a, b :: Distinguishable(pc, base, mode, high, a, b)
      {
        ShownIsReported(pc, base, mode, high, id);
      }
    }
    if RightOnAllPaths(base, mode, high) {
      forall a, b | Distinguishable([], base, mode, high, a, b)
        ensures exists c :: DirectlyDistinguishable([], base, mode, high, a, c)
      {
        var c := RightShows(base, mode, high, a, b);
      }
    }
  }

  const SECRET := Array("secret", 1)
  const TABLE := Array("table", 2)

  function FirstByteOf(x: Array): Expr {
    Read(x, NoUpdates, Const(0, INT32))
  }

  lemma FirstByteMeans(x: Array, bits: nat, a: Assignment)
    requires bits >= 8
    ensures Eval(ZExt(FirstByteOf(x), bits), a) == InitialByte(x, 0, a) == Eval(FirstByteOf(x), a)
  {
    Small(0, Pow2(32));
    WideByte(FirstByteOf(x), InitialByte(x, 0, a), bits, a);
  }

  lemma WideByte(e: Expr, v: byte, bits: nat, a: Assignment)
    requires bits >= 8 && Eval(e, a) == v
    ensures Eval(ZExt(e, bits), a) == v
  {
    Pow2Add(8, bits - 8);
    Pow2Byte();
    Monotone(1, Pow2(bits - 8), 256);
    Small(v, Pow2(bits));
  }

  /** A table indexed by a secret: the query cannot be satisfied, yet two runs address different lines. */
  lemma MissedLeak()
    ensures
      var base := ZExt(Read(TABLE, NoUpdates, ZExt(FirstByteOf(SECRET), INT32)), INT64);
      && Rename(base, {"secret"}, 0) == Some(base)
      && (forall a :: !IsTrue(DifferentLines(CacheLine(0), base, base), a))
      && (exists a, b :: Distinguishable([], base, CacheLine(0), {"secret"}, a, b))
  {
    hide Pow2, Mode.Line;
    var index := ZExt(FirstByteOf(SECRET), INT32);
    var read := Read(TABLE, NoUpdates, index);
    var base := ZExt(read, INT64);
    var mode, high := CacheLine(0), {"secret"};
    ValidMode();
    assert TABLE.name !in high;
    IndirectMissed(base, mode, high, 0);
    var a: Assignment, b: Assignment := map[TABLE := [0, 1], SECRET := [0]], map[TABLE := [0, 1], SECRET := [1]];
    FirstByteMeans(SECRET, INT32, a);
    FirstByteMeans(SECRET, INT32, b);
    WideByte(read, 0, INT64, a);
    WideByte(read, 1, INT64, b);
    WholeAddress(Eval(base, a));
    WholeAddress(Eval(base, b));
    assert Distinguishable([], base, mode, high, a, b);
  }

  /** A secret byte compared with a copy of itself that is read through an update. */
  function ComparedCopy(x: Array): Expr {
    Cmp(Eq, FirstByteOf(x), Read(TABLE, Update(Const(0, INT32), FirstByteOf(SECRET), NoUpdates), Const(0, INT32)))
  }

  lemma ComparedCopyMeans(x: Array, a: Assignment)
    ensures Eval(ZExt(ComparedCopy(x), INT64), a) ==
            if InitialByte(x, 0, a) == InitialByte(SECRET, 0, a) then 1 else 0
  {
    hide Pow2;
    var copy := Read(TABLE, Update(Const(0, INT32), FirstByteOf(SECRET), NoUpdates), Const(0, INT32));
    FirstByteMeans(x, INT64, a);
    FirstByteMeans(SECRET, INT64, a);
    assert Eval(copy, a) == InitialByte(SECRET, 0, a);
    CompareMeans(Eq, FirstByteOf(x), copy, a);
    WideByte(ComparedCopy(x), Eval(ComparedCopy(x), a), INT64, a);
  }

  lemma ComparedCopyIsPlain(x: Array)
    ensures IsAddress(ZExt(ComparedCopy(x), INT64)) && Renameable(ZExt(ComparedCopy(x), INT64))
  {
    var e := ComparedCopy(x);
    assert WellFormed(e.left) && WellFormed(e.right) && Renameable(e.left) && Renameable(e.right);
  }

  lemma ComparedCopyIs(high: set<string>)
    requires high == {"secret"}
    ensures var base, copied := ZExt(ComparedCopy(SECRET), INT64), RenameArray(SECRET, high, 0);
      && !Separated(base, high) && FreshNames([], base, high, 0)
      && Rename(base, high, 0) == Some(ZExt(ComparedCopy(copied), INT64))
  {
    hide Decimal;
    var base, copied := ZExt(ComparedCopy(SECRET), INT64), RenameArray(SECRET, high, 0);
    var copy := Read(TABLE, Update(Const(0, INT32), FirstByteOf(SECRET), NoUpdates), Const(0, INT32));
    assert SECRET in Inner(base) && SECRET in Roots(base) && SECRET.name in high && TABLE.name !in high;
    assert Arrays(base) == {SECRET, TABLE} && PathArrays([]) == {};
    assert copied.name == "secret_r_" + Decimal(0);
    assert Rename(FirstByteOf(SECRET), high, 0) == Some(FirstByteOf(copied));
    assert Rename(copy, high, 0) == Some(copy);
  }

  /** A secret read both directly and in an update: the address is constant, and reported. */
  lemma MixedAlarm()
    ensures var base := ZExt(ComparedCopy(SECRET), INT64);
      && IsAddress(base) && Renameable(base) && !Separated(base, {"secret"}) && FreshNames([], base, {"secret"}, 0)
      && IsReported([], base, CacheLine(0), {"secret"}, 0)
      && (forall a, b :: !Distinguishable([], base, CacheLine(0), {"secret"}, a, b))
  {
    hide Eval, Mode.Line, Pow2, InitialByte, ComparedCopy, Rename, Renameable, Separated, FreshNames, IsReported;
    hide IsAddress;
    var base, mode, high := ZExt(ComparedCopy(SECRET), INT64), CacheLine(0), {"secret"};
    var copied := RenameArray(SECRET, high, 0);
    var renamed := ZExt(ComparedCopy(copied), INT64);
    RenamedDiffers(SECRET, high, 0);
    ComparedCopyIs(high);
    ComparedCopyIsPlain(SECRET);
    ComparedCopyIsPlain(copied);
    forall a ensures Eval(base, a) == 1 {
      ComparedCopyMeans(SECRET, a);
    }
    var a: Assignment := map[SECRET := [0], copied := [1]];
    assert InitialByte(SECRET, 0, a) == 0 && InitialByte(copied, 0, a) == 1 by { FirstBytes(SECRET, copied); }
    ComparedCopyMeans(copied, a);
    ValidMode();
    WholeAddress(1);
    WholeAddress(0);
    DifferentLinesMeans(mode, base, renamed, a);
    RenamesExactly(base, high, 0);
    ReportedBy([], base, mode, high, 0);
  }

  lemma FirstBytes(x: Array, y: Array)
    requires x != y && x.size == y.size == 1
    ensures var a: Assignment := map[x := [0], y := [1]]; InitialByte(x, 0, a) == 0 && InitialByte(y, 0, a) == 1
  {}

  lemma PinnedMeans(e: Expr, a: Assignment)
    ensures Sat([Cmp(Eq, e, Const(0, INT8))], a) <==> Eval(e, a) == 0
  {
    Small(0, Pow2(8));
    var pc := [Cmp(Eq, e, Const(0, INT8))];
    assert Eval(Const(0, INT8), a) == 0;
    assert IsTrue(pc[0], a) <==> Eval(e, a) == 0;
    assert pc[0] in pc && forall c <- pc :: c == pc[0];
  }

  /** The other run need not satisfy the path condition: a leak is reported although the path fixes the address. */
  lemma FalseAlarm()
    ensures
      var pc, base := [Cmp(Eq, FirstByteOf(SECRET), Const(0, INT8))], ZExt(FirstByteOf(SECRET), INT64);
      && (exists a, b :: Distinguishable(pc, base, CacheLine(0), {"secret"}, a, b))
      && (forall a, b | Sat(pc, a) && Sat(pc, b) :: Eval(base, a) == Eval(base, b))
  {
    hide Mode.Line, Eval, Sat, Pow2;
    var pc, base := [Cmp(Eq, FirstByteOf(SECRET), Const(0, INT8))], ZExt(FirstByteOf(SECRET), INT64);
    forall a ensures Sat(pc, a) <==> Eval(base, a) == 0 {
      FirstByteMeans(SECRET, INT64, a);
      PinnedMeans(FirstByteOf(SECRET), a);
    }
    var a: Assignment, b: Assignment := map[SECRET := [0]], map[SECRET := [1]];
    FirstByteMeans(SECRET, INT64, a);
    FirstByteMeans(SECRET, INT64, b);
    WholeAddress(Eval(base, a));
    WholeAddress(Eval(base, b));
    assert SECRET.name in {"secret"};
    assert Distinguishable(pc, base, CacheLine(0), {"secret"}, a, b);
  }

  lemma {:induction false} DecimalInjective(m: nat, n: nat)
    requires Decimal(m) == Decimal(n)
    ensures m == n
  {
    var s, t := Decimal(m), Decimal(n);
    assert s[|s| - 1] == "0123456789"[m % 10] && t[|t| - 1] == "0123456789"[n % 10];
    DigitInjective(m % 10, n % 10);
    if m >= 10 && n >= 10 {
      assert s[..|s| - 1] == Decimal(m / 10) && t[..|t| - 1] == Decimal(n / 10);
      DecimalInjective(m / 10, n / 10);
    }
  }

  lemma DigitInjective(i: nat, j: nat)
    requires i < 10 && j < 10 && "0123456789"[i] == "0123456789"[j]
    ensures i == j
  {}

  lemma NumbersDiffer(p: string, d: string, q: string, d': string)
    requires |d| < |d'| && forall i | 0 <= i < |d'| :: d'[i] != '_'
    ensures p + "_r_" + d != q + "_r_" + d'
  {
    var s, t := p + "_r_" + d, q + "_r_" + d';
    if |s| == |t| {
      var i := |s| - |d| - 1;
      assert s[i] == '_' && t[i] == d'[|d'| - |d| - 1];
    }
  }

  /** The counter of renamings keeps their names apart: two arrays renamed under different numbers never coincide. */
  lemma RenamingsApart(x: Array, y: Array, high: set<string>, id: nat, id': nat)
    requires x.name in high && y.name in high && id != id'
    ensures RenameArray(x, high, id) != RenameArray(y, high, id')
  {
    hide Decimal;
    var d, d' := Decimal(id), Decimal(id');
    if |d| < |d'| {
      NumbersDiffer(x.name, d, y.name, d');
    } else if |d'| < |d| {
      NumbersDiffer(y.name, d', x.name, d);
    } else {
      var s, t := x.name + "_r_" + d, y.name + "_r_" + d';
      assert d == s[|s| - |d|..] && d' == t[|t| - |d'|..];
      if d == d' {
        DecimalInjective(id, id');
      }
    }
  }
}
