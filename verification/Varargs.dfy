/**
 Packing variable arguments into one memory object (klee/lib/Core/Executor.cpp:4109-4184,
 ExecutorAsync.cpp:666-725).

 On 64-bit targets this is step 7 of section 3.5.7 of the System V AMD64 ABI: an argument
 whose alignment exceeds eight bytes goes to the next multiple of sixteen. Offsets are
 32-bit numbers; the whole object is assumed to fit.
 */
module Varargs {
  import opened AddressSpaces
  import opened Arithmetic
  import opened Exprs
  import opened ObjectStates

  /** `llvm::alignTo` and `llvm::RoundUpToAlignment`. */
  function AlignTo(x: nat, align: nat): nat
    requires 0 < align
  {
    (x + align - 1) / align * align
  }

  datatype WordSize = Bits32 | Bits64

  /** Where an argument starts when the ones before it end at `offset`. */
  function Start(offset: nat, width: nat, word: WordSize): nat {
    if word.Bits64? && width > INT64 then AlignTo(offset, 16) else offset
  }

  /** The bytes set aside for an argument. */
  function Room(width: nat, word: WordSize): nat {
    if word.Bits32? then BytesFor(width) else AlignTo(width, INT64) / 8
  }

  /** Where arguments of these widths end. */
  function End(widths: seq<nat>, word: WordSize): nat {
    if widths == [] then 0 else
    var last := widths[|widths| - 1];
    Start(End(widths[..|widths| - 1], word), last, word) + Room(last, word)
  }

  function StartOf(widths: seq<nat>, i: nat, word: WordSize): nat
    requires i < |widths|
  {
    Start(End(widths[..i], word), widths[i], word)
  }

  function Widths(arguments: seq<Expr>): (w: seq<nat>)
    ensures |w| == |arguments|
  {
    seq(|arguments|, i requires 0 <= i < |arguments| => Width(arguments[i]))
  }

  // ----- The layout -----

  /** The next multiple of the alignment, and the nearest. */
  lemma AlignedUp(x: nat, align: nat, y: nat)
    requires 0 < align
    ensures x <= AlignTo(x, align) < x + align && AlignTo(x, align) % align == 0
    ensures x <= y && y % align == 0 ==> AlignTo(x, align) <= y
  {
    var q := (x + align - 1) / align;
    assert x + align - 1 == q * align + (x + align - 1) % align;
    Quotient(q * align, align, q, 0);
    if x <= y && y % align == 0 {
      assert y == y / align * align;
      if y / align < q {
        Monotone(y / align + 1, q, align);
      } else {
        Monotone(q, y / align, align);
      }
    }
  }

  lemma RoomIsEnough(width: nat, word: WordSize)
    ensures BytesFor(width) <= Room(width, word)
    ensures word.Bits64? ==> Room(width, word) % 8 == 0
  {
    if word.Bits64? {
      AlignedUp(width, 64, 0);
      assert AlignTo(width, 64) == (width + 63) / 64 * 64;
    }
  }

  lemma StartAfter(offset: nat, width: nat, word: WordSize)
    ensures offset <= Start(offset, width, word)
    ensures word.Bits64? && width > INT64 ==> Start(offset, width, word) % 16 == 0
    ensures word.Bits64? && offset % 8 == 0 ==> Start(offset, width, word) % 8 == 0
  {
    hide AlignTo;
    AlignedUp(offset, 16, 0);
    if word.Bits64? && width > INT64 {
      EighthOfSixteenth(Start(offset, width, word));
    }
  }

  lemma EighthOfSixteenth(x: nat)
    requires x % 16 == 0
    ensures x % 8 == 0
  {}

  lemma {:induction false} EndGrows(widths: seq<nat>, i: nat, j: nat, word: WordSize)
    requires i <= j <= |widths|
    ensures End(widths[..i], word) <= End(widths[..j], word)
  {
    if i < j {
      EndGrows(widths, i, j - 1, word);
      assert widths[..j][..j - 1] == widths[..j - 1];
      StartAfter(End(widths[..j - 1], word), widths[j - 1], word);
    }
  }

  lemma EndNext(widths: seq<nat>, i: nat, word: WordSize)
    requires i < |widths|
    ensures End(widths[..i + 1], word) == StartOf(widths, i, word) + Room(widths[i], word)
  {
    assert widths[..i + 1][..i] == widths[..i];
  }

  /** Arguments do not overlap and stay inside the object. */
  lemma NoOverlap(widths: seq<nat>, i: nat, word: WordSize)
    requires i < |widths|
    ensures StartOf(widths, i, word) + BytesFor(widths[i]) <= End(widths, word)
    ensures forall j | i < j < |widths| :: StartOf(widths, i, word) + BytesFor(widths[i]) <= StartOf(widths, j, word)
  {
    hide End, Start, Room, BytesFor;
    EndNext(widths, i, word);
    RoomIsEnough(widths[i], word);
    forall j | i < j < |widths| ensures StartOf(widths, i, word) + BytesFor(widths[i]) <= StartOf(widths, j, word) {
      EndGrows(widths, i + 1, j, word);
      StartAfter(End(widths[..j], word), widths[j], word);
    }
    EndGrows(widths, i + 1, |widths|, word);
    assert widths[..|widths|] == widths;
  }

  lemma {:induction false} EndAligned(widths: seq<nat>, word: WordSize)
    requires word.Bits64?
    ensures End(widths, word) % 8 == 0
  {
    hide Start, Room;
    if widths != [] {
      EndAligned(widths[..|widths| - 1], word);
      StartAfter(End(widths[..|widths| - 1], word), widths[|widths| - 1], word);
      RoomIsEnough(widths[|widths| - 1], word);
    }
  }

  /** Where an argument's own bytes end. */
  function Used(widths: seq<nat>, i: nat, word: WordSize): nat
    requires i < |widths|
  {
    StartOf(widths, i, word) + BytesFor(widths[i])
  }

  /** What is set aside ends with the argument's bytes, or on 64-bit targets at the next multiple of eight. */
  lemma RoomEnds(widths: seq<nat>, i: nat, word: WordSize)
    requires i < |widths|
    ensures var end := End(widths[..i + 1], word);
      if word.Bits32? then end == Used(widths, i, word)
      else Used(widths, i, word) <= end < Used(widths, i, word) + 8 && end % 8 == 0
  {
    hide End, AlignTo;
    EndNext(widths, i, word);
    RoomIsEnough(widths[i], word);
    if word.Bits64? {
      EndAligned(widths[..i + 1], word);
      RoomIsTight(widths[i]);
    }
  }

  lemma RoomIsTight(width: nat)
    ensures Room(width, Bits64) < BytesFor(width) + 8
  {
    AlignedUp(width, 64, 0);
    assert AlignTo(width, 64) == (width + 63) / 64 * 64;
  }

  /** The first place free for argument `i`: where the bytes of the one before it end. */
  function Free(widths: seq<nat>, i: nat, word: WordSize): nat
    requires i <= |widths|
  {
    if i == 0 then 0 else Used(widths, i - 1, word)
  }

  /**
   On a 64-bit target every argument is at the first place free with the alignment it needs: sixteen bytes when wider
   than eight, and otherwise eight.
   */
  lemma AbiPlacement(widths: seq<nat>, i: nat, x: nat)
    requires i < |widths|
    ensures var align, start := if widths[i] > INT64 then 16 else 8, StartOf(widths, i, Bits64);
      var free := Free(widths, i, Bits64);
      && free <= start && start % align == 0
      && (free <= x && x % align == 0 ==> start <= x)
  {
    hide End, AlignTo;
    var end := End(widths[..i], Bits64);
    EndAligned(widths[..i], Bits64);
    AlignedUp(end, 16, x);
    if i > 0 {
      RoomEnds(widths, i - 1, Bits64);
    } else {
      NothingYet(widths, Bits64);
    }
    if x % 16 == 0 {
      EighthOfSixteenth(x);
    }
  }

  /** On a 32-bit target every argument follows the one before it at once. */
  lemma PackedPlacement(widths: seq<nat>, i: nat)
    requires i < |widths|
    ensures StartOf(widths, i, Bits32) == Free(widths, i, Bits32)
  {
    hide End;
    if i > 0 {
      RoomEnds(widths, i - 1, Bits32);
    } else {
      NothingYet(widths, Bits32);
    }
  }

  /** The object ends with the last argument, or on 64-bit targets at the next multiple of eight. */
  lemma SizeIs(widths: seq<nat>, word: WordSize)
    ensures var free, size := Free(widths, |widths|, word), End(widths, word);
      if word.Bits32? then size == free else free <= size < free + 8 && size % 8 == 0
  {
    hide End;
    if widths == [] {
      NothingYet(widths, word);
    } else {
      RoomEnds(widths, |widths| - 1, word);
    }
    assert widths[..|widths|] == widths;
  }

  // ----- The two loops -----

  /** `None`: fewer arguments than parameters. */
  datatype Sizing = TooFewArguments | Sized(size: nat, align: nat)

  /** One round of the sizing loop. */
  method Reserve(size: nat, argWidth: nat, word: WordSize) returns (size': nat)
    ensures size' == Start(size, argWidth, word) + Room(argWidth, word)
  {
    hide AlignTo;
    if word.Bits32? {
      return size + BytesFor(argWidth);
    }
    size' := size;
    if argWidth > INT64 {
      size' := AlignTo(size', 16);
    }
    size' := size' + AlignTo(argWidth, INT64) / 8;
  }

  /** Some argument is wider than eight bytes. */
  predicate AnyWide(widths: seq<nat>) {
    exists i | 0 <= i < |widths| :: widths[i] > INT64
  }

  lemma EndIs(widths: seq<nat>, i: nat, w: nat, word: WordSize)
    requires i < |widths| && widths[i] == w
    ensures End(widths[..i + 1], word) == Start(End(widths[..i], word), w, word) + Room(w, word)
    ensures AnyWide(widths[..i + 1]) <==> AnyWide(widths[..i]) || w > INT64
  {
    EndNext(widths, i, word);
    var longer := widths[..i + 1];
    assert longer == widths[..i] + [w];
    assert w > INT64 ==> longer[i] > INT64;
    assert forall k | 0 <= k < i :: widths[..i][k] == longer[k];
  }

  method SizeVarargs(arguments: seq<Expr>, funcArgs: nat, word: WordSize) returns (sizing: Sizing)
    ensures sizing.TooFewArguments? <==> |arguments| < funcArgs
    ensures sizing.Sized? ==> sizing.size == End(Widths(arguments[funcArgs..]), word)
    ensures sizing.Sized? ==> sizing.align == if word.Bits64? && AnyWide(Widths(arguments[funcArgs..])) then 16 else 8
  {
    if |arguments| < funcArgs {
      return TooFewArguments;
    }
    hide End, AlignTo, BytesFor, Start, Room, StartOf, Width, Widths, AnyWide;
    ghost var widths := Widths(arguments[funcArgs..]);
    NothingYet(widths, word);
    var size, requires16ByteAlignment := 0, false;
    for i := funcArgs to |arguments|
      invariant size == End(widths[..i - funcArgs], word)
      invariant requires16ByteAlignment <==> word.Bits64? && AnyWide(widths[..i - funcArgs])
    {
      var argWidth := Width(arguments[i]);
      WidthAt(arguments, funcArgs, i);
      EndIs(widths, i - funcArgs, argWidth, word);
      if word.Bits64? && argWidth > INT64 {
        requires16ByteAlignment := true;
      }
      size := Reserve(size, argWidth, word);
    }
    assert widths[..|arguments| - funcArgs] == widths;
    return Sized(size, if requires16ByteAlignment then 16 else 8);
  }

  lemma WidthAt(arguments: seq<Expr>, funcArgs: nat, i: nat)
    requires funcArgs <= i < |arguments|
    ensures Widths(arguments[funcArgs..])[i - funcArgs] == Width(arguments[i])
  {}

  lemma NothingYet(widths: seq<nat>, word: WordSize)
    ensures End(widths[..0], word) == 0 && !AnyWide(widths[..0])
  {}

  predicate Writable(e: Expr) {
    WellFormed(e) && Accessible(Width(e))
  }

  predicate AllWritable(arguments: seq<Expr>) {
    forall k | 0 <= k < |arguments| :: Writable(arguments[k])
  }

  /** Every argument reads back from its place with the value it had. */
  ghost predicate Holds(store: Store, arguments: seq<Expr>, word: WordSize, n: nat)
    requires n <= |arguments| && AllWritable(arguments)
  {
    forall k, a | 0 <= k < n ::
      Eval(ReadExpr(store, Const(StartOf(Widths(arguments), k, word), INT32), Width(arguments[k])), a) ==
        Eval(arguments[k], a)
  }

  /** A write beyond an argument leaves what is read at the argument's place alone. */
  lemma ReadBefore(store: Store, at: nat, value: Expr, k: nat, width: nat, a: Assignment)
    requires Accessible(Width(value)) && Accessible(width)
    requires k + BytesFor(width) <= at && at + BytesFor(Width(value)) < 0x1_0000_0000
    ensures Eval(ReadExpr(WriteExpr(store, Const(at, INT32), value), Const(k, INT32), width), a) ==
            Eval(ReadExpr(store, Const(k, INT32), width), a)
  {
    hide ReadExpr, WriteExpr, ByteAt, Eval, LittleEndian, Pow2;
    var store' := WriteExpr(store, Const(at, INT32), value);
    ConstOffset(at, a);
    ConstOffset(k, a);
    ReadExprMeans(store, Const(k, INT32), width, a);
    ReadExprMeans(store', Const(k, INT32), width, a);
    forall i | k <= i < k + BytesFor(width) ensures ByteAt(store', i, a) == ByteAt(store, i, a) {
      WriteExprMeans(store, Const(at, INT32), value, i, a);
    }
    if width != BOOL {
      SameBytesSameNumber(store, store', k, width / 8, a);
    }
  }

  lemma {:induction false} SameBytesSameNumber(s: Store, t: Store, k: nat, n: nat, a: Assignment)
    requires forall i | k <= i < k + n :: ByteAt(t, i, a) == ByteAt(s, i, a)
    ensures LittleEndian(t, k, n, a) == LittleEndian(s, k, n, a)
  {
    hide ByteAt, Pow2;
    if n > 0 {
      SameBytesSameNumber(s, t, k, n - 1, a);
    }
  }

  lemma HoldsNext(store: Store, arguments: seq<Expr>, word: WordSize, n: nat)
    requires n < |arguments| && AllWritable(arguments)
    requires End(Widths(arguments), word) < 0x1_0000_0000 && Holds(store, arguments, word, n)
    ensures Holds(WriteExpr(store, Const(StartOf(Widths(arguments), n, word), INT32), arguments[n]), arguments, word,
                  n + 1)
  {
    hide Eval, ReadExpr, WriteExpr, Accessible, WellFormed, StartOf, BytesFor, End;
    var widths, e := Widths(arguments), arguments[n];
    var at := StartOf(widths, n, word);
    var store' := WriteExpr(store, Const(at, INT32), e);
    NoOverlap(widths, n, word);
    forall k, a | 0 <= k < n + 1
      ensures Eval(ReadExpr(store', Const(StartOf(widths, k, word), INT32), Width(arguments[k])), a) ==
        Eval(arguments[k], a)
    {
      if k == n {
        ConstOffset(at, a);
        WriteThenRead(store, Const(at, INT32), e, a);
      } else {
        NoOverlap(widths, k, word);
        ReadBefore(store, at, e, StartOf(widths, k, word), Width(arguments[k]), a);
      }
    }
  }

  /** The writing loop ends where the sizing loop did, and every argument can be read back. */
  method WriteVarargs(os: ObjectState, arguments: seq<Expr>, word: WordSize) returns (offset: nat)
    requires AllWritable(arguments)
    requires End(Widths(arguments), word) < 0x1_0000_0000
    modifies os`store
    ensures offset == End(Widths(arguments), word)
    ensures Holds(os.store, arguments, word, |arguments|)
  {
    hide ReadExpr, WriteExpr, WellFormed, Eval;
    offset := 0;
    var widths := Widths(arguments);
    for i := 0 to |arguments|
      invariant offset == End(widths[..i], word)
      invariant Holds(os.store, arguments, word, i)
    {
      EndNext(widths, i, word);
      HoldsNext(os.store, arguments, word, i);
      var argWidth := Width(arguments[i]);
      if word.Bits32? {
        os.store := WriteExpr(os.store, Const(offset, INT32), arguments[i]);
        offset := offset + BytesFor(argWidth);
      } else {
        if argWidth > INT64 {
          offset := AlignTo(offset, 16);
        }
        os.store := WriteExpr(os.store, Const(offset, INT32), arguments[i]);
        offset := offset + AlignTo(argWidth, INT64) / 8;
      }
    }
    assert widths[..|arguments|] == widths;
  }
}
