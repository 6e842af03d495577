/**
 The contents of one memory object as an array with a chain of symbolic writes, and
 multi-byte access to it (klee/lib/Core/Memory.cpp:432-620).

 The original also caches bytes it knows to be concrete; the caches hold the same
 bytes and are not modelled. Only little-endian targets are.
 */
module ObjectStates {
  import opened Arithmetic
  import opened Exprs

  datatype Store = Store(root: Array, updates: Updates)

  /** The byte stored at `k`. */
  function ByteAt(store: Store, k: nat, a: Assignment): byte {
    ReadByte(store.root, store.updates, k, a)
  }

  /** The number in the `n` bytes from `k` on, the lowest byte first. */
  function LittleEndian(store: Store, k: nat, n: nat, a: Assignment): nat {
    if n == 0 then 0 else LittleEndian(store, k, n - 1, a) + ByteAt(store, k + n - 1, a) * Pow2(8 * (n - 1))
  }

  function Read8(store: Store, offset: Expr): Expr {
    Read(store.root, store.updates, offset)
  }

  /** The address of byte `i` of an access, in the 32 bits an object offset has. */
  function ByteOffset(offset: Expr, i: nat): Expr {
    Bin(Add, ZExt(offset, INT32), Const(i, INT32))
  }

  /** The concatenation of `n` bytes, the last one leftmost. */
  function ReadBytes(store: Store, offset: Expr, n: nat): Expr
    requires n > 0
  {
    var b := Read8(store, ByteOffset(offset, n - 1));
    if n == 1 then b else Concat(b, ReadBytes(store, offset, n - 1))
  }

  /** `n` bytes of `value` written from the lowest on. */
  function WriteBytes(store: Store, offset: Expr, value: Expr, n: nat): Store {
    if n == 0 then store else
    var before := WriteBytes(store, offset, value, n - 1);
    before.(updates := Update(ByteOffset(offset, n - 1), Extract(value, 8 * (n - 1), INT8), before.updates))
  }

  /** The widths memory can be read and written with: one bit or whole bytes. */
  predicate Accessible(width: nat) {
    width == BOOL || (width > 0 && width % 8 == 0)
  }

  /** The least number of bytes that has room for the bits. */
  function BytesFor(width: nat): (bytes: nat)
    ensures width <= 8 * bytes < width + 8
  {
    (width + 7) / 8
  }

  function ReadExpr(store: Store, offset: Expr, width: nat): Expr
    requires Accessible(width)
  {
    if width == BOOL then Extract(Read8(store, ZExt(offset, INT32)), 0, BOOL) else ReadBytes(store, offset, width / 8)
  }

  function WriteExpr(store: Store, offset: Expr, value: Expr): Store
    requires Accessible(Width(value))
  {
    if Width(value) == BOOL then
      store.(updates := Update(ZExt(offset, INT32), ZExt(value, INT8), store.updates))
    else
      WriteBytes(store, offset, value, Width(value) / 8)
  }

  method ReadObject(store: Store, offset: Expr, width: nat) returns (result: Expr)
    requires Accessible(width)
    ensures result == ReadExpr(store, offset, width)
  {
    if width == BOOL {
      return Extract(Read8(store, ZExt(offset, INT32)), 0, BOOL);
    }
    var numBytes := width / 8;
    result := Read8(store, ByteOffset(offset, 0));
    var i := 1;
    while i < numBytes
      invariant 1 <= i <= numBytes
      invariant result == ReadBytes(store, offset, i)
    {
      result := Concat(Read8(store, ByteOffset(offset, i)), result);
      i := i + 1;
    }
  }

  method WriteObject(store: Store, offset: Expr, value: Expr) returns (result: Store)
    requires Accessible(Width(value))
    ensures result == WriteExpr(store, offset, value)
  {
    if Width(value) == BOOL {
      return store.(updates := Update(ZExt(offset, INT32), ZExt(value, INT8), store.updates));
    }
    result := store;
    for i := 0 to Width(value) / 8
      invariant result == WriteBytes(store, offset, value, i)
    {
      result := result.(updates := Update(ByteOffset(offset, i), Extract(value, 8 * i, INT8), result.updates));
    }
  }

  // ----- What reads and writes mean -----

  lemma Pow2Values()
    ensures Pow2(8) == 256 && Pow2(32) == 0x1_0000_0000
  {
    assert Pow2(4) == 16;
    Pow2Add(4, 4);
    Pow2Add(8, 8);
    Pow2Add(16, 16);
  }

  lemma OffsetValue(offset: Expr, a: Assignment)
    requires Eval(offset, a) < 0x1_0000_0000
    ensures Eval(ZExt(offset, INT32), a) == Eval(offset, a)
  {
    Pow2Values();
    Small(Eval(offset, a), Pow2(32));
  }

  lemma ByteOffsetValue(offset: Expr, i: nat, a: Assignment)
    requires Eval(offset, a) + i < 0x1_0000_0000
    ensures Eval(ByteOffset(offset, i), a) == Eval(offset, a) + i
  {
    hide Pow2, Eval;
    Pow2Values();
    OffsetValue(offset, a);
    ConstOffset(i, a);
    BinMeans(Add, ZExt(offset, INT32), Const(i, INT32), a);
    Small(Eval(offset, a) + i, Pow2(32));
  }

  lemma ConstOffset(offset: nat, a: Assignment)
    requires offset < 0x1_0000_0000
    ensures Eval(Const(offset, INT32), a) == offset
  {
    Pow2Values();
    Small(offset, Pow2(32));
  }

  /** Byte `i` of a number. */
  function Digit(v: nat, i: nat): byte {
    v / Pow2(8 * i) % 256
  }

  lemma ExtractByte(value: Expr, i: nat, a: Assignment)
    ensures Eval(Extract(value, 8 * i, INT8), a) == Digit(Eval(value, a), i)
  {
    Pow2Values();
  }

  lemma ZExtByte(value: Expr, a: Assignment)
    ensures Eval(ZExt(value, INT8), a) == Digit(Eval(value, a), 0)
  {
    hide Pow2;
    Pow2Values();
    Pow2One();
    WholeQuotient(Eval(value, a));
  }

  lemma WholeQuotient(x: int)
    ensures x / 1 == x
  {}

  lemma {:induction false} ReadBytesWidth(store: Store, offset: Expr, n: nat)
    requires n > 0
    ensures Width(ReadBytes(store, offset, n)) == 8 * n && WellFormed(ReadBytes(store, offset, n))
  {
    if n > 1 {
      ReadBytesWidth(store, offset, n - 1);
    }
  }

  lemma ConcatByte(b: Expr, rest: Expr, n: nat, byteValue: nat, restValue: nat, a: Assignment)
    requires Width(rest) == 8 * n && Eval(b, a) == byteValue && Eval(rest, a) == restValue
    ensures Eval(Concat(b, rest), a) == restValue + byteValue * Pow2(8 * n)
  {}

  lemma ByteReadMeans(store: Store, offset: Expr, i: nat, a: Assignment)
    requires Eval(offset, a) + i < 0x1_0000_0000
    ensures Eval(Read8(store, ByteOffset(offset, i)), a) == ByteAt(store, Eval(offset, a) + i, a)
  {
    hide Eval, Pow2;
    Read8Means(store, ByteOffset(offset, i), a);
    ByteOffsetValue(offset, i, a);
  }

  lemma Read8Means(store: Store, index: Expr, a: Assignment)
    ensures Eval(Read8(store, index), a) == ByteAt(store, Eval(index, a), a)
  {}

  /** A load yields the bytes at the concrete offset. */
  lemma {:induction false} ReadBytesMeans(store: Store, offset: Expr, n: nat, a: Assignment)
    requires n > 0 && Eval(offset, a) + n <= 0x1_0000_0000
    ensures Eval(ReadBytes(store, offset, n), a) == LittleEndian(store, Eval(offset, a), n, a)
  {
    hide Eval, Pow2, ByteAt;
    var at, last := Eval(offset, a), Read8(store, ByteOffset(offset, n - 1));
    ByteReadMeans(store, offset, n - 1, a);
    if n == 1 {
      Pow2One();
      assert LittleEndian(store, at, 0, a) == 0;
    } else {
      ReadBytesMeans(store, offset, n - 1, a);
      ReadBytesWidth(store, offset, n - 1);
      ConcatByte(last, ReadBytes(store, offset, n - 1), n - 1,
                 ByteAt(store, at + n - 1, a), LittleEndian(store, at, n - 1, a), a);
    }
  }

  lemma ByteWrittenMeans(store: Store, offset: Expr, value: Expr, i: nat, k: nat, a: Assignment)
    requires Eval(offset, a) + i < 0x1_0000_0000
    ensures
      var byteValue := Extract(value, 8 * i, INT8);
      ByteAt(store.(updates := Update(ByteOffset(offset, i), byteValue, store.updates)), k, a) ==
        if Eval(offset, a) + i == k then Digit(Eval(value, a), i) else ByteAt(store, k, a)
  {
    ByteOffsetValue(offset, i, a);
    ExtractByte(value, i, a);
    var index, v := ByteOffset(offset, i), Extract(value, 8 * i, INT8);
    UpdatedByte(store, index, v, Eval(offset, a) + i, Digit(Eval(value, a), i), k, a);
  }

  lemma BoolWrittenMeans(store: Store, offset: Expr, value: Expr, k: nat, a: Assignment)
    requires Eval(offset, a) < 0x1_0000_0000
    ensures ByteAt(store.(updates := Update(ZExt(offset, INT32), ZExt(value, INT8), store.updates)), k, a) ==
      if Eval(offset, a) == k then Digit(Eval(value, a), 0) else ByteAt(store, k, a)
  {
    OffsetValue(offset, a);
    ZExtByte(value, a);
    var index, v := ZExt(offset, INT32), ZExt(value, INT8);
    UpdatedByte(store, index, v, Eval(offset, a), Digit(Eval(value, a), 0), k, a);
  }

  lemma UpdatedByte(store: Store, index: Expr, value: Expr, at: nat, v: byte, k: nat, a: Assignment)
    requires Eval(index, a) == at && Eval(value, a) == v
    ensures ByteAt(store.(updates := Update(index, value, store.updates)), k, a) ==
      if at == k then v else ByteAt(store, k, a)
  {}

  /** A store changes the bytes of the access to those of the value and no others. */
  lemma {:induction false} WriteBytesMeans(store: Store, offset: Expr, value: Expr, n: nat, k: nat, a: Assignment)
    requires Eval(offset, a) + n <= 0x1_0000_0000
    ensures ByteAt(WriteBytes(store, offset, value, n), k, a) ==
      if Eval(offset, a) <= k < Eval(offset, a) + n
      then Digit(Eval(value, a), k - Eval(offset, a))
      else ByteAt(store, k, a)
  {
    if n > 0 {
      WriteBytesMeans(store, offset, value, n - 1, k, a);
      ByteWrittenMeans(WriteBytes(store, offset, value, n - 1), offset, value, n - 1, k, a);
    }
  }

  /** What a read of any width gives: the byte's low bit, or the bytes as one number. */
  lemma ReadExprMeans(store: Store, offset: Expr, width: nat, a: Assignment)
    requires Accessible(width) && Eval(offset, a) + BytesFor(width) <= 0x1_0000_0000
    ensures Eval(ReadExpr(store, offset, width), a) ==
      if width == BOOL then ByteAt(store, Eval(offset, a), a) % 2
      else LittleEndian(store, Eval(offset, a), width / 8, a)
    ensures Width(ReadExpr(store, offset, width)) == width && WellFormed(ReadExpr(store, offset, width))
  {
    Pow2One();
    if width == BOOL {
      OffsetValue(offset, a);
    } else {
      ReadBytesMeans(store, offset, width / 8, a);
      ReadBytesWidth(store, offset, width / 8);
    }
  }

  /** The byte at `k` after a write at concrete offset `at` of the value `v` of the given width. */
  function ByteAfterWrite(store: Store, at: nat, v: nat, width: nat, k: nat, a: Assignment): byte {
    if at <= k < at + BytesFor(width) then
      Digit(v, k - at)
    else
      ByteAt(store, k, a)
  }

  lemma WriteExprMeans(store: Store, offset: Expr, value: Expr, k: nat, a: Assignment)
    requires Accessible(Width(value)) && Eval(offset, a) + BytesFor(Width(value)) <= 0x1_0000_0000
    ensures ByteAt(WriteExpr(store, offset, value), k, a) ==
      ByteAfterWrite(store, Eval(offset, a), Eval(value, a), Width(value), k, a)
  {
    if Width(value) == BOOL {
      BoolWrittenMeans(store, offset, value, k, a);
    } else {
      assert BytesFor(Width(value)) == Width(value) / 8;
      WriteBytesMeans(store, offset, value, Width(value) / 8, k, a);
    }
  }

  /** Bytes that are the base-256 digits of `v` read back as `v`. */
  lemma {:induction false} DigitsRebuild(store: Store, k: nat, n: nat, v: nat, a: Assignment)
    requires forall i | 0 <= i < n :: ByteAt(store, k + i, a) == Digit(v, i)
    ensures LittleEndian(store, k, n, a) == v % Pow2(8 * n)
  {
    if n > 0 {
      DigitsRebuild(store, k, n - 1, v, a);
      Pow2Values();
      Pow2Add(8 * (n - 1), 8);
      DivideTwice(v, Pow2(8 * (n - 1)), 256);
      assert ByteAt(store, k + (n - 1), a) == Digit(v, n - 1);
    } else {
      Pow2One();
    }
  }

  /** Reading back what was just written gives the value written. */
  lemma WriteThenRead(store: Store, offset: Expr, value: Expr, a: Assignment)
    requires Accessible(Width(value)) && WellFormed(value)
    requires Eval(offset, a) + BytesFor(Width(value)) <= 0x1_0000_0000
    ensures Eval(ReadExpr(WriteExpr(store, offset, value), offset, Width(value)), a) == Eval(value, a)
  {
    var store', at, w, v := WriteExpr(store, offset, value), Eval(offset, a), Width(value), Eval(value, a);
    ReadExprMeans(store', offset, w, a);
    forall i | 0 <= i < BytesFor(w) ensures ByteAt(store', at + i, a) == Digit(v, i) {
      WriteExprMeans(store, offset, value, at + i, a);
    }
    if w == BOOL {
      BoolValue(value, a);
      Pow2One();
      assert ByteAt(store', at + 0, a) == Digit(v, 0) == v;
    } else {
      var n := w / 8;
      DigitsRebuild(store', at, n, v, a);
      EvalBound(value, a);
      assert 8 * n == w;
      Small(v, Pow2(w));
    }
  }
}
