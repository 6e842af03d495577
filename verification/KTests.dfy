/**
 The test case file format (klee/lib/Basic/KTest.cpp:24-63, 71-79, 93-260).

 Memory for what is read is assumed to be there. C strings are their bytes without the
 final zero.
 */
module KTests {
  import opened Options
  import Exprs

  type byte = Exprs.byte
  type Bytes = seq<byte>

  const CURRENT_VERSION: nat := 3
  const LIMIT: nat := 0x1_0000_0000
  const MAGIC: Bytes := [75, 84, 69, 83, 84]        // KTEST
  const BOUT_MAGIC: Bytes := [66, 79, 85, 84, 10]   // BOUT and a newline

  datatype Object = Object(name: Bytes, bytes: Bytes)

  datatype KTest = KTest(version: nat, args: seq<Bytes>, symArgvs: nat, symArgvLen: nat, objects: seq<Object>)
  {
    /** Every number is a 32-bit one. */
    predicate Valid() {
      && |args| < LIMIT && symArgvs < LIMIT && symArgvLen < LIMIT && |objects| < LIMIT
      && (forall a <- args :: |a| < LIMIT)
      && (forall o <- objects :: |o.name| < LIMIT && |o.bytes| < LIMIT)
    }
  }

  // ----- What is written -----

  function Uint32(value: nat): (b: Bytes)
    requires value < LIMIT
    ensures |b| == 4
  {
    [value / 0x100_0000, value / 0x1_0000 % 256, value / 256 % 256, value % 256]
  }

  function Text(s: Bytes): Bytes
    requires |s| < LIMIT
  {
    Uint32(|s|) + s
  }

  function Texts(args: seq<Bytes>): Bytes
    requires forall a <- args :: |a| < LIMIT
  {
    if args == [] then [] else
    assert args[|args| - 1] in args;
    Texts(args[..|args| - 1]) + Text(args[|args| - 1])
  }

  predicate Small(o: Object) {
    |o.name| < LIMIT && |o.bytes| < LIMIT
  }

  /** Objects without bytes are skipped. */
  function ObjectBytes(o: Object): Bytes
    requires Small(o)
  {
    if o.bytes == [] then [] else Text(o.name) + Text(o.bytes)
  }

  function ObjectsBytes(objects: seq<Object>): Bytes
    requires forall o <- objects :: Small(o)
  {
    if objects == [] then [] else
    assert objects[|objects| - 1] in objects;
    ObjectsBytes(objects[..|objects| - 1]) + ObjectBytes(objects[|objects| - 1])
  }

  /** The number of objects counts those that are skipped. */
  function BodyBytes(t: KTest): Bytes
    requires t.Valid()
  {
    Uint32(|t.args|) + (Texts(t.args) +
      (Uint32(t.symArgvs) + (Uint32(t.symArgvLen) + (Uint32(|t.objects|) + ObjectsBytes(t.objects)))))
  }

  /** The file of a test. */
  function FileBytes(t: KTest): Bytes
    requires t.Valid()
  {
    MAGIC + (Uint32(CURRENT_VERSION) + BodyBytes(t))
  }

  /** What can be written: `fwrite` of nothing counts as a failure. */
  predicate Writable(t: KTest) {
    && (forall a <- t.args :: a != [])
    && (forall o <- t.objects :: o.bytes != [] ==> o.name != [])
  }

  // ----- What is read -----

  /** `fread` of one item: nothing is read where too little is left, and an empty item counts as a failure. */
  function Block(data: Bytes, pos: nat, n: nat): Option<(Bytes, nat)> {
    if 0 < n && pos + n <= |data| then Some((data[pos..pos + n], pos + n)) else None
  }

  function Number(b: Bytes): nat
    requires |b| == 4
  {
    (((b[0] as int) * 256 + b[1]) * 256 + b[2]) * 256 + b[3]
  }

  function ReadNumber(data: Bytes, pos: nat): Option<(nat, nat)> {
    match Block(data, pos, 4)
    case None => None
    case Some((b, next)) => Some((Number(b), next))
  }

  function ReadText(data: Bytes, pos: nat): Option<(Bytes, nat)> {
    match ReadNumber(data, pos)
    case None => None
    case Some((n, next)) => Block(data, next, n)
  }

  function ReadTexts(data: Bytes, pos: nat, n: nat): Option<(seq<Bytes>, nat)> {
    if n == 0 then Some(([], pos)) else
    match ReadTexts(data, pos, n - 1)
    case None => None
    case Some((args, next)) =>
      match ReadText(data, next)
      case None => None
      case Some((a, last)) => Some((args + [a], last))
  }

  function ReadObject(data: Bytes, pos: nat): Option<(Object, nat)> {
    match ReadText(data, pos)
    case None => None
    case Some((name, next)) =>
      match ReadText(data, next)
      case None => None
      case Some((bytes, last)) => Some((Object(name, bytes), last))
  }

  function ReadObjects(data: Bytes, pos: nat, n: nat): Option<(seq<Object>, nat)> {
    if n == 0 then Some(([], pos)) else
    match ReadObjects(data, pos, n - 1)
    case None => None
    case Some((objects, next)) =>
      match ReadObject(data, next)
      case None => None
      case Some((o, last)) => Some((objects + [o], last))
  }

  /** Two numbers that older versions do not have. */
  function ReadSymArgs(data: Bytes, pos: nat, version: nat): Option<((nat, nat), nat)> {
    if version < 2 then Some(((0, 0), pos)) else
    match ReadNumber(data, pos)
    case None => None
    case Some((symArgvs, next)) =>
      match ReadNumber(data, next)
      case None => None
      case Some((symArgvLen, last)) => Some(((symArgvs, symArgvLen), last))
  }

  /** Everything after the version. */
  function ReadBody(data: Bytes, pos: nat, version: nat): Option<(KTest, nat)> {
    match ReadNumber(data, pos)
    case None => None
    case Some((numArgs, pos1)) =>
      match ReadTexts(data, pos1, numArgs)
      case None => None
      case Some((args, pos2)) =>
        match ReadSymArgs(data, pos2, version)
        case None => None
        case Some((sym, pos3)) =>
          match ReadNumber(data, pos3)
          case None => None
          case Some((numObjects, pos4)) =>
            match ReadObjects(data, pos4, numObjects)
            case None => None
            case Some((objects, last)) => Some((KTest(version, args, sym.0, sym.1, objects), last))
  }

  function ReadFile(data: Bytes): Option<(KTest, nat)> {
    match Block(data, 0, 5)
    case None => None
    case Some((header, pos)) =>
      if header != MAGIC && header != BOUT_MAGIC then None else
      match ReadNumber(data, pos)
      case None => None
      case Some((version, next)) => if version > CURRENT_VERSION then None else ReadBody(data, next, version)
  }

  // ----- Round trip -----

  predicate Sits(data: Bytes, pos: nat, chunk: Bytes) {
    pos + |chunk| <= |data| && data[pos..pos + |chunk|] == chunk
  }

  lemma SitsSplit(data: Bytes, pos: nat, a: Bytes, b: Bytes)
    requires Sits(data, pos, a + b)
    ensures Sits(data, pos, a) && Sits(data, pos + |a|, b)
  {
    assert data[pos..pos + |a|] == data[pos..pos + |a + b|][..|a|];
    assert data[pos + |a|..pos + |a| + |b|] == data[pos..pos + |a + b|][|a|..];
  }

  /** Four bytes give back the number, and the number the bytes. */
  lemma NumberRoundTrip(value: nat)
    requires value < LIMIT
    ensures Number(Uint32(value)) == value
  {
    var q := value / 256;
    assert value / 0x1_0000 == q / 256 && value / 0x100_0000 == q / 256 / 256;
  }

  /** The value of bytes of which the first weighs most. */
  function Weighed(b: Bytes): nat {
    if b == [] then 0 else b[0] as int * Weight(|b| - 1) + Weighed(b[1..])
  }

  function Weight(n: nat): nat {
    if n == 0 then 1 else 256 * Weight(n - 1)
  }

  /** Numbers are written and read with the most significant byte first. */
  lemma BigEndian(b: Bytes, value: nat)
    requires |b| == 4 && value < LIMIT
    ensures Number(b) == Weighed(b) && Weighed(Uint32(value)) == value
  {
    NumberRoundTrip(value);
    FourWeighed(b);
    FourWeighed(Uint32(value));
  }

  lemma FourWeighed(b: Bytes)
    requires |b| == 4
    ensures Weighed(b) == b[0] as int * 0x100_0000 + b[1] as int * 0x1_0000 + b[2] as int * 256 + b[3]
    ensures Weighed(b) == Number(b)
  {
    assert Weight(0) == 1 && Weight(1) == 256 && Weight(2) == 0x1_0000 && Weight(3) == 0x100_0000;
    var c, d, e := b[1..], b[2..], b[3..];
    assert b[1..] == c && c[1..] == d && d[1..] == e && e[1..] == [];
    assert Weighed(e) == b[3] as int;
    assert Weighed(d) == b[2] as int * 256 + Weighed(e);
    assert Weighed(c) == b[1] as int * 0x1_0000 + Weighed(d);
    assert Weighed(b) == b[0] as int * 0x100_0000 + Weighed(c);
  }

  lemma NumberReads(data: Bytes, pos: nat, value: nat)
    requires value < LIMIT && Sits(data, pos, Uint32(value))
    ensures ReadNumber(data, pos) == Some((value, pos + 4))
  {
    NumberRoundTrip(value);
  }

  lemma TextReads(data: Bytes, pos: nat, s: Bytes)
    requires |s| < LIMIT && Sits(data, pos, Text(s))
    ensures ReadText(data, pos) == if s == [] then None else Some((s, pos + |Text(s)|))
  {
    hide Number, Uint32;
    SitsSplit(data, pos, Uint32(|s|), s);
    NumberReads(data, pos, |s|);
  }

  lemma {:induction false} TextsRead(data: Bytes, pos: nat, args: seq<Bytes>)
    requires forall a <- args :: 0 < |a| < LIMIT
    requires Sits(data, pos, Texts(args))
    ensures ReadTexts(data, pos, |args|) == Some((args, pos + |Texts(args)|))
  {
    hide ReadText, Text, Sits, ReadTexts;
    if args == [] {
      NoTexts(data, pos);
    } else {
      var init, last := args[..|args| - 1], args[|args| - 1];
      assert last in args;
      SitsSplit(data, pos, Texts(init), Text(last));
      TextsRead(data, pos, init);
      TextReads(data, pos + |Texts(init)|, last);
      OneMoreText(data, pos, init, pos + |Texts(init)|, last, pos + |Texts(args)|);
      assert init + [last] == args;
    }
  }

  lemma NoTexts(data: Bytes, pos: nat)
    ensures ReadTexts(data, pos, 0) == Some(([], pos))
  {}

  lemma OneMoreText(data: Bytes, pos: nat, init: seq<Bytes>, next: nat, last: Bytes, end: nat)
    requires ReadTexts(data, pos, |init|) == Some((init, next)) && ReadText(data, next) == Some((last, end))
    ensures ReadTexts(data, pos, |init| + 1) == Some((init + [last], end))
  {}

  lemma ObjectReads(data: Bytes, pos: nat, o: Object)
    requires Small(o) && o.name != [] && o.bytes != [] && Sits(data, pos, ObjectBytes(o))
    ensures ReadObject(data, pos) == Some((o, pos + |ObjectBytes(o)|))
  {
    hide ReadText, Text;
    SitsSplit(data, pos, Text(o.name), Text(o.bytes));
    TextReads(data, pos, o.name);
    TextReads(data, pos + |Text(o.name)|, o.bytes);
  }

  /** The objects that are written. */
  function Kept(objects: seq<Object>): seq<Object> {
    if objects == [] then [] else
    Kept(objects[..|objects| - 1]) + if objects[|objects| - 1].bytes == [] then [] else [objects[|objects| - 1]]
  }

  lemma {:induction false} KeptAll(objects: seq<Object>)
    ensures |Kept(objects)| <= |objects|
    ensures |Kept(objects)| == |objects| <==> forall o <- objects :: o.bytes != []
    ensures (forall o <- objects :: o.bytes != []) ==> Kept(objects) == objects
  {
    hide Kept;
    KeptNone();
    if objects != [] {
      var init, last := objects[..|objects| - 1], objects[|objects| - 1];
      KeptAll(init);
      AllInitLast(objects);
      KeptNext(objects);
      assert objects == init + [last];
    }
  }

  lemma KeptNone()
    ensures Kept([]) == []
  {}

  lemma KeptNext(objects: seq<Object>)
    requires objects != []
    ensures var init, last := objects[..|objects| - 1], objects[|objects| - 1];
      Kept(objects) == if last.bytes == [] then Kept(init) else Kept(init) + [last]
  {}

  lemma AllInitLast(objects: seq<Object>)
    requires objects != []
    ensures (forall o <- objects :: o.bytes != []) <==>
            (forall o <- objects[..|objects| - 1] :: o.bytes != []) && objects[|objects| - 1].bytes != []
  {
    assert forall o :: o in objects <==> o in objects[..|objects| - 1] || o == objects[|objects| - 1] by {
      assert objects == objects[..|objects| - 1] + [objects[|objects| - 1]];
    }
  }

  lemma {:induction false} ObjectsRead(data: Bytes, pos: nat, objects: seq<Object>)
    requires forall o <- objects :: Small(o) && (o.bytes != [] ==> o.name != [])
    requires Sits(data, pos, ObjectsBytes(objects))
    ensures ReadObjects(data, pos, |Kept(objects)|) == Some((Kept(objects), pos + |ObjectsBytes(objects)|))
  {
    hide ReadObject, Sits, ObjectBytes;
    if objects != [] {
      var init, last := objects[..|objects| - 1], objects[|objects| - 1];
      assert last in objects;
      SitsSplit(data, pos, ObjectsBytes(init), ObjectBytes(last));
      ObjectsRead(data, pos, init);
      SkippedBytes(last);
      if last.bytes != [] {
        ObjectReads(data, pos + |ObjectsBytes(init)|, last);
      } else {
        assert Kept(objects) == Kept(init);
      }
    }
  }

  lemma SkippedBytes(o: Object)
    requires Small(o)
    ensures o.bytes == [] ==> ObjectBytes(o) == []
  {}

  /** Nothing is left to read where the file ends. */
  lemma {:induction false} TooMany(data: Bytes, pos: nat, m: nat, n: nat)
    requires m < n && ReadObjects(data, pos, m).Some? && ReadObjects(data, pos, m).value.1 == |data|
    ensures ReadObjects(data, pos, n) == None
  {
    hide ReadObject;
    NothingAtEnd(data);
    if n > m + 1 {
      TooMany(data, pos, m, n - 1);
    }
  }

  lemma NothingAtEnd(data: Bytes)
    ensures ReadObject(data, |data|) == None
  {}

  /** The body in an older version, which from version 2 on holds two numbers more. */
  function VersionedBody(t: KTest, version: nat): Bytes
    requires t.Valid()
  {
    var rest := Uint32(|t.objects|) + ObjectsBytes(t.objects);
    Uint32(|t.args|) + (Texts(t.args) +
      if version < 2 then rest else Uint32(t.symArgvs) + (Uint32(t.symArgvLen) + rest))
  }

  /** What a reader of that version makes of the test. */
  function Versioned(t: KTest, version: nat): KTest {
    if version < 2 then t.(version := version, symArgvs := 0, symArgvLen := 0) else t.(version := version)
  }

  lemma SymArgsRead(data: Bytes, pos: nat, t: KTest, version: nat, rest: Bytes)
    requires t.Valid()
    requires Sits(data, pos, if version < 2 then rest else Uint32(t.symArgvs) + (Uint32(t.symArgvLen) + rest))
    ensures var next := if version < 2 then pos else pos + 8; var v := Versioned(t, version);
      && Sits(data, next, rest) && ReadSymArgs(data, pos, version) == Some(((v.symArgvs, v.symArgvLen), next))
  {
    hide Uint32, Number, Sits;
    if version >= 2 {
      SitsSplit(data, pos, Uint32(t.symArgvs), Uint32(t.symArgvLen) + rest);
      NumberReads(data, pos, t.symArgvs);
      SitsSplit(data, pos + 4, Uint32(t.symArgvLen), rest);
      NumberReads(data, pos + 4, t.symArgvLen);
    }
  }

  lemma VersionedBodyReads(data: Bytes, pos: nat, t: KTest, version: nat)
    requires t.Valid() && Writable(t) && Sits(data, pos, VersionedBody(t, version))
    requires |data| == pos + |VersionedBody(t, version)|
    ensures ReadBody(data, pos, version) ==
      if forall o <- t.objects :: o.bytes != [] then Some((Versioned(t, version), |data|)) else None
  {
    hide Uint32, Number, Texts, ObjectsBytes, ReadTexts, ReadObjects, ReadNumber, ReadSymArgs, Kept, Sits;
    var rest := Uint32(|t.objects|) + ObjectsBytes(t.objects);
    var tail := if version < 2 then rest else Uint32(t.symArgvs) + (Uint32(t.symArgvLen) + rest);
    SitsSplit(data, pos, Uint32(|t.args|), Texts(t.args) + tail);
    NumberReads(data, pos, |t.args|);
    SitsSplit(data, pos + 4, Texts(t.args), tail);
    TextsRead(data, pos + 4, t.args);
    var q := pos + 4 + |Texts(t.args)|;
    SymArgsRead(data, q, t, version, rest);
    var r := if version < 2 then q else q + 8;
    SitsSplit(data, r, Uint32(|t.objects|), ObjectsBytes(t.objects));
    NumberReads(data, r, |t.objects|);
    ObjectsRead(data, r + 4, t.objects);
    KeptAll(t.objects);
    if exists o <- t.objects :: o.bytes == [] {
      TooMany(data, r + 4, |Kept(t.objects)|, |t.objects|);
    }
  }

  /** What the reader makes of a file of any version, under either magic number. */
  lemma VersionedFile(t: KTest, magic: Bytes, version: nat)
    requires t.Valid() && Writable(t) && (magic == MAGIC || magic == BOUT_MAGIC) && version < LIMIT
    ensures var data := magic + (Uint32(version) + VersionedBody(t, version));
      ReadFile(data) ==
      if version <= CURRENT_VERSION && forall o <- t.objects :: o.bytes != []
      then Some((Versioned(t, version), |data|))
      else None
  {
    hide Uint32, Number, VersionedBody, Versioned, ReadNumber, ReadBody, Sits;
    var data := magic + (Uint32(version) + VersionedBody(t, version));
    WholeSits(data);
    SitsSplit(data, 0, magic, Uint32(version) + VersionedBody(t, version));
    SitsBlock(data, 0, magic);
    SitsSplit(data, 5, Uint32(version), VersionedBody(t, version));
    NumberReads(data, 5, version);
    VersionedBodyReads(data, 9, t, version);
  }

  /** A written file starts with the new magic number and version 3. */
  lemma FileHeader(t: KTest)
    requires t.Valid()
    ensures var data := FileBytes(t);
      && |data| >= 9 && (forall i | 0 <= i < 5 :: data[i] as int == "KTEST"[i] as int)
      && data[5..9] == [0, 0, 0, 3]
  {
    hide BodyBytes;
    assert Uint32(3) == [0, 0, 0, 3];
  }

  /** What the reader makes of a written file, byte for byte. */
  lemma WrittenFile(t: KTest)
    requires t.Valid() && Writable(t)
    ensures ReadFile(FileBytes(t)) ==
      if forall o <- t.objects :: o.bytes != []
      then Some((t.(version := CURRENT_VERSION), |FileBytes(t)|))
      else None
  {
    hide Uint32, ReadFile, Texts, ObjectsBytes;
    VersionedFile(t, MAGIC, CURRENT_VERSION);
  }

  lemma WholeSits(data: Bytes)
    ensures Sits(data, 0, data)
  {
    assert data[0..|data|] == data;
  }

  lemma SitsBlock(data: Bytes, pos: nat, chunk: Bytes)
    requires Sits(data, pos, chunk) && chunk != []
    ensures Block(data, pos, |chunk|) == Some((chunk, pos + |chunk|))
  {}

  // ----- Truncation -----

  /** Reading that succeeds on a prefix of the data goes the same on all of it. */
  predicate Stable<T(==)>(short: Option<(T, nat)>, long: Option<(T, nat)>, end: nat) {
    short.Some? ==> long == short && short.value.1 <= end
  }

  lemma BlockStable(data: Bytes, k: nat, pos: nat, n: nat)
    requires k <= |data|
    ensures Stable(Block(data[..k], pos, n), Block(data, pos, n), k)
  {
    if 0 < n && pos + n <= k {
      assert data[..k][pos..pos + n] == data[pos..pos + n];
    }
  }

  lemma NumberStable(data: Bytes, k: nat, pos: nat)
    requires k <= |data|
    ensures Stable(ReadNumber(data[..k], pos), ReadNumber(data, pos), k)
  {
    BlockStable(data, k, pos, 4);
  }

  lemma TextStable(data: Bytes, k: nat, pos: nat)
    requires k <= |data|
    ensures Stable(ReadText(data[..k], pos), ReadText(data, pos), k)
  {
    hide ReadNumber, Block;
    NumberStable(data, k, pos);
    var n := ReadNumber(data[..k], pos);
    if n.Some? {
      BlockStable(data, k, n.value.1, n.value.0);
    }
  }

  lemma {:induction false} TextsStable(data: Bytes, k: nat, pos: nat, n: nat)
    requires pos <= k <= |data|
    ensures Stable(ReadTexts(data[..k], pos, n), ReadTexts(data, pos, n), k)
  {
    hide ReadText;
    if n > 0 {
      TextsStable(data, k, pos, n - 1);
      var init := ReadTexts(data[..k], pos, n - 1);
      if init.Some? {
        TextStable(data, k, init.value.1);
      }
    }
  }

  lemma ObjectStable(data: Bytes, k: nat, pos: nat)
    requires k <= |data|
    ensures Stable(ReadObject(data[..k], pos), ReadObject(data, pos), k)
  {
    hide ReadText;
    TextStable(data, k, pos);
    var name := ReadText(data[..k], pos);
    if name.Some? {
      TextStable(data, k, name.value.1);
    }
  }

  lemma {:induction false} ObjectsStable(data: Bytes, k: nat, pos: nat, n: nat)
    requires pos <= k <= |data|
    ensures Stable(ReadObjects(data[..k], pos, n), ReadObjects(data, pos, n), k)
  {
    hide ReadObject;
    if n > 0 {
      ObjectsStable(data, k, pos, n - 1);
      var init := ReadObjects(data[..k], pos, n - 1);
      if init.Some? {
        ObjectStable(data, k, init.value.1);
      }
    }
  }

  lemma SymArgsStable(data: Bytes, k: nat, pos: nat, version: nat)
    requires pos <= k <= |data|
    ensures Stable(ReadSymArgs(data[..k], pos, version), ReadSymArgs(data, pos, version), k)
  {
    hide ReadNumber;
    if version >= 2 {
      NumberStable(data, k, pos);
      var first := ReadNumber(data[..k], pos);
      if first.Some? {
        NumberStable(data, k, first.value.1);
      }
    }
  }

  lemma BodyStable(data: Bytes, k: nat, pos: nat, version: nat)
    requires k <= |data|
    ensures Stable(ReadBody(data[..k], pos, version), ReadBody(data, pos, version), k)
  {
    hide ReadNumber, ReadTexts, ReadSymArgs, ReadObjects;
    NumberStable(data, k, pos);
    var numArgs := ReadNumber(data[..k], pos);
    if numArgs.Some? {
      TextsStable(data, k, numArgs.value.1, numArgs.value.0);
      var args := ReadTexts(data[..k], numArgs.value.1, numArgs.value.0);
      if args.Some? {
        SymArgsStable(data, k, args.value.1, version);
        var sym := ReadSymArgs(data[..k], args.value.1, version);
        if sym.Some? {
          NumberStable(data, k, sym.value.1);
          var numObjects := ReadNumber(data[..k], sym.value.1);
          if numObjects.Some? {
            ObjectsStable(data, k, numObjects.value.1, numObjects.value.0);
          }
        }
      }
    }
  }

  lemma FileStable(data: Bytes, k: nat)
    requires k <= |data|
    ensures Stable(ReadFile(data[..k]), ReadFile(data), k)
  {
    hide ReadNumber, ReadBody, Block;
    BlockStable(data, k, 0, 5);
    var header := Block(data[..k], 0, 5);
    if header.Some? {
      NumberStable(data, k, header.value.1);
      var version := ReadNumber(data[..k], header.value.1);
      if version.Some? {
        BodyStable(data, k, version.value.1, version.value.0);
      }
    }
  }

  /** No file cut short is taken for a test. */
  lemma TruncatedFails(t: KTest, k: nat)
    requires t.Valid() && Writable(t) && (forall o <- t.objects :: o.bytes != []) && k < |FileBytes(t)|
    ensures ReadFile(FileBytes(t)[..k]) == None
  {
    hide ReadFile, FileBytes;
    WrittenFile(t);
    FileStable(FileBytes(t), k);
  }

  /** A test comes back from its file just when none of its strings and objects is empty. */
  lemma RoundTripExactly(t: KTest)
    requires t.Valid()
    ensures Writable(t) && ReadFile(FileBytes(t)) == Some((t.(version := CURRENT_VERSION), |FileBytes(t)|)) <==>
            (forall a <- t.args :: a != []) && (forall o <- t.objects :: o.name != [] && o.bytes != [])
  {
    hide ReadFile, FileBytes;
    if Writable(t) {
      WrittenFile(t);
    }
  }

  // ----- The file as an object with a position -----

  class File {
    var data: Bytes
    var pos: nat

    constructor (data: Bytes)
      ensures this.data == data && pos == 0
    {
      this.data, pos := data, 0;
    }

    /** `fread` of one item of `n` bytes. */
    method Read(n: nat) returns (r: Option<Bytes>)
      modifies this`pos
      ensures r.Some? <==> Block(data, old(pos), n).Some?
      ensures r.Some? ==> Block(data, old(pos), n) == Some((r.value, pos))
    {
      if n == 0 || pos + n > |data| {
        return None;
      }
      r := Some(data[pos..pos + n]);
      pos := pos + n;
    }

    /** `fwrite` of one item. */
    method Write(chunk: Bytes) returns (ok: bool)
      modifies this`data
      ensures ok == (chunk != []) && data == old(data) + chunk
    {
      data := data + chunk;
      return chunk != [];
    }
  }

  /** The result of a read, and where it left the file. */
  ghost predicate Did<T>(r: Option<T>, f: File, expected: Option<(T, nat)>)
    reads f
  {
    (r.Some? <==> expected.Some?) && (r.Some? ==> expected == Some((r.value, f.pos)))
  }

  method ReadUint32(f: File) returns (r: Option<nat>)
    modifies f`pos
    ensures Did(r, f, ReadNumber(f.data, old(f.pos)))
  {
    var b := f.Read(4);
    if b.None? {
      return None;
    }
    var d := b.value;
    return Some((((d[0] as int) * 256 + d[1]) * 256 + d[2]) * 256 + d[3]);
  }

  method WriteUint32(f: File, value: nat) returns (ok: bool)
    requires value < LIMIT
    modifies f`data
    ensures ok && f.data == old(f.data) + Uint32(value)
  {
    var d: Bytes := [value / 0x100_0000, value / 0x1_0000 % 256, value / 256 % 256, value % 256];
    ok := f.Write(d);
  }

  method ReadString(f: File) returns (r: Option<Bytes>)
    modifies f`pos
    ensures Did(r, f, ReadText(f.data, old(f.pos)))
  {
    hide Number;
    var len := ReadUint32(f);
    if len.None? {
      return None;
    }
    r := f.Read(len.value);
  }

  method WriteString(f: File, value: Bytes) returns (ok: bool)
    requires |value| < LIMIT
    modifies f`data
    ensures ok == (value != []) && f.data == old(f.data) + Text(value)
  {
    hide Uint32;
    ok := WriteUint32(f, |value|);
    if !ok {
      return false;
    }
    ok := f.Write(value);
  }

  method CheckHeader(f: File) returns (ok: bool)
    modifies f`pos
    ensures ok <==> var h := Block(f.data, old(f.pos), 5); h.Some? && (h.value.0 == MAGIC || h.value.0 == BOUT_MAGIC)
    ensures ok ==> f.pos == old(f.pos) + 5
  {
    var header := f.Read(5);
    if header.None? {
      return false;
    }
    return header.value == MAGIC || header.value == BOUT_MAGIC;
  }

  method ReadArgs(f: File, numArgs: nat) returns (r: Option<seq<Bytes>>)
    modifies f`pos
    ensures Did(r, f, ReadTexts(f.data, old(f.pos), numArgs))
  {
    hide ReadText;
    var args: seq<Bytes> := [];
    for i := 0 to numArgs
      invariant ReadTexts(f.data, old(f.pos), i) == Some((args, f.pos))
    {
      var a := ReadString(f);
      if a.None? {
        FailsOn(f.data, old(f.pos), i + 1, numArgs);
        return None;
      }
      args := args + [a.value];
    }
    return Some(args);
  }

  lemma {:induction false} FailsOn(data: Bytes, pos: nat, m: nat, n: nat)
    requires m <= n && ReadTexts(data, pos, m).None?
    ensures ReadTexts(data, pos, n).None?
  {
    if m < n {
      FailsOn(data, pos, m, n - 1);
    }
  }

  method ReadOneObject(f: File) returns (r: Option<Object>)
    modifies f`pos
    ensures Did(r, f, ReadObject(f.data, old(f.pos)))
  {
    hide ReadText, ReadNumber, Block;
    var name := ReadString(f);
    if name.None? {
      return None;
    }
    ghost var middle := f.pos;
    var numBytes := ReadUint32(f);
    TextIs(f.data, middle);
    if numBytes.None? {
      return None;
    }
    var bytes := f.Read(numBytes.value);
    if bytes.None? {
      return None;
    }
    return Some(Object(name.value, bytes.value));
  }

  lemma TextIs(data: Bytes, pos: nat)
    ensures ReadText(data, pos) ==
      match ReadNumber(data, pos) case None => None case Some((n, next)) => Block(data, next, n)
  {}

  method ReadAllObjects(f: File, numObjects: nat) returns (r: Option<seq<Object>>)
    modifies f`pos
    ensures Did(r, f, ReadObjects(f.data, old(f.pos), numObjects))
  {
    hide ReadObject;
    var objects: seq<Object> := [];
    for i := 0 to numObjects
      invariant ReadObjects(f.data, old(f.pos), i) == Some((objects, f.pos))
    {
      var o := ReadOneObject(f);
      if o.None? {
        ObjectsFail(f.data, old(f.pos), i + 1, numObjects);
        return None;
      }
      objects := objects + [o.value];
    }
    return Some(objects);
  }

  lemma {:induction false} ObjectsFail(data: Bytes, pos: nat, m: nat, n: nat)
    requires m <= n && ReadObjects(data, pos, m).None?
    ensures ReadObjects(data, pos, n).None?
  {
    if m < n {
      ObjectsFail(data, pos, m, n - 1);
    }
  }

  method ReadRest(f: File, version: nat) returns (r: Option<KTest>)
    modifies f`pos
    ensures Did(r, f, ReadBody(f.data, old(f.pos), version))
  {
    hide ReadNumber, ReadTexts, ReadObjects;
    var numArgs := ReadUint32(f);
    if numArgs.None? {
      return None;
    }
    var args := ReadArgs(f, numArgs.value);
    if args.None? {
      return None;
    }
    var symArgvs, symArgvLen := 0, 0;
    if version >= 2 {
      var first := ReadUint32(f);
      if first.None? {
        return None;
      }
      var second := ReadUint32(f);
      if second.None? {
        return None;
      }
      symArgvs, symArgvLen := first.value, second.value;
    }
    var numObjects := ReadUint32(f);
    if numObjects.None? {
      return None;
    }
    var objects := ReadAllObjects(f, numObjects.value);
    if objects.None? {
      return None;
    }
    return Some(KTest(version, args.value, symArgvs, symArgvLen, objects.value));
  }

  method FromFile(f: File) returns (r: Option<KTest>)
    requires f.pos == 0
    modifies f`pos
    ensures Did(r, f, ReadFile(f.data))
  {
    hide ReadNumber, ReadBody;
    var ok := CheckHeader(f);
    if !ok {
      return None;
    }
    var version := ReadUint32(f);
    if version.None? || version.value > CURRENT_VERSION {
      return None;
    }
    r := ReadRest(f, version.value);
  }

  method WriteArgs(f: File, args: seq<Bytes>) returns (ok: bool)
    requires forall a <- args :: |a| < LIMIT
    modifies f`data
    ensures ok <==> forall a <- args :: a != []
    ensures ok ==> f.data == old(f.data) + Texts(args)
  {
    hide Text;
    assert f.data == f.data + [];
    for i := 0 to |args|
      invariant forall k | 0 <= k < i :: args[k] != []
      invariant f.data == old(f.data) + Texts(args[..i])
    {
      assert args[i] in args && args[..i + 1][..i] == args[..i];
      ok := WriteString(f, args[i]);
      if !ok {
        return false;
      }
    }
    assert args[..|args|] == args;
    return true;
  }

  method WriteOneObject(f: File, o: Object) returns (ok: bool)
    requires Small(o) && o.bytes != []
    modifies f`data
    ensures ok == (o.name != []) && (ok ==> f.data == old(f.data) + ObjectBytes(o))
  {
    hide Text, Uint32;
    ok := WriteString(f, o.name);
    if !ok {
      return false;
    }
    TextBytes(o.bytes);
    ok := WriteUint32(f, |o.bytes|);
    ok := f.Write(o.bytes);
  }

  method WriteObjects(f: File, objects: seq<Object>) returns (ok: bool)
    requires forall o <- objects :: Small(o)
    modifies f`data
    ensures ok <==> forall o <- objects :: o.bytes != [] ==> o.name != []
    ensures ok ==> f.data == old(f.data) + ObjectsBytes(objects)
  {
    hide ObjectBytes;
    assert f.data == f.data + [];
    for i := 0 to |objects|
      invariant forall k | 0 <= k < i :: objects[k].bytes != [] ==> objects[k].name != []
      invariant f.data == old(f.data) + ObjectsBytes(objects[..i])
    {
      var o := objects[i];
      assert o in objects && objects[..i + 1][..i] == objects[..i];
      if |o.bytes| == 0 {
        SkippedBytes(o);
        continue;
      }
      ok := WriteOneObject(f, o);
      if !ok {
        return false;
      }
    }
    assert objects[..|objects|] == objects;
    return true;
  }

  lemma TextBytes(s: Bytes)
    requires |s| < LIMIT
    ensures Text(s) == Uint32(|s|) + s
  {}

  method ToFile(t: KTest, f: File) returns (ok: bool)
    requires t.Valid() && f.data == []
    modifies f`data
    ensures ok <==> Writable(t)
    ensures ok ==> f.data == FileBytes(t)
  {
    hide Uint32, Texts, ObjectsBytes;
    ok := f.Write(MAGIC);
    ok := WriteUint32(f, CURRENT_VERSION);
    ok := WriteUint32(f, |t.args|);
    ok := WriteArgs(f, t.args);
    if !ok {
      return false;
    }
    ok := WriteUint32(f, t.symArgvs);
    ok := WriteUint32(f, t.symArgvLen);
    ok := WriteUint32(f, |t.objects|);
    ok := WriteObjects(f, t.objects);
  }
}
