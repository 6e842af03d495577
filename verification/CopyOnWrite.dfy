/**
 The ownership discipline of copy-on-write address spaces, as a state machine over
 any number of spaces (klee/lib/Core/AddressSpace.h:36-57, AddressSpace.cpp:22-54).

 A world holds the spaces and the object states they share. `S` names spaces, `O`
 names object states and `C` is what an object state contains. The reference
 semantics is the plain one: every space owns a private copy of every object.
 */
module CopyOnWrite {

  /** An allocation: its identity, base address and size in bytes. */
  datatype MemoryObject = MemoryObject(id: nat, address: nat, size: nat)

  /** `cowKey` is a 32-bit unsigned counter and wraps around. */
  const KEY_LIMIT: nat := 0x1_0000_0000

  datatype Space<O> = Space(key: nat, objects: map<MemoryObject, O>)

  datatype Cell<C> = Cell(owner: nat, readOnly: bool, contents: C)

  datatype World<S, O, C> = World(spaces: map<S, Space<O>>, cells: map<O, Cell<C>>)

  /** `Write` is a `getWriteable` followed by a write through the pointer it returned. */
  datatype Op<S, O, C> =
    | Copy(source: S, child: S)
    | Bind(space: S, mo: MemoryObject, state: O, readOnly: bool, contents: C)
    | Unbind(space: S, mo: MemoryObject)
    | Write(space: S, mo: MemoryObject, spare: O, contents: C)

  // ----- The original's operations -----

  function DoCopy<S(==), O, C>(w: World<S, O, C>, source: S, child: S): World<S, O, C>
    requires source in w.spaces
  {
    var copied := w.spaces[source].(key := (w.spaces[source].key + 1) % KEY_LIMIT);
    w.(spaces := w.spaces[source := copied][child := copied])
  }

  function DoBind<S(==), O(==), C>(w: World<S, O, C>, s: S, mo: MemoryObject, o: O, readOnly: bool, contents: C)
    : World<S, O, C>
    requires s in w.spaces
  {
    World(w.spaces[s := w.spaces[s].(objects := w.spaces[s].objects[mo := o])],
          w.cells[o := Cell(w.spaces[s].key, readOnly, contents)])
  }

  function DoUnbind<S(==), O, C>(w: World<S, O, C>, s: S, mo: MemoryObject): World<S, O, C>
    requires s in w.spaces
  {
    w.(spaces := w.spaces[s := w.spaces[s].(objects := w.spaces[s].objects - {mo})])
  }

  /** The world afterwards and the object state that may be written. */
  function DoGetWriteable<S(==), O(==), C>(w: World<S, O, C>, s: S, mo: MemoryObject, spare: O)
    : (World<S, O, C>, O)
    requires Bound(w, s, mo)
  {
    var space, o := w.spaces[s], w.spaces[s].objects[mo];
    if w.cells[o].owner == space.key then (w, o)
    else
      (World(w.spaces[s := space.(objects := space.objects[mo := spare])],
             w.cells[spare := Cell(space.key, false, w.cells[o].contents)]), spare)
  }

  function DoWrite<S(==), O(==), C>(w: World<S, O, C>, s: S, mo: MemoryObject, spare: O, contents: C): World<S, O, C>
    requires Bound(w, s, mo)
  {
    var (w', o) := DoGetWriteable(w, s, mo, spare);
    SetContents(w', o, contents)
  }

  predicate Bound<S(==), O(==), C>(w: World<S, O, C>, s: S, mo: MemoryObject) {
    s in w.spaces && mo in w.spaces[s].objects && w.spaces[s].objects[mo] in w.cells
  }

  /** The conditions the original asserts, plus freshness of newly allocated names. */
  predicate Enabled<S(==), O(==), C>(w: World<S, O, C>, op: Op<S, O, C>) {
    match op
    case Copy(source, child) => source in w.spaces && child !in w.spaces
    case Bind(s, _, o, _, _) => s in w.spaces && (o in w.cells ==> w.cells[o].owner == 0)
    case Unbind(s, _) => s in w.spaces
    case Write(s, mo, spare, _) =>
      Bound(w, s, mo) && !w.cells[w.spaces[s].objects[mo]].readOnly && spare !in w.cells
  }

  /** No counter wraps in this step. */
  predicate NoWrap<S(==), O, C>(w: World<S, O, C>, op: Op<S, O, C>) {
    op.Copy? && op.source in w.spaces ==> w.spaces[op.source].key + 1 < KEY_LIMIT
  }

  function Step<S(==), O(==), C>(w: World<S, O, C>, op: Op<S, O, C>): World<S, O, C>
    requires Enabled(w, op)
  {
    match op
    case Copy(source, child) => DoCopy(w, source, child)
    case Bind(s, mo, o, readOnly, contents) => DoBind(w, s, mo, o, readOnly, contents)
    case Unbind(s, mo) => DoUnbind(w, s, mo)
    case Write(s, mo, spare, contents) => DoWrite(w, s, mo, spare, contents)
  }

  // ----- The invariant -----

  ghost predicate NoDangling<S, O, C>(w: World<S, O, C>) {
    forall s, mo | s in w.spaces && mo in w.spaces[s].objects :: w.spaces[s].objects[mo] in w.cells
  }

  /**
   Keys are positive 32-bit values and, as AddressSpace.h:51 states, no bound object's owner is later than its
   space's key.
   */
  ghost predicate OwnersBounded<S, O, C>(w: World<S, O, C>)
    requires NoDangling(w)
  {
    && (forall s | s in w.spaces :: 1 <= w.spaces[s].key < KEY_LIMIT)
    && (forall s, mo | s in w.spaces && mo in w.spaces[s].objects ::
          1 <= w.cells[w.spaces[s].objects[mo]].owner <= w.spaces[s].key)
  }

  predicate Owns<S(==), O(==), C>(w: World<S, O, C>, s: S, mo: MemoryObject) {
    Bound(w, s, mo) && w.cells[w.spaces[s].objects[mo]].owner == w.spaces[s].key
  }

  /** The object state bound at `mo` in `s` is bound there and nowhere else. */
  ghost predicate BoundOnlyAt<S, O, C>(w: World<S, O, C>, s: S, mo: MemoryObject)
    requires Bound(w, s, mo)
  {
    forall t, other | t in w.spaces && other in w.spaces[t].objects ::
      w.spaces[t].objects[other] == w.spaces[s].objects[mo] ==> t == s && other == mo
  }

  /** An object state whose owner equals a space's key is bound there once and nowhere else. */
  ghost predicate OwnedIsPrivate<S, O, C>(w: World<S, O, C>) {
    forall s, mo | s in w.spaces && mo in w.spaces[s].objects && Owns(w, s, mo) :: BoundOnlyAt(w, s, mo)
  }

  ghost predicate Isolated<S, O, C>(w: World<S, O, C>) {
    NoDangling(w) && OwnersBounded(w) && OwnedIsPrivate(w)
  }

  // ----- The reference semantics -----

  type DeepWorld<!S, C> = map<S, map<MemoryObject, C>>

  function SpaceView<O(==), C>(objects: map<MemoryObject, O>, cells: map<O, Cell<C>>): map<MemoryObject, C> {
    map mo | mo in objects && objects[mo] in cells :: cells[objects[mo]].contents
  }

  /** What each space sees at each of its objects. */
  function View<S(==), O(==), C>(w: World<S, O, C>): DeepWorld<S, C> {
    map s | s in w.spaces :: SpaceView(w.spaces[s].objects, w.cells)
  }

  /** The same operation on private copies. */
  function DeepStep<S(==), O, C>(v: DeepWorld<S, C>, op: Op<S, O, C>): DeepWorld<S, C> {
    match op
    case Copy(source, child) => if source in v then v[child := v[source]] else v
    case Bind(s, mo, _, _, contents) => if s in v then v[s := v[s][mo := contents]] else v
    case Unbind(s, mo) => if s in v then v[s := v[s] - {mo}] else v
    case Write(s, mo, _, contents) => if s in v then v[s := v[s][mo := contents]] else v
  }

  // ----- One step -----

  lemma GetWriteableIsolates<S, O, C>(w: World<S, O, C>, s: S, mo: MemoryObject, spare: O)
    requires Isolated(w) && Bound(w, s, mo) && (spare !in w.cells || Owns(w, s, mo))
    ensures var (w', o) := DoGetWriteable(w, s, mo, spare);
      Isolated(w') && Owns(w', s, mo) && w'.spaces[s].objects[mo] == o
  {
    var (w', o) := DoGetWriteable(w, s, mo, spare);
    forall t, other | t in w'.spaces && other in w'.spaces[t].objects && Owns(w', t, other)
      ensures BoundOnlyAt(w', t, other)
    {
      if w'.spaces[t].objects[other] != spare {
        assert Owns(w, t, other) && BoundOnlyAt(w, t, other);
      }
    }
  }

  lemma GetWriteableKeepsView<S, O, C>(w: World<S, O, C>, s: S, mo: MemoryObject, spare: O)
    requires NoDangling(w) && Bound(w, s, mo) && (spare !in w.cells || Owns(w, s, mo))
    ensures View(DoGetWriteable(w, s, mo, spare).0) == View(w)
  {
    var w' := DoGetWriteable(w, s, mo, spare).0;
    forall t | t in w.spaces
      ensures SpaceView(w'.spaces[t].objects, w'.cells) == SpaceView(w.spaces[t].objects, w.cells)
    {
      SpaceViewUnchanged(w.spaces[t].objects, w.cells, w'.spaces[t].objects, w'.cells);
    }
    ViewIs(w', View(w));
  }

  /** Only what space `s` sees has changed. */
  lemma ViewUpdated<S, O, C>(w: World<S, O, C>, w': World<S, O, C>, s: S, seen: map<MemoryObject, C>)
    requires w'.spaces.Keys == w.spaces.Keys && s in w.spaces
    requires forall t | t in w.spaces && t != s ::
      SpaceView(w'.spaces[t].objects, w'.cells) == SpaceView(w.spaces[t].objects, w.cells)
    requires SpaceView(w'.spaces[s].objects, w'.cells) == seen
    ensures View(w') == View(w)[s := seen]
  {
    ViewIs(w', View(w)[s := seen]);
  }

  lemma ViewIs<S, O, C>(w: World<S, O, C>, v: DeepWorld<S, C>)
    requires w.spaces.Keys == v.Keys
    requires forall s | s in w.spaces :: SpaceView(w.spaces[s].objects, w.cells) == v[s]
    ensures View(w) == v
  {}

  lemma SpaceViewUnchanged<O, C>(objects: map<MemoryObject, O>, cells: map<O, Cell<C>>,
                                 objects': map<MemoryObject, O>, cells': map<O, Cell<C>>)
    requires objects'.Keys == objects.Keys
    requires forall mo | mo in objects ::
      objects[mo] in cells && objects'[mo] in cells' && cells'[objects'[mo]].contents == cells[objects[mo]].contents
    ensures SpaceView(objects', cells') == SpaceView(objects, cells)
  {}

  /** No object bound in the space has the key that a copy moves on to as its owner. */
  ghost predicate NextKeyUnused<S, O, C>(w: World<S, O, C>, source: S)
    requires NoDangling(w) && source in w.spaces
  {
    forall mo | mo in w.spaces[source].objects ::
      w.cells[w.spaces[source].objects[mo]].owner != (w.spaces[source].key + 1) % KEY_LIMIT
  }

  /** A copy keeps owned object states private if and only if the new key owns nothing that is shared by it. */
  lemma CopyKeepsPrivate<S, O, C>(w: World<S, O, C>, source: S, child: S)
    requires NoDangling(w) && OwnedIsPrivate(w) && source in w.spaces && child !in w.spaces
    ensures OwnedIsPrivate(DoCopy(w, source, child)) <==> NextKeyUnused(w, source)
  {
    var w' := DoCopy(w, source, child);
    if NextKeyUnused(w, source) {
      forall s, mo | s in w'.spaces && mo in w'.spaces[s].objects && Owns(w', s, mo)
        ensures BoundOnlyAt(w', s, mo)
      {
        assert s != source && s != child;
        assert Owns(w, s, mo) && BoundOnlyAt(w, s, mo);
      }
    } else {
      var mo :| mo in w.spaces[source].objects &&
        w.cells[w.spaces[source].objects[mo]].owner == (w.spaces[source].key + 1) % KEY_LIMIT;
      assert Owns(w', source, mo);
      assert w'.spaces[child].objects[mo] == w'.spaces[source].objects[mo];
    }
  }

  /** Without wrap-around the next key is unused, as every owner is at or below the present one. */
  lemma NoWrapSuffices<S, O, C>(w: World<S, O, C>, source: S)
    requires Isolated(w) && source in w.spaces && w.spaces[source].key + 1 < KEY_LIMIT
    ensures NextKeyUnused(w, source)
  {}

  /** With its bounds on keys and owners the invariant holds after a copy if and only if the counter did not wrap. */
  lemma CopyIsolates<S, O, C>(w: World<S, O, C>, source: S, child: S)
    requires Isolated(w) && source in w.spaces && child !in w.spaces
    ensures Isolated(DoCopy(w, source, child)) <==> w.spaces[source].key + 1 < KEY_LIMIT
  {
    hide OwnedIsPrivate;
    var w' := DoCopy(w, source, child);
    CopyKeepsPrivate(w, source, child);
    if w.spaces[source].key + 1 < KEY_LIMIT {
      NoWrapSuffices(w, source);
      assert OwnersBounded(w');
    } else {
      assert w'.spaces[child].key == 0;
    }
  }

  lemma CopyView<S, O, C>(w: World<S, O, C>, source: S, child: S)
    requires source in w.spaces && child !in w.spaces
    ensures View(DoCopy(w, source, child)) == View(w)[child := View(w)[source]]
  {
    ViewIs(DoCopy(w, source, child), View(w)[child := View(w)[source]]);
  }

  lemma SpaceViewWith<O, C>(objects: map<MemoryObject, O>, cells: map<O, Cell<C>>,
                            objects': map<MemoryObject, O>, cells': map<O, Cell<C>>,
                            mo: MemoryObject, contents: C)
    requires objects'.Keys == objects.Keys + {mo}
    requires objects'[mo] in cells' && cells'[objects'[mo]].contents == contents
    requires forall m | m in objects && m != mo ::
      objects[m] in cells && objects'[m] in cells' && cells'[objects'[m]].contents == cells[objects[m]].contents
    ensures SpaceView(objects', cells') == SpaceView(objects, cells)[mo := contents]
  {}

  lemma BindIsolates<S, O, C>(w: World<S, O, C>, s: S, mo: MemoryObject, o: O, readOnly: bool, contents: C)
    requires Isolated(w) && s in w.spaces && (o in w.cells ==> w.cells[o].owner == 0)
    ensures Isolated(DoBind(w, s, mo, o, readOnly, contents))
  {
    var w' := DoBind(w, s, mo, o, readOnly, contents);
    assert OwnersBounded(w');
    forall t, other | t in w'.spaces && other in w'.spaces[t].objects && Owns(w', t, other)
      ensures BoundOnlyAt(w', t, other)
    {
      if w'.spaces[t].objects[other] != o {
        assert Owns(w, t, other) && BoundOnlyAt(w, t, other);
      }
    }
  }

  lemma BindView<S, O, C>(w: World<S, O, C>, s: S, mo: MemoryObject, o: O, readOnly: bool, contents: C)
    requires Isolated(w) && s in w.spaces && (o in w.cells ==> w.cells[o].owner == 0)
    ensures View(DoBind(w, s, mo, o, readOnly, contents)) == View(w)[s := View(w)[s][mo := contents]]
  {
    var w' := DoBind(w, s, mo, o, readOnly, contents);
    forall t | t in w.spaces && t != s
      ensures SpaceView(w'.spaces[t].objects, w'.cells) == SpaceView(w.spaces[t].objects, w.cells)
    {
      SpaceViewUnchanged(w.spaces[t].objects, w.cells, w'.spaces[t].objects, w'.cells);
    }
    SpaceViewWith(w.spaces[s].objects, w.cells, w'.spaces[s].objects, w'.cells, mo, contents);
    ViewUpdated(w, w', s, View(w)[s][mo := contents]);
  }

  lemma UnbindIsolates<S, O, C>(w: World<S, O, C>, s: S, mo: MemoryObject)
    requires Isolated(w) && s in w.spaces
    ensures Isolated(DoUnbind(w, s, mo))
  {
    var w' := DoUnbind(w, s, mo);
    forall t, other | t in w'.spaces && other in w'.spaces[t].objects && Owns(w', t, other)
      ensures BoundOnlyAt(w', t, other)
    {
      assert Owns(w, t, other) && BoundOnlyAt(w, t, other);
    }
  }

  lemma UnbindView<S, O, C>(w: World<S, O, C>, s: S, mo: MemoryObject)
    requires s in w.spaces
    ensures View(DoUnbind(w, s, mo)) == View(w)[s := View(w)[s] - {mo}]
  {
    SpaceViewWithout(w.spaces[s].objects, w.cells, mo);
    ViewUpdated(w, DoUnbind(w, s, mo), s, View(w)[s] - {mo});
  }

  lemma SpaceViewWithout<O, C>(objects: map<MemoryObject, O>, cells: map<O, Cell<C>>, mo: MemoryObject)
    ensures SpaceView(objects - {mo}, cells) == SpaceView(objects, cells) - {mo}
  {}

  /** Isolation survives every step, and the step acts on what the spaces see as on private copies. */
  lemma StepRefines<S, O, C>(w: World<S, O, C>, op: Op<S, O, C>)
    requires Isolated(w) && Enabled(w, op) && NoWrap(w, op)
    ensures Isolated(Step(w, op))
    ensures View(Step(w, op)) == DeepStep(View(w), op)
  {
    match op
    case Copy(source, child) =>
      CopyIsolates(w, source, child);
      CopyView(w, source, child);
    case Bind(s, mo, o, readOnly, contents) =>
      BindIsolates(w, s, mo, o, readOnly, contents);
      BindView(w, s, mo, o, readOnly, contents);
    case Unbind(s, mo) =>
      UnbindIsolates(w, s, mo);
      UnbindView(w, s, mo);
    case Write(s, mo, spare, contents) => WriteRefines(w, s, mo, spare, contents);
  }

  lemma WriteRefines<S, O, C>(w: World<S, O, C>, s: S, mo: MemoryObject, spare: O, contents: C)
    requires Isolated(w) && Bound(w, s, mo) && (spare !in w.cells || Owns(w, s, mo))
    ensures Isolated(DoWrite(w, s, mo, spare, contents))
    ensures View(DoWrite(w, s, mo, spare, contents)) == View(w)[s := View(w)[s][mo := contents]]
  {
    GetWriteableIsolates(w, s, mo, spare);
    GetWriteableKeepsView(w, s, mo, spare);
    var (w', o) := DoGetWriteable(w, s, mo, spare);
    WriteOwned(w', s, mo, contents);
  }

  function SetContents<S, O(==), C>(w: World<S, O, C>, o: O, contents: C): World<S, O, C>
    requires o in w.cells
  {
    w.(cells := w.cells[o := w.cells[o].(contents := contents)])
  }

  /** Writing an object state the space owns changes one object in one space. */
  lemma WriteOwned<S, O, C>(w: World<S, O, C>, s: S, mo: MemoryObject, contents: C)
    requires Isolated(w) && Owns(w, s, mo)
    ensures var w' := SetContents(w, w.spaces[s].objects[mo], contents);
      Isolated(w') && View(w') == View(w)[s := View(w)[s][mo := contents]]
  {
    var o := w.spaces[s].objects[mo];
    var w' := SetContents(w, o, contents);
    assert BoundOnlyAt(w, s, mo);
    assert OwnersBounded(w');
    forall t, other | t in w'.spaces && other in w'.spaces[t].objects && Owns(w', t, other)
      ensures BoundOnlyAt(w', t, other)
    {
      assert Owns(w, t, other) && BoundOnlyAt(w, t, other);
    }
    forall t | t in w.spaces && t != s
      ensures SpaceView(w'.spaces[t].objects, w'.cells) == SpaceView(w.spaces[t].objects, w.cells)
    {
      SpaceViewUnchanged(w.spaces[t].objects, w.cells, w'.spaces[t].objects, w'.cells);
    }
    SpaceViewWith(w.spaces[s].objects, w.cells, w'.spaces[s].objects, w'.cells, mo, contents);
    ViewUpdated(w, w', s, View(w)[s][mo := contents]);
  }

  // ----- Whole runs -----

  ghost predicate Runnable<S, O, C>(w: World<S, O, C>, ops: seq<Op<S, O, C>>)
    decreases |ops|
  {
    ops == [] || (Enabled(w, ops[0]) && NoWrap(w, ops[0]) && Runnable(Step(w, ops[0]), ops[1..]))
  }

  function Run<S(==), O(==), C>(w: World<S, O, C>, ops: seq<Op<S, O, C>>): World<S, O, C>
    decreases |ops|
  {
    if ops == [] || !Enabled(w, ops[0]) then w else Run(Step(w, ops[0]), ops[1..])
  }

  function DeepRun<S(==), O, C>(v: DeepWorld<S, C>, ops: seq<Op<S, O, C>>): DeepWorld<S, C>
    decreases |ops|
  {
    if ops == [] then v else DeepRun(DeepStep(v, ops[0]), ops[1..])
  }

  /** Over any run from any isolated world, sharing is invisible. */
  lemma {:induction false} RunRefinesDeepCopy<S, O, C>(w: World<S, O, C>, ops: seq<Op<S, O, C>>)
    requires Isolated(w) && Runnable(w, ops)
    ensures Isolated(Run(w, ops))
    ensures View(Run(w, ops)) == DeepRun(View(w), ops)
    decreases |ops|
  {
    if ops == [] {
    } else {
      StepRefines(w, ops[0]);
      RunRefinesDeepCopy(Step(w, ops[0]), ops[1..]);
    }
  }

  /** The world of one fresh, empty address space, whose key is one (AddressSpace.h:55). */
  lemma InitiallyIsolated<S, O, C>(s: S)
    ensures var w: World<S, O, C> := World(map[s := Space(1, map[])], map[]); Isolated(w)
  {}

  /** One space at the last key, which shares nothing yet but does not own its object. */
  function LastKey(mo: MemoryObject, before: char): World<nat, nat, char> {
    World(map[0 := Space(KEY_LIMIT - 1, map[mo := 7])], map[7 := Cell(1, false, before)])
  }

  /**
   The copy that wraps the counter keeps objects private; the next one moves on to a key that owns a shared object.
   */
  lemma SecondCopyBreaksPrivacy(mo: MemoryObject, before: char)
    ensures var w := LastKey(mo, before);
      var w1 := DoCopy(w, 0, 1);
      Isolated(w) && OwnedIsPrivate(w1) && !OwnedIsPrivate(DoCopy(w1, 0, 2))
  {
    hide OwnedIsPrivate;
    var w := LastKey(mo, before);
    var w1 := DoCopy(w, 0, 1);
    LastKeyIsolated(mo, before);
    CopyKeepsPrivate(w, 0, 1);
    assert w1.spaces[0] == Space(0, map[mo := 7]) && w1.spaces[1] == Space(0, map[mo := 7]);
    CopyKeepsPrivate(w1, 0, 2);
    assert mo in w1.spaces[0].objects && w1.cells[7].owner == 1;
  }

  lemma LastKeyIsolated(mo: MemoryObject, before: char)
    ensures Isolated(LastKey(mo, before)) && OwnedIsPrivate(LastKey(mo, before))
  {}

  /** A write through that object then shows in the first copy. */
  lemma WrapBreaksIsolation(mo: MemoryObject, before: char, after: char)
    requires before != after
    ensures
      var w := LastKey(mo, before);
      var w2 := DoCopy(DoCopy(w, 0, 1), 0, 2);
      var w' := DoWrite(w2, 0, mo, 8, after);
      && Isolated(w) && !OwnedIsPrivate(w2)
      && 1 in View(w2) && View(w2)[1] == map[mo := before]
      && 1 in View(w') && View(w')[1] == map[mo := after]
  {
    hide OwnedIsPrivate;
    SecondCopyBreaksPrivacy(mo, before);
    var w2 := DoCopy(DoCopy(LastKey(mo, before), 0, 1), 0, 2);
    assert w2.spaces[0] == Space(1, map[mo := 7]) && w2.spaces[1] == Space(0, map[mo := 7]);
    var w' := DoWrite(w2, 0, mo, 8, after);
    assert w'.spaces[1].objects == map[mo := 7] && w'.cells[7].contents == after;
  }
}
