/**
 Address spaces as objects with fields that methods update in place
 (klee/lib/Core/AddressSpace.h:36-57, AddressSpace.cpp:22-54).

 Each method is tied to an operation of the state machine in `CopyOnWrite`, read off
 the heap by `Snapshot`: over every set of spaces that contains this one.
 */
module AddressSpaces {
  import opened CopyOnWrite
  import opened ObjectStates

  class ObjectState {
    var owner: nat  // copyOnWriteOwner
    var readOnly: bool
    var store: Store

    constructor (store: Store)
      ensures owner == 0 && !readOnly && this.store == store
    {
      owner, readOnly, this.store := 0, false, store;
    }
  }

  /** What the heap holds for these spaces and object states. */
  ghost function Snapshot(spaces: set<AddressSpace>, states: set<ObjectState>)
    : World<AddressSpace, ObjectState, Store>
    reads spaces, states
  {
    World(map s | s in spaces :: Space(s.cowKey, s.objects),
          map o | o in states :: Cell(o.owner, o.readOnly, o.store))
  }

  /** What a space sees at each of its objects. */
  type Sight = map<MemoryObject, Store>

  ghost function Sights(spaces: set<AddressSpace>, states: set<ObjectState>): map<AddressSpace, Sight>
    reads spaces, states
  {
    View(Snapshot(spaces, states))
  }

  ghost predicate AllIsolated(spaces: set<AddressSpace>, states: set<ObjectState>)
    reads spaces, states
  {
    Isolated(Snapshot(spaces, states))
  }

  /** The spaces are isolated, and see what they saw before, with `child` seeing what `source` saw. */
  ghost predicate Copied(before: map<AddressSpace, Sight>, source: AddressSpace, child: AddressSpace,
                         spaces: set<AddressSpace>, states: set<ObjectState>)
    reads spaces, states
  {
    && AllIsolated(spaces, states)
    && source in before && Sights(spaces, states) == before[child := before[source]]
  }

  lemma CopyIsCopied(w: World<AddressSpace, ObjectState, Store>, source: AddressSpace, child: AddressSpace,
                     spaces: set<AddressSpace>, states: set<ObjectState>)
    requires Isolated(w) && source in w.spaces && child !in w.spaces && w.spaces[source].key + 1 < KEY_LIMIT
    requires Snapshot(spaces, states) == DoCopy(w, source, child)
    ensures Copied(View(w), source, child, spaces, states)
  {
    hide Isolated, View, Snapshot, DoCopy;
    CopyIsolates(w, source, child);
    CopyView(w, source, child);
    Unfold(spaces, states);
    ViewKeys(w);
  }

  lemma ViewKeys(w: World<AddressSpace, ObjectState, Store>)
    ensures View(w).Keys == w.spaces.Keys
  {}

  /** Copies the space, keeping isolation as long as the counter does not wrap. */
  method CopySpace(source: AddressSpace, ghost spaces: set<AddressSpace>, ghost states: set<ObjectState>)
    returns (child: AddressSpace)
    requires source in spaces
    modifies source`cowKey
    ensures fresh(child) && child.objects == source.objects
    ensures child.cowKey == source.cowKey == (old(source.cowKey) + 1) % KEY_LIMIT
    ensures (old(AllIsolated(spaces, states)) && old(source.cowKey) + 1 < KEY_LIMIT) ==>
              Copied(old(Sights(spaces, states)), source, child, spaces + {child}, states)
  {
    hide Isolated, View, Snapshot, DoCopy, Sights, AllIsolated, Copied;
    ghost var w := Snapshot(spaces, states);
    Unfold(spaces, states);
    SnapshotSpace(spaces, states, source);
    child := new AddressSpace.Copy(source, spaces, states);
    if Isolated(w) && w.spaces[source].key + 1 < KEY_LIMIT {
      CopyIsCopied(w, source, child, spaces + {child}, states);
    }
  }

  lemma SnapshotSpace(spaces: set<AddressSpace>, states: set<ObjectState>, space: AddressSpace)
    requires space in spaces
    ensures var w := Snapshot(spaces, states);
      w.spaces.Keys == spaces && w.spaces[space] == Space(space.cowKey, space.objects)
  {}

  lemma SightKeys(spaces: set<AddressSpace>, states: set<ObjectState>)
    ensures Sights(spaces, states).Keys == spaces
  {}

  lemma SightHas(spaces: set<AddressSpace>, states: set<ObjectState>, space: AddressSpace, mo: MemoryObject)
    requires space in spaces && mo in space.objects && space.objects[mo] in states
    ensures var v := Sights(spaces, states);
      v.Keys == spaces && mo in v[space] && v[space][mo] == space.objects[mo].store
  {}

  class AddressSpace {
    var cowKey: nat
    var objects: map<MemoryObject, ObjectState>

    constructor ()
      ensures cowKey == 1 && objects == map[]
    {
      cowKey, objects := 1, map[];
    }

    /** The copy constructor also moves the source on to the new key. */
    constructor Copy(source: AddressSpace, ghost spaces: set<AddressSpace>, ghost states: set<ObjectState>)
      requires source in spaces
      modifies source`cowKey
      ensures cowKey == source.cowKey == (old(source.cowKey) + 1) % KEY_LIMIT
      ensures objects == source.objects
      ensures Snapshot(spaces + {this}, states) == DoCopy(old(Snapshot(spaces, states)), source, this)
    {
      var key := (source.cowKey + 1) % KEY_LIMIT;
      cowKey, objects := key, source.objects;
      new;
      source.cowKey := key;
    }

    /** False where the original's assertion that the object state has no owner fails. */
    method BindObject(mo: MemoryObject, os: ObjectState, ghost spaces: set<AddressSpace>,
                      ghost states: set<ObjectState>)
      returns (ok: bool)
      requires this in spaces && os in states
      modifies this`objects, os`owner
      ensures ok == (old(os.owner) == 0)
      ensures ok ==> objects == old(objects)[mo := os] && os.owner == cowKey
      ensures ok ==> Snapshot(spaces, states) ==
                     DoBind(old(Snapshot(spaces, states)), this, mo, os, os.readOnly, os.store)
      ensures !ok ==> Snapshot(spaces, states) == old(Snapshot(spaces, states))
    {
      if os.owner != 0 {
        return false;
      }
      os.owner := cowKey;
      objects := objects[mo := os];
      return true;
    }

    method UnbindObject(mo: MemoryObject, ghost spaces: set<AddressSpace>, ghost states: set<ObjectState>)
      requires this in spaces
      modifies this`objects
      ensures objects == old(objects) - {mo}
      ensures Snapshot(spaces, states) == DoUnbind(old(Snapshot(spaces, states)), this, mo)
    {
      objects := objects - {mo};
    }

    /** A state of this space's own to write, copied first when it is shared. */
    method GetWriteable(mo: MemoryObject, os: ObjectState, ghost spaces: set<AddressSpace>,
                        ghost states: set<ObjectState>)
      returns (w: ObjectState)
      requires this in spaces && mo in objects && objects[mo] == os && os in states
      requires !os.readOnly
      modifies this`objects
      ensures w.owner == cowKey && w.store == os.store && !w.readOnly
      ensures objects == old(objects)[mo := w]
      ensures if os.owner == cowKey then w == os else fresh(w)
      ensures (Snapshot(spaces, states + {w}), w) == DoGetWriteable(old(Snapshot(spaces, states)), this, mo, w)
    {
      if cowKey == os.owner {
        w := os;
        assert objects == old(objects)[mo := w];
        assert states + {w} == states;
      } else {
        w := new ObjectState(os.store);
        w.owner := cowKey;
        objects := objects[mo := w];
      }
      ghost var before, after := old(Snapshot(spaces, states)), Snapshot(spaces, states + {w});
      assert after.spaces == before.spaces[this := Space(cowKey, before.spaces[this].objects[mo := w])];
      assert after.cells == before.cells[w := Cell(cowKey, false, before.cells[os].contents)];
    }
  }

  /** Writing through the pointer that `GetWriteable` returned. */
  method WriteThrough(w: ObjectState, store: Store, ghost spaces: set<AddressSpace>, ghost states: set<ObjectState>)
    requires w in states
    modifies w`store
    ensures w.store == store
    ensures Snapshot(spaces, states) == SetContents(old(Snapshot(spaces, states)), w, store)
  {
    w.store := store;
  }

  lemma SnapshotBinds(spaces: set<AddressSpace>, states: set<ObjectState>, space: AddressSpace, mo: MemoryObject)
    requires space in spaces && mo in space.objects && space.objects[mo] in states
    ensures var w := Snapshot(spaces, states);
      && w.cells.Keys == states && Bound(w, space, mo)
      && (Owns(w, space, mo) <==> space.objects[mo].owner == space.cowKey)
  {}

  lemma CellsAre(spaces: set<AddressSpace>, states: set<ObjectState>)
    ensures Snapshot(spaces, states).cells.Keys == states
  {}

  lemma WriteIsolates(w: World<AddressSpace, ObjectState, Store>, w1: World<AddressSpace, ObjectState, Store>,
                      s: AddressSpace, mo: MemoryObject, o: ObjectState, contents: Store)
    requires Isolated(w) && Bound(w, s, mo) && (o !in w.cells || Owns(w, s, mo))
    requires (w1, o) == DoGetWriteable(w, s, mo, o) && o in w1.cells
    ensures Isolated(SetContents(w1, o, contents))
    ensures View(SetContents(w1, o, contents)) == View(w)[s := View(w)[s][mo := contents]]
  {
    hide View, Isolated;
    WriteRefines(w, s, mo, o, contents);
  }

  /** Replaces what the space sees at one object and, where the spaces are isolated, nothing any other space sees. */
  method Replace(space: AddressSpace, mo: MemoryObject, os: ObjectState, store: Store, ghost calm: bool,
                 ghost spaces: set<AddressSpace>, ghost states: set<ObjectState>)
    returns (ghost states': set<ObjectState>)
    requires space in spaces && mo in space.objects && space.objects[mo] == os && os in states && !os.readOnly
    requires calm ==> AllIsolated(spaces, states)
    modifies space`objects, os`store
    ensures states <= states' && fresh(states' - states) && space.objects.Keys == old(space.objects.Keys)
    ensures space.objects[mo].store == store && !space.objects[mo].readOnly
    ensures calm ==> AllIsolated(spaces, states')
    ensures space in old(Sights(spaces, states))
    ensures calm ==> var v := old(Sights(spaces, states)); Sights(spaces, states') == v[space := v[space][mo := store]]
  {
    hide *;
    ghost var w := Snapshot(spaces, states);
    SnapshotBinds(spaces, states, space, mo);
    SightHas(spaces, states, space, mo);
    Unfold(spaces, states);
    var wos := space.GetWriteable(mo, os, spaces, states);
    states' := states + {wos};
    ghost var w1 := Snapshot(spaces, states');
    CellsAre(spaces, states');
    WriteThrough(wos, store, spaces, states');
    if calm {
      WriteIsolates(w, w1, space, mo, wos, store);
    }
    Unfold(spaces, states');
  }

  lemma Unfold(spaces: set<AddressSpace>, states: set<ObjectState>)
    ensures Sights(spaces, states) == View(Snapshot(spaces, states))
    ensures AllIsolated(spaces, states) == Isolated(Snapshot(spaces, states))
  {}
}
