/**
 The tree of call paths and its summary (klee/lib/Core/CallPathManager.cpp:47-103).

 The tree is first a sequence of entries, each naming an earlier one as its parent; the
 objects of the original are tied to it. A statistics record is one counter.
 */
module CallPaths {
  import opened Options
  import opened Sequences

  /** A call site and the function called. The root has neither. */
  datatype Key = Key(callSite: nat, function_: nat)

  const ROOT_KEY := Key(0, 0)

  datatype Entry = Entry(parent: nat, key: Key)

  type Trie = seq<Entry>

  const JUST_ROOT: Trie := [Entry(0, ROOT_KEY)]

  /** Parents come before their children. */
  predicate Grown(t: Trie) {
    |t| > 0 && t[0].key == ROOT_KEY && forall i | 0 < i < |t| :: t[i].parent < i
  }

  /** The keys from the root down to the node. */
  function Chain(t: Trie, i: nat): seq<Key>
    requires Grown(t) && i < |t|
  {
    if i == 0 then [ROOT_KEY] else Chain(t, t[i].parent) + [t[i].key]
  }

  /** The nearest node with the key on the way up. */
  function Walk(t: Trie, i: nat, key: Key): (r: Option<nat>)
    requires Grown(t) && i < |t|
    ensures r.Some? ==> r.value <= i
  {
    if t[i].key == key then Some(i) else if i == 0 then None else Walk(t, t[i].parent, key)
  }

  function ChildBelow(t: Trie, i: nat, key: Key, n: nat): (r: Option<nat>)
    requires n <= |t|
    ensures r.Some? ==> 0 < r.value < n && t[r.value] == Entry(i, key)
    ensures r.None? ==> forall c | 0 < c < n :: t[c] != Entry(i, key)
  {
    if n <= 1 then None else if t[n - 1] == Entry(i, key) then Some(n - 1) else ChildBelow(t, i, key, n - 1)
  }

  /** Where a call from node `i` leads: back up to the same call, or to the child, made if there is none. */
  function Reach(t: Trie, i: nat, key: Key): (Trie, nat)
    requires Grown(t) && i < |t|
  {
    match Walk(t, i, key)
    case Some(a) => (t, a)
    case None =>
      match ChildBelow(t, i, key, |t|)
      case Some(c) => (t, c)
      case None => (t + [Entry(i, key)], |t|)
  }

  // ----- What the tree keeps -----

  /** No call appears twice on a path, and no node has two children for the same call. */
  ghost predicate Sound(t: Trie) {
    && Grown(t)
    && (forall i | 0 <= i < |t| :: NoDuplicates(Chain(t, i)))
    && (forall i, j | 0 < i < j < |t| :: t[i] != t[j])
  }

  /** The chain cut back to an earlier occurrence of the key, or else extended by it. */
  function Cut(chain: seq<Key>, key: Key): (r: seq<Key>)
    ensures r != [] && r[|r| - 1] == key
  {
    if key in chain then
      if chain[|chain| - 1] == key then chain else Cut(chain[..|chain| - 1], key)
    else
      chain + [key]
  }

  function CutAll(chain: seq<Key>, stack: seq<Key>): seq<Key> {
    if stack == [] then chain else Cut(CutAll(chain, stack[..|stack| - 1]), stack[|stack| - 1])
  }

  lemma {:induction false} ChainStable(t: Trie, more: Trie, i: nat)
    requires Grown(t) && Grown(t + more) && i < |t|
    ensures Chain(t + more, i) == Chain(t, i)
    decreases i
  {
    if i > 0 {
      ChainStable(t, more, t[i].parent);
    }
  }

  lemma {:induction false} WalkStable(t: Trie, more: Trie, i: nat, key: Key)
    requires Grown(t) && Grown(t + more) && i < |t|
    ensures Walk(t + more, i, key) == Walk(t, i, key)
    decreases i
  {
    if i > 0 {
      WalkStable(t, more, t[i].parent, key);
    }
  }

  /** The walk finds a node just when the key is on the chain, and its chain is the cut one. */
  lemma {:induction false} WalkCuts(t: Trie, i: nat, key: Key)
    requires Grown(t) && i < |t|
    ensures Walk(t, i, key).Some? <==> key in Chain(t, i)
    ensures Walk(t, i, key).Some? ==> Chain(t, Walk(t, i, key).value) == Cut(Chain(t, i), key)
    decreases i
  {
    var chain := Chain(t, i);
    assert chain[|chain| - 1] == t[i].key;
    if t[i].key != key && i > 0 {
      WalkCuts(t, t[i].parent, key);
      assert chain[..|chain| - 1] == Chain(t, t[i].parent);
      assert key in chain <==> key in chain[..|chain| - 1];
    }
  }

  lemma AppendSound(t: Trie, i: nat, key: Key)
    requires Sound(t) && i < |t| && key !in Chain(t, i)
    requires forall c | 0 < c < |t| :: t[c] != Entry(i, key)
    ensures Sound(t + [Entry(i, key)])
    ensures Chain(t + [Entry(i, key)], |t|) == Chain(t, i) + [key]
  {
    var t' := t + [Entry(i, key)];
    forall j | 0 <= j < |t| ensures Chain(t', j) == Chain(t, j) {
      ChainStable(t, [Entry(i, key)], j);
    }
    forall j | 0 <= j < |t'| ensures NoDuplicates(Chain(t', j)) {
      if j < |t| {
        assert NoDuplicates(Chain(t, j));
      } else {
        assert NoDuplicates(Chain(t, i));
      }
    }
  }

  lemma {:induction false} ChildStable(t: Trie, e: Entry, i: nat, key: Key, n: nat)
    requires n <= |t|
    ensures ChildBelow(t + [e], i, key, n) == ChildBelow(t, i, key, n)
  {
    if n > 1 {
      ChildStable(t, e, i, key, n - 1);
    }
  }

  /** A call that leads to a node still leads there when another entry has been added. */
  lemma ReachStable(t: Trie, e: Entry, i: nat, key: Key, c: nat)
    requires Grown(t) && Grown(t + [e]) && i < |t| && Reach(t, i, key) == (t, c) && e != Entry(i, key)
    ensures Reach(t + [e], i, key) == (t + [e], c)
  {
    WalkStable(t, [e], i, key);
    ChildStable(t, e, i, key, |t|);
  }

  /** A call with no node yet leads to the one added for it. */
  lemma ReachAdded(t: Trie, i: nat, key: Key)
    requires Grown(t) && i < |t| && Walk(t, i, key).None?
    ensures Reach(t + [Entry(i, key)], i, key) == (t + [Entry(i, key)], |t|)
  {
    WalkStable(t, [Entry(i, key)], i, key);
  }

  /** One call: the tree stays sound, what was there stays, and the node reached is the cut chain's. */
  lemma ReachCuts(t: Trie, i: nat, key: Key)
    requires Sound(t) && i < |t|
    ensures var (t', r) := Reach(t, i, key);
      Sound(t') && t <= t' && |t'| <= |t| + 1 && r < |t'| && Chain(t', r) == Cut(Chain(t, i), key)
  {
    WalkCuts(t, i, key);
    if Walk(t, i, key).None? {
      var child := ChildBelow(t, i, key, |t|);
      if child.None? {
        AppendSound(t, i, key);
      }
    }
  }

  lemma JustRootSound()
    ensures Sound(JUST_ROOT)
  {}

  // ----- The cache of children -----

  type Cache = seq<map<Key, int>>

  /** What is cached is where the call leads, and every node is cached at its parent. */
  ghost predicate CacheSound(t: Trie, kids: Cache)
    requires Grown(t)
  {
    && |kids| == |t|
    && (forall i, key | 0 <= i < |t| && key in kids[i] :: Reach(t, i, key) == (t, kids[i][key]))
    && (forall c | 0 < c < |t| :: t[c].key in kids[t[c].parent] && kids[t[c].parent][t[c].key] == c)
  }

  /** After a call that was not cached. */
  function Recached(t: Trie, kids: Cache, i: nat, key: Key): (Trie, Cache)
    requires Grown(t) && |kids| == |t| && i < |t|
  {
    match Walk(t, i, key)
    case Some(a) => (t, kids[i := kids[i][key := a]])
    case None => (t + [Entry(i, key)], kids[i := kids[i][key := |t|]] + [map[]])
  }

  /** Looking only at the cache before walking up gives what walking up and looking among all children would. */
  lemma CacheGrows(t: Trie, kids: Cache, i: nat, key: Key)
    requires Sound(t) && CacheSound(t, kids) && |kids| == |t| && i < |t| && key !in kids[i]
    ensures var (t', kids') := Recached(t, kids, i, key);
      t' == Reach(t, i, key).0 && Sound(t') && CacheSound(t', kids') && Reach(t, i, key).1 == kids'[i][key]
  {
    hide Walk, ChildBelow, CacheSound;
    ReachCuts(t, i, key);
    if Walk(t, i, key).None? {
      NoSuchChild(t, kids, i, key);
      NodeAdded(t, kids, i, key);
    } else {
      WalkCached(t, kids, i, key);
    }
  }

  lemma WalkCached(t: Trie, kids: Cache, i: nat, key: Key)
    requires Sound(t) && CacheSound(t, kids) && i < |t| && key !in kids[i] && Walk(t, i, key).Some?
    ensures CacheSound(t, kids[i := kids[i][key := Walk(t, i, key).value]])
  {
    hide Walk, ChildBelow;
  }

  lemma NodeAdded(t: Trie, kids: Cache, i: nat, key: Key)
    requires Sound(t) && CacheSound(t, kids) && i < |t| && key !in kids[i] && Walk(t, i, key).None?
    requires Grown(t + [Entry(i, key)])
    ensures CacheSound(t + [Entry(i, key)], kids[i := kids[i][key := |t|]] + [map[]])
  {
    hide Walk, ChildBelow, Reach;
    var e, kids' := Entry(i, key), kids[i := kids[i][key := |t|]] + [map[]];
    var t' := t + [e];
    ReachAdded(t, i, key);
    forall j, k | 0 <= j < |t'| && k in kids'[j] ensures Reach(t', j, k) == (t', kids'[j][k]) {
      if j != i || k != key {
        ReachStable(t, e, j, k, kids[j][k]);
      }
    }
  }

  lemma NoSuchChild(t: Trie, kids: Cache, i: nat, key: Key)
    requires Grown(t) && CacheSound(t, kids) && i < |t| && key !in kids[i]
    ensures ChildBelow(t, i, key, |t|).None?
  {}

  // ----- Whole runs -----

  datatype Call = Call(from: nat, key: Key)

  /** The tree after calls from nodes it already had when each was made. */
  function AfterCalls(t: Trie, calls: seq<Call>): (t': Trie)
    requires Grown(t)
    ensures Grown(t')
  {
    if calls == [] then t else
    var before := AfterCalls(t, calls[..|calls| - 1]);
    var call := calls[|calls| - 1];
    if call.from < |before| then Reach(before, call.from, call.key).0 else before
  }

  lemma {:induction false} AlwaysSound(t: Trie, calls: seq<Call>)
    requires Sound(t)
    ensures Sound(AfterCalls(t, calls)) && t <= AfterCalls(t, calls)
  {
    if calls != [] {
      AlwaysSound(t, calls[..|calls| - 1]);
      var before, call := AfterCalls(t, calls[..|calls| - 1]), calls[|calls| - 1];
      if call.from < |before| {
        ReachCuts(before, call.from, call.key);
      }
    }
  }

  /** Pushing the frames of a call stack one after the other, from node `i`. */
  function Push(t: Trie, i: nat, stack: seq<Key>): (r: (Trie, nat))
    requires Grown(t) && i < |t|
    ensures Grown(r.0) && r.1 < |r.0|
  {
    if stack == [] then (t, i) else
    var (before, top) := Push(t, i, stack[..|stack| - 1]);
    Reach(before, top, stack[|stack| - 1])
  }

  /** The node a call stack leads to is the stack with every recursion cut out, whatever the tree held before. */
  lemma {:induction false} PushCuts(t: Trie, i: nat, stack: seq<Key>)
    requires Sound(t) && i < |t|
    ensures var (t', r) := Push(t, i, stack);
      Sound(t') && t <= t' && Chain(t', r) == CutAll(Chain(t, i), stack)
  {
    if stack != [] {
      PushCuts(t, i, stack[..|stack| - 1]);
      var (before, top) := Push(t, i, stack[..|stack| - 1]);
      ReachCuts(before, top, stack[|stack| - 1]);
    }
  }

  /** One node per reduced stack: nodes with the same chain are the same node. */
  lemma {:induction false} ChainInjective(t: Trie, i: nat, j: nat)
    requires Sound(t) && i < |t| && j < |t| && Chain(t, i) == Chain(t, j)
    ensures i == j
    decreases i
  {
    var ci, cj := Chain(t, i), Chain(t, j);
    if i > 0 && j > 0 {
      assert ci[..|ci| - 1] == Chain(t, t[i].parent) && cj[..|cj| - 1] == Chain(t, t[j].parent);
      assert ci[|ci| - 1] == t[i].key && cj[|cj| - 1] == t[j].key;
      ChainInjective(t, t[i].parent, t[j].parent);
    } else if i == 0 && j > 0 {
      ChainLonger(t, t[j].parent);
    } else if j == 0 && i > 0 {
      ChainLonger(t, t[i].parent);
    }
  }

  lemma ChainLonger(t: Trie, i: nat)
    requires Grown(t) && i < |t|
    ensures |Chain(t, i)| >= 1
  {}

  lemma {:induction false} DistinctAtMost(keys: seq<Key>, all: set<Key>)
    requires NoDuplicates(keys) && forall k <- keys :: k in all
    ensures |keys| <= |all|
  {
    if keys != [] {
      var last := keys[|keys| - 1];
      assert last in all;
      forall k | k in keys[..|keys| - 1] ensures k in all - {last} {
        assert k in keys;
      }
      DistinctAtMost(keys[..|keys| - 1], all - {last});
    }
  }

  /** Depth is bounded by the number of distinct calls, however deep the recursion. */
  lemma DepthBounded(t: Trie, i: nat, all: set<Key>)
    requires Sound(t) && i < |t| && forall j | 0 <= j < |t| :: t[j].key in all
    ensures |Chain(t, i)| <= |all|
  {
    ChainKeys(t, i, all);
    DistinctAtMost(Chain(t, i), all);
  }

  lemma {:induction false} ChainKeys(t: Trie, i: nat, all: set<Key>)
    requires Grown(t) && i < |t| && forall j | 0 <= j < |t| :: t[j].key in all
    ensures forall k <- Chain(t, i) :: k in all
    decreases i
  {
    if i > 0 {
      ChainKeys(t, t[i].parent, all);
    }
  }

  // ----- Sums -----

  function Sum(f: nat -> int, n: nat): int {
    if n == 0 then 0 else Sum(f, n - 1) + f(n - 1)
  }

  lemma {:induction false} SumEqual(f: nat -> int, g: nat -> int, n: nat)
    requires forall i: nat | i < n :: f(i) == g(i)
    ensures Sum(f, n) == Sum(g, n)
  {
    if n > 0 {
      SumEqual(f, g, n - 1);
    }
  }

  lemma {:induction false} SumAdds(f: nat -> int, g: nat -> int, h: nat -> int, n: nat)
    requires forall i: nat | i < n :: h(i) == f(i) + g(i)
    ensures Sum(h, n) == Sum(f, n) + Sum(g, n)
  {
    if n > 0 {
      SumAdds(f, g, h, n - 1);
    }
  }

  /** A sum with one term. */
  lemma {:induction false} SumSingle(f: nat -> int, n: nat, k: nat)
    requires forall i: nat | i < n && i != k :: f(i) == 0
    ensures Sum(f, n) == if k < n then f(k) else 0
  {
    if n > 0 {
      SumSingle(f, n - 1, k);
    }
  }

  lemma {:induction false} SumScales(f: nat -> int, g: nat -> int, w: int, n: nat)
    requires forall i: nat | i < n :: g(i) == w * f(i)
    ensures Sum(g, n) == w * Sum(f, n)
  {
    if n > 0 {
      SumScales(f, g, w, n - 1);
    }
  }

  function Row(f: (nat, nat) -> int, i: nat): nat -> int {
    (j: nat) => f(i, j)
  }

  function Column(f: (nat, nat) -> int, j: nat): nat -> int {
    (i: nat) => f(i, j)
  }

  function ColumnSums(f: (nat, nat) -> int, m: nat): nat -> int {
    (j: nat) => Sum(Column(f, j), m)
  }

  function Only(k: nat, v: int): nat -> int {
    (i: nat) => if i == k then v else 0
  }

  function ByRows(f: (nat, nat) -> int, m: nat, n: nat): int {
    if m == 0 then 0 else ByRows(f, m - 1, n) + Sum(Row(f, m - 1), n)
  }

  /** Adding up a table by rows or by columns. */
  lemma {:induction false} SumSwaps(f: (nat, nat) -> int, m: nat, n: nat)
    ensures ByRows(f, m, n) == Sum(ColumnSums(f, m), n)
  {
    if m == 0 {
      SumSingle(ColumnSums(f, 0), n, n);
    } else {
      SumSwaps(f, m - 1, n);
      SumAdds(ColumnSums(f, m - 1), Row(f, m - 1), ColumnSums(f, m), n);
    }
  }

  // ----- What the summary is -----

  /** `i` is `j` or an ancestor of it. */
  predicate Above(t: Trie, i: nat, j: nat)
    requires Grown(t) && j < |t|
  {
    j == i || (j > 0 && Above(t, i, t[j].parent))
  }

  predicate ChildOf(t: Trie, c: nat, i: nat) {
    0 < c < |t| && t[c].parent == i
  }

  /** What node `j` adds to node `i`. */
  function Share(t: Trie, statistics: seq<nat>, i: nat, j: nat): int
    requires Grown(t) && |statistics| == |t|
  {
    if j < |t| && Above(t, i, j) then statistics[j] else 0
  }

  function Shares(t: Trie, statistics: seq<nat>, i: nat): nat -> int
    requires Grown(t) && |statistics| == |t|
  {
    (j: nat) => Share(t, statistics, i, j)
  }

  /** The statistics of a node and all its descendants. */
  function Total(t: Trie, statistics: seq<nat>, i: nat): int
    requires Grown(t) && |statistics| == |t|
  {
    Sum(Shares(t, statistics, i), |t|)
  }

  /** What the pass hands from child `c` to node `i`. */
  function Handed(t: Trie, statistics: seq<nat>, i: nat, c: nat): int
    requires Grown(t) && |statistics| == |t|
  {
    if ChildOf(t, c, i) then Total(t, statistics, c) else 0
  }

  function HandedTo(t: Trie, statistics: seq<nat>, i: nat): nat -> int
    requires Grown(t) && |statistics| == |t|
  {
    (c: nat) => Handed(t, statistics, i, c)
  }

  lemma {:induction false} AboveIsEarlier(t: Trie, i: nat, j: nat)
    requires Grown(t) && j < |t| && Above(t, i, j)
    ensures i <= j
    decreases j
  {
    if j != i {
      AboveIsEarlier(t, i, t[j].parent);
    }
  }

  /** Whether the way down from `i` to `j` goes through child `c`, as a number. */
  function Through(t: Trie, i: nat, c: nat, j: nat): int
    requires Grown(t)
  {
    if j < |t| && ChildOf(t, c, i) && Above(t, c, j) then 1 else 0
  }

  function Throughs(t: Trie, i: nat, j: nat): nat -> int
    requires Grown(t)
  {
    (c: nat) => Through(t, i, c, j)
  }

  /** The way down from a node to a proper descendant goes through exactly one child. */
  lemma {:induction false} ThroughOne(t: Trie, i: nat, j: nat)
    requires Grown(t) && j < |t|
    ensures Sum(Throughs(t, i, j), |t|) == if j != i && Above(t, i, j) then 1 else 0
    decreases j
  {
    forall c: nat | ChildOf(t, c, i) && Above(t, c, j) ensures i < c <= j {
      AboveIsEarlier(t, c, j);
    }
    if j == 0 || j == i {
      SumSingle(Throughs(t, i, j), |t|, |t|);
    } else if t[j].parent == i {
      forall c: nat | c < |t| && c != j ensures Through(t, i, c, j) == 0 {
        if ChildOf(t, c, i) && Above(t, c, i) {
          AboveIsEarlier(t, c, i);
        }
      }
      SumSingle(Throughs(t, i, j), |t|, j);
    } else {
      ThroughOne(t, i, t[j].parent);
      SumEqual(Throughs(t, i, j), Throughs(t, i, t[j].parent), |t|);
    }
  }

  /** A node's total is its own statistics and its children's totals. */
  lemma TotalUnfolds(t: Trie, statistics: seq<nat>, i: nat)
    requires Grown(t) && |statistics| == |t| && i < |t|
    ensures Total(t, statistics, i) == statistics[i] + Sum(HandedTo(t, statistics, i), |t|)
  {
    hide Sum, Above, Share;
    var n := |t|;
    var table := (c: nat, j: nat) => if ChildOf(t, c, i) then Share(t, statistics, c, j) else 0;
    RowsHanded(t, statistics, i, table, n);
    SumSwaps(table, n, n);
    forall j: nat | j < n
      ensures Share(t, statistics, i, j) == (if j == i then statistics[i] else 0) + Sum(Column(table, j), n)
    {
      ColumnShared(t, statistics, i, table, j);
    }
    SumAdds(Only(i, statistics[i]), ColumnSums(table, n), Shares(t, statistics, i), n);
    SumSingle(Only(i, statistics[i]), n, i);
  }

  lemma {:induction false} RowsHanded(t: Trie, statistics: seq<nat>, i: nat, table: (nat, nat) -> int, m: nat)
    requires Grown(t) && |statistics| == |t|
    requires forall c: nat, j: nat :: table(c, j) == if ChildOf(t, c, i) then Share(t, statistics, c, j) else 0
    ensures ByRows(table, m, |t|) == Sum(HandedTo(t, statistics, i), m)
  {
    if m > 0 {
      RowsHanded(t, statistics, i, table, m - 1);
      if ChildOf(t, m - 1, i) {
        SumEqual(Row(table, m - 1), Shares(t, statistics, m - 1), |t|);
      } else {
        SumSingle(Row(table, m - 1), |t|, |t|);
      }
    }
  }

  lemma ColumnShared(t: Trie, statistics: seq<nat>, i: nat, table: (nat, nat) -> int, j: nat)
    requires Grown(t) && |statistics| == |t| && i < |t| && j < |t|
    requires forall c: nat, j: nat :: table(c, j) == if ChildOf(t, c, i) then Share(t, statistics, c, j) else 0
    ensures Share(t, statistics, i, j) == (if j == i then statistics[i] else 0) + Sum(Column(table, j), |t|)
  {
    ThroughOne(t, i, j);
    SumScales(Throughs(t, i, j), Column(table, j), statistics[j], |t|);
  }

  predicate IsCall(t: Trie, key: Key, i: nat) {
    0 < i < |t| && t[i].key == key
  }

  /** Node `j` is a call with the key, or is below one. */
  predicate Within(t: Trie, key: Key, j: nat)
    requires Grown(t) && j < |t|
  {
    j > 0 && (t[j].key == key || Within(t, key, t[j].parent))
  }

  /** The statistics of every node that is or is below a call with the key, each counted once. */
  function KeyShares(t: Trie, statistics: seq<nat>, key: Key): nat -> int
    requires Grown(t) && |statistics| == |t|
  {
    (j: nat) => if j < |t| && Within(t, key, j) then statistics[j] else 0
  }

  /** What the pass adds up for the key: the totals of all its nodes. */
  function KeyTotals(t: Trie, statistics: seq<nat>, key: Key): nat -> int
    requires Grown(t) && |statistics| == |t|
  {
    (i: nat) => if IsCall(t, key, i) then Total(t, statistics, i) else 0
  }

  function Hits(t: Trie, key: Key, j: nat): nat -> int
    requires Grown(t)
  {
    (i: nat) => if j < |t| && IsCall(t, key, i) && Above(t, i, j) then 1 else 0
  }

  lemma {:induction false} AboveInChain(t: Trie, i: nat, j: nat)
    requires Grown(t) && i < |t| && j < |t| && Above(t, i, j)
    ensures t[i].key in Chain(t, j)
    decreases j
  {
    if j != i {
      AboveInChain(t, i, t[j].parent);
    } else if j == 0 {
      assert Chain(t, 0)[0] == ROOT_KEY;
    }
  }

  lemma NotBelowItself(t: Trie, j: nat)
    requires Sound(t) && 0 < j < |t|
    ensures t[j].key !in Chain(t, t[j].parent)
  {
    var above := Chain(t, t[j].parent);
    assert NoDuplicates(Chain(t, j)) && Chain(t, j)[|above|] == t[j].key;
    assert forall k | 0 <= k < |above| :: Chain(t, j)[k] == above[k];
  }

  lemma OnlyItself(t: Trie, key: Key, i: nat, j: nat)
    requires Sound(t) && 0 < j < |t| && t[j].key == key && IsCall(t, key, i) && Above(t, i, j)
    ensures i == j
  {
    NotBelowItself(t, j);
    if i != j {
      AboveInChain(t, i, t[j].parent);
      assert false;
    }
  }

  /** Recursion is collapsed: on any path a call occurs at most once. */
  lemma {:induction false} HitOnce(t: Trie, key: Key, j: nat)
    requires Sound(t) && j < |t|
    ensures Sum(Hits(t, key, j), |t|) == if Within(t, key, j) then 1 else 0
    decreases j
  {
    if j == 0 {
      SumSingle(Hits(t, key, j), |t|, |t|);
    } else if t[j].key == key {
      forall i: nat | i < |t| && i != j ensures Hits(t, key, j)(i) == 0 {
        if IsCall(t, key, i) && Above(t, i, j) {
          OnlyItself(t, key, i, j);
        }
      }
      SumSingle(Hits(t, key, j), |t|, j);
    } else {
      HitOnce(t, key, t[j].parent);
      SumEqual(Hits(t, key, j), Hits(t, key, t[j].parent), |t|);
    }
  }

  lemma {:induction false} RowsOfKey(t: Trie, statistics: seq<nat>, key: Key, table: (nat, nat) -> int, m: nat)
    requires Grown(t) && |statistics| == |t|
    requires forall i: nat, j: nat :: table(i, j) == if IsCall(t, key, i) then Share(t, statistics, i, j) else 0
    ensures ByRows(table, m, |t|) == Sum(KeyTotals(t, statistics, key), m)
  {
    if m > 0 {
      RowsOfKey(t, statistics, key, table, m - 1);
      if IsCall(t, key, m - 1) {
        SumEqual(Row(table, m - 1), Shares(t, statistics, m - 1), |t|);
      } else {
        SumSingle(Row(table, m - 1), |t|, |t|);
      }
    }
  }

  /** The totals of a call's nodes add up without counting any node twice, recursion or not. */
  lemma KeyTotalsExact(t: Trie, statistics: seq<nat>, key: Key)
    requires Sound(t) && |statistics| == |t|
    ensures Sum(KeyTotals(t, statistics, key), |t|) == Sum(KeyShares(t, statistics, key), |t|)
  {
    hide Sum, Above, Within;
    var n := |t|;
    var table := (i: nat, j: nat) => if IsCall(t, key, i) then Share(t, statistics, i, j) else 0;
    RowsOfKey(t, statistics, key, table, n);
    SumSwaps(table, n, n);
    forall j: nat | j < n ensures ColumnSums(table, n)(j) == KeyShares(t, statistics, key)(j) {
      HitOnce(t, key, j);
      SumScales(Hits(t, key, j), Column(table, j), statistics[j], n);
    }
    SumEqual(ColumnSums(table, n), KeyShares(t, statistics, key), n);
  }

  datatype CallSiteInfo = CallSiteInfo(count: nat, statistics: nat)

  // ----- The pass, from the last node to the first -----

  function KeyCounts(t: Trie, counts: seq<nat>, key: Key): nat -> int {
    (i: nat) => if i < |counts| && IsCall(t, key, i) then counts[i] else 0
  }

  /** A node's summary when the pass has dealt with the nodes from `n` on: `base` is what it started from. */
  function Partial(t: Trie, statistics: seq<nat>, base: nat, q: nat, n: nat): int
    requires Grown(t) && |statistics| == |t|
  {
    base + Sum(HandedTo(t, statistics, q), |t|) - Sum(HandedTo(t, statistics, q), n)
  }

  lemma {:induction false} NoneHanded(t: Trie, statistics: seq<nat>, i: nat, n: nat)
    requires Grown(t) && |statistics| == |t| && n <= i + 1
    ensures Sum(HandedTo(t, statistics, i), n) == 0
  {
    if n > 0 {
      NoneHanded(t, statistics, i, n - 1);
    }
  }

  /** When the pass comes to a node, its summary is already its total. */
  lemma PartialIsTotal(t: Trie, statistics: seq<nat>, i: nat)
    requires Grown(t) && |statistics| == |t| && i < |t|
    ensures Partial(t, statistics, statistics[i], i, i + 1) == Total(t, statistics, i)
  {
    TotalUnfolds(t, statistics, i);
    NoneHanded(t, statistics, i, i + 1);
  }

  /** Nodes that come earlier are not touched again: the total stays. */
  lemma PartialAtEnd(t: Trie, statistics: seq<nat>, base: nat, i: nat)
    requires Grown(t) && |statistics| == |t| && i < |t|
    ensures Partial(t, statistics, base, i, 1) == base - statistics[i] + Total(t, statistics, i)
  {
    TotalUnfolds(t, statistics, i);
    NoneHanded(t, statistics, i, 1);
  }

  lemma PartialStep(t: Trie, statistics: seq<nat>, base: nat, q: nat, i: nat)
    requires Grown(t) && |statistics| == |t| && 0 < i < |t|
    ensures Partial(t, statistics, base, q, i) ==
      Partial(t, statistics, base, q, i + 1) + if t[i].parent == q then Total(t, statistics, i) else 0
  {}

  lemma PartialStart(t: Trie, statistics: seq<nat>, base: nat, q: nat)
    requires Grown(t) && |statistics| == |t|
    ensures Partial(t, statistics, base, q, |t|) == base
  {}

  /** The table when the pass has dealt with the nodes from `n` on. */
  ghost predicate Tabled(results: map<Key, CallSiteInfo>, t: Trie, statistics: seq<nat>, counts: seq<nat>, n: nat)
    requires Grown(t) && |statistics| == |counts| == |t|
  {
    && (forall key :: key in results <==> exists i :: n <= i && IsCall(t, key, i))
    && forall key <- results ::
         && results[key].statistics == Sum(KeyTotals(t, statistics, key), |t|) - Sum(KeyTotals(t, statistics, key), n)
         && results[key].count == Sum(KeyCounts(t, counts, key), |t|) - Sum(KeyCounts(t, counts, key), n)
  }

  function Tally(results: map<Key, CallSiteInfo>, key: Key, count: nat, statistics: nat): map<Key, CallSiteInfo> {
    var info := if key in results then results[key] else CallSiteInfo(0, 0);
    results[key := CallSiteInfo(info.count + count, info.statistics + statistics)]
  }

  lemma {:induction false} NoneTabled(t: Trie, statistics: seq<nat>, counts: seq<nat>, key: Key, n: nat, m: nat)
    requires Grown(t) && |statistics| == |counts| == |t| && n <= m <= |t| && forall i | n <= i :: !IsCall(t, key, i)
    ensures Sum(KeyTotals(t, statistics, key), m) == Sum(KeyTotals(t, statistics, key), n)
    ensures Sum(KeyCounts(t, counts, key), m) == Sum(KeyCounts(t, counts, key), n)
  {
    if m > n {
      NoneTabled(t, statistics, counts, key, n, m - 1);
      assert !IsCall(t, key, m - 1);
    }
  }

  lemma TabledStep(results: map<Key, CallSiteInfo>, t: Trie, statistics: seq<nat>, counts: seq<nat>, i: nat)
    requires Grown(t) && |statistics| == |counts| == |t| && 0 < i < |t| && Tabled(results, t, statistics, counts, i + 1)
    requires Total(t, statistics, i) >= 0
    ensures Tabled(Tally(results, t[i].key, counts[i], Total(t, statistics, i)), t, statistics, counts, i)
  {
    hide Total;
    var key := t[i].key;
    assert IsCall(t, key, i);
    if key !in results {
      NoneTabled(t, statistics, counts, key, i + 1, |t|);
    }
  }

  lemma NothingTabled(t: Trie, statistics: seq<nat>, counts: seq<nat>)
    requires Grown(t) && |statistics| == |counts| == |t|
    ensures Tabled(map[], t, statistics, counts, |t|)
  {}

  lemma TableAtEnd(results: map<Key, CallSiteInfo>, t: Trie, statistics: seq<nat>, counts: seq<nat>)
    requires Grown(t) && Sound(t) && |statistics| == |counts| == |t| && Tabled(results, t, statistics, counts, 1)
    ensures forall key :: key in results <==> exists i :: IsCall(t, key, i)
    ensures forall key <- results ::
      && results[key].statistics == Sum(KeyShares(t, statistics, key), |t|)
      && results[key].count == Sum(KeyCounts(t, counts, key), |t|)
  {
    hide Sound, Total, KeyShares;
    forall key <- results
      ensures results[key].statistics == Sum(KeyShares(t, statistics, key), |t|)
      ensures results[key].count == Sum(KeyCounts(t, counts, key), |t|)
    {
      KeyTotalsExact(t, statistics, key);
      assert !IsCall(t, key, 0);
      assert Sum(KeyTotals(t, statistics, key), 1) == 0 && Sum(KeyCounts(t, counts, key), 1) == 0;
    }
  }

  // ----- The objects -----

  class CallPathNode {
    const parent: CallPathNode?
    const key: Key
    /** The place in the sequence of entries; the root is at 0. */
    ghost const index: nat
    var children: map<Key, CallPathNode>
    var statistics: nat
    var summaryStatistics: nat
    var count: nat

    constructor (parent: CallPathNode?, key: Key, ghost index: nat)
      ensures this.parent == parent && this.key == key && this.index == index
      ensures children == map[] && statistics == 0 && summaryStatistics == 0 && count == 0
    {
      this.parent, this.key, this.index := parent, key, index;
      children, statistics, summaryStatistics, count := map[], 0, 0, 0;
    }
  }

  ghost function Indexed(children: map<Key, CallPathNode>): map<Key, int> {
    map key | key in children :: children[key].index
  }

  ghost function Indices(maps: seq<map<Key, CallPathNode>>): (kids: Cache)
    ensures |kids| == |maps|
  {
    seq(|maps|, i requires 0 <= i < |maps| => Indexed(maps[i]))
  }

  lemma IndicesUpdated(maps: seq<map<Key, CallPathNode>>, i: nat, key: Key, node: CallPathNode)
    requires i < |maps|
    ensures Indices(maps[i := maps[i][key := node]]) == Indices(maps)[i := Indices(maps)[i][key := node.index]]
  {
    assert Indexed(maps[i][key := node]) == Indexed(maps[i])[key := node.index];
    assert Indices(maps[i := maps[i][key := node]]) == Indices(maps)[i := Indices(maps)[i][key := node.index]];
  }

  lemma IndicesAt(maps: seq<map<Key, CallPathNode>>, i: nat)
    requires i < |maps|
    ensures Indices(maps)[i].Keys == maps[i].Keys
  {}

  lemma IndicesAppended(maps: seq<map<Key, CallPathNode>>)
    ensures Indices(maps + [map[]]) == Indices(maps) + [map[]]
  {
    assert Indexed(map[]) == map[];
    assert Indices(maps + [map[]]) == Indices(maps) + [map[]];
  }

  // The nodes of a manager with this root and these paths. Only constants are read.

  ghost function NodeAt(root: CallPathNode, paths: seq<CallPathNode>, i: nat): CallPathNode {
    if 0 < i <= |paths| then paths[i - 1] else root
  }

  ghost predicate Has(root: CallPathNode, paths: seq<CallPathNode>, node: CallPathNode) {
    node.index <= |paths| && node == NodeAt(root, paths, node.index)
  }

  ghost predicate Listed(root: CallPathNode, paths: seq<CallPathNode>) {
    && root.index == 0 && root.parent == null && root.key == ROOT_KEY
    && forall i | 0 <= i < |paths| ::
         && paths[i].index == i + 1 && paths[i].parent != null && paths[i].parent.index <= i
         && paths[i].parent == NodeAt(root, paths, paths[i].parent.index)
  }

  ghost function Entries(root: CallPathNode, paths: seq<CallPathNode>): (t: Trie)
    requires Listed(root, paths)
    ensures Grown(t) && |t| == |paths| + 1
  {
    JUST_ROOT + seq(|paths|, i requires 0 <= i < |paths| => Entry(paths[i].parent.index, paths[i].key))
  }

  lemma NodeHas(root: CallPathNode, paths: seq<CallPathNode>, node: CallPathNode)
    requires Listed(root, paths) && Has(root, paths, node)
    ensures node.index < |Entries(root, paths)| && Entries(root, paths)[node.index].key == node.key
    ensures node.index == 0 ==> node.parent == null
    ensures node.index > 0 ==>
      && node.parent != null && Has(root, paths, node.parent)
      && Entries(root, paths)[node.index].parent == node.parent.index < node.index
  {}

  lemma IndexAt(root: CallPathNode, paths: seq<CallPathNode>, i: nat)
    requires Listed(root, paths) && i <= |paths|
    ensures NodeAt(root, paths, i).index == i
  {}

  lemma NodesAre(root: CallPathNode, paths: seq<CallPathNode>)
    ensures forall i | 0 <= i <= |paths| :: NodeAt(root, paths, i) == ([root] + paths)[i]
  {}

  lemma SameNode(root: CallPathNode, paths: seq<CallPathNode>, paths': seq<CallPathNode>, i: nat)
    requires paths <= paths'
    ensures i <= |paths| ==> NodeAt(root, paths', i) == NodeAt(root, paths, i)
    ensures |paths| < i <= |paths'| ==> NodeAt(root, paths', i) == paths'[i - 1]
  {}

  lemma ListedGrows(root: CallPathNode, paths: seq<CallPathNode>, parent: CallPathNode, node: CallPathNode)
    requires Listed(root, paths) && Has(root, paths, parent) && node.parent == parent && node.index == |paths| + 1
    ensures Listed(root, paths + [node]) && Has(root, paths + [node], node)
    ensures Entries(root, paths + [node]) == Entries(root, paths) + [Entry(parent.index, node.key)]
  {
    var more := paths + [node];
    forall i | 0 <= i < |more|
      ensures more[i].index == i + 1 && more[i].parent != null && more[i].parent.index <= i
      ensures more[i].parent == NodeAt(root, more, more[i].parent.index)
    {
      if i < |paths| {
        assert more[i] == paths[i];
      }
    }
  }

  /** Every cached child is a node of the tree. */
  ghost predicate Known(root: CallPathNode, paths: seq<CallPathNode>, maps: seq<map<Key, CallPathNode>>) {
    forall i, key | 0 <= i < |maps| && key in maps[i] :: Has(root, paths, maps[i][key])
  }

  lemma KnownGrows(root: CallPathNode, paths: seq<CallPathNode>, paths': seq<CallPathNode>,
                   maps: seq<map<Key, CallPathNode>>, maps': seq<map<Key, CallPathNode>>, i: nat, key: Key,
                   node: CallPathNode)
    requires Known(root, paths, maps) && paths <= paths' && Has(root, paths', node) && i < |maps|
    requires maps' == maps[i := maps[i][key := node]] || maps' == maps[i := maps[i][key := node]] + [map[]]
    ensures Known(root, paths', maps')
  {}

  class CallPathManager {
    const root: CallPathNode
    var paths: seq<CallPathNode>

    /** The children each node has cached. */
    ghost function ChildMaps(): (maps: seq<map<Key, CallPathNode>>)
      reads this, root, paths
      ensures |maps| == |paths| + 1
    {
      seq(|paths| + 1, i requires 0 <= i <= |paths| reads this, root, paths => NodeAt(root, paths, i).children)
    }

    ghost predicate Valid()
      reads this, root, paths
    {
      && Listed(root, paths) && Sound(Entries(root, paths))
      && Known(root, paths, ChildMaps()) && CacheSound(Entries(root, paths), Indices(ChildMaps()))
    }

    /** The tree, as a sequence of entries. */
    ghost function Tree(): (t: Trie)
      requires Listed(root, paths)
      reads this
      ensures Grown(t)
    {
      Entries(root, paths)
    }

    constructor ()
      ensures Valid() && Tree() == JUST_ROOT && root.summaryStatistics == 0
    {
      root := new CallPathNode(null, ROOT_KEY, 0);
      paths := [];
      new;
      JustRootSound();
      assert Tree() == JUST_ROOT;
    }

    /** The walk up from a node to the root. */
    method FindAbove(parent: CallPathNode, key: Key) returns (p: CallPathNode?)
      requires Listed(root, paths) && Has(root, paths, parent)
      ensures parent.index < |Tree()|
      ensures Walk(Tree(), parent.index, key) == if p == null then None else Some(p.index)
      ensures p != null ==> Has(root, paths, p)
    {
      hide Entries, Listed, Has;
      p := parent;
      NodeHas(root, paths, parent);
      while p != null
        invariant p != null ==>
          Has(root, paths, p) && p.index < |Tree()| && Walk(Tree(), parent.index, key) == Walk(Tree(), p.index, key)
        invariant p == null ==> Walk(Tree(), parent.index, key) == None
        decreases if p == null then 0 else p.index + 1
      {
        NodeHas(root, paths, p);
        if key == p.key {
          return p;
        }
        p := p.parent;
      }
    }

    method ComputeCallPath(parent: CallPathNode, key: Key) returns (node: CallPathNode)
      requires Listed(root, paths) && Has(root, paths, parent)
      modifies this`paths
      ensures Listed(root, paths) && Has(root, paths, node)
      ensures paths == old(paths) || (fresh(node) && paths == old(paths) + [node] && node.children == map[])
      ensures var t := old(Tree());
        && parent.index < |t|
        && (Tree(), node.index) ==
             match Walk(t, parent.index, key)
             case Some(a) => (t, a)
             case None => (t + [Entry(parent.index, key)], |t|)
    {
      hide Walk, Listed, Has, Entries;
      NodeHas(root, paths, parent);
      var p := FindAbove(parent, key);
      if p != null {
        return p;
      }
      node := new CallPathNode(parent, key, |paths| + 1);
      ListedGrows(root, paths, parent, node);
      paths := paths + [node];
    }

    lemma CachedReach(from: CallPathNode, key: Key)
      requires Valid() && Has(root, paths, from) && key in from.children
      ensures Has(root, paths, from.children[key]) && from.index < |Tree()|
      ensures Reach(Tree(), from.index, key) == (Tree(), from.children[key].index)
    {
      hide Sound, Entries, Reach;
      assert ChildMaps()[from.index] == from.children;
      assert Indices(ChildMaps())[from.index] == Indexed(from.children);
    }

    /** A null parent stands for the root. */
    method GetCallPath(parent: CallPathNode?, key: Key) returns (node: CallPathNode)
      requires Valid() && (parent != null ==> Has(root, paths, parent))
      modifies this`paths, root`children
      modifies if parent == null then {} else {parent}
      ensures Valid() && Has(root, paths, node) && old(paths) <= paths
      ensures (Tree(), node.index) == Reach(old(Tree()), if parent == null then 0 else parent.index, key)
      ensures parent != null ==>
        unchanged(parent`statistics) && unchanged(parent`summaryStatistics) && unchanged(parent`count)
    {
      hide Sound, CacheSound, Entries, Reach, Known;
      var from := if parent == null then root else parent;
      node := PathFrom(from, key);
    }

    method PathFrom(from: CallPathNode, key: Key) returns (node: CallPathNode)
      requires Valid() && Has(root, paths, from)
      modifies this`paths, from`children
      ensures Valid() && Has(root, paths, node) && old(paths) <= paths
      ensures from.index < |old(Tree())| && (Tree(), node.index) == Reach(old(Tree()), from.index, key)
    {
      hide Sound, CacheSound, Entries, Reach, Walk, Known, Listed, NodeAt, Indices;
      NodeHas(root, paths, from);
      if key in from.children {
        CachedReach(from, key);
        return from.children[key];
      }
      ghost var t, maps, paths0 := Tree(), ChildMaps(), paths;
      assert maps[from.index] == from.children;
      IndicesAt(maps, from.index);
      CacheGrows(t, Indices(maps), from.index, key);
      ghost var nodes := [root] + paths;
      assert forall i | 0 <= i < |maps| :: nodes[i].children == maps[i] by {
        NodesAre(root, paths);
      }
      node := ComputeCallPath(from, key);
      from.children := from.children[key := node];
      ghost var maps' := maps[from.index := maps[from.index][key := node]];
      IndicesUpdated(maps, from.index, key, node);
      IndicesAppended(maps');
      forall i | 0 <= i <= |paths|
        ensures ChildMaps()[i] == if i < |maps| then maps'[i] else map[]
      {
        IndexAt(root, paths, i);
        SameNode(root, paths0, paths, i);
        NodesAre(root, paths0);
        assert i < |maps| ==> nodes[i].index == i && ChildMaps()[i] == nodes[i].children;
      }
      assert ChildMaps() == if |paths| == |paths0| then maps' else maps' + [map[]];
      KnownGrows(root, paths0, paths, maps, ChildMaps(), from.index, key, node);
    }

    ghost function Statistics(): (s: seq<nat>)
      reads this, paths
      ensures |s| == |paths| + 1 && s[0] == 0
    {
      [0] + seq(|paths|, i requires 0 <= i < |paths| reads this, paths => paths[i].statistics)
    }

    ghost function Counts(): (s: seq<nat>)
      reads this, paths
      ensures |s| == |paths| + 1
    {
      [0] + seq(|paths|, i requires 0 <= i < |paths| reads this, paths => paths[i].count)
    }

    ghost function Nodes(): set<CallPathNode>
      reads this
    {
      {root} + set node | node in paths
    }

    /** The summaries when the pass has dealt with the nodes from `n` on. */
    ghost predicate Summed(statistics: seq<nat>, base: nat, n: nat)
      requires Listed(root, paths) && |statistics| == |paths| + 1
      reads this, root, paths
    {
      && root.summaryStatistics == Partial(Tree(), statistics, base, 0, n)
      && forall q | 0 < q < |statistics| ::
           paths[q - 1].summaryStatistics == Partial(Tree(), statistics, statistics[q], q, n)
    }

    lemma ParentOf(i: nat)
      requires Listed(root, paths) && i < |paths|
      ensures |Tree()| == |paths| + 1 && paths[i].parent != null
      ensures paths[i].parent != paths[i] && paths[i].parent in Nodes()
      ensures Tree()[i + 1] == Entry(paths[i].parent.index, paths[i].key)
      ensures paths[i].parent == root <==> Tree()[i + 1].parent == 0
      ensures forall j | 0 <= j < |paths| :: paths[i].parent == paths[j] <==> Tree()[i + 1].parent == j + 1
      ensures paths[i] != root
    {}

    lemma AllDistinct()
      requires Listed(root, paths)
      ensures forall i | 0 <= i < |paths| :: paths[i] != root
      ensures forall i, j | 0 <= i < j < |paths| :: paths[i] != paths[j]
    {}

    method ResetSummaries()
      requires Listed(root, paths)
      modifies Nodes()`summaryStatistics
      ensures root.summaryStatistics == old(root.summaryStatistics)
      ensures forall j | 0 <= j < |paths| :: paths[j].summaryStatistics == paths[j].statistics
    {
      hide Listed;
      AllDistinct();
      for i := 0 to |paths|
        invariant root.summaryStatistics == old(root.summaryStatistics)
        invariant forall j | 0 <= j < i :: paths[j].summaryStatistics == paths[j].statistics
      {
        paths[i].summaryStatistics := paths[i].statistics;
      }
    }

    lemma SummedAtFirst(statistics: seq<nat>)
      requires Listed(root, paths) && statistics == Statistics()
      requires forall j | 0 <= j < |paths| :: paths[j].summaryStatistics == paths[j].statistics
      ensures Summed(statistics, root.summaryStatistics, |paths| + 1)
    {
      hide Partial, Listed;
      PartialStart(Tree(), statistics, root.summaryStatistics, 0);
      forall q | 0 < q < |statistics|
        ensures paths[q - 1].summaryStatistics == Partial(Tree(), statistics, statistics[q], q, |paths| + 1)
      {
        PartialStart(Tree(), statistics, statistics[q], q);
      }
    }

    /** One node of the pass: its summary, by now its total, goes to its parent. */
    method HandUp(ghost t: Trie, ghost statistics: seq<nat>, ghost base: nat, i: nat, cp: CallPathNode,
                  parent: CallPathNode)
      requires Listed(root, paths) && t == Tree() && i < |paths| && |statistics| == |t|
      requires cp == paths[i] && parent == cp.parent && Summed(statistics, base, i + 2)
      modifies parent`summaryStatistics
      ensures Summed(statistics, base, i + 1) && cp.summaryStatistics == Total(t, statistics, i + 1)
    {
      hide Partial, Total, Entries, Listed;
      ParentOf(i);
      PartialIsTotal(t, statistics, i + 1);
      PartialStep(t, statistics, base, 0, i + 1);
      forall q | 0 < q < |statistics|
        ensures Partial(t, statistics, statistics[q], q, i + 1) ==
          Partial(t, statistics, statistics[q], q, i + 2)
          + if t[i + 1].parent == q then Total(t, statistics, i + 1) else 0
      {
        PartialStep(t, statistics, statistics[q], q, i + 1);
      }
      parent.summaryStatistics := parent.summaryStatistics + cp.summaryStatistics;
    }

    lemma SummedAtEnd(statistics: seq<nat>, base: nat)
      requires Listed(root, paths) && |statistics| == |paths| + 1 && Summed(statistics, base, 1) && statistics[0] == 0
      ensures forall i | 0 <= i < |paths| :: paths[i].summaryStatistics == Total(Tree(), statistics, i + 1)
      ensures root.summaryStatistics == base + Total(Tree(), statistics, 0)
    {
      hide Partial, Total, Listed;
      PartialAtEnd(Tree(), statistics, base, 0);
      forall i | 0 <= i < |paths| ensures paths[i].summaryStatistics == Total(Tree(), statistics, i + 1) {
        PartialAtEnd(Tree(), statistics, statistics[i + 1], i + 1);
      }
    }

    /** The pass itself. */
    method SumUp(ghost t: Trie, ghost statistics: seq<nat>, ghost counts: seq<nat>)
      returns (results: map<Key, CallSiteInfo>)
      requires Listed(root, paths) && t == Tree() && statistics == Statistics() && counts == Counts()
      requires Summed(statistics, root.summaryStatistics, |t|)
      modifies Nodes()`summaryStatistics
      ensures Summed(statistics, old(root.summaryStatistics), 1)
      ensures |counts| == |t| && Tabled(results, t, statistics, counts, 1)
    {
      hide Partial, Total, Entries, Listed, Tabled, Tally, Summed;
      results := map[];
      ghost var base := root.summaryStatistics;
      NothingTabled(t, statistics, counts);
      for i := |paths| downto 0
        invariant Summed(statistics, base, i + 1)
        invariant Tabled(results, t, statistics, counts, i + 1)
      {
        var cp := paths[i];
        ParentOf(i);
        HandUp(t, statistics, base, i, cp, cp.parent);
        TabledStep(results, t, statistics, counts, i + 1);
        assert counts[i + 1] == cp.count;
        results := Tally(results, cp.key, cp.count, cp.summaryStatistics);
      }
    }

    /**
     One pass from the last node to the first gives every node the statistics of itself
     and its descendants, and every call those of all nodes at or below it, each once. The
     root's summary is never reset: it accumulates from pass to pass.
     */
    method GetSummaryStatistics() returns (results: map<Key, CallSiteInfo>)
      requires Valid()
      modifies Nodes()`summaryStatistics
      ensures Valid()
      ensures forall i | 0 <= i < |paths| :: paths[i].summaryStatistics == Total(Tree(), old(Statistics()), i + 1)
      ensures root.summaryStatistics == old(root.summaryStatistics) + Total(Tree(), old(Statistics()), 0)
      ensures forall key :: key in results <==> exists i :: IsCall(Tree(), key, i)
      ensures forall key <- results ::
        && results[key].statistics == Sum(KeyShares(Tree(), old(Statistics()), key), |Tree()|)
        && results[key].count == Sum(KeyCounts(Tree(), old(Counts()), key), |Tree()|)
    {
      hide Partial, Total, Entries, Listed, Tabled, CacheSound, Known, KeyShares, KeyCounts, Sound;
      ghost var t, statistics, counts := Tree(), Statistics(), Counts();
      ResetSummaries();
      assert Statistics() == statistics && Counts() == counts;
      SummedAtFirst(statistics);
      results := SumUp(t, statistics, counts);
      SummedAtEnd(statistics, old(root.summaryStatistics));
      TableAtEnd(results, t, statistics, counts);
      assert ChildMaps() == old(ChildMaps());
    }
  }
}
