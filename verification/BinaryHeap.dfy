/** The intrusive binary heap: insertion, removal at any index and bulk construction. */
module BinaryHeap {
  datatype Entry = Entry(key: int, value: int)

  /** An entry and the position that the index setter recorded in it. */
  datatype Node = Node(entry: Entry, index: nat)

  // ----- heap order on the keys -----

  function Parent(i: nat): (p: nat)
    requires i > 0
    ensures p < i && (i == 2 * p + 1 || i == 2 * p + 2)
  {
    (i - 1) / 2
  }

  /** No child of a position from lo on is smaller than its parent. */
  ghost predicate Ordered(k: seq<int>, lo: nat) {
    forall j: nat {:trigger Parent(j)} :: 0 < j < |k| && lo <= Parent(j) ==> k[Parent(j)] <= k[j]
  }

  /** The children of i are not smaller than the parent of i. */
  ghost predicate Bridged(k: seq<int>, lo: nat, i: nat) {
    0 < i < |k| && lo <= Parent(i) ==>
      forall j: nat {:trigger Parent(j)} :: 0 < j < |k| && Parent(j) == i ==> k[Parent(i)] <= k[j]
  }

  /** Ordered but for the key at i, which may be too large for its place. */
  ghost predicate Sinking(k: seq<int>, lo: nat, i: nat) {
    && (forall j: nat {:trigger Parent(j)} :: 0 < j < |k| && lo <= Parent(j) != i ==> k[Parent(j)] <= k[j])
    && Bridged(k, lo, i)
  }

  /** Ordered but for the key at i, which may be too small for its place. */
  ghost predicate Rising(k: seq<int>, i: nat) {
    && (forall j: nat {:trigger Parent(j)} :: 0 < j < |k| && j != i ==> k[Parent(j)] <= k[j])
    && Bridged(k, 0, i)
  }

  /** Ordered but for the key at i, which may be anything. */
  ghost predicate Lifting(k: seq<int>, i: nat) {
    && (forall j: nat {:trigger Parent(j)} :: 0 < j < |k| && j != i && Parent(j) != i ==> k[Parent(j)] <= k[j])
    && Bridged(k, 0, i)
  }

  function Swap<T>(s: seq<T>, i: nat, j: nat): (t: seq<T>)
    requires i < |s| && j < |s|
    ensures |t| == |s|
  {
    s[i := s[j]][j := s[i]]
  }

  lemma SinkStep(k: seq<int>, lo: nat, i: nat, c: nat)
    requires Sinking(k, lo, i) && lo <= i && 0 < c < |k| && Parent(c) == i && k[c] <= k[i]
    requires forall j: nat {:trigger Parent(j)} :: 0 < j < |k| && Parent(j) == i ==> k[c] <= k[j]
    ensures Sinking(Swap(k, i, c), lo, c)
  {
    var t := Swap(k, i, c);
    forall j: nat | 0 < j < |t| && lo <= Parent(j) != c ensures t[Parent(j)] <= t[j] {
      if j == i {
        assert Parent(c) == i;
      }
    }
    forall j: nat | 0 < j < |t| && Parent(j) == c ensures t[Parent(c)] <= t[j] {
      assert k[Parent(j)] <= k[j];
    }
  }

  lemma SinkEnds(k: seq<int>, lo: nat, i: nat)
    requires Sinking(k, lo, i)
    requires forall j: nat {:trigger Parent(j)} :: 0 < j < |k| && Parent(j) == i ==> k[i] <= k[j]
    ensures Ordered(k, lo)
  {
  }

  lemma RiseStep(k: seq<int>, i: nat)
    requires Rising(k, i) && 0 < i < |k| && k[i] <= k[Parent(i)]
    ensures Rising(Swap(k, i, Parent(i)), Parent(i))
  {
    var p := Parent(i);
    var t := Swap(k, i, p);
    forall j: nat | 0 < j < |t| && j != p ensures t[Parent(j)] <= t[j] {
      if Parent(j) != i && Parent(j) == p && j != i {
        assert k[p] <= k[j];
      }
    }
    if p > 0 {
      forall j: nat | 0 < j < |t| && Parent(j) == p ensures t[Parent(p)] <= t[j] {
        assert k[Parent(p)] <= k[p];
        assert j != i ==> k[Parent(j)] <= k[j];
      }
    }
  }

  lemma RiseEnds(k: seq<int>, i: nat)
    requires Rising(k, i) && (0 < i < |k| ==> k[Parent(i)] <= k[i])
    ensures Ordered(k, 0)
  {
  }

  lemma LiftStep(k: seq<int>, i: nat)
    requires Lifting(k, i) && 0 < i < |k|
    ensures Lifting(Swap(k, i, Parent(i)), Parent(i))
  {
    var p := Parent(i);
    var t := Swap(k, i, p);
    if p > 0 {
      assert k[Parent(p)] <= k[p];
      forall j: nat | 0 < j < |t| && Parent(j) == p ensures t[Parent(p)] <= t[j] {
        assert j != i ==> k[Parent(j)] <= k[j];
      }
    }
    forall j: nat | 0 < j < |t| && j != p && Parent(j) != p ensures t[Parent(j)] <= t[j] {
    }
  }

  /** The key lifted to the root is exchanged for the last one, which then sinks. */
  lemma LiftEnds(k: seq<int>)
    requires |k| > 0 && Lifting(k, 0)
    ensures Sinking(Swap(k, 0, |k| - 1)[..|k| - 1], 0, 0)
  {
  }

  lemma {:induction false} RootLeast(k: seq<int>, i: nat)
    requires Ordered(k, 0) && i < |k|
    ensures k[0] <= k[i]
  {
    if i > 0 {
      RootLeast(k, Parent(i));
    }
  }

  // ----- which positions sinking moves -----

  /** The child that heapify_down compares with: the second only if it is less than the first. */
  function ChosenChild(less: (int, int) -> bool, k: seq<int>, i: nat): (c: nat)
    requires 2 * i + 1 < |k|
    ensures i < c < |k|
  {
    if 2 * i + 2 < |k| && less(k[2 * i + 2], k[2 * i + 1]) then 2 * i + 2 else 2 * i + 1
  }

  predicate Rests(less: (int, int) -> bool, k: seq<int>, i: nat) {
    2 * i + 1 >= |k| || less(k[i], k[ChosenChild(less, k, i)])
  }

  /** The keys after the key at i has sunk. */
  function Sunk(less: (int, int) -> bool, k: seq<int>, i: nat): (t: seq<int>)
    ensures |t| == |k|
    decreases |k| - i
  {
    if Rests(less, k, i) then k
    else
      var c := ChosenChild(less, k, i);
      Sunk(less, Swap(k, i, c), c)
  }

  /** The positions on its way. */
  function SunkPath(less: (int, int) -> bool, k: seq<int>, i: nat): (path: set<nat>)
    decreases |k| - i
  {
    if Rests(less, k, i) then {}
    else
      var c := ChosenChild(less, k, i);
      {i, c} + SunkPath(less, Swap(k, i, c), c)
  }

  /** The positions that bulk construction moves something at, when the nodes from `from` on are done. */
  function BulkPath(less: (int, int) -> bool, k: seq<int>, from: nat): (path: set<nat>)
    decreases from
  {
    if from == 0 then {}
    else SunkPath(less, k, from - 1) + BulkPath(less, Sunk(less, k, from - 1), from - 1)
  }

  /** The positions that bulk construction of a heap with these keys moves something at. */
  function Disturbed(less: (int, int) -> bool, k: seq<int>): (path: set<nat>) {
    BulkPath(less, k, |k| / 2)
  }

  /** Nothing is moved if every parent is less than its children. */
  lemma {:induction false} NothingDisturbed(less: (int, int) -> bool, k: seq<int>, from: nat)
    requires forall j: nat {:trigger Parent(j)} :: 0 < j < |k| ==> less(k[Parent(j)], k[j])
    ensures BulkPath(less, k, from) == {}
  {
    if from > 0 {
      var i := from - 1;
      if 2 * i + 1 < |k| {
        assert Parent(ChosenChild(less, k, i)) == i;
      }
      NothingDisturbed(less, k, i);
    }
  }

  /** A root over two children: on ties the first child is taken, and the root sinks even past an equal key. */
  lemma OneFamily(less: (int, int) -> bool, root: int, left: int, right: int)
    ensures var k := [root, left, right];
            if less(right, left) then
              if less(root, right) then Sunk(less, k, 0) == k && Disturbed(less, k) == {}
              else Sunk(less, k, 0) == [right, left, root] && Disturbed(less, k) == {0, 2}
            else if less(root, left) then Sunk(less, k, 0) == k && Disturbed(less, k) == {}
            else Sunk(less, k, 0) == [left, root, right] && Disturbed(less, k) == {0, 1}
  {
    var k := [root, left, right];
    var c := if less(right, left) then 2 else 1;
    assert ChosenChild(less, k, 0) == c;
    assert BulkPath(less, k, 1) == SunkPath(less, k, 0) + BulkPath(less, Sunk(less, k, 0), 0);
    assert SunkPath(less, Swap(k, 0, c), c) == {} && Sunk(less, Swap(k, 0, c), c) == Swap(k, 0, c);
  }

  // ----- the heap -----

  ghost function EntriesOf(nodes: seq<Node>): (s: seq<Entry>)
    ensures |s| == |nodes|
  {
    seq(|nodes|, i requires 0 <= i < |nodes| => nodes[i].entry)
  }

  function KeysOf(nodes: seq<Node>): (k: seq<int>)
    ensures |k| == |nodes|
  {
    seq(|nodes|, i requires 0 <= i < |nodes| => nodes[i].entry.key)
  }

  /** Every node records its own position. */
  ghost predicate IndexedNodes(nodes: seq<Node>) {
    forall i :: 0 <= i < |nodes| ==> nodes[i].index == i
  }

  /** The nodes on the path record their own position, the others are what they were. */
  ghost predicate Recorded(before: seq<Node>, after: seq<Node>, path: set<nat>) {
    && |before| == |after|
    && (forall i: nat :: i < |after| ==> if i in path then after[i].index == i else after[i] == before[i])
  }

  lemma RecordedTwice(a: seq<Node>, b: seq<Node>, c: seq<Node>, p: set<nat>, q: set<nat>)
    requires Recorded(a, b, p) && Recorded(b, c, q)
    ensures Recorded(a, c, p + q)
  {
  }

  lemma SwapKeepsBag(s: seq<Entry>, i: nat, j: nat)
    requires i < |s| && j < |s|
    ensures multiset(Swap(s, i, j)) == multiset(s)
  {
  }

  /** A comparator that decides the order of different keys; for equal keys it may say either. */
  ghost predicate Compares(less: (int, int) -> bool) {
    forall a: int, b: int :: a < b ==> less(a, b) && !less(b, a)
  }

  class IntrusiveBinaryHeap {
    var nodes: seq<Node>
    const less: (int, int) -> bool

    ghost predicate Valid()
      reads this
    {
      Compares(less) && Ordered(KeysOf(nodes), 0)
    }

    ghost function Bag(): (bag: multiset<Entry>)
      reads this
    {
      multiset(EntriesOf(nodes))
    }

    ghost predicate Indexed()
      reads this
    {
      IndexedNodes(nodes)
    }

    constructor (less: (int, int) -> bool)
      requires Compares(less)
      ensures Valid() && nodes == [] && Indexed() && this.less == less
    {
      nodes := [];
      this.less := less;
    }

    /** Bulk construction. Nodes that no swap moves keep the index they came with. */
    constructor FromNodes(less: (int, int) -> bool, initial: seq<Node>)
      requires Compares(less)
      ensures Valid() && Bag() == multiset(EntriesOf(initial)) && |nodes| == |initial|
      ensures Recorded(initial, nodes, Disturbed(less, KeysOf(initial)))
      ensures Indexed() <==>
                forall i: nat :: i < |initial| && i !in Disturbed(less, KeysOf(initial)) ==> initial[i].index == i
    {
      nodes := initial;
      this.less := less;
      new;
      hide KeysOf, EntriesOf, Ordered, Sinking, Sunk, SunkPath, Recorded;
      OrderedLeaves(KeysOf(nodes));
      RecordedNothing(nodes);
      ghost var keys, path: set<nat> := KeysOf(nodes), {};
      var i: nat := |nodes| / 2;
      while i > 0
        invariant |nodes| == |initial| && Ordered(KeysOf(nodes), i)
        invariant Bag() == multiset(EntriesOf(initial)) && Recorded(initial, nodes, path)
        invariant path + BulkPath(less, KeysOf(nodes), i) == Disturbed(less, keys)
      {
        i := i - 1;
        SinkStarts(KeysOf(nodes), i);
        ghost var before := nodes;
        HeapifyDown(i, i);
        RecordedTwice(initial, before, nodes, path, SunkPath(less, KeysOf(before), i));
        path := path + SunkPath(less, KeysOf(before), i);
      }
      IndexedAfter(initial, nodes, path);
    }

    method SwapIndices(i: nat, j: nat)
      requires i < |nodes| && j < |nodes|
      modifies this`nodes
      ensures KeysOf(nodes) == Swap(old(KeysOf(nodes)), i, j)
      ensures |nodes| == |old(nodes)| && nodes[i].entry == old(nodes[j].entry) && nodes[j].entry == old(nodes[i].entry)
      ensures Bag() == old(Bag()) && (old(Indexed()) ==> Indexed()) && Recorded(old(nodes), nodes, {i, j})
    {
      SwapKeepsBag(EntriesOf(nodes), i, j);
      nodes := Swap(nodes, i, j);
      nodes := nodes[i := nodes[i].(index := i)];
      nodes := nodes[j := nodes[j].(index := j)];
      assert EntriesOf(nodes) == Swap(old(EntriesOf(nodes)), i, j);
      assert KeysOf(nodes) == Swap(old(KeysOf(nodes)), i, j);
    }

    method HeapifyUp(start: nat)
      requires Compares(less) && start < |nodes| && Rising(KeysOf(nodes), start)
      modifies this`nodes
      ensures Valid() && |nodes| == |old(nodes)| && Bag() == old(Bag()) && (old(Indexed()) ==> Indexed())
    {
      hide Rising, Ordered, EntriesOf;
      var i: nat := start;
      while i != 0
        invariant i < |nodes| == |old(nodes)| && Rising(KeysOf(nodes), i)
        invariant Bag() == old(Bag()) && (old(Indexed()) ==> Indexed())
      {
        var parent := Parent(i);
        if less(nodes[parent].entry.key, nodes[i].entry.key) {
          break;
        }
        RiseStep(KeysOf(nodes), i);
        SwapIndices(i, parent);
        i := parent;
      }
      RiseEnds(KeysOf(nodes), i);
    }

    method HeapifyDown(start: nat, ghost lo: nat)
      requires Compares(less) && lo <= start && Sinking(KeysOf(nodes), lo, start)
      modifies this`nodes
      ensures Ordered(KeysOf(nodes), lo)
      ensures |nodes| == |old(nodes)| && Bag() == old(Bag()) && (old(Indexed()) ==> Indexed())
      ensures KeysOf(nodes) == Sunk(less, old(KeysOf(nodes)), start)
      ensures Recorded(old(nodes), nodes, SunkPath(less, old(KeysOf(nodes)), start))
    {
      hide Sinking, Ordered, EntriesOf, Recorded, Sunk, SunkPath, Swap, Compares, IndexedNodes;
      var i := start;
      ghost var keys, path: set<nat> := KeysOf(nodes), {};
      RecordedNothing(nodes);
      while i * 2 + 1 < |nodes|
        invariant lo <= i && |nodes| == |old(nodes)| && Sinking(KeysOf(nodes), lo, i)
        invariant Bag() == old(Bag()) && (old(Indexed()) ==> Indexed()) && Recorded(old(nodes), nodes, path)
        invariant Sunk(less, KeysOf(nodes), i) == Sunk(less, keys, start)
        invariant path + SunkPath(less, KeysOf(nodes), i) == SunkPath(less, keys, start)
      {
        var child, other := i * 2 + 1, i * 2 + 2;
        if other < |nodes| && less(nodes[other].entry.key, nodes[child].entry.key) {
          child := other;
        }
        if less(nodes[i].entry.key, nodes[child].entry.key) {
          break;
        }
        SinkOnce(less, KeysOf(nodes), lo, i, path);
        ghost var before := nodes;
        SwapIndices(i, child);
        RecordedTwice(old(nodes), before, nodes, path, {i, child});
        path := path + {i, child};
        i := child;
      }
      SinkAtRest(less, KeysOf(nodes), lo, i);
    }

    method Insert(entry: Entry)
      requires Valid()
      modifies this`nodes
      ensures Valid() && Bag() == old(Bag()) + multiset{entry} && (old(Indexed()) ==> Indexed())
    {
      ghost var k, s := KeysOf(nodes), EntriesOf(nodes);
      nodes := nodes + [Node(entry, |nodes|)];
      assert KeysOf(nodes) == k + [entry.key] && EntriesOf(nodes) == s + [entry];
      RiseStarts(k, entry.key);
      HeapifyUp(|nodes| - 1);
    }

    /** pop: removes the node at any position. */
    method Pop(at: nat) returns (node: Node)
      requires Valid() && at < |nodes|
      modifies this`nodes
      ensures Valid() && node.entry == old(nodes[at].entry) && |nodes| == |old(nodes)| - 1
      ensures Bag() == old(Bag()) - multiset{node.entry} && (old(Indexed()) ==> Indexed())
    {
      hide Lifting, Ordered, Sinking, KeysOf, EntriesOf;
      var i: nat := at;
      LiftStarts(KeysOf(nodes), i);
      while i != 0
        invariant i < |nodes| == |old(nodes)| && Lifting(KeysOf(nodes), i) && nodes[i].entry == old(nodes[at].entry)
        invariant Bag() == old(Bag()) && (old(Indexed()) ==> Indexed())
      {
        LiftStep(KeysOf(nodes), i);
        SwapIndices(i, Parent(i));
        i := Parent(i);
      }
      LiftEnds(KeysOf(nodes));
      SwapIndices(0, |nodes| - 1);
      node := TakeLast();
      HeapifyDown(0, 0);
    }

    method TakeLast() returns (node: Node)
      requires |nodes| > 0
      modifies this`nodes
      ensures node == old(nodes[|nodes| - 1]) && nodes == old(nodes[..|nodes| - 1])
      ensures KeysOf(nodes) == old(KeysOf(nodes)[..|nodes| - 1]) && Bag() == old(Bag()) - multiset{node.entry}
      ensures old(Indexed()) ==> Indexed()
    {
      ghost var s := EntriesOf(nodes);
      node := nodes[|nodes| - 1];
      nodes := nodes[..|nodes| - 1];
      assert s == EntriesOf(nodes) + [node.entry];
      assert KeysOf(nodes) == old(KeysOf(nodes)[..|nodes| - 1]);
    }

    method PopMin() returns (node: Node)
      requires Valid() && |nodes| > 0
      modifies this`nodes
      ensures Valid() && |nodes| == |old(nodes)| - 1 && Bag() == old(Bag()) - multiset{node.entry}
      ensures node.entry in old(Bag()) && (forall e :: e in old(Bag()) ==> node.entry.key <= e.key)
      ensures old(Indexed()) ==> Indexed()
    {
      LeastInBag(nodes);
      node := Pop(0);
    }
  }

  lemma RecordedNothing(nodes: seq<Node>)
    ensures Recorded(nodes, nodes, {})
  {
  }

  lemma IndexedAfter(before: seq<Node>, after: seq<Node>, path: set<nat>)
    requires Recorded(before, after, path)
    ensures IndexedNodes(after) <==> forall i: nat :: i < |before| && i !in path ==> before[i].index == i
  {
    if IndexedNodes(after) {
      forall i: nat | i < |before| && i !in path ensures before[i].index == i {
        assert after[i] == before[i];
      }
    }
  }

  /** Bulk construction of a heap that is one already leaves every node, and so every recorded index, as it came. */
  method BuildOrdered(less: (int, int) -> bool, initial: seq<Node>) returns (heap: IntrusiveBinaryHeap)
    requires Compares(less)
    requires forall j: nat {:trigger Parent(j)} :: 0 < j < |initial| ==>
               less(initial[Parent(j)].entry.key, initial[j].entry.key)
    ensures heap.nodes == initial && (heap.Indexed() <==> IndexedNodes(initial))
  {
    NothingDisturbed(less, KeysOf(initial), |initial| / 2);
    heap := new IntrusiveBinaryHeap.FromNodes(less, initial);
    assert heap.nodes == initial;
  }

  /** One node that came with index 1 keeps it at position 0. */
  method BuildWrongIndex(less: (int, int) -> bool, entry: Entry) returns (heap: IntrusiveBinaryHeap)
    requires Compares(less)
    ensures heap.nodes == [Node(entry, 1)] && !heap.Indexed()
  {
    heap := BuildOrdered(less, [Node(entry, 1)]);
    assert heap.nodes[0].index == 1;
  }

  lemma OrderedLeaves(k: seq<int>)
    ensures Ordered(k, |k| / 2)
  {
  }

  lemma SinkStarts(k: seq<int>, i: nat)
    requires Ordered(k, i + 1)
    ensures Sinking(k, i, i)
  {
  }

  lemma RiseStarts(k: seq<int>, key: int)
    requires Ordered(k, 0)
    ensures Rising(k + [key], |k|)
  {
  }

  lemma LiftStarts(k: seq<int>, i: nat)
    requires Ordered(k, 0) && i < |k|
    ensures Lifting(k, i)
  {
  }

  /** The chosen child is the least: the children of i are 2 * i + 1 and 2 * i + 2. */
  lemma LeastChild(less: (int, int) -> bool, k: seq<int>, i: nat)
    requires Compares(less) && 2 * i + 1 < |k|
    ensures var c := ChosenChild(less, k, i);
            Parent(c) == i && (forall j: nat {:trigger Parent(j)} :: 0 < j < |k| && Parent(j) == i ==> k[c] <= k[j])
  {
  }

  /** One turn of the loop of heapify_down. */
  lemma SinkOnce(less: (int, int) -> bool, k: seq<int>, lo: nat, i: nat, path: set<nat>)
    requires Compares(less) && Sinking(k, lo, i) && lo <= i && !Rests(less, k, i)
    ensures 2 * i + 1 < |k|
    ensures var c := ChosenChild(less, k, i);
            && Sinking(Swap(k, i, c), lo, c)
            && Sunk(less, Swap(k, i, c), c) == Sunk(less, k, i)
            && path + {i, c} + SunkPath(less, Swap(k, i, c), c) == path + SunkPath(less, k, i)
  {
    hide Sinking;
    LeastChild(less, k, i);
    SinkStep(k, lo, i, ChosenChild(less, k, i));
  }

  /** Its end. */
  lemma SinkAtRest(less: (int, int) -> bool, k: seq<int>, lo: nat, i: nat)
    requires Compares(less) && Sinking(k, lo, i) && Rests(less, k, i)
    ensures Ordered(k, lo) && Sunk(less, k, i) == k && SunkPath(less, k, i) == {}
  {
    hide Sinking;
    if 2 * i + 1 < |k| {
      LeastChild(less, k, i);
    }
    SinkEnds(k, lo, i);
  }

  lemma LeastInBag(nodes: seq<Node>)
    requires |nodes| > 0 && Ordered(KeysOf(nodes), 0)
    ensures nodes[0].entry in multiset(EntriesOf(nodes))
    ensures forall e :: e in multiset(EntriesOf(nodes)) ==> nodes[0].entry.key <= e.key
  {
    var s, k := EntriesOf(nodes), KeysOf(nodes);
    assert s[0] == nodes[0].entry;
    forall e | e in multiset(s) ensures nodes[0].entry.key <= e.key {
      assert e in s;
      var i :| 0 <= i < |s| && s[i] == e;
      RootLeast(k, i);
    }
  }

  ghost predicate Sorted(s: seq<Entry>) {
    forall i, j :: 0 <= i < j < |s| ==> s[i].key <= s[j].key
  }

  /** Nothing in the bag is smaller than what was taken before. */
  ghost predicate Below(s: seq<Entry>, bag: multiset<Entry>) {
    forall i, e :: 0 <= i < |s| && e in bag ==> s[i].key <= e.key
  }

  lemma DrainStep(s: seq<Entry>, bag: multiset<Entry>, least: Entry)
    requires Sorted(s) && Below(s, bag) && least in bag && (forall e :: e in bag ==> least.key <= e.key)
    ensures Sorted(s + [least]) && Below(s + [least], bag - multiset{least})
    ensures multiset(s + [least]) + (bag - multiset{least}) == multiset(s) + bag
  {
  }

  /** Taking the minimum until nothing is left sorts. */
  method Drain(heap: IntrusiveBinaryHeap) returns (sorted: seq<Entry>)
    requires heap.Valid()
    modifies heap`nodes
    ensures heap.nodes == [] && multiset(sorted) == old(heap.Bag()) && Sorted(sorted)
  {
    hide Ordered, EntriesOf, Sorted, Below;
    sorted := [];
    DrainStarts(heap.Bag());
    while |heap.nodes| > 0
      invariant heap.Valid() && multiset(sorted) + heap.Bag() == old(heap.Bag())
      invariant Sorted(sorted) && Below(sorted, heap.Bag())
      decreases |heap.nodes|
    {
      ghost var bag := heap.Bag();
      var node := heap.PopMin();
      DrainStep(sorted, bag, node.entry);
      sorted := sorted + [node.entry];
    }
    EmptyBag(heap.nodes);
  }

  lemma DrainStarts(bag: multiset<Entry>)
    ensures Sorted([]) && Below([], bag)
  {
  }

  lemma EmptyBag(nodes: seq<Node>)
    requires nodes == []
    ensures multiset(EntriesOf(nodes)) == multiset{}
  {
  }
}
