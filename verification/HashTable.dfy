/** The ordered Robin Hood hash table, with its buckets changed in place. */
module HashTable {
  import opened HashLinks
  import opened HashProbe
  import opened HashState

  datatype SetResult = InsertedNewEntry | ReplacedExistingEntry | KeptExistingEntry

  // ----- the abstract table: entries with distinct keys in first-insertion order -----

  /** Set on the abstract table: an equal key is replaced or kept in place, a new key goes last. */
  function Upsert(es: seq<Entry>, e: Entry, replace: bool): (r: seq<Entry>)
  {
    if es == [] then [e]
    else if es[0].key == e.key then (if replace then [e] + es[1..] else es)
    else [es[0]] + Upsert(es[1..], e, replace)
  }

  predicate HasKey(es: seq<Entry>, key: nat)
  {
    exists k :: 0 <= k < |es| && es[k].key == key
  }

  lemma {:induction false} UpsertAbsent(es: seq<Entry>, e: Entry, replace: bool)
    requires !HasKey(es, e.key)
    ensures Upsert(es, e, replace) == es + [e]
  {
    if es != [] {
      forall k | 0 <= k < |es[1..]| ensures es[1..][k].key != e.key {
        assert es[1..][k] == es[k + 1];
      }
      UpsertAbsent(es[1..], e, replace);
      assert es == [es[0]] + es[1..];
    }
  }

  lemma {:induction false} UpsertPresent(es: seq<Entry>, e: Entry, replace: bool, k: nat)
    requires k < |es| && es[k].key == e.key && forall j :: 0 <= j < k ==> es[j].key != e.key
    ensures Upsert(es, e, replace) == if replace then es[k := e] else es
  {
    if k > 0 {
      UpsertPresent(es[1..], e, replace, k - 1);
      assert es == [es[0]] + es[1..];
    }
  }

  function WithoutKey(es: seq<Entry>, key: nat): (r: seq<Entry>)
  {
    if es == [] then [] else if es[0].key == key then es[1..] else [es[0]] + WithoutKey(es[1..], key)
  }

  lemma {:induction false} WithoutAbsentKey(es: seq<Entry>, key: nat)
    requires !HasKey(es, key)
    ensures WithoutKey(es, key) == es
  {
    if es != [] {
      forall k | 0 <= k < |es[1..]| ensures es[1..][k].key != key {
        assert es[1..][k] == es[k + 1];
      }
      WithoutAbsentKey(es[1..], key);
      assert es == [es[0]] + es[1..];
    }
  }

  lemma {:induction false} WithoutPresentKey(es: seq<Entry>, key: nat, k: nat)
    requires k < |es| && es[k].key == key && forall j :: 0 <= j < k ==> es[j].key != key
    ensures WithoutKey(es, key) == Dropped(es, k) == es[..k] + es[k + 1..]
  {
    if k > 0 {
      WithoutPresentKey(es[1..], key, k - 1);
      assert Dropped(es, k) == [es[0]] + Dropped(es[1..], k - 1);
    }
  }

  /** The entries that do not match, in order. */
  function Failing(es: seq<Entry>, matches: Entry -> bool): (r: seq<Entry>)
  {
    if es == [] then [] else (if matches(es[0]) then [] else [es[0]]) + Failing(es[1..], matches)
  }

  lemma {:induction false} FailingDropped(es: seq<Entry>, matches: Entry -> bool, k: nat)
    requires k < |es| && matches(es[k])
    ensures Failing(Dropped(es, k), matches) == Failing(es, matches)
  {
    if k == 0 {
      assert Dropped(es, 0) == es[1..];
    } else {
      FailingDropped(es[1..], matches, k - 1);
      assert Dropped(es, k)[1..] == Dropped(es[1..], k - 1);
    }
  }

  lemma {:induction false} FailingAll(es: seq<Entry>, matches: Entry -> bool)
    requires forall k :: 0 <= k < |es| ==> !matches(es[k])
    ensures Failing(es, matches) == es
  {
    if es != [] {
      assert forall k :: 0 <= k < |es[1..]| ==> es[1..][k] == es[k + 1];
      FailingAll(es[1..], matches);
    }
  }

  lemma {:induction false} FailingMeaning(es: seq<Entry>, matches: Entry -> bool)
    ensures |Failing(es, matches)| <= |es|
    ensures |Failing(es, matches)| < |es| <==> exists k :: 0 <= k < |es| && matches(es[k])
  {
    if es != [] {
      FailingMeaning(es[1..], matches);
      if |Failing(es[1..], matches)| < |es[1..]| {
        var k :| 0 <= k < |es[1..]| && matches(es[1..][k]);
        assert es[1..][k] == es[k + 1];
      } else if exists k :: 0 <= k < |es| && matches(es[k]) {
        var k :| 0 <= k < |es| && matches(es[k]);
        assert k > 0 ==> es[1..][k - 1] == es[k];
      }
    }
  }

  /** Exactly the entries that do not match are left. */
  lemma {:induction false} FailingMembers(es: seq<Entry>, matches: Entry -> bool, e: Entry)
    ensures e in Failing(es, matches) <==> e in es && !matches(e)
  {
    if es != [] {
      FailingMembers(es[1..], matches, e);
      assert es == [es[0]] + es[1..];
    }
  }

  // ----- a free bucket exists -----

  /** Fewer distinct positions than buckets leave one out. */
  lemma FreeBucket(c: nat, s: seq<Bucket>, order: seq<int>) returns (f: nat)
    requires c <= |s| && Distinct(order) && Listed(c, s, order, NULL) && |order| < c
    ensures f < c && !Used(s[f])
  {
    if forall i :: 0 <= i < c ==> i in order {
      Pigeonhole(c, order);
      assert false;
    }
    f :| 0 <= f < c && f !in order;
  }

  lemma {:induction false} Pigeonhole(c: nat, order: seq<int>)
    requires Distinct(order) && forall i :: 0 <= i < c ==> i in order
    ensures c <= |order|
  {
    if c > 0 {
      assert c - 1 in order;
      var k :| 0 <= k < |order| && order[k] == c - 1;
      var rest := Without(order, k);
      forall i | 0 <= i < c - 1 ensures i in rest {
        WithoutMembers(order, k, i);
      }
      Pigeonhole(c - 1, rest);
    }
  }

  class OrderedHashTable {
    const hash: nat -> nat
    const goodCapacity: nat -> nat
    var buckets: array<Bucket>
    var capacity: nat
    var size: nat
    var head: int
    var tail: int
    ghost var order: seq<int>

    ghost predicate Valid()
      reads this, buckets
    {
      && buckets.Length == capacity + 1
      && size == |order|
      && (capacity == 0 ==> order == [] && head == NULL && tail == NULL)
      && (capacity > 0 ==> size * 100 < capacity * 80 && Settled(hash, capacity, buckets[..], Ends(head, tail), order))
    }

    /** The stored entries in first-insertion order. */
    ghost function Model(): (es: seq<Entry>)
      requires Valid()
      reads this, buckets
    {
      Entries(buckets[..], order)
    }

    constructor (hash: nat -> nat, goodCapacity: nat -> nat)
      ensures Valid() && Model() == [] && this.hash == hash && this.goodCapacity == goodCapacity
      ensures fresh(buckets)
    {
      this.hash, this.goodCapacity := hash, goodCapacity;
      buckets := new Bucket[1];
      capacity, size, head, tail, order := 0, 0, NULL, NULL, [];
    }

    // ----- list updates -----

    method UpdateForNewBucket(i: nat)
      requires i < buckets.Length && ValidLink(buckets.Length, tail) && (head != NULL ==> tail != NULL)
      modifies this`head, this`tail, buckets
      ensures buckets[..] == AppendLink(old(buckets[..]), Ends(old(head), old(tail)), i)
      ensures Ends(head, tail) == AppendEnds(Ends(old(head), old(tail)), i)
    {
      if head == NULL {
        head := i;
      } else {
        buckets[i] := buckets[i].(previous := tail);
        buckets[tail] := buckets[tail].(next := i);
      }
      tail := i;
    }

    method RelinkPreviousBucket(left: nat, right: nat)
      requires left < buckets.Length && right < buckets.Length && ValidLink(buckets.Length, buckets[left].previous)
      modifies buckets
      ensures buckets[..] == RelinkPrevious(old(buckets[..]), left, right)
    {
      if buckets[left].previous != NULL {
        if buckets[left].previous == left {
          buckets[left] := buckets[left].(previous := right);
        }
        var p := buckets[left].previous;
        buckets[p] := buckets[p].(next := left);
      }
    }

    method RelinkNextBucket(left: nat, right: nat)
      requires left < buckets.Length && right < buckets.Length && ValidLink(buckets.Length, buckets[left].next)
      modifies buckets
      ensures buckets[..] == RelinkNext(old(buckets[..]), left, right)
    {
      if buckets[left].next != NULL {
        if buckets[left].next == left {
          buckets[left] := buckets[left].(next := right);
        }
        var n := buckets[left].next;
        buckets[n] := buckets[n].(previous := left);
      }
    }

    method PointPreviousNeighbour(left: nat, right: nat)
      requires right < buckets.Length && ValidLink(buckets.Length, buckets[right].previous)
      modifies buckets
      ensures buckets[..] == PointNextAt(old(buckets[..]), left, right)
    {
      if buckets[right].previous != NULL && buckets[right].previous != left {
        var p := buckets[right].previous;
        buckets[p] := buckets[p].(next := right);
      }
    }

    method PointNextNeighbour(left: nat, right: nat)
      requires right < buckets.Length && ValidLink(buckets.Length, buckets[right].next)
      modifies buckets
      ensures buckets[..] == PointPreviousAt(old(buckets[..]), left, right)
    {
      if buckets[right].next != NULL && buckets[right].next != left {
        var n := buckets[right].next;
        buckets[n] := buckets[n].(previous := right);
      }
    }

    /** The left bucket and its neighbours. */
    method RelinkLeftBucket(left: nat, right: nat)
      requires left < buckets.Length && right < buckets.Length && left != right
      requires ValidLink(buckets.Length, buckets[left].previous) && ValidLink(buckets.Length, buckets[left].next)
      modifies buckets
      ensures buckets[..] == RelinkLeft(old(buckets[..]), left, right)
    {
      RelinkedLeft(buckets[..], left, right);
      hide RelinkPrevious, RelinkNext;
      RelinkPreviousBucket(left, right);
      RelinkNextBucket(left, right);
    }

    /** The neighbours of the right bucket. */
    method RelinkRightBucket(left: nat, right: nat)
      requires right < buckets.Length
      requires ValidLink(buckets.Length, buckets[right].previous) && ValidLink(buckets.Length, buckets[right].next)
      modifies buckets
      ensures buckets[..] == RelinkRight(old(buckets[..]), left, right)
    {
      RelinkedRight(buckets[..], left, right);
      hide PointNextAt, PointPreviousAt;
      PointPreviousNeighbour(left, right);
      PointNextNeighbour(left, right);
    }

    method UpdateForSwappedBuckets(left: nat, right: nat)
      requires left < buckets.Length && right < buckets.Length && left != right
      requires ValidLink(buckets.Length, buckets[left].previous) && ValidLink(buckets.Length, buckets[left].next)
      requires ValidLink(buckets.Length, buckets[right].previous) && ValidLink(buckets.Length, buckets[right].next)
      modifies this`head, this`tail, buckets
      ensures buckets[..] == Relinked(old(buckets[..]), left, right)
      ensures Ends(head, tail) == ExchangeEnds(Ends(old(head), old(tail)), left, right)
    {
      head := if head == left then right else if head == right then left else head;
      tail := if tail == left then right else if tail == right then left else tail;
      RelinkedLeft(buckets[..], left, right);
      hide RelinkLeft, RelinkRight;
      RelinkLeftBucket(left, right);
      RelinkRightBucket(left, right);
    }

    // ----- lookup -----

    /** lookup_with_hash: the bucket that holds the key, or null. */
    method Lookup(key: nat) returns (index: int)
      requires Valid()
      ensures index == NULL <==> !HasKey(Model(), key)
      ensures index != NULL ==>
                0 <= index < capacity && Used(buckets[index]) && buckets[index].slot.key == key && index in order
    {
      if size == 0 {
        return NULL;
      }
      hide Settled, Ring, Linked, RobinHood, Passed, HasKey, Absent, Entries, Listed, Coherent;
      ghost var s := buckets[..];
      SettledParts(hash, capacity, s, Ends(head, tail), order);
      ghost var f := FreeBucket(capacity, s, order);
      var i: nat := Ideal(hash, capacity, key);
      ghost var d: nat := 0;
      PassedNone(hash, capacity, s, key, f);
      while true
        invariant i < capacity && d < capacity && Passed(hash, capacity, s, key, f, d, i)
        decreases capacity - d
      {
        if !Used(buckets[i]) {
          PassedAll(hash, capacity, s, key, f, d, i);
          AbsentFromModel(hash, capacity, s, Ends(head, tail), order, key);
          return NULL;
        }
        if buckets[i].slot.key == key {
          PresentInModel(capacity, s, order, i);
          return i;
        }
        PassedNext(hash, capacity, s, key, f, d, i);
        d := d + 1;
        i := if i + 1 == capacity then 0 else i + 1;
      }
    }

    /** values: following `next` from the head visits the stored entries in first-insertion order. */
    method Values() returns (list: seq<Entry>)
      requires Valid()
      ensures list == Model()
    {
      hide Settled, Linked;
      list := [];
      var it := head;
      ghost var n: nat := 0;
      if capacity > 0 {
        WalkStart(hash, capacity, buckets[..], Ends(head, tail), order);
      }
      while it != NULL
        invariant n <= |order| && list == Model()[..n]
        invariant it == if n < |order| then order[n] else NULL
        decreases |order| - n
      {
        WalkNext(hash, capacity, buckets[..], Ends(head, tail), order, n);
        list := list + [buckets[it].slot];
        it := buckets[it].next;
        n := n + 1;
      }
      if n < |order| {
        WalkNext(hash, capacity, buckets[..], Ends(head, tail), order, n);
      }
    }

    /** Iteration from rbegin: following `previous` from the tail visits them in the reverse order. */
    method ValuesInReverse() returns (list: seq<Entry>)
      requires Valid()
      ensures |list| == |Model()| && forall k :: 0 <= k < |list| ==> list[k] == Model()[|list| - 1 - k]
    {
      hide Settled, Linked;
      list := [];
      var it := tail;
      ghost var n: nat := |order|;
      if capacity > 0 {
        WalkEnd(hash, capacity, buckets[..], Ends(head, tail), order);
      }
      while it != NULL
        invariant n <= |order| && |list| == |order| - n
        invariant forall k :: 0 <= k < |list| ==> list[k] == Model()[|order| - 1 - k]
        invariant it == if n > 0 then order[n - 1] else NULL
        decreases n
      {
        WalkBack(hash, capacity, buckets[..], Ends(head, tail), order, n);
        list := list + [buckets[it].slot];
        it := buckets[it].previous;
        n := n - 1;
      }
      if n > 0 {
        WalkBack(hash, capacity, buckets[..], Ends(head, tail), order, n);
      }
    }

    // ----- insertion -----

    /** A free bucket takes a new entry, which goes last in the list. */
    method FillFree(i: nat, e: Entry, probe: nat)
      requires buckets.Length == capacity + 1 && Settled(hash, capacity, buckets[..], Ends(head, tail), order)
               && size == |order|
      requires i < capacity && !Used(buckets[i]) && probe == Probe(hash, capacity, i, e.key)
      requires MayPlace(hash, capacity, buckets[..], i, e.key) && Absent(capacity, buckets[..], e.key)
      modifies this`head, this`tail, this`size, this`order, buckets
      ensures Settled(hash, capacity, buckets[..], Ends(head, tail), order) && size == |order| == old(size) + 1
      ensures Entries(buckets[..], order) == old(Entries(buckets[..], order)) + [e]
    {
      hide Settled, Entries, MayPlace, Probe, Absent, AppendLink;
      ghost var s, ends := buckets[..], Ends(head, tail);
      Inserted(hash, capacity, s, ends, order, i, e);
      buckets[i] := buckets[i].(state := StateFor(probe), slot := e);
      assert buckets[..] == s[i := s[i].(state := StateFor(probe), slot := e)];
      UpdateForNewBucket(i);
      size := size + 1;
      order := order + [i];
    }

    /** Taking over bucket i for a new entry: its old occupant goes to the spare cell, still listed in its place. */
    method Steal(i: nat, e: Entry, probe: nat)
      requires buckets.Length == capacity + 1 && Settled(hash, capacity, buckets[..], Ends(head, tail), order)
               && size == |order|
      requires i < capacity && Used(buckets[i]) && probe == Probe(hash, capacity, i, e.key)
      requires MayPlace(hash, capacity, buckets[..], i, e.key) && Absent(capacity, buckets[..], e.key)
      modifies this`head, this`tail, this`size, this`order, buckets
      ensures Carrying(hash, capacity, buckets[..], Ends(head, tail), order) && size == |order| == old(size) + 1
      ensures Entries(buckets[..], order) == old(Entries(buckets[..], order)) + [e]
      ensures buckets[capacity].slot == old(buckets[i].slot) && buckets[i].slot == e && Used(buckets[i])
      ensures forall j :: 0 <= j < capacity && j != i ==> buckets[j].state == old(buckets[j].state)
    {
      hide Settled, Carrying, Relinked, ExchangeAll, ExchangeEnds, AppendLink, Entries;
      ghost var s, ends := buckets[..], Ends(head, tail);
      Stolen(hash, capacity, s, ends, order, i, e);
      buckets[capacity] := buckets[i];
      assert buckets[..] == s[capacity := s[i]];
      UpdateForSwappedBuckets(i, capacity);
      ghost var s2 := buckets[..];
      order := ExchangeAll(order, i, capacity);
      buckets[i] := buckets[i].(next := NULL, state := StateFor(probe), slot := e);
      assert buckets[..] == s2[i := s2[i].(next := NULL, state := StateFor(probe), slot := e)];
      UpdateForNewBucket(i);
      order := order + [i];
      size := size + 1;
    }

    /** The bucket in hand is placed at j; an occupant with a shorter probe comes into hand. */
    method PlaceInHand(j: nat, probe: nat)
      requires buckets.Length == capacity + 1 && Carrying(hash, capacity, buckets[..], Ends(head, tail), order)
      requires j < capacity && probe == Probe(hash, capacity, j, buckets[capacity].slot.key)
      requires MayPlace(hash, capacity, buckets[..], j, buckets[capacity].slot.key)
      modifies this`head, this`tail, this`order, buckets
      ensures old(Used(buckets[j])) ==> Carrying(hash, capacity, buckets[..], Ends(head, tail), order)
      ensures !old(Used(buckets[j])) ==> Settled(hash, capacity, buckets[..], Ends(head, tail), order)
      ensures InRange(buckets.Length, order) && |order| == old(|order|)
      ensures Entries(buckets[..], order) == old(Entries(buckets[..], order))
      ensures old(Used(buckets[j])) ==> buckets[capacity].slot == old(buckets[j].slot)
      ensures buckets[j].slot == old(buckets[capacity].slot) && Used(buckets[j])
      ensures forall i :: 0 <= i < capacity && i != j ==> buckets[i].state == old(buckets[i].state)
    {
      hide Settled, Carrying, Relinked, ExchangeEnds, Entries;
      ghost var s := buckets[..];
      HandedOver(hash, capacity, s, Ends(head, tail), order, j);
      var inHand := buckets[capacity];
      if Used(buckets[j]) {
        buckets[capacity] := buckets[j];
      }
      buckets[j] := inHand.(state := StateFor(probe));
      assert buckets[..] == HandOver(capacity, s, j, probe);
      UpdateForSwappedBuckets(capacity, j);
      order := ExchangeAll(order, capacity, j);
    }

    /** After a steal at `start`: find a free bucket, swapping with buckets of shorter probe along the way. */
    method Displace(start: nat, startProbe: nat, ghost f: nat)
      requires buckets.Length == capacity + 1 && Carrying(hash, capacity, buckets[..], Ends(head, tail), order)
      requires start < capacity && Used(buckets[start])
               && startProbe == Probe(hash, capacity, start, buckets[capacity].slot.key)
      requires startProbe <= Probe(hash, capacity, start, buckets[start].slot.key)
      requires f < capacity && !Used(buckets[f])
      modifies this`head, this`tail, this`order, buckets
      ensures Settled(hash, capacity, buckets[..], Ends(head, tail), order) && |order| == old(|order|)
      ensures Entries(buckets[..], order) == old(Entries(buckets[..], order))
    {
      hide Settled, Carrying, Entries, MayPlace, Probe, RobinHood, Coherent, Distance;
      CarryingParts(hash, capacity, buckets[..], Ends(head, tail), order);
      var i: nat, probe: nat := start, startProbe;
      while true
        invariant Carrying(hash, capacity, buckets[..], Ends(head, tail), order) && |order| == old(|order|)
        invariant InRange(buckets.Length, order) && Entries(buckets[..], order) == old(Entries(buckets[..], order))
        invariant i < capacity && Used(buckets[i]) && probe == Probe(hash, capacity, i, buckets[capacity].slot.key)
        invariant probe <= Probe(hash, capacity, i, buckets[i].slot.key) && !Used(buckets[f])
        decreases Distance(capacity, i, f)
      {
        ghost var s := buckets[..];
        DisplaceNext(hash, capacity, s, Ends(head, tail), order, i, f);
        i := if i + 1 == capacity then 0 else i + 1;
        probe := probe + 1;
        if !Used(buckets[i]) {
          PlaceInHand(i, probe);
          return;
        }
        var target := ProbeLength(hash, capacity, buckets[i], i);
        ProbeLengthIsProbe(hash, capacity, s, i);
        if probe > target {
          PlaceInHand(i, probe);
          probe := target;
          CarryingParts(hash, capacity, buckets[..], Ends(head, tail), order);
        }
      }
    }

    /** write_value: an equal key is replaced or kept where it is, a new key goes last in the list. */
    /** The walk ends at a free bucket, which takes the entry. */
    method InsertFree(e: Entry, i: nat, probe: nat)
      requires Valid() && !ShouldGrow() && capacity > 0
      requires Scanned(hash, capacity, buckets[..], e.key, probe, i) && i < capacity && !Used(buckets[i])
      modifies this`head, this`tail, this`size, this`order, buckets
      ensures Valid() && size == old(size) + 1
      ensures !HasKey(old(Model()), e.key) && Model() == old(Model()) + [e]
    {
      hide Settled, Entries, MayPlace, Probe, HasKey, Absent, Scanned;
      ScanFree(hash, capacity, buckets[..], Ends(head, tail), order, e.key, probe, i);
      FillFree(i, e, probe);
    }

    /** The walk ends at a bucket that is closer to its home, which the entry takes over. */
    method InsertStealing(e: Entry, i: nat, probe: nat, target: nat, ghost f: nat)
      requires Valid() && !ShouldGrow() && capacity > 0
      requires Scanned(hash, capacity, buckets[..], e.key, probe, i) && i < capacity && Used(buckets[i])
      requires buckets[i].slot.key != e.key && probe > target == Probe(hash, capacity, i, buckets[i].slot.key)
      requires f < capacity && !Used(buckets[f])
      modifies this`head, this`tail, this`size, this`order, buckets
      ensures Valid() && size == old(size) + 1
      ensures !HasKey(old(Model()), e.key) && Model() == old(Model()) + [e]
    {
      hide Settled, Entries, MayPlace, Probe, HasKey, Absent, Scanned, Carrying;
      ScanSteal(hash, capacity, buckets[..], Ends(head, tail), order, e.key, probe, i);
      Steal(i, e, probe);
      Displace(i, target, f);
    }

    method WriteValue(e: Entry, replace: bool) returns (result: SetResult)
      requires Valid() && !ShouldGrow()
      modifies this`head, this`tail, this`size, this`order, buckets
      ensures Valid() && Model() == Upsert(old(Model()), e, replace)
      ensures result == if !HasKey(old(Model()), e.key) then InsertedNewEntry
                        else if replace then ReplacedExistingEntry else KeptExistingEntry
      ensures size == old(size) + if result == InsertedNewEntry then 1 else 0
    {
      hide Settled, Entries, Probe, RobinHood, Upsert, HasKey, Linked, Listed, Coherent, Scanned;
      ghost var s, ends := buckets[..], Ends(head, tail);
      SettledParts(hash, capacity, s, ends, order);
      ghost var es := Entries(s, order);
      ghost var f := FreeBucket(capacity, s, order);
      var i: nat, probe: nat := Ideal(hash, capacity, e.key), 0;
      ScanStart(hash, capacity, s, e.key);
      while true
        invariant Scanned(hash, capacity, s, e.key, probe, i) && buckets[..] == s && Ends(head, tail) == ends
        invariant order == old(order) && size == old(size) && i < capacity && probe < capacity
        decreases capacity - probe
      {
        if !Used(buckets[i]) {
          InsertFree(e, i, probe);
          UpsertAbsent(es, e, replace);
          return InsertedNewEntry;
        }
        if buckets[i].slot.key == e.key {
          ghost var k := PositionOf(hash, capacity, s, ends, order, i, e, replace);
          if replace {
            buckets[i] := buckets[i].(slot := e);
            return ReplacedExistingEntry;
          }
          return KeptExistingEntry;
        }
        var target := ProbeLength(hash, capacity, buckets[i], i);
        ProbeLengthIsProbe(hash, capacity, s, i);
        if probe > target {
          InsertStealing(e, i, probe, target, f);
          UpsertAbsent(es, e, replace);
          return InsertedNewEntry;
        }
        ScanNext(hash, capacity, s, e.key, probe, i, f);
        i := if i + 1 == capacity then 0 else i + 1;
        probe := probe + 1;
      }
    }

    // ----- deletion -----

    /** The list part of delete_bucket. */
    method UnlinkBucket(x: nat)
      requires x < buckets.Length && ValidLink(buckets.Length, buckets[x].previous)
               && ValidLink(buckets.Length, buckets[x].next)
      modifies this`head, this`tail, buckets
      ensures buckets[..] == Unlink(old(buckets[..]), x)
      ensures Ends(head, tail) == UnlinkEnds(old(buckets[..]), Ends(old(head), old(tail)), x)
    {
      var p, n := buckets[x].previous, buckets[x].next;
      if p != NULL {
        buckets[p] := buckets[p].(next := n);
      } else {
        head := n;
      }
      if n != NULL {
        buckets[n] := buckets[n].(previous := p);
      } else {
        tail := p;
      }
      buckets[x] := buckets[x].(previous := NULL);
      buckets[x] := buckets[x].(next := NULL);
    }

    /** One shift of delete_bucket: bucket `from` moves back to `to`. */
    method ShiftBucket(from: nat, to: nat, state: nat)
      requires from < buckets.Length && to < buckets.Length && from != to && buckets[from].previous != to
      requires ValidLink(buckets.Length, buckets[from].previous) && ValidLink(buckets.Length, buckets[from].next)
      modifies this`head, this`tail, buckets
      ensures buckets[..] == ShiftLinks(old(buckets[..]), from, to, state)
      ensures Ends(head, tail) == ShiftEnds(old(buckets[..]), Ends(old(head), old(tail)), from, to)
    {
      buckets[to] := buckets[from];
      buckets[from] := buckets[from].(previous := NULL);
      buckets[from] := buckets[from].(next := NULL);
      buckets[to] := buckets[to].(state := state);
      if buckets[to].previous != NULL {
        var p := buckets[to].previous;
        buckets[p] := buckets[p].(next := to);
      } else {
        head := to;
      }
      if buckets[to].next != NULL {
        var n := buckets[to].next;
        buckets[n] := buckets[n].(previous := to);
      } else {
        tail := to;
      }
    }

    /** One turn of the shifting loop: the bucket after the hole moves into it. */
    method ShiftBack(to: nat, from: nat, probe: nat, ghost s: seq<Bucket>, ghost x: nat, ghost d: nat)
      requires buckets.Length == capacity + 1 && Holed(hash, capacity, buckets[..], Ends(head, tail), order, to)
      requires to < capacity && from == Next(capacity, to) && Used(buckets[from])
      requires 0 < probe == Probe(hash, capacity, from, buckets[from].slot.key)
      requires Slid(capacity, s, buckets[..], x, d) && d == Distance(capacity, x, to)
      requires d + 1 == Distance(capacity, x, from)
      modifies this`head, this`tail, this`order, buckets
      ensures Holed(hash, capacity, buckets[..], Ends(head, tail), order, from) && |order| == old(|order|)
      ensures InRange(buckets.Length, order) && InRange(buckets.Length, old(order))
      ensures Entries(buckets[..], order) == old(Entries(buckets[..], order))
      ensures Slid(capacity, s, buckets[..], x, d + 1)
    {
      hide Settled, Entries, Holed, Probe, RobinHood, Coherent, Linked, ShiftLinks, ShiftEnds, ExchangeAll, Slid,
          SlidBack, Distance;
      ghost var t := buckets[..];
      HoledParts(hash, capacity, t, Ends(head, tail), order, to);
      ShiftedHole(hash, capacity, t, Ends(head, tail), order, to);
      ShiftBucket(from, to, StateFor(probe - 1));
      order := ExchangeAll(order, from, to);
      SlidStep(capacity, s, t, buckets[..], x, to, d);
    }

    /** The shifting loop of delete_bucket, from the hole at x. */
    method CloseHole(x: nat, ghost s: seq<Bucket>, ghost f: nat)
      requires buckets.Length == capacity + 1 == |s| && Holed(hash, capacity, buckets[..], Ends(head, tail), order, x)
      requires x < capacity && f < capacity && f != x && !Used(s[f]) && SameContents(capacity + 1, s, buckets[..])
      modifies this`head, this`tail, this`order, buckets
      ensures Settled(hash, capacity, buckets[..], Ends(head, tail), order) && |order| == old(|order|)
      ensures Entries(buckets[..], order) == old(Entries(buckets[..], order))
      ensures SlidBack(capacity, s, buckets[..], x)
    {
      hide Settled, Entries, Holed, Probe, RobinHood, Coherent, Linked, ShiftLinks, ShiftEnds, ExchangeAll, Slid,
          SlidBack, Distance;
      HoledParts(hash, capacity, buckets[..], Ends(head, tail), order, x);
      var to: nat, from: nat := x, x;
      ghost var d: nat := 0;
      SlidStart(capacity, s, buckets[..], x, f);
      while true
        invariant Holed(hash, capacity, buckets[..], Ends(head, tail), order, to) && |order| == old(|order|)
        invariant InRange(buckets.Length, order) && Entries(buckets[..], order) == old(Entries(buckets[..], order))
        invariant from == to < capacity && d == Distance(capacity, x, to) < Distance(capacity, x, f)
        invariant Slid(capacity, s, buckets[..], x, d)
        decreases Distance(capacity, x, f) - d
      {
        ghost var t := buckets[..];
        HoledParts(hash, capacity, t, Ends(head, tail), order, to);
        HoleStep(capacity, x, to, f, d);
        SlidAhead(capacity, s, t, x, to, f, d);
        from := if from + 1 == capacity then 0 else from + 1;
        if !Used(buckets[from]) {
          break;
        }
        var probe := ProbeLength(hash, capacity, buckets[from], from);
        ProbeLengthIsProbe(hash, capacity, t, from);
        if probe == 0 {
          break;
        }
        ShiftBack(to, from, probe, s, x, d);
        to, d := from, d + 1;
      }
      ClosedHole(hash, capacity, buckets[..], Ends(head, tail), order, to);
      SlidEnd(capacity, s, buckets[..], x, to, d);
      buckets[to] := buckets[to].(state := FREE);
    }

    /** delete_bucket removes exactly the entry at list position k; entries only move to their predecessor. */
    method DeleteBucket(x: nat, ghost k: nat)
      requires Valid() && k < |order| && order[k] == x
      modifies this`head, this`tail, this`size, this`order, buckets
      ensures Valid() && size == old(size) - 1 && Model() == Dropped(old(Model()), k)
      ensures SlidBack(capacity, old(buckets[..]), buckets[..], x)
    {
      hide Settled, Entries, Holed, Linked, Unlink, UnlinkEnds, Without, SlidBack, Listed;
      ghost var s := buckets[..];
      SettledParts(hash, capacity, s, Ends(head, tail), order);
      ghost var f := FreeBucket(capacity, s, order);
      ListedUsed(capacity, s, order, k);
      UnlinkedHole(hash, capacity, s, Ends(head, tail), order, k);
      WithoutLength(order, k);
      UnlinkBucket(x);
      order := Without(order, k);
      size := size - 1;
      HoledParts(hash, capacity, buckets[..], Ends(head, tail), order, x);
      CloseHole(x, s, f);
    }

    method Remove(key: nat) returns (removed: bool)
      requires Valid()
      modifies this`head, this`tail, this`size, this`order, buckets
      ensures Valid() && removed == HasKey(old(Model()), key) && Model() == WithoutKey(old(Model()), key)
    {
      hide Settled, Entries, SlidBack, HasKey, WithoutKey, Dropped;
      var index := Lookup(key);
      if index == NULL {
        WithoutAbsentKey(Model(), key);
        return false;
      }
      ghost var k :| 0 <= k < |order| && order[k] == index;
      UniquePosition(hash, capacity, buckets[..], Ends(head, tail), order, k);
      DeleteBucket(index, k);
      return true;
    }

    method TakeFirst() returns (e: Entry)
      requires Valid() && size > 0
      modifies this`head, this`tail, this`size, this`order, buckets
      ensures Valid() && e == old(Model())[0] && Model() == old(Model())[1..]
    {
      SettledParts(hash, capacity, buckets[..], Ends(head, tail), order);
      hide Settled, SlidBack;
      e := buckets[head].slot;
      DeleteBucket(head, 0);
    }

    method TakeLast() returns (e: Entry)
      requires Valid() && size > 0
      modifies this`head, this`tail, this`size, this`order, buckets
      ensures Valid() && e == old(Model())[old(size) - 1] && Model() == old(Model())[..old(size) - 1]
    {
      SettledParts(hash, capacity, buckets[..], Ends(head, tail), order);
      hide Settled, SlidBack;
      e := buckets[tail].slot;
      DeleteBucket(tail, size - 1);
    }

    /** A matching entry found at i is deleted. */
    method DeleteMatching(matches: Entry -> bool, i: nat)
      requires Valid() && i < capacity && Used(buckets[i]) && matches(buckets[i].slot)
      requires NoneMatching(buckets[..], matches, i)
      modifies this`head, this`tail, this`size, this`order, buckets
      ensures Valid() && size == old(size) - 1 && |Model()| == |old(Model())| - 1
      ensures Failing(Model(), matches) == Failing(old(Model()), matches) && NoneMatching(buckets[..], matches, i)
    {
      hide Settled, Entries, SlidBack, Failing, Dropped, NoneMatching;
      ghost var s := buckets[..];
      SettledParts(hash, capacity, s, Ends(head, tail), order);
      PresentInModel(capacity, s, order, i);
      ghost var k :| 0 <= k < |order| && order[k] == i;
      FailingDropped(Model(), matches, k);
      DroppedLength(Model(), k);
      DeleteBucket(i, k);
      NoneMatchingSlid(capacity, s, buckets[..], matches, i);
    }

    /** remove_all_matching: an index is examined again when a shift refilled it. */
    method RemoveAllMatching(matches: Entry -> bool) returns (removedAny: bool)
      requires Valid()
      modifies this`head, this`tail, this`size, this`order, buckets
      ensures Valid() && Model() == Failing(old(Model()), matches)
      ensures removedAny == exists k :: 0 <= k < |old(Model())| && matches(old(Model())[k])
    {
      hide Settled, Entries, Failing, NoneMatching;
      removedAny := false;
      var i := 0;
      NoneMatchingAtFirst(buckets[..], matches);
      while i < capacity
        invariant Valid() && 0 <= i <= capacity
        invariant Failing(Model(), matches) == Failing(old(Model()), matches)
        invariant removedAny <==> |Model()| < |old(Model())|
        invariant |Model()| <= |old(Model())| && (!removedAny ==> Model() == old(Model()))
        invariant NoneMatching(buckets[..], matches, i)
        decreases size, capacity - i
      {
        if !Used(buckets[i]) || !matches(buckets[i].slot) {
          NoneMatchingNext(buckets[..], matches, i);
          i := i + 1;
        } else {
          DeleteMatching(matches, i);
          removedAny := true;
          if !Used(buckets[i]) {
            NoneMatchingNext(buckets[..], matches, i);
            i := i + 1;
          }
        }
      }
      if capacity > 0 {
        SettledParts(hash, capacity, buckets[..], Ends(head, tail), order);
      }
      NoneLeft(hash, capacity, buckets[..], Ends(head, tail), order, matches, Model());
      FailingMeaning(old(Model()), matches);
    }

    // ----- growth -----

    predicate ShouldGrow()
      reads this
    {
      (size + 1) * 100 >= capacity * 80
    }

    /** An entry with a new key, as rehashing writes it. */
    method Append(e: Entry)
      requires Valid() && !ShouldGrow() && !HasKey(Model(), e.key)
      modifies this`head, this`tail, this`size, this`order, buckets
      ensures Valid() && size == old(size) + 1 && Model() == old(Model()) + [e]
    {
      hide Settled, Entries, Upsert, HasKey;
      UpsertAbsent(Model(), e, false);
      var result := WriteValue(e, false);
    }

    /** The loop of try_rehash: the entries of the old ring, in list order, go into this empty one. */
    method CopyEntries(from: array<Bucket>, first: int, ghost c: nat, ghost ends: Ends, ghost order0: seq<int>)
      requires Valid() && size == 0 && from != buckets && Settled(hash, c, from[..], ends, order0)
      requires first == (if order0 == [] then NULL else order0[0]) && |order0| * 100 < capacity * 80
      modifies this`head, this`tail, this`size, this`order, buckets
      ensures Valid() && InRange(from.Length, order0) && Model() == Entries(from[..], order0)
    {
      hide Settled, Entries, HasKey;
      ghost var s := from[..];
      WalkNext(hash, c, s, ends, order0, 0);
      ghost var es := Entries(s, order0);
      var it := first;
      ghost var n: nat := 0;
      while it != NULL
        invariant from[..] == s && Valid() && n <= |order0| && size == n && Model() == es[..n]
        invariant it == if n < |order0| then order0[n] else NULL
        decreases |order0| - n
      {
        WalkNext(hash, c, s, ends, order0, n);
        Append(from[it].slot);
        assert es[..n + 1] == es[..n] + [es[n]];
        it := from[it].next;
        n := n + 1;
      }
      WalkNext(hash, c, s, ends, order0, n);
      assert es[..n] == es;
    }

    /** try_rehash: a larger ring with the same entries in the same order. */
    method Rehash(requested: nat)
      requires Valid() && forall n: nat :: goodCapacity(n) >= n
      modifies this
      ensures Valid() && Model() == old(Model()) && fresh(buckets)
      ensures var least := old(capacity) + 8;
              capacity == goodCapacity(if requested < least then least else requested)
    {
      hide Settled, Entries;
      var newCapacity := goodCapacity(if requested < capacity + 8 then capacity + 8 else requested);
      var oldBuckets, oldCapacity, it := buckets, capacity, head;
      ghost var ends, order0 := Ends(head, tail), order;
      if oldCapacity > 0 {
        WalkStart(hash, oldCapacity, buckets[..], ends, order0);
      }
      buckets := new Bucket[newCapacity + 1](i => Bucket(NULL, NULL, FREE, Entry(0, 0)));
      capacity, head, tail, order := newCapacity, NULL, NULL, [];
      EmptySettled(hash, capacity, buckets[..]);
      if oldCapacity == 0 {
        return;
      }
      size := 0;
      CopyEntries(oldBuckets, it, oldCapacity, ends, order0);
    }

    /** try_set: grow when the load factor demands it, then write. */
    method Set(e: Entry, replace: bool) returns (result: SetResult)
      requires Valid() && forall n: nat :: goodCapacity(n) >= n
      modifies this, buckets
      ensures Valid() && Model() == Upsert(old(Model()), e, replace)
      ensures result == if !HasKey(old(Model()), e.key) then InsertedNewEntry
                        else if replace then ReplacedExistingEntry else KeptExistingEntry
      ensures buckets == old(buckets) || fresh(buckets)
      ensures size * 100 < capacity * 80 && (capacity > old(capacity) <==> (old(size) + 1) * 100 >= old(capacity) * 80)
      ensures var least, more := old(capacity) + 8, old(capacity) * 160 / 100;
              capacity > old(capacity) ==> capacity == goodCapacity(if more < least then least else more)
    {
      hide Settled, Entries, Upsert, HasKey;
      if ShouldGrow() {
        Rehash(capacity * (100 + 60) / 100);
      }
      result := WriteValue(e, replace);
    }
  }

  /** The walk of lookup_with_hash: none of the d buckets passed holds the key or is the free one. */
  ghost predicate Passed(h: nat -> nat, c: nat, s: seq<Bucket>, key: nat, f: nat, d: nat, i: nat) {
    && d < c <= |s| && f < c && !Used(s[f]) && i == Ahead(c, Ideal(h, c, key), d)
    && (forall m :: 0 <= m < d ==>
          var j := Ahead(c, Ideal(h, c, key), m);
          s[j].slot.key != key && j != f)
  }

  lemma PassedNone(h: nat -> nat, c: nat, s: seq<Bucket>, key: nat, f: nat)
    requires f < c <= |s| && !Used(s[f])
    ensures Ideal(h, c, key) < c && Passed(h, c, s, key, f, 0, Ideal(h, c, key))
  {
  }

  lemma PassedNext(h: nat -> nat, c: nat, s: seq<Bucket>, key: nat, f: nat, d: nat, i: nat)
    requires Passed(h, c, s, key, f, d, i) && i < c && Used(s[i]) && s[i].slot.key != key
    ensures d + 1 < c && Passed(h, c, s, key, f, d + 1, Next(c, i))
  {
    assert f == Ahead(c, Ideal(h, c, key), Distance(c, Ideal(h, c, key), f));
  }

  lemma PassedAll(h: nat -> nat, c: nat, s: seq<Bucket>, key: nat, f: nat, d: nat, i: nat)
    requires Passed(h, c, s, key, f, d, i) && RobinHood(h, c, s) && i < c && !Used(s[i])
    ensures Absent(c, s, key)
  {
    hide RobinHood;
    NotStored(h, c, s, key, d);
  }

  lemma SettledParts(h: nat -> nat, c: nat, s: seq<Bucket>, ends: Ends, order: seq<int>)
    requires Settled(h, c, s, ends, order)
    ensures 2 <= c && |s| == c + 1 && InRange(c, order) && InRange(|s|, order) && Distinct(order)
            && Listed(c, s, order, NULL)
    ensures Coherent(h, c, s) && RobinHood(h, c, s)
    ensures EndsOf(ends, order)
  {
    forall k | 0 <= k < |order| ensures 0 <= order[k] < c {
      assert order[k] in order;
    }
  }

  /** The walk of write_value: every bucket passed is used, holds another key, and is no closer to home. */
  ghost predicate Scanned(h: nat -> nat, c: nat, s: seq<Bucket>, key: nat, probe: nat, i: nat)
  {
    && probe < c <= |s| && i == Ahead(c, Ideal(h, c, key), probe)
    && (forall m :: 0 <= m < probe ==>
          var j := Ahead(c, Ideal(h, c, key), m);
          Used(s[j]) && s[j].slot.key != key && Probe(h, c, j, s[j].slot.key) >= m)
  }

  lemma ScanStart(h: nat -> nat, c: nat, s: seq<Bucket>, key: nat)
    requires 0 < c <= |s|
    ensures Scanned(h, c, s, key, 0, Ideal(h, c, key)) && Ideal(h, c, key) < c
  {
  }

  lemma ScanNext(h: nat -> nat, c: nat, s: seq<Bucket>, key: nat, probe: nat, i: nat, f: nat)
    requires Scanned(h, c, s, key, probe, i) && f < c && !Used(s[f])
    requires Used(s[i]) && s[i].slot.key != key && probe <= Probe(h, c, i, s[i].slot.key)
    ensures Scanned(h, c, s, key, probe + 1, Next(c, i)) && probe + 1 < c
  {
    assert f == Ahead(c, Ideal(h, c, key), Distance(c, Ideal(h, c, key), f));
  }

  lemma ScanPlace(h: nat -> nat, c: nat, s: seq<Bucket>, key: nat, probe: nat, i: nat)
    requires Scanned(h, c, s, key, probe, i)
    requires Used(s[i]) ==> Probe(h, c, i, s[i].slot.key) < probe
    ensures probe == Probe(h, c, i, key) && MayPlace(h, c, s, i, key)
  {
    if probe > 0 {
      assert Before(c, i) == Ahead(c, Ideal(h, c, key), probe - 1);
    }
  }

  lemma ScanFree(h: nat -> nat, c: nat, s: seq<Bucket>, ends: Ends, order: seq<int>, key: nat, probe: nat, i: nat)
    requires Settled(h, c, s, ends, order) && Scanned(h, c, s, key, probe, i) && !Used(s[i])
    ensures probe == Probe(h, c, i, key) && MayPlace(h, c, s, i, key) && Absent(c, s, key)
    ensures InRange(|s|, order) && !HasKey(Entries(s, order), key)
    ensures ValidLink(|s|, ends.tail) && (ends.head != NULL ==> ends.tail != NULL)
  {
    ScanPlace(h, c, s, key, probe, i);
    NotStored(h, c, s, key, probe);
    AbsentFromModel(h, c, s, ends, order, key);
  }

  lemma ScanSteal(h: nat -> nat, c: nat, s: seq<Bucket>, ends: Ends, order: seq<int>, key: nat, probe: nat, i: nat)
    requires Settled(h, c, s, ends, order) && Scanned(h, c, s, key, probe, i)
    requires Used(s[i]) && s[i].slot.key != key && Probe(h, c, i, s[i].slot.key) < probe
    ensures probe == Probe(h, c, i, key) && MayPlace(h, c, s, i, key) && Absent(c, s, key)
    ensures InRange(|s|, order) && !HasKey(Entries(s, order), key)
  {
    ScanPlace(h, c, s, key, probe, i);
    NotStored(h, c, s, key, probe);
    AbsentFromModel(h, c, s, ends, order, key);
  }

  /** A bucket found with the key: its place in the list, and what replacing or keeping it means. */
  lemma PositionOf(h: nat -> nat, c: nat, s: seq<Bucket>, ends: Ends, order: seq<int>, i: nat, e: Entry,
                   replace: bool) returns (k: nat)
    requires Settled(h, c, s, ends, order) && i < c && Used(s[i]) && s[i].slot.key == e.key
    ensures InRange(|s|, order) && k < |order| && order[k] == i && HasKey(Entries(s, order), e.key)
    ensures Upsert(Entries(s, order), e, replace) == if replace then Entries(s, order)[k := e] else Entries(s, order)
    ensures var t := s[i := s[i].(slot := e)];
      Settled(h, c, t, ends, order) && Entries(t, order) == Entries(s, order)[k := e]
  {
    SettledParts(h, c, s, ends, order);
    PresentInModel(c, s, order, i);
    k :| 0 <= k < |order| && order[k] == i;
    Replaced(h, c, s, ends, order, k, e);
    forall j | 0 <= j < k ensures Entries(s, order)[j].key != e.key {
      OtherKey(h, c, s, ends, order, j, k);
    }
    UpsertPresent(Entries(s, order), e, replace, k);
  }

  lemma OtherKey(h: nat -> nat, c: nat, s: seq<Bucket>, ends: Ends, order: seq<int>, j: nat, k: nat)
    requires Settled(h, c, s, ends, order) && j < k < |order|
    ensures InRange(|s|, order) && Entries(s, order)[j].key != Entries(s, order)[k].key
  {
    SettledParts(h, c, s, ends, order);
    assert order[j] in order && order[k] in order && order[j] != order[k];
  }

  lemma HoledParts(h: nat -> nat, c: nat, s: seq<Bucket>, ends: Ends, order: seq<int>, hole: nat)
    requires Holed(h, c, s, ends, order, hole)
    ensures 2 <= c && |s| == c + 1 && InRange(|s|, order) && Coherent(h, c, s) && RobinHood(h, c, s) && hole < c
  {
  }

  lemma ListedUsed(c: nat, s: seq<Bucket>, order: seq<int>, k: nat)
    requires c <= |s| && k < |order| && InRange(c, order) && Listed(c, s, order, NULL)
    ensures Used(s[order[k]])
  {
    assert order[k] in order;
  }

  /** After d shifts from x: the d buckets from x on hold what their successors held, the rest are as before. */
  ghost predicate Slid(c: nat, s: seq<Bucket>, t: seq<Bucket>, x: nat, d: nat)
  {
    && x < c < |s| == |t|
    && (forall j :: 0 <= j < c && Distance(c, x, j) < d ==> Used(s[Next(c, j)]) && t[j].slot == s[Next(c, j)].slot)
    && (forall j :: 0 <= j < c && Distance(c, x, j) >= d ==> t[j].state == s[j].state && t[j].slot == s[j].slot)
  }

  /** Each used bucket but x holds what it held before, or what its successor, if not x, held before. */
  ghost predicate SlidBack(c: nat, s: seq<Bucket>, t: seq<Bucket>, x: nat)
  {
    && x < c < |s| == |t|
    && (forall j :: 0 <= j < c && Used(t[j]) ==>
          || (j != x && Used(s[j]) && t[j].slot == s[j].slot)
          || (Next(c, j) != x && Used(s[Next(c, j)]) && t[j].slot == s[Next(c, j)].slot))
  }

  lemma SlidStart(c: nat, s: seq<Bucket>, t: seq<Bucket>, x: nat, f: nat)
    requires x < c < |s| && f < c && f != x && SameContents(c + 1, s, t)
    ensures Slid(c, s, t, x, 0) && 0 == Distance(c, x, x) < Distance(c, x, f)
  {
  }

  lemma SlidAhead(c: nat, s: seq<Bucket>, t: seq<Bucket>, x: nat, to: nat, f: nat, d: nat)
    requires Slid(c, s, t, x, d) && to < c && f < c && d == Distance(c, x, to) < Distance(c, x, f) && !Used(s[f])
    ensures d + 1 == Distance(c, x, f) ==> !Used(t[Next(c, to)])
    ensures t[Next(c, to)].state == s[Next(c, to)].state && t[Next(c, to)].slot == s[Next(c, to)].slot
  {
    HoleStep(c, x, to, f, d);
  }

  lemma SlidStep(c: nat, s: seq<Bucket>, t: seq<Bucket>, t': seq<Bucket>, x: nat, to: nat, d: nat)
    requires Slid(c, s, t, x, d) && to < c && d == Distance(c, x, to) && d + 1 == Distance(c, x, Next(c, to))
             && |t'| == |t|
    requires Used(t[Next(c, to)]) && t'[to].slot == t[Next(c, to)].slot
    requires forall i :: 0 <= i < c && i != to ==> t'[i].state == t[i].state && t'[i].slot == t[i].slot
    ensures Slid(c, s, t', x, d + 1)
  {
  }

  lemma SlidEnd(c: nat, s: seq<Bucket>, t: seq<Bucket>, x: nat, to: nat, d: nat)
    requires Slid(c, s, t, x, d) && to < c && d == Distance(c, x, to) && d + 1 < c
    ensures SlidBack(c, s, t[to := t[to].(state := FREE)], x)
  {
  }

  /** The hole moves ahead of the deleted index and stays short of the free bucket f. */
  lemma HoleStep(c: nat, x: nat, to: nat, f: nat, d: nat)
    requires x < c && to < c && f < c && d == Distance(c, x, to) < Distance(c, x, f)
    ensures Distance(c, x, Next(c, to)) == d + 1
    ensures d + 1 == Distance(c, x, f) ==> Next(c, to) == f
    ensures forall j :: 0 <= j < c && Distance(c, x, j) <= d && j != to ==> Distance(c, x, j) < d
    ensures forall j :: 0 <= j < c && Distance(c, x, j) < d + 1 ==> Next(c, j) != x
  {
  }

  lemma UniquePosition(h: nat -> nat, c: nat, s: seq<Bucket>, ends: Ends, order: seq<int>, k: nat)
    requires Settled(h, c, s, ends, order) && k < |order|
    ensures InRange(|s|, order) && WithoutKey(Entries(s, order), s[order[k]].slot.key) == Dropped(Entries(s, order), k)
  {
    SettledParts(h, c, s, ends, order);
    forall j | 0 <= j < k ensures Entries(s, order)[j].key != s[order[k]].slot.key {
      OtherKey(h, c, s, ends, order, j, k);
    }
    WithoutPresentKey(Entries(s, order), s[order[k]].slot.key, k);
  }

  /** No used bucket below i matches. */
  ghost predicate NoneMatching(s: seq<Bucket>, matches: Entry -> bool, i: int)
  {
    0 <= i <= |s| && forall j :: 0 <= j < i && Used(s[j]) ==> !matches(s[j].slot)
  }

  lemma NoneMatchingAtFirst(s: seq<Bucket>, matches: Entry -> bool)
    ensures NoneMatching(s, matches, 0)
  {
  }

  lemma NoneMatchingNext(s: seq<Bucket>, matches: Entry -> bool, i: int)
    requires NoneMatching(s, matches, i) && i < |s| && (!Used(s[i]) || !matches(s[i].slot))
    ensures NoneMatching(s, matches, i + 1)
  {
  }

  /** A deletion at i brings no matching entry below i, even when the shift wraps around. */
  lemma NoneMatchingSlid(c: nat, s: seq<Bucket>, t: seq<Bucket>, matches: Entry -> bool, i: nat)
    requires NoneMatching(s, matches, i) && SlidBack(c, s, t, i)
    ensures NoneMatching(t, matches, i)
  {
  }

  lemma NoneLeft(h: nat -> nat, c: nat, s: seq<Bucket>, ends: Ends, order: seq<int>, matches: Entry -> bool,
                 es: seq<Entry>)
    requires c > 0 ==> Settled(h, c, s, ends, order)
    requires |s| == c + 1 && (c == 0 ==> order == []) && NoneMatching(s, matches, c)
    requires InRange(|s|, order) && es == Entries(s, order)
    ensures Failing(es, matches) == es
  {
    if c > 0 {
      SettledParts(h, c, s, ends, order);
      forall k | 0 <= k < |es| ensures !matches(es[k]) {
        ListedUsed(c, s, order, k);
      }
    }
    FailingAll(es, matches);
  }

  lemma DroppedLength(es: seq<Entry>, k: nat)
    requires k < |es|
    ensures |Dropped(es, k)| == |es| - 1
  {
  }

  lemma EmptySettled(h: nat -> nat, c: nat, s: seq<Bucket>)
    requires 2 <= c && |s| == c + 1 && forall i :: 0 <= i < |s| ==> s[i].state == FREE && NullLinks(s[i])
    ensures Settled(h, c, s, Ends(NULL, NULL), []) && Entries(s, []) == []
  {
  }

  /** Iteration starts at the head. */
  lemma WalkStart(h: nat -> nat, c: nat, s: seq<Bucket>, ends: Ends, order: seq<int>)
    requires Settled(h, c, s, ends, order)
    ensures ends.head == if order == [] then NULL else order[0]
  {
  }

  lemma WalkEnd(h: nat -> nat, c: nat, s: seq<Bucket>, ends: Ends, order: seq<int>)
    requires Settled(h, c, s, ends, order)
    ensures ends.tail == if order == [] then NULL else order[|order| - 1]
  {
  }

  lemma WalkBack(h: nat -> nat, c: nat, s: seq<Bucket>, ends: Ends, order: seq<int>, n: nat)
    requires Settled(h, c, s, ends, order) && 0 < n <= |order|
    ensures InRange(|s|, order) && s[order[n - 1]].previous == (if n > 1 then order[n - 2] else NULL)
    ensures Entries(s, order)[n - 1] == s[order[n - 1]].slot && order[n - 1] != NULL
  {
    assert s[order[n - 1]].previous == PreviousAt(order, n - 1);
  }

  /** One step of the iterator, and the fact that no earlier entry has the same key. */
  lemma WalkNext(h: nat -> nat, c: nat, s: seq<Bucket>, ends: Ends, order: seq<int>, n: nat)
    requires Settled(h, c, s, ends, order) && n <= |order|
    ensures InRange(|s|, order)
    ensures n < |order| ==> s[order[n]].next == (if n + 1 < |order| then order[n + 1] else NULL)
    ensures n < |order| ==> Entries(s, order)[n] == s[order[n]].slot && order[n] != NULL
    ensures n < |order| ==> !HasKey(Entries(s, order)[..n], Entries(s, order)[n].key)
  {
    if n < |order| {
      assert s[order[n]].next == NextAt(order, n);
      forall j | 0 <= j < n ensures Entries(s, order)[..n][j].key != Entries(s, order)[n].key {
        OtherKey(h, c, s, ends, order, j, n);
      }
    }
  }

  lemma CarryingParts(h: nat -> nat, c: nat, s: seq<Bucket>, ends: Ends, order: seq<int>)
    requires Carrying(h, c, s, ends, order)
    ensures 2 <= c && |s| == c + 1 && InRange(|s|, order) && Coherent(h, c, s) && RobinHood(h, c, s)
  {
  }

  /** The next bucket of the walk with a bucket in hand. */
  lemma DisplaceNext(h: nat -> nat, c: nat, s: seq<Bucket>, ends: Ends, order: seq<int>, i: nat, f: nat)
    requires Carrying(h, c, s, ends, order) && i < c && f < c && Used(s[i]) && !Used(s[f])
    requires |s| == c + 1 && Probe(h, c, i, s[c].slot.key) <= Probe(h, c, i, s[i].slot.key)
    ensures 2 <= c && InRange(|s|, order) && Coherent(h, c, s)
    ensures var j, key := Next(c, i), s[c].slot.key;
            && Probe(h, c, j, key) == Probe(h, c, i, key) + 1 && Distance(c, j, f) < Distance(c, i, f)
            && (!Used(s[j]) || Probe(h, c, j, s[j].slot.key) < Probe(h, c, j, key) ==> MayPlace(h, c, s, j, key))
  {
    CarryingParts(h, c, s, ends, order);
    hide Carrying, Coherent, RobinHood, Probe, MayPlace;
    NeverRound(h, c, s, i, s[c].slot.key, f);
    MayPlaceNext(h, c, s, i, s[c].slot.key);
  }

  lemma AbsentFromModel(h: nat -> nat, c: nat, s: seq<Bucket>, ends: Ends, order: seq<int>, key: nat)
    requires Settled(h, c, s, ends, order)
    ensures InRange(|s|, order) && (Absent(c, s, key) <==> !HasKey(Entries(s, order), key))
  {
    SettledParts(h, c, s, ends, order);
    var es := Entries(s, order);
    if Absent(c, s, key) {
      forall k | 0 <= k < |es| ensures es[k].key != key {
        assert order[k] in order;
      }
    } else {
      var i :| 0 <= i < c && Used(s[i]) && s[i].slot.key == key;
      PresentInModel(c, s, order, i);
    }
  }

  lemma PresentInModel(c: nat, s: seq<Bucket>, order: seq<int>, i: nat)
    requires c <= |s| && i < c && Used(s[i]) && Listed(c, s, order, NULL) && InRange(|s|, order)
    ensures i in order && HasKey(Entries(s, order), s[i].slot.key)
  {
    assert i in order;
    var k :| 0 <= k < |order| && order[k] == i;
    assert Entries(s, order)[k].key == s[i].slot.key;
  }

  /** The links stay valid through every stage of an exchange. */
  lemma RelinkedLeft(s: seq<Bucket>, left: int, right: int)
    requires 0 <= left < |s| && 0 <= right < |s| && left != right
    requires ValidLink(|s|, s[left].previous) && ValidLink(|s|, s[left].next)
    ensures ValidLink(|s|, RelinkPrevious(s, left, right)[left].next)
    ensures RelinkLeft(s, left, right) == RelinkNext(RelinkPrevious(s, left, right), left, right)
    ensures var t := RelinkLeft(s, left, right);
            ValidLink(|s|, s[right].previous) && ValidLink(|s|, s[right].next) ==>
              ValidLink(|s|, t[right].previous) && ValidLink(|s|, t[right].next)
  {
  }

  lemma RelinkedRight(s: seq<Bucket>, left: int, right: int)
    requires 0 <= left && 0 <= right < |s|
    requires ValidLink(|s|, s[right].previous) && ValidLink(|s|, s[right].next)
    ensures ValidLink(|s|, PointNextAt(s, left, right)[right].next)
    ensures RelinkRight(s, left, right) == PointPreviousAt(PointNextAt(s, left, right), left, right)
  {
  }
}
