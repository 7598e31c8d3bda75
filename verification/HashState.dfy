/**
  The whole state of an ordered hash table: the ring of buckets followed by one cell for the bucket
  in hand during an insertion, the list ends, and the list itself as a sequence of bucket positions.
 */
module HashState {
  import opened HashLinks
  import opened HashProbe

  /** The stored entries in list order. */
  ghost function Entries(s: seq<Bucket>, order: seq<int>): (es: seq<Entry>)
    requires InRange(|s|, order)
    ensures |es| == |order| && forall k :: 0 <= k < |order| ==> es[k] == s[order[k]].slot
  {
    seq(|order|, k requires 0 <= k < |order| => s[order[k]].slot)
  }

  /** The ring invariants; `except` names the hole during a deletion. */
  ghost predicate Ring(h: nat -> nat, c: nat, s: seq<Bucket>, except: int)
  {
    2 <= c && |s| == c + 1 && Coherent(h, c, s) && RobinHood(h, c, s) && DistinctKeys(c, s, except)
  }

  /** The list holds exactly the used buckets, the hole aside. */
  ghost predicate Listed(c: nat, s: seq<Bucket>, order: seq<int>, hole: int)
    requires c <= |s|
  {
    forall i :: 0 <= i < c ==> (i in order <==> Used(s[i]) && i != hole)
  }

  ghost predicate NullLinks(b: Bucket)
  {
    b.previous == NULL && b.next == NULL
  }

  ghost predicate FreeNull(c: nat, s: seq<Bucket>, hole: int)
    requires c <= |s|
  {
    forall i :: 0 <= i < c && (!Used(s[i]) || i == hole) ==> NullLinks(s[i])
  }

  /** A table between operations. */
  ghost predicate Settled(h: nat -> nat, c: nat, s: seq<Bucket>, ends: Ends, order: seq<int>)
  {
    Ring(h, c, s, NULL) && Linked(s, ends, order) && Listed(c, s, order, NULL) && FreeNull(c, s, NULL) && c !in order
  }

  /** A table with a displaced entry in the spare cell, already listed there. */
  ghost predicate Carrying(h: nat -> nat, c: nat, s: seq<Bucket>, ends: Ends, order: seq<int>)
  {
    && Ring(h, c, s, NULL) && Linked(s, ends, order) && Listed(c, s, order, NULL) && FreeNull(c, s, NULL)
    && c in order && Absent(c, s, s[c].slot.key)
  }

  /** A table with a hole whose stale bucket still shows its old state. */
  ghost predicate Holed(h: nat -> nat, c: nat, s: seq<Bucket>, ends: Ends, order: seq<int>, hole: nat)
  {
    && Ring(h, c, s, hole) && Linked(s, ends, order) && Listed(c, s, order, hole) && FreeNull(c, s, hole)
    && c !in order && hole < c && Used(s[hole])
  }

  // ----- relabelling -----

  /** Staged links, and the slots moved with them. */
  ghost predicate Moved(s: seq<Bucket>, s1: seq<Bucket>, order: seq<int>, x: int, y: int)
  {
    && Staged(s, s1, order, x, y)
    && (forall i :: 0 <= i < |s| && i != x && i != y ==> s1[i] == s[i])
    && s1[y].slot == s[x].slot && (y in order ==> s1[x].slot == s[y].slot)
  }

  /** After relinking: the same entries in the same order, and no change to states, slots or unlisted links. */
  lemma Relabelled(s: seq<Bucket>, s1: seq<Bucket>, ends: Ends, order: seq<int>, x: int, y: int)
    requires Linked(s, ends, order) && Moved(s, s1, order, x, y)
    ensures ValidLink(|s1|, s1[x].previous) && ValidLink(|s1|, s1[x].next)
    ensures ValidLink(|s1|, s1[y].previous) && ValidLink(|s1|, s1[y].next)
    ensures Linked(Relinked(s1, x, y), ExchangeEnds(ends, x, y), ExchangeAll(order, x, y))
    ensures Entries(Relinked(s1, x, y), ExchangeAll(order, x, y)) == Entries(s, order)
    ensures SameContents(|s1|, s1, Relinked(s1, x, y))
    ensures forall i :: 0 <= i < |s| && i !in order && i != x && i != y ==> Relinked(s1, x, y)[i] == s1[i]
  {
    hide Relinked;
    RelinkedList(s, s1, ends, order, x, y);
    SelfLink(s, s1, ends, order, x, y);
    hide Linked;
    var t, order' := Relinked(s1, x, y), ExchangeAll(order, x, y);
    forall i | 0 <= i < |s1| ensures t[i].state == s1[i].state && t[i].slot == s1[i].slot {
      RelinkedFields(s1, x, y, i);
    }
    forall i | 0 <= i < |s| && i !in order && i != x && i != y ensures t[i] == s1[i] {
      RelinkedUnlisted(s, s1, ends, order, x, y, i);
    }
    EntriesMoved(s, s1, t, ends, order, x, y);
  }

  lemma RelinkedUnlisted(s: seq<Bucket>, s1: seq<Bucket>, ends: Ends, order: seq<int>, x: int, y: int, i: int)
    requires Linked(s, ends, order) && Moved(s, s1, order, x, y) && 0 <= i < |s| && i !in order && i != x && i != y
    requires ValidLink(|s1|, s1[x].previous) && ValidLink(|s1|, s1[x].next)
    requires ValidLink(|s1|, s1[y].previous) && ValidLink(|s1|, s1[y].next)
    ensures Relinked(s1, x, y)[i] == s1[i]
  {
    hide Relinked;
    SelfLink(s, s1, ends, order, x, y);
    RelinkedFields(s1, x, y, i);
    Unlisted(s, ends, order, x, i);
    if y in order {
      Unlisted(s, ends, order, y, i);
    }
    hide Linked;
  }

  lemma EntriesMoved(s: seq<Bucket>, s1: seq<Bucket>, t: seq<Bucket>, ends: Ends, order: seq<int>, x: int, y: int)
    requires Linked(s, ends, order) && Moved(s, s1, order, x, y) && SameContents(|s1|, s1, t)
    requires InRange(|t|, ExchangeAll(order, x, y))
    ensures Entries(t, ExchangeAll(order, x, y)) == Entries(s, order)
  {
    var order' := ExchangeAll(order, x, y);
    forall k | 0 <= k < |order| ensures t[order'[k]].slot == s[order[k]].slot {
      if order[k] == y {
        assert y in order;
      }
    }
  }

  lemma ExchangedMembers(order: seq<int>, x: int, y: int, i: int)
    requires x != y
    ensures i in ExchangeAll(order, x, y) <==> Exchange(i, x, y) in order
  {
    var order' := ExchangeAll(order, x, y);
    if i in order' {
      var k :| 0 <= k < |order'| && order'[k] == i;
      assert order[k] == Exchange(i, x, y);
    }
    if Exchange(i, x, y) in order {
      var k :| 0 <= k < |order| && order[k] == Exchange(i, x, y);
      assert order'[k] == i;
    }
  }

  // ----- insertion -----

  /** No used bucket other than i holds the key. */
  ghost predicate AbsentElsewhere(c: nat, s: seq<Bucket>, key: nat, i: int)
    requires c <= |s|
  {
    forall j :: 0 <= j < c && j != i && Used(s[j]) ==> s[j].slot.key != key
  }

  lemma RingPlaced(h: nat -> nat, c: nat, s: seq<Bucket>, i: nat, b: Bucket)
    requires Ring(h, c, s, NULL) && i < c && b.state == StateFor(Probe(h, c, i, b.slot.key))
    requires MayPlace(h, c, s, i, b.slot.key) && AbsentElsewhere(c, s, b.slot.key, i)
    ensures Ring(h, c, s[i := b], NULL)
  {
    Placed(h, c, s, i, b);
    hide Coherent, RobinHood;
  }

  lemma RingContents(h: nat -> nat, c: nat, s: seq<Bucket>, t: seq<Bucket>, except: int)
    requires Ring(h, c, s, except) && SameContents(c, s, t)
    ensures Ring(h, c, t, except)
  {
    ContentsOnly(h, c, s, t);
    hide Coherent, RobinHood, DistinctKeys;
  }

  /** Writing an entry into a free bucket and appending the bucket to the list. */
  function InsertAt(s: seq<Bucket>, ends: Ends, i: int, e: Entry, p: nat): (t: seq<Bucket>)
    requires 0 <= i < |s| && ValidLink(|s|, ends.tail) && (ends.head != NULL ==> ends.tail != NULL)
    ensures |t| == |s|
  {
    AppendLink(s[i := s[i].(state := StateFor(p), slot := e)], ends, i)
  }

  lemma AppendFields(s: seq<Bucket>, ends: Ends, i: int, j: int)
    requires 0 <= i < |s| && ValidLink(|s|, ends.tail) && (ends.head != NULL ==> ends.tail != NULL) && 0 <= j < |s|
    ensures AppendLink(s, ends, i)[j].state == s[j].state && AppendLink(s, ends, i)[j].slot == s[j].slot
    ensures j != i && j != ends.tail ==> AppendLink(s, ends, i)[j] == s[j]
  {
  }

  lemma Inserted(h: nat -> nat, c: nat, s: seq<Bucket>, ends: Ends, order: seq<int>, i: nat, e: Entry)
    requires Settled(h, c, s, ends, order) && i < c && !Used(s[i]) && MayPlace(h, c, s, i, e.key) && Absent(c, s, e.key)
    ensures ValidLink(|s|, ends.tail) && (ends.head != NULL ==> ends.tail != NULL)
    ensures var t := InsertAt(s, ends, i, e, Probe(h, c, i, e.key));
      && Settled(h, c, t, AppendEnds(ends, i), order + [i])
      && Entries(t, order + [i]) == Entries(s, order) + [e]
  {
    var b := s[i].(state := StateFor(Probe(h, c, i, e.key)), slot := e);
    var s1 := s[i := b];
    RingPlaced(h, c, s, i, b);
    assert NullLinks(s[i]) && i !in order;
    WrittenUnlisted(s, ends, order, i, b);
    AppendedList(s1, ends, order, i);
    var t := AppendLink(s1, ends, i);
    assert |s| == c + 1;
    hide Linked, Ring, AppendLink;
    forall j | 0 <= j < |s| ensures t[j].state == s1[j].state && t[j].slot == s1[j].slot
        && (j != i && j != ends.tail ==> t[j] == s1[j]) {
      AppendFields(s1, ends, i, j);
    }
    RingContents(h, c, s1, t, NULL);
    TailListed(s, ends, order);
    AppendedListed(c, s, t, order, i, ends.tail);
    hide Listed, FreeNull;
    EntriesAppended(s, t, order, i, e);
  }

  /** A bucket that is written and becomes the last of the list, with a change to the link of the one before it. */
  lemma AppendedListed(c: nat, s: seq<Bucket>, t: seq<Bucket>, order: seq<int>, i: nat, tail: int)
    requires |s| == |t| == c + 1 && i < c && Used(t[i]) && (tail == NULL || tail in order)
    requires forall j :: 0 <= j < c && j != i ==> (j in order <==> Used(s[j])) && t[j].state == s[j].state
    requires forall j :: 0 <= j < c && j != i && j != tail ==> t[j] == s[j]
    requires forall j :: 0 <= j < c && j != i && !Used(s[j]) ==> NullLinks(s[j])
    ensures Listed(c, t, order + [i], NULL) && FreeNull(c, t, NULL)
  {
  }

  /** Writing an unlisted bucket does not disturb the list. */
  lemma WrittenUnlisted(s: seq<Bucket>, ends: Ends, order: seq<int>, i: int, b: Bucket)
    requires Linked(s, ends, order) && 0 <= i < |s| && i !in order
    ensures Linked(s[i := b], ends, order)
  {
  }

  lemma TailListed(s: seq<Bucket>, ends: Ends, order: seq<int>)
    requires Linked(s, ends, order)
    ensures ends.tail == NULL || ends.tail in order
  {
  }

  lemma EntriesAppended(s: seq<Bucket>, t: seq<Bucket>, order: seq<int>, i: int, e: Entry)
    requires InRange(|s|, order) && |t| == |s| && 0 <= i < |t| && t[i].slot == e && i !in order
    requires forall j :: 0 <= j < |s| && j != i ==> t[j].slot == s[j].slot
    ensures InRange(|t|, order + [i]) && Entries(t, order + [i]) == Entries(s, order) + [e]
  {
  }

  /** The first displacement: bucket i moves to the spare cell, the new entry takes its place, last in the list. */
  function StealAt(s2: seq<Bucket>, ends2: Ends, i: int, e: Entry, p: nat): (t: seq<Bucket>)
    requires 0 <= i < |s2| && ValidLink(|s2|, ends2.tail) && (ends2.head != NULL ==> ends2.tail != NULL)
    ensures |t| == |s2|
  {
    AppendLink(s2[i := s2[i].(next := NULL, state := StateFor(p), slot := e)], ends2, i)
  }

  lemma CopiedToSpare(h: nat -> nat, c: nat, s: seq<Bucket>, ends: Ends, order: seq<int>, i: nat)
    requires Settled(h, c, s, ends, order) && i < c && Used(s[i])
    ensures Moved(s, s[c := s[i]], order, i, c)
    ensures var s1, order2 := s[c := s[i]], ExchangeAll(order, i, c);
      && ValidLink(|s1|, s1[i].previous) && ValidLink(|s1|, s1[i].next)
      && ValidLink(|s1|, s1[c].previous) && ValidLink(|s1|, s1[c].next)
      && var s2 := Relinked(s1, i, c);
      && Linked(s2, ExchangeEnds(ends, i, c), order2) && Entries(s2, order2) == Entries(s, order)
      && SameContents(c + 1, s1, s2) && i !in order2 && c in order2 && order2 != []
      && Listed(c, s2, order2, i) && FreeNull(c, s2, NULL)
  {
    hide Relinked;
    var s1, order2 := s[c := s[i]], ExchangeAll(order, i, c);
    assert i in order;
    Relabelled(s, s1, ends, order, i, c);
    var s2 := Relinked(s1, i, c);
    hide Linked, ExchangeAll;
    ExchangedMembers(order, i, c, i);
    ExchangedMembers(order, i, c, c);
    forall j | 0 <= j < c ensures j in order2 <==> Used(s2[j]) && j != i {
      ExchangedMembers(order, i, c, j);
    }
  }

  lemma Stolen(h: nat -> nat, c: nat, s: seq<Bucket>, ends: Ends, order: seq<int>, i: nat, e: Entry)
    requires Settled(h, c, s, ends, order) && i < c && Used(s[i]) && MayPlace(h, c, s, i, e.key) && Absent(c, s, e.key)
    ensures var s1 := s[c := s[i]];
      && ValidLink(|s1|, s1[i].previous) && ValidLink(|s1|, s1[i].next)
      && ValidLink(|s1|, s1[c].previous) && ValidLink(|s1|, s1[c].next)
      && var s2, ends2, order2 := Relinked(s1, i, c), ExchangeEnds(ends, i, c), ExchangeAll(order, i, c);
      && ValidLink(|s2|, ends2.tail) && ends2.head != NULL && ends2.tail != NULL
      && var t := StealAt(s2, ends2, i, e, Probe(h, c, i, e.key));
      && Carrying(h, c, t, AppendEnds(ends2, i), order2 + [i])
      && Entries(t, order2 + [i]) == Entries(s, order) + [e]
      && t[c].slot == s[i].slot && t[i].slot == e && Used(t[i])
          && (forall j :: 0 <= j < c && j != i ==> t[j].slot == s[j].slot && t[j].state == s[j].state)
  {
    hide Relinked, ExchangeAll, ExchangeEnds;
    CopiedToSpare(h, c, s, ends, order, i);
    var s1 := s[c := s[i]];
    var s2, ends2, order2 := Relinked(s1, i, c), ExchangeEnds(ends, i, c), ExchangeAll(order, i, c);
    var b := s2[i].(next := NULL, state := StateFor(Probe(h, c, i, e.key)), slot := e);
    StolenRing(h, c, s, s2, i, b);
    var s3 := s2[i := b];
    WrittenUnlisted(s2, ends2, order2, i, b);
    AppendedList(s3, ends2, order2, i);
    TailListed(s2, ends2, order2);
    HeadListed(s2, ends2, order2);
    assert |s| == c + 1;
    var t := AppendLink(s3, ends2, i);
    hide Linked, Ring, AppendLink;
    forall j | 0 <= j < |s| ensures t[j].state == s3[j].state && t[j].slot == s3[j].slot
        && (j != i && j != ends2.tail ==> t[j] == s3[j]) {
      AppendFields(s3, ends2, i, j);
    }
    RingContents(h, c, s3, t, NULL);
    AppendedListed(c, s2, t, order2, i, ends2.tail);
    hide Listed, FreeNull;
    StolenAbsent(h, c, s, t, i, e);
    hide Absent;
    EntriesAppended(s2, t, order2, i, e);
  }

  lemma HeadListed(s: seq<Bucket>, ends: Ends, order: seq<int>)
    requires Linked(s, ends, order) && order != []
    ensures ends.head in order && ends.tail in order && ends.head != NULL && ends.tail != NULL
  {
  }

  lemma StolenRing(h: nat -> nat, c: nat, s: seq<Bucket>, s2: seq<Bucket>, i: nat, b: Bucket)
    requires Ring(h, c, s, NULL) && i < c && Used(s[i]) && SameContents(c + 1, s[c := s[i]], s2)
    requires b.state == StateFor(Probe(h, c, i, b.slot.key)) && MayPlace(h, c, s, i, b.slot.key)
             && Absent(c, s, b.slot.key)
    ensures Ring(h, c, s2[i := b], NULL)
  {
    RingContents(h, c, s, s2, NULL);
    RingPlaced(h, c, s2, i, b);
  }

  lemma StolenAbsent(h: nat -> nat, c: nat, s: seq<Bucket>, t: seq<Bucket>, i: nat, e: Entry)
    requires Ring(h, c, s, NULL) && i < c && Used(s[i]) && Absent(c, s, e.key) && |t| == |s|
    requires t[c].slot == s[i].slot && t[i].slot == e
    requires forall j :: 0 <= j < c && j != i ==> t[j].slot == s[j].slot && t[j].state == s[j].state
    ensures Absent(c, t, t[c].slot.key)
  {
  }

  /** The bucket in hand goes to j; what was there, if anything, comes into the spare cell. */
  function HandOver(c: nat, s: seq<Bucket>, j: nat, p: nat): (s1: seq<Bucket>)
    requires |s| == c + 1 && j < c
    ensures |s1| == |s|
  {
    if Used(s[j]) then s[c := s[j]][j := s[c].(state := StateFor(p))] else s[j := s[c].(state := StateFor(p))]
  }

  lemma HandOverMoved(h: nat -> nat, c: nat, s: seq<Bucket>, ends: Ends, order: seq<int>, j: nat)
    requires Carrying(h, c, s, ends, order) && j < c
    ensures Moved(s, HandOver(c, s, j, Probe(h, c, j, s[c].slot.key)), order, c, j)
  {
    assert Used(s[j]) <==> j in order;
  }

  lemma HandOverRing(h: nat -> nat, c: nat, s: seq<Bucket>, ends: Ends, order: seq<int>, j: nat)
    requires Carrying(h, c, s, ends, order) && j < c && MayPlace(h, c, s, j, s[c].slot.key)
    ensures var s1 := HandOver(c, s, j, Probe(h, c, j, s[c].slot.key));
      Ring(h, c, s1, NULL) && (Used(s[j]) ==> Absent(c, s1, s1[c].slot.key))
  {
    var b := s[c].(state := StateFor(Probe(h, c, j, s[c].slot.key)));
    RingPlaced(h, c, s, j, b);
    var s1 := HandOver(c, s, j, Probe(h, c, j, s[c].slot.key));
    assert SameContents(c, s[j := b], s1);
    RingContents(h, c, s[j := b], s1, NULL);
    hide Coherent, RobinHood;
  }

  lemma HandOverList(c: nat, s: seq<Bucket>, s1: seq<Bucket>, t: seq<Bucket>, order: seq<int>, j: nat)
    requires |s| == |s1| == |t| == c + 1 && j < c && c in order && Used(s1[j]) && SameContents(c + 1, s1, t)
    requires Listed(c, s, order, NULL) && FreeNull(c, s, NULL)
    requires forall i :: 0 <= i < c && i != j ==> s1[i] == s[i]
    requires forall i :: 0 <= i < c && i !in order && i != j ==> t[i] == s1[i]
    ensures var order' := ExchangeAll(order, c, j);
      Listed(c, t, order', NULL) && FreeNull(c, t, NULL) && (c in order' <==> Used(s[j]))
  {
    var order' := ExchangeAll(order, c, j);
    hide ExchangeAll;
    ExchangedMembers(order, c, j, c);
    forall i | 0 <= i < c ensures i in order' <==> Used(t[i]) {
      ExchangedMembers(order, c, j, i);
    }
  }

  lemma HandedOver(h: nat -> nat, c: nat, s: seq<Bucket>, ends: Ends, order: seq<int>, j: nat)
    requires Carrying(h, c, s, ends, order) && j < c && MayPlace(h, c, s, j, s[c].slot.key)
    ensures var s1 := HandOver(c, s, j, Probe(h, c, j, s[c].slot.key));
      && ValidLink(|s1|, s1[c].previous) && ValidLink(|s1|, s1[c].next)
      && ValidLink(|s1|, s1[j].previous) && ValidLink(|s1|, s1[j].next)
      && var t, ends', order' := Relinked(s1, c, j), ExchangeEnds(ends, c, j), ExchangeAll(order, c, j);
      && SameContents(c + 1, s1, t)
      && (Used(s[j]) ==> Carrying(h, c, t, ends', order'))
      && (!Used(s[j]) ==> Settled(h, c, t, ends', order'))
      && InRange(|t|, order') && Entries(t, order') == Entries(s, order)
  {
    hide Relinked;
    var s1 := HandOver(c, s, j, Probe(h, c, j, s[c].slot.key));
    HandOverMoved(h, c, s, ends, order, j);
    HandOverRing(h, c, s, ends, order, j);
    Relabelled(s, s1, ends, order, c, j);
    var t, order' := Relinked(s1, c, j), ExchangeAll(order, c, j);
    HandOverList(c, s, s1, t, order, j);
    RingContents(h, c, s1, t, NULL);
    ContentsKeys(c, s1, t);
    hide ExchangeAll, Ring, Absent, HandOver, Listed, FreeNull, MayPlace, Moved;
  }

  /** Replacing the slot of a bucket by an equal key. */
  lemma Replaced(h: nat -> nat, c: nat, s: seq<Bucket>, ends: Ends, order: seq<int>, k: nat, e: Entry)
    requires Settled(h, c, s, ends, order) && k < |order| && s[order[k]].slot.key == e.key
    ensures var t := s[order[k] := s[order[k]].(slot := e)];
      && Settled(h, c, t, ends, order)
      && Entries(t, order) == Entries(s, order)[k := e]
  {
    var i := order[k];
    var t := s[i := s[i].(slot := e)];
    assert i in order && i < c && Used(s[i]);
    assert Coherent(h, c, t);
    assert RobinHood(h, c, t) by {
      forall j | 0 <= j < c && Used(t[j]) && Probe(h, c, j, t[j].slot.key) > 0
        ensures Used(t[Before(c, j)])
        ensures Probe(h, c, Before(c, j), t[Before(c, j)].slot.key) + 1 >= Probe(h, c, j, t[j].slot.key)
      {
        assert s[j].slot.key == t[j].slot.key && s[Before(c, j)].slot.key == t[Before(c, j)].slot.key;
      }
    }
    assert Linked(t, ends, order) by {
      forall j | 0 <= j < |order| ensures t[order[j]].next == NextAt(order, j)
          && t[order[j]].previous == PreviousAt(order, j) {
        assert s[order[j]].next == NextAt(order, j) && s[order[j]].previous == PreviousAt(order, j);
      }
    }
  }

  // ----- deletion -----

  function Dropped(es: seq<Entry>, k: int): (t: seq<Entry>)
    requires 0 <= k < |es|
  {
    es[..k] + es[k + 1..]
  }

  lemma UnlinkContents(s: seq<Bucket>, ends: Ends, order: seq<int>, x: int)
    requires Linked(s, ends, order) && x in order
    ensures 0 <= x < |s| && ValidLink(|s|, s[x].previous) && ValidLink(|s|, s[x].next)
    ensures SameContents(|s|, s, Unlink(s, x)) && NullLinks(Unlink(s, x)[x])
    ensures forall i :: 0 <= i < |s| && i !in order ==> Unlink(s, x)[i] == s[i]
  {
    Neighbours(s, ends, order, x);
    hide Linked;
    forall i | 0 <= i < |s|
      ensures Unlink(s, x)[i].state == s[i].state && Unlink(s, x)[i].slot == s[i].slot
              && (i !in order ==> Unlink(s, x)[i] == s[i])
    {
    }
  }

  lemma WithoutMembers(order: seq<int>, k: int, i: int)
    requires Distinct(order) && 0 <= k < |order|
    ensures i in Without(order, k) <==> i in order && i != order[k]
  {
    var t := Without(order, k);
    if i in order && i != order[k] {
      var j :| 0 <= j < |order| && order[j] == i;
      assert t[if j < k then j else j - 1] == i;
    }
    if i in t {
      var j :| 0 <= j < |t| && t[j] == i;
      assert order[if j < k then j else j + 1] == i;
    }
  }

  /** delete_bucket starts by taking the bucket out of the list. */
  lemma UnlinkedHole(h: nat -> nat, c: nat, s: seq<Bucket>, ends: Ends, order: seq<int>, k: nat)
    requires Settled(h, c, s, ends, order) && k < |order|
    ensures var x := order[k];
      && 0 <= x < c && ValidLink(|s|, s[x].previous) && ValidLink(|s|, s[x].next)
      && var t, order' := Unlink(s, x), Without(order, k);
      && Holed(h, c, t, UnlinkEnds(s, ends, x), order', x)
      && Entries(t, order') == Dropped(Entries(s, order), k) && SameContents(c + 1, s, t)
  {
    hide Ring, Unlink, Without, Linked, Listed, FreeNull, SameContents, Entries, Dropped, UnlinkEnds;
    var x := order[k];
    SettledAt(h, c, s, ends, order, k);
    LinkedParts(s, ends, order);
    UnlinkedList(s, ends, order, k);
    UnlinkContents(s, ends, order, x);
    var t := Unlink(s, x);
    FewerContents(c, s, t);
    RingContents(h, c, s, t, NULL);
    RingExcept(h, c, t, x);
    UnlinkedListed(c, s, t, order, k);
    EntriesDropped(s, t, order, k);
  }

  lemma SettledAt(h: nat -> nat, c: nat, s: seq<Bucket>, ends: Ends, order: seq<int>, k: nat)
    requires Settled(h, c, s, ends, order) && k < |order|
    ensures |s| == c + 1 && 0 <= order[k] < c && order[k] in order
  {
    hide Coherent, RobinHood, DistinctKeys, Listed, FreeNull;
    assert order[k] in order && 0 <= order[k] < |s|;
  }

  lemma FewerContents(c: nat, s: seq<Bucket>, t: seq<Bucket>)
    requires |s| == |t| == c + 1 && SameContents(c + 1, s, t)
    ensures SameContents(c, s, t)
  {
  }

  lemma UnlinkedListed(c: nat, s: seq<Bucket>, t: seq<Bucket>, order: seq<int>, k: nat)
    requires |s| == |t| == c + 1 && SameContents(c, s, t) && Distinct(order) && k < |order| && 0 <= order[k] < c
    requires Listed(c, s, order, NULL) && FreeNull(c, s, NULL) && c !in order && NullLinks(t[order[k]])
    requires forall i :: 0 <= i < |s| && i !in order ==> t[i] == s[i]
    ensures var x, order' := order[k], Without(order, k);
            Listed(c, t, order', x) && FreeNull(c, t, x) && c !in order' && Used(t[x])
  {
    var x, order' := order[k], Without(order, k);
    hide Without, Distinct;
    assert x in order;
    forall i ensures i in order' <==> i in order && i != x {
      WithoutMembers(order, k, i);
    }
  }

  lemma RingExcept(h: nat -> nat, c: nat, s: seq<Bucket>, except: int)
    requires Ring(h, c, s, NULL)
    ensures Ring(h, c, s, except)
  {
  }

  lemma EntriesDropped(s: seq<Bucket>, t: seq<Bucket>, order: seq<int>, k: int)
    requires InRange(|s|, order) && 0 <= k < |order| && SameContents(|s|, s, t)
    ensures InRange(|t|, Without(order, k)) && Entries(t, Without(order, k)) == Dropped(Entries(s, order), k)
  {
    var order' := Without(order, k);
    assert forall j :: 0 <= j < |order'| ==> order'[j] == order[if j < k then j else j + 1];
  }

  lemma ShiftContents(s: seq<Bucket>, ends: Ends, order: seq<int>, x: int, y: int, state: nat)
    requires Linked(s, ends, order) && x in order && y !in order && 0 <= y < |s|
    ensures 0 <= x < |s| && x != y && ValidLink(|s|, s[x].previous) && ValidLink(|s|, s[x].next)
    ensures var t := ShiftLinks(s, x, y, state);
      && t[y] == s[x].(state := state) && t[x].state == s[x].state && t[x].slot == s[x].slot && NullLinks(t[x])
      && (forall i :: 0 <= i < |s| && i != x && i != y ==> t[i].state == s[i].state && t[i].slot == s[i].slot)
      && (forall i :: 0 <= i < |s| && i !in order && i != y ==> t[i] == s[i])
  {
    Neighbours(s, ends, order, x);
    Unlisted(s, ends, order, x, y);
    ShiftedSelf(s, x, y, state);
    hide Linked;
    forall i | 0 <= i < |s| && i != x && i != y
      ensures var t := ShiftLinks(s, x, y, state);
        t[i].state == s[i].state && t[i].slot == s[i].slot && (i !in order ==> t[i] == s[i])
    {
      ShiftFields(s, x, y, state, i);
    }
  }

  /** One backward shift moves the hole on by one and keeps the entries in order. */
  lemma ShiftedHole(h: nat -> nat, c: nat, s: seq<Bucket>, ends: Ends, order: seq<int>, hole: nat)
    requires Holed(h, c, s, ends, order, hole)
    requires var from := Next(c, hole); Used(s[from]) && Probe(h, c, from, s[from].slot.key) > 0
    ensures var from := Next(c, hole);
      var state := StateFor(Probe(h, c, from, s[from].slot.key) - 1);
      && from != hole && ValidLink(|s|, s[from].previous) && ValidLink(|s|, s[from].next) && s[from].previous != hole
      && var t, order' := ShiftLinks(s, from, hole, state), ExchangeAll(order, from, hole);
      && Holed(h, c, t, ShiftEnds(s, ends, from, hole), order', from)
      && Entries(t, order') == Entries(s, order)
      && Used(t[hole]) && t[hole].slot == s[from].slot
      && (forall i :: 0 <= i < c && i != hole ==> t[i].state == s[i].state && t[i].slot == s[i].slot)
  {
    var from := Next(c, hole);
    var p := Probe(h, c, from, s[from].slot.key);
    var state := StateFor(p - 1);
    assert from in order;
    ShiftedList(s, ends, order, from, hole, state);
    ShiftContents(s, ends, order, from, hole, state);
    var t, order' := ShiftLinks(s, from, hole, state), ExchangeAll(order, from, hole);
    Unlisted(s, ends, order, from, hole);
    ShiftedRing(h, c, s, t, hole);
    ShiftedListed(c, s, t, order, hole, from);
    EntriesShifted(s, t, order, from, hole);
    ExchangedMembers(order, from, hole, c);
    hide Ring, ShiftLinks, ExchangeAll, Linked, Listed;
  }

  lemma ShiftedRing(h: nat -> nat, c: nat, s: seq<Bucket>, t: seq<Bucket>, hole: nat)
    requires Ring(h, c, s, hole) && hole < c && Used(s[hole]) && |t| == |s|
    requires var from := Next(c, hole);
      && Used(s[from]) && Probe(h, c, from, s[from].slot.key) > 0
      && t[hole].slot == s[from].slot && t[hole].state == StateFor(Probe(h, c, from, s[from].slot.key) - 1)
    requires forall i :: 0 <= i < c && i != hole ==> t[i].state == s[i].state && t[i].slot == s[i].slot
    ensures Ring(h, c, t, Next(c, hole))
  {
    var s1 := s[hole := t[hole]];
    ShiftedBack(h, c, s, hole, t[hole]);
    ContentsOnly(h, c, s1, t);
    hide Coherent, RobinHood;
  }

  lemma ShiftedListed(c: nat, s: seq<Bucket>, t: seq<Bucket>, order: seq<int>, hole: nat, from: nat)
    requires hole < c && from < c && from != hole && |s| == |t| == c + 1 && from in order
    requires Listed(c, s, order, hole) && FreeNull(c, s, hole)
    requires Used(t[hole]) && NullLinks(t[from]) && t[from].state == s[from].state
    requires forall i :: 0 <= i < c && i != hole && i != from ==> t[i].state == s[i].state
    requires forall i :: 0 <= i < |s| && i !in order && i != hole ==> t[i] == s[i]
    ensures Listed(c, t, ExchangeAll(order, from, hole), from) && FreeNull(c, t, from)
  {
    forall i | 0 <= i < c ensures i in ExchangeAll(order, from, hole) <==> Used(t[i]) && i != from {
      ExchangedMembers(order, from, hole, i);
    }
  }

  lemma EntriesShifted(s: seq<Bucket>, t: seq<Bucket>, order: seq<int>, x: int, y: int)
    requires InRange(|s|, order) && |t| == |s| && 0 <= x < |s| && 0 <= y < |s| && x != y && y !in order
             && t[y].slot == s[x].slot
    requires forall i :: 0 <= i < |s| && i != x && i != y ==> t[i].slot == s[i].slot
    ensures InRange(|t|, ExchangeAll(order, x, y)) && Entries(t, ExchangeAll(order, x, y)) == Entries(s, order)
  {
  }

  /** When the next bucket is free or at home, the hole is freed and the table is settled. */
  lemma ClosedHole(h: nat -> nat, c: nat, s: seq<Bucket>, ends: Ends, order: seq<int>, hole: nat)
    requires Holed(h, c, s, ends, order, hole)
    requires var n := Next(c, hole); !Used(s[n]) || Probe(h, c, n, s[n].slot.key) == 0
    ensures var t := s[hole := s[hole].(state := FREE)];
      Settled(h, c, t, ends, order) && Entries(t, order) == Entries(s, order)
  {
    var b := s[hole].(state := FREE);
    var t := s[hole := b];
    HoleFreed(h, c, s, hole, b);
    WrittenUnlisted(s, ends, order, hole, b);
    assert DistinctKeys(c, t, NULL);
    hide Coherent, RobinHood, Linked;
  }
}
