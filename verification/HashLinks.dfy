/** The insertion-order list threaded through the buckets of an ordered hash table. */
module HashLinks {

  const NULL: int := -1

  datatype Entry = Entry(key: nat, payload: nat)

  datatype Bucket = Bucket(previous: int, next: int, state: nat, slot: Entry)

  /** The ends of the list. */
  datatype Ends = Ends(head: int, tail: int)

  function NextAt(order: seq<int>, k: int): (link: int)
    requires 0 <= k < |order|
  {
    if k + 1 < |order| then order[k + 1] else NULL
  }

  function PreviousAt(order: seq<int>, k: int): (link: int)
    requires 0 <= k < |order|
  {
    if k > 0 then order[k - 1] else NULL
  }

  ghost predicate Distinct(order: seq<int>)
  {
    forall j, k :: 0 <= j < k < |order| ==> order[j] != order[k]
  }

  ghost predicate InRange(n: int, order: seq<int>)
  {
    forall k :: 0 <= k < |order| ==> 0 <= order[k] < n
  }

  ghost predicate Forward(s: seq<Bucket>, order: seq<int>)
    requires InRange(|s|, order)
  {
    forall k {:trigger NextAt(order, k)} :: 0 <= k < |order| ==> s[order[k]].next == NextAt(order, k)
  }

  ghost predicate Backward(s: seq<Bucket>, order: seq<int>)
    requires InRange(|s|, order)
  {
    forall k {:trigger PreviousAt(order, k)} :: 0 <= k < |order| ==> s[order[k]].previous == PreviousAt(order, k)
  }

  ghost predicate EndsOf(ends: Ends, order: seq<int>)
  {
    ends == if order == [] then Ends(NULL, NULL) else Ends(order[0], order[|order| - 1])
  }

  /** Following `next` from the head visits the buckets of `order`, and `previous` from the tail the reverse. */
  ghost predicate Linked(s: seq<Bucket>, ends: Ends, order: seq<int>)
  {
    InRange(|s|, order) && Distinct(order) && Forward(s, order) && Backward(s, order) && EndsOf(ends, order)
  }

  /** The links at position k of the list. */
  ghost predicate LinkedAt(s: seq<Bucket>, order: seq<int>, k: int) {
    && 0 <= k < |order| && 0 <= order[k] < |s|
    && s[order[k]].next == NextAt(order, k) && s[order[k]].previous == PreviousAt(order, k)
  }

  lemma LinkedEverywhere(s: seq<Bucket>, ends: Ends, order: seq<int>)
    requires Distinct(order) && EndsOf(ends, order) && (forall k :: 0 <= k < |order| ==> LinkedAt(s, order, k))
    ensures Linked(s, ends, order)
  {
    hide NextAt, PreviousAt, Distinct, EndsOf;
    assert InRange(|s|, order) by {
      forall k | 0 <= k < |order| ensures 0 <= order[k] < |s| {
        assert LinkedAt(s, order, k);
      }
    }
    forall k | 0 <= k < |order|
      ensures s[order[k]].next == NextAt(order, k) && s[order[k]].previous == PreviousAt(order, k)
    {
      assert LinkedAt(s, order, k);
    }
  }

  lemma LinkedParts(s: seq<Bucket>, ends: Ends, order: seq<int>)
    requires Linked(s, ends, order)
    ensures InRange(|s|, order) && Distinct(order) && EndsOf(ends, order)
  {
  }

  // ----- link updates of the code -----

  function SetNext(s: seq<Bucket>, i: int, link: int): (t: seq<Bucket>)
    requires 0 <= i < |s|
    ensures |t| == |s|
  {
    s[i := s[i].(next := link)]
  }

  function SetPrevious(s: seq<Bucket>, i: int, link: int): (t: seq<Bucket>)
    requires 0 <= i < |s|
    ensures |t| == |s|
  {
    s[i := s[i].(previous := link)]
  }

  predicate ValidLink(n: int, link: int)
  {
    link == NULL || 0 <= link < n
  }

  /** The exchange of two bucket positions in the links. */
  function Exchange(i: int, x: int, y: int): (j: int)
  {
    if i == x then y else if i == y then x else i
  }

  /** update_collection_for_swapped_buckets: the left bucket and its previous neighbour. */
  function RelinkPrevious(s: seq<Bucket>, left: int, right: int): (t: seq<Bucket>)
    requires 0 <= left < |s| && 0 <= right < |s| && ValidLink(|s|, s[left].previous)
    ensures |t| == |s|
  {
    if s[left].previous == NULL then s
    else
      var p := if s[left].previous == left then right else s[left].previous;
      SetNext(SetPrevious(s, left, p), p, left)
  }

  function RelinkNext(s: seq<Bucket>, left: int, right: int): (t: seq<Bucket>)
    requires 0 <= left < |s| && 0 <= right < |s| && ValidLink(|s|, s[left].next)
    ensures |t| == |s|
  {
    if s[left].next == NULL then s
    else
      var n := if s[left].next == left then right else s[left].next;
      SetPrevious(SetNext(s, left, n), n, left)
  }

  function RelinkLeft(s: seq<Bucket>, left: int, right: int): (t: seq<Bucket>)
    requires 0 <= left < |s| && 0 <= right < |s| && left != right
    requires ValidLink(|s|, s[left].previous) && ValidLink(|s|, s[left].next)
    ensures |t| == |s|
  {
    RelinkNext(RelinkPrevious(s, left, right), left, right)
  }

  /** update_collection_for_swapped_buckets: the right bucket's two neighbours. */
  function PointNextAt(s: seq<Bucket>, left: int, right: int): (t: seq<Bucket>)
    requires 0 <= right < |s| && ValidLink(|s|, s[right].previous)
    ensures |t| == |s|
  {
    if s[right].previous == NULL || s[right].previous == left then s else SetNext(s, s[right].previous, right)
  }

  function PointPreviousAt(s: seq<Bucket>, left: int, right: int): (t: seq<Bucket>)
    requires 0 <= right < |s| && ValidLink(|s|, s[right].next)
    ensures |t| == |s|
  {
    if s[right].next == NULL || s[right].next == left then s else SetPrevious(s, s[right].next, right)
  }

  function RelinkRight(s: seq<Bucket>, left: int, right: int): (t: seq<Bucket>)
    requires 0 <= right < |s|
    requires ValidLink(|s|, s[right].previous) && ValidLink(|s|, s[right].next)
    ensures |t| == |s|
  {
    PointPreviousAt(PointNextAt(s, left, right), left, right)
  }

  function ExchangeEnds(ends: Ends, x: int, y: int): (e: Ends)
  {
    Ends(Exchange(ends.head, x, y), Exchange(ends.tail, x, y))
  }

  function ExchangeAll(order: seq<int>, x: int, y: int): (t: seq<int>)
    ensures |t| == |order| && forall k :: 0 <= k < |order| ==> t[k] == Exchange(order[k], x, y)
  {
    seq(|order|, k requires 0 <= k < |order| => Exchange(order[k], x, y))
  }

  predicate SameLinks(a: Bucket, b: Bucket)
  {
    a.previous == b.previous && a.next == b.next
  }

  /** The cells after a bucket was copied from x to an unlisted y, or the listed buckets x and y were swapped. */
  ghost predicate Staged(s: seq<Bucket>, s1: seq<Bucket>, order: seq<int>, x: int, y: int)
  {
    && |s| == |s1| && 0 <= x < |s| && 0 <= y < |s| && x != y && x in order
    && (forall i :: 0 <= i < |s| && i != x && i != y ==> SameLinks(s1[i], s[i]))
    && SameLinks(s1[y], s[x])
    && SameLinks(s1[x], if y in order then s[y] else s[x])
  }

  /** Neighbours in the list know each other. */
  lemma Neighbours(s: seq<Bucket>, ends: Ends, order: seq<int>, x: int)
    requires Linked(s, ends, order) && x in order
    ensures 0 <= x < |s|
    ensures s[x].previous == NULL || (s[x].previous in order && 0 <= s[x].previous < |s| && s[s[x].previous].next == x
            && s[x].previous != x)
    ensures s[x].next == NULL || (s[x].next in order && 0 <= s[x].next < |s| && s[s[x].next].previous == x
            && s[x].next != x)
    ensures s[x].next != NULL ==> s[x].next != s[x].previous
    ensures s[x].previous == NULL <==> ends.head == x
    ensures s[x].next == NULL <==> ends.tail == x
  {
    var k :| 0 <= k < |order| && order[k] == x;
    assert s[x].next == NextAt(order, k) && s[x].previous == PreviousAt(order, k);
    if k > 0 {
      assert order[k - 1] == s[x].previous;
      assert s[order[k - 1]].next == NextAt(order, k - 1);
    }
    if k + 1 < |order| {
      assert order[k + 1] == s[x].next;
      assert s[order[k + 1]].previous == PreviousAt(order, k + 1);
    }
  }

  ghost function Relinked(s1: seq<Bucket>, x: int, y: int): (t: seq<Bucket>)
    requires 0 <= x < |s1| && 0 <= y < |s1| && x != y
    requires ValidLink(|s1|, s1[x].previous) && ValidLink(|s1|, s1[x].next)
    requires ValidLink(|s1|, s1[y].previous) && ValidLink(|s1|, s1[y].next)
    ensures |t| == |s1|
  {
    RelinkRight(RelinkLeft(s1, x, y), x, y)
  }

  lemma StagedValid(s: seq<Bucket>, s1: seq<Bucket>, ends: Ends, order: seq<int>, x: int, y: int)
    requires Linked(s, ends, order) && Staged(s, s1, order, x, y)
    ensures ValidLink(|s1|, s1[x].previous) && ValidLink(|s1|, s1[x].next)
    ensures ValidLink(|s1|, s1[y].previous) && ValidLink(|s1|, s1[y].next)
  {
    Neighbours(s, ends, order, x);
    if y in order {
      Neighbours(s, ends, order, y);
    }
  }

  function Redirect(link: int, x: int, y: int): (r: int)
  {
    if link == x then y else link
  }

  /** The next link of bucket j after the updates, from the links (px, nx) of x and py of y before them. */
  function NextAfter(px: int, nx: int, py: int, was: int, x: int, y: int, j: int): (link: int)
  {
    var p, n := Redirect(px, x, y), Redirect(nx, x, y);
    var q := if n == y then x else py;
    if q != NULL && q != x && j == q then y
    else if j == x then n
    else if p != NULL && j == p then x
    else was
  }

  /** The previous link of bucket j after the updates, from the links (px, nx) of x and ny of y before them. */
  function PreviousAfter(px: int, nx: int, ny: int, was: int, x: int, y: int, j: int): (link: int)
  {
    NextAfter(nx, px, ny, was, x, y, j)
  }

  lemma LeftFields(s: seq<Bucket>, x: int, y: int, j: int)
    requires 0 <= x < |s| && 0 <= y < |s| && x != y && 0 <= j < |s|
    requires ValidLink(|s|, s[x].previous) && ValidLink(|s|, s[x].next)
    ensures var p, n := Redirect(s[x].previous, x, y), Redirect(s[x].next, x, y);
      RelinkLeft(s, x, y)[j] == Bucket(if n != NULL && j == n then x else if j == x then p else s[j].previous,
                                       if j == x then n else if p != NULL && j == p then x else s[j].next,
                                       s[j].state, s[j].slot)
  {
  }

  lemma RightFields(s: seq<Bucket>, x: int, y: int, j: int)
    requires 0 <= y < |s| && 0 <= j < |s| && s[y].previous != y
    requires ValidLink(|s|, s[y].previous) && ValidLink(|s|, s[y].next)
    ensures var q, r := s[y].previous, s[y].next;
      RelinkRight(s, x, y)[j] == Bucket(if r != NULL && r != x && j == r then y else s[j].previous,
                                        if q != NULL && q != x && j == q then y else s[j].next,
                                        s[j].state, s[j].slot)
  {
  }

  lemma RelinkedFields(s: seq<Bucket>, x: int, y: int, j: int)
    requires 0 <= x < |s| && 0 <= y < |s| && x != y && 0 <= j < |s|
    requires ValidLink(|s|, s[x].previous) && ValidLink(|s|, s[x].next)
    requires ValidLink(|s|, s[y].previous) && ValidLink(|s|, s[y].next)
    requires s[y].previous == y ==> s[x].next == x
    ensures Relinked(s, x, y)[j] == Bucket(PreviousAfter(s[x].previous, s[x].next, s[y].next, s[j].previous, x, y, j),
                                           NextAfter(s[x].previous, s[x].next, s[y].previous, s[j].next, x, y, j),
                                           s[j].state, s[j].slot)
  {
    LeftFields(s, x, y, j);
    LeftFields(s, x, y, y);
    RightFields(RelinkLeft(s, x, y), x, y, j);
    hide RelinkLeft, RelinkRight;
  }

  /** A listed bucket i with next link ni, now at the exchanged position: a fact about positions only. */
  lemma ExchangeArith(x: int, y: int, px: int, nx: int, listed: bool, py: int, ny: int, i: int, ni: int)
    requires x >= 0 && y >= 0 && x != y && i >= 0 && px >= NULL && nx >= NULL && py >= NULL && ny >= NULL
    requires px != x && nx != x && (px != NULL ==> px != nx)
    requires listed ==>
               py != y && ny != y && (py != NULL ==> py != ny) && (px == y <==> ny == x) && (nx == y <==> py == x)
    requires !listed ==> px != y && nx != y && i != y && ni != y && py == px && ny == nx
    requires ni >= NULL && ni != i && (i == x ==> ni == nx) && (listed && i == y ==> ni == ny)
    requires (ni == x <==> px == i) && (listed ==> (ni == y <==> py == i))
    ensures var j := Exchange(i, x, y);
      // the links of x and y as they stand after the copy or swap
      var px1, nx1 := if listed then py else px, if listed then ny else nx;
      NextAfter(px1, nx1, px, if i == x then nx else if i == y then ny else ni, x, y, j) == Exchange(ni, x, y)
  {
  }

  /** Two listed buckets are next to each other from both sides or from neither. */
  lemma Mutual(s: seq<Bucket>, ends: Ends, order: seq<int>, i: int, x: int)
    requires Linked(s, ends, order) && i in order && x in order
    ensures 0 <= i < |s| && 0 <= x < |s| && (s[i].next == x <==> s[x].previous == i)
  {
    Neighbours(s, ends, order, i);
    Neighbours(s, ends, order, x);
  }

  lemma Unlisted(s: seq<Bucket>, ends: Ends, order: seq<int>, i: int, y: int)
    requires Linked(s, ends, order) && i in order && y !in order && y >= 0
    ensures 0 <= i < |s| && s[i].next != y && s[i].previous != y && i != y
  {
    Neighbours(s, ends, order, i);
  }

  lemma NextExchanged(s: seq<Bucket>, s1: seq<Bucket>, ends: Ends, order: seq<int>, x: int, y: int, i: int)
    requires Linked(s, ends, order) && Staged(s, s1, order, x, y) && i in order
    ensures 0 <= Exchange(i, x, y) < |s|
    ensures NextAfter(s1[x].previous, s1[x].next, s1[y].previous, s1[Exchange(i, x, y)].next, x, y, Exchange(i, x, y))
         == Exchange(s[i].next, x, y)
  {
    hide NextAfter, Linked;
    Neighbours(s, ends, order, x);
    Neighbours(s, ends, order, i);
    Mutual(s, ends, order, i, x);
    if y in order {
      Neighbours(s, ends, order, y);
      Mutual(s, ends, order, i, y);
      Mutual(s, ends, order, x, y);
      Mutual(s, ends, order, y, x);
      ExchangeArith(x, y, s[x].previous, s[x].next, true, s[y].previous, s[y].next, i, s[i].next);
    } else {
      Unlisted(s, ends, order, i, y);
      Unlisted(s, ends, order, x, y);
      ExchangeArith(x, y, s[x].previous, s[x].next, false, s[x].previous, s[x].next, i, s[i].next);
    }
  }

  lemma PreviousExchanged(s: seq<Bucket>, s1: seq<Bucket>, ends: Ends, order: seq<int>, x: int, y: int, i: int)
    requires Linked(s, ends, order) && Staged(s, s1, order, x, y) && i in order
    ensures 0 <= Exchange(i, x, y) < |s|
    ensures PreviousAfter(s1[x].previous, s1[x].next, s1[y].next, s1[Exchange(i, x, y)].previous, x, y,
                          Exchange(i, x, y))
         == Exchange(s[i].previous, x, y)
  {
    hide NextAfter, Linked;
    Neighbours(s, ends, order, x);
    Neighbours(s, ends, order, i);
    Mutual(s, ends, order, x, i);
    if y in order {
      Neighbours(s, ends, order, y);
      Mutual(s, ends, order, y, i);
      Mutual(s, ends, order, x, y);
      Mutual(s, ends, order, y, x);
      ExchangeArith(x, y, s[x].next, s[x].previous, true, s[y].next, s[y].previous, i, s[i].previous);
    } else {
      Unlisted(s, ends, order, i, y);
      Unlisted(s, ends, order, x, y);
      ExchangeArith(x, y, s[x].next, s[x].previous, false, s[x].next, s[x].previous, i, s[i].previous);
    }
  }

  lemma SelfLink(s: seq<Bucket>, s1: seq<Bucket>, ends: Ends, order: seq<int>, x: int, y: int)
    requires Linked(s, ends, order) && Staged(s, s1, order, x, y)
    ensures s1[y].previous == y ==> s1[x].next == x
  {
    Neighbours(s, ends, order, x);
    if y in order {
      Neighbours(s, ends, order, y);
    }
  }

  lemma RelinkedAt(s: seq<Bucket>, s1: seq<Bucket>, ends: Ends, order: seq<int>, x: int, y: int, i: int)
    requires Linked(s, ends, order) && Staged(s, s1, order, x, y) && i in order
    requires ValidLink(|s1|, s1[x].previous) && ValidLink(|s1|, s1[x].next)
    requires ValidLink(|s1|, s1[y].previous) && ValidLink(|s1|, s1[y].next)
    ensures 0 <= i < |s| && 0 <= Exchange(i, x, y) < |s|
    ensures Relinked(s1, x, y)[Exchange(i, x, y)].next == Exchange(s[i].next, x, y)
    ensures Relinked(s1, x, y)[Exchange(i, x, y)].previous == Exchange(s[i].previous, x, y)
  {
    hide Relinked, NextAfter, PreviousAfter;
    NextExchanged(s, s1, ends, order, x, y, i);
    PreviousExchanged(s, s1, ends, order, x, y, i);
    SelfLink(s, s1, ends, order, x, y);
    RelinkedFields(s1, x, y, Exchange(i, x, y));
  }

  lemma ExchangedOrder(order: seq<int>, x: int, y: int, k: int)
    requires 0 <= k < |order| && x >= 0 && y >= 0
    ensures NextAt(ExchangeAll(order, x, y), k) == Exchange(NextAt(order, k), x, y)
    ensures PreviousAt(ExchangeAll(order, x, y), k) == Exchange(PreviousAt(order, k), x, y)
  {
  }

  lemma RelinkedPosition(s: seq<Bucket>, s1: seq<Bucket>, ends: Ends, order: seq<int>, x: int, y: int, k: int)
    requires Linked(s, ends, order) && Staged(s, s1, order, x, y) && 0 <= k < |order|
    requires ValidLink(|s1|, s1[x].previous) && ValidLink(|s1|, s1[x].next)
    requires ValidLink(|s1|, s1[y].previous) && ValidLink(|s1|, s1[y].next)
    ensures LinkedAt(Relinked(s1, x, y), ExchangeAll(order, x, y), k)
  {
    hide Relinked, NextAt, PreviousAt;
    assert s[order[k]].next == NextAt(order, k) && s[order[k]].previous == PreviousAt(order, k);
    RelinkedAt(s, s1, ends, order, x, y, order[k]);
    ExchangedOrder(order, x, y, k);
  }

  /** Relinking after a copy or a swap leaves the same list, with the two bucket positions exchanged. */
  lemma RelinkedList(s: seq<Bucket>, s1: seq<Bucket>, ends: Ends, order: seq<int>, x: int, y: int)
    requires Linked(s, ends, order) && Staged(s, s1, order, x, y)
    ensures ValidLink(|s1|, s1[x].previous) && ValidLink(|s1|, s1[x].next)
    ensures ValidLink(|s1|, s1[y].previous) && ValidLink(|s1|, s1[y].next)
    ensures Linked(Relinked(s1, x, y), ExchangeEnds(ends, x, y), ExchangeAll(order, x, y))
  {
    hide Relinked, NextAt, PreviousAt, Linked, LinkedAt, Staged, Distinct;
    StagedRange(s, s1, order, x, y);
    StagedValid(s, s1, ends, order, x, y);
    LinkedParts(s, ends, order);
    ExchangedDistinct(order, x, y);
    var t, order' := Relinked(s1, x, y), ExchangeAll(order, x, y);
    forall k | 0 <= k < |order'| ensures LinkedAt(t, order', k) {
      RelinkedPosition(s, s1, ends, order, x, y, k);
    }
    ExchangedEnds(ends, order, x, y);
    LinkedEverywhere(t, ExchangeEnds(ends, x, y), order');
  }

  lemma StagedRange(s: seq<Bucket>, s1: seq<Bucket>, order: seq<int>, x: int, y: int)
    requires Staged(s, s1, order, x, y)
    ensures 0 <= x < |s1| && 0 <= y < |s1| && x != y
  {
  }

  lemma ExchangedEnds(ends: Ends, order: seq<int>, x: int, y: int)
    requires EndsOf(ends, order) && x >= 0 && y >= 0
    ensures EndsOf(ExchangeEnds(ends, x, y), ExchangeAll(order, x, y))
  {
  }

  lemma ExchangedDistinct(order: seq<int>, x: int, y: int)
    requires Distinct(order)
    ensures Distinct(ExchangeAll(order, x, y))
  {
  }

  // ----- appending -----

  /** update_collection_for_new_bucket. */
  function AppendLink(s: seq<Bucket>, ends: Ends, i: int): (t: seq<Bucket>)
    requires 0 <= i < |s| && ValidLink(|s|, ends.tail) && (ends.head != NULL ==> ends.tail != NULL)
    ensures |t| == |s|
  {
    if ends.head == NULL then s else SetNext(SetPrevious(s, i, ends.tail), ends.tail, i)
  }

  function AppendEnds(ends: Ends, i: int): (e: Ends)
  {
    Ends(if ends.head == NULL then i else ends.head, i)
  }

  lemma AppendedList(s: seq<Bucket>, ends: Ends, order: seq<int>, i: int)
    requires Linked(s, ends, order) && 0 <= i < |s| && i !in order
    requires s[i].next == NULL && (order == [] ==> s[i].previous == NULL)
    ensures ValidLink(|s|, ends.tail) && (ends.head != NULL ==> ends.tail != NULL)
    ensures Linked(AppendLink(s, ends, i), AppendEnds(ends, i), order + [i])
  {
    var order' := order + [i];
    var t := AppendLink(s, ends, i);
    forall k | 0 <= k < |order'|
      ensures 0 <= order'[k] < |t|
      ensures t[order'[k]].next == NextAt(order', k) && t[order'[k]].previous == PreviousAt(order', k)
    {
      if k < |order| {
        assert s[order[k]].next == NextAt(order, k) && s[order[k]].previous == PreviousAt(order, k);
      }
    }
  }

  // ----- removing -----

  /** The list part of delete_bucket: the neighbours skip bucket x, whose links become null. */
  function Unlink(s: seq<Bucket>, x: int): (t: seq<Bucket>)
    requires 0 <= x < |s| && ValidLink(|s|, s[x].previous) && ValidLink(|s|, s[x].next)
    ensures |t| == |s|
  {
    var p, n := s[x].previous, s[x].next;
    var s1 := if p == NULL then s else SetNext(s, p, n);
    var s2 := if n == NULL then s1 else SetPrevious(s1, n, p);
    SetNext(SetPrevious(s2, x, NULL), x, NULL)
  }

  function UnlinkEnds(s: seq<Bucket>, ends: Ends, x: int): (e: Ends)
    requires 0 <= x < |s|
  {
    Ends(if s[x].previous == NULL then s[x].next else ends.head, if s[x].next == NULL then s[x].previous else ends.tail)
  }

  function Without(order: seq<int>, k: int): (t: seq<int>)
    requires 0 <= k < |order|
  {
    order[..k] + order[k + 1..]
  }

  lemma WithoutPosition(order: seq<int>, k: int, j: int)
    requires 0 <= k < |order| && 0 <= j < |order| - 1
    ensures var t := Without(order, k);
      && |t| == |order| - 1 && t[j] == order[if j < k then j else j + 1]
      && NextAt(t, j) == (if j < k then (if j + 1 == k then NextAt(order, k) else NextAt(order, j)) else NextAt(order,
          j + 1))
      && PreviousAt(t, j) == (if j < k then PreviousAt(order, j) else if j == k then PreviousAt(order,
          k) else PreviousAt(order, j + 1))
  {
  }

  lemma UnlinkFields(s: seq<Bucket>, x: int, j: int)
    requires 0 <= x < |s| && ValidLink(|s|, s[x].previous) && ValidLink(|s|, s[x].next) && 0 <= j < |s| && j != x
    requires s[x].previous != x && s[x].next != x
    ensures Unlink(s, x)[j] == Bucket(if s[x].next == j then s[x].previous else s[j].previous,
                                      if s[x].previous == j then s[x].next else s[j].next, s[j].state, s[j].slot)
    ensures Unlink(s, x)[x] == Bucket(NULL, NULL, s[x].state, s[x].slot)
  {
  }

  lemma UnlinkedPosition(s: seq<Bucket>, ends: Ends, order: seq<int>, k: int, j: int)
    requires Linked(s, ends, order) && 0 <= k < |order| && 0 <= j < |order| - 1
    requires ValidLink(|s|, s[order[k]].previous) && ValidLink(|s|, s[order[k]].next)
    ensures LinkedAt(Unlink(s, order[k]), Without(order, k), j)
  {
    var x, i := order[k], order[if j < k then j else j + 1];
    var ki := if j < k then j else j + 1;
    WithoutPosition(order, k, j);
    Neighbours(s, ends, order, x);
    UnlinkFields(s, x, i);
    assert s[i].next == NextAt(order, ki) && s[i].previous == PreviousAt(order, ki);
    assert s[x].next == NextAt(order, k) && s[x].previous == PreviousAt(order, k);
    hide Unlink, Without;
  }

  /** Unlinking removes exactly that bucket from the list. */
  lemma UnlinkedList(s: seq<Bucket>, ends: Ends, order: seq<int>, k: int)
    requires Linked(s, ends, order) && 0 <= k < |order|
    ensures var x := order[k];
      && ValidLink(|s|, s[x].previous) && ValidLink(|s|, s[x].next)
      && Linked(Unlink(s, x), UnlinkEnds(s, ends, x), Without(order, k))
  {
    var x, order' := order[k], Without(order, k);
    UnlinkedEnds(s, ends, order, k);
    hide Unlink, NextAt, PreviousAt, Without, Linked, LinkedAt, Distinct, EndsOf, UnlinkEnds;
    assert |order'| == |order| - 1 by {
      WithoutLength(order, k);
    }
    forall j | 0 <= j < |order'| ensures LinkedAt(Unlink(s, x), order', j) {
      UnlinkedPosition(s, ends, order, k, j);
    }
    LinkedEverywhere(Unlink(s, x), UnlinkEnds(s, ends, x), order');
  }

  lemma WithoutLength(order: seq<int>, k: int)
    requires 0 <= k < |order|
    ensures |Without(order, k)| == |order| - 1
  {
  }

  lemma UnlinkedEnds(s: seq<Bucket>, ends: Ends, order: seq<int>, k: int)
    requires Linked(s, ends, order) && 0 <= k < |order|
    ensures 0 <= order[k] < |s| && ValidLink(|s|, s[order[k]].previous) && ValidLink(|s|, s[order[k]].next)
    ensures EndsOf(UnlinkEnds(s, ends, order[k]), Without(order, k)) && Distinct(Without(order, k))
  {
    var x := order[k];
    Neighbours(s, ends, order, x);
    assert s[x].next == NextAt(order, k) && s[x].previous == PreviousAt(order, k);
  }

  // ----- shifting a bucket into a hole -----

  /** A shift of delete_bucket: bucket x moves to y with a new state, its links are cleared, its neighbours follow. */
  function ShiftLinks(s: seq<Bucket>, x: int, y: int, state: nat): (t: seq<Bucket>)
    requires 0 <= x < |s| && 0 <= y < |s| && x != y && ValidLink(|s|, s[x].previous) && ValidLink(|s|, s[x].next)
    ensures |t| == |s|
  {
    var s1 := s[y := s[x]];
    var s2 := SetNext(SetPrevious(s1, x, NULL), x, NULL);
    var s3 := s2[y := s2[y].(state := state)];
    var s4 := if s3[y].previous == NULL then s3 else SetNext(s3, s3[y].previous, y);
    if s4[y].next == NULL then s4 else SetPrevious(s4, s4[y].next, y)
  }

  function ShiftEnds(s: seq<Bucket>, ends: Ends, x: int, y: int): (e: Ends)
    requires 0 <= x < |s|
  {
    Ends(if s[x].previous == NULL then y else ends.head, if s[x].next == NULL then y else ends.tail)
  }

  lemma ShiftFields(s: seq<Bucket>, x: int, y: int, state: nat, j: int)
    requires 0 <= x < |s| && 0 <= y < |s| && x != y && ValidLink(|s|, s[x].previous) && ValidLink(|s|, s[x].next)
    requires s[x].previous != x && s[x].next != x && s[x].previous != y && s[x].next != y && 0 <= j < |s| && j != x
             && j != y
    ensures ShiftLinks(s, x, y, state)[j] == Bucket(if s[x].next == j then y else s[j].previous,
                                                    if s[x].previous == j then y else s[j].next, s[j].state, s[j].slot)
  {
  }

  lemma ShiftedSelf(s: seq<Bucket>, x: int, y: int, state: nat)
    requires 0 <= x < |s| && 0 <= y < |s| && x != y && ValidLink(|s|, s[x].previous) && ValidLink(|s|, s[x].next)
    requires s[x].previous != x && s[x].next != x && s[x].previous != y && s[x].next != y
    ensures ShiftLinks(s, x, y, state)[y] == s[x].(state := state)
    ensures ShiftLinks(s, x, y, state)[x] == Bucket(NULL, NULL, s[x].state, s[x].slot)
  {
  }

  lemma ShiftedPosition(s: seq<Bucket>, ends: Ends, order: seq<int>, x: int, y: int, state: nat, k: int)
    requires Linked(s, ends, order) && 0 <= k < |order| && x in order && y !in order && 0 <= x < |s| && 0 <= y < |s|
             && x != y
    requires ValidLink(|s|, s[x].previous) && ValidLink(|s|, s[x].next)
    ensures LinkedAt(ShiftLinks(s, x, y, state), ExchangeAll(order, x, y), k)
  {
    var i := order[k];
    Neighbours(s, ends, order, x);
    Neighbours(s, ends, order, i);
    Mutual(s, ends, order, i, x);
    Mutual(s, ends, order, x, i);
    Unlisted(s, ends, order, x, y);
    Unlisted(s, ends, order, i, y);
    if i != x {
      ShiftFields(s, x, y, state, i);
    }
    ShiftedSelf(s, x, y, state);
    ExchangedOrder(order, x, y, k);
    assert s[i].next == NextAt(order, k) && s[i].previous == PreviousAt(order, k);
    hide ShiftLinks, Linked;
  }

  /** The shifted bucket takes its place in the list at its new position. */
  lemma ShiftedList(s: seq<Bucket>, ends: Ends, order: seq<int>, x: int, y: int, state: nat)
    requires Linked(s, ends, order) && x in order && y !in order && 0 <= y < |s|
    ensures 0 <= x < |s| && x != y && ValidLink(|s|, s[x].previous) && ValidLink(|s|, s[x].next)
    ensures Linked(ShiftLinks(s, x, y, state), ShiftEnds(s, ends, x, y), ExchangeAll(order, x, y))
  {
    hide ShiftLinks, NextAt, PreviousAt, Linked, LinkedAt, Distinct;
    LinkedParts(s, ends, order);
    Neighbours(s, ends, order, x);
    ExchangedDistinct(order, x, y);
    ExchangedEnds(ends, order, x, y);
    var t, order' := ShiftLinks(s, x, y, state), ExchangeAll(order, x, y);
    forall k | 0 <= k < |order'| ensures LinkedAt(t, order', k) {
      ShiftedPosition(s, ends, order, x, y, state, k);
    }
    UnlistedEnds(ends, order, y);
    LinkedEverywhere(t, ShiftEnds(s, ends, x, y), order');
  }

  lemma UnlistedEnds(ends: Ends, order: seq<int>, y: int)
    requires EndsOf(ends, order) && order != [] && y !in order
    ensures ends.head != y && ends.tail != y
  {
  }
}
