/** Whole runs of table operations: the table follows the abstract one, and keeps the order of first insertion. */
module HashRuns {
  import opened HashLinks
  import opened HashTable

  datatype Operation =
    | SetEntry(e: Entry, replace: bool)
    | RemoveKey(key: nat)
    | TakeFirst
    | TakeLast
    | RemoveMatching(matches: Entry -> bool)

  /** One operation on the abstract table. Taking from an empty table is not done. */
  function Applied(es: seq<Entry>, op: Operation): (r: seq<Entry>)
  {
    match op
    case SetEntry(e, replace) => Upsert(es, e, replace)
    case RemoveKey(key) => WithoutKey(es, key)
    case TakeFirst => if es == [] then es else es[1..]
    case TakeLast => if es == [] then es else es[..|es| - 1]
    case RemoveMatching(matches) => Failing(es, matches)
  }

  function AppliedAll(es: seq<Entry>, ops: seq<Operation>): (r: seq<Entry>)
  {
    if ops == [] then es else Applied(AppliedAll(es, ops[..|ops| - 1]), ops[|ops| - 1])
  }

  // ----- what the abstract table keeps -----

  ghost predicate Unique(es: seq<Entry>) {
    forall i, j :: 0 <= i < j < |es| ==> es[i].key != es[j].key
  }

  /** r is what remains of es: every entry of r comes from es, at an increasing position. */
  ghost predicate Remains(es: seq<Entry>, r: seq<Entry>, from: seq<nat>) {
    && |from| == |r| && (forall i :: 0 <= i < |r| ==> from[i] < |es| && es[from[i]] == r[i])
    && (forall i, j :: 0 <= i < j < |r| ==> from[i] < from[j])
  }

  ghost function Shifted(from: seq<nat>): (to: seq<nat>)
    ensures |to| == |from| && (forall i :: 0 <= i < |from| ==> to[i] == from[i] + 1)
  {
    seq(|from|, i requires 0 <= i < |from| => from[i] + 1)
  }

  lemma RemainsAfter(e: Entry, es: seq<Entry>, r: seq<Entry>, from: seq<nat>)
    requires Remains(es, r, from)
    ensures Remains([e] + es, r, Shifted(from)) && Remains([e] + es, [e] + r, [0] + Shifted(from))
  {
  }

  lemma {:induction false} FailingRemains(es: seq<Entry>, matches: Entry -> bool) returns (from: seq<nat>)
    ensures Remains(es, Failing(es, matches), from)
  {
    if es == [] {
      from := [];
    } else {
      var rest := FailingRemains(es[1..], matches);
      RemainsAfter(es[0], es[1..], Failing(es[1..], matches), rest);
      assert [es[0]] + es[1..] == es;
      from := if matches(es[0]) then Shifted(rest) else [0] + Shifted(rest);
    }
  }

  lemma {:induction false} WithoutKeyRemains(es: seq<Entry>, key: nat) returns (from: seq<nat>)
    ensures Remains(es, WithoutKey(es, key), from)
  {
    if es == [] {
      from := [];
    } else if es[0].key == key {
      from := Shifted(seq(|es| - 1, i requires 0 <= i => i));
    } else {
      var rest := WithoutKeyRemains(es[1..], key);
      RemainsAfter(es[0], es[1..], WithoutKey(es[1..], key), rest);
      assert [es[0]] + es[1..] == es;
      from := [0] + Shifted(rest);
    }
  }

  /** The keys of a table after a set: the same at the same positions, and a new key last. */
  lemma {:induction false} UpsertKeys(es: seq<Entry>, e: Entry, replace: bool)
    ensures var r := Upsert(es, e, replace);
            && |es| <= |r| <= |es| + 1 && (forall i :: 0 <= i < |es| ==> r[i].key == es[i].key)
            && (|r| == |es| <==> HasKey(es, e.key)) && (|r| > |es| ==> r[|es|] == e)
  {
    if HasKey(es, e.key) {
      FirstWithKey(es, e, replace);
    } else {
      UpsertAbsent(es, e, replace);
    }
  }

  lemma {:induction false} FirstWithKey(es: seq<Entry>, e: Entry, replace: bool)
    requires HasKey(es, e.key)
    ensures var r := Upsert(es, e, replace);
            |r| == |es| && (forall i :: 0 <= i < |es| ==> r[i].key == es[i].key)
  {
    if es[0].key != e.key {
      var k :| 0 <= k < |es| && es[k].key == e.key;
      assert es[1..][k - 1] == es[k];
      FirstWithKey(es[1..], e, replace);
    }
  }

  /** Key a stands before key b. */
  ghost predicate Precedes(es: seq<Entry>, a: nat, b: nat) {
    exists i, j :: 0 <= i < j < |es| && es[i].key == a && es[j].key == b
  }

  lemma RemainsOrder(es: seq<Entry>, r: seq<Entry>, from: seq<nat>, a: nat, b: nat)
    requires Remains(es, r, from) && Unique(es)
    ensures Unique(r)
    ensures Precedes(es, a, b) && HasKey(r, a) && HasKey(r, b) ==> Precedes(r, a, b)
  {
    if Precedes(es, a, b) && HasKey(r, a) && HasKey(r, b) {
      var i, j :| 0 <= i < j < |es| && es[i].key == a && es[j].key == b;
      var k :| 0 <= k < |r| && r[k].key == a;
      var l :| 0 <= l < |r| && r[l].key == b;
      assert from[k] == i && from[l] == j;
      assert k < l;
    }
  }

  /** All operations but one only remove. */
  lemma RemovalRemains(es: seq<Entry>, op: Operation) returns (from: seq<nat>)
    requires !op.SetEntry?
    ensures Remains(es, Applied(es, op), from)
  {
    match op {
      case RemoveKey(key) => from := WithoutKeyRemains(es, key);
      case TakeFirst => from := if es == [] then [] else Shifted(seq(|es| - 1, i requires 0 <= i => i));
      case TakeLast => from := if es == [] then [] else seq(|es| - 1, i requires 0 <= i => i);
      case RemoveMatching(matches) => from := FailingRemains(es, matches);
    }
  }

  /** Every operation keeps the keys distinct, and never exchanges two keys that it does not remove. */
  lemma OperationKeepsOrder(es: seq<Entry>, op: Operation, a: nat, b: nat)
    requires Unique(es)
    ensures Unique(Applied(es, op))
    ensures Precedes(es, a, b) && HasKey(Applied(es, op), a) && HasKey(Applied(es, op), b) ==>
            Precedes(Applied(es, op), a, b)
  {
    hide Precedes, HasKey, Unique, Remains;
    if op.SetEntry? {
      UpsertOrder(es, op.e, op.replace, a, b);
    } else {
      var from := RemovalRemains(es, op);
      RemainsOrder(es, Applied(es, op), from, a, b);
    }
  }

  lemma UpsertOrder(es: seq<Entry>, e: Entry, replace: bool, a: nat, b: nat)
    requires Unique(es)
    ensures Unique(Upsert(es, e, replace)) && (Precedes(es, a, b) ==> Precedes(Upsert(es, e, replace), a, b))
  {
    hide Upsert;
    UpsertKeys(es, e, replace);
    var r := Upsert(es, e, replace);
    if Precedes(es, a, b) {
      var i, j :| 0 <= i < j < |es| && es[i].key == a && es[j].key == b;
      assert r[i].key == a && r[j].key == b;
    }
  }

  /** Over any run: distinct keys stay distinct. */
  lemma {:induction false} RunKeepsUnique(es: seq<Entry>, ops: seq<Operation>)
    requires Unique(es)
    ensures Unique(AppliedAll(es, ops))
  {
    if ops != [] {
      RunKeepsUnique(es, ops[..|ops| - 1]);
      OperationKeepsOrder(AppliedAll(es, ops[..|ops| - 1]), ops[|ops| - 1], 0, 0);
    }
  }

  /** The key is in the table from operation `from` of the run on. */
  ghost predicate Present(es: seq<Entry>, ops: seq<Operation>, from: nat, key: nat) {
    forall n :: from <= n <= |ops| ==> HasKey(AppliedAll(es, ops[..n]), key)
  }

  lemma PresentEarlier(es: seq<Entry>, ops: seq<Operation>, from: nat, key: nat)
    requires ops != [] && from <= |ops| && Present(es, ops, from, key)
    ensures Present(es, ops[..|ops| - 1], from, key) && HasKey(AppliedAll(es, ops), key)
  {
    var before := ops[..|ops| - 1];
    assert ops[..|ops|] == ops;
    forall n | from <= n <= |before| ensures HasKey(AppliedAll(es, before[..n]), key) {
      assert before[..n] == ops[..n];
    }
  }

  /** Over any run: two keys that stay in the table keep their order. */
  lemma {:induction false} RunKeepsOrder(es: seq<Entry>, ops: seq<Operation>, a: nat, b: nat)
    requires Unique(es) && Precedes(es, a, b) && Present(es, ops, 0, a) && Present(es, ops, 0, b)
    ensures Precedes(AppliedAll(es, ops), a, b)
  {
    hide Present, Precedes, Unique, Applied;
    if ops != [] {
      var before := ops[..|ops| - 1];
      PresentEarlier(es, ops, 0, a);
      PresentEarlier(es, ops, 0, b);
      RunKeepsOrder(es, before, a, b);
      RunKeepsUnique(es, before);
      OperationKeepsOrder(AppliedAll(es, before), ops[|ops| - 1], a, b);
    }
  }

  lemma UpsertLast(es: seq<Entry>, e: Entry, replace: bool, a: nat, b: nat)
    requires HasKey(es, a) && !HasKey(es, b) && HasKey(Upsert(es, e, replace), b)
    ensures Precedes(Upsert(es, e, replace), a, b)
  {
    hide Upsert;
    UpsertKeys(es, e, replace);
    var r := Upsert(es, e, replace);
    var i :| 0 <= i < |es| && es[i].key == a;
    var j :| 0 <= j < |r| && r[j].key == b;
    assert r[i].key == a;
  }

  /** A key that an operation brings in comes after all that are there. */
  lemma NewComesLast(es: seq<Entry>, op: Operation, a: nat, b: nat)
    requires HasKey(es, a) && !HasKey(es, b) && HasKey(Applied(es, op), b)
    ensures Precedes(Applied(es, op), a, b)
  {
    hide Precedes, HasKey, Remains;
    if op.SetEntry? {
      UpsertLast(es, op.e, op.replace, a, b);
    } else {
      var from := RemovalRemains(es, op);
      RemainsKeys(es, Applied(es, op), from, b);
    }
  }

  lemma RemainsKeys(es: seq<Entry>, r: seq<Entry>, from: seq<nat>, key: nat)
    requires Remains(es, r, from)
    ensures HasKey(r, key) ==> HasKey(es, key)
  {
    if HasKey(r, key) {
      var k :| 0 <= k < |r| && r[k].key == key;
      assert es[from[k]].key == key;
    }
  }

  /** The order is that of insertion: a key that was there when another one came stays before it. */
  lemma {:induction false} OlderComesFirst(es: seq<Entry>, ops: seq<Operation>, n: nat, a: nat, b: nat)
    requires Unique(es) && n < |ops| && Present(es, ops, n, a) && Present(es, ops, n + 1, b)
    requires !HasKey(AppliedAll(es, ops[..n]), b)
    ensures Precedes(AppliedAll(es, ops), a, b)
    decreases |ops|
  {
    hide Precedes, Unique, Applied, HasKey;
    var before := ops[..|ops| - 1];
    PresentEarlier(es, ops, n, a);
    PresentEarlier(es, ops, n + 1, b);
    assert before[..n] == ops[..n];
    if n == |before| {
      assert before == ops[..n];
      NewComesLast(AppliedAll(es, before), ops[n], a, b);
    } else {
      OlderComesFirst(es, before, n, a, b);
      RunKeepsUnique(es, before);
      OperationKeepsOrder(AppliedAll(es, before), ops[|ops| - 1], a, b);
    }
  }

  // ----- the table itself -----

  /** Any run of operations leaves the table, and so what its iteration visits, as the abstract run says. */
  method Perform(table: OrderedHashTable, ops: seq<Operation>)
    requires table.Valid() && forall n: nat :: table.goodCapacity(n) >= n
    modifies table, table.buckets
    ensures table.Valid() && table.Model() == AppliedAll(old(table.Model()), ops)
    ensures table.buckets == old(table.buckets) || fresh(table.buckets)
  {
    hide Upsert, WithoutKey, Failing;
    ghost var es := table.Model();
    for i := 0 to |ops|
      invariant table.Valid() && table.Model() == AppliedAll(es, ops[..i])
      invariant table.buckets == old(table.buckets) || fresh(table.buckets)
    {
      assert ops[..i + 1][..i] == ops[..i];
      PerformOne(table, ops[i]);
    }
    assert ops[..|ops|] == ops;
  }

  method PerformOne(table: OrderedHashTable, op: Operation)
    requires table.Valid() && forall n: nat :: table.goodCapacity(n) >= n
    modifies table, table.buckets
    ensures table.Valid() && table.Model() == Applied(old(table.Model()), op)
    ensures table.buckets == old(table.buckets) || fresh(table.buckets)
  {
    hide Upsert, WithoutKey, Failing;
    assert |table.Model()| == table.size;
    match op {
      case SetEntry(e, replace) =>
        var result := table.Set(e, replace);
      case RemoveKey(key) =>
        var removed := table.Remove(key);
      case TakeFirst =>
        if table.size > 0 {
          var e := table.TakeFirst();
        }
      case TakeLast =>
        if table.size > 0 {
          var e := table.TakeLast();
        }
      case RemoveMatching(matches) =>
        var removed := table.RemoveAllMatching(matches);
    }
  }
}
