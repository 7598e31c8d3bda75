/** Probe lengths in a Robin Hood table: how far a used bucket sits from its ideal index, around the ring. */
module HashProbe {
  import opened HashLinks

  const FREE: nat := 0
  const CALCULATE_LENGTH: nat := 255

  predicate Used(b: Bucket)
  {
    b.state != FREE
  }

  /** The index after i, wrapping at the capacity. */
  function Next(c: nat, i: nat): (j: nat)
    requires i < c
    ensures j < c
  {
    if i + 1 == c then 0 else i + 1
  }

  function Before(c: nat, i: nat): (j: nat)
    requires i < c
    ensures j < c && Next(c, j) == i
  {
    if i == 0 then c - 1 else i - 1
  }

  /** How far `to` lies ahead of `from`, around the ring. */
  function Distance(c: nat, from: nat, to: nat): (d: nat)
    requires from < c && to < c
    ensures d < c
  {
    if to < from then c + to - from else to - from
  }

  /** The index d places after `from`. */
  function Ahead(c: nat, from: nat, d: nat): (i: nat)
    requires from < c && d < c
    ensures i < c && Distance(c, from, i) == d
  {
    if from + d < c then from + d else from + d - c
  }

  function Ideal(h: nat -> nat, c: nat, key: nat): (i: nat)
    requires c > 0
    ensures i < c
  {
    h(key) % c
  }

  /** The true probe length of a key stored at index i. */
  function Probe(h: nat -> nat, c: nat, i: nat, key: nat): (p: nat)
    requires i < c
    ensures p < c
  {
    Distance(c, Ideal(h, c, key), i)
  }

  function StateFor(p: nat): (state: nat)
    ensures FREE < state <= CALCULATE_LENGTH
  {
    if p > 253 then CALCULATE_LENGTH else p + 1
  }

  /** used_bucket_probe_length: the stored byte, or the distance computed afresh when the byte is saturated. */
  function ProbeLength(h: nat -> nat, c: nat, b: Bucket, i: nat): (p: nat)
    requires i < c && Used(b)
  {
    if b.state == CALCULATE_LENGTH then
      var ideal := Ideal(h, c, b.slot.key);
      if i < ideal then c + i - ideal else i - ideal
    else b.state - 1
  }

  /** The stored byte encodes the true probe length. */
  ghost predicate Coherent(h: nat -> nat, c: nat, s: seq<Bucket>)
  {
    c <= |s| && forall i :: 0 <= i < c && Used(s[i]) ==> s[i].state == StateFor(Probe(h, c, i, s[i].slot.key))
  }

  /** A used bucket away from its ideal index has a used predecessor with a probe length at most one smaller. */
  ghost predicate RobinHood(h: nat -> nat, c: nat, s: seq<Bucket>)
    requires c <= |s|
  {
    forall i :: 0 <= i < c && Used(s[i]) && Probe(h, c, i, s[i].slot.key) > 0 ==>
      var j := Before(c, i);
      Used(s[j]) && Probe(h, c, j, s[j].slot.key) + 1 >= Probe(h, c, i, s[i].slot.key)
  }

  /** No two used buckets hold equal keys, the bucket at `except` aside. */
  ghost predicate DistinctKeys(c: nat, s: seq<Bucket>, except: int)
    requires c <= |s|
  {
    forall i, j :: 0 <= i < j < c && i != except && j != except && Used(s[i]) && Used(s[j]) ==>
        s[i].slot.key != s[j].slot.key
  }

  ghost predicate Absent(c: nat, s: seq<Bucket>, key: nat)
    requires c <= |s|
  {
    forall i :: 0 <= i < c && Used(s[i]) ==> s[i].slot.key != key
  }

  lemma ProbeLengthIsProbe(h: nat -> nat, c: nat, s: seq<Bucket>, i: nat)
    requires i < c && Coherent(h, c, s) && Used(s[i])
    ensures ProbeLength(h, c, s[i], i) == Probe(h, c, i, s[i].slot.key)
  {
  }

  /** Moving one place on adds one to the distance, unless the walk comes back to where it began. */
  lemma DistanceNext(c: nat, from: nat, i: nat)
    requires from < c && i < c
    ensures Next(c, i) != from ==> Distance(c, from, Next(c, i)) == Distance(c, from, i) + 1
    ensures Next(c, i) == from ==> Distance(c, from, i) == c - 1
  {
  }

  /** The p buckets behind one with probe length p are used, with probes that are at most that much shorter. */
  lemma {:induction false} ProbeRun(h: nat -> nat, c: nat, s: seq<Bucket>, ideal: nat, p: nat, d: nat)
    requires c <= |s| && RobinHood(h, c, s) && ideal < c && d <= p < c
    requires var i := Ahead(c, ideal, p); Used(s[i]) && Probe(h, c, i, s[i].slot.key) >= p
    ensures var j := Ahead(c, ideal, d); Used(s[j]) && Probe(h, c, j, s[j].slot.key) >= d
    decreases p - d
  {
    if d < p {
      var i := Ahead(c, ideal, p);
      assert Before(c, i) == Ahead(c, ideal, p - 1);
      ProbeRun(h, c, s, ideal, p - 1, d);
    }
  }

  /** A key that is not found before a free bucket or one with a shorter probe is not stored. */
  lemma NotStored(h: nat -> nat, c: nat, s: seq<Bucket>, key: nat, d: nat)
    requires c <= |s| && RobinHood(h, c, s) && d < c
    requires forall m :: 0 <= m < d ==> s[Ahead(c, Ideal(h, c, key), m)].slot.key != key
    requires var i := Ahead(c, Ideal(h, c, key), d);
      !Used(s[i]) || (s[i].slot.key != key && Probe(h, c, i, s[i].slot.key) < d)
    ensures Absent(c, s, key)
  {
    var ideal := Ideal(h, c, key);
    forall j | 0 <= j < c && Used(s[j]) ensures s[j].slot.key != key {
      if s[j].slot.key == key {
        var p := Probe(h, c, j, key);
        assert j == Ahead(c, ideal, p);
        if p >= d {
          ProbeRun(h, c, s, ideal, p, d);
        }
      }
    }
  }

  // ----- what one bucket write keeps -----

  /** Equal states and slots; links may differ. */
  ghost predicate SameContents(c: nat, s: seq<Bucket>, t: seq<Bucket>)
  {
    |s| == |t| && c <= |s| && forall i :: 0 <= i < c ==> t[i].state == s[i].state && t[i].slot == s[i].slot
  }

  lemma ContentsOnly(h: nat -> nat, c: nat, s: seq<Bucket>, t: seq<Bucket>)
    requires SameContents(c, s, t)
    ensures Coherent(h, c, s) ==> Coherent(h, c, t)
    ensures RobinHood(h, c, s) ==> RobinHood(h, c, t)
    ensures forall except :: DistinctKeys(c, s, except) ==> DistinctKeys(c, t, except)
    ensures forall key :: Absent(c, s, key) <==> Absent(c, t, key)
  {
    hide Coherent, RobinHood, DistinctKeys, Absent;
    ContentsCoherent(h, c, s, t);
    ContentsRobinHood(h, c, s, t);
    ContentsKeys(c, s, t);
  }

  lemma ContentsCoherent(h: nat -> nat, c: nat, s: seq<Bucket>, t: seq<Bucket>)
    requires SameContents(c, s, t)
    ensures Coherent(h, c, s) ==> Coherent(h, c, t)
  {
  }

  lemma ContentsRobinHood(h: nat -> nat, c: nat, s: seq<Bucket>, t: seq<Bucket>)
    requires SameContents(c, s, t)
    ensures RobinHood(h, c, s) ==> RobinHood(h, c, t)
  {
  }

  lemma ContentsKeys(c: nat, s: seq<Bucket>, t: seq<Bucket>)
    requires SameContents(c, s, t)
    ensures forall except :: DistinctKeys(c, s, except) ==> DistinctKeys(c, t, except)
    ensures forall key :: Absent(c, s, key) <==> Absent(c, t, key)
  {
  }

  /** An entry may go to j if its predecessor is close enough and the bucket is free or no further from home. */
  ghost predicate MayPlace(h: nat -> nat, c: nat, s: seq<Bucket>, j: nat, key: nat)
    requires j < c <= |s|
  {
    var d := Probe(h, c, j, key);
    && (d > 0 ==> Used(s[Before(c, j)]) && Probe(h, c, Before(c, j), s[Before(c, j)].slot.key) + 1 >= d)
    && (Used(s[j]) ==> Probe(h, c, j, s[j].slot.key) <= d)
  }

  lemma Placed(h: nat -> nat, c: nat, s: seq<Bucket>, j: nat, b: Bucket)
    requires 2 <= c && j < c && Coherent(h, c, s) && RobinHood(h, c, s)
    requires b.state == StateFor(Probe(h, c, j, b.slot.key)) && MayPlace(h, c, s, j, b.slot.key)
    ensures Coherent(h, c, s[j := b]) && RobinHood(h, c, s[j := b])
  {
    var t := s[j := b];
    forall i | 0 <= i < c && Used(t[i]) && Probe(h, c, i, t[i].slot.key) > 0
      ensures Used(t[Before(c, i)])
      ensures Probe(h, c, Before(c, i), t[Before(c, i)].slot.key) + 1 >= Probe(h, c, i, t[i].slot.key)
    {
      if i == j {
        assert Before(c, j) != j;
      } else if Before(c, i) == j {
        assert Used(s[j]);
      } else {
        assert t[i] == s[i] && t[Before(c, i)] == s[Before(c, i)];
      }
    }
  }

  /** After passing a bucket, the entry in hand may be placed at the next one that is free or closer to home. */
  lemma MayPlaceNext(h: nat -> nat, c: nat, s: seq<Bucket>, i: nat, key: nat)
    requires 2 <= c && i < c <= |s| && Used(s[i]) && Probe(h, c, i, key) <= Probe(h, c, i, s[i].slot.key)
    requires Next(c, i) != Ideal(h, c, key)
    ensures var j := Next(c, i);
      && Probe(h, c, j, key) == Probe(h, c, i, key) + 1
      && (!Used(s[j]) || Probe(h, c, j, s[j].slot.key) < Probe(h, c, j, key) ==> MayPlace(h, c, s, j, key))
  {
    DistanceNext(c, Ideal(h, c, key), i);
  }

  /** A walk with a bucket in hand never comes back to that entry's ideal index while a bucket is free. */
  lemma NeverRound(h: nat -> nat, c: nat, s: seq<Bucket>, i: nat, key: nat, f: nat)
    requires i < c <= |s| && f < c && RobinHood(h, c, s) && !Used(s[f])
    requires Used(s[i]) && Probe(h, c, i, key) <= Probe(h, c, i, s[i].slot.key)
    ensures Next(c, i) != Ideal(h, c, key)
  {
    var ideal := Ideal(h, c, key);
    if Next(c, i) == ideal {
      DistanceNext(c, ideal, i);
      assert i == Ahead(c, ideal, c - 1) && f == Ahead(c, ideal, Distance(c, ideal, f));
      ProbeRun(h, c, s, ideal, c - 1, Distance(c, ideal, f));
    }
  }

  /** Backward shift of the bucket after `to`: the stale bucket it leaves behind keeps the order of probe lengths. */
  lemma ShiftedBack(h: nat -> nat, c: nat, s: seq<Bucket>, to: nat, b: Bucket)
    requires 2 <= c && to < c && Coherent(h, c, s) && RobinHood(h, c, s) && Used(s[to])
    requires var from := Next(c, to);
      && Used(s[from]) && Probe(h, c, from, s[from].slot.key) > 0
      && b.slot == s[from].slot && b.state == StateFor(Probe(h, c, from, s[from].slot.key) - 1)
    ensures Coherent(h, c, s[to := b]) && RobinHood(h, c, s[to := b])
  {
    var from, t := Next(c, to), s[to := b];
    var key := s[from].slot.key;
    assert Before(c, from) == to;
    DistanceNext(c, Ideal(h, c, key), to);
    var p := Probe(h, c, from, key);
    assert Probe(h, c, to, key) == p - 1;
    forall i | 0 <= i < c && Used(t[i]) && Probe(h, c, i, t[i].slot.key) > 0
      ensures Used(t[Before(c, i)])
      ensures Probe(h, c, Before(c, i), t[Before(c, i)].slot.key) + 1 >= Probe(h, c, i, t[i].slot.key)
    {
      if i == to {
        assert Probe(h, c, to, s[to].slot.key) >= p - 1 > 0;
        assert Before(c, to) != to;
      } else if i == from {
        assert t[Before(c, i)] == b;
      } else {
        assert Before(c, i) != to;
        assert t[i] == s[i] && t[Before(c, i)] == s[Before(c, i)];
      }
    }
  }

  /** The last hole becomes free when the bucket after it is free or at home. */
  lemma HoleFreed(h: nat -> nat, c: nat, s: seq<Bucket>, hole: nat, b: Bucket)
    requires 2 <= c && hole < c && Coherent(h, c, s) && RobinHood(h, c, s) && b.state == FREE
    requires var n := Next(c, hole); !Used(s[n]) || Probe(h, c, n, s[n].slot.key) == 0
    ensures Coherent(h, c, s[hole := b]) && RobinHood(h, c, s[hole := b])
  {
    var t := s[hole := b];
    forall i | 0 <= i < c && Used(t[i]) && Probe(h, c, i, t[i].slot.key) > 0
      ensures Used(t[Before(c, i)])
      ensures Probe(h, c, Before(c, i), t[Before(c, i)].slot.key) + 1 >= Probe(h, c, i, t[i].slot.key)
    {
      assert Before(c, i) != hole;
      assert t[i] == s[i] && t[Before(c, i)] == s[Before(c, i)];
    }
  }
}
