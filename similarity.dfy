/** The two in-memory similarity indexes: SimHashIndexer keeps a list of
    objects per signature and answers a query with every object stored within
    Hamming distance 2 of the query, duplicates included; TextWinnowingIndexer
    keeps a set of objects per fingerprint and answers with the union of the
    buckets of the query's fingerprints. Signatures and fingerprints are given;
    the text hashers in front of them are not modelled here. */
module Similarity {
  import opened Bits
  import opened Collections

  // ----- SimHash index: buckets and probe order -----

  /** `ix[h]` of a `defaultdict(list)`: the bucket, empty when h is absent. */
  function Bucket<T>(ix: map<int, seq<T>>, h: int): seq<T>
  {
    if h in ix then ix[h] else []
  }

  /** `ix[h].append(obj)`. */
  function WithAppended<T>(ix: map<int, seq<T>>, h: int, obj: T): (r: map<int, seq<T>>)
    ensures r.Keys == ix.Keys + {h}
    ensures Bucket(r, h) == Bucket(ix, h) + [obj]
    ensures forall t :: t != h ==> Bucket(r, t) == Bucket(ix, t)
  {
    ix[h := Bucket(ix, h) + [obj]]
  }

  /** Reading `ix[p]` of a defaultdict stores an empty bucket under a missing p. */
  function Touch<T>(ix: map<int, seq<T>>, p: int): (r: map<int, seq<T>>)
    ensures r.Keys == ix.Keys + {p}
    ensures forall t :: Bucket(r, t) == Bucket(ix, t)
  {
    if p in ix then ix else ix[p := []]
  }

  /** The index after reading the buckets of ps in turn. */
  function TouchAll<T>(ix: map<int, seq<T>>, ps: seq<int>): (r: map<int, seq<T>>)
    ensures forall t :: Bucket(r, t) == Bucket(ix, t)
  {
    if ps == [] then ix else Touch(TouchAll(ix, ps[..|ps| - 1]), ps[|ps| - 1])
  }

  /** The lookups leave a key for every probe and add no other. */
  lemma {:induction false} TouchAllKeys<T>(ix: map<int, seq<T>>, ps: seq<int>)
    ensures TouchAll(ix, ps).Keys == ix.Keys + Elements(ps)
  {
    if ps != [] {
      assert Elements(ps) == Elements(ps[..|ps| - 1]) + {ps[|ps| - 1]};
      TouchAllKeys(ix, ps[..|ps| - 1]);
    }
  }

  /** `candidates.extend(ix[p])` for the probes p of ps in turn. */
  function Gather<T>(ix: map<int, seq<T>>, ps: seq<int>): seq<T>
  {
    if ps == [] then [] else Gather(ix, ps[..|ps| - 1]) + Bucket(ix, ps[|ps| - 1])
  }

  lemma GatherSnoc<T>(ix: map<int, seq<T>>, ps: seq<int>, p: int)
    ensures Gather(ix, ps + [p]) == Gather(ix, ps) + Bucket(ix, p)
    ensures TouchAll(ix, ps + [p]) == Touch(TouchAll(ix, ps), p)
  {
    assert (ps + [p])[..|ps|] == ps;
  }

  /** The flips of bit j of g for lo <= j < hi, j increasing: the inner loop. */
  function Pairs(g: int, lo: nat, hi: nat): (r: seq<int>)
    requires lo <= hi
    ensures |r| == hi - lo
    decreases hi
  {
    if lo == hi then [] else Pairs(g, lo, hi - 1) + [Flip(g, hi - 1)]
  }

  /** Outer iteration i: bit i flipped, then bits i and j for i < j < n. */
  function Block(h: int, i: nat, n: nat): seq<int>
    requires i < n
  {
    [Flip(h, i)] + Pairs(Flip(h, i), i + 1, n)
  }

  /** The probes of the outer iterations i < m. */
  function Ring(h: int, m: nat, n: nat): seq<int>
    requires m <= n
  {
    if m == 0 then [] else Ring(h, m - 1, n) + Block(h, m - 1, n)
  }

  /** Every signature find_hash reads, in the order it reads them. */
  function Probes(h: int, n: nat): seq<int>
  {
    [h] + Ring(h, n, n)
  }

  // ----- How many probes -----

  lemma {:induction false} RingLength(h: int, m: nat, n: nat)
    requires m <= n
    ensures 2 * |Ring(h, m, n)| == m * (2 * n - m + 1)
  {
    if m > 0 {
      RingLength(h, m - 1, n);
      assert |Block(h, m - 1, n)| == n - m + 1;
      assert |Ring(h, m, n)| == |Ring(h, m - 1, n)| + (n - m + 1);
      RingLengthStep(m, n);
    }
  }

  lemma RingLengthStep(m: int, n: int)
    ensures (m - 1) * (2 * n - m + 2) + 2 * (n - m + 1) == m * (2 * n - m + 1)
  {
  }

  /** find_hash reads 1 + n + n(n-1)/2 buckets. */
  lemma ProbesLength(h: int, n: nat)
    ensures |Probes(h, n)| == 1 + n + n * (n - 1) / 2
  {
    RingLength(h, n, n);
    assert n * (n + 1) == 2 * n + n * (n - 1);
    assert n * (n - 1) == 2 * (|Ring(h, n, n)| - n);
  }

  // ----- Which probes -----

  /** h with exactly one bit i < m flipped. */
  ghost predicate OneFlip(h: int, p: int, m: nat)
  {
    exists i :: 0 <= i < m && p == Flip(h, i)
  }

  /** h with two bits i < j flipped, i < m and j < n. */
  ghost predicate TwoFlips(h: int, p: int, m: nat, n: nat)
  {
    exists i, j :: 0 <= i < m && i < j < n && p == Flip(Flip(h, i), j)
  }

  lemma {:induction false} PairsMember(g: int, lo: nat, hi: nat, p: int)
    requires lo <= hi
    ensures p in Pairs(g, lo, hi) <==> exists j :: lo <= j < hi && p == Flip(g, j)
    decreases hi
  {
    if lo < hi {
      PairsMember(g, lo, hi - 1, p);
    }
  }

  lemma {:induction false} RingMember(h: int, m: nat, n: nat, p: int)
    requires m <= n
    ensures p in Ring(h, m, n) <==> OneFlip(h, p, m) || TwoFlips(h, p, m, n)
  {
    if m > 0 {
      var i := m - 1;
      var front, block, pairs := Ring(h, i, n), Block(h, i, n), Pairs(Flip(h, i), m, n);
      assert Ring(h, m, n) == front + block;
      assert block == [Flip(h, i)] + pairs;
      RingMember(h, i, n, p);
      PairsMember(Flip(h, i), m, n, p);
      if p in Ring(h, m, n) {
        if p in front {
        } else if p == Flip(h, i) {
          assert OneFlip(h, p, m);
        } else {
          assert p in pairs;
          var j :| m <= j < n && p == Flip(Flip(h, i), j);
          assert TwoFlips(h, p, m, n);
        }
      }
      if OneFlip(h, p, m) {
        var a :| 0 <= a < m && p == Flip(h, a);
        if a < i {
          assert OneFlip(h, p, i);
        } else {
          assert p in block;
        }
      }
      if TwoFlips(h, p, m, n) {
        var a, b :| 0 <= a < m && a < b < n && p == Flip(Flip(h, a), b);
        if a < i {
          assert TwoFlips(h, p, i, n);
        } else {
          assert p in pairs;
          assert p in block;
        }
      }
    }
  }

  /** The probes are h itself, h with one bit below n flipped, and h with two
      bits below n flipped. */
  lemma ProbesMember(h: int, n: nat, p: int)
    ensures p in Probes(h, n) <==> p == h || OneFlip(h, p, n) || TwoFlips(h, p, n, n)
  {
    RingMember(h, n, n, p);
  }

  // ----- Radius 2 -----

  /** The bit positions below n where h and t differ. */
  function DiffBits(h: int, t: int, n: nat): set<nat>
  {
    set i: nat | i < n && Bit(h, i) != Bit(t, i)
  }

  /** t agrees with h above bit n and differs from it in at most two bits below. */
  predicate WithinRadius2(h: int, t: int, n: nat)
  {
    t / Pow2(n) == h / Pow2(n) && |DiffBits(h, t, n)| <= 2
  }

  /** Flipping bit i < n of h toggles i in the set of bits where it differs from t. */
  lemma DiffAfterFlip(h: int, t: int, n: nat, i: nat)
    requires i < n
    ensures DiffBits(Flip(h, i), t, n)
         == if i in DiffBits(h, t, n) then DiffBits(h, t, n) - {i} else DiffBits(h, t, n) + {i}
  {
    forall x: nat | x < n
      ensures Bit(Flip(h, i), x) == if x == i then !Bit(h, x) else Bit(h, x)
    {
      FlipBit(h, i, x);
    }
  }

  /** With no differing bit below n and the same high part, t is h. */
  lemma SameBits(h: int, t: int, n: nat)
    requires t / Pow2(n) == h / Pow2(n) && DiffBits(h, t, n) == {}
    ensures t == h
  {
    forall i | 0 <= i < n
      ensures Bit(t, i) == Bit(h, i)
    {
      assert i !in DiffBits(h, t, n);
    }
    BitsDetermine(t, h, n);
  }

  lemma OneFlipWithin(h: int, n: nat, i: nat)
    requires i < n
    ensures WithinRadius2(h, Flip(h, i), n)
  {
    FlipHigh(h, i, n);
    DiffAfterFlip(h, h, n, i);
    assert DiffBits(h, h, n) == {};
    DiffSymmetric(h, Flip(h, i), n);
  }

  lemma TwoFlipsWithin(h: int, n: nat, i: nat, j: nat)
    requires i < j < n
    ensures WithinRadius2(h, Flip(Flip(h, i), j), n)
  {
    var g := Flip(h, i);
    FlipHigh(h, i, n);
    FlipHigh(g, j, n);
    DiffAfterFlip(h, h, n, i);
    assert DiffBits(h, h, n) == {};
    DiffAfterFlip(g, h, n, j);
    assert DiffBits(Flip(g, j), h, n) == {i, j};
    DiffSymmetric(h, Flip(g, j), n);
  }

  lemma DiffSymmetric(h: int, t: int, n: nat)
    ensures DiffBits(h, t, n) == DiffBits(t, h, n)
  {
  }

  /** Every probe is within radius 2 of the query. */
  lemma ProbesSound(h: int, n: nat, p: int)
    requires p in Probes(h, n)
    ensures WithinRadius2(h, p, n)
  {
    ProbesMember(h, n, p);
    if p == h {
      assert DiffBits(h, h, n) == {};
    } else if OneFlip(h, p, n) {
      var i :| 0 <= i < n && p == Flip(h, i);
      OneFlipWithin(h, n, i);
    } else {
      var i, j :| 0 <= i < n && i < j < n && p == Flip(Flip(h, i), j);
      TwoFlipsWithin(h, n, i, j);
    }
  }

  /** Removing a member of a set lowers its size by one. */
  lemma CardRemove(s: set<nat>, x: nat)
    requires x in s
    ensures |s - {x}| == |s| - 1
  {
    assert s == (s - {x}) + {x};
  }

  /** Every signature within radius 2 of the query is probed. */
  lemma ProbesComplete(h: int, n: nat, t: int)
    requires WithinRadius2(h, t, n)
    ensures t in Probes(h, n)
  {
    var d := DiffBits(h, t, n);
    if d == {} {
      SameBits(h, t, n);
    } else {
      var i :| i in d;
      var e := d - {i};
      CardRemove(d, i);
      if e == {} {
        DiffAfterFlip(h, t, n, i);
        FlipHigh(h, i, n);
        SameBits(Flip(h, i), t, n);
        assert OneFlip(h, t, n);
      } else {
        var j :| j in e;
        CardRemove(e, j);
        assert e - {j} == {};
        var lo, hi := if i < j then i else j, if i < j then j else i;
        assert d == {lo, hi};
        var g := Flip(h, lo);
        DiffAfterFlip(h, t, n, lo);
        DiffAfterFlip(g, t, n, hi);
        FlipHigh(h, lo, n);
        FlipHigh(g, hi, n);
        SameBits(Flip(g, hi), t, n);
        assert TwoFlips(h, t, n, n);
      }
    }
    ProbesMember(h, n, t);
  }

  /** The probed signatures are exactly those within radius 2. */
  lemma ProbesWithinRadius(h: int, n: nat, t: int)
    ensures t in Probes(h, n) <==> WithinRadius2(h, t, n)
  {
    if t in Probes(h, n) {
      ProbesSound(h, n, t);
    }
    if WithinRadius2(h, t, n) {
      ProbesComplete(h, n, t);
    }
  }

  // ----- No probe is read twice -----

  lemma {:induction false} PairsDistinct(g: int, lo: nat, hi: nat)
    requires lo <= hi
    ensures Distinct(Pairs(g, lo, hi))
    ensures g !in Pairs(g, lo, hi)
    decreases hi
  {
    if lo < hi {
      var front, last := Pairs(g, lo, hi - 1), Flip(g, hi - 1);
      PairsDistinct(g, lo, hi - 1);
      PairsMember(g, lo, hi - 1, last);
      if last in front {
        var j :| lo <= j < hi - 1 && last == Flip(g, j);
        FlipBit(g, j, hi - 1);
        FlipBit(g, hi - 1, hi - 1);
        assert false;
      }
      DistinctAppend(front, [last]);
      PairsMember(g, lo, hi, g);
      if g in Pairs(g, lo, hi) {
        var j :| lo <= j < hi && g == Flip(g, j);
        FlipBit(g, j, j);
        assert false;
      }
    }
  }

  /** Every probe of outer iteration i agrees with h below bit i and differs at i. */
  lemma BlockBits(h: int, i: nat, n: nat, q: int, x: nat)
    requires i < n && q in Block(h, i, n) && x <= i
    ensures Bit(q, x) == (if x == i then !Bit(h, x) else Bit(h, x))
  {
    FlipBit(h, i, x);
    if q != Flip(h, i) {
      PairsMember(Flip(h, i), i + 1, n, q);
      var j :| i + 1 <= j < n && q == Flip(Flip(h, i), j);
      FlipBit(Flip(h, i), j, x);
    }
  }

  lemma BlockDistinct(h: int, i: nat, n: nat)
    requires i < n
    ensures Distinct(Block(h, i, n))
  {
    PairsDistinct(Flip(h, i), i + 1, n);
    DistinctAppend([Flip(h, i)], Pairs(Flip(h, i), i + 1, n));
  }

  lemma {:induction false} RingDistinct(h: int, m: nat, n: nat)
    requires m <= n
    ensures Distinct(Ring(h, m, n))
    ensures forall p :: p in Ring(h, m, n) ==> exists x :: 0 <= x < m && Bit(p, x) != Bit(h, x)
  {
    if m > 0 {
      var i := m - 1;
      var front, block := Ring(h, i, n), Block(h, i, n);
      RingDistinct(h, i, n);
      BlockDistinct(h, i, n);
      forall p | p in front
        ensures p !in block
      {
        var x :| 0 <= x < i && Bit(p, x) != Bit(h, x);
        if p in block {
          BlockBits(h, i, n, p, x);
          assert false;
        }
      }
      DistinctAppend(front, block);
      forall q | q in block
        ensures Bit(q, i) != Bit(h, i)
      {
        BlockBits(h, i, n, q, i);
      }
    }
  }

  /** find_hash reads each of its 1 + n + n(n-1)/2 signatures once. */
  lemma ProbesDistinct(h: int, n: nat)
    ensures Distinct(Probes(h, n))
  {
    RingDistinct(h, n, n);
    DistinctAppend([h], Ring(h, n, n));
  }

  // ----- What find_hash returns -----

  lemma {:induction false} GatherAppend<T>(ix: map<int, seq<T>>, ps: seq<int>, qs: seq<int>)
    ensures Gather(ix, ps + qs) == Gather(ix, ps) + Gather(ix, qs)
    decreases |qs|
  {
    if qs == [] {
      assert ps + qs == ps;
      assert Gather(ix, qs) == [];
      assert Gather(ix, ps) + [] == Gather(ix, ps);
    } else {
      var front, last := qs[..|qs| - 1], qs[|qs| - 1];
      var pf := ps + front;
      assert ps + qs == pf + [last];
      assert qs == front + [last];
      GatherSnoc(ix, pf, last);
      GatherSnoc(ix, front, last);
      GatherAppend(ix, ps, front);
      var a, b, c := Gather(ix, ps), Gather(ix, front), Bucket(ix, last);
      assert Gather(ix, ps + qs) == (a + b) + c;
      assert Gather(ix, qs) == b + c;
      ConcatAssociative(a, b, c);
    }
  }

  /** An object is gathered exactly when it lies in the bucket of some probe. */
  lemma {:induction false} GatherMember<T>(ix: map<int, seq<T>>, ps: seq<int>, obj: T)
    ensures obj in Gather(ix, ps) <==> exists p :: p in ps && obj in Bucket(ix, p)
  {
    if ps != [] {
      var front, last := ps[..|ps| - 1], ps[|ps| - 1];
      assert ps == front + [last];
      GatherMember(ix, front, obj);
      if obj in Gather(ix, ps) && obj !in Gather(ix, front) {
        assert obj in Bucket(ix, last);
      }
    }
  }

  /** The number of copies of obj in the buckets of ps, added up. */
  ghost function Count<T>(ix: map<int, seq<T>>, ps: seq<int>, obj: T): nat
  {
    if ps == [] then 0 else Count(ix, ps[..|ps| - 1], obj) + multiset(Bucket(ix, ps[|ps| - 1]))[obj]
  }

  /** No deduplication: each copy in each probed bucket is returned. */
  lemma {:induction false} GatherCount<T>(ix: map<int, seq<T>>, ps: seq<int>, obj: T)
    ensures multiset(Gather(ix, ps))[obj] == Count(ix, ps, obj)
  {
    if ps != [] {
      GatherCount(ix, ps[..|ps| - 1], obj);
      assert multiset(Gather(ix, ps))
          == multiset(Gather(ix, ps[..|ps| - 1])) + multiset(Bucket(ix, ps[|ps| - 1]));
    }
  }

  /** The exact bucket comes first, in insertion order. */
  lemma ExactBucketFirst<T>(ix: map<int, seq<T>>, h: int, n: nat)
    ensures Gather(ix, Probes(h, n)) == Bucket(ix, h) + Gather(ix, Ring(h, n, n))
  {
    GatherAppend(ix, [h], Ring(h, n, n));
    GatherSnoc(ix, [], h);
  }

  /** An object stored under a signature within radius 2 is returned. */
  lemma FindComplete<T>(ix: map<int, seq<T>>, h: int, n: nat, t: int, obj: T)
    requires WithinRadius2(h, t, n) && obj in Bucket(ix, t)
    ensures obj in Gather(ix, Probes(h, n))
  {
    ProbesComplete(h, n, t);
    GatherMember(ix, Probes(h, n), obj);
  }

  /** An object stored only under signatures outside radius 2 is not returned. */
  lemma FindSound<T>(ix: map<int, seq<T>>, h: int, n: nat, obj: T)
    requires forall t :: obj in Bucket(ix, t) ==> !WithinRadius2(h, t, n)
    ensures obj !in Gather(ix, Probes(h, n))
  {
    GatherMember(ix, Probes(h, n), obj);
    if obj in Gather(ix, Probes(h, n)) {
      var p :| p in Probes(h, n) && obj in Bucket(ix, p);
      ProbesSound(h, n, p);
      assert false;
    }
  }

  // ----- The SimHash index -----

  /** SimHashIndexer: a `defaultdict(list)` from signature to the objects added
      under it, queried in radius 2 over the low featureCount bits. */
  class SimHashIndexer<T> {
    var ix: map<int, seq<T>>
    const featureCount: nat

    constructor (featureCount: nat := 24)
      ensures ix == map[] && this.featureCount == featureCount
    {
      ix := map[];
      this.featureCount := featureCount;
    }

    /** `self.ix[p]`: the bucket, created empty when missing. */
    method Get(p: int) returns (b: seq<T>)
      modifies this
      ensures b == Bucket(old(ix), p) && ix == Touch(old(ix), p)
    {
      if p !in ix {
        ix := ix[p := []];
      }
      b := ix[p];
    }

    /** add_hash: obj goes at the end of bucket h; other buckets are unchanged. */
    method AddHash(h: int, obj: T)
      modifies this
      ensures ix == WithAppended(old(ix), h, obj)
    {
      var b := Get(h);
      ix := ix[h := b + [obj]];
    }

    /** The inner loop of find_hash: the buckets of g with bit j flipped, for
        lo <= j < featureCount, appended in that order. */
    method ProbePairs(g: int, lo: nat, ghost ix0: map<int, seq<T>>, ghost probed: seq<int>, candidates: seq<T>)
      returns (extended: seq<T>)
      requires lo <= featureCount
      requires candidates == Gather(ix0, probed) && ix == TouchAll(ix0, probed)
      modifies this
      ensures extended == Gather(ix0, probed + Pairs(g, lo, featureCount))
      ensures ix == TouchAll(ix0, probed + Pairs(g, lo, featureCount))
    {
      extended := candidates;
      ghost var done := probed;
      assert probed + Pairs(g, lo, lo) == probed;
      for j := lo to featureCount
        invariant done == probed + Pairs(g, lo, j)
        invariant extended == Gather(ix0, done) && ix == TouchAll(ix0, done)
      {
        var gj := Flip(g, j);  // h_i ^ (1 << j)
        ghost var before := ix;
        var b := Get(gj);
        ProbeStep(ix0, done, gj, extended, before, b);
        PairsAfter(probed, g, lo, j);
        extended := extended + b;
        done := done + [gj];
      }
    }

    /** One iteration of the outer loop of find_hash: the bucket of g with
        bit i flipped, then the inner loop from bit i + 1. */
    method ProbeBlock(g: int, i: nat, ghost ix0: map<int, seq<T>>, ghost probed: seq<int>, candidates: seq<T>)
      returns (extended: seq<T>)
      requires i < featureCount
      requires candidates == Gather(ix0, probed) && ix == TouchAll(ix0, probed)
      modifies this
      ensures extended == Gather(ix0, probed + Block(g, i, featureCount))
      ensures ix == TouchAll(ix0, probed + Block(g, i, featureCount))
    {
      var gi := Flip(g, i);  // h ^ (1 << i)
      ghost var before := ix;
      var b := Get(gi);
      ProbeStep(ix0, probed, gi, candidates, before, b);
      extended := ProbePairs(gi, i + 1, ix0, probed + [gi], candidates + b);
      ConcatAssociative(probed, [gi], Pairs(gi, i + 1, featureCount));
    }

    /** find_hash: the buckets of h, of h with bit i flipped and of h with bits
        i and j flipped, for i < j < featureCount, concatenated in that order.
        The lookups add empty buckets only. */
    method FindHash(h: int) returns (candidates: seq<T>)
      modifies this
      ensures candidates == Gather(old(ix), Probes(h, featureCount))
      ensures ix == TouchAll(old(ix), Probes(h, featureCount))
    {
      ghost var ix0 := ix;
      candidates := Get(h);
      ProbeStep(ix0, [], h, [], ix0, candidates);
      assert [] + [h] == [h] && [] + candidates == candidates;
      ghost var done: seq<int> := [h];
      ghost var n := featureCount;
      for i := 0 to featureCount
        invariant done == [h] + Ring(h, i, n)
        invariant candidates == Gather(ix0, done)
        invariant ix == TouchAll(ix0, done)
      {
        candidates := ProbeBlock(h, i, ix0, done, candidates);
        ConcatAssociative([h], Ring(h, i, n), Block(h, i, n));
        done := done + Block(h, i, n);
      }
    }
  }

  /** One more lookup of find_hash: the bucket of p joins the result and p
      gets a key. */
  lemma ProbeStep<T>(ix0: map<int, seq<T>>, done: seq<int>, p: int, candidates: seq<T>,
                     ix: map<int, seq<T>>, b: seq<T>)
    requires candidates == Gather(ix0, done) && ix == TouchAll(ix0, done) && b == Bucket(ix, p)
    ensures candidates + b == Gather(ix0, done + [p])
    ensures Touch(ix, p) == TouchAll(ix0, done + [p])
  {
    GatherSnoc(ix0, done, p);
  }

  lemma PairsAfter(probed: seq<int>, g: int, lo: nat, j: nat)
    requires lo <= j
    ensures probed + Pairs(g, lo, j + 1) == probed + Pairs(g, lo, j) + [Flip(g, j)]
  {
    ConcatAssociative(probed, Pairs(g, lo, j), [Flip(g, j)]);
  }

  /** The bits of a small value x below bound 2^b, with b <= n. */
  lemma SmallDiffBits(x: int, b: nat, n: nat, d: set<nat>)
    requires 0 <= x < Pow2(b) && b <= n
    requires forall i: nat :: i < b ==> (i in d <==> Bit(x, i))
    requires forall i :: i in d ==> i < b
    ensures DiffBits(x, 0, n) == d
    ensures x / Pow2(n) == 0 / Pow2(n)
  {
    forall i: nat | i < n
      ensures !Bit(0, i)
    {
      DivModUnique(0, Pow2(i), 0, 0);
    }
    forall i: nat | b <= i < n
      ensures !Bit(x, i)
    {
      BitsAbove(x, b, i);
    }
    Pow2Monotone(b, n);
    DivModUnique(x, Pow2(n), 0, x);
    DivModUnique(0, Pow2(n), 0, 0);
  }

  /** Signature 0b000000 holds D1: querying 0b000011 (distance 2) finds it. */
  lemma SimHashScenarioNear()
    ensures "D1" in Gather(WithAppended(map[], 0, "D1"), Probes(3, 24))
  {
    assert Pow2(2) == 4;
    assert Bit(3, 0) && Bit(3, 1);
    SmallDiffBits(3, 2, 24, {0, 1});
    FindComplete(WithAppended(map[], 0, "D1"), 3, 24, 0, "D1");
  }

  /** 0b000111 differs from 0 in three bits. */
  lemma SevenIsFar()
    ensures !WithinRadius2(7, 0, 24)
  {
    assert Pow2(3) == 8;
    assert Bit(7, 0) && Bit(7, 1) && Bit(7, 2);
    SmallDiffBits(7, 3, 24, {0, 1, 2});
  }

  /** Querying 0b000111 (distance 3) does not find D1. */
  lemma SimHashScenarioFar()
    ensures "D1" !in Gather(WithAppended(map[], 0, "D1"), Probes(7, 24))
  {
    var ix := WithAppended(map[], 0, "D1");
    SevenIsFar();
    forall t | "D1" in Bucket(ix, t)
      ensures !WithinRadius2(7, t, 24)
    {
      assert t == 0;
    }
    FindSound(ix, 7, 24, "D1");
  }

  // ----- The text winnowing index -----

  /** `ix[fp]` of a `defaultdict(set)`: the bucket, empty when fp is absent. */
  function Members<T(==)>(ix: map<int, set<T>>, fp: int): set<T>
  {
    if fp in ix then ix[fp] else {}
  }

  /** The index after `ix[fp].add(obj)` for every fp of fps. */
  function WithAdded<T(==)>(ix: map<int, set<T>>, fps: set<int>, obj: T): (r: map<int, set<T>>)
    ensures r.Keys == ix.Keys + fps
    ensures forall fp :: fp in fps ==> Members(r, fp) == Members(ix, fp) + {obj}
    ensures forall fp :: fp !in fps ==> Members(r, fp) == Members(ix, fp)
  {
    map fp | fp in ix.Keys + fps :: if fp in fps then Members(ix, fp) + {obj} else ix[fp]
  }

  /** The index after reading `ix[fp]` for every fp of fps: missing keys get
      empty buckets. */
  function TouchMembers<T(==)>(ix: map<int, set<T>>, fps: set<int>): (r: map<int, set<T>>)
    ensures r.Keys == ix.Keys + fps
    ensures forall fp :: Members(r, fp) == Members(ix, fp)
  {
    map fp | fp in ix.Keys + fps :: Members(ix, fp)
  }

  /** The union of the buckets of fps: a document is found when some query
      fingerprint holds it. */
  function Lookup<T(==)>(ix: map<int, set<T>>, fps: set<int>): set<T>
  {
    set fp, obj | fp in fps && obj in Members(ix, fp) :: obj
  }

  lemma LookupMember<T>(ix: map<int, set<T>>, fps: set<int>, obj: T)
    ensures obj in Lookup(ix, fps) <==> exists fp :: fp in fps && obj in Members(ix, fp)
  {
  }

  /** Adding a document under the same fingerprints again changes nothing. */
  lemma AddIdempotent<T>(ix: map<int, set<T>>, fps: set<int>, obj: T)
    ensures WithAdded(WithAdded(ix, fps, obj), fps, obj) == WithAdded(ix, fps, obj)
  {
    var once := WithAdded(ix, fps, obj);
    var twice := WithAdded(once, fps, obj);
    forall fp | fp in twice.Keys
      ensures twice[fp] == once[fp]
    {
      assert Members(twice, fp) == Members(once, fp);
    }
  }

  /** A document added under fps alone is found by a query exactly when the
      query shares a fingerprint with fps. */
  lemma FoundIffShared<T>(ix: map<int, set<T>>, fps: set<int>, obj: T, query: set<int>)
    requires forall fp :: obj !in Members(ix, fp)
    ensures obj in Lookup(WithAdded(ix, fps, obj), query) <==> fps * query != {}
  {
    var r := WithAdded(ix, fps, obj);
    if fps * query != {} {
      var fp :| fp in fps * query;
      assert obj in Members(r, fp);
    }
    if obj in Lookup(r, query) {
      var fp :| fp in query && obj in Members(r, fp);
      assert fp in fps;
      assert fp in fps * query;
    }
  }

  /** An empty index or an empty query finds nothing. */
  lemma LookupEmpty<T>(ix: map<int, set<T>>, fps: set<int>)
    ensures Lookup<T>(map[], fps) == {}
    ensures Lookup(ix, {}) == {}
  {
  }

  /** Reading the buckets changes no answer. */
  lemma LookupAfterTouch<T>(ix: map<int, set<T>>, touched: set<int>, fps: set<int>)
    ensures Lookup(TouchMembers(ix, touched), fps) == Lookup(ix, fps)
  {
  }

  /** TextWinnowingIndexer: a `defaultdict(set)` from fingerprint to the
      documents added under it. */
  class TextWinnowingIndexer<T(==)> {
    var ix: map<int, set<T>>

    constructor ()
      ensures ix == map[]
    {
      ix := map[];
    }

    /** `self.ix[fp]`: the bucket, created empty when missing. */
    method Get(fp: int) returns (b: set<T>)
      modifies this
      ensures b == Members(old(ix), fp) && ix == TouchMembers(old(ix), {fp})
    {
      if fp !in ix {
        ix := ix[fp := {}];
      }
      b := ix[fp];
    }

    /** add_hash: obj joins the bucket of every fingerprint of h, taken in
        whatever order the set yields them. */
    method AddHash(h: set<int>, obj: T)
      modifies this
      ensures ix == WithAdded(old(ix), h, obj)
    {
      ghost var ix0 := ix;
      var remaining := h;
      ghost var done: set<int> := {};
      while remaining != {}
        invariant remaining <= h && done == h - remaining
        invariant ix == WithAdded(ix0, done, obj)
        decreases remaining
      {
        var fp := Choose(remaining);
        var b := Get(fp);
        ix := ix[fp := b + {obj}];
        AddStep(ix0, done, fp, obj);
        remaining := remaining - {fp};
        done := done + {fp};
      }
    }

    /** find_hash: the union of the buckets of the fingerprints of h. The
        lookups add empty buckets only. */
    method FindHash(h: set<int>) returns (results: set<T>)
      modifies this
      ensures results == Lookup(old(ix), h)
      ensures ix == TouchMembers(old(ix), h)
    {
      ghost var ix0 := ix;
      results := {};
      var remaining := h;
      ghost var done: set<int> := {};
      LookupEmpty(ix0, {});
      while remaining != {}
        invariant remaining <= h && done == h - remaining
        invariant results == Lookup(ix0, done)
        invariant ix == TouchMembers(ix0, done)
        decreases remaining
      {
        var fp := Choose(remaining);
        var b := Get(fp);
        results := results + b;
        LookupStep(ix0, done, fp);
        remaining := remaining - {fp};
        done := done + {fp};
      }
    }
  }

  lemma AddStep<T>(ix0: map<int, set<T>>, done: set<int>, fp: int, obj: T)
    ensures WithAdded(ix0, done + {fp}, obj)
         == TouchMembers(WithAdded(ix0, done, obj), {fp})[fp := Members(WithAdded(ix0, done, obj), fp) + {obj}]
  {
  }

  lemma LookupStep<T>(ix0: map<int, set<T>>, done: set<int>, fp: int)
    ensures Lookup(ix0, done + {fp}) == Lookup(ix0, done) + Members(TouchMembers(ix0, done), fp)
    ensures TouchMembers(ix0, done + {fp}) == TouchMembers(TouchMembers(ix0, done), {fp})
  {
  }

  /** D2 under {5, 9, 12} and D3 under {20, 30}: the query {9, 30} finds both. */
  lemma WinnowingScenario()
    ensures Lookup(WithAdded(WithAdded(map[], {5, 9, 12}, "D2"), {20, 30}, "D3"), {9, 30}) == {"D2", "D3"}
  {
    var ix := WithAdded(WithAdded(map[], {5, 9, 12}, "D2"), {20, 30}, "D3");
    assert Members(ix, 9) == {"D2"};
    assert Members(ix, 30) == {"D3"};
  }
}
