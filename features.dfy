/** Feature extractors (tx/features.py): the simhash signature of a word set,
    the word filter in front of winnowing, `compose` and `FeatureVector`. */
module Features {
  import opened Bits
  import opened Collections
  import Hash

  datatype Option<T> = None | Some(value: T)

  /** `compose(f, g)`: the extractor that applies g and then f. */
  function Compose<A(!new), B, C>(f: B -> C, g: A -> B): (h: A -> C)
    ensures forall x :: h(x) == f(g(x))
  {
    x => f(g(x))
  }

  lemma ComposeAssociative<A(!new), B(!new), C, D>(f: C -> D, g: B -> C, h: A -> B, x: A)
    ensures Compose(f, Compose(g, h))(x) == Compose(Compose(f, g), h)(x) == f(g(h(x)))
  {
  }

  // ----- SimHash -----

  /** The words whose hash has bit i set. */
  function Ones(wordset: set<string>, hash: string -> int, i: nat): set<string>
  {
    set w | w in wordset && Bit(hash(w), i)
  }

  /** The words whose hash has bit i clear. */
  function Zeros(wordset: set<string>, hash: string -> int, i: nat): set<string>
  {
    set w | w in wordset && !Bit(hash(w), i)
  }

  /** The final value of counter i: one vote up per word with bit i set, one
      down per word with it clear. */
  function Votes(wordset: set<string>, hash: string -> int, i: nat): int
  {
    |Ones(wordset, hash, i)| - |Zeros(wordset, hash, i)|
  }

  /** Counter i is positive, for counters 0 .. n-1 in order. */
  function Positive(wordset: set<string>, hash: string -> int, n: nat): seq<bool>
  {
    PositiveFlags(Counters(wordset, hash, n))
  }

  /** `r = (r << 1) + b` over the flags in order: the first flag ends up as the
      most significant bit. */
  function Pack(flags: seq<bool>): int
  {
    if flags == [] then 0
    else 2 * Pack(flags[..|flags| - 1]) + (if flags[|flags| - 1] then 1 else 0)
  }

  /** The simhash signature of a word set, stated without any iteration order. */
  function Signature(wordset: set<string>, n: nat, hash: string -> int): int
  {
    Pack(Positive(wordset, hash, n))
  }

  lemma {:induction false} PackRange(flags: seq<bool>)
    ensures 0 <= Pack(flags) < Pow2(|flags|)
  {
    if flags != [] {
      PackRange(flags[..|flags| - 1]);
    }
  }

  lemma {:induction false} PackBit(flags: seq<bool>, i: nat)
    requires i < |flags|
    ensures Bit(Pack(flags), |flags| - 1 - i) == flags[i]
  {
    var front, last := flags[..|flags| - 1], flags[|flags| - 1];
    var p, b := Pack(front), if last then 1 else 0;
    assert Pack(flags) == 2 * p + b;
    DivModUnique(2 * p + b, 2, p, b);
    if i == |flags| - 1 {
      BitZero(2 * p + b);
    } else {
      PackBit(front, i);
      BitShift(2 * p + b, 1, |front| - 1 - i);
    }
  }

  lemma {:induction false} PackAllClear(flags: seq<bool>)
    requires forall i :: 0 <= i < |flags| ==> !flags[i]
    ensures Pack(flags) == 0
  {
    if flags != [] {
      PackAllClear(flags[..|flags| - 1]);
    }
  }

  /** Ones and Zeros split the word set. */
  lemma VotesBound(wordset: set<string>, hash: string -> int, i: nat)
    ensures |Ones(wordset, hash, i)| + |Zeros(wordset, hash, i)| == |wordset|
    ensures -|wordset| <= Votes(wordset, hash, i) <= |wordset|
  {
    var o, z := Ones(wordset, hash, i), Zeros(wordset, hash, i);
    assert o + z == wordset;
    assert o * z == {};
  }

  /** The vote of one word hash on counter i. */
  function Vote(h: int, i: nat): int
  {
    if Bit(h, i) then 1 else -1
  }

  /** One more word moves counter i by one, in the direction of its bit i. */
  lemma VotesAdd(done: set<string>, w: string, hash: string -> int, i: nat)
    requires w !in done
    ensures Votes(done + {w}, hash, i) == Votes(done, hash, i) + Vote(hash(w), i)
  {
    if Bit(hash(w), i) {
      assert Ones(done + {w}, hash, i) == Ones(done, hash, i) + {w};
      assert Zeros(done + {w}, hash, i) == Zeros(done, hash, i);
    } else {
      assert Ones(done + {w}, hash, i) == Ones(done, hash, i);
      assert Zeros(done + {w}, hash, i) == Zeros(done, hash, i) + {w};
    }
  }

  /** A counter per bit: counter i holds the votes on bit i. */
  function Counters(wordset: set<string>, hash: string -> int, n: nat): (c: seq<int>)
    ensures |c| == n
    ensures forall i :: 0 <= i < n ==> c[i] == Votes(wordset, hash, i)
  {
    seq(n, i requires 0 <= i => Votes(wordset, hash, i))
  }

  /** Which counters are positive. */
  function PositiveFlags(counts: seq<int>): (f: seq<bool>)
    ensures |f| == |counts|
    ensures forall i :: 0 <= i < |counts| ==> f[i] == (counts[i] > 0)
  {
    seq(|counts|, i requires 0 <= i < |counts| => counts[i] > 0)
  }

  /** The final loop of SimHash.__call__: shift in one bit per counter, set
      when the counter is positive. */
  method PackPositive(result: array<int>) returns (r: int)
    ensures r == Pack(PositiveFlags(result[..]))
  {
    ghost var flags := PositiveFlags(result[..]);
    r := 0;
    for i := 0 to result.Length
      invariant r == Pack(flags[..i])
    {
      assert flags[..i + 1][..i] == flags[..i];
      r := r * 2;  // r << 1
      if result[i] > 0 {
        r := r + 1;
      }
    }
    assert flags[..result.Length] == flags;
  }

  /** The inner loop of SimHash.__call__: counter i moves by one towards bit i
      of the word's hash, read off by shifting the hash right. */
  method AddVotes(result: array<int>, hw: int)
    modifies result
    ensures forall j :: 0 <= j < result.Length ==> result[j] == old(result[j]) + Vote(hw, j)
  {
    var h := hw;
    for i := 0 to result.Length
      invariant h == hw / Pow2(i)
      invariant forall j :: 0 <= j < i ==> result[j] == old(result[j]) + Vote(hw, j)
      invariant forall j :: i <= j < result.Length ==> result[j] == old(result[j])
    {
      if h % 2 == 1 {
        result[i] := result[i] + 1;
      } else {
        result[i] := result[i] - 1;
      }
      DivPow2Add(hw, i, 1);
      h := h / 2;  // h >> 1
    }
  }

  /** SimHash.__call__: one counter per bit, updated word by word while the
      word's hash is shifted right, then packed most significant first. The
      words are taken in an arbitrary order, as a Python set yields them. */
  method SimHash(wordset: set<string>, featureCount: nat, hash: string -> int) returns (r: int)
    ensures r == Signature(wordset, featureCount, hash)
  {
    var result := new int[featureCount](_ => 0);
    var remaining := wordset;
    ghost var done: set<string> := {};
    while remaining != {}
      invariant remaining <= wordset && done == wordset - remaining
      invariant forall j :: 0 <= j < featureCount ==> result[j] == Votes(done, hash, j)
      decreases remaining
    {
      var w := Choose(remaining);
      AddVotes(result, hash(w));
      forall j | 0 <= j < featureCount
        ensures result[j] == Votes(done + {w}, hash, j)
      {
        VotesAdd(done, w, hash, j);
      }
      remaining := remaining - {w};
      done := done + {w};
    }
    assert done == wordset;
    assert result[..] == Counters(wordset, hash, featureCount);
    r := PackPositive(result);
  }

  /** Output bit featureCount-1-i is set exactly when counter i is positive (a
      tie gives 0). */
  lemma SignatureBits(wordset: set<string>, n: nat, hash: string -> int, i: nat)
    requires i < n
    ensures Bit(Signature(wordset, n, hash), n - 1 - i) <==> Votes(wordset, hash, i) > 0
  {
    var flags := Positive(wordset, hash, n);
    assert |flags| == n;
    assert flags[i] == (Votes(wordset, hash, i) > 0);
    PackBit(flags, i);
  }

  /** Nothing is set at or above bit featureCount. */
  lemma SignatureRange(wordset: set<string>, n: nat, hash: string -> int)
    ensures 0 <= Signature(wordset, n, hash) < Pow2(n)
  {
    var flags := Positive(wordset, hash, n);
    assert |flags| == n;
    PackRange(flags);
  }

  lemma SignatureOfEmptySet(n: nat, hash: string -> int)
    ensures Signature({}, n, hash) == 0
  {
    forall i | 0 <= i < n
      ensures !Positive({}, hash, n)[i]
    {
      assert Ones({}, hash, i) == {} && Zeros({}, hash, i) == {};
    }
    PackAllClear(Positive({}, hash, n));
  }

  // ----- Iteration order does not matter -----

  /** Counter i after visiting the words of s in that order. */
  function VotesInOrder(s: seq<string>, hash: string -> int, i: nat): int
  {
    if s == [] then 0
    else VotesInOrder(s[..|s| - 1], hash, i) + Vote(hash(s[|s| - 1]), i)
  }

  function SignatureInOrder(s: seq<string>, n: nat, hash: string -> int): int
  {
    Pack(seq(n, i requires 0 <= i => VotesInOrder(s, hash, i) > 0))
  }

  lemma {:induction false} VotesInOrderAgree(s: seq<string>, hash: string -> int, i: nat)
    requires Distinct(s)
    ensures VotesInOrder(s, hash, i) == Votes(Elements(s), hash, i)
  {
    if s == [] {
      assert Elements(s) == {};
      assert Ones({}, hash, i) == {} && Zeros({}, hash, i) == {};
    } else {
      var front, last := s[..|s| - 1], s[|s| - 1];
      assert s == front + [last];
      assert Distinct(front);
      assert Elements(s) == Elements(front) + {last};
      assert last !in Elements(front);
      VotesInOrderAgree(front, hash, i);
      VotesAdd(Elements(front), last, hash, i);
    }
  }

  /** Any two enumerations of the same word set, each word once, give the same
      signature, and that signature is the set's. */
  lemma SignatureOrderIndependent(s1: seq<string>, s2: seq<string>, n: nat, hash: string -> int)
    requires Distinct(s1) && Distinct(s2) && Elements(s1) == Elements(s2)
    ensures SignatureInOrder(s1, n, hash) == SignatureInOrder(s2, n, hash) == Signature(Elements(s1), n, hash)
  {
    forall i | 0 <= i < n
      ensures VotesInOrder(s1, hash, i) == VotesInOrder(s2, hash, i) == Votes(Elements(s1), hash, i)
    {
      VotesInOrderAgree(s1, hash, i);
      VotesInOrderAgree(s2, hash, i);
    }
    assert seq(n, i requires 0 <= i => VotesInOrder(s1, hash, i) > 0) == Positive(Elements(s1), hash, n);
    assert seq(n, i requires 0 <= i => VotesInOrder(s2, hash, i) > 0) == Positive(Elements(s1), hash, n);
  }

  // ----- Winnowing -----

  /** A word passes the filter: at least three characters, and in the word list. */
  predicate Informative(word: string, wordlist: set<string>)
  {
    |word| >= 3 && word in wordlist
  }

  /** `filter(lambda x: len(x) >= 3 and x in self.words, words)`. */
  function FilterWords(words: seq<string>, wordlist: set<string>): (r: seq<string>)
    ensures |r| <= |words|
    ensures forall x :: x in r <==> x in words && Informative(x, wordlist)
  {
    if words == [] then []
    else
      assert words == [words[0]] + words[1..];
      (if Informative(words[0], wordlist) then [words[0]] else []) + FilterWords(words[1..], wordlist)
  }

  /** The filter keeps the original order: it distributes over concatenation. */
  lemma {:induction false} FilterAppend(a: seq<string>, b: seq<string>, wordlist: set<string>)
    ensures FilterWords(a + b, wordlist) == FilterWords(a, wordlist) + FilterWords(b, wordlist)
  {
    if a != [] {
      var head := if Informative(a[0], wordlist) then [a[0]] else [];
      assert (a + b)[0] == a[0];
      assert (a + b)[1..] == a[1..] + b;
      FilterAppend(a[1..], b, wordlist);
      calc {
        FilterWords(a + b, wordlist);
        head + FilterWords(a[1..] + b, wordlist);
        head + (FilterWords(a[1..], wordlist) + FilterWords(b, wordlist));
        (head + FilterWords(a[1..], wordlist)) + FilterWords(b, wordlist);
        FilterWords(a, wordlist) + FilterWords(b, wordlist);
      }
    } else {
      assert a + b == b;
    }
  }

  lemma FilterSingle(x: string, wordlist: set<string>)
    ensures FilterWords([x], wordlist) == if Informative(x, wordlist) then [x] else []
  {
    assert [x][1..] == [];
  }

  /** Winnowing.__call__ on an already tokenised word list: filter, then keep
      the selected fingerprints. */
  function WinnowingFeature(words: seq<string>, wordlist: set<string>, k: nat, w: nat): (r: set<int>)
    requires k >= 1 && (|FilterWords(words, wordlist)| >= k ==> w >= 1)
    ensures r <= Elements(Hash.RollingHashes(FilterWords(words, wordlist), k))
    ensures r == {} <==> |FilterWords(words, wordlist)| < k
  {
    Hash.WinnowingHasher(FilterWords(words, wordlist), k, w).1
  }

  // ----- FeatureVector -----

  /** FeatureVector.__call__: the count of each feature word, in the order of
      the features; a feature missing from the dictionary is a KeyError. */
  function FeatureVector(features: seq<string>, counts: map<string, int>): (r: Option<seq<int>>)
    ensures r.Some? <==> forall f :: f in features ==> f in counts
    ensures r.Some? ==> |r.value| == |features|
    ensures r.Some? ==> forall i :: 0 <= i < |features| ==> r.value[i] == counts[features[i]]
  {
    if features == [] then Some([])
    else if features[0] !in counts then None
    else
      match FeatureVector(features[1..], counts)
      case None =>
        assert exists f :: f in features[1..] && f !in counts;
        None
      case Some(rest) => Some([counts[features[0]]] + rest)
  }

  lemma FeatureVectorAppend(a: seq<string>, b: seq<string>, counts: map<string, int>)
    requires forall f :: f in a + b ==> f in counts
    ensures FeatureVector(a + b, counts).Some?
    ensures FeatureVector(a + b, counts).value
         == FeatureVector(a, counts).value + FeatureVector(b, counts).value
  {
    forall f | f in a ensures f in counts {
      assert f in a + b;
    }
    forall f | f in b ensures f in counts {
      assert f in a + b;
    }
    var v, va, vb := FeatureVector(a + b, counts).value, FeatureVector(a, counts).value, FeatureVector(b, counts).value;
    forall i | 0 <= i < |v|
      ensures v[i] == (va + vb)[i]
    {
      if i < |a| {
        assert (a + b)[i] == a[i];
      } else {
        assert (a + b)[i] == b[i - |a|];
      }
    }
    assert v == va + vb;
  }

  /** FeatureVector.__call__ on a `collections.Counter`, which reads a missing
      word as a count of 0 instead of raising a KeyError. */
  function CounterVector(features: seq<string>, counts: map<string, int>): (r: seq<int>)
    ensures |r| == |features|
    ensures forall i :: 0 <= i < |features| ==>
              r[i] == if features[i] in counts then counts[features[i]] else 0
  {
    if features == [] then []
    else [if features[0] in counts then counts[features[0]] else 0] + CounterVector(features[1..], counts)
  }

  /** When every feature is in the dictionary, a Counter and a plain dict give the same vector. */
  lemma CounterVectorAgrees(features: seq<string>, counts: map<string, int>)
    requires forall f :: f in features ==> f in counts
    ensures FeatureVector(features, counts) == Some(CounterVector(features, counts))
  {
  }

  /** A feature word the Counter has never seen contributes a 0 entry. */
  lemma CounterVectorMissing(features: seq<string>, counts: map<string, int>, i: nat)
    requires i < |features| && features[i] !in counts
    ensures CounterVector(features, counts)[i] == 0
    ensures FeatureVector(features, counts) == None
  {
    assert features[i] in features;
  }
}
