# Document fingerprinting and near-duplicate retrieval, in Dafny

This project models the fingerprinting core of the Texata 2014 finals
solution. The solution finds posts similar to a given text in two ways.

* **SimHash.** A document's set of informative words becomes a
  `feature_count`-bit signature. Each word's hash votes on every bit position:
  +1 for a set bit, -1 for a clear one. An output bit is set when its counter
  ends up positive. The first counter becomes the most significant bit. The
  `SimHashIndexer` keeps a list of objects per signature. A query gathers the
  buckets of every signature within Hamming distance 2 of the query: first
  the exact bucket, then each single flip `h ^ (1 << i)`, each followed by its
  double flips `h ^ (1 << i) ^ (1 << j)` for `j > i`.
* **Winnowing.** The filtered word list is hashed word by word with
  Bernstein's djb2, truncated to a 64-bit `unsigned long`. A rolling
  (Rabin–Karp) hash then gives one fingerprint per run of k consecutive
  words. The minimum of every window of w consecutive fingerprints is
  selected. The `TextWinnowingIndexer` maps each selected fingerprint to the
  set of objects carrying it. A query returns the union of the sets of its
  fingerprints.

Modules follow the source files:

* `Hash` (`hash.dfy`) covers `tx/hash.py`: the string hashes, the rolling
  word hasher (an imperative method proved equal to a direct, window-by-window
  definition), and winnowing.
* `Features` (`features.dfy`) covers `tx/features.py`. The SimHash extractor
  is an imperative method proved equal to an order-free `Signature`
  definition. The module also holds the word filter in front of winnowing,
  `compose` and `FeatureVector`.
* `Similarity` (`similarity.dfy`) covers the two indexers of
  `tx/similarity.py`, as classes whose `ix` dictionary field their methods
  update.
* `Bits` (`bits.dfy`) and `Collections` (`collections.dfy`) are helpers:
  - `Bits` holds powers of two and bit i of an (unbounded, possibly negative)
    integer with Python's `>>`/`&` meaning, plus the flip of a bit.
  - `Collections` holds the elements of a sequence, distinctness, choice from
    a set, and sequence associativity.

Modelling decisions:

* The width of `unsigned long` is fixed at 64 bits. `Hash.Ulong` is
  reduction modulo 2^64, which is what `c_ulong(i).value` does, negative
  arguments included.
* `reduce` is a left fold over the characters of a word, a sequence of
  Unicode scalar values, and `ord(c)` is the scalar value of `c` (see
  "Left out" for byte strings).
* Python's built-in `hash` (used by SimHash) is a parameter
  `hash: string -> int`. Any integer is allowed, negative ones included.
* A `defaultdict` read of a missing key inserts an empty bucket. Every
  `find_hash` therefore also changes `ix`, and the model states that change
  (`Touch`, `TouchAll`, `TouchMembers`) together with the fact that no
  bucket's contents change.
* Iteration over a Python `set` has no specified order. The model picks an
  arbitrary remaining element at each step (`Collections.Choose`). Its
  results are proved for every such order.

## Model

| member | source | states |
|---|---|---|
| Hash.Ulong | tx/hash.py:16-18 | the result lies in [0, 2^64) and is the argument itself when that is already in range |
| Hash.UlongCongruent | tx/hash.py:16-18 | the result is congruent to the argument modulo 2^64, i.e. it is the argument reduced modulo 2^64, negative arguments included |
| Hash.Djb2Recurrence | tx/hash.py:21-28 | djb2 starts at 5381 and one more character c takes h to 33·h + ord(c), as the docstring's loop states |
| Hash.Djb2L | tx/hash.py:31-32 | wrapping every step to 64 bits gives the unbounded djb2 reduced modulo 2^64, so the result is in [0, 2^64) |
| Hash.SdbmRecurrence | tx/hash.py:35-42 | sdbm starts at 0 and one more character c takes h to 65599·h + ord(c) (`(h << 6) + (h << 16) - h`) |
| Hash.SdbmL | tx/hash.py:45-46 | wrapping every step to 64 bits gives the unbounded sdbm reduced modulo 2^64 |
| Hash.BasicStringHash | tx/hash.py:49 | the word hash is the 64-bit djb2 of the word |
| Hash.RollingHashesShape | tx/hash.py:52-54 | the hasher yields nothing for fewer than k words and m-k+1 fingerprints for m >= k words, each in [0, 2^64) |
| Hash.RollStep | tx/hash.py:56-59 | removing `h[i-k] << (k-1)`, shifting left and adding `h[i]` turns the fingerprint of one window into the fingerprint of the next, computed as h_1·2^(k-1) + … + h_k modulo 2^64 |
| Hash.FirstWindow | tx/hash.py:70-72 | the first loop leaves the fingerprint of the first k words computed directly |
| Hash.RollWindows | tx/hash.py:69-77 | the rolling loops produce exactly the direct fingerprint of every window of k consecutive word hashes, in order |
| Hash.RollingWordHasher | tx/hash.py:52-77 | the generator's output equals the fingerprint of every k-word window, computed directly; empty for fewer than k words |
| Hash.RollingDoctestRepeated | tx/hash.py:61-62 | the fingerprints of a a a a with k=3 are [1243690, 1243690] |
| Hash.RollingDoctestMixed | tx/hash.py:63-64 | the fingerprints of b a a a b a a a with k=3 are [1243694, 1243690, 1243691, 1243692, 1243694, 1243690] |
| Hash.SeqMin | tx/hash.py:99 | `min` returns an element of the list that is no larger than any element |
| Hash.WinnowingHasher | tx/hash.py:80-105 | the first result is the set of all fingerprints; the selected set is a subset of it, and it is empty exactly when there are fewer than k words |
| Hash.WinnowingShortStream | tx/hash.py:98-99 | with fewer than w fingerprints, exactly the global minimum is selected |
| Hash.WinnowingSelected | tx/hash.py:104-105 | otherwise a value is selected iff it is the minimum of some window of w consecutive fingerprints, and at most one value per window is selected |
| Hash.WinnowingSharedRun | tx/hash.py:104 | two fingerprint streams sharing a run of w values share a selected fingerprint |
| Hash.WinnowingGuarantee | tx/hash.py:80-105 | two word sequences sharing a run of k+w-1 consecutive words have a selected fingerprint in common |
| Hash.MixedStreamMinima | tx/hash.py:89-91 | the b/a stream has fingerprint set {1243690, 1243691, 1243692, 1243694} and window minima {1243690, 1243691} for w=3 |
| Hash.WinnowingDoctestRepeated | tx/hash.py:87-88 | winnowing a a a a with k=3, w=3 gives ({1243690}, {1243690}) |
| Hash.WinnowingDoctestMixed | tx/hash.py:89-91 | winnowing b a a a b a a a with k=3, w=3 gives the four fingerprints and the selection {1243690, 1243691} |
| Features.Compose | tx/features.py:25-27 | the composed extractor applies g and then f, on every input |
| Features.ComposeAssociative | tx/features.py:25-27 | composition is associative: both groupings give f(g(h(x))) |
| Features.AddVotes | tx/features.py:80-86 | one word moves counter i up by one if bit i of its hash is set (`h & 1` after i shifts) and down by one otherwise, for every counter |
| Features.PackPositive | tx/features.py:87-92 | the final loop shifts in one bit per counter, set when the counter is positive, the first counter ending up most significant |
| Features.SimHash | tx/features.py:77-92 | the signature computed word by word, in any iteration order of the set, equals the order-free signature of the word set |
| Features.PackRange | tx/features.py:87-92 | packing n flags gives a value in [0, 2^n) |
| Features.PackBit | tx/features.py:87-92 | flag i of n lands on bit n-1-i |
| Features.PackAllClear | tx/features.py:87-92 | packing flags none of which is set gives 0 |
| Features.SignatureBits | tx/features.py:77-92 | bit featureCount-1-i of the signature is set iff counter i is positive, i.e. more words have bit i set than clear |
| Features.SignatureRange | tx/features.py:77-92 | the signature has no bit at or above featureCount |
| Features.SignatureOfEmptySet | tx/features.py:77-92 | the empty word set has signature 0 |
| Features.VotesBound | tx/features.py:79-86 | every word votes exactly once per counter, so a counter lies between -|wordset| and |wordset| |
| Features.VotesAdd | tx/features.py:79-86 | adding a word not yet seen moves counter i by exactly that word's vote on bit i |
| Features.VotesInOrderAgree | tx/features.py:79-86 | visiting the distinct words of a sequence in order leaves counter i at the order-free vote count |
| Features.SignatureOrderIndependent | tx/features.py:77-92 | any two enumerations of the same word set give the same signature |
| Features.FilterWords | tx/features.py:114 | the filter keeps exactly the words of at least three characters that are in the word list, and never grows the list |
| Features.FilterAppend | tx/features.py:114 | the filter keeps the original word order: it distributes over concatenation |
| Features.FilterSingle | tx/features.py:114 | a single word is kept iff it is informative |
| Features.WinnowingFeature | tx/features.py:111-118 | the feature is a subset of the fingerprints of the filtered words, empty exactly when fewer than k words pass the filter |
| Features.FeatureVector | tx/features.py:127-128 | a vector exists iff every feature word is in the dictionary; it then has one entry per feature, entry i being that word's count |
| Features.FeatureVectorAppend | tx/features.py:127-128 | the vector of a concatenated feature list is the concatenation of the two vectors |
| Features.CounterVector | tx/features.py:127-128 | on a `Counter` the vector has one entry per feature, entry i being that word's count, or 0 when the word was never counted |
| Features.CounterVectorAgrees | tx/features.py:127-128 | when every feature word is present, a `Counter` and a plain `dict` give the same vector |
| Features.CounterVectorMissing | tx/features.py:127-128 | a feature word absent from the counts gives a 0 entry on a `Counter`, and no vector (the `KeyError`) on a plain `dict` |
| Similarity.WithAppended | tx/similarity.py:66-67 | appending adds key h; bucket h gains obj at its end; every other bucket is unchanged |
| Similarity.Touch | tx/similarity.py:74 | a defaultdict read adds the key and changes no bucket's contents |
| Similarity.TouchAll | tx/similarity.py:72-81 | reading a sequence of keys changes no bucket's contents |
| Similarity.TouchAllKeys | tx/similarity.py:72-81 | after the reads, the key set is the old key set plus every probed signature |
| Similarity.GatherSnoc | tx/similarity.py:77 | extending the probe sequence by one signature appends that signature's bucket to the candidates |
| Similarity.Pairs | tx/similarity.py:78-80 | the flips of bit j for j from lo up to hi are hi-lo probes, one per inner iteration |
| Similarity.RingLength | tx/similarity.py:75-80 | the first m outer iterations probe m·(2n-m+1)/2 signatures |
| Similarity.ProbesLength | tx/similarity.py:72-81 | a query probes 1 + n + n(n-1)/2 signatures |
| Similarity.PairsMember | tx/similarity.py:78-80 | the inner loop probes exactly the flips of bit j of h_i for j in [lo, hi) |
| Similarity.RingMember | tx/similarity.py:75-80 | the outer loop probes exactly the single flips of a bit below m and the double flips of bits i < j with i below m |
| Similarity.ProbesMember | tx/similarity.py:72-81 | a signature is probed iff it is h, a single flip of h or a double flip of two distinct bits of h |
| Similarity.DiffAfterFlip | tx/similarity.py:76 | flipping bit i toggles whether bit i differs and leaves the other differing bits alone |
| Similarity.SameBits | tx/similarity.py:72-81 | two signatures with the same high part and no differing low bit are equal |
| Similarity.OneFlipWithin | tx/similarity.py:76 | a single flip below featureCount is within radius 2 |
| Similarity.TwoFlipsWithin | tx/similarity.py:79 | a double flip below featureCount is within radius 2 |
| Similarity.DiffSymmetric | tx/similarity.py:72-81 | the differing bits of h and t are those of t and h |
| Similarity.ProbesSound | tx/similarity.py:73 | every probed signature is within radius 2 of h |
| Similarity.ProbesComplete | tx/similarity.py:73 | every signature within radius 2 of h (same bits above featureCount, at most two differing bits below) is probed |
| Similarity.ProbesWithinRadius | tx/similarity.py:72-81 | a signature is probed iff it is within radius 2 of the query |
| Similarity.PairsDistinct | tx/similarity.py:78-80 | the inner loop probes no signature twice, and never its own h_i |
| Similarity.BlockBits | tx/similarity.py:76-80 | every signature probed in iteration i has bit i flipped and the bits below i unchanged |
| Similarity.BlockDistinct | tx/similarity.py:76-80 | one outer iteration probes no signature twice |
| Similarity.RingDistinct | tx/similarity.py:75-80 | the outer loop probes no signature twice, and each of them differs from h in some bit below m |
| Similarity.ProbesDistinct | tx/similarity.py:72-81 | a query probes no signature twice, so no bucket is gathered twice |
| Similarity.GatherAppend | tx/similarity.py:74-80 | gathering over a concatenation of probes concatenates the gathered candidates |
| Similarity.GatherMember | tx/similarity.py:74-80 | an object is a candidate iff it is in the bucket of some probed signature |
| Similarity.GatherCount | tx/similarity.py:74-80 | an object occurs among the candidates as often as it occurs in the probed buckets together |
| Similarity.ExactBucketFirst | tx/similarity.py:74 | the candidates start with the exact bucket of h, followed by the flipped buckets |
| Similarity.FindComplete | tx/similarity.py:72-81 | an object filed under any signature within radius 2 of the query is among the candidates |
| Similarity.FindSound | tx/similarity.py:72-81 | an object filed only under signatures outside radius 2 is not among the candidates |
| Similarity.SimHashIndexer.constructor | tx/similarity.py:58-61 | the index starts empty and keeps the given feature count (24 by default) |
| Similarity.SimHashIndexer.Get | tx/similarity.py:74 | a read returns the bucket (empty when missing) and inserts the key without changing any bucket |
| Similarity.SimHashIndexer.AddHash | tx/similarity.py:66-67 | the new index is the old one with obj appended to bucket h |
| Similarity.SimHashIndexer.ProbePairs | tx/similarity.py:78-80 | the inner loop extends the candidates by the buckets of the flips of h_i for j from lo up, in order |
| Similarity.SimHashIndexer.ProbeBlock | tx/similarity.py:76-80 | one outer iteration extends the candidates by the bucket of h_i and then those of its double flips |
| Similarity.SimHashIndexer.FindHash | tx/similarity.py:72-81 | the candidates are the concatenation, in probe order, of the buckets of h and of its single and double flips; the index only gains empty buckets for the probed keys |
| Similarity.ProbeStep | tx/similarity.py:77 | one `extend(self.ix[...])` keeps the loop's candidates and index in step with the specification |
| Similarity.PairsAfter | tx/similarity.py:78-80 | one more inner iteration appends the flip of bit j to the probe sequence |
| Similarity.SmallDiffBits | tx/similarity.py:72-81 | for a small signature x, its differing bits from 0 are exactly its set bits |
| Similarity.SimHashScenarioNear | tx/similarity.py:66-81 | a document filed under signature 0 is found by a query of 3 (two bits apart) with 24 features |
| Similarity.SevenIsFar | tx/similarity.py:72-81 | signature 7 is three bits from 0, so outside radius 2 |
| Similarity.SimHashScenarioFar | tx/similarity.py:66-81 | a document filed under signature 0 is not found by a query of 7 |
| Similarity.WithAdded | tx/similarity.py:101-103 | adding files obj under every fingerprint of h and leaves the other sets unchanged |
| Similarity.TouchMembers | tx/similarity.py:111 | defaultdict reads add the keys and change no set's contents |
| Similarity.LookupMember | tx/similarity.py:108-112 | an object is found iff it is filed under some fingerprint of the query |
| Similarity.AddIdempotent | tx/similarity.py:101-103 | adding the same object under the same fingerprints twice is the same as adding it once |
| Similarity.FoundIffShared | tx/similarity.py:101-112 | a newly added object is found by a query iff the query shares a fingerprint with it |
| Similarity.LookupEmpty | tx/similarity.py:108-112 | an empty index or an empty query finds nothing |
| Similarity.LookupAfterTouch | tx/similarity.py:108-112 | the empty sets inserted by earlier reads do not change any later result |
| Similarity.TextWinnowingIndexer.constructor | tx/similarity.py:94-96 | the index starts empty |
| Similarity.TextWinnowingIndexer.Get | tx/similarity.py:103 | a read returns the set filed under fp (empty when missing) and inserts the key without changing any set |
| Similarity.TextWinnowingIndexer.AddHash | tx/similarity.py:101-103 | the new index is the old one with obj added under every fingerprint of h, in any iteration order |
| Similarity.TextWinnowingIndexer.FindHash | tx/similarity.py:108-112 | the result is the union of the sets filed under the query's fingerprints; the index only gains empty sets for the queried keys |
| Similarity.AddStep | tx/similarity.py:102-103 | one more fingerprint adds obj to exactly that set |
| Similarity.LookupStep | tx/similarity.py:110-111 | one more fingerprint adds exactly its set to the results |
| Similarity.WinnowingScenario | tx/similarity.py:101-112 | with D2 under {5, 9, 12} and D3 under {20, 30}, the query {9, 30} finds exactly {D2, D3} |

## Left out

- Tokenisation (`TextBlob(...).words.lemmatize().lower()`), `SetOfWords` and the word-list loading are natural-language processing. The model starts from an already tokenised word sequence or word set and takes the word list as a parameter.
- `RandomSummary` and `FulltextDBSearcher` depend on a random number generator and on an SQL database, and are not modelled.
- The `add(text, obj)` and `find(text)` wrappers of both indexers only apply the configured hasher first. The model works on signatures and fingerprint sets directly (`add_hash`, `find_hash`).
- The configurable `hasher` attributes and the `k`, `w` and `feature_count` constructor arguments are plain parameters. Only `SimHashIndexer` keeps `feature_count` as a field.
- Python's built-in `hash` of a word is implementation-defined, so it is a parameter of `Features.SimHash`.
- `numpy` float counters are modelled as integers. The counters only ever hold small whole numbers, so this changes nothing.
- tx/db.py, tx/db_so.py and tx/tagging.py (database access and tagging) are not part of this model.
- `Hash.RollingWordHasher`: a generator in the source, modelled as returning the whole sequence at once, so laziness is not modelled.
- `Hash.RollingWordHasher`: requires k >= 1. For k = 0 the source evaluates `h[i] << -1` on non-empty input, which raises an error, and on empty input it yields the single value 0. Neither case is modelled.
- `Hash.WinnowingHasher`: requires k >= 1, and w >= 1 only when there are at least k words. With at least k words and w <= 0 the source calls `min` on an empty slice, which raises an error; that case is not modelled. For fewer than k words it returns two empty lists `([], [])` for any w, modelled as two empty sets.
- `Hash.Djb2`: words are modelled as sequences of Unicode scalar values, and `ord(c)` as the scalar value of `c`. A byte-string word, which folds over the bytes of its encoding, and a narrow-build `unicode` word, which holds an astral character as two surrogate code units, are not modelled. The same holds for the length test `len(x) >= 3` in `Features.Informative`. On ASCII words, which include every docstring example, the two readings agree.
- `Hash.Ulong`: the width of `c_ulong` is fixed at 64 bits. Platforms with a 32-bit `unsigned long` are not modelled.
- `Features.FeatureVector`: on a plain `dict`, the `KeyError` raised for a feature word missing from the dictionary becomes `None`. The `Counter` argument used in practice, which reads a missing word as 0, is modelled separately by `Features.CounterVector`. A `numpy` array becomes a sequence.
- `Features.SimHash`: the `SimHash` class, which only stores `feature_count`, is a method taking it as an argument.
- `Features.WinnowingFeature`: covers only the filter and the winnowing call of `Winnowing.__call__` (`Features.FilterWords` models the filter); tokenisation is left out, as above.
