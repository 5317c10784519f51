/** String hashes, the rolling k-word-gram hash and winnowing (tx/hash.py).
    Unsigned wrap-around is that of a 64-bit `unsigned long`. */
module Hash {
  import opened Bits
  import opened Collections

  /** Width in bits of the `unsigned long` the hashes are truncated to. */
  const W: nat := 64
  const Modulus: int := 0x1_0000_0000_0000_0000

  lemma ModulusIsPow2W()
    ensures Modulus == Pow2(W)
  {
    Pow2Add(8, 8);
    assert Pow2(16) == 0x1_0000 by { assert Pow2(8) == 0x100; }
    Pow2Add(16, 16);
    assert Pow2(32) == 0x1_0000_0000;
    Pow2Add(32, 32);
  }

  /** `c_ulong(i).value`: the representative of i modulo 2^W in [0, 2^W),
      for negative i as well. */
  function Ulong(i: int): (r: int)
    ensures 0 <= r < Modulus
    ensures 0 <= i < Modulus ==> r == i
  {
    i % Modulus
  }

  /** Ulong(i) is congruent to i, so it is i modulo 2^W. */
  lemma UlongCongruent(i: int)
    ensures (i - Ulong(i)) % Modulus == 0
    ensures Ulong(i) == i % Pow2(W)
  {
    ModAddMul(0, i / Modulus, Modulus);
    ModulusIsPow2W();
  }

  /** Wrapping commutes with a linear step: only the residues of x and y matter. */
  lemma UlongLinear(x: int, y: int, c: int, d: int)
    ensures Ulong(c * (Ulong(x) - Ulong(y)) + d) == Ulong(c * (x - y) + d)
  {
    assert Ulong(x) == x - (x / Modulus) * Modulus;
    assert Ulong(y) == y - (y / Modulus) * Modulus;
    assert c * (Ulong(x) - Ulong(y)) + d
        == (c * (x - y) + d) + (c * (y / Modulus - x / Modulus)) * Modulus;
    ModAddMul(c * (x - y) + d, c * (y / Modulus - x / Modulus), Modulus);
  }

  /** Python's `reduce(f, L, init)` over the characters of L. */
  function Fold(f: (int, char) -> int, init: int, L: string): int
    decreases |L|
  {
    if L == [] then init else Fold(f, f(init, L[0]), L[1..])
  }

  lemma {:induction false} FoldSnoc(f: (int, char) -> int, init: int, L: string, c: char)
    ensures Fold(f, init, L + [c]) == f(Fold(f, init, L), c)
    decreases |L|
  {
    if L != [] {
      assert (L + [c])[1..] == L[1..] + [c];
      FoldSnoc(f, f(init, L[0]), L[1..], c);
    }
  }

  /** A fold whose step is wrapped by Ulong computes the unwrapped fold modulo
      2^W, provided the step is linear in the accumulator. */
  lemma {:induction false} FoldWrapped(f: (int, char) -> int, g: (int, char) -> int, m: int, init: int, L: string)
    requires 0 <= init < Modulus
    requires forall h, c :: f(h, c) == m * h + c as int
    requires forall h, c :: g(h, c) == Ulong(f(h, c))
    ensures Fold(g, init, L) == Ulong(Fold(f, init, L))
    decreases |L|
  {
    if L != [] {
      var front, c := L[..|L| - 1], L[|L| - 1];
      assert L == front + [c];
      FoldWrapped(f, g, m, init, front);
      FoldSnoc(f, init, front, c);
      FoldSnoc(g, init, front, c);
      var x := Fold(f, init, front);
      UlongLinear(x, 0, m, c as int);
    }
  }

  /** One step of djb2: `ord(c) + ((h << 5) + h)`. */
  function Djb2Step(h: int, c: char): int
  {
    (c as int) + ((h * 32) + h)
  }

  function Djb2LStep(h: int, c: char): int
  {
    Ulong(Djb2Step(h, c))
  }

  /** Bernstein's hash on unbounded integers. */
  function Djb2(L: string): int
  {
    Fold(Djb2Step, 5381, L)
  }

  lemma Djb2Recurrence(L: string, c: char)
    ensures Djb2([]) == 5381
    ensures Djb2(L + [c]) == 33 * Djb2(L) + c as int
  {
    FoldSnoc(Djb2Step, 5381, L, c);
  }

  /** Bernstein's hash with every step wrapped to W bits. */
  function Djb2L(L: string): (r: int)
    ensures r == Ulong(Djb2(L))
    ensures 0 <= r < Modulus
  {
    FoldWrapped(Djb2Step, Djb2LStep, 33, 5381, L);
    Fold(Djb2LStep, 5381, L)
  }

  /** One step of sdbm: `ord(c) + (h << 6) + (h << 16) - h`. */
  function SdbmStep(h: int, c: char): int
  {
    (c as int) + h * 64 + h * 65536 - h
  }

  function SdbmLStep(h: int, c: char): int
  {
    Ulong(SdbmStep(h, c))
  }

  function Sdbm(L: string): int
  {
    Fold(SdbmStep, 0, L)
  }

  lemma SdbmRecurrence(L: string, c: char)
    ensures Sdbm([]) == 0
    ensures Sdbm(L + [c]) == 65599 * Sdbm(L) + c as int
  {
    FoldSnoc(SdbmStep, 0, L, c);
  }

  function SdbmL(L: string): (r: int)
    ensures r == Ulong(Sdbm(L))
    ensures 0 <= r < Modulus
  {
    FoldWrapped(SdbmStep, SdbmLStep, 65599, 0, L);
    Fold(SdbmLStep, 0, L)
  }

  /** The hash used for single words. */
  function BasicStringHash(word: string): (r: int)
    ensures r == Ulong(Djb2(word))
  {
    Djb2L(word)
  }

  function WordHashes(words: seq<string>): seq<int>
  {
    seq(|words|, i requires 0 <= i < |words| => BasicStringHash(words[i]))
  }

  /** The direct window value h_1 << (K-1) + h_2 << (K-2) + ... + h_K, K = |s|. */
  function WindowSum(s: seq<int>): int
  {
    if s == [] then 0 else s[0] * Pow2(|s| - 1) + WindowSum(s[1..])
  }

  lemma {:induction false} WindowSumSnoc(s: seq<int>, x: int)
    ensures WindowSum(s + [x]) == 2 * WindowSum(s) + x
  {
    if s != [] {
      assert (s + [x])[1..] == s[1..] + [x];
      WindowSumSnoc(s[1..], x);
      calc {
        WindowSum(s + [x]);
        s[0] * Pow2(|s|) + WindowSum(s[1..] + [x]);
        s[0] * (2 * Pow2(|s| - 1)) + 2 * WindowSum(s[1..]) + x;
        2 * (s[0] * Pow2(|s| - 1) + WindowSum(s[1..])) + x;
      }
    }
  }

  /** The fingerprint of the k words starting at j, computed from scratch. */
  function WindowHash(hs: seq<int>, j: nat, k: nat): int
    requires j + k <= |hs|
  {
    Ulong(WindowSum(hs[j..j + k]))
  }

  /** The fingerprints of the first m windows of k hashes, each computed directly. */
  function Windows(hs: seq<int>, k: nat, m: nat): seq<int>
    requires m + k <= |hs| + 1
  {
    seq(m, j requires 0 <= j < m => WindowHash(hs, j, k))
  }

  lemma WindowsSnoc(hs: seq<int>, k: nat, m: nat)
    requires m + k <= |hs|
    ensures Windows(hs, k, m + 1) == Windows(hs, k, m) + [WindowHash(hs, m, k)]
  {
  }

  /** Every window fingerprint of the word sequence, each computed directly. */
  function RollingHashes(words: seq<string>, k: nat): (fps: seq<int>)
  {
    if |words| < k then [] else Windows(WordHashes(words), k, |words| - k + 1)
  }

  /** A sequence agreeing with every direct window fingerprint is the whole result. */
  lemma RollingHashesFrom(words: seq<string>, k: nat, fps: seq<int>)
    requires |words| >= k && |fps| == |words| - k + 1
    requires forall j :: 0 <= j < |fps| ==> fps[j] == WindowHash(WordHashes(words), j, k)
    ensures fps == RollingHashes(words, k)
  {
  }

  lemma RollingHashesShape(words: seq<string>, k: nat)
    ensures |RollingHashes(words, k)| == if |words| < k then 0 else |words| - k + 1
    ensures forall j :: 0 <= j < |RollingHashes(words, k)| ==> 0 <= RollingHashes(words, k)[j] < Modulus
  {
  }

  /** The first window, accumulated hash by hash: `a = ulong((a << 1) + h[i])`. */
  lemma AccumulateStep(h: seq<int>, i: nat, a: int)
    requires i < |h| && a == Ulong(WindowSum(h[..i]))
    ensures Ulong(a * 2 + h[i]) == Ulong(WindowSum(h[..i + 1]))
  {
    assert h[..i + 1] == h[..i] + [h[i]];
    WindowSumSnoc(h[..i], h[i]);
    UlongLinear(WindowSum(h[..i]), 0, 2, h[i]);
  }

  /** The rolling update agrees with recomputing the next window directly. */
  lemma RollStep(h: seq<int>, i: nat, k: nat, a: int, toremove: int)
    requires 1 <= k <= i < |h|
    requires a == WindowHash(h, i - k, k) && toremove == Ulong(h[i - k] * Pow2(k - 1))
    ensures Ulong((a - toremove) * 2 + h[i]) == WindowHash(h, i + 1 - k, k)
  {
    var leaving := h[i - k..i];
    var kept := h[i - k + 1..i];
    assert leaving[1..] == kept;
    assert WindowSum(leaving) == h[i - k] * Pow2(k - 1) + WindowSum(kept);
    assert h[i - k + 1..i + 1] == kept + [h[i]];
    WindowSumSnoc(kept, h[i]);
    UlongLinear(WindowSum(leaving), h[i - k] * Pow2(k - 1), 2, h[i]);
  }

  /** The first loop of rolling_word_hasher: the hash of the first k words. */
  method FirstWindow(h: seq<int>, k: nat) returns (a: int)
    requires k <= |h|
    ensures a == WindowHash(h, 0, k)
  {
    a := 0;
    for i := 0 to k
      invariant a == Ulong(WindowSum(h[..i]))
    {
      AccumulateStep(h, i, a);
      a := Ulong(a * 2 + h[i]);  // (a << 1) + h[i]
    }
    assert h[..k] == h[0..0 + k];
  }

  /** The second loop of rolling_word_hasher, after the first window: each
      further fingerprint is obtained from the previous by removing the leaving
      word's contribution, shifting and adding the incoming word's hash. */
  method RollWindows(h: seq<int>, k: nat) returns (fps: seq<int>)
    requires 1 <= k <= |h|
    ensures fps == Windows(h, k, |h| - k + 1)
  {
    var a := FirstWindow(h, k);
    assert [a] == Windows(h, k, 1);
    fps := [a];
    for i := k to |h|
      invariant fps == Windows(h, k, i - k + 1)
      invariant a == WindowHash(h, i - k, k)
    {
      var toremove := Ulong(h[i - k] * Pow2(k - 1));  // h[i - k] << (k - 1)
      RollStep(h, i, k, a, toremove);
      a := Ulong((a - toremove) * 2 + h[i]);
      WindowsSnoc(h, k, i - k + 1);
      fps := fps + [a];
    }
  }

  /** rolling_word_hasher: nothing for fewer than k words, otherwise the
      fingerprint of every window of k consecutive word hashes. */
  method RollingWordHasher(words: seq<string>, k: nat) returns (fps: seq<int>)
    requires k >= 1
    ensures fps == RollingHashes(words, k)
  {
    if |words| < k {
      return [];
    }
    var h := WordHashes(words);
    fps := RollWindows(h, k);
  }

  /** Python's `min` over a non-empty list. */
  function SeqMin(s: seq<int>): (m: int)
    requires |s| > 0
    ensures m in s
    ensures forall x :: x in s ==> m <= x
  {
    if |s| == 1 then s[0]
    else
      var rest := SeqMin(s[1..]);
      assert s == [s[0]] + s[1..];
      if s[0] <= rest then s[0] else rest
  }

  /** `min(fps[i:i + w])`. */
  function WindowMin(fps: seq<int>, i: nat, w: nat): (m: int)
    requires 1 <= w && i + w <= |fps|
    ensures m in fps
  {
    assert forall x :: x in fps[i..i + w] ==> x in fps;
    SeqMin(fps[i..i + w])
  }

  /** The minimum of every window of w consecutive fingerprints, in order. */
  function WindowMinima(fps: seq<int>, w: nat): (ms: seq<int>)
    requires 1 <= w <= |fps|
  {
    seq(|fps| - w + 1, i requires 0 <= i < |fps| - w + 1 => WindowMin(fps, i, w))
  }

  /** winnowing_hasher: all fingerprints of the k-word windows, and those
      selected as window minima. */
  function WinnowingHasher(words: seq<string>, k: nat, w: nat): (r: (set<int>, set<int>))
    requires k >= 1 && (|words| >= k ==> w >= 1)
    ensures r.0 == Elements(RollingHashes(words, k))
    ensures r.1 <= r.0
    ensures r.1 == {} <==> |words| < k
  {
    if |words| < k then ({}, {})
    else
      var fps := RollingHashes(words, k);
      assert |fps| >= 1;
      if |fps| < w then (Elements(fps), {SeqMin(fps)})
      else
        var ms := WindowMinima(fps, w);
        assert ms[0] in Elements(ms);
        (Elements(fps), Elements(ms))
  }

  /** Fewer fingerprints than w: the global minimum alone is selected. */
  lemma WinnowingShortStream(words: seq<string>, k: nat, w: nat)
    requires k >= 1 && w >= 1
    requires |words| >= k && |RollingHashes(words, k)| < w
    ensures WinnowingHasher(words, k, w).1 == {SeqMin(RollingHashes(words, k))}
  {
  }

  /** Otherwise exactly the window minima are selected, and at most one per window. */
  lemma WinnowingSelected(words: seq<string>, k: nat, w: nat)
    requires k >= 1 && w >= 1
    requires |RollingHashes(words, k)| >= w
    ensures var fps := RollingHashes(words, k);
            forall x :: x in WinnowingHasher(words, k, w).1 <==>
              exists i :: 0 <= i <= |fps| - w && x == WindowMin(fps, i, w)
    ensures |WinnowingHasher(words, k, w).1| <= |RollingHashes(words, k)| - w + 1
  {
    var fps := RollingHashes(words, k);
    var ms := WindowMinima(fps, w);
    assert WinnowingHasher(words, k, w).1 == Elements(ms);
    forall x | x in Elements(ms)
      ensures exists i :: 0 <= i <= |fps| - w && x == WindowMin(fps, i, w)
    {
      var i :| 0 <= i < |ms| && ms[i] == x;
    }
    forall i | 0 <= i <= |fps| - w
      ensures WindowMin(fps, i, w) in Elements(ms)
    {
      assert ms[i] == WindowMin(fps, i, w);
    }
    ElementsCard(ms);
  }

  /** Two fingerprint streams that share a run of w consecutive values have a
      common selected fingerprint. */
  lemma WinnowingSharedRun(fps1: seq<int>, fps2: seq<int>, w: nat, i: nat, j: nat)
    requires w >= 1 && i + w <= |fps1| && j + w <= |fps2|
    requires fps1[i..i + w] == fps2[j..j + w]
    ensures WindowMin(fps1, i, w) in Elements(WindowMinima(fps1, w)) * Elements(WindowMinima(fps2, w))
  {
    assert WindowMinima(fps1, w)[i] == WindowMin(fps1, i, w);
    assert WindowMinima(fps2, w)[j] == WindowMin(fps2, j, w);
  }

  lemma SliceOfSlice<T>(s: seq<T>, a: nat, b: nat, c: nat, d: nat)
    requires a <= b <= |s| && c <= d <= b - a
    ensures s[a..b][c..d] == s[a + c..a + d]
  {
    forall n | 0 <= n < d - c
      ensures s[a..b][c..d][n] == s[a + c..a + d][n]
    {
      assert s[a..b][c..d][n] == s[a..b][c + n] == s[a + c + n];
    }
  }

  lemma WordHashesSlice(words: seq<string>, a: nat, b: nat)
    requires a <= b <= |words|
    ensures WordHashes(words)[a..b] == WordHashes(words[a..b])
  {
  }

  /** The winnowing guarantee: documents sharing a run of k + w - 1 words share
      a selected fingerprint. */
  lemma WinnowingGuarantee(words1: seq<string>, words2: seq<string>, k: nat, w: nat, i: nat, j: nat)
    requires k >= 1 && w >= 1
    requires i + k + w - 1 <= |words1| && j + k + w - 1 <= |words2|
    requires words1[i..i + k + w - 1] == words2[j..j + k + w - 1]
    ensures WinnowingHasher(words1, k, w).1 * WinnowingHasher(words2, k, w).1 != {}
  {
    var fps1, fps2 := RollingHashes(words1, k), RollingHashes(words2, k);
    forall t | i <= t < i + w
      ensures fps1[t] == fps2[t - i + j]
    {
      SliceOfSlice(words1, i, i + k + w - 1, t - i, t - i + k);
      SliceOfSlice(words2, j, j + k + w - 1, t - i, t - i + k);
      WordHashesSlice(words1, t, t + k);
      WordHashesSlice(words2, t - i + j, t - i + j + k);
    }
    assert fps1[i..i + w] == fps2[j..j + w];
    WinnowingSharedRun(fps1, fps2, w, i, j);
  }

  lemma HashOfLetter(c: char)
    ensures BasicStringHash([c]) == 5381 * 33 + c as int
  {
    Djb2Recurrence([], c);
    assert [] + [c] == [c];
  }

  lemma WindowSumOfThree(s: seq<int>)
    requires |s| == 3
    ensures WindowSum(s) == 4 * s[0] + 2 * s[1] + s[2]
  {
    assert Pow2(2) == 4 && Pow2(1) == 2 && Pow2(0) == 1;
    assert WindowSum(s) == s[0] * 4 + WindowSum(s[1..]);
    assert WindowSum(s[1..]) == s[1] * 2 + WindowSum(s[1..][1..]);
    assert s[1..][1..] == [s[2]];
    assert WindowSum([s[2]]) == s[2] + WindowSum([s[2]][1..]);
    assert [s[2]][1..] == [];
  }

  lemma RollingDoctestRepeated()
    ensures RollingHashes(["a", "a", "a", "a"], 3) == [1243690, 1243690]
  {
    var words := ["a", "a", "a", "a"];
    HashOfLetter('a');
    var hs := WordHashes(words);
    assert hs[0] == hs[1] == hs[2] == hs[3] == 177670;
    WindowSumOfThree(hs[0..3]);
    WindowSumOfThree(hs[1..4]);
    RollingHashesFrom(words, 3, [1243690, 1243690]);
  }

  /** The b/a sequence of the docstrings. */
  const Mixed: seq<string> := ["b", "a", "a", "a", "b", "a", "a", "a"]

  lemma RollingDoctestMixed()
    ensures RollingHashes(Mixed, 3) == [1243694, 1243690, 1243691, 1243692, 1243694, 1243690]
  {
    HashOfLetter('a');
    HashOfLetter('b');
    var hs := WordHashes(Mixed);
    assert hs[0] == hs[4] == 177671;
    assert hs[1] == hs[2] == hs[3] == hs[5] == hs[6] == hs[7] == 177670;
    WindowSumOfThree(hs[0..3]);
    WindowSumOfThree(hs[1..4]);
    WindowSumOfThree(hs[2..5]);
    WindowSumOfThree(hs[3..6]);
    WindowSumOfThree(hs[4..7]);
    WindowSumOfThree(hs[5..8]);
    RollingHashesFrom(Mixed, 3, [1243694, 1243690, 1243691, 1243692, 1243694, 1243690]);
  }

  lemma WinnowingDoctestRepeated()
    ensures WinnowingHasher(["a", "a", "a", "a"], 3, 3) == ({1243690}, {1243690})
  {
    RollingDoctestRepeated();
    var fps := [1243690, 1243690];
    assert Elements(fps) == {1243690};
    assert SeqMin(fps) == 1243690;
  }

  /** winnowing_hasher on a word sequence whose stream has at least w fingerprints. */
  lemma WinnowingOfLongStream(words: seq<string>, k: nat, w: nat, fps: seq<int>)
    requires k >= 1 && w >= 1
    requires fps == RollingHashes(words, k) && |fps| >= w
    ensures WinnowingHasher(words, k, w) == (Elements(fps), Elements(WindowMinima(fps, w)))
  {
  }

  lemma SeqMinOfThree(s: seq<int>)
    requires |s| == 3
    ensures SeqMin(s) == if s[0] <= s[1] && s[0] <= s[2] then s[0]
                         else if s[1] <= s[2] then s[1] else s[2]
  {
    assert s[1..][1..] == [s[2]];
  }

  /** The fingerprint stream of the b/a sequence. */
  const MixedStream: seq<int> := [1243694, 1243690, 1243691, 1243692, 1243694, 1243690]

  lemma MixedStreamMinima()
    ensures Elements(MixedStream) == {1243690, 1243691, 1243692, 1243694}
    ensures Elements(WindowMinima(MixedStream, 3)) == {1243690, 1243691}
  {
    var fps := MixedStream;
    SeqMinOfThree(fps[0..3]);
    SeqMinOfThree(fps[1..4]);
    SeqMinOfThree(fps[2..5]);
    SeqMinOfThree(fps[3..6]);
    var ms := WindowMinima(fps, 3);
    assert ms == [1243690, 1243690, 1243691, 1243690];
  }

  lemma WinnowingDoctestMixed()
    ensures WinnowingHasher(Mixed, 3, 3)
         == ({1243690, 1243691, 1243692, 1243694}, {1243690, 1243691})
  {
    RollingDoctestMixed();
    WinnowingOfLongStream(Mixed, 3, 3, MixedStream);
    MixedStreamMinima();
  }
}
