/** `Collections.shuffle(list, rnd)` on a random-access list: for i from the
    size down to 2 it swaps positions i - 1 and `rnd.nextInt(i)`. The generator,
    `java.util.Random`, is library code; here it is a parameter. */
module Shuffle {

  /** A `java.util.Random` freshly built with `new Random(seed)` answers a run of
      `nextInt(bound)` calls deterministically: `r(seed, bounds)` is its answer to
      the last of the calls whose bounds, in order, are `bounds`. An answer lies
      in [0, bound). */
  type SeededRandom = r: (int, seq<nat>) -> nat
    | forall seed: int, bounds: seq<nat> ::
        |bounds| > 0 && bounds[|bounds| - 1] > 0 ==> r(seed, bounds) < bounds[|bounds| - 1]
    witness (seed: int, bounds: seq<nat>) => 0

  /** `Collections.swap(list, i, j)`. */
  function Swap<T>(s: seq<T>, i: nat, j: nat): (r: seq<T>)
    requires i < |s| && j < |s|
    ensures |r| == |s| && r[i] == s[j] && r[j] == s[i]
    ensures forall k :: 0 <= k < |s| && k != i && k != j ==> r[k] == s[k]
    ensures multiset(r) == multiset(s)
  {
    s[i := s[j]][j := s[i]]
  }

  /** The list once the shuffle loop has run from `i` down to 2, the generator
      having already answered the calls `calls`. */
  function ShuffleFrom<T>(s: seq<T>, random: SeededRandom, seed: int, calls: seq<nat>, i: nat): (r: seq<T>)
    requires i <= |s|
    ensures |r| == |s|
    decreases i
  {
    if i <= 1 then s
    else
      var made := calls + [i];
      assert made[|made| - 1] == i;
      ShuffleFrom(Swap(s, i - 1, random(seed, made)), random, seed, made, i - 1)
  }

  /** Every swap keeps the elements, so the rest of the shuffle does. */
  lemma {:induction false} ShuffleFromPermutes<T>(s: seq<T>, random: SeededRandom, seed: int, calls: seq<nat>, i: nat)
    requires i <= |s|
    ensures multiset(ShuffleFrom(s, random, seed, calls, i)) == multiset(s)
    decreases i
  {
    if i > 1 {
      var made := calls + [i];
      assert made[|made| - 1] == i;
      ShuffleFromPermutes(Swap(s, i - 1, random(seed, made)), random, seed, made, i - 1);
    }
  }

  /** The whole of `Collections.shuffle(s, new Random(seed))`. */
  function Shuffled<T>(s: seq<T>, random: SeededRandom, seed: int): (r: seq<T>)
    ensures |r| == |s| && multiset(r) == multiset(s)
  {
    ShuffleFromPermutes(s, random, seed, [], |s|);
    ShuffleFrom(s, random, seed, [], |s|)
  }

  /** `Collections.shuffle(a, new Random(seed))`, in place. */
  method Shuffle<T>(a: array<T>, random: SeededRandom, seed: int)
    modifies a
    ensures a[..] == Shuffled(old(a[..]), random, seed)
  {
    var calls: seq<nat> := [];
    var i := a.Length;
    while i > 1
      invariant 0 <= i <= a.Length
      invariant ShuffleFrom(a[..], random, seed, calls, i) == Shuffled(old(a[..]), random, seed)
    {
      ShuffleFromStep(a[..], random, seed, calls, i);
      calls := calls + [i];
      var j := random(seed, calls);
      SwapElements(a, i - 1, j);
      i := i - 1;
    }
  }

  /** One iteration of the shuffle loop. */
  lemma ShuffleFromStep<T>(s: seq<T>, random: SeededRandom, seed: int, calls: seq<nat>, i: nat)
    requires 1 < i <= |s|
    ensures random(seed, calls + [i]) < i
    ensures ShuffleFrom(s, random, seed, calls, i) ==
              ShuffleFrom(Swap(s, i - 1, random(seed, calls + [i])), random, seed, calls + [i], i - 1)
  {
    var made := calls + [i];
    assert made[|made| - 1] == i;
  }

  /** `Collections.swap(list, i, j)` on the array. */
  method SwapElements<T>(a: array<T>, i: nat, j: nat)
    requires i < a.Length && j < a.Length
    modifies a
    ensures a[..] == Swap(old(a[..]), i, j)
  {
    var t := a[i];
    a[i] := a[j];
    a[j] := t;
  }

  // ---------------------------------------------------------------------------
  // Index manifests

  predicate InRange(m: seq<int>, n: nat)
  {
    forall k :: 0 <= k < |m| ==> 0 <= m[k] < n
  }

  predicate Distinct(m: seq<int>)
  {
    forall i, j :: 0 <= i < j < |m| ==> m[i] != m[j]
  }

  /** `m` lists each of 0 .. n-1 exactly once. */
  predicate IsPermutation(m: seq<int>, n: nat)
  {
    |m| == n && InRange(m, n) && Distinct(m) && forall v :: 0 <= v < n ==> v in m
  }

  /** The identity index array 0, 1, ..., n-1. */
  function Iota(n: nat): (m: seq<int>)
    ensures |m| == n && forall k :: 0 <= k < n ==> m[k] == k
  {
    seq(n, k => k)
  }

  /** The sequence whose k-th element is `s[m[k]]`. */
  function Compose<T>(s: seq<T>, m: seq<int>): (r: seq<T>)
    requires InRange(m, |s|)
    ensures |r| == |m| && forall k :: 0 <= k < |m| ==> r[k] == s[m[k]]
  {
    seq(|m|, k requires 0 <= k < |m| => s[m[k]])
  }

  /** The index array after its own shuffle with a fresh generator on `seed`:
      it holds each of 0..n-1 once. */
  function Manifest(random: SeededRandom, seed: int, n: nat): (m: seq<int>)
    ensures |m| == n && multiset(m) == multiset(Iota(n))
  {
    Shuffled(Iota(n), random, seed)
  }

  /** The swaps depend on the list's length only, so shuffling `s[m[0]], s[m[1]], ...`
      is the same as shuffling the indices `m` and then looking them up in `s`. */
  lemma {:induction false} ShuffleFromCompose<T>(s: seq<T>, m: seq<int>, random: SeededRandom, seed: int, calls: seq<nat>, i: nat)
    requires i <= |m| && InRange(m, |s|)
    ensures InRange(ShuffleFrom(m, random, seed, calls, i), |s|)
    ensures ShuffleFrom(Compose(s, m), random, seed, calls, i) == Compose(s, ShuffleFrom(m, random, seed, calls, i))
    decreases i
  {
    if i > 1 {
      var made := calls + [i];
      assert made[|made| - 1] == i;
      var j := random(seed, made);
      var swapped := Swap(m, i - 1, j);
      assert InRange(swapped, |s|);
      assert Swap(Compose(s, m), i - 1, j) == Compose(s, swapped);
      ShuffleFromCompose(s, swapped, random, seed, made, i - 1);
    }
  }

  lemma {:induction false} ShuffleFromDistinct(m: seq<int>, random: SeededRandom, seed: int, calls: seq<nat>, i: nat)
    requires i <= |m| && Distinct(m)
    ensures Distinct(ShuffleFrom(m, random, seed, calls, i))
    decreases i
  {
    if i > 1 {
      var made := calls + [i];
      assert made[|made| - 1] == i;
      var j := random(seed, made);
      var swapped := Swap(m, i - 1, j);
      assert Distinct(swapped) by {
        forall a, b | 0 <= a < b < |swapped|
          ensures swapped[a] != swapped[b]
        {
          var a' := if a == i - 1 then j else if a == j then i - 1 else a;
          var b' := if b == i - 1 then j else if b == j then i - 1 else b;
          assert swapped[a] == m[a'] && swapped[b] == m[b'];
        }
      }
      ShuffleFromDistinct(swapped, random, seed, made, i - 1);
    }
  }

  /** The shuffled index array is a permutation of 0 .. n-1. */
  lemma ManifestIsPermutation(random: SeededRandom, seed: int, n: nat)
    ensures IsPermutation(Manifest(random, seed, n), n)
  {
    var m := Manifest(random, seed, n);
    ShuffleFromDistinct(Iota(n), random, seed, [], n);
    ShuffleFromCompose(Iota(n), Iota(n), random, seed, [], n);
    forall v | 0 <= v < n
      ensures v in m
    {
      assert Iota(n)[v] == v;
      assert v in multiset(Iota(n));
    }
  }

  /** Shuffling the letters and, with an identically seeded generator, the
      identity indices leaves the letter at i equal to the original letter at
      `manifest[i]`. */
  lemma ShuffledFollowsManifest<T>(s: seq<T>, random: SeededRandom, seed: int)
    ensures forall i :: 0 <= i < |s| ==>
              0 <= Manifest(random, seed, |s|)[i] < |s| &&
              Shuffled(s, random, seed)[i] == s[Manifest(random, seed, |s|)[i]]
  {
    var id := Iota(|s|);
    assert Compose(s, id) == s;
    ShuffleFromCompose(s, id, random, seed, [], |s|);
  }
}
