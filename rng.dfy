/** The random-number helpers: the Fisher-Yates shuffle, driven by explicit
    swap choices, and the seed counter behind `GetLocalRNG`. */
module Rng {
  import opened Common

  const Int32Min: int := -0x8000_0000
  const Int32Max: int := 0x7fff_ffff

  /** Step i of the shuffle draws `Random.Next(i, n)`: a position in [i, n). */
  predicate ValidChoices(js: seq<int>, n: int) {
    |js| == n && forall k :: 0 <= k < n ==> InRange(js[k], k, n)
  }

  /** s with the entries at a and b exchanged. */
  function Swap<T>(s: seq<T>, a: int, b: int): (r: seq<T>)
    requires 0 <= a < |s| && 0 <= b < |s|
    ensures |r| == |s| && r[a] == s[b] && r[b] == s[a]
    ensures forall k :: 0 <= k < |s| && k != a && k != b ==> r[k] == s[k]
  {
    s[a := s[b]][b := s[a]]
  }

  lemma SwapPermutes<T>(s: seq<T>, a: int, b: int)
    requires 0 <= a < |s| && 0 <= b < |s|
    ensures multiset(Swap(s, a, b)) == multiset(s)
  {
    var t := s[a := s[b]];
    assert multiset(t) == multiset(s) - multiset{s[a]} + multiset{s[b]};
    assert multiset(t[b := s[a]]) == multiset(t) - multiset{t[b]} + multiset{s[a]};
  }

  /** The shuffle's steps i, i + 1, ..., n - 1 applied to s. */
  function ShuffleFrom<T>(s: seq<T>, js: seq<int>, i: nat): seq<T>
    requires ValidChoices(js, |s|) && i <= |s|
    decreases |s| - i
  {
    if i == |s| then s else ShuffleFrom(Swap(s, i, js[i]), js, i + 1)
  }

  function Shuffled<T>(s: seq<T>, js: seq<int>): seq<T>
    requires ValidChoices(js, |s|)
  {
    ShuffleFrom(s, js, 0)
  }

  /** The shuffle keeps the length and the multiset of entries. */
  lemma {:induction false} ShuffleFromPermutes<T>(s: seq<T>, js: seq<int>, i: nat)
    requires ValidChoices(js, |s|) && i <= |s|
    ensures |ShuffleFrom(s, js, i)| == |s|
    ensures multiset(ShuffleFrom(s, js, i)) == multiset(s)
    decreases |s| - i
  {
    if i < |s| {
      var t := Swap(s, i, js[i]);
      assert |t| == |s| && ShuffleFrom(s, js, i) == ShuffleFrom(t, js, i + 1);
      SwapPermutes(s, i, js[i]);
      ShuffleFromPermutes(t, js, i + 1);
    }
  }

  lemma ShuffledPermutes<T>(s: seq<T>, js: seq<int>)
    requires ValidChoices(js, |s|)
    ensures |Shuffled(s, js)| == |s|
    ensures multiset(Shuffled(s, js)) == multiset(s)
  {
    ShuffleFromPermutes(s, js, 0);
  }

  /** Steps from i on never touch the positions before i. */
  lemma {:induction false} ShuffleFromKeepsPrefix<T>(s: seq<T>, js: seq<int>, i: nat)
    requires ValidChoices(js, |s|) && i <= |s|
    ensures |ShuffleFrom(s, js, i)| == |s|
    ensures ShuffleFrom(s, js, i)[..i] == s[..i]
    decreases |s| - i
  {
    ShuffleFromPermutes(s, js, i);
    if i < |s| {
      var t := Swap(s, i, js[i]);
      ShuffleFromKeepsPrefix(t, js, i + 1);
      assert t[..i] == s[..i];
    }
  }

  /** A duplicate-free list stays duplicate-free. */
  lemma ShuffledNoDuplicates<T>(s: seq<T>, js: seq<int>)
    requires ValidChoices(js, |s|) && NoDuplicates(s)
    ensures NoDuplicates(Shuffled(s, js))
  {
    ShuffledPermutes(s, js);
    NoDuplicatesByMultiset(s, Shuffled(s, js));
  }

  /** `GlobalRandom.YatesShuffle`, in place: at step i the entry at i is
      exchanged with the one at js[i], drawn from [i, n). */
  method YatesShuffle<T>(list: array<T>, js: seq<int>)
    requires ValidChoices(js, list.Length)
    modifies list
    ensures list[..] == Shuffled(old(list[..]), js)
    ensures multiset(list[..]) == multiset(old(list[..]))
  {
    ghost var start := list[..];
    for i := 0 to list.Length
      invariant ShuffleFrom(list[..], js, i) == Shuffled(start, js)
    {
      var j := js[i];
      assert list[..][i := list[j]][j := list[i]] == Swap(list[..], i, j);
      var temp := list[i];
      list[i] := list[j];
      list[j] := temp;
    }
    ShuffledPermutes(start, js);
  }

  /** C#'s `seedCounter++` on an int: wraps from Int32Max to Int32Min. */
  function NextSeed(s: int): (r: int)
    requires Int32Min <= s <= Int32Max
    ensures Int32Min <= r <= Int32Max
    ensures s < Int32Max ==> r == s + 1
    ensures s == Int32Max ==> r == Int32Min
  {
    if s == Int32Max then Int32Min else s + 1
  }

  /** The seed after k calls to `GetLocalRNG`, starting from `Int32Min`. */
  function SeedAfter(k: nat): int
    ensures Int32Min <= SeedAfter(k) <= Int32Max
  {
    if k == 0 then Int32Min else NextSeed(SeedAfter(k - 1))
  }

  /** The first 2^32 local generators all get distinct seeds: the k-th call
      uses Int32Min + k. */
  lemma {:induction false} SeedAfterIsOffset(k: nat)
    requires k < 0x1_0000_0000
    ensures SeedAfter(k) == Int32Min + k
  {
    if k > 0 {
      SeedAfterIsOffset(k - 1);
    }
  }

  /** The process-wide seed counter of `GlobalRandom`. */
  class SeedCounter {
    var seedCounter: int

    ghost predicate Valid()
      reads this
    {
      Int32Min <= seedCounter <= Int32Max
    }

    constructor ()
      ensures Valid() && seedCounter == Int32Min
    {
      seedCounter := Int32Min;
    }

    /** `GetLocalRNG`: a generator seeded with the current counter, which is
        then incremented (with int wrap-around). The generator is represented by
        its seed. */
    method GetLocalRNG() returns (seed: int)
      requires Valid()
      modifies this
      ensures Valid()
      ensures seed == old(seedCounter)
      ensures seedCounter == NextSeed(old(seedCounter))
    {
      seed := seedCounter;
      seedCounter := NextSeed(seedCounter);
    }
  }
}
