/** Shared vocabulary of the seating model: failure datatypes, the model of
    `Random.Next`, and small facts about sequences and sums. */
module Common {

  /** The conventional Some/None datatype, standing in for a null reference. */
  datatype Option<+T> = None | Some(value: T)

  /** The exceptions the core throws, one constructor per kind. */
  datatype Error =
    | InvalidGeometry      // a desk row outside both zones
    | SelfConflict         // a person set to conflict with themself
    | UnsetFitness         // a fitness read before it was set
    | NegativeFitness      // a negative fitness stored
    | DrawOutOfRange       // Random.Next called with a reversed range (a > b)
    | IndexOutOfRange      // a list indexed past its end
    | OutOfDraws           // a finite list of random draws used up

  datatype Result<+T> = Ok(value: T) | Err(error: Error)

  /** `Random.Next(a, b)` returns a value in [a, b), and `a` itself when a == b. */
  predicate InRange(x: int, a: int, b: int) {
    (a < b && a <= x < b) || (a == b && x == a)
  }

  /** `Random.Next(n)` is `Random.Next(0, n)`. */
  predicate InRangeBelow(x: int, n: int) {
    InRange(x, 0, n)
  }

  /** C#'s `/` on int, which truncates toward zero (Dafny's `/` is Euclidean). */
  function TruncDiv(a: int, b: int): (q: int)
    requires b > 0
    ensures a >= 0 ==> 0 <= a - q * b < b
    ensures a < 0 ==> -b < a - q * b <= 0
  {
    if a >= 0 then a / b else -((-a) / b)
  }

  function Max(a: int, b: int): int { if a >= b then a else b }
  function Min(a: int, b: int): int { if a <= b then a else b }

  function Sum(s: seq<int>): int {
    if s == [] then 0 else Sum(s[..|s| - 1]) + s[|s| - 1]
  }

  function RealSum(s: seq<real>): real {
    if s == [] then 0.0 else RealSum(s[..|s| - 1]) + s[|s| - 1]
  }

  /** No value occurs twice. */
  predicate NoDuplicates<T(==)>(s: seq<T>) {
    forall i, j :: 0 <= i < j < |s| ==> s[i] != s[j]
  }

  /** Every entry is an index into a table of `n` entries. */
  predicate AllBelow(s: seq<int>, n: int) {
    forall i :: 0 <= i < |s| ==> 0 <= s[i] < n
  }

  lemma {:induction false} SumAppend(s: seq<int>, x: int)
    ensures Sum(s + [x]) == Sum(s) + x
  {
    assert (s + [x])[..|s|] == s;
  }

  lemma {:induction false} RealSumAppend(s: seq<real>, x: real)
    ensures RealSum(s + [x]) == RealSum(s) + x
  {
    assert (s + [x])[..|s|] == s;
  }

  /** Updating one entry changes the sum by the difference. */
  lemma {:induction false} SumUpdate(s: seq<int>, k: int, v: int)
    requires 0 <= k < |s|
    ensures Sum(s[k := v]) == Sum(s) - s[k] + v
    decreases |s|
  {
    var n := |s| - 1;
    if k == n {
      assert s[k := v][..n] == s[..n];
    } else {
      SumUpdate(s[..n], k, v);
      assert s[k := v][..n] == s[..n][k := v];
    }
  }

  /** Appending a new value keeps a sequence duplicate-free. */
  lemma NoDuplicatesAppend<T>(s: seq<T>, x: T)
    requires NoDuplicates(s) && x !in s
    ensures NoDuplicates(s + [x])
  {
    forall a, b | 0 <= a < b < |s| + 1 ensures (s + [x])[a] != (s + [x])[b] {
      if b == |s| {
        assert (s + [x])[a] == s[a] && s[a] in s;
      }
    }
  }

  /** A duplicate-free sequence keeps that property under any permutation. */
  lemma {:induction false} NoDuplicatesByMultiset<T>(s: seq<T>, t: seq<T>)
    requires multiset(s) == multiset(t)
    requires NoDuplicates(s)
    ensures NoDuplicates(t)
  {
    forall i, j | 0 <= i < j < |t| ensures t[i] != t[j] {
      if t[i] == t[j] {
        var x := t[i];
        MultisetAtLeastTwo(t, i, j);
        MultisetAtMostOne(s, x);
        assert false;
      }
    }
  }

  lemma {:induction false} MultisetAtLeastTwo<T>(t: seq<T>, i: int, j: int)
    requires 0 <= i < j < |t| && t[i] == t[j]
    ensures multiset(t)[t[i]] >= 2
  {
    var x := t[i];
    assert t == t[..i] + [x] + t[i+1..j] + [x] + t[j+1..];
    assert multiset(t) == multiset(t[..i]) + multiset{x} + multiset(t[i+1..j]) + multiset{x} + multiset(t[j+1..]);
  }

  lemma {:induction false} MultisetAtMostOne<T>(s: seq<T>, x: T)
    requires NoDuplicates(s)
    ensures multiset(s)[x] <= 1
    decreases |s|
  {
    if s != [] {
      var n := |s| - 1;
      assert s == s[..n] + [s[n]];
      assert NoDuplicates(s[..n]);
      MultisetAtMostOne(s[..n], x);
      if s[n] == x {
        assert x !in s[..n] by {
          forall i | 0 <= i < n ensures s[..n][i] != x { assert s[i] != s[n]; }
        }
      }
    }
  }
}
