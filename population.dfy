/** A population of layout chromosomes: evaluation with running statistics,
    roulette selection, the generation loop, and the two ways of seeding a
    first population.

    The evaluator's scores, the `NextDouble` draws of the roulette and every
    draw of the operators arrive as parameters. */
module Population {
  import opened Common
  import opened Rng
  import opened Evaluator
  import opened Chromosome
  import Desks

  /** `double.MaxValue`, exactly: (2^53 - 1) * 2^971. */
  const DoubleMax: real := 179769313486231570814527423731704356798070567525844996598917476803157260780028538760589558632766878171540458953514382464234321326889464182768467546703537516986049910576551282076245490090389328944075868508455133942304583236903222948165808559332123348274797826204144723168738177180919299881250404026184124858368.0

  /** `double.MinValue` is the most negative double. */
  const DoubleMin: real := -DoubleMax

  // ---------------------------------------------------------------------
  // Running statistics of an evaluation pass.

  /** The statistics the scoring loop keeps: the total, the running maximum
      and minimum, and the position of the score that last raised the
      maximum (None while it has not moved). */
  datatype Running = Running(total: real, max: real, min: real, best: Option<nat>)

  /** The statistics after the first k scores of f, starting from the
      maximum m and the minimum lo: a score replaces the maximum only when
      strictly greater, and the minimum follows `Math.Min`. */
  function Tally(m: real, lo: real, f: seq<real>, k: nat): (r: Running)
    requires k <= |f|
    ensures r.best.Some? ==> r.best.value < k
  {
    if k == 0 then Running(0.0, m, lo, None)
    else
      var p, x := Tally(m, lo, f, k - 1), f[k - 1];
      Running(p.total + x,
              if x > p.max then x else p.max,
              if x <= p.min then x else p.min,
              if x > p.max then Some(k - 1) else p.best)
  }

  /** Over the first k scores: the total is their sum; the maximum bounds
      each of them and the starting value; the minimum is below all of them;
      the best position holds the maximum, which beats the starting value and
      every earlier score strictly (ties keep the first); with no best
      position the maximum never moved. */
  lemma {:induction false} RunningBounds(m: real, lo: real, f: seq<real>, k: nat)
    requires k <= |f|
    ensures Tally(m, lo, f, k).total == RealSum(f[..k])
    ensures Tally(m, lo, f, k).max >= m && forall j :: 0 <= j < k ==> f[j] <= Tally(m, lo, f, k).max
    ensures Tally(m, lo, f, k).min <= lo && forall j :: 0 <= j < k ==> Tally(m, lo, f, k).min <= f[j]
    ensures Tally(m, lo, f, k).best.None? ==> Tally(m, lo, f, k).max == m
    ensures Tally(m, lo, f, k).best.Some? ==>
      var i := Tally(m, lo, f, k).best.value;
      && f[i] == Tally(m, lo, f, k).max && f[i] > m
      && forall j :: 0 <= j < i ==> f[j] < f[i]
  {
    if k > 0 {
      RunningBounds(m, lo, f, k - 1);
      assert f[..k][..k - 1] == f[..k - 1];
    }
  }

  /** The number of scores accepted before the first negative one. */
  function Accepted(f: seq<real>): (k: nat)
    ensures k <= |f|
    ensures forall j :: 0 <= j < k ==> f[j] >= 0.0
    ensures k < |f| ==> f[k] < 0.0
  {
    AcceptedFrom(f, 0)
  }

  /** The first negative score at position i or later, or |f|. */
  function AcceptedFrom(f: seq<real>, i: nat): (k: nat)
    requires i <= |f|
    requires forall j :: 0 <= j < i ==> f[j] >= 0.0
    ensures i <= k <= |f|
    ensures forall j :: 0 <= j < k ==> f[j] >= 0.0
    ensures k < |f| ==> f[k] < 0.0
    decreases |f| - i
  {
    if i == |f| || f[i] < 0.0 then i else AcceptedFrom(f, i + 1)
  }

  // ---------------------------------------------------------------------
  // Roulette selection.

  /** `GetWeightedOffspring` from position i with the bound still to be used
      up: a fitness that was never set is an error; the first chromosome that
      brings the bound to zero or below is chosen; otherwise the last one, and
      an empty population has no last one. */
  function Pick(bound: real, f: seq<real>, i: nat): (r: Result<nat>)
    requires i <= |f|
    ensures r.Ok? ==> r.value < |f|
    decreases |f| - i
  {
    if i == |f| then (if |f| == 0 then Err(IndexOutOfRange) else Ok(|f| - 1))
    else if f[i] < 0.0 then Err(UnsetFitness)
    else if bound - f[i] <= 0.0 then Ok(i)
    else Pick(bound - f[i], f, i + 1)
  }

  predicate AllSet(f: seq<real>) {
    forall j :: 0 <= j < |f| ==> f[j] >= 0.0
  }

  /** The fitness sum of the chromosomes up to and including j. */
  function SumThrough(f: seq<real>, j: int): real
    requires 0 <= j < |f|
  {
    RealSum(f[..j + 1])
  }

  lemma {:induction false} PickFrom(b: real, f: seq<real>, i: nat)
    requires i <= |f| && |f| > 0 && AllSet(f)
    requires forall j :: 0 <= j < i ==> SumThrough(f, j) < b
    ensures Pick(b - RealSum(f[..i]), f, i).Ok?
    ensures var k := Pick(b - RealSum(f[..i]), f, i).value;
      && (forall j :: 0 <= j < k ==> SumThrough(f, j) < b)
      && (b <= RealSum(f[..k + 1]) || (k == |f| - 1 && RealSum(f) < b))
    decreases |f| - i
  {
    if i == |f| {
      assert f[..|f|] == f;
    } else {
      assert f[..i + 1] == f[..i] + [f[i]];
      RealSumAppend(f[..i], f[i]);
      if b - RealSum(f[..i]) - f[i] > 0.0 {
        PickFrom(b, f, i + 1);
      }
    }
  }

  /** The roulette chooses the first chromosome whose prefix sum of fitness
      reaches the bound, and the last one when no prefix sum does. */
  lemma PickMeaning(b: real, f: seq<real>)
    requires |f| > 0 && AllSet(f)
    ensures Pick(b, f, 0).Ok?
    ensures var k := Pick(b, f, 0).value;
      && (forall j :: 0 <= j < k ==> SumThrough(f, j) < b)
      && (b <= RealSum(f[..k + 1]) || (k == |f| - 1 && RealSum(f) < b))
  {
    assert f[..0] == [];
    PickFrom(b, f, 0);
  }

  /** With fitness values set and of positive total, and a bound in
      [0, total) (as `Bound` is, by `ScaleBelow`), the
      fallback is never taken: the bound lies in the chosen chromosome's slice
      (prefix sum before it, prefix sum through it], so a positive bound never
      picks a zero fitness. */
  lemma RouletteSelects(b: real, total: real, f: seq<real>)
    requires |f| > 0 && AllSet(f) && total == RealSum(f) && 0.0 <= b < total
    ensures Pick(b, f, 0).Ok?
    ensures var k := Pick(b, f, 0).value;
      && b <= RealSum(f[..k + 1])
      && (k > 0 ==> RealSum(f[..k]) < b)
      && (b > 0.0 ==> f[k] > 0.0)
  {
    PickMeaning(b, f);
    var k := Pick(b, f, 0).value;
    assert f[..k + 1] == f[..k] + [f[k]];
    RealSumAppend(f[..k], f[k]);
    if k > 0 {
      assert SumThrough(f, k - 1) < b;
      assert f[..(k - 1) + 1] == f[..k];
    } else {
      assert f[..0] == [];
    }
  }

  /** The roulette's starting bound, `NextDouble() * totalFitness`. */
  function Bound(u: real, total: real): real {
    u * total
  }

  /** `NextDouble()` lies in [0, 1), so the bound lies in [0, total). */
  lemma ScaleBelow(u: real, total: real)
    requires 0.0 <= u < 1.0 && total > 0.0
    ensures 0.0 <= Bound(u, total) < total
    ensures u > 0.0 ==> Bound(u, total) > 0.0
  {
  }

  /** When every fitness is zero the bound is zero and the first chromosome is
      chosen, not the last one. */
  lemma ZeroBoundPicksFirst(f: seq<real>)
    requires |f| > 0 && f[0] >= 0.0
    ensures Pick(0.0, f, 0) == Ok(0)
  {
  }

  // ---------------------------------------------------------------------
  // Seeding a population.

  /** Shuffles that fit a list of n entries, one per round. */
  predicate RoundsFit(shuffles: seq<seq<int>>, n: int) {
    forall m :: 0 <= m < |shuffles| ==> ValidChoices(shuffles[m], n)
  }

  /** The list after the first k rounds: each round shuffles the previous
      round's result, as the source reuses one list. */
  function Rounds(s: seq<int>, shuffles: seq<seq<int>>, k: nat): (r: seq<int>)
    requires k <= |shuffles| && RoundsFit(shuffles, |s|)
    ensures |r| == |s| && multiset(r) == multiset(s)
  {
    if k == 0 then s
    else
      var p := Rounds(s, shuffles, k - 1);
      ShuffledPermutes(p, shuffles[k - 1]);
      Shuffled(p, shuffles[k - 1])
  }

  /** A random layout consists of the first slots of a rearrangement of all
      employees: duplicate-free when the employee list is, and naming only
      listed employees. */
  lemma RandomLayoutMeaning(s: seq<int>, shuffles: seq<seq<int>>, k: nat, n: nat)
    requires k <= |shuffles| && RoundsFit(shuffles, |s|) && n <= |s|
    ensures forall x :: x in Rounds(s, shuffles, k)[..n] ==> x in s
    ensures NoDuplicates(s) ==> NoDuplicates(Rounds(s, shuffles, k)[..n])
  {
    var r := Rounds(s, shuffles, k);
    forall x | x in r[..n] ensures x in s {
      assert x in multiset(r);
    }
    if NoDuplicates(s) {
      NoDuplicatesByMultiset(s, r);
    }
  }

  /** The layouts of the first n rounds of `CreateRandomPopulation`: the
      first 146 entries of the list after each round. */
  function RandomLayouts(s: seq<int>, shuffles: seq<seq<int>>, n: nat): (r: seq<seq<int>>)
    requires n <= |shuffles| && RoundsFit(shuffles, |s|) && |s| >= Desks.TotalDesks
    ensures |r| == n
  {
    if n == 0 then [] else RandomLayouts(s, shuffles, n - 1) + [Rounds(s, shuffles, n)[..Desks.TotalDesks]]
  }

  /** The employees not seated in the target layout, in list order. */
  function Unaccounted(all: seq<int>, target: seq<int>): (u: seq<int>)
    ensures forall x :: x in u <==> x in all && x !in target
  {
    if all == [] then []
    else
      var p := Unaccounted(all[..|all| - 1], target);
      var x := all[|all| - 1];
      assert forall y :: y in all <==> y in all[..|all| - 1] || y == x by {
        assert all == all[..|all| - 1] + [x];
      }
      if x in target then p else p + [x]
  }

  lemma {:induction false} UnaccountedNoDuplicates(all: seq<int>, target: seq<int>)
    requires NoDuplicates(all)
    ensures NoDuplicates(Unaccounted(all, target))
    decreases |all|
  {
    if all != [] {
      var n := |all| - 1;
      assert NoDuplicates(all[..n]);
      UnaccountedNoDuplicates(all[..n], target);
      if all[n] !in target {
        assert all[n] !in all[..n] by {
          forall j | 0 <= j < n ensures all[..n][j] != all[n] { assert all[j] != all[n]; }
        }
        NoDuplicatesAppend(Unaccounted(all[..n], target), all[n]);
      }
    }
  }

  /** The number of vacant (-1) slots. */
  function Holes(t: seq<int>): nat {
    if t == [] then 0 else Holes(t[..|t| - 1]) + (if t[|t| - 1] == -1 then 1 else 0)
  }

  lemma HolesStep(t: seq<int>, j: nat)
    requires j < |t|
    ensures Holes(t[..j + 1]) == Holes(t[..j]) + (if t[j] == -1 then 1 else 0)
  {
    assert t[..j + 1][..j] == t[..j];
  }

  lemma {:induction false} HolesMonotone(t: seq<int>, i: nat, j: nat)
    requires i <= j <= |t|
    ensures Holes(t[..i]) <= Holes(t[..j])
    ensures i < j && t[i] == -1 ==> Holes(t[..i]) < Holes(t[..j])
    decreases j - i
  {
    if i < j {
      HolesMonotone(t, i, j - 1);
      HolesStep(t, j - 1);
      if i == j - 1 {
        HolesStep(t, i);
      }
    }
  }

  /** The vacant slot j takes entry `Holes(t[..j])` of u: the vacancies are
      filled in slot order from the front of u. */
  function Filled(t: seq<int>, u: seq<int>): (r: seq<int>)
    requires Holes(t) <= |u|
    ensures |r| == |t|
  {
    seq(|t|, j requires 0 <= j < |t| =>
      if t[j] != -1 then t[j]
      else
        HolesMonotone(t, j, |t|);
        assert t[..|t|] == t;
        u[Holes(t[..j])])
  }

  /** The layouts of the first n rounds of
      `CreateHistoricallySimilarPopulation`: the target with its vacancies
      filled from the unaccounted-for list after each round. */
  function HistoricLayouts(t: seq<int>, u: seq<int>, shuffles: seq<seq<int>>, n: nat): (r: seq<seq<int>>)
    requires n <= |shuffles| && RoundsFit(shuffles, |u|) && Holes(t) <= |u|
    ensures |r| == n
  {
    if n == 0 then [] else HistoricLayouts(t, u, shuffles, n - 1) + [Filled(t, Rounds(u, shuffles, n))]
  }

  /** A filled layout keeps every seated slot, leaves no vacancy when u holds
      no -1, and seats nobody twice when the target's seated entries are
      distinct and u is a duplicate-free list of absent employees. */
  lemma FilledMeaning(t: seq<int>, u: seq<int>)
    requires Holes(t) <= |u|
    ensures forall j :: 0 <= j < |t| && t[j] != -1 ==> Filled(t, u)[j] == t[j]
    ensures -1 !in u ==> -1 !in Filled(t, u)
    ensures (forall i, j :: 0 <= i < j < |t| && t[i] != -1 ==> t[i] != t[j])
      && NoDuplicates(u) && (forall x :: x in u ==> x !in t)
      ==> NoDuplicates(Filled(t, u))
  {
    var r := Filled(t, u);
    assert t[..|t|] == t;
    forall j | 0 <= j < |t| && t[j] == -1 ensures Holes(t[..j]) < |u| && r[j] == u[Holes(t[..j])] {
      HolesMonotone(t, j, |t|);
    }
    if (forall i, j :: 0 <= i < j < |t| && t[i] != -1 ==> t[i] != t[j]) &&
       NoDuplicates(u) && (forall x :: x in u ==> x !in t) {
      forall a, b | 0 <= a < b < |t| ensures r[a] != r[b] {
        if t[a] == -1 && t[b] == -1 {
          HolesMonotone(t, a, b);
        } else if t[a] == -1 {
          assert r[a] in u && r[b] == t[b];
        } else if t[b] == -1 {
          assert r[b] in u && r[a] == t[a];
        }
      }
    }
  }

  // ---------------------------------------------------------------------
  // The generation loop.

  /** The draws of one pass of the generation loop: the two roulette draws
      (`NextDouble`), the crossover's draws, the shuffle choices of each
      child's duplicate repair and each child's mutation draws. */
  datatype Attempt = Attempt(
    pick1: real, pick2: real, crossover: CrossoverDraws,
    repair1: seq<int>, repair2: seq<int>,
    mutation1: MutationDraws, mutation2: MutationDraws)

  /** A layout every operator can take: it covers the desks, names only
      employees and is no longer than the employee list. */
  predicate Parent(w: World, s: seq<int>) {
    Fits(w, s) && |s| <= |w.employees|
  }

  predicate Breedable(w: World, P: seq<seq<int>>) {
    forall k :: 0 <= k < |P| ==> Parent(w, P[k])
  }

  /** Slot-wise provenance keeps the children's entries below n. */
  lemma OffspringBelow(kind: CrossoverType, d: CrossoverDraws, p1: seq<int>, p2: seq<int>, n: int)
    requires Crossable(kind, d, p1, p2) && AllBelow(p1, n) && AllBelow(p2, n)
    ensures AllBelow(Child1(kind, d, p1, p2), n) && AllBelow(Child2(kind, d, p1, p2), n)
  {
  }

  /** Lines 38-42 of one pass on the layouts of parent 1 and parent 2: the
      crossover and the repair of each child. A partner shorter than parent 1
      is indexed past its end; draws outside the ranges of their `Next` calls
      are refused. */
  function CrossedAndRepaired(w: World, kind: CrossoverType, p1: seq<int>, p2: seq<int>, a: Attempt): (r: Result<(seq<int>, seq<int>)>)
    requires Parent(w, p1) && Parent(w, p2)
    ensures r.Ok? ==>
      && |r.value.0| == |p1| && |r.value.1| == |p1|
      && Parent(w, r.value.0) && Parent(w, r.value.1)
      && NoDuplicates(r.value.0) && NoDuplicates(r.value.1)
  {
    var n, E := |p1|, |w.employees|;
    if |p2| < n then Err(IndexOutOfRange)
    else if !CanDraw(kind, n) || !DrawsFit(kind, n, a.crossover) then Err(DrawOutOfRange)
    else
      var c1 := Child1(kind, a.crossover, p1, p2);
      var c2 := Child2(kind, a.crossover, p1, p2);
      OffspringBelow(kind, a.crossover, p1, p2, E);
      if !ValidChoices(a.repair1, |UnusedOf(c1, E)|) || !ValidChoices(a.repair2, |UnusedOf(c2, E)|) then Err(DrawOutOfRange)
      else
        RepairedMeaning(c1, E, a.repair1);
        RepairedMeaning(c2, E, a.repair2);
        Ok((Repaired(c1, E, a.repair1), Repaired(c2, E, a.repair2)))
  }

  /** Lines 38-45 of one pass: the crossover and repair, then the mutation of
      each child. A mutation with swaps on an empty layout indexes past its
      end. */
  function Offspring(w: World, c: MutationConfig, kind: CrossoverType, p1: seq<int>, p2: seq<int>, a: Attempt): (r: Result<(seq<int>, seq<int>)>)
    requires WorldOk(w) && ConfigOk(c) && Parent(w, p1) && Parent(w, p2)
    ensures r.Ok? ==>
      && |r.value.0| == |p1| && |r.value.1| == |p1|
      && Parent(w, r.value.0) && Parent(w, r.value.1)
      && NoDuplicates(r.value.0) && NoDuplicates(r.value.1)
  {
    var n, D := |p1|, |w.desks|;
    match CrossedAndRepaired(w, kind, p1, p2, a)
    case Err(e) => Err(e)
    case Ok((r1, r2)) =>
      if !MutationDrawsFit(c, n, D, a.mutation1) || !MutationDrawsFit(c, n, D, a.mutation2) then Err(DrawOutOfRange)
      else if n == 0 && (a.mutation1.swapCount > 0 || a.mutation2.swapCount > 0) then Err(IndexOutOfRange)
      else
        MutatedPermutes(w, c, r1, a.mutation1);
        MutatedPermutes(w, c, r2, a.mutation2);
        Ok((Mutated(w, c, r1, a.mutation1), Mutated(w, c, r2, a.mutation2)))
  }

  /** How a pass turns two parent layouts and its draws into two children. */
  type Breeder = (seq<int>, seq<int>, Attempt) -> Result<(seq<int>, seq<int>)>

  /** The source's operators as a breeder: `Offspring` on layouts that can be
      parents (the only ones a population of parents holds). */
  function Operators(w: World, c: MutationConfig, kind: CrossoverType): Breeder
    requires WorldOk(w) && ConfigOk(c)
  {
    (p1: seq<int>, p2: seq<int>, a: Attempt) =>
      if Parent(w, p1) && Parent(w, p2) then Offspring(w, c, kind, p1, p2, a) else Err(IndexOutOfRange)
  }

  /** Every pair the breeder makes from the parents P keeps parent 1's length,
      can be parents again and is duplicate-free. */
  ghost predicate SoundBreeder(w: World, breed: Breeder, P: seq<seq<int>>) {
    forall i, j, a :: 0 <= i < |P| && 0 <= j < |P| && breed(P[i], P[j], a).Ok? ==>
      var o := breed(P[i], P[j], a).value;
      |o.0| == |P[i]| && |o.1| == |P[i]| && Sound(w, [o.0, o.1])
  }

  /** Every layout can be a parent and is duplicate-free. */
  predicate Sound(w: World, cs: seq<seq<int>>) {
    forall k :: 0 <= k < |cs| ==> Parent(w, cs[k]) && NoDuplicates(cs[k])
  }

  /** The breeder agrees with `Offspring` on every pair of layouts that can
      be parents: the source's operators, whichever function value carries
      them. */
  ghost predicate Realises(w: World, c: MutationConfig, kind: CrossoverType, breed: Breeder) {
    && WorldOk(w) && ConfigOk(c)
    && forall p1, p2, a {:trigger Offspring(w, c, kind, p1, p2, a)} :: Parent(w, p1) && Parent(w, p2) ==>
         breed(p1, p2, a) == Offspring(w, c, kind, p1, p2, a)
  }

  lemma OperatorsRealise(w: World, c: MutationConfig, kind: CrossoverType)
    requires WorldOk(w) && ConfigOk(c)
    ensures Realises(w, c, kind, Operators(w, c, kind))
  {
  }

  /** A breeder that realises the source's operators is sound on a
      population of parents. */
  lemma RealisedSound(w: World, c: MutationConfig, kind: CrossoverType, breed: Breeder, P: seq<seq<int>>)
    requires Realises(w, c, kind, breed) && Breedable(w, P)
    ensures SoundBreeder(w, breed, P)
  {
    forall i, j, a | 0 <= i < |P| && 0 <= j < |P| && breed(P[i], P[j], a).Ok?
      ensures var o := breed(P[i], P[j], a).value;
        |o.0| == |P[i]| && |o.1| == |P[i]| && Sound(w, [o.0, o.1])
    {
      assert Parent(w, P[i]) && Parent(w, P[j]);
      var r := Offspring(w, c, kind, P[i], P[j], a);
      assert breed(P[i], P[j], a) == r;
      var o := r.value;
      assert Parent(w, o.0) && NoDuplicates(o.0) && Parent(w, o.1) && NoDuplicates(o.1);
      assert Sound(w, [o.0, o.1]) by {
        forall k | 0 <= k < 2 ensures Parent(w, [o.0, o.1][k]) && NoDuplicates([o.0, o.1][k]) {
          if k == 0 { assert [o.0, o.1][k] == o.0; } else { assert [o.0, o.1][k] == o.1; }
        }
      }
    }
  }

  /** One pass of the generation loop over the parents' layouts P and
      fitness values F, with `children` added so far: two roulette picks; the
      same chromosome twice leaves the children as they are; otherwise both
      children of the two parents are added. */
  function Pass(breed: Breeder, P: seq<seq<int>>, F: seq<real>, total: real,
                a: Attempt, children: seq<seq<int>>): (r: Result<seq<seq<int>>>)
    requires |F| == |P|
  {
    if !(0.0 <= a.pick1 < 1.0 && 0.0 <= a.pick2 < 1.0) then Err(DrawOutOfRange)
    else
      var pick1 := Pick(Bound(a.pick1, total), F, 0);
      if pick1.Err? then Err(pick1.error)
      else
        var pick2 := Pick(Bound(a.pick2, total), F, 0);
        if pick2.Err? then Err(pick2.error)
        else if pick1.value == pick2.value then Ok(children)
        else
          var o := breed(P[pick1.value], P[pick2.value], a);
          if o.Err? then Err(o.error)
          else Ok(children + [o.value.0, o.value.1])
  }

  /** The generation loop with the passes ts still to run: it stops as soon
      as there are at least |P| children. */
  function Generation(breed: Breeder, P: seq<seq<int>>, F: seq<real>, total: real,
                      ts: seq<Attempt>, children: seq<seq<int>>): (r: Result<seq<seq<int>>>)
    requires |F| == |P|
    decreases |ts|
  {
    if |children| >= |P| then Ok(children)
    else if ts == [] then Err(OutOfDraws)
    else
      var next := Pass(breed, P, F, total, ts[0], children);
      if next.Err? then next
      else Generation(breed, P, F, total, ts[1..], next.value)
  }

  /** A pass that succeeds either skips or adds the two children the breeder
      makes from two different parents i and j. */
  lemma PassMeaning(breed: Breeder, P: seq<seq<int>>, F: seq<real>, total: real,
                    a: Attempt, children: seq<seq<int>>) returns (i: nat, j: nat)
    requires |F| == |P| && Pass(breed, P, F, total, a, children).Ok?
    ensures var r := Pass(breed, P, F, total, a, children).value;
      || r == children
      || (&& i < |P| && j < |P| && i != j && breed(P[i], P[j], a).Ok?
          && r == children + [breed(P[i], P[j], a).value.0, breed(P[i], P[j], a).value.1])
  {
    i := Pick(Bound(a.pick1, total), F, 0).value;
    j := Pick(Bound(a.pick2, total), F, 0).value;
  }

  /** x and y are the two children the pass with draws a makes from two
      different parents. */
  ghost predicate BredBy(breed: Breeder, P: seq<seq<int>>, a: Attempt, x: seq<int>, y: seq<int>) {
    exists i, j :: 0 <= i < |P| && 0 <= j < |P| && i != j && breed(P[i], P[j], a) == Ok((x, y))
  }

  /** x and y are the two children one of the passes ts makes from two
      different parents. */
  ghost predicate Bred(breed: Breeder, P: seq<seq<int>>, ts: seq<Attempt>, x: seq<int>, y: seq<int>)
    decreases |ts|
  {
    ts != [] && (BredBy(breed, P, ts[0], x, y) || Bred(breed, P, ts[1..], x, y))
  }

  /** A finished generation has an even number of children, at least as many
      as the parents and at most one more (exactly as many for an even
      population), and every child can be a parent again and is
      duplicate-free. */
  lemma {:induction false} GenerationShape(w: World, breed: Breeder, P: seq<seq<int>>, F: seq<real>, total: real,
                                           ts: seq<Attempt>, children: seq<seq<int>>)
    requires |F| == |P| && SoundBreeder(w, breed, P)
    requires |children| % 2 == 0 && |children| <= |P| + 1 && Sound(w, children)
    ensures var r := Generation(breed, P, F, total, ts, children);
      r.Ok? ==>
        && |r.value| % 2 == 0 && |P| <= |r.value| <= |P| + 1
        && (|P| % 2 == 0 && |children| <= |P| ==> |r.value| == |P|)
        && |children| <= |r.value| && r.value[..|children|] == children
        && Sound(w, r.value)
    decreases |ts|
  {
    var r := Generation(breed, P, F, total, ts, children);
    if |children| < |P| && ts != [] && r.Ok? {
      var next := Pass(breed, P, F, total, ts[0], children).value;
      var i, j := PassMeaning(breed, P, F, total, ts[0], children);
      if next != children {
        var o := breed(P[i], P[j], ts[0]).value;
        assert Sound(w, [o.0, o.1]);
        assert Sound(w, next) by {
          forall k | 0 <= k < |next| ensures Parent(w, next[k]) && NoDuplicates(next[k]) {
            if k >= |children| {
              assert next[k] == [o.0, o.1][k - |children|];
            }
          }
        }
      }
      GenerationShape(w, breed, P, F, total, ts[1..], next);
      assert r.value[..|children|] == r.value[..|next|][..|children|];
      assert next[..|children|] == children;
    } else if r.Ok? {
      assert r.value[..|children|] == children;
    }
  }

  /** Every pair a generation adds was bred by one pass from two different
      parents. */
  lemma {:induction false} GenerationBred(breed: Breeder, P: seq<seq<int>>, F: seq<real>, total: real,
                                          ts: seq<Attempt>, children: seq<seq<int>>)
    requires |F| == |P| && |children| % 2 == 0
    ensures var r := Generation(breed, P, F, total, ts, children);
      r.Ok? ==> forall m :: |children| <= 2 * m && 2 * m + 1 < |r.value| ==>
        Bred(breed, P, ts, r.value[2 * m], r.value[2 * m + 1])
    decreases |ts|
  {
    var r := Generation(breed, P, F, total, ts, children);
    if |children| < |P| && ts != [] && r.Ok? {
      var next := GenerationUnfolds(breed, P, F, total, ts, children);
      var i, j := PassMeaning(breed, P, F, total, ts[0], children);
      GenerationBred(breed, P, F, total, ts[1..], next);
      GenerationKeeps(breed, P, F, total, ts[1..], next);
      BredStep(breed, P, ts, children, next, r.value, i, j);
    }
  }

  /** A generation that has not finished yet runs its first pass and goes on
      from that pass's children. */
  lemma GenerationUnfolds(breed: Breeder, P: seq<seq<int>>, F: seq<real>, total: real,
                          ts: seq<Attempt>, children: seq<seq<int>>) returns (next: seq<seq<int>>)
    requires |F| == |P| && |children| < |P| && ts != []
    requires Generation(breed, P, F, total, ts, children).Ok?
    ensures Pass(breed, P, F, total, ts[0], children) == Ok(next)
    ensures Generation(breed, P, F, total, ts, children) == Generation(breed, P, F, total, ts[1..], next)
  {
    next := Pass(breed, P, F, total, ts[0], children).value;
  }

  /** One step of `GenerationBred`: the pair the first pass adds (if any)
      heads the rest, and the pairs of the later passes were bred by one of
      all the passes. */
  lemma BredStep(breed: Breeder, P: seq<seq<int>>, ts: seq<Attempt>, children: seq<seq<int>>,
                 next: seq<seq<int>>, r: seq<seq<int>>, i: nat, j: nat)
    requires ts != [] && |children| % 2 == 0
    requires || next == children
             || (&& i < |P| && j < |P| && i != j && breed(P[i], P[j], ts[0]).Ok?
                 && next == children + [breed(P[i], P[j], ts[0]).value.0, breed(P[i], P[j], ts[0]).value.1])
    requires |next| <= |r| && r[..|next|] == next
    requires forall m :: |next| <= 2 * m && 2 * m + 1 < |r| ==> Bred(breed, P, ts[1..], r[2 * m], r[2 * m + 1])
    ensures forall m :: |children| <= 2 * m && 2 * m + 1 < |r| ==> Bred(breed, P, ts, r[2 * m], r[2 * m + 1])
  {
    forall m | |children| <= 2 * m && 2 * m + 1 < |r|
      ensures Bred(breed, P, ts, r[2 * m], r[2 * m + 1])
    {
      if 2 * m < |next| {
        BredHead(breed, P, ts[0], children, next, r, i, j);
      } else {
        assert Bred(breed, P, ts[1..], r[2 * m], r[2 * m + 1]);
      }
    }
  }

  /** The pair the first pass adds was bred by that pass. */
  lemma BredHead(breed: Breeder, P: seq<seq<int>>, a: Attempt, children: seq<seq<int>>,
                 next: seq<seq<int>>, r: seq<seq<int>>, i: nat, j: nat)
    requires i < |P| && j < |P| && i != j && breed(P[i], P[j], a).Ok?
    requires next == children + [breed(P[i], P[j], a).value.0, breed(P[i], P[j], a).value.1]
    requires |next| <= |r| && r[..|next|] == next
    ensures BredBy(breed, P, a, r[|children|], r[|children| + 1])
  {
    var o := breed(P[i], P[j], a).value;
    assert r[|children|] == next[|children|] == o.0 && r[|children| + 1] == next[|children| + 1] == o.1;
    assert breed(P[i], P[j], a) == Ok((o.0, o.1));
  }

  /** A generation only ever appends to the children it starts from. */
  lemma {:induction false} GenerationKeeps(breed: Breeder, P: seq<seq<int>>, F: seq<real>, total: real,
                                           ts: seq<Attempt>, children: seq<seq<int>>)
    requires |F| == |P|
    ensures var r := Generation(breed, P, F, total, ts, children);
      r.Ok? ==> |children| <= |r.value| && r.value[..|children|] == children
    decreases |ts|
  {
    var r := Generation(breed, P, F, total, ts, children);
    if |children| < |P| && ts != [] && r.Ok? {
      var next := Pass(breed, P, F, total, ts[0], children).value;
      var i, j := PassMeaning(breed, P, F, total, ts[0], children);
      GenerationKeeps(breed, P, F, total, ts[1..], next);
      assert r.value[..|children|] == r.value[..|next|][..|children|];
      assert next[..|children|] == children;
    } else if r.Ok? {
      assert r.value[..|children|] == children;
    }
  }

  /** A population of one chromosome never completes a generation: both
      roulette picks always name that chromosome, so every pass is skipped. */
  lemma {:induction false} LoneChromosomeNeverBreeds(breed: Breeder, P: seq<seq<int>>, F: seq<real>, total: real, ts: seq<Attempt>)
    requires |F| == |P| == 1
    ensures Generation(breed, P, F, total, ts, []).Err?
    decreases |ts|
  {
    if ts != [] {
      LoneChromosomeNeverBreeds(breed, P, F, total, ts[1..]);
    }
  }

  /** With a total fitness of zero every roulette bound is zero, so both picks
      are the first chromosome and every pass is skipped: a generation still
      short of children never finishes, however many passes it is given. */
  lemma {:induction false} ZeroTotalNeverBreeds(breed: Breeder, P: seq<seq<int>>, F: seq<real>,
                                                ts: seq<Attempt>, children: seq<seq<int>>)
    requires |F| == |P| && |P| > 0 && F[0] >= 0.0 && |children| < |P|
    ensures Generation(breed, P, F, 0.0, ts, children).Err?
    decreases |ts|
  {
    if ts != [] {
      var a := ts[0];
      if 0.0 <= a.pick1 < 1.0 && 0.0 <= a.pick2 < 1.0 {
        assert Bound(a.pick1, 0.0) == 0.0 && Bound(a.pick2, 0.0) == 0.0;
        ZeroBoundPicksFirst(F);
        assert Pass(breed, P, F, 0.0, a, children) == Ok(children);
      }
      ZeroTotalNeverBreeds(breed, P, F, ts[1..], children);
    }
  }

  /** The layouts of a list of chromosomes. */
  function IDsOf(ls: seq<LayoutChromosome>): (r: seq<seq<int>>)
    reads ls
    ensures |r| == |ls| && forall k :: 0 <= k < |ls| ==> r[k] == ls[k].personIDs
  {
    seq(|ls|, k requires 0 <= k < |ls| reads ls => ls[k].personIDs)
  }

  /** The scoring loop of `EvaluateCurrentPopulation` over the chromosomes
      ls, starting from the running maximum m, minimum lo and fittest
      chromosome: it stores fitnesses[k] in chromosome k until a negative
      score stops it at k, and returns k, the running statistics, and the
      fittest chromosome. */
  method ScoreLayouts(ls: seq<LayoutChromosome>, fitnesses: seq<real>, m: real, lo: real, fittest: LayoutChromosome?)
    returns (k: nat, stats: Running, best: LayoutChromosome?)
    requires NoDuplicates(ls) && |fitnesses| == |ls|
    modifies ls`fitness
    ensures k == Accepted(fitnesses) && stats == Tally(m, lo, fitnesses, k)
    ensures best == if stats.best.Some? then ls[stats.best.value] else fittest
    ensures forall j :: 0 <= j < |ls| ==> ls[j].personIDs == old(ls[j].personIDs)
    ensures forall j :: 0 <= j < |ls| ==> ls[j].fitness == if j < k then fitnesses[j] else old(ls[j].fitness)
  {
    stats, best := Running(0.0, m, lo, None), fittest;
    k := 0;
    while k < |ls|
      invariant 0 <= k <= |ls|
      invariant forall j :: 0 <= j < k ==> fitnesses[j] >= 0.0
      invariant stats == Tally(m, lo, fitnesses, k)
      invariant best == if stats.best.Some? then ls[stats.best.value] else fittest
      invariant forall j :: 0 <= j < |ls| ==> ls[j].fitness == if j < k then fitnesses[j] else old(ls[j].fitness)
    {
      var fitness := fitnesses[k];
      var stored := ls[k].SetFitness(fitness);
      if stored.Err? {
        assert Accepted(fitnesses) == k;
        return;
      }
      var total := stats.total + fitness;
      var highest, lowest, bestAt := stats.max, stats.min, stats.best;
      if fitness > highest {
        highest := fitness;
        best := ls[k];
        bestAt := Some(k);
      }
      lowest := if fitness <= lowest then fitness else lowest;
      stats := Running(total, highest, lowest, bestAt);
      k := k + 1;
    }
    assert Accepted(fitnesses) == |fitnesses|;
  }

  /** A new chromosome seated by `InitialiseFromRawInputs`, its fitness unset. */
  method NewLayout(ids: seq<int>) returns (c: LayoutChromosome)
    ensures fresh(c) && c.personIDs == ids && c.fitness == -1.0
  {
    c := new LayoutChromosome();
    c.InitialiseFromRawInputs(ids);
  }

  /** Appending a chromosome appends its layout. */
  lemma IDsOfAppend(ls: seq<LayoutChromosome>, x: LayoutChromosome)
    ensures IDsOf(ls + [x]) == IDsOf(ls) + [x.personIDs]
  {
  }

  /** Appending two chromosomes appends their layouts. */
  lemma IDsOfPush(ls: seq<LayoutChromosome>, x: LayoutChromosome, y: LayoutChromosome)
    ensures IDsOf(ls + [x, y]) == IDsOf(ls) + [x.personIDs, y.personIDs]
  {
  }

  /** The fitness values of a list of chromosomes. */
  function FitnessesOf(ls: seq<LayoutChromosome>): (r: seq<real>)
    reads ls
    ensures |r| == |ls| && forall k :: 0 <= k < |ls| ==> r[k] == ls[k].fitness
  {
    seq(|ls|, k requires 0 <= k < |ls| reads ls => ls[k].fitness)
  }

  /** Lines 38-42 of the generation loop: cross the parents over and repair
      each child. Neither parent is modified. */
  method CrossAndRepair(w: World, kind: CrossoverType, parent1: LayoutChromosome, parent2: LayoutChromosome, a: Attempt)
    returns (r: Result<(LayoutChromosome, LayoutChromosome)>)
    requires Parent(w, parent1.personIDs) && Parent(w, parent2.personIDs)
    ensures parent1.personIDs == old(parent1.personIDs) && parent2.personIDs == old(parent2.personIDs)
    ensures var o := CrossedAndRepaired(w, kind, old(parent1.personIDs), old(parent2.personIDs), a);
      && (o.Err? ==> r == Err(o.error))
      && (o.Ok? ==>
            && r.Ok? && fresh(r.value.0) && fresh(r.value.1) && r.value.0 != r.value.1
            && r.value.0.personIDs == o.value.0 && r.value.1.personIDs == o.value.1
            && r.value.0.fitness == -1.0 && r.value.1.fitness == -1.0)
  {
    var p1, p2 := parent1.personIDs, parent2.personIDs;
    var n, E := |p1|, |w.employees|;
    if |p2| < n {
      return Err(IndexOutOfRange);
    }
    if CanDraw(kind, n) && !DrawsFit(kind, n, a.crossover) {
      return Err(DrawOutOfRange);
    }
    var offspring := parent1.CrossoverWith(parent2, kind, a.crossover);
    if offspring.Err? {
      return Err(offspring.error);
    }
    var child1, child2 := offspring.value.0, offspring.value.1;
    OffspringBelow(kind, a.crossover, p1, p2, E);
    if !ValidChoices(a.repair1, |UnusedOf(child1.personIDs, E)|) || !ValidChoices(a.repair2, |UnusedOf(child2.personIDs, E)|) {
      return Err(DrawOutOfRange);
    }
    child1.SwapOutDuplicates(w, a.repair1);
    child2.SwapOutDuplicates(w, a.repair2);
    r := Ok((child1, child2));
  }

  /** Lines 38-45 of the generation loop: cross over and repair, then mutate
      each child. Neither parent is modified. */
  method Breed(w: World, c: MutationConfig, kind: CrossoverType, ghost breed: Breeder,
               parent1: LayoutChromosome, parent2: LayoutChromosome, a: Attempt)
    returns (r: Result<(LayoutChromosome, LayoutChromosome)>)
    requires Realises(w, c, kind, breed) && Parent(w, parent1.personIDs) && Parent(w, parent2.personIDs)
    ensures parent1.personIDs == old(parent1.personIDs) && parent2.personIDs == old(parent2.personIDs)
    ensures var o := breed(old(parent1.personIDs), old(parent2.personIDs), a);
      && (o.Err? ==> r == Err(o.error))
      && (o.Ok? ==>
            && r.Ok? && fresh(r.value.0) && fresh(r.value.1) && r.value.0 != r.value.1
            && r.value.0.personIDs == o.value.0 && r.value.1.personIDs == o.value.1
            && r.value.0.fitness == -1.0 && r.value.1.fitness == -1.0)
  {
    var n, D := |parent1.personIDs|, |w.desks|;
    ghost var p1, p2 := parent1.personIDs, parent2.personIDs;
    ghost var o := Offspring(w, c, kind, p1, p2, a);
    assert breed(p1, p2, a) == o;
    var repaired := CrossAndRepair(w, kind, parent1, parent2, a);
    if repaired.Err? {
      return Err(repaired.error);
    }
    var child1, child2 := repaired.value.0, repaired.value.1;
    ghost var r1, r2 := child1.personIDs, child2.personIDs;
    assert CrossedAndRepaired(w, kind, p1, p2, a) == Ok((r1, r2));
    if !MutationDrawsFit(c, n, D, a.mutation1) || !MutationDrawsFit(c, n, D, a.mutation2) {
      return Err(DrawOutOfRange);
    }
    var m1 := child1.Mutate(w, c, a.mutation1);
    if m1.Err? {
      return Err(m1.error);
    }
    var m2 := child2.Mutate(w, c, a.mutation2);
    if m2.Err? {
      return Err(m2.error);
    }
    assert o == Ok((child1.personIDs, child2.personIDs));
    r := Ok((child1, child2));
  }

  /** The first loop of `CreateHistoricallySimilarPopulation`: every listed
      employee the target layout does not seat. */
  method UnaccountedFor(allEmployees: seq<int>, rawLayout: seq<int>) returns (unaccounted: seq<int>)
    ensures unaccounted == Unaccounted(allEmployees, rawLayout)
  {
    unaccounted := [];
    for k := 0 to |allEmployees|
      invariant unaccounted == Unaccounted(allEmployees[..k], rawLayout)
    {
      assert allEmployees[..k + 1][..k] == allEmployees[..k];
      if allEmployees[k] !in rawLayout {
        unaccounted := unaccounted + [allEmployees[k]];
      }
    }
    assert allEmployees[..|allEmployees|] == allEmployees;
  }

  /** The inner loop of `CreateHistoricallySimilarPopulation`: a copy of the
      target whose vacant (-1) slots take the unaccounted-for employees in
      order. Running out of them indexes past the end of their list. */
  method FillVacancies(target: seq<int>, unaccounted: seq<int>) returns (r: Result<seq<int>>)
    ensures Holes(target) > |unaccounted| <==> r == Err(IndexOutOfRange)
    ensures r.Err? ==> r.error == IndexOutOfRange
    ensures r.Ok? ==> Holes(target) <= |unaccounted| && r.value == Filled(target, unaccounted)
  {
    var filledInHistoricLayout := target;
    var newPeopleIndex := 0;
    for j := 0 to |filledInHistoricLayout|
      invariant |filledInHistoricLayout| == |target|
      invariant newPeopleIndex == Holes(target[..j]) <= |unaccounted|
      invariant filledInHistoricLayout[j..] == target[j..]
      invariant forall i :: 0 <= i < j ==>
        if target[i] != -1 then filledInHistoricLayout[i] == target[i]
        else Holes(target[..i]) < newPeopleIndex && filledInHistoricLayout[i] == unaccounted[Holes(target[..i])]
    {
      HolesStep(target, j);
      if filledInHistoricLayout[j] != -1 {
        continue;
      }
      if newPeopleIndex >= |unaccounted| {
        HolesMonotone(target, j, |target|);
        assert target[..|target|] == target;
        return Err(IndexOutOfRange);
      }
      filledInHistoricLayout := filledInHistoricLayout[j := unaccounted[newPeopleIndex]];
      newPeopleIndex := newPeopleIndex + 1;
    }
    assert target[..|target|] == target;
    assert filledInHistoricLayout == Filled(target, unaccounted);
    r := Ok(filledInHistoricLayout);
  }

  // ---------------------------------------------------------------------
  // The population.

  class LayoutPopulation {
    var layouts: seq<LayoutChromosome>
    /** The chromosome that last raised `maxFitness`; null until then. */
    var fittest: LayoutChromosome?
    var maxFitness: real
    var minFitness: real
    /** None stands for the NaN of 0 / 0 over an empty population. */
    var averageFitness: Option<real>
    var totalFitness: real
    var totalChromosomes: int

    /** No chromosome object is held twice. */
    ghost predicate Valid()
      reads this
    {
      NoDuplicates(layouts)
    }

    /** A new population: no layouts, and the field initialisers'
        statistics. */
    constructor ()
      ensures Valid() && layouts == [] && fittest == null
      ensures maxFitness == DoubleMin && minFitness == DoubleMax
      ensures averageFitness == Some(0.0) && totalFitness == 0.0 && totalChromosomes == 0
    {
      layouts := [];
      fittest := null;
      maxFitness := DoubleMin;
      minFitness := DoubleMax;
      averageFitness := Some(0.0);
      totalFitness := 0.0;
      totalChromosomes := 0;
    }

    /** The two `AddChromosome` calls that store a pass's children, which are
        distinct and new. */
    method AddPair(child1: LayoutChromosome, child2: LayoutChromosome)
      requires Valid() && child1 != child2 && child1 !in layouts && child2 !in layouts
      modifies this`layouts
      ensures Valid() && layouts == old(layouts) + [child1, child2]
      ensures IDsOf(layouts) == old(IDsOf(layouts)) + [child1.personIDs, child2.personIDs]
    {
      ghost var before := layouts;
      AddChromosome(child1);
      AddChromosome(child2);
      assert layouts == before + [child1, child2];
      IDsOfPush(before, child1, child2);
    }

    /** `AddChromosome` appends; a chromosome not yet held keeps `Valid`. */
    method AddChromosome(chromosome: LayoutChromosome)
      modifies this`layouts
      ensures layouts == old(layouts) + [chromosome]
      ensures old(Valid()) && chromosome !in old(layouts) ==> Valid()
    {
      if Valid() && chromosome !in layouts {
        NoDuplicatesAppend(layouts, chromosome);
      }
      layouts := layouts + [chromosome];
    }

    /** `EvaluateCurrentPopulation`, with `fitnesses[k]` the evaluator's score
        of chromosome k. Each score is stored in its chromosome and added to
        the total; a score strictly above the running maximum raises it and
        makes its chromosome the fittest; the running minimum follows
        `Math.Min`; the average is the total over the count. A negative score
        makes `SetFitness` throw, leaving the chromosomes before it scored
        and the statistics as far as they got. */
    method EvaluateCurrentPopulation(fitnesses: seq<real>) returns (r: Result<()>)
      requires Valid() && |fitnesses| == |layouts|
      modifies this, layouts`fitness
      ensures layouts == old(layouts) && Valid()
      ensures var k := Accepted(fitnesses);
        && (r.Ok? <==> k == |fitnesses|) && (r.Err? ==> r.error == NegativeFitness)
        && totalChromosomes == |layouts|
        && var s := Tally(old(maxFitness), old(minFitness), fitnesses, k);
        && totalFitness == s.total && maxFitness == s.max && minFitness == s.min
        && fittest == (if s.best.Some? then layouts[s.best.value] else old(fittest))
        && (forall j :: 0 <= j < |layouts| ==> layouts[j].personIDs == old(layouts[j].personIDs))
        && (forall j :: 0 <= j < |layouts| ==> layouts[j].fitness == if j < k then fitnesses[j] else old(layouts[j].fitness))
        && averageFitness == (if r.Err? then old(averageFitness)
                              else if |layouts| == 0 then None
                              else Some(totalFitness / |layouts| as real))
    {
      totalChromosomes := |layouts|;
      var k, stats, best := ScoreLayouts(layouts, fitnesses, maxFitness, minFitness, fittest);
      totalFitness, maxFitness, minFitness, fittest := stats.total, stats.max, stats.min, best;
      if k < |layouts| {
        return Err(NegativeFitness);
      }
      averageFitness := if totalChromosomes == 0 then None else Some(totalFitness / totalChromosomes as real);
      r := Ok(());
    }

    /** `GetWeightedOffspring` with `NextDouble()` drawn as u: the roulette's
        choice among the layouts, or its error. */
    method GetWeightedOffspring(u: real) returns (r: Result<LayoutChromosome>)
      requires 0.0 <= u < 1.0
      ensures var p := Pick(Bound(u, totalFitness), FitnessesOf(layouts), 0);
        && (p.Err? ==> r == Err(p.error))
        && (p.Ok? ==> r == Ok(layouts[p.value]))
    {
      ghost var F := FitnessesOf(layouts);
      var fitnessBound := Bound(u, totalFitness);
      for k := 0 to |layouts|
        invariant Pick(fitnessBound, F, k) == Pick(Bound(u, totalFitness), F, 0)
      {
        var f := layouts[k].GetFitness();
        if f.Err? {
          return Err(f.error);
        }
        fitnessBound := fitnessBound - f.value;
        if fitnessBound <= 0.0 {
          return Ok(layouts[k]);
        }
      }
      if |layouts| == 0 {
        return Err(IndexOutOfRange);
      }
      return Ok(layouts[|layouts| - 1]);
    }

    /** The two `GetWeightedOffspring` calls of a pass, with the draws a; the
        same chromosome twice exactly when both draws pick the same index. */
    method ChooseParents(a: Attempt) returns (r: Result<(LayoutChromosome, LayoutChromosome)>)
      requires Valid()
      ensures !(0.0 <= a.pick1 < 1.0 && 0.0 <= a.pick2 < 1.0) ==> r == Err(DrawOutOfRange)
      ensures 0.0 <= a.pick1 < 1.0 && 0.0 <= a.pick2 < 1.0 ==>
        var p1 := Pick(Bound(a.pick1, totalFitness), FitnessesOf(layouts), 0);
        var p2 := Pick(Bound(a.pick2, totalFitness), FitnessesOf(layouts), 0);
        && (p1.Err? ==> r == Err(p1.error))
        && (p1.Ok? && p2.Err? ==> r == Err(p2.error))
        && (p1.Ok? && p2.Ok? ==>
              && r == Ok((layouts[p1.value], layouts[p2.value]))
              && (r.value.0 == r.value.1 <==> p1.value == p2.value))
    {
      if !(0.0 <= a.pick1 < 1.0 && 0.0 <= a.pick2 < 1.0) {
        return Err(DrawOutOfRange);
      }
      var parent1 := GetWeightedOffspring(a.pick1);
      if parent1.Err? {
        return Err(parent1.error);
      }
      var parent2 := GetWeightedOffspring(a.pick2);
      if parent2.Err? {
        return Err(parent2.error);
      }
      r := Ok((parent1.value, parent2.value));
    }

    /** One pass of the generation loop (lines 31-50) with the draws a: two
        roulette picks; the same chromosome twice adds nothing; otherwise
        its two bred children are added to the new population. The result
        says whether children were added. */
    method RunPass(w: World, c: MutationConfig, kind: CrossoverType, ghost breed: Breeder, a: Attempt,
                   newPopulation: LayoutPopulation)
      returns (r: Result<bool>)
      requires Valid() && Realises(w, c, kind, breed) && Breedable(w, IDsOf(layouts))
      requires newPopulation.Valid() && newPopulation != this
      modifies newPopulation`layouts
      ensures var p := Pass(breed, old(IDsOf(layouts)), old(FitnessesOf(layouts)), old(totalFitness), a,
                            old(IDsOf(newPopulation.layouts)));
        && (p.Err? ==> r == Err(p.error))
        && (p.Ok? ==> r.Ok? && IDsOf(newPopulation.layouts) == p.value)
      ensures newPopulation.Valid()
      ensures r == Ok(true) ==> |newPopulation.layouts| == |old(newPopulation.layouts)| + 2
      ensures r != Ok(true) ==> newPopulation.layouts == old(newPopulation.layouts)
      ensures newPopulation.layouts[..|old(newPopulation.layouts)|] == old(newPopulation.layouts)
      ensures forall k :: |old(newPopulation.layouts)| <= k < |newPopulation.layouts| ==>
        fresh(newPopulation.layouts[k]) && newPopulation.layouts[k].fitness == -1.0
    {
      ghost var P, F := IDsOf(layouts), FitnessesOf(layouts);
      ghost var children := IDsOf(newPopulation.layouts);
      var parents := ChooseParents(a);
      if parents.Err? {
        return Err(parents.error);
      }
      var parent1, parent2 := parents.value.0, parents.value.1;
      if parent1 == parent2 {
        return Ok(false);
      }
      var offspring := Breed(w, c, kind, breed, parent1, parent2, a);
      if offspring.Err? {
        return Err(offspring.error);
      }
      newPopulation.AddPair(offspring.value.0, offspring.value.1);
      r := Ok(true);
    }

    /** One round of `CreateRandomPopulation`: shuffle the employee list in
        place with the draws js, then seat its first 146 entries in a new
        chromosome appended to the population, which is returned. */
    method RandomRound(allEmployees: array<int>, js: seq<int>) returns (r: Result<LayoutChromosome>)
      requires Valid() && ValidChoices(js, allEmployees.Length)
      modifies this`layouts, allEmployees
      ensures Valid() && allEmployees[..] == Shuffled(old(allEmployees[..]), js)
      ensures allEmployees.Length < Desks.TotalDesks <==> r.Err?
      ensures r.Err? ==> r.error == IndexOutOfRange && layouts == old(layouts)
      ensures r.Ok? ==>
        && layouts == old(layouts) + [r.value]
        && fresh(r.value) && r.value.fitness == -1.0
        && IDsOf(layouts) == old(IDsOf(layouts)) + [allEmployees[..Desks.TotalDesks]]
    {
      YatesShuffle(allEmployees, js);
      if allEmployees.Length < Desks.TotalDesks {
        return Err(IndexOutOfRange);
      }
      var layout := NewLayout(allEmployees[..Desks.TotalDesks]);
      ghost var before := layouts;
      AddChromosome(layout);
      IDsOfAppend(before, layout);
      r := Ok(layout);
    }

    /** `CreateRandomPopulation`: each of the populationSize rounds reshuffles
        the shared employee list in place (with `shuffles[k]` as the draws of
        round k) and seats its first 146 entries in a new chromosome. A list
        shorter than that makes `GetRange` throw after the first shuffle. */
    method CreateRandomPopulation(allEmployees: array<int>, populationSize: int, shuffles: seq<seq<int>>)
      returns (r: Result<()>)
      requires Valid() && RoundsFit(shuffles, allEmployees.Length) && populationSize <= |shuffles|
      modifies this`layouts, allEmployees
      ensures Valid() && |old(layouts)| <= |layouts| && layouts[..|old(layouts)|] == old(layouts)
      ensures forall k :: |old(layouts)| <= k < |layouts| ==> fresh(layouts[k]) && layouts[k].fitness == -1.0
      ensures populationSize <= 0 ==> r == Ok(()) && layouts == old(layouts) && allEmployees[..] == old(allEmployees[..])
      ensures populationSize > 0 && allEmployees.Length < Desks.TotalDesks ==>
        r == Err(IndexOutOfRange) && layouts == old(layouts) && allEmployees[..] == Rounds(old(allEmployees[..]), shuffles, 1)
      ensures populationSize > 0 && allEmployees.Length >= Desks.TotalDesks ==>
        && r == Ok(())
        && allEmployees[..] == Rounds(old(allEmployees[..]), shuffles, populationSize)
        && IDsOf(layouts) == old(IDsOf(layouts)) + RandomLayouts(old(allEmployees[..]), shuffles, populationSize)
    {
      ghost var start, before, beforeIDs := allEmployees[..], layouts, IDsOf(layouts);
      ghost var added: seq<LayoutChromosome> := [];
      for i := 0 to Max(populationSize, 0)
        invariant allEmployees[..] == Rounds(start, shuffles, i)
        invariant i > 0 ==> allEmployees.Length >= Desks.TotalDesks
        invariant Valid() && layouts == before + added && |added| == i
        invariant forall k :: 0 <= k < |added| ==> fresh(added[k])
        invariant forall k :: 0 <= k < |added| ==> added[k].fitness == -1.0
        invariant i > 0 ==> IDsOf(layouts) == beforeIDs + RandomLayouts(start, shuffles, i)
      {
        var round := RandomRound(allEmployees, shuffles[i]);
        if round.Err? {
          return Err(round.error);
        }
        added := added + [round.value];
      }
      assert layouts[..|before|] == before;
      r := Ok(());
    }

    /** One round of `CreateHistoricallySimilarPopulation`: shuffle the
        unaccounted-for list in place with the draws js, fill the target's
        vacancies from it, and append the filled layout as a new chromosome,
        which is returned. */
    method HistoricRound(target: seq<int>, list: array<int>, js: seq<int>) returns (r: Result<LayoutChromosome>)
      requires Valid() && ValidChoices(js, list.Length)
      modifies this`layouts, list
      ensures Valid() && list[..] == Shuffled(old(list[..]), js)
      ensures Holes(target) > list.Length <==> r.Err?
      ensures r.Err? ==> r.error == IndexOutOfRange && layouts == old(layouts)
      ensures r.Ok? ==>
        && Holes(target) <= list.Length
        && layouts == old(layouts) + [r.value]
        && fresh(r.value) && r.value.fitness == -1.0
        && IDsOf(layouts) == old(IDsOf(layouts)) + [Filled(target, list[..])]
    {
      YatesShuffle(list, js);
      var filledInHistoricLayout := FillVacancies(target, list[..]);
      if filledInHistoricLayout.Err? {
        return Err(IndexOutOfRange);
      }
      var layout := NewLayout(filledInHistoricLayout.value);
      ghost var before := layouts;
      AddChromosome(layout);
      IDsOfAppend(before, layout);
      r := Ok(layout);
    }

    /** The rounds loop of `CreateHistoricallySimilarPopulation`, on the
        unaccounted-for employees held in `list`. */
    method HistoricRounds(target: seq<int>, list: array<int>, populationSize: int, shuffles: seq<seq<int>>)
      returns (r: Result<()>)
      requires Valid() && RoundsFit(shuffles, list.Length) && populationSize <= |shuffles|
      modifies this`layouts, list
      ensures Valid() && |old(layouts)| <= |layouts| && layouts[..|old(layouts)|] == old(layouts)
      ensures forall k :: |old(layouts)| <= k < |layouts| ==> fresh(layouts[k]) && layouts[k].fitness == -1.0
      ensures populationSize > 0 && Holes(target) > list.Length <==> r == Err(IndexOutOfRange)
      ensures r.Err? || populationSize <= 0 ==> layouts == old(layouts)
      ensures r.Ok? && populationSize > 0 ==>
        && Holes(target) <= list.Length
        && IDsOf(layouts) == old(IDsOf(layouts)) + HistoricLayouts(target, old(list[..]), shuffles, populationSize)
    {
      ghost var start, before, beforeIDs := list[..], layouts, IDsOf(layouts);
      ghost var added: seq<LayoutChromosome> := [];
      for i := 0 to Max(populationSize, 0)
        invariant list[..] == Rounds(start, shuffles, i)
        invariant Valid() && layouts == before + added && |added| == i
        invariant forall k :: 0 <= k < |added| ==> fresh(added[k])
        invariant forall k :: 0 <= k < |added| ==> added[k].fitness == -1.0
        invariant i > 0 ==> Holes(target) <= list.Length
        invariant i > 0 ==> IDsOf(layouts) == beforeIDs + HistoricLayouts(target, start, shuffles, i)
      {
        ghost var prevIDs := IDsOf(layouts);
        var round := HistoricRound(target, list, shuffles[i]);
        if round.Err? {
          return Err(round.error);
        }
        added := added + [round.value];
        assert list[..] == Rounds(start, shuffles, i + 1);
        assert i == 0 ==> prevIDs == beforeIDs;
        assert HistoricLayouts(target, start, shuffles, i + 1) ==
          HistoricLayouts(target, start, shuffles, i) + [Filled(target, list[..])];
      }
      assert layouts[..|before|] == before;
      r := Ok(());
    }

    /** `CreateHistoricallySimilarPopulation` against the target layout
        `target` (-1 marks a vacant desk): the employees the target does not
        seat are collected once; each round reshuffles that list in place and
        fills the target's vacancies with it in order. More vacancies than
        unaccounted-for employees make the fill index past the list. */
    method CreateHistoricallySimilarPopulation(allEmployees: seq<int>, target: seq<int>, populationSize: int, shuffles: seq<seq<int>>)
      returns (r: Result<()>)
      requires Valid() && RoundsFit(shuffles, |Unaccounted(allEmployees, target)|) && populationSize <= |shuffles|
      modifies this`layouts
      ensures Valid() && |old(layouts)| <= |layouts| && layouts[..|old(layouts)|] == old(layouts)
      ensures forall k :: |old(layouts)| <= k < |layouts| ==> fresh(layouts[k]) && layouts[k].fitness == -1.0
      ensures var u := Unaccounted(allEmployees, target);
        && (populationSize > 0 && Holes(target) > |u| <==> r == Err(IndexOutOfRange))
        && (r.Err? || populationSize <= 0 ==> layouts == old(layouts))
        && (r.Ok? && populationSize > 0 ==>
              && Holes(target) <= |u|
              && IDsOf(layouts) == old(IDsOf(layouts)) + HistoricLayouts(target, u, shuffles, populationSize))
    {
      var unaccounted := UnaccountedFor(allEmployees, target);
      var list := LayoutChromosome.ToArray(unaccounted);
      r := HistoricRounds(target, list, populationSize, shuffles);
    }

    /** `GetNextGeneration`, running the passes `attempts` until the new
        population holds at least as many chromosomes as this one. The new
        population and every child are fresh; this population is not
        modified. Running out of attempts is `OutOfDraws`. */
    method GetNextGeneration(w: World, c: MutationConfig, kind: CrossoverType, ghost breed: Breeder, attempts: seq<Attempt>)
      returns (r: Result<LayoutPopulation>)
      requires Valid() && Realises(w, c, kind, breed) && Breedable(w, IDsOf(layouts))
      ensures var G := Generation(breed, IDsOf(layouts), FitnessesOf(layouts), totalFitness, attempts, []);
        && (G.Err? ==> r == Err(G.error))
        && (G.Ok? ==>
              && r.Ok? && fresh(r.value) && r.value.Valid()
              && IDsOf(r.value.layouts) == G.value
              && (forall k :: 0 <= k < |r.value.layouts| ==> fresh(r.value.layouts[k]) && r.value.layouts[k].fitness == -1.0))
    {
      ghost var P, F := IDsOf(layouts), FitnessesOf(layouts);
      var legalOffspringAdded := 0;
      var newPopulation := new LayoutPopulation();
      var t := 0;
      while legalOffspringAdded < |layouts|
        invariant 0 <= t <= |attempts|
        invariant fresh(newPopulation) && newPopulation.Valid()
        invariant legalOffspringAdded == |newPopulation.layouts|
        invariant forall k :: 0 <= k < |newPopulation.layouts| ==>
          fresh(newPopulation.layouts[k]) && newPopulation.layouts[k].fitness == -1.0
        invariant Generation(breed, P, F, totalFitness, attempts[t..], IDsOf(newPopulation.layouts))
          == Generation(breed, P, F, totalFitness, attempts, [])
        decreases |attempts| - t
      {
        if t == |attempts| {
          return Err(OutOfDraws);
        }
        ghost var children := IDsOf(newPopulation.layouts);
        assert attempts[t..][1..] == attempts[t + 1..];
        var added := RunPass(w, c, kind, breed, attempts[t], newPopulation);
        t := t + 1;
        if added.Err? {
          return Err(added.error);
        }
        if added.value {
          legalOffspringAdded := legalOffspringAdded + 2;
        }
      }
      return Ok(newPopulation);
    }
  }
}
