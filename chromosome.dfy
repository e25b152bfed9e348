/** A layout chromosome: the list of person indices in desk order, its fitness,
    and the genetic operators on it (crossover, mutation, duplicate repair).

    Every call into `Random` is a parameter: the crossover's and the
    mutation's draws arrive as values, each constrained to the range the
    corresponding `Next` call can return. */
module Chromosome {
  import opened Common
  import opened Rng
  import opened Evaluator

  /** `CrossoverType`: which slots a child takes from the other parent. */
  datatype CrossoverType = LeftRight | CentreChunk | RandomMerge | Clone

  /** The values the crossover draws: the split point (LeftRight), the chunk
      bounds (CentreChunk) and one coin per slot (RandomMerge, true when
      `Next(2) == 0`). */
  datatype CrossoverDraws = CrossoverDraws(middle: int, first: int, second: int, coins: seq<bool>)

  /** The crossover's `Next` calls have non-reversed ranges for n slots:
      LeftRight calls Next(1, n - 1) and CentreChunk Next(1, n - 2). */
  predicate CanDraw(kind: CrossoverType, n: int) {
    match kind
    case LeftRight => n >= 2
    case CentreChunk => n >= 3
    case _ => true
  }

  /** The draws are values those `Next` calls can return for n slots. */
  predicate DrawsFit(kind: CrossoverType, n: int, d: CrossoverDraws) {
    match kind
    case LeftRight => InRange(d.middle, 1, n - 1)
    case CentreChunk => InRange(d.first, 1, n - 2) && InRange(d.second, d.first + 1, n - 1)
    case RandomMerge => |d.coins| >= n
    case Clone => true
  }

  /** The swap condition: slot i of child 1 comes from the partner. */
  predicate TakesPartner(kind: CrossoverType, d: CrossoverDraws, i: int)
    requires kind.RandomMerge? ==> 0 <= i < |d.coins|
  {
    match kind
    case LeftRight => i >= d.middle
    case CentreChunk => d.first <= i < d.second
    case RandomMerge => d.coins[i]
    case Clone => true
  }

  predicate Crossable(kind: CrossoverType, d: CrossoverDraws, p1: seq<int>, p2: seq<int>) {
    |p2| >= |p1| && (kind.RandomMerge? ==> |d.coins| >= |p1|)
  }

  /** The first child: for each slot of parent 1, the partner's entry where
      the swap condition holds, its own otherwise. */
  function Child1(kind: CrossoverType, d: CrossoverDraws, p1: seq<int>, p2: seq<int>): (c: seq<int>)
    requires Crossable(kind, d, p1, p2)
    ensures |c| == |p1|
  {
    seq(|p1|, i requires 0 <= i < |p1| => if TakesPartner(kind, d, i) then p2[i] else p1[i])
  }

  /** The second child takes the other entry of every slot. */
  function Child2(kind: CrossoverType, d: CrossoverDraws, p1: seq<int>, p2: seq<int>): (c: seq<int>)
    requires Crossable(kind, d, p1, p2)
    ensures |c| == |p1|
  {
    seq(|p1|, i requires 0 <= i < |p1| => if TakesPartner(kind, d, i) then p1[i] else p2[i])
  }

  /** Each slot of the children holds the two parents' entries of that slot,
      one each. */
  lemma OffspringSlotwise(kind: CrossoverType, d: CrossoverDraws, p1: seq<int>, p2: seq<int>, i: int)
    requires Crossable(kind, d, p1, p2) && 0 <= i < |p1|
    ensures multiset{Child1(kind, d, p1, p2)[i], Child2(kind, d, p1, p2)[i]} == multiset{p1[i], p2[i]}
    ensures Child1(kind, d, p1, p2)[i] == p1[i] || Child1(kind, d, p1, p2)[i] == p2[i]
  {
  }

  /** Together the children hold exactly the parents' entries over parent 1's
      length: crossover loses and invents nobody. */
  lemma {:induction false} OffspringConservesUpTo(kind: CrossoverType, d: CrossoverDraws, p1: seq<int>, p2: seq<int>, k: int)
    requires Crossable(kind, d, p1, p2) && 0 <= k <= |p1|
    ensures multiset(Child1(kind, d, p1, p2)[..k]) + multiset(Child2(kind, d, p1, p2)[..k]) == multiset(p1[..k]) + multiset(p2[..k])
  {
    if k > 0 {
      var c1, c2 := Child1(kind, d, p1, p2), Child2(kind, d, p1, p2);
      OffspringConservesUpTo(kind, d, p1, p2, k - 1);
      assert c1[..k] == c1[..k - 1] + [c1[k - 1]];
      assert c2[..k] == c2[..k - 1] + [c2[k - 1]];
      assert p1[..k] == p1[..k - 1] + [p1[k - 1]];
      assert p2[..k] == p2[..k - 1] + [p2[k - 1]];
      OffspringSlotwise(kind, d, p1, p2, k - 1);
      ConserveStep(c1[..k - 1], c2[..k - 1], p1[..k - 1], p2[..k - 1], c1[k - 1], c2[k - 1], p1[k - 1], p2[k - 1]);
    }
  }

  lemma ConserveStep(a1: seq<int>, a2: seq<int>, b1: seq<int>, b2: seq<int>, x1: int, x2: int, y1: int, y2: int)
    requires multiset(a1) + multiset(a2) == multiset(b1) + multiset(b2)
    requires multiset{x1, x2} == multiset{y1, y2}
    ensures multiset(a1 + [x1]) + multiset(a2 + [x2]) == multiset(b1 + [y1]) + multiset(b2 + [y2])
  {
    calc {
      multiset(a1 + [x1]) + multiset(a2 + [x2]);
      multiset(a1) + multiset{x1} + (multiset(a2) + multiset{x2});
      (multiset(a1) + multiset(a2)) + multiset{x1, x2};
      (multiset(b1) + multiset(b2)) + multiset{y1, y2};
      multiset(b1) + multiset{y1} + (multiset(b2) + multiset{y2});
      multiset(b1 + [y1]) + multiset(b2 + [y2]);
    }
  }

  lemma OffspringConserves(kind: CrossoverType, d: CrossoverDraws, p1: seq<int>, p2: seq<int>)
    requires Crossable(kind, d, p1, p2)
    ensures multiset(Child1(kind, d, p1, p2)) + multiset(Child2(kind, d, p1, p2)) == multiset(p1) + multiset(p2[..|p1|])
  {
    OffspringConservesUpTo(kind, d, p1, p2, |p1|);
    assert Child1(kind, d, p1, p2)[..|p1|] == Child1(kind, d, p1, p2);
    assert Child2(kind, d, p1, p2)[..|p1|] == Child2(kind, d, p1, p2);
    assert p1[..|p1|] == p1;
  }

  /** LeftRight cuts both parents at the drawn middle and exchanges the tails. */
  lemma LeftRightShape(d: CrossoverDraws, p1: seq<int>, p2: seq<int>)
    requires |p2| >= |p1| && DrawsFit(LeftRight, |p1|, d) && CanDraw(LeftRight, |p1|)
    ensures 1 <= d.middle < |p1|
    ensures Child1(LeftRight, d, p1, p2) == p1[..d.middle] + p2[d.middle..|p1|]
    ensures Child2(LeftRight, d, p1, p2) == p2[..d.middle] + p1[d.middle..]
  {
  }

  /** CentreChunk exchanges the chunk [first, second), which never touches the first slot. */
  lemma CentreChunkShape(d: CrossoverDraws, p1: seq<int>, p2: seq<int>)
    requires |p2| >= |p1| && DrawsFit(CentreChunk, |p1|, d) && CanDraw(CentreChunk, |p1|)
    ensures 1 <= d.first < d.second < |p1|
    ensures Child1(CentreChunk, d, p1, p2) == p1[..d.first] + p2[d.first..d.second] + p1[d.second..]
    ensures Child2(CentreChunk, d, p1, p2) == p2[..d.first] + p1[d.first..d.second] + p2[d.second..|p1|]
  {
  }

  /** Clone swaps every slot: the children are the parents, in exchanged order. */
  lemma CloneShape(d: CrossoverDraws, p1: seq<int>, p2: seq<int>)
    requires |p2| >= |p1|
    ensures Child1(Clone, d, p1, p2) == p2[..|p1|]
    ensures Child2(Clone, d, p1, p2) == p1
  {
  }

  /** The enumeration's parents [1, 2, 3, 4] and [5, 6, 7, 8], under every
      draw the `Next` calls can return for four slots. LeftRight may cut after
      the first or the second slot, and the first cut gives the illustrated
      children. CentreChunk can only draw first = 1 and second = 2, so it
      exchanges the second slot alone and never gives the illustrated
      [1, 6, 7, 4], [5, 2, 3, 8]. */
  lemma CrossoverIllustrations(d: CrossoverDraws)
    ensures DrawsFit(LeftRight, 4, d) ==>
      && Child1(LeftRight, d, [1, 2, 3, 4], [5, 6, 7, 8]) == (if d.middle == 1 then [1, 6, 7, 8] else [1, 2, 7, 8])
      && Child2(LeftRight, d, [1, 2, 3, 4], [5, 6, 7, 8]) == (if d.middle == 1 then [5, 2, 3, 4] else [5, 6, 3, 4])
    ensures DrawsFit(CentreChunk, 4, d) ==>
      && Child1(CentreChunk, d, [1, 2, 3, 4], [5, 6, 7, 8]) == [1, 6, 3, 4]
      && Child2(CentreChunk, d, [1, 2, 3, 4], [5, 6, 7, 8]) == [5, 2, 7, 8]
  {
    if DrawsFit(LeftRight, 4, d) {
      LeftRightShape(d, [1, 2, 3, 4], [5, 6, 7, 8]);
    }
    if DrawsFit(CentreChunk, 4, d) {
      CentreChunkShape(d, [1, 2, 3, 4], [5, 6, 7, 8]);
    }
  }

  // ---------------------------------------------------------------------
  // Mutation.

  /** The mutation settings: the range of any-range swaps and the reach of a
      conflict-driven swap. */
  datatype MutationConfig = MutationConfig(minSwaps: int, maxSwaps: int, shiftRange: int)

  /** MIN_SWAP_MUTATIONS, MAX_SWAP_MUTATIONS and CONLICT_SHIFT_RANGE as shipped. */
  const DefaultMutation := MutationConfig(1, 3, 30)

  predicate ConfigOk(c: MutationConfig) {
    0 <= c.minSwaps <= c.maxSwaps && c.shiftRange >= 0
  }

  /** The values one `Mutate` draws: the number of any-range swaps, the
      rare-reshuffle outcome and its shuffle, the swap index pairs, the
      mini-shuffle outcome, and for every desk a wide partner (used when the
      desk's counter exceeds 1) and a near partner (used otherwise, in a
      mini-shuffle). */
  datatype MutationDraws = MutationDraws(
    swapCount: int, reshuffle: bool, shuffleChoices: seq<int>,
    swaps: seq<(int, int)>, miniShuffle: bool, far: seq<int>, near: seq<int>)

  /** The draws are values the `Next` calls of `Mutate` can return for a
      layout of n slots over D desks. */
  predicate MutationDrawsFit(c: MutationConfig, n: int, D: int, d: MutationDraws) {
    && InRange(d.swapCount, c.minSwaps, c.maxSwaps + 1)
    && (d.reshuffle ==> ValidChoices(d.shuffleChoices, n))
    && |d.swaps| == d.swapCount
    && (forall k :: 0 <= k < |d.swaps| ==> InRangeBelow(d.swaps[k].0, n) && InRangeBelow(d.swaps[k].1, n))
    && |d.far| == D && |d.near| == D
    && (forall i :: 0 <= i < D ==> InRange(d.far[i], Max(0, i - c.shiftRange), Min(i + c.shiftRange, D)))
    && (forall i :: 0 <= i < D ==> InRange(d.near[i], Max(0, i - 1), Min(i + 2, D)))
  }

  /** A layout every evaluator pass can read: one entry per desk at least, and
      every entry an employee. */
  predicate Fits(w: World, s: seq<int>) {
    |s| >= |w.desks| && AllBelow(s, |w.employees|)
  }

  lemma FitsSeatable(w: World, s: seq<int>)
    requires Fits(w, s)
    ensures Seatable(w, s)
  {
  }

  /** Rearranging a layout keeps it readable. */
  lemma FitsByMultiset(w: World, s: seq<int>, t: seq<int>)
    requires Fits(w, s) && |t| == |s| && multiset(t) == multiset(s)
    ensures Fits(w, t)
  {
    forall k | 0 <= k < |t| ensures 0 <= t[k] < |w.employees| {
      assert t[k] in multiset(s);
    }
  }

  predicate SwapsFit(swaps: seq<(int, int)>, n: int) {
    forall k :: 0 <= k < |swaps| ==> 0 <= swaps[k].0 < n && 0 <= swaps[k].1 < n
  }

  /** The any-range swaps k, k + 1, ... applied in order. */
  function ApplySwaps(s: seq<int>, swaps: seq<(int, int)>, k: nat): (r: seq<int>)
    requires SwapsFit(swaps, |s|) && k <= |swaps|
    ensures |r| == |s|
    decreases |swaps| - k
  {
    if k == |swaps| then s else ApplySwaps(Swap(s, swaps[k].0, swaps[k].1), swaps, k + 1)
  }

  predicate ShiftsFit(d: MutationDraws, D: int) {
    |d.far| == D && |d.near| == D
    && (forall i :: 0 <= i < D ==> 0 <= d.far[i] < D)
    && (forall i :: 0 <= i < D ==> 0 <= d.near[i] < D)
  }

  /** The conflict-driven pass from desk i on: a desk whose counter exceeds 1
      swaps with its wide partner; otherwise, in a mini-shuffle, with its near
      partner. The counters are those computed before the pass. */
  function Shifts(s: seq<int>, counts: seq<int>, d: MutationDraws, i: nat): (r: seq<int>)
    requires |counts| <= |s| && ShiftsFit(d, |counts|) && i <= |counts|
    ensures |r| == |s|
    decreases |counts| - i
  {
    if i == |counts| then s
    else
      var next := if counts[i] > 1 then Swap(s, i, d.far[i])
                  else if d.miniShuffle then Swap(s, i, d.near[i]) else s;
      Shifts(next, counts, d, i + 1)
  }

  lemma DrawsGiveFits(c: MutationConfig, n: int, D: int, d: MutationDraws)
    requires ConfigOk(c) && MutationDrawsFit(c, n, D, d) && D <= n
    requires n > 0 || d.swapCount == 0
    ensures SwapsFit(d.swaps, n) && ShiftsFit(d, D)
  {
  }

  lemma {:induction false} ApplySwapsPermutes(s: seq<int>, swaps: seq<(int, int)>, k: nat)
    requires SwapsFit(swaps, |s|) && k <= |swaps|
    ensures multiset(ApplySwaps(s, swaps, k)) == multiset(s)
    decreases |swaps| - k
  {
    if k < |swaps| {
      SwapPermutes(s, swaps[k].0, swaps[k].1);
      ApplySwapsPermutes(Swap(s, swaps[k].0, swaps[k].1), swaps, k + 1);
    }
  }

  lemma {:induction false} ShiftsPermute(s: seq<int>, counts: seq<int>, d: MutationDraws, i: nat)
    requires |counts| <= |s| && ShiftsFit(d, |counts|) && i <= |counts|
    ensures multiset(Shifts(s, counts, d, i)) == multiset(s)
    decreases |counts| - i
  {
    if i < |counts| {
      if counts[i] > 1 {
        SwapPermutes(s, i, d.far[i]);
        ShiftsPermute(Swap(s, i, d.far[i]), counts, d, i + 1);
      } else if d.miniShuffle {
        SwapPermutes(s, i, d.near[i]);
        ShiftsPermute(Swap(s, i, d.near[i]), counts, d, i + 1);
      } else {
        ShiftsPermute(s, counts, d, i + 1);
      }
    }
  }

  /** The layout before the conflict-driven pass: reshuffled if drawn, then
      the any-range swaps. */
  function Swapped(c: MutationConfig, s: seq<int>, d: MutationDraws): (r: seq<int>)
    requires ConfigOk(c) && MutationDrawsFit(c, |s|, 0, d) && (|s| > 0 || d.swapCount == 0)
    ensures |r| == |s| && multiset(r) == multiset(s)
  {
    var s1 := if d.reshuffle then ShuffledPermutes(s, d.shuffleChoices); Shuffled(s, d.shuffleChoices) else s;
    ApplySwapsPermutes(s1, d.swaps, 0);
    ApplySwaps(s1, d.swaps, 0)
  }

  lemma DrawsFitWithoutDesks(c: MutationConfig, n: int, D: int, d: MutationDraws)
    requires MutationDrawsFit(c, n, D, d)
    ensures MutationDrawsFit(c, n, 0, d.(far := [], near := []))
  {
  }

  /** What `Mutate` leaves in the layout. */
  function Mutated(w: World, c: MutationConfig, s: seq<int>, d: MutationDraws): (r: seq<int>)
    requires WorldOk(w) && Fits(w, s) && ConfigOk(c) && MutationDrawsFit(c, |s|, |w.desks|, d)
    requires |s| > 0 || d.swapCount == 0
    ensures |r| == |s|
  {
    DrawsFitWithoutDesks(c, |s|, |w.desks|, d);
    var s2 := Swapped(c, s, d.(far := [], near := []));
    FitsByMultiset(w, s, s2);
    DrawsGiveFits(c, |s|, |w.desks|, d);
    Shifts(s2, InRangeConflicts(w, s2), d, 0)
  }

  /** Every step of a mutation is a swap, so the layout is rearranged, never
      changed in content: nobody is lost or seated twice. */
  lemma MutatedPermutes(w: World, c: MutationConfig, s: seq<int>, d: MutationDraws)
    requires WorldOk(w) && Fits(w, s) && ConfigOk(c) && MutationDrawsFit(c, |s|, |w.desks|, d)
    requires |s| > 0 || d.swapCount == 0
    ensures multiset(Mutated(w, c, s, d)) == multiset(s)
    ensures Fits(w, Mutated(w, c, s, d))
    ensures NoDuplicates(s) ==> NoDuplicates(Mutated(w, c, s, d))
  {
    DrawsFitWithoutDesks(c, |s|, |w.desks|, d);
    var s2 := Swapped(c, s, d.(far := [], near := []));
    FitsByMultiset(w, s, s2);
    DrawsGiveFits(c, |s|, |w.desks|, d);
    ShiftsPermute(s2, InRangeConflicts(w, s2), d, 0);
    FitsByMultiset(w, s, Mutated(w, c, s, d));
    if NoDuplicates(s) {
      NoDuplicatesByMultiset(s, Mutated(w, c, s, d));
    }
  }

  lemma {:induction false} IdentitySwaps(s: seq<int>, swaps: seq<(int, int)>, k: nat)
    requires SwapsFit(swaps, |s|) && k <= |swaps|
    requires forall m :: 0 <= m < |swaps| ==> swaps[m].0 == swaps[m].1
    ensures ApplySwaps(s, swaps, k) == s
    decreases |swaps| - k
  {
    if k < |swaps| {
      assert Swap(s, swaps[k].0, swaps[k].1) == s;
      IdentitySwaps(s, swaps, k + 1);
    }
  }

  lemma {:induction false} QuietShifts(s: seq<int>, counts: seq<int>, d: MutationDraws, i: nat)
    requires |counts| <= |s| && ShiftsFit(d, |counts|) && i <= |counts|
    requires !d.miniShuffle && forall m :: 0 <= m < |counts| ==> counts[m] <= 1
    ensures Shifts(s, counts, d, i) == s
    decreases |counts| - i
  {
    if i < |counts| {
      QuietShifts(s, counts, d, i + 1);
    }
  }

  /** Without a reshuffle, with every any-range swap drawing the same index
      twice, no mini-shuffle and no desk counted twice, a mutation changes
      nothing. */
  lemma QuietMutation(w: World, c: MutationConfig, s: seq<int>, d: MutationDraws)
    requires WorldOk(w) && Fits(w, s) && ConfigOk(c) && MutationDrawsFit(c, |s|, |w.desks|, d)
    requires |s| > 0 || d.swapCount == 0
    requires !d.reshuffle && !d.miniShuffle
    requires forall m :: 0 <= m < |d.swaps| ==> d.swaps[m].0 == d.swaps[m].1
    requires forall i :: 0 <= i < |w.desks| ==> InRangeConflicts(w, s)[i] <= 1
    ensures Mutated(w, c, s, d) == s
  {
    DrawsFitWithoutDesks(c, |s|, |w.desks|, d);
    DrawsGiveFits(c, |s|, |w.desks|, d);
    IdentitySwaps(s, d.swaps, 0);
    QuietShifts(s, InRangeConflicts(w, s), d, 0);
  }

  // ---------------------------------------------------------------------
  // Duplicate repair.

  /** The employees 0 .. k - 1 whose count is zero, in increasing order. */
  function Unused(occ: seq<int>, k: nat): (u: seq<int>)
    requires k <= |occ|
    ensures forall x :: x in u <==> 0 <= x < k && occ[x] == 0
    ensures NoDuplicates(u)
  {
    if k == 0 then []
    else
      var u := Unused(occ, k - 1);
      if occ[k - 1] == 0 then
        NoDuplicatesAppend(u, k - 1);
        u + [k - 1]
      else u
  }

  /** The counts after occupant `leaving` is replaced by newID: newID's
      count is raised, then the old occupant's lowered. */
  function Moved(occ: seq<int>, newID: int, leaving: int): (r: seq<int>)
    requires 0 <= newID < |occ| && 0 <= leaving < |occ|
    ensures |r| == |occ|
  {
    var raised := occ[newID := occ[newID] + 1];
    raised[leaving := raised[leaving] - 1]
  }

  /** The repair loop from slot i on, with the current counts and the unused
      employees not yet handed out. */
  function RepairFrom(s: seq<int>, occ: seq<int>, u: seq<int>, i: nat): (r: seq<int>)
    requires AllBelow(s, |occ|) && AllBelow(u, |occ|) && i <= |s|
    ensures |r| == |s|
    decreases |s| - i
  {
    if i == |s| then s
    else
      var cur := s[i];
      if occ[cur] <= 1 then RepairFrom(s, occ, u, i + 1)
      else if u == [] then s
      else
        var newID := u[0];
        RepairFrom(s[i := newID], Moved(occ, newID, cur), u[1..], i + 1)
  }

  /** The employees absent from a layout over n employees. */
  function UnusedOf(s: seq<int>, n: nat): seq<int> {
    Unused(Occurrences(s, n), n)
  }

  lemma ShuffledUnusedBelow(s: seq<int>, n: nat, js: seq<int>)
    requires ValidChoices(js, |UnusedOf(s, n)|)
    ensures AllBelow(Shuffled(UnusedOf(s, n), js), n)
  {
    var u := Shuffled(UnusedOf(s, n), js);
    ShuffledPermutes(UnusedOf(s, n), js);
    forall k | 0 <= k < |u| ensures 0 <= u[k] < n {
      assert u[k] in multiset(UnusedOf(s, n));
      assert u[k] in UnusedOf(s, n);
    }
  }

  /** What `SwapOutDuplicates` leaves: the repair loop over the layout, with
      the counts of the layout and its absent employees shuffled. */
  function Repaired(s: seq<int>, n: nat, js: seq<int>): (r: seq<int>)
    requires AllBelow(s, n) && ValidChoices(js, |UnusedOf(s, n)|)
    ensures |r| == |s|
  {
    ShuffledUnusedBelow(s, n, js);
    var u := Shuffled(UnusedOf(s, n), js);
    RepairFrom(s, Occurrences(s, n), u, 0)
  }

  /** The state of the repair loop at slot i, over a layout that started as s0. */
  ghost predicate RepairInv(s0: seq<int>, n: nat, s: seq<int>, occ: seq<int>, u: seq<int>, i: nat) {
    && |s| == |s0| <= n && i <= |s| && |occ| == n
    && AllBelow(s0, n) && AllBelow(s, n) && AllBelow(u, n)
    // the counts are the current layout's
    && (forall x :: 0 <= x < n ==> occ[x] == Occ(s, x))
    // the unused list holds exactly the absent employees, once each
    && NoDuplicates(u)
    && (forall k :: 0 <= k < |u| ==> occ[u[k]] == 0)
    && (forall x :: 0 <= x < n && occ[x] == 0 ==> x in u)
    // slots before i are in the layout once; from i on nothing has changed yet
    && (forall j :: 0 <= j < i ==> occ[s[j]] == 1)
    && (forall j :: i <= j < |s| ==> s[j] == s0[j])
    // everybody present at the start still is; who was present once still is
    && (forall x :: 0 <= x < n && Occ(s0, x) >= 1 ==> occ[x] >= 1)
    && (forall x :: 0 <= x < n && Occ(s0, x) == 1 ==> occ[x] == 1)
    // a changed slot holds somebody who was absent at the start
    && (forall j :: 0 <= j < i ==> s[j] == s0[j] || Occ(s0, s[j]) == 0)
    && (forall j :: 0 <= j < i && Occ(s0, s0[j]) == 1 ==> s[j] == s0[j])
  }

  /** Distinct values of a sequence. */
  function Values(s: seq<int>): set<int> {
    set x | x in s
  }

  /** The employee indices 0 .. n - 1, as a set of n elements. */
  function Below(n: nat): (r: set<int>)
    ensures forall x :: x in r <==> 0 <= x < n
    ensures |r| == n
  {
    if n == 0 then {} else Below(n - 1) + {n - 1}
  }

  /** A sequence has at most as many distinct values as entries, and fewer
      when some value repeats. */
  lemma {:induction false} ValuesBound(s: seq<int>, y: int)
    ensures |Values(s)| <= |s|
    ensures Occ(s, y) >= 2 ==> |Values(s)| < |s|
    decreases |s|
  {
    if s != [] {
      var t, z := s[..|s| - 1], s[|s| - 1];
      assert s == t + [z];
      assert Values(s) == Values(t) + {z};
      ValuesBound(t, y);
      if z in t {
        assert Values(s) == Values(t);
      }
    }
  }

  /** Pigeonhole: a layout no longer than the roster that repeats somebody
      leaves somebody out. */
  lemma Unseen(s: seq<int>, n: nat, y: int) returns (x: int)
    requires AllBelow(s, n) && |s| <= n && Occ(s, y) >= 2
    ensures 0 <= x < n && Occ(s, x) == 0
  {
    ValuesBound(s, y);
    assert Values(s) <= Below(n);
    assert Below(n) - Values(s) != {};
    var z :| z in Below(n) - Values(s);
    x := z;
  }

  lemma RepairStart(s0: seq<int>, n: nat, js: seq<int>)
    requires AllBelow(s0, n) && |s0| <= n && ValidChoices(js, |UnusedOf(s0, n)|)
    ensures RepairInv(s0, n, s0, Occurrences(s0, n), Shuffled(UnusedOf(s0, n), js), 0)
  {
    var u0 := UnusedOf(s0, n);
    var u := Shuffled(u0, js);
    ShuffledPermutes(u0, js);
    ShuffledNoDuplicates(u0, js);
    forall k | 0 <= k < |u| ensures 0 <= u[k] < n && Occurrences(s0, n)[u[k]] == 0 {
      assert u[k] in multiset(u0);
      assert u[k] in u0;
    }
    forall x | 0 <= x < n && Occurrences(s0, n)[x] == 0 ensures x in u {
      assert x in multiset(u0);
    }
  }

  /** How an overwrite changes the count of every value. */
  lemma OccUpdate(s: seq<int>, i: int, v: int, x: int)
    requires 0 <= i < |s|
    ensures Occ(s[i := v], x) == Occ(s, x) - (if x == s[i] then 1 else 0) + (if x == v then 1 else 0)
  {
    assert multiset(s[i := v]) == multiset(s) - multiset{s[i]} + multiset{v};
  }

  lemma OccPresent(s: seq<int>, j: int)
    requires 0 <= j < |s|
    ensures Occ(s, s[j]) >= 1
  {
    assert s[j] in multiset(s);
  }

  lemma RepairSkip(s0: seq<int>, n: nat, s: seq<int>, occ: seq<int>, u: seq<int>, i: nat)
    requires RepairInv(s0, n, s, occ, u, i) && i < |s| && occ[s[i]] <= 1
    ensures RepairInv(s0, n, s, occ, u, i + 1)
  {
    OccPresent(s, i);
  }

  /** The facts about the state a replacement at slot i starts from. */
  ghost predicate ReplaceAt(s0: seq<int>, n: nat, s: seq<int>, occ: seq<int>, u: seq<int>, i: nat) {
    RepairInv(s0, n, s, occ, u, i) && i < |s| && occ[s[i]] > 1 && u != []
    && occ[u[0]] == 0 && u[0] != s[i] && occ[s[i]] == Occ(s, s[i])
  }

  lemma ReplaceCounts(s0: seq<int>, n: nat, s: seq<int>, occ: seq<int>, u: seq<int>, i: nat, s': seq<int>, occ': seq<int>)
    requires ReplaceAt(s0, n, s, occ, u, i)
    requires s' == s[i := u[0]] && occ' == Moved(occ, u[0], s[i])
    ensures forall x :: 0 <= x < n ==> occ'[x] == Occ(s', x)
  {
    forall x | 0 <= x < n ensures occ'[x] == Occ(s', x) {
      OccUpdate(s, i, u[0], x);
    }
  }

  lemma ReplaceUnused(s0: seq<int>, n: nat, s: seq<int>, occ: seq<int>, u: seq<int>, i: nat)
    requires ReplaceAt(s0, n, s, occ, u, i)
    ensures NoDuplicates(u[1..])
    ensures forall k :: 0 <= k < |u[1..]| ==> Moved(occ, u[0], s[i])[u[1..][k]] == 0
    ensures forall x :: 0 <= x < n && Moved(occ, u[0], s[i])[x] == 0 ==> x in u[1..]
  {
    var occ' := Moved(occ, u[0], s[i]);
    forall k | 0 <= k < |u| - 1 ensures occ'[u[1..][k]] == 0 {
      assert u[1..][k] == u[k + 1] != u[0];
    }
    forall x | 0 <= x < n && occ'[x] == 0 ensures x in u[1..] {
      assert x in u;
      var k :| 0 <= k < |u| && u[k] == x;
      assert k != 0;
      assert u[1..][k - 1] == x;
    }
  }

  lemma ReplaceSettled(s0: seq<int>, n: nat, s: seq<int>, occ: seq<int>, u: seq<int>, i: nat, s': seq<int>, occ': seq<int>)
    requires ReplaceAt(s0, n, s, occ, u, i)
    requires s' == s[i := u[0]] && occ' == Moved(occ, u[0], s[i])
    ensures forall j :: 0 <= j < i + 1 ==> occ'[s'[j]] == 1
    ensures forall j :: 0 <= j < i + 1 ==> s'[j] == s0[j] || Occ(s0, s'[j]) == 0
    ensures forall j :: 0 <= j < i + 1 && Occ(s0, s0[j]) == 1 ==> s'[j] == s0[j]
  {
    forall j | 0 <= j < i + 1 ensures occ'[s'[j]] == 1 {
      if j < i {
        assert occ[s[j]] == 1;
      }
    }
  }

  /** A slot that repeats somebody gets the next unused employee, and the
      loop's state carries over to the next slot. */
  lemma RepairReplace(s0: seq<int>, n: nat, s: seq<int>, occ: seq<int>, u: seq<int>, i: nat)
    requires RepairInv(s0, n, s, occ, u, i) && i < |s| && occ[s[i]] > 1
    ensures u != []
    ensures RepairInv(s0, n, s[i := u[0]], Moved(occ, u[0], s[i]), u[1..], i + 1)
  {
    var y := Unseen(s, n, s[i]);
    assert occ[y] == 0;
    assert ReplaceAt(s0, n, s, occ, u, i);
    var s', occ' := s[i := u[0]], Moved(occ, u[0], s[i]);
    ReplaceCounts(s0, n, s, occ, u, i, s', occ');
    ReplaceUnused(s0, n, s, occ, u, i);
    ReplaceSettled(s0, n, s, occ, u, i, s', occ');
  }

  /** The repair loop's final layout is the one the invariant describes. */
  lemma {:induction false} RepairFromEnds(s0: seq<int>, n: nat, s: seq<int>, occ: seq<int>, u: seq<int>, i: nat)
    requires RepairInv(s0, n, s, occ, u, i)
    ensures RepairInv(s0, n, RepairFrom(s, occ, u, i), Occurrences(RepairFrom(s, occ, u, i), n), [], |s|)
      || exists occ', u' :: RepairInv(s0, n, RepairFrom(s, occ, u, i), occ', u', |s|)
    decreases |s| - i
  {
    if i < |s| {
      var cur := s[i];
      if occ[cur] <= 1 {
        RepairSkip(s0, n, s, occ, u, i);
        RepairFromEnds(s0, n, s, occ, u, i + 1);
      } else {
        RepairReplace(s0, n, s, occ, u, i);
        var nw := u[0];
        RepairFromEnds(s0, n, s[i := nw], Moved(occ, nw, cur), u[1..], i + 1);
      }
    } else {
      assert exists occ', u' :: RepairInv(s0, n, s, occ', u', |s|) by {
        assert RepairInv(s0, n, s, occ, u, |s|);
      }
    }
  }

  /** The repair loop from slot i on never runs out of unused employees. */
  ghost predicate RepairSafe(s: seq<int>, occ: seq<int>, u: seq<int>, i: nat)
    requires AllBelow(s, |occ|) && AllBelow(u, |occ|) && i <= |s|
    decreases |s| - i
  {
    if i == |s| then true
    else if occ[s[i]] <= 1 then RepairSafe(s, occ, u, i + 1)
    else u != [] && RepairSafe(s[i := u[0]], Moved(occ, u[0], s[i]), u[1..], i + 1)
  }

  lemma {:induction false} RepairInvSafe(s0: seq<int>, n: nat, s: seq<int>, occ: seq<int>, u: seq<int>, i: nat)
    requires RepairInv(s0, n, s, occ, u, i)
    ensures RepairSafe(s, occ, u, i)
    decreases |s| - i
  {
    if i < |s| {
      if occ[s[i]] <= 1 {
        RepairSkip(s0, n, s, occ, u, i);
        RepairInvSafe(s0, n, s, occ, u, i + 1);
      } else {
        RepairReplace(s0, n, s, occ, u, i);
        RepairInvSafe(s0, n, s[i := u[0]], Moved(occ, u[0], s[i]), u[1..], i + 1);
      }
    }
  }

  /** On a layout no longer than the roster the repair never runs out. */
  lemma RepairStartsSafe(s0: seq<int>, n: nat, js: seq<int>)
    requires AllBelow(s0, n) && |s0| <= n && ValidChoices(js, |UnusedOf(s0, n)|)
    ensures AllBelow(Shuffled(UnusedOf(s0, n), js), n)
    ensures RepairSafe(s0, Occurrences(s0, n), Shuffled(UnusedOf(s0, n), js), 0)
  {
    RepairStart(s0, n, js);
    RepairInvSafe(s0, n, s0, Occurrences(s0, n), Shuffled(UnusedOf(s0, n), js), 0);
  }

  /** A finished repair: nobody twice, nobody lost, slots whose occupant was
      unique untouched, every replacement somebody who was absent. */
  lemma RepairDone(s0: seq<int>, n: nat, s: seq<int>, occ: seq<int>, u: seq<int>)
    requires RepairInv(s0, n, s, occ, u, |s|)
    ensures NoDuplicates(s) && AllBelow(s, n)
    ensures forall x :: x in s0 ==> x in s
    ensures forall j :: 0 <= j < |s| && Occ(s0, s0[j]) == 1 ==> s[j] == s0[j]
    ensures forall j :: 0 <= j < |s| ==> s[j] == s0[j] || s[j] !in s0
  {
    forall a, b | 0 <= a < b < |s| ensures s[a] != s[b] {
      if s[a] == s[b] {
        MultisetAtLeastTwo(s, a, b);
        assert false;
      }
    }
    forall x | x in s0 ensures x in s {
      var j :| 0 <= j < |s0| && s0[j] == x;
      OccPresent(s0, j);
      assert Occ(s, x) >= 1;
    }
  }

  /** `SwapOutDuplicates` on a layout no longer than the roster yields a
      layout without repeats that keeps everybody who was present, changes
      only slots holding somebody seated twice, and fills them with people
      who were absent. */
  lemma RepairedMeaning(s0: seq<int>, n: nat, js: seq<int>)
    requires AllBelow(s0, n) && |s0| <= n && ValidChoices(js, |UnusedOf(s0, n)|)
    ensures NoDuplicates(Repaired(s0, n, js)) && AllBelow(Repaired(s0, n, js), n)
    ensures forall x :: x in s0 ==> x in Repaired(s0, n, js)
    ensures forall j :: 0 <= j < |s0| && Occ(s0, s0[j]) == 1 ==> Repaired(s0, n, js)[j] == s0[j]
    ensures forall j :: 0 <= j < |s0| ==> Repaired(s0, n, js)[j] == s0[j] || Repaired(s0, n, js)[j] !in s0
  {
    RepairStart(s0, n, js);
    var u := Shuffled(UnusedOf(s0, n), js);
    RepairFromEnds(s0, n, s0, Occurrences(s0, n), u, 0);
    var r := Repaired(s0, n, js);
    var occ', u' :| RepairInv(s0, n, r, occ', u', |s0|);
    RepairDone(s0, n, r, occ', u');
  }

  /** A layout without repeats is left as it is. */
  lemma RepairedKeepsDuplicateFree(s0: seq<int>, n: nat, js: seq<int>)
    requires AllBelow(s0, n) && |s0| <= n && ValidChoices(js, |UnusedOf(s0, n)|)
    requires NoDuplicates(s0)
    ensures Repaired(s0, n, js) == s0
  {
    RepairedMeaning(s0, n, js);
    forall j | 0 <= j < |s0| ensures Repaired(s0, n, js)[j] == s0[j] {
      MultisetAtMostOne(s0, s0[j]);
      OccPresent(s0, j);
    }
  }

  // ---------------------------------------------------------------------
  // The chromosome.

  class LayoutChromosome {
    /** The person index seated at each desk, in desk order. */
    var personIDs: seq<int>
    /** Negative means not yet set. */
    var fitness: real

    constructor ()
      ensures personIDs == [] && fitness == -1.0
    {
      personIDs := [];
      fitness := -1.0;
    }

    /** `InitialiseFromRawInputs`: the layout becomes a copy of the inputs. */
    method InitialiseFromRawInputs(rawInputs: seq<int>)
      modifies this`personIDs
      ensures personIDs == rawInputs
    {
      personIDs := [];
      for k := 0 to |rawInputs|
        invariant personIDs == rawInputs[..k]
      {
        personIDs := personIDs + [rawInputs[k]];
      }
    }

    /** `SetFitness`: negative values are refused and change nothing. */
    method SetFitness(newFitness: real) returns (r: Result<()>)
      modifies this`fitness
      ensures newFitness < 0.0 ==> r == Err(NegativeFitness) && fitness == old(fitness)
      ensures newFitness >= 0.0 ==> r == Ok(()) && fitness == newFitness
    {
      if newFitness < 0.0 {
        return Err(NegativeFitness);
      }
      fitness := newFitness;
      r := Ok(());
    }

    /** `GetFitness`: a fitness that was never set is an error. */
    method GetFitness() returns (r: Result<real>)
      ensures fitness < 0.0 <==> r == Err(UnsetFitness)
      ensures fitness >= 0.0 <==> r == Ok(fitness)
    {
      if fitness < 0.0 {
        return Err(UnsetFitness);
      }
      return Ok(fitness);
    }

    /** `CrossoverWith`: two fresh children of this layout and the partner's.
        Draws that `Next` would refuse for this length are an error. Neither
        parent is modified. */
    method CrossoverWith(partner: LayoutChromosome, kind: CrossoverType, d: CrossoverDraws)
      returns (r: Result<(LayoutChromosome, LayoutChromosome)>)
      requires |partner.personIDs| >= |personIDs|
      requires CanDraw(kind, |personIDs|) ==> DrawsFit(kind, |personIDs|, d)
      ensures !CanDraw(kind, |personIDs|) <==> r == Err(DrawOutOfRange)
      ensures r.Err? ==> r.error == DrawOutOfRange
      ensures r.Ok? ==>
        && fresh(r.value.0) && fresh(r.value.1) && r.value.0 != r.value.1
        && r.value.0.personIDs == Child1(kind, d, personIDs, partner.personIDs)
        && r.value.1.personIDs == Child2(kind, d, personIDs, partner.personIDs)
        && r.value.0.fitness == -1.0 && r.value.1.fitness == -1.0
    {
      var parent1LayoutData := personIDs;
      var parent2LayoutData := partner.personIDs;
      if !CanDraw(kind, |parent1LayoutData|) {
        return Err(DrawOutOfRange);
      }
      var newRawData1 := [];
      var newRawData2 := [];
      for i := 0 to |parent1LayoutData|
        invariant newRawData1 == Child1(kind, d, parent1LayoutData, parent2LayoutData)[..i]
        invariant newRawData2 == Child2(kind, d, parent1LayoutData, parent2LayoutData)[..i]
      {
        if TakesPartner(kind, d, i) {
          newRawData1 := newRawData1 + [parent2LayoutData[i]];
          newRawData2 := newRawData2 + [parent1LayoutData[i]];
        } else {
          newRawData1 := newRawData1 + [parent1LayoutData[i]];
          newRawData2 := newRawData2 + [parent2LayoutData[i]];
        }
      }
      var child1 := new LayoutChromosome();
      var child2 := new LayoutChromosome();
      child1.InitialiseFromRawInputs(newRawData1);
      child2.InitialiseFromRawInputs(newRawData2);
      r := Ok((child1, child2));
    }

    /** Copies the layout into a fresh array for the in-place shuffle. */
    static method ToArray(s: seq<int>) returns (a: array<int>)
      ensures fresh(a) && a[..] == s
    {
      a := new int[|s|](k requires 0 <= k < |s| => s[k]);
    }

    /** The any-range swaps of `Mutate`, in order. */
    method SwapAnyRange(swaps: seq<(int, int)>)
      requires SwapsFit(swaps, |personIDs|)
      modifies this`personIDs
      ensures personIDs == ApplySwaps(old(personIDs), swaps, 0)
    {
      for i := 0 to |swaps|
        invariant |personIDs| == |old(personIDs)|
        invariant ApplySwaps(personIDs, swaps, i) == ApplySwaps(old(personIDs), swaps, 0)
      {
        var swapIdx1 := swaps[i].0;
        var swapIdx2 := swaps[i].1;
        var temp := personIDs[swapIdx1];
        personIDs := personIDs[swapIdx1 := personIDs[swapIdx2]];
        personIDs := personIDs[swapIdx2 := temp];
      }
    }

    /** The conflict-driven pass of `Mutate`: the counters are computed once,
        then every desk counted more than once swaps with its wide partner
        and, in a mini-shuffle, every other desk with its near partner. */
    method ShiftConflicted(w: World, d: MutationDraws)
      requires WorldOk(w) && Fits(w, personIDs) && ShiftsFit(d, |w.desks|)
      modifies this`personIDs
      ensures personIDs == Shifts(old(personIDs), InRangeConflicts(w, old(personIDs)), d, 0)
    {
      var conflicts := CountInRangeConflicts(w, personIDs);
      for i := 0 to conflicts.Length
        invariant |personIDs| == |old(personIDs)|
        invariant conflicts[..] == InRangeConflicts(w, old(personIDs))
        invariant Shifts(personIDs, conflicts[..], d, i) == Shifts(old(personIDs), conflicts[..], d, 0)
      {
        if conflicts[i] > 1 {
          var swapIdx := d.far[i];
          var temp := personIDs[i];
          personIDs := personIDs[i := personIDs[swapIdx]];
          personIDs := personIDs[swapIdx := temp];
        } else if d.miniShuffle {
          var swapIdx := d.near[i];
          var temp := personIDs[i];
          personIDs := personIDs[i := personIDs[swapIdx]];
          personIDs := personIDs[swapIdx := temp];
        }
      }
    }

    /** `Mutate`: an optional full reshuffle, a few any-range swaps, then one
        pass in which every desk counted more than once swaps with a desk
        within the shift range and, in a mini-shuffle, every other desk with
        a neighbour. On an empty layout the first swap indexes past the end. */
    method Mutate(w: World, c: MutationConfig, d: MutationDraws) returns (r: Result<()>)
      requires WorldOk(w) && Fits(w, personIDs) && ConfigOk(c)
      requires MutationDrawsFit(c, |personIDs|, |w.desks|, d)
      modifies this`personIDs
      ensures |old(personIDs)| == 0 && d.swapCount > 0 <==> r == Err(IndexOutOfRange)
      ensures r.Err? ==> r.error == IndexOutOfRange
      ensures r.Err? ==> personIDs == old(personIDs)
      ensures r.Ok? ==> personIDs == Mutated(w, c, old(personIDs), d)
    {
      ghost var s := personIDs;
      var n := |personIDs|;
      if d.reshuffle {
        var a := ToArray(personIDs);
        YatesShuffle(a, d.shuffleChoices);
        personIDs := a[..];
      }
      if n == 0 && d.swapCount > 0 {
        return Err(IndexOutOfRange);
      }
      DrawsFitWithoutDesks(c, n, |w.desks|, d);
      DrawsGiveFits(c, n, |w.desks|, d);
      SwapAnyRange(d.swaps);
      assert personIDs == Swapped(c, s, d.(far := [], near := []));
      FitsByMultiset(w, s, personIDs);
      ShiftConflicted(w, d);
      r := Ok(());
    }

    /** The first loop of `SwapOutDuplicates`: the employees whose count is
        zero, in increasing order. */
    static method UnusedEmployees(occ: array<int>) returns (unusedEmployees: seq<int>)
      ensures unusedEmployees == Unused(occ[..], occ.Length)
    {
      unusedEmployees := [];
      for i := 0 to occ.Length
        invariant unusedEmployees == Unused(occ[..], i)
      {
        if occ[i] == 0 {
          unusedEmployees := unusedEmployees + [i];
        }
      }
    }

    /** The second loop of `SwapOutDuplicates`: a slot whose occupant's count
        exceeds one takes the next employee of `unusedEmployees`, and both
        counts are updated. */
    method ReplaceDuplicates(occ: array<int>, unusedEmployees: array<int>)
      requires occ != unusedEmployees
      requires AllBelow(personIDs, occ.Length) && AllBelow(unusedEmployees[..], occ.Length)
      requires RepairSafe(personIDs, occ[..], unusedEmployees[..], 0)
      modifies this`personIDs, occ
      ensures personIDs == RepairFrom(old(personIDs), old(occ[..]), unusedEmployees[..], 0)
    {
      var unusedIndex := 0;
      assert unusedEmployees[0..] == unusedEmployees[..];
      for i := 0 to |personIDs|
        invariant 0 <= unusedIndex <= unusedEmployees.Length && |personIDs| == |old(personIDs)|
        invariant AllBelow(personIDs, occ.Length) && AllBelow(unusedEmployees[unusedIndex..], occ.Length)
        invariant RepairSafe(personIDs, occ[..], unusedEmployees[unusedIndex..], i)
        invariant RepairFrom(personIDs, occ[..], unusedEmployees[unusedIndex..], i)
          == RepairFrom(old(personIDs), old(occ[..]), unusedEmployees[..], 0)
      {
        ghost var oc, uu := occ[..], unusedEmployees[unusedIndex..];
        var currentPersonIndex := personIDs[i];
        if occ[currentPersonIndex] <= 1 {
          continue;
        }
        var newID := unusedEmployees[unusedIndex];
        assert uu[1..] == unusedEmployees[unusedIndex + 1..];
        unusedIndex := unusedIndex + 1;
        personIDs := personIDs[i := newID];
        occ[newID] := occ[newID] + 1;
        occ[currentPersonIndex] := occ[currentPersonIndex] - 1;
        assert occ[..] == Moved(oc, newID, currentPersonIndex);
      }
    }

    /** `SwapOutDuplicates`: every slot whose occupant is (still) seated more
        than once gets the next employee from the shuffled list of employees
        absent from the layout. */
    method SwapOutDuplicates(w: World, js: seq<int>)
      requires AllBelow(personIDs, |w.employees|) && |personIDs| <= |w.employees|
      requires ValidChoices(js, |UnusedOf(personIDs, |w.employees|)|)
      modifies this`personIDs
      ensures personIDs == Repaired(old(personIDs), |w.employees|, js)
      ensures NoDuplicates(personIDs)
      ensures forall x :: x in old(personIDs) ==> x in personIDs
    {
      ghost var s0 := personIDs;
      var n := |w.employees|;
      var occ := CountEmployeeOccurences(w, personIDs);
      var unusedEmployees := UnusedEmployees(occ);
      assert unusedEmployees == UnusedOf(s0, n);
      var a := ToArray(unusedEmployees);
      YatesShuffle(a, js);
      assert a[0..] == a[..] == Shuffled(UnusedOf(s0, n), js);
      RepairStartsSafe(s0, n, js);
      ReplaceDuplicates(occ, a);
      RepairedMeaning(s0, n, js);
    }
  }
}
