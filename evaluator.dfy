/** The fitness evaluator: the forward-only conflict scan, the occurrence
    counter, the integer tallies and score of `GetFitness`, and the remap of a
    prior day's layout into today's employee indices.

    The source keeps employees, desks and the target layout in static fields;
    here they are an explicit, read-only `World` and `PriorTarget`. */
module Evaluator {
  import opened Common
  import opened People
  import Desks

  /** What the evaluator needs of a desk: its row and its team (0 = shared). */
  datatype DeskSite = DeskSite(Row: int, TeamNumber: int)

  /** Today's employees, their conflict lists (person indices, one list per
      employee) and the desks in linear-index order. */
  datatype World = World(employees: seq<Person>, conflicts: seq<seq<int>>, desks: seq<DeskSite>)

  /** The target layout and carry-over count set by `LoadPriorSeating`. */
  datatype PriorTarget = PriorTarget(layout: seq<int>, carryOver: int)

  /** Conflict lists exist for every employee and name employees. */
  predicate WorldOk(w: World) {
    && |w.conflicts| == |w.employees|
    && forall e :: 0 <= e < |w.conflicts| ==> AllBelow(w.conflicts[e], |w.employees|)
  }

  /** The scan reads one person per desk: the layout covers every desk and each
      of those slots names an employee. */
  predicate Seatable(w: World, ids: seq<int>) {
    |ids| >= |w.desks| && forall i :: 0 <= i < |w.desks| ==> 0 <= ids[i] < |w.employees|
  }

  /** Desks i and j are close enough for a conflict: fewer than two separators,
      measured from desk i by `countSeperatorsBetweenDesks` as written (so a
      row-30 desk is measured by the east rule). */
  predicate Near(w: World, i: int, j: int)
    requires 0 <= i < |w.desks| && 0 <= j < |w.desks|
  {
    Desks.SeparatorsAsWritten(w.desks[i].Row, w.desks[j].Row) < 2
  }

  /** How often x occurs in a list. */
  function Occ(list: seq<int>, x: int): nat {
    multiset(list)[x]
  }

  /** The number of times the pair of desks i < j is counted: how often j's
      occupant occurs in the conflict list of i's occupant, when they are near. */
  function PairCount(w: World, ids: seq<int>, i: int, j: int): nat
    requires WorldOk(w) && Seatable(w, ids)
    requires 0 <= i < |w.desks| && 0 <= j < |w.desks|
  {
    if i < j && Near(w, i, j) then Occ(w.conflicts[ids[i]], ids[j]) else 0
  }

  // ---------------------------------------------------------------------
  // The scan, step by step in the loop order of CountInRangeConflicts.

  /** Innermost loop: neighbours n, n + 1, ... of desk d, looking for `who`. */
  function ScanNeighbors(w: World, ids: seq<int>, cnt: seq<int>, d: int, who: int, n: int): (r: seq<int>)
    requires WorldOk(w) && Seatable(w, ids) && |cnt| == |w.desks|
    requires 0 <= d < n <= |w.desks|
    ensures |r| == |cnt|
    decreases |w.desks| - n
  {
    if n == |w.desks| then cnt
    else
      var next := if ids[n] == who && Near(w, d, n) then cnt[d := cnt[d] + 1][n := cnt[n] + 1] else cnt;
      ScanNeighbors(w, ids, next, d, who, n + 1)
  }

  /** Middle loop: the conflict partners in `cl`, in order. */
  function ScanConflictors(w: World, ids: seq<int>, cnt: seq<int>, d: int, cl: seq<int>): (r: seq<int>)
    requires WorldOk(w) && Seatable(w, ids) && |cnt| == |w.desks|
    requires 0 <= d < |w.desks|
    ensures |r| == |cnt|
    decreases |cl|
  {
    if cl == [] then cnt
    else ScanConflictors(w, ids, ScanNeighbors(w, ids, cnt, d, cl[0], d + 1), d, cl[1..])
  }

  /** Outer loop: desks d, d + 1, ... as scan origins. */
  function ScanOrigins(w: World, ids: seq<int>, cnt: seq<int>, d: int): (r: seq<int>)
    requires WorldOk(w) && Seatable(w, ids) && |cnt| == |w.desks|
    requires 0 <= d <= |w.desks|
    ensures |r| == |cnt|
    decreases |w.desks| - d
  {
    if d == |w.desks| then cnt
    else ScanOrigins(w, ids, ScanConflictors(w, ids, cnt, d, w.conflicts[ids[d]]), d + 1)
  }

  function Zeros(n: nat): (z: seq<int>)
    ensures |z| == n && forall i :: 0 <= i < n ==> z[i] == 0
  {
    seq(n, _ => 0)
  }

  /** The per-desk counters `CountInRangeConflicts` returns. */
  function InRangeConflicts(w: World, ids: seq<int>): (r: seq<int>)
    requires WorldOk(w) && Seatable(w, ids)
    ensures |r| == |w.desks|
  {
    ScanOrigins(w, ids, Zeros(|w.desks|), 0)
  }

  // ---------------------------------------------------------------------
  // What the scan computes.

  /** Neighbours m in [n, D) of desk d that hold `who` and are near d. */
  function HitsFrom(w: World, ids: seq<int>, d: int, who: int, n: int): nat
    requires WorldOk(w) && Seatable(w, ids)
    requires 0 <= d < |w.desks| && 0 <= n <= |w.desks|
    decreases |w.desks| - n
  {
    if n == |w.desks| then 0
    else (if ids[n] == who && Near(w, d, n) then 1 else 0) + HitsFrom(w, ids, d, who, n + 1)
  }

  /** Sum over neighbours m in [n, D) of how often m's occupant is in `cl`, for
      the neighbours near d. */
  function ListHitsFrom(w: World, ids: seq<int>, d: int, cl: seq<int>, n: int): nat
    requires WorldOk(w) && Seatable(w, ids)
    requires 0 <= d < |w.desks| && 0 <= n <= |w.desks|
    decreases |w.desks| - n
  {
    if n == |w.desks| then 0
    else (if Near(w, d, n) then Occ(cl, ids[n]) else 0) + ListHitsFrom(w, ids, d, cl, n + 1)
  }

  /** Sum of PairCount(i, k) over the origins i in [d, k). */
  function EarlierPairs(w: World, ids: seq<int>, d: int, k: int): nat
    requires WorldOk(w) && Seatable(w, ids)
    requires 0 <= d <= k < |w.desks|
    decreases k - d
  {
    if d == k then 0 else PairCount(w, ids, d, k) + EarlierPairs(w, ids, d + 1, k)
  }

  /** Sum of PairCount(k, j) over the later desks j in [n, D). */
  function LaterPairs(w: World, ids: seq<int>, k: int, n: int): nat
    requires WorldOk(w) && Seatable(w, ids)
    requires 0 <= k < |w.desks| && k < n <= |w.desks|
    decreases |w.desks| - n
  {
    if n == |w.desks| then 0 else PairCount(w, ids, k, n) + LaterPairs(w, ids, k, n + 1)
  }

  lemma {:induction false} ScanNeighborsAt(w: World, ids: seq<int>, cnt: seq<int>, d: int, who: int, n: int, k: int)
    requires WorldOk(w) && Seatable(w, ids) && |cnt| == |w.desks|
    requires 0 <= d < n <= |w.desks| && 0 <= k < |w.desks|
    ensures ScanNeighbors(w, ids, cnt, d, who, n)[k] ==
      cnt[k] + (if k == d then HitsFrom(w, ids, d, who, n)
                else if n <= k && ids[k] == who && Near(w, d, k) then 1 else 0)
    decreases |w.desks| - n
  {
    if n < |w.desks| {
      var next := if ids[n] == who && Near(w, d, n) then cnt[d := cnt[d] + 1][n := cnt[n] + 1] else cnt;
      ScanNeighborsAt(w, ids, next, d, who, n + 1, k);
    }
  }

  lemma {:induction false} ScanNeighborsSum(w: World, ids: seq<int>, cnt: seq<int>, d: int, who: int, n: int)
    requires WorldOk(w) && Seatable(w, ids) && |cnt| == |w.desks|
    requires 0 <= d < n <= |w.desks|
    ensures Sum(ScanNeighbors(w, ids, cnt, d, who, n)) == Sum(cnt) + 2 * HitsFrom(w, ids, d, who, n)
    decreases |w.desks| - n
  {
    if n < |w.desks| {
      var next := if ids[n] == who && Near(w, d, n) then cnt[d := cnt[d] + 1][n := cnt[n] + 1] else cnt;
      ScanNeighborsSum(w, ids, next, d, who, n + 1);
      if ids[n] == who && Near(w, d, n) {
        SumUpdate(cnt, d, cnt[d] + 1);
        SumUpdate(cnt[d := cnt[d] + 1], n, cnt[n] + 1);
      }
    }
  }

  /** Counting the hits of `[c] + rest` neighbour by neighbour equals counting
      those of c and then those of rest. */
  lemma {:induction false} ListHitsCons(w: World, ids: seq<int>, d: int, cl: seq<int>, n: int)
    requires WorldOk(w) && Seatable(w, ids)
    requires 0 <= d < |w.desks| && 0 <= n <= |w.desks| && cl != []
    ensures ListHitsFrom(w, ids, d, cl, n) == HitsFrom(w, ids, d, cl[0], n) + ListHitsFrom(w, ids, d, cl[1..], n)
    decreases |w.desks| - n
  {
    if n < |w.desks| {
      assert cl == [cl[0]] + cl[1..];
      assert multiset(cl) == multiset{cl[0]} + multiset(cl[1..]);
      ListHitsCons(w, ids, d, cl, n + 1);
    }
  }

  lemma {:induction false} ListHitsEmpty(w: World, ids: seq<int>, d: int, n: int)
    requires WorldOk(w) && Seatable(w, ids)
    requires 0 <= d < |w.desks| && 0 <= n <= |w.desks|
    ensures ListHitsFrom(w, ids, d, [], n) == 0
    decreases |w.desks| - n
  {
    if n < |w.desks| {
      ListHitsEmpty(w, ids, d, n + 1);
    }
  }

  lemma {:induction false} ScanConflictorsAt(w: World, ids: seq<int>, cnt: seq<int>, d: int, cl: seq<int>, k: int)
    requires WorldOk(w) && Seatable(w, ids) && |cnt| == |w.desks|
    requires 0 <= d < |w.desks| && 0 <= k < |w.desks|
    ensures ScanConflictors(w, ids, cnt, d, cl)[k] ==
      cnt[k] + (if k == d then ListHitsFrom(w, ids, d, cl, d + 1)
                else if d < k && Near(w, d, k) then Occ(cl, ids[k]) else 0)
    decreases |cl|
  {
    if cl == [] {
      ListHitsEmpty(w, ids, d, d + 1);
    } else {
      var next := ScanNeighbors(w, ids, cnt, d, cl[0], d + 1);
      ScanNeighborsAt(w, ids, cnt, d, cl[0], d + 1, k);
      ScanConflictorsAt(w, ids, next, d, cl[1..], k);
      if k == d {
        ListHitsCons(w, ids, d, cl, d + 1);
      } else {
        assert cl == [cl[0]] + cl[1..];
        assert multiset(cl) == multiset{cl[0]} + multiset(cl[1..]);
        assert Occ(cl, ids[k]) == (if cl[0] == ids[k] then 1 else 0) + Occ(cl[1..], ids[k]);
      }
    }
  }

  lemma {:induction false} ScanConflictorsSum(w: World, ids: seq<int>, cnt: seq<int>, d: int, cl: seq<int>)
    requires WorldOk(w) && Seatable(w, ids) && |cnt| == |w.desks|
    requires 0 <= d < |w.desks|
    ensures Sum(ScanConflictors(w, ids, cnt, d, cl)) == Sum(cnt) + 2 * ListHitsFrom(w, ids, d, cl, d + 1)
    decreases |cl|
  {
    if cl == [] {
      ListHitsEmpty(w, ids, d, d + 1);
    } else {
      ScanNeighborsSum(w, ids, cnt, d, cl[0], d + 1);
      ScanConflictorsSum(w, ids, ScanNeighbors(w, ids, cnt, d, cl[0], d + 1), d, cl[1..]);
      ListHitsCons(w, ids, d, cl, d + 1);
    }
  }

  /** The hits of desk k's own list over the later desks are the pairs (k, j). */
  lemma {:induction false} ListHitsAreLaterPairs(w: World, ids: seq<int>, k: int, n: int)
    requires WorldOk(w) && Seatable(w, ids)
    requires 0 <= k < |w.desks| && k < n <= |w.desks|
    ensures ListHitsFrom(w, ids, k, w.conflicts[ids[k]], n) == LaterPairs(w, ids, k, n)
    decreases |w.desks| - n
  {
    if n < |w.desks| {
      ListHitsAreLaterPairs(w, ids, k, n + 1);
    }
  }

  /** Sum of the origin hits of desks d, d + 1, ..., the events of the outer loop. */
  function OriginEvents(w: World, ids: seq<int>, d: int): nat
    requires WorldOk(w) && Seatable(w, ids)
    requires 0 <= d <= |w.desks|
    decreases |w.desks| - d
  {
    if d == |w.desks| then 0
    else ListHitsFrom(w, ids, d, w.conflicts[ids[d]], d + 1) + OriginEvents(w, ids, d + 1)
  }

  lemma {:induction false} ScanOriginsAt(w: World, ids: seq<int>, cnt: seq<int>, d: int, k: int)
    requires WorldOk(w) && Seatable(w, ids) && |cnt| == |w.desks|
    requires 0 <= d <= |w.desks| && 0 <= k < |w.desks|
    ensures ScanOrigins(w, ids, cnt, d)[k] ==
      cnt[k] + (if d <= k then EarlierPairs(w, ids, d, k) + LaterPairs(w, ids, k, k + 1) else 0)
    decreases |w.desks| - d
  {
    if d < |w.desks| {
      var cl := w.conflicts[ids[d]];
      var next := ScanConflictors(w, ids, cnt, d, cl);
      ScanConflictorsAt(w, ids, cnt, d, cl, k);
      ScanOriginsAt(w, ids, next, d + 1, k);
      if d < k {
        assert next[k] == cnt[k] + PairCount(w, ids, d, k);
        assert EarlierPairs(w, ids, d, k) == PairCount(w, ids, d, k) + EarlierPairs(w, ids, d + 1, k);
      } else if d == k {
        ListHitsAreLaterPairs(w, ids, k, k + 1);
        assert next[k] == cnt[k] + LaterPairs(w, ids, k, k + 1);
      } else {
        assert next[k] == cnt[k];
      }
    }
  }

  lemma {:induction false} ScanOriginsSum(w: World, ids: seq<int>, cnt: seq<int>, d: int)
    requires WorldOk(w) && Seatable(w, ids) && |cnt| == |w.desks|
    requires 0 <= d <= |w.desks|
    ensures Sum(ScanOrigins(w, ids, cnt, d)) == Sum(cnt) + 2 * OriginEvents(w, ids, d)
    decreases |w.desks| - d
  {
    if d < |w.desks| {
      ScanConflictorsSum(w, ids, cnt, d, w.conflicts[ids[d]]);
      ScanOriginsSum(w, ids, ScanConflictors(w, ids, cnt, d, w.conflicts[ids[d]]), d + 1);
    }
  }

  /** Desk k's counter is the number of pairs i < j with k in {i, j} whose
      occupants conflict (counted as often as the partner occurs in the list)
      and whose desks have fewer than two separators between them. */
  lemma InRangeConflictsAt(w: World, ids: seq<int>, k: int)
    requires WorldOk(w) && Seatable(w, ids)
    requires 0 <= k < |w.desks|
    ensures InRangeConflicts(w, ids)[k] == EarlierPairs(w, ids, 0, k) + LaterPairs(w, ids, k, k + 1)
  {
    ScanOriginsAt(w, ids, Zeros(|w.desks|), 0, k);
  }

  lemma ZerosSum(n: nat)
    ensures Sum(Zeros(n)) == 0
  {
    if n > 0 {
      assert Zeros(n)[..n - 1] == Zeros(n - 1);
      ZerosSum(n - 1);
    }
  }

  /** Every match raises two counters, so the counters sum to twice the number
      of matches, an even number. */
  lemma InRangeConflictsSumEven(w: World, ids: seq<int>)
    requires WorldOk(w) && Seatable(w, ids)
    ensures Sum(InRangeConflicts(w, ids)) == 2 * OriginEvents(w, ids, 0)
    ensures Sum(InRangeConflicts(w, ids)) % 2 == 0
  {
    ZerosSum(|w.desks|);
    ScanOriginsSum(w, ids, Zeros(|w.desks|), 0);
  }

  /** The innermost loop of `CountInRangeConflicts`: desks after `deskIndex`
      that hold `conflictor` with fewer than two separators between them raise
      both counters. */
  method CountNeighborConflicts(w: World, ids: seq<int>, conflictCounter: array<int>, deskIndex: int, conflictor: int)
    requires WorldOk(w) && Seatable(w, ids) && conflictCounter.Length == |w.desks|
    requires 0 <= deskIndex < |w.desks|
    modifies conflictCounter
    ensures conflictCounter[..] == ScanNeighbors(w, ids, old(conflictCounter[..]), deskIndex, conflictor, deskIndex + 1)
  {
    var n := |w.desks|;
    for neighborIndex := deskIndex + 1 to n
      invariant ScanNeighbors(w, ids, conflictCounter[..], deskIndex, conflictor, neighborIndex)
        == ScanNeighbors(w, ids, old(conflictCounter[..]), deskIndex, conflictor, deskIndex + 1)
    {
      ghost var before := conflictCounter[..];
      if ids[neighborIndex] == conflictor {
        var seperators := Desks.SeparatorsAsWritten(w.desks[deskIndex].Row, w.desks[neighborIndex].Row);
        if seperators < 2 {
          conflictCounter[deskIndex] := conflictCounter[deskIndex] + 1;
          conflictCounter[neighborIndex] := conflictCounter[neighborIndex] + 1;
        }
      }
      assert conflictCounter[..] ==
        if ids[neighborIndex] == conflictor && Near(w, deskIndex, neighborIndex)
        then before[deskIndex := before[deskIndex] + 1][neighborIndex := before[neighborIndex] + 1]
        else before;
    }
  }

  /** `CountInRangeConflicts`: for each desk, each conflict partner of its
      occupant, and each later desk, count both desks when the later desk holds
      that partner and fewer than two separators lie between them. */
  method CountInRangeConflicts(w: World, ids: seq<int>) returns (conflictCounter: array<int>)
    requires WorldOk(w) && Seatable(w, ids)
    ensures fresh(conflictCounter)
    ensures conflictCounter[..] == InRangeConflicts(w, ids)
  {
    var n := |w.desks|;
    conflictCounter := new int[n](_ => 0);
    assert conflictCounter[..] == Zeros(n);
    for deskIndex := 0 to n
      invariant ScanOrigins(w, ids, conflictCounter[..], deskIndex) == InRangeConflicts(w, ids)
    {
      var cl := w.conflicts[ids[deskIndex]];
      for c := 0 to |cl|
        invariant ScanOrigins(w, ids, ScanConflictors(w, ids, conflictCounter[..], deskIndex, cl[c..]), deskIndex + 1)
          == InRangeConflicts(w, ids)
      {
        assert cl[c..] == [cl[c]] + cl[c + 1..];
        CountNeighborConflicts(w, ids, conflictCounter, deskIndex, cl[c]);
      }
      assert cl[|cl|..] == [];
    }
  }

  // ---------------------------------------------------------------------
  // Occurrence counting.

  /** How often each employee index 0 .. n - 1 occurs in the layout. */
  function Occurrences(ids: seq<int>, n: nat): (occ: seq<int>)
    ensures |occ| == n
  {
    seq(n, e => Occ(ids, e))
  }

  /** `CountEmployeeOccurences`: one counter per employee, raised once for each
      layout slot holding that employee. */
  method CountEmployeeOccurences(w: World, ids: seq<int>) returns (occurenceCounts: array<int>)
    requires AllBelow(ids, |w.employees|)
    ensures fresh(occurenceCounts)
    ensures occurenceCounts[..] == Occurrences(ids, |w.employees|)
  {
    occurenceCounts := new int[|w.employees|](_ => 0);
    for k := 0 to |ids|
      invariant occurenceCounts[..] == Occurrences(ids[..k], |w.employees|)
    {
      var employeeIdx := ids[k];
      assert ids[..k + 1] == ids[..k] + [employeeIdx];
      occurenceCounts[employeeIdx] := occurenceCounts[employeeIdx] + 1;
    }
    assert ids[..|ids|] == ids;
  }

  /** Every slot names an employee, so the counts add up to the layout length. */
  lemma {:induction false} OccurrencesSum(ids: seq<int>, n: nat)
    requires AllBelow(ids, n)
    ensures Sum(Occurrences(ids, n)) == |ids|
    decreases |ids|
  {
    if ids == [] {
      assert Occurrences(ids, n) == Zeros(n);
      ZerosSum(n);
    } else {
      var m := |ids| - 1;
      var x := ids[m];
      assert ids == ids[..m] + [x];
      OccurrencesSum(ids[..m], n);
      assert Occurrences(ids, n) == Occurrences(ids[..m], n)[x := Occ(ids[..m], x) + 1];
      SumUpdate(Occurrences(ids[..m], n), x, Occ(ids[..m], x) + 1);
    }
  }

  /** A layout repeats nobody exactly when no count exceeds one. */
  lemma OccurrencesAtMostOne(ids: seq<int>, n: nat)
    requires AllBelow(ids, n)
    ensures NoDuplicates(ids) <==> forall e :: 0 <= e < n ==> Occurrences(ids, n)[e] <= 1
  {
    if NoDuplicates(ids) {
      forall e | 0 <= e < n ensures Occurrences(ids, n)[e] <= 1 {
        MultisetAtMostOne(ids, e);
      }
    }
    if !NoDuplicates(ids) {
      var i, j :| 0 <= i < j < |ids| && ids[i] == ids[j];
      MultisetAtLeastTwo(ids, i, j);
      assert Occurrences(ids, n)[ids[i]] >= 2;
    }
  }

  // ---------------------------------------------------------------------
  // Fitness.

  /** `EmptyDesks`: placeholder employees are the ones with team 0. */
  function EmptyDesks(employees: seq<Person>): (r: nat)
    ensures r <= |employees|
  {
    if employees == [] then 0
    else EmptyDesks(employees[..|employees| - 1]) + (if employees[|employees| - 1].Team == 0 then 1 else 0)
  }

  /** When every employee is a placeholder every desk is an empty one; when
      nobody is, none is. */
  lemma {:induction false} EmptyDesksExtremes(employees: seq<Person>)
    ensures (forall i :: 0 <= i < |employees| ==> employees[i].Team == 0) ==> EmptyDesks(employees) == |employees|
    ensures (forall i :: 0 <= i < |employees| ==> employees[i].Team != 0) ==> EmptyDesks(employees) == 0
    decreases |employees|
  {
    if employees != [] {
      var front := employees[..|employees| - 1];
      EmptyDesksExtremes(front);
      assert forall i :: 0 <= i < |front| ==> front[i] == employees[i];
    }
  }

  /** Sum of the conflict-list lengths of the occupants of desks 0 .. k - 1. */
  function ConflictCapacity(w: World, ids: seq<int>, k: int): (r: int)
    requires WorldOk(w) && Seatable(w, ids) && 0 <= k <= |w.desks|
    ensures r >= 0
  {
    if k == 0 then 0 else ConflictCapacity(w, ids, k - 1) + |w.conflicts[ids[k - 1]]|
  }

  /** An occupant sits at the wrong team's desk: the desk belongs to a team,
      the person has a team, and they differ. */
  predicate WrongTeam(w: World, ids: seq<int>, i: int)
    requires Seatable(w, ids) && 0 <= i < |w.desks|
  {
    var p := w.employees[ids[i]];
    w.desks[i].TeamNumber != 0 && p.Team != 0 && p.Team != w.desks[i].TeamNumber
  }

  /** Desks 0 .. k - 1 seated at the wrong team's desk. */
  function WrongTeamCount(w: World, ids: seq<int>, k: int): (r: int)
    requires Seatable(w, ids) && 0 <= k <= |w.desks|
    ensures 0 <= r <= k
  {
    if k == 0 then 0 else WrongTeamCount(w, ids, k - 1) + (if WrongTeam(w, ids, k - 1) then 1 else 0)
  }

  /** The target names a desk's prior occupant (or -1) for every desk, and its
      occupants are today's employees. */
  predicate TargetFits(w: World, t: PriorTarget) {
    |t.layout| >= |w.desks| && forall i :: 0 <= i < |w.desks| ==> t.layout[i] < |w.employees|
  }

  /** Desk i keeps its prior occupant: the target has one (an entry >= 0) and
      it is the same person, compared by index. */
  predicate PriorMatch(w: World, t: PriorTarget, ids: seq<int>, i: int)
    requires Seatable(w, ids) && TargetFits(w, t) && 0 <= i < |w.desks|
  {
    t.layout[i] >= 0 && w.employees[ids[i]].Index == w.employees[t.layout[i]].Index
  }

  function PriorMatches(w: World, t: PriorTarget, ids: seq<int>, k: int): (r: int)
    requires Seatable(w, ids) && TargetFits(w, t) && 0 <= k <= |w.desks|
    ensures 0 <= r <= k
  {
    if k == 0 then 0 else PriorMatches(w, t, ids, k - 1) + (if PriorMatch(w, t, ids, k - 1) then 1 else 0)
  }

  /** The three ratios `GetFitness` combines. */
  datatype Ratios = Ratios(conflict: real, wrongTeam: real, previousSeat: real)

  /** The conflict, wrong-team and previous-seat ratios of a layout; None where
      a denominator is zero (the source divides doubles and gets NaN or an
      infinity there). */
  function FitnessRatios(w: World, prior: Option<PriorTarget>, ids: seq<int>): (r: Option<Ratios>)
    requires WorldOk(w) && Seatable(w, ids)
    requires prior.Some? ==> TargetFits(w, prior.value)
    ensures r.Some? <==> ConflictCapacity(w, ids, |w.desks|) != 0 && |w.desks| != EmptyDesks(w.employees)
  {
    var maxConflicts := ConflictCapacity(w, ids, |w.desks|);
    var teamSeats := |w.desks| - EmptyDesks(w.employees);
    if maxConflicts == 0 || teamSeats == 0 then None
    else
      Some(Ratios(
        Sum(InRangeConflicts(w, ids)) as real / maxConflicts as real,
        WrongTeamCount(w, ids, |w.desks|) as real / teamSeats as real,
        PreviousSeatRatio(w, prior, ids)))
  }

  /** Kept seats over carried-over employees; 1 when nobody carries over. */
  function PreviousSeatRatio(w: World, prior: Option<PriorTarget>, ids: seq<int>): real
    requires Seatable(w, ids)
    requires prior.Some? ==> TargetFits(w, prior.value)
  {
    var carryOver := if prior.Some? then prior.value.carryOver else 0;
    var matches := if prior.Some? then PriorMatches(w, prior.value, ids, |w.desks|) else 0;
    if carryOver != 0 then matches as real / carryOver as real else 1.0
  }

  /** The score: a conflict-free layout earns a bonus of 10; conflicts weigh
      twice as much as team seating and seat continuity. */
  function Score(r: Ratios): real {
    if r.conflict == 0.0 then 10.0 + ((1.0 - r.wrongTeam) + r.previousSeat) * 0.5
    else (1.0 - r.conflict) + ((1.0 - r.wrongTeam) + r.previousSeat) * 0.5
  }

  function Fitness(w: World, prior: Option<PriorTarget>, ids: seq<int>): Option<real>
    requires WorldOk(w) && Seatable(w, ids)
    requires prior.Some? ==> TargetFits(w, prior.value)
  {
    match FitnessRatios(w, prior, ids)
    case None => None
    case Some(r) => Some(Score(r))
  }

  /** Ratios between 0 and 1. */
  predicate Proper(r: Ratios) {
    0.0 <= r.conflict <= 1.0 && 0.0 <= r.wrongTeam <= 1.0 && 0.0 <= r.previousSeat <= 1.0
  }

  /** With proper ratios, any conflict-free layout outscores any layout with a
      conflict: the first scores at least 10, the second at most 2. */
  lemma ConflictFreeOutranks(a: Ratios, b: Ratios)
    requires Proper(a) && Proper(b)
    requires a.conflict == 0.0 && b.conflict > 0.0
    ensures 10.0 <= Score(a) <= 11.0
    ensures Score(b) < 2.0
    ensures Score(b) < Score(a)
  {
  }

  /** Among layouts with the same conflict status and conflict ratio, fewer
      wrong-team seats and more kept seats never lower the score. */
  lemma ScoreMonotone(a: Ratios, b: Ratios)
    requires (a.conflict == 0.0) == (b.conflict == 0.0)
    requires a.conflict == b.conflict
    requires a.wrongTeam <= b.wrongTeam && a.previousSeat >= b.previousSeat
    ensures Score(a) >= Score(b)
  {
  }

  /** The conflict ratio is zero exactly when no desk's counter is raised. */
  lemma ConflictRatioZero(w: World, prior: Option<PriorTarget>, ids: seq<int>)
    requires WorldOk(w) && Seatable(w, ids)
    requires prior.Some? ==> TargetFits(w, prior.value)
    requires FitnessRatios(w, prior, ids).Some?
    ensures FitnessRatios(w, prior, ids).value.conflict == 0.0 <==> OriginEvents(w, ids, 0) == 0
    ensures FitnessRatios(w, prior, ids).value.conflict >= 0.0
  {
    InRangeConflictsSumEven(w, ids);
  }

  // ---------------------------------------------------------------------
  // The conflict ratio of a real layout lies in [0, 1].

  /** What `ConflictGraph.Valid` promises of the conflict lists: none repeats
      an entry, and the relation is symmetric. */
  predicate ConflictsSymmetric(w: World) {
    && (forall e :: 0 <= e < |w.conflicts| ==> NoDuplicates(w.conflicts[e]))
    && (forall a, b :: 0 <= a < |w.conflicts| && 0 <= b < |w.conflicts| ==>
          (b in w.conflicts[a] <==> a in w.conflicts[b]))
  }

  /** No employee occupies two desks. */
  predicate DistinctOccupants(w: World, ids: seq<int>)
    requires Seatable(w, ids)
  {
    forall i, j :: 0 <= i < j < |w.desks| ==> ids[i] != ids[j]
  }

  /** The lists of a valid conflict graph are symmetric. */
  lemma GraphIsSymmetric(g: ConflictGraph, w: World)
    requires g.Valid() && w.conflicts == g.conflicts[..]
    ensures ConflictsSymmetric(w)
  {
    forall e | 0 <= e < |w.conflicts|
      ensures NoDuplicates(w.conflicts[e])
    {
      assert WellFormedList(e, g.conflicts[e], g.conflicts.Length);
    }
  }

  /** With symmetric lists, b is in a's list exactly as often as a is in b's. */
  lemma OccSymmetric(w: World, a: int, b: int)
    requires WorldOk(w) && ConflictsSymmetric(w)
    requires 0 <= a < |w.conflicts| && 0 <= b < |w.conflicts|
    ensures Occ(w.conflicts[a], b) == Occ(w.conflicts[b], a)
  {
    MultisetAtMostOne(w.conflicts[a], b);
    MultisetAtMostOne(w.conflicts[b], a);
    assert (b in w.conflicts[a]) == (b in multiset(w.conflicts[a]));
    assert (a in w.conflicts[b]) == (a in multiset(w.conflicts[b]));
  }

  /** How often the occupants of desks m .. D - 1, desk k excepted, occur in cl. */
  function OtherHits(w: World, ids: seq<int>, cl: seq<int>, k: int, m: int): nat
    requires Seatable(w, ids) && 0 <= m <= |w.desks|
    decreases |w.desks| - m
  {
    if m == |w.desks| then 0
    else (if m == k then 0 else Occ(cl, ids[m])) + OtherHits(w, ids, cl, k, m + 1)
  }

  lemma {:induction false} LaterBound(w: World, ids: seq<int>, k: int, n: int)
    requires WorldOk(w) && Seatable(w, ids)
    requires 0 <= k < |w.desks| && k < n <= |w.desks|
    ensures LaterPairs(w, ids, k, n) <= OtherHits(w, ids, w.conflicts[ids[k]], k, n)
    decreases |w.desks| - n
  {
    if n < |w.desks| {
      LaterBound(w, ids, k, n + 1);
    }
  }

  lemma {:induction false} EarlierBound(w: World, ids: seq<int>, d: int, k: int)
    requires WorldOk(w) && Seatable(w, ids) && ConflictsSymmetric(w)
    requires 0 <= d <= k < |w.desks|
    ensures EarlierPairs(w, ids, d, k) + LaterPairs(w, ids, k, k + 1)
      <= OtherHits(w, ids, w.conflicts[ids[k]], k, d)
    decreases k - d
  {
    if d == k {
      LaterBound(w, ids, k, k + 1);
    } else {
      EarlierBound(w, ids, d + 1, k);
      OccSymmetric(w, ids[d], ids[k]);
    }
  }

  lemma {:induction false} OtherHitsSplit(w: World, ids: seq<int>, a: seq<int>, c: int, k: int, m: int)
    requires Seatable(w, ids) && 0 <= m <= |w.desks|
    ensures OtherHits(w, ids, a + [c], k, m) == OtherHits(w, ids, a, k, m) + OtherHits(w, ids, [c], k, m)
    decreases |w.desks| - m
  {
    if m < |w.desks| {
      OtherHitsSplit(w, ids, a, c, k, m + 1);
      assert multiset(a + [c]) == multiset(a) + multiset([c]);
    }
  }

  lemma {:induction false} OtherHitsAbsent(w: World, ids: seq<int>, c: int, k: int, m: int)
    requires Seatable(w, ids) && 0 <= m <= |w.desks|
    requires forall j :: m <= j < |w.desks| ==> ids[j] != c
    ensures OtherHits(w, ids, [c], k, m) == 0
    decreases |w.desks| - m
  {
    if m < |w.desks| {
      OtherHitsAbsent(w, ids, c, k, m + 1);
      assert multiset([c])[ids[m]] == 0;
    }
  }

  lemma {:induction false} OtherHitsSingle(w: World, ids: seq<int>, c: int, k: int, m: int)
    requires Seatable(w, ids) && DistinctOccupants(w, ids) && 0 <= m <= |w.desks|
    ensures OtherHits(w, ids, [c], k, m) <= 1
    decreases |w.desks| - m
  {
    if m < |w.desks| {
      if ids[m] == c {
        OtherHitsAbsent(w, ids, c, k, m + 1);
      } else {
        OtherHitsSingle(w, ids, c, k, m + 1);
        assert multiset([c])[ids[m]] == 0;
      }
    }
  }

  /** Distinct occupants hit a list at most as often as it has entries. */
  lemma {:induction false} OtherHitsBound(w: World, ids: seq<int>, cl: seq<int>, k: int, m: int)
    requires Seatable(w, ids) && DistinctOccupants(w, ids) && 0 <= m <= |w.desks|
    ensures OtherHits(w, ids, cl, k, m) <= |cl|
    decreases |cl|
  {
    if cl == [] {
      OtherHitsEmpty(w, ids, k, m);
    } else {
      var a, c := cl[..|cl| - 1], cl[|cl| - 1];
      assert cl == a + [c];
      OtherHitsSplit(w, ids, a, c, k, m);
      OtherHitsBound(w, ids, a, k, m);
      OtherHitsSingle(w, ids, c, k, m);
    }
  }

  lemma {:induction false} OtherHitsEmpty(w: World, ids: seq<int>, k: int, m: int)
    requires Seatable(w, ids) && 0 <= m <= |w.desks|
    ensures OtherHits(w, ids, [], k, m) == 0
    decreases |w.desks| - m
  {
    if m < |w.desks| {
      OtherHitsEmpty(w, ids, k, m + 1);
    }
  }

  /** Each desk's counter is at most the length of its occupant's list. */
  lemma CounterWithinList(w: World, ids: seq<int>, k: int)
    requires WorldOk(w) && Seatable(w, ids) && ConflictsSymmetric(w) && DistinctOccupants(w, ids)
    requires 0 <= k < |w.desks|
    ensures InRangeConflicts(w, ids)[k] <= |w.conflicts[ids[k]]|
  {
    InRangeConflictsAt(w, ids, k);
    EarlierBound(w, ids, 0, k);
    OtherHitsBound(w, ids, w.conflicts[ids[k]], k, 0);
  }

  lemma {:induction false} CountersWithinCapacityUpTo(w: World, ids: seq<int>, k: int)
    requires WorldOk(w) && Seatable(w, ids) && ConflictsSymmetric(w) && DistinctOccupants(w, ids)
    requires 0 <= k <= |w.desks|
    ensures Sum(InRangeConflicts(w, ids)[..k]) <= ConflictCapacity(w, ids, k)
  {
    if k > 0 {
      var s := InRangeConflicts(w, ids);
      CountersWithinCapacityUpTo(w, ids, k - 1);
      CounterWithinList(w, ids, k - 1);
      assert s[..k] == s[..k - 1] + [s[k - 1]];
      SumAppend(s[..k - 1], s[k - 1]);
    }
  }

  /** With symmetric lists and no employee seated twice, the counters never
      sum past the conflict capacity, so the conflict ratio lies in [0, 1]. */
  lemma ConflictRatioProper(w: World, prior: Option<PriorTarget>, ids: seq<int>)
    requires WorldOk(w) && Seatable(w, ids) && ConflictsSymmetric(w) && DistinctOccupants(w, ids)
    requires prior.Some? ==> TargetFits(w, prior.value)
    requires FitnessRatios(w, prior, ids).Some?
    ensures Sum(InRangeConflicts(w, ids)) <= ConflictCapacity(w, ids, |w.desks|)
    ensures 0.0 <= FitnessRatios(w, prior, ids).value.conflict <= 1.0
  {
    var s := InRangeConflicts(w, ids);
    CountersWithinCapacityUpTo(w, ids, |w.desks|);
    assert s[..|w.desks|] == s;
    InRangeConflictsSumEven(w, ids);
    FractionInUnit(Sum(s) as real, ConflictCapacity(w, ids, |w.desks|) as real);
  }

  /** Desks 0 .. k - 1 whose target entry is a prior occupant. */
  function TargetedUpTo(t: PriorTarget, k: int): (r: nat)
    requires 0 <= k <= |t.layout|
  {
    if k == 0 then 0 else TargetedUpTo(t, k - 1) + (if t.layout[k - 1] >= 0 then 1 else 0)
  }

  /** Prior matches never exceed the desks that have a prior occupant. */
  lemma {:induction false} PriorMatchesBounded(w: World, t: PriorTarget, ids: seq<int>, k: int)
    requires Seatable(w, ids) && TargetFits(w, t) && 0 <= k <= |w.desks|
    ensures PriorMatches(w, t, ids, k) <= TargetedUpTo(t, k)
  {
    if k > 0 {
      PriorMatchesBounded(w, t, ids, k - 1);
    }
  }

  lemma {:induction false} TargetedMonotone(t: PriorTarget, k: int, m: int)
    requires 0 <= k <= m <= |t.layout|
    ensures TargetedUpTo(t, k) <= TargetedUpTo(t, m)
    decreases m - k
  {
    if k < m {
      TargetedMonotone(t, k, m - 1);
    }
  }

  /** When the carry-over count is the number of non-negative target entries
      (as `LoadPriorSeating` sets it), the previous-seat ratio lies in [0, 1]. */
  lemma PreviousSeatRatioBounded(w: World, t: PriorTarget, ids: seq<int>)
    requires Seatable(w, ids) && TargetFits(w, t)
    requires t.carryOver == TargetedUpTo(t, |t.layout|)
    ensures 0.0 <= PreviousSeatRatio(w, Some(t), ids) <= 1.0
  {
    PriorMatchesBounded(w, t, ids, |w.desks|);
    TargetedMonotone(t, |w.desks|, |t.layout|);
    var m := PriorMatches(w, t, ids, |w.desks|);
    if t.carryOver != 0 {
      FractionInUnit(m as real, t.carryOver as real);
    }
  }

  /** 0 <= a <= b with b positive gives a / b in [0, 1]. */
  lemma FractionInUnit(a: real, b: real)
    requires 0.0 <= a <= b && 0.0 < b
    ensures 0.0 <= a / b <= 1.0
  {
    assert a / b * b == a;
  }

  /** `GetFitness`: the conflict counters, then one pass over the desks adding
      up conflict capacity, raised counters, wrong-team seats and kept seats,
      then the ratios and the score. */
  method GetFitness(w: World, prior: Option<PriorTarget>, ids: seq<int>) returns (fitness: Option<real>)
    requires WorldOk(w) && Seatable(w, ids)
    requires prior.Some? ==> TargetFits(w, prior.value)
    ensures fitness == Fitness(w, prior, ids)
  {
    var conflictCounts := CountInRangeConflicts(w, ids);
    var maxConflicts := 0;
    var currentConflict := 0;
    var currentOtherTeamDeskSitters := 0;
    var priorSeatMatches := 0;
    for i := 0 to conflictCounts.Length
      invariant maxConflicts == ConflictCapacity(w, ids, i)
      invariant currentConflict == Sum(conflictCounts[..i])
      invariant currentOtherTeamDeskSitters == WrongTeamCount(w, ids, i)
      invariant prior.Some? ==> priorSeatMatches == PriorMatches(w, prior.value, ids, i)
    {
      var currentPerson := w.employees[ids[i]];
      maxConflicts := maxConflicts + |w.conflicts[ids[i]]|;
      assert conflictCounts[..i + 1][..i] == conflictCounts[..i];
      currentConflict := currentConflict + conflictCounts[i];
      if w.desks[i].TeamNumber != 0 && currentPerson.Team != 0 && currentPerson.Team != w.desks[i].TeamNumber {
        currentOtherTeamDeskSitters := currentOtherTeamDeskSitters + 1;
      }
      if prior.Some? && prior.value.layout[i] >= 0 {
        priorSeatMatches := priorSeatMatches + if currentPerson.Index == w.employees[prior.value.layout[i]].Index then 1 else 0;
      }
    }
    assert conflictCounts[..conflictCounts.Length] == conflictCounts[..];
    var teamSeats := |w.desks| - EmptyDesks(w.employees);
    if maxConflicts == 0 || teamSeats == 0 {
      return None;
    }
    var percetageOfConflictsActive := currentConflict as real / maxConflicts as real;
    var percetageNotInTeamOrSharedSeats := currentOtherTeamDeskSitters as real / teamSeats as real;
    var percetageInPreviousSeat := 1.0;
    var carryOver := if prior.Some? then prior.value.carryOver else 0;
    if carryOver != 0 {
      percetageInPreviousSeat := priorSeatMatches as real / carryOver as real;
    }
    fitness := Some(Score(Ratios(percetageOfConflictsActive, percetageNotInTeamOrSharedSeats, percetageInPreviousSeat)));
  }

  // ---------------------------------------------------------------------
  // Prior seating.

  /** The placeholder name of an empty desk. */
  const EmptyDeskName := "EMPTY DESK"

  /** Today's index of the first employee at or after i with the name and team
      of `p`, or -1 if there is none. */
  function FirstMatch(today: seq<Person>, p: Person, i: nat): (r: int)
    requires i <= |today|
    ensures r == -1 || (i <= r < |today| && today[r].Name == p.Name && today[r].Team == p.Team)
    ensures r == -1 <==> forall m :: i <= m < |today| ==> !(today[m].Name == p.Name && today[m].Team == p.Team)
    ensures r != -1 ==> forall m :: i <= m < r ==> !(today[m].Name == p.Name && today[m].Team == p.Team)
    decreases |today| - i
  {
    if i == |today| then -1
    else if today[i].Name == p.Name && today[i].Team == p.Team then i
    else FirstMatch(today, p, i + 1)
  }

  /** Today's index for a prior employee: the first match on name and team,
      or -1 when there is none or the match is an empty-desk placeholder. */
  function MapPrior(today: seq<Person>, p: Person): (r: int)
    ensures -1 <= r < |today|
    ensures r != -1 ==> today[r].Name == p.Name && today[r].Team == p.Team && today[r].Name != EmptyDeskName
    ensures r != -1 ==> forall m :: 0 <= m < r ==> !(today[m].Name == p.Name && today[m].Team == p.Team)
    ensures r == -1 <==>
      || (forall m :: 0 <= m < |today| ==> !(today[m].Name == p.Name && today[m].Team == p.Team))
      || (exists k :: && 0 <= k < |today| && today[k].Name == p.Name && today[k].Team == p.Team
                      && today[k].Name == EmptyDeskName
                      && forall m :: 0 <= m < k ==> !(today[m].Name == p.Name && today[m].Team == p.Team))
  {
    var m := FirstMatch(today, p, 0);
    if m == -1 then -1
    else if today[m].Name == EmptyDeskName then
      assert today[m].Name == p.Name && today[m].Team == p.Team;
      -1
    else
      FirstMatchIsFirst(today, p);
      m
  }

  /** A match with no match before it is the first match. */
  lemma FirstMatchIsFirst(today: seq<Person>, p: Person)
    ensures forall k :: && 0 <= k < |today| && today[k].Name == p.Name && today[k].Team == p.Team
                        && (forall m :: 0 <= m < k ==> !(today[m].Name == p.Name && today[m].Team == p.Team))
                        ==> FirstMatch(today, p, 0) == k
  {
    var r := FirstMatch(today, p, 0);
    forall k | && 0 <= k < |today| && today[k].Name == p.Name && today[k].Team == p.Team
               && (forall m :: 0 <= m < k ==> !(today[m].Name == p.Name && today[m].Team == p.Team))
      ensures r == k
    {
      assert r != -1;
    }
  }

  /** Number of non-negative entries, the carry-over count. */
  function CountNonNegative(s: seq<int>): (r: nat)
    ensures r <= |s|
  {
    if s == [] then 0 else CountNonNegative(s[..|s| - 1]) + (if s[|s| - 1] >= 0 then 1 else 0)
  }

  lemma {:induction false} CountNonNegativeIsTargeted(t: PriorTarget, k: int)
    requires 0 <= k <= |t.layout|
    ensures CountNonNegative(t.layout[..k]) == TargetedUpTo(t, k)
  {
    if k > 0 {
      assert t.layout[..k][..k - 1] == t.layout[..k - 1];
      CountNonNegativeIsTargeted(t, k - 1);
    }
  }

  /** The remapped layout: each desk's prior occupant, in today's indices. */
  function Remap(today: seq<Person>, priorEmployees: seq<Person>, raw: seq<int>): (r: seq<int>)
    requires AllBelow(raw, |priorEmployees|)
    ensures |r| == |raw|
  {
    seq(|raw|, i requires 0 <= i < |raw| => MapPrior(today, priorEmployees[raw[i]]))
  }

  /** The first loop of `LoadPriorSeating`: each prior employee's index in
      today's roster, by the first name-and-team match (-1 for an empty desk
      or a person not on today's roster). */
  method PriorToToday(today: seq<Person>, priorEmployees: seq<Person>) returns (oldToNew: array<int>)
    ensures fresh(oldToNew) && oldToNew.Length == |priorEmployees|
    ensures forall k :: 0 <= k < oldToNew.Length ==> oldToNew[k] == MapPrior(today, priorEmployees[k])
  {
    oldToNew := new int[|priorEmployees|](_ => -1);
    for j := 0 to |priorEmployees|
      invariant forall k :: 0 <= k < j ==> oldToNew[k] == MapPrior(today, priorEmployees[k])
      invariant forall k :: j <= k < oldToNew.Length ==> oldToNew[k] == -1
    {
      var i := 0;
      while i < |today|
        invariant i <= |today|
        invariant FirstMatch(today, priorEmployees[j], i) == FirstMatch(today, priorEmployees[j], 0)
        invariant forall k :: 0 <= k < j ==> oldToNew[k] == MapPrior(today, priorEmployees[k])
        invariant forall k :: j <= k < oldToNew.Length ==> oldToNew[k] == -1
      {
        if today[i].Name != priorEmployees[j].Name || today[i].Team != priorEmployees[j].Team {
          i := i + 1;
          continue;
        }
        oldToNew[j] := if today[i].Name == EmptyDeskName then -1 else i;
        break;
      }
    }
  }

  /** `LoadPriorSeating` after the file is read: map each prior employee to
      today's index by the first name-and-team match (empty desks and absent
      people to -1), rewrite the prior layout through that map, and count the
      carried-over desks. */
  method LoadPriorSeating(today: seq<Person>, priorEmployees: seq<Person>, raw: seq<int>) returns (target: PriorTarget)
    requires AllBelow(raw, |priorEmployees|)
    ensures target.layout == Remap(today, priorEmployees, raw)
    ensures target.carryOver == CountNonNegative(target.layout)
  {
    var oldToNew := PriorToToday(today, priorEmployees);
    var newRawChrome := new int[|raw|];
    for i := 0 to |raw|
      invariant forall k :: 0 <= k < oldToNew.Length ==> oldToNew[k] == MapPrior(today, priorEmployees[k])
      invariant forall k :: 0 <= k < i ==> newRawChrome[k] == MapPrior(today, priorEmployees[raw[k]])
    {
      var oldPersonIndex := raw[i];
      if oldToNew[oldPersonIndex] == -1 {
        newRawChrome[i] := -1;
        continue;
      }
      newRawChrome[i] := oldToNew[raw[i]];
    }
    assert newRawChrome[..] == Remap(today, priorEmployees, raw);
    target := PriorTarget(newRawChrome[..], CountNonNegative(newRawChrome[..]));
  }

  /** Loading against an unchanged roster whose non-placeholder (name, team)
      pairs are unique sends every real employee back to the same index and
      every placeholder to -1. */
  lemma RemapSameRoster(today: seq<Person>, raw: seq<int>, i: int)
    requires AllBelow(raw, |today|)
    requires forall a, b :: 0 <= a < b < |today| && today[a].Name != EmptyDeskName ==>
      !(today[a].Name == today[b].Name && today[a].Team == today[b].Team)
    requires 0 <= i < |raw|
    ensures Remap(today, today, raw)[i] == if today[raw[i]].Name == EmptyDeskName then -1 else raw[i]
  {
    var x := raw[i];
    var m := FirstMatch(today, today[x], 0);
    assert m != -1 by {
      assert today[x].Name == today[x].Name && today[x].Team == today[x].Team;
    }
    assert m <= x;
  }

  /** A roster re-indexed overnight: prior employee j is today's employee
      pi[j], or pi[j] = -1 when nobody of that name and team came in or j was
      an empty desk. With today's real name-and-team pairs unique, every desk's
      prior occupant is remapped through pi. */
  lemma RemapReindexedRoster(today: seq<Person>, priorEmployees: seq<Person>, raw: seq<int>,
                             pi: seq<int>, i: int)
    requires AllBelow(raw, |priorEmployees|) && |pi| == |priorEmployees|
    requires forall j :: 0 <= j < |pi| ==> -1 <= pi[j] < |today|
    requires forall j :: 0 <= j < |pi| && pi[j] != -1 ==>
      && today[pi[j]].Name == priorEmployees[j].Name && today[pi[j]].Team == priorEmployees[j].Team
      && priorEmployees[j].Name != EmptyDeskName
    requires forall j :: 0 <= j < |pi| && pi[j] == -1 && priorEmployees[j].Name != EmptyDeskName ==>
      forall m :: 0 <= m < |today| ==>
        !(today[m].Name == priorEmployees[j].Name && today[m].Team == priorEmployees[j].Team)
    requires forall a, b :: 0 <= a < b < |today| && today[a].Name != EmptyDeskName ==>
      !(today[a].Name == today[b].Name && today[a].Team == today[b].Team)
    requires 0 <= i < |raw|
    ensures Remap(today, priorEmployees, raw)[i] == pi[raw[i]]
  {
    var x := raw[i];
    var p := priorEmployees[x];
    var m := FirstMatch(today, p, 0);
    if pi[x] != -1 {
      assert m != -1 by {
        assert today[pi[x]].Name == p.Name && today[pi[x]].Team == p.Team;
      }
      assert m <= pi[x];
    }
  }

  /** The worked case: yesterday Bob (index 0) and Alice (index 1) sat at
      desks 0 and 1; today Alice is employee 0 and Bob employee 1. */
  lemma RemapSwappedRoster()
    ensures Remap([Person("Alice", 0, 1), Person("Bob", 1, 2)],
                  [Person("Bob", 0, 2), Person("Alice", 1, 1)], [0, 1]) == [1, 0]
  {
    var today := [Person("Alice", 0, 1), Person("Bob", 1, 2)];
    assert MapPrior(today, Person("Bob", 0, 2)) == 1;
    assert MapPrior(today, Person("Alice", 1, 1)) == 0;
  }
}
