/** People and the conflict relation between them.

    A person is identified by name, index and team (0 = no team, 1, 2). Each
    person's conflict list is held here as a sequence of person indices, one
    sequence per person in an array indexed by person index, in place of the
    source's lists of object references. */
module People {
  import opened Common

  datatype Person = Person(Name: string, Index: int, Team: int)

  /** `Person.Equals`: two people are equal exactly when index, name and team
      all match, so it coincides with equality of the (name, index, team)
      triple; the conflict lists play no part. */
  function Equals(a: Person, b: Person): (r: bool)
    ensures r <==> a == b
  {
    a.Index == b.Index && a.Name == b.Name && a.Team == b.Team
  }

  /** A conflict list: entries are person indices, none is the owner and none
      occurs twice. */
  ghost predicate WellFormedList(owner: int, list: seq<int>, n: int) {
    AllBelow(list, n) && owner !in list && NoDuplicates(list)
  }

  /** Appending a new partner keeps a conflict list well formed. */
  lemma AppendKeepsList(owner: int, list: seq<int>, x: int, n: int)
    requires WellFormedList(owner, list, n) && 0 <= x < n && x != owner && x !in list
    ensures WellFormedList(owner, list + [x], n)
  {
    var l := list + [x];
    forall a, b | 0 <= a < b < |l| ensures l[a] != l[b] {
      if b == |list| { assert l[a] == list[a]; }
    }
  }

  /** The conflict lists of `people`, indexed by person index. */
  class ConflictGraph {
    const people: seq<Person>
    const conflicts: array<seq<int>>

    /** Lists are well formed and the relation is symmetric. */
    ghost predicate Valid()
      reads this, conflicts
    {
      && conflicts.Length == |people|
      && (forall i :: 0 <= i < |people| ==> people[i].Index == i)
      && (forall i :: 0 <= i < conflicts.Length ==> WellFormedList(i, conflicts[i], conflicts.Length))
      && (forall i, j :: 0 <= i < conflicts.Length && 0 <= j < conflicts.Length ==>
            (j in conflicts[i] <==> i in conflicts[j]))
    }

    /** Every person starts with an empty conflict list (the `Person`
        constructor); a person's index is its position. */
    constructor (people: seq<Person>)
      requires forall i :: 0 <= i < |people| ==> people[i].Index == i
      ensures Valid() && fresh(conflicts)
      ensures this.people == people
      ensures forall i :: 0 <= i < conflicts.Length ==> conflicts[i] == []
    {
      this.people := people;
      conflicts := new seq<int>[|people|](_ => []);
    }

    /** Scans p's list for q, as the source's foreach does. */
    method HasConflict(p: int, q: int) returns (found: bool)
      requires 0 <= p < conflicts.Length
      ensures found <==> q in conflicts[p]
    {
      var list := conflicts[p];
      var k := 0;
      while k < |list|
        invariant 0 <= k <= |list|
        invariant q !in list[..k]
      {
        if list[k] == q {
          return true;
        }
        k := k + 1;
      }
      assert list[..k] == list;
      return false;
    }

    /** `Person.TryAddConflict`: p takes q as a conflict. Rejects p == q; returns
        false, changing nothing, when q is already in p's list; otherwise appends
        q to p's list and then (by the recursive call on the partner) p to q's
        list unless it is already there, and returns true. */
    method TryAddConflict(p: int, q: int) returns (r: Result<bool>)
      requires 0 <= p < conflicts.Length && 0 <= q < conflicts.Length
      modifies conflicts
      ensures p == q ==> r == Err(SelfConflict) && conflicts[..] == old(conflicts[..])
      ensures p != q && q in old(conflicts[p]) ==> r == Ok(false) && conflicts[..] == old(conflicts[..])
      ensures p != q && q !in old(conflicts[p]) ==>
        && r == Ok(true)
        && conflicts[p] == old(conflicts[p]) + [q]
        && conflicts[q] == (if p in old(conflicts[q]) then old(conflicts[q]) else old(conflicts[q]) + [p])
        && (forall i :: 0 <= i < conflicts.Length && i != p && i != q ==> conflicts[i] == old(conflicts[i]))
      ensures old(Valid()) ==> Valid()
      ensures old(Valid()) ==> (q in conflicts[p] <==> p != q) && (p in conflicts[q] <==> p != q)
      ensures old(Valid()) && r == Ok(true) ==> conflicts[q] == old(conflicts[q]) + [p]
      decreases (if q in conflicts[p] then 0 else 1) + (if p in conflicts[q] then 0 else 1)
    {
      ghost var wasValid := Valid();
      if p == q {
        return Err(SelfConflict);
      }
      var found := HasConflict(p, q);
      if found {
        return Ok(false);
      }
      conflicts[p] := conflicts[p] + [q];
      var _ := TryAddConflict(q, p);
      r := Ok(true);
      if wasValid {
        forall i | 0 <= i < conflicts.Length
          ensures WellFormedList(i, conflicts[i], conflicts.Length)
        {
          if i == p || i == q {
            AppendKeepsList(i, old(conflicts[i]), if i == p then q else p, conflicts.Length);
          }
        }
        forall i, j | 0 <= i < conflicts.Length && 0 <= j < conflicts.Length
          ensures j in conflicts[i] <==> i in conflicts[j]
        {
          assert j in conflicts[i] <==> j in old(conflicts[i]) || (i == p && j == q) || (i == q && j == p);
          assert i in conflicts[j] <==> i in old(conflicts[j]) || (j == p && i == q) || (j == q && i == p);
        }
      }
    }
  }

  /** In a valid graph two of its people are `Equals` exactly when they are the
      same index. */
  lemma EqualsInGraph(g: ConflictGraph, i: int, j: int)
    requires g.Valid()
    requires 0 <= i < |g.people| && 0 <= j < |g.people|
    ensures Equals(g.people[i], g.people[j]) <==> i == j
  {
  }
}
