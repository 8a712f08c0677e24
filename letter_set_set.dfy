/**
 * The partial combination carried down the search (src/main.rs,
 * `struct LetterSetSet`): a five-slot buffer of letter sets, the number of
 * slots in use and the cached union of the sets in use.
 */
module LetterSetSets {
  import opened LetterSets

  /** The number of words in a solution: the buffer's capacity. */
  const Capacity: nat := 5

  /** The OR of a sequence of sets, folded left to right from the empty set. */
  function UnionAll(s: seq<LetterSet>): (r: LetterSet)
    ensures forall i :: i in Members(r) <==> exists k :: 0 <= k < |s| && i in Members(s[k])
  {
    if s == [] then Empty()
    else
      var init := s[..|s| - 1];
      assert forall k :: 0 <= k < |init| ==> init[k] == s[k];
      Union(UnionAll(init), s[|s| - 1])
  }

  /** A set overlaps the union of a sequence exactly when it overlaps one of its members. */
  lemma OverlapsUnionAll(s: seq<LetterSet>, x: LetterSet)
    ensures Overlaps(UnionAll(s), x) <==> exists k :: 0 <= k < |s| && Overlaps(s[k], x)
  {
    if Overlaps(UnionAll(s), x) {
      var i :| i in Members(UnionAll(s)) * Members(x);
      var k :| 0 <= k < |s| && i in Members(s[k]);
      assert i in Members(s[k]) * Members(x);
    }
    if k :| 0 <= k < |s| && Overlaps(s[k], x) {
      var i :| i in Members(s[k]) * Members(x);
      assert i in Members(UnionAll(s)) * Members(x);
    }
  }

  class LetterSetSet {
    var size: nat
    const sets: array<LetterSet>
    var union: LetterSet

    /** The buffer has five slots, at most five in use, and `union` caches their OR. */
    ghost predicate Valid()
      reads this, sets
    {
      sets.Length == Capacity && size <= Capacity && union == UnionAll(sets[..size])
    }

    /** The sets pushed so far, in order. */
    ghost function Contents(): seq<LetterSet>
      reads this, sets
      requires Valid()
    {
      sets[..size]
    }

    /** `LetterSetSet::new`: no set in use, every slot and the union empty. */
    constructor ()
      ensures Valid() && fresh(sets)
      ensures Contents() == []
      ensures forall k :: 0 <= k < sets.Length ==> sets[k] == Empty()
    {
      size := 0;
      sets := new LetterSet[Capacity](_ => Empty());
      union := Empty();
    }

    /**
     * The copy Rust makes when the `Copy` struct is passed by value, as
     * `stack.push(set)` does: a new buffer with the same contents.
     */
    constructor Clone(other: LetterSetSet)
      requires other.Valid()
      ensures Valid() && fresh(sets)
      ensures size == other.size && sets[..] == other.sets[..] && union == other.union
    {
      size := other.size;
      sets := new LetterSet[Capacity](k reads other.sets =>
        if 0 <= k < other.sets.Length then other.sets[k] else Empty());
      union := other.union;
      new;
      assert sets[..size] == other.sets[..other.size];
    }

    /** `LetterSetSet::len`: the number of sets pushed. */
    function Len(): (r: nat)
      reads this, sets
      requires Valid()
      ensures r == |Contents()| && r <= Capacity
    {
      size
    }

    /** `LetterSetSet::overlaps`: `s` shares a letter with some set pushed so far. */
    function Overlaps(s: LetterSet): (r: bool)
      reads this, sets
      requires Valid()
      ensures r <==> exists k :: 0 <= k < size && LetterSets.Overlaps(sets[k], s)
    {
      OverlapsUnionAll(sets[..size], s);
      LetterSets.Overlaps(union, s)
    }

    /**
     * `LetterSetSet::push` on the copy: write `s` into the first free slot,
     * OR it into the union and count it. On a full buffer the source panics;
     * here that is `ok == false` with nothing changed.
     */
    method Push(s: LetterSet) returns (ok: bool)
      requires Valid()
      modifies this, sets
      ensures Valid()
      ensures ok <==> old(size) < Capacity
      ensures Contents() == if ok then old(Contents()) + [s] else old(Contents())
      ensures sets[..] == if ok then old(sets[..])[old(size) := s] else old(sets[..])
    {
      if size >= Capacity {
        return false;
      }
      ghost var before := sets[..size];
      sets[size] := s;
      union := Union(union, s);
      size := size + 1;
      assert sets[..size][..size - 1] == before;
      ok := true;
    }
  }
}
