// Pieces of the "next pieces" preview and the generator that hands them out.

module Pieces {

  /** The alphabet a piece's tag is drawn from, in the order the generator indexes it. */
  const Tags: seq<char> := ['I', 'O', 'T', 'L']

  /** A piece: its tag and its identifier, unique in generation order. */
  datatype Piece = Piece(name: char, id: nat)

  /** The tag chosen for a pseudo-random draw `roll` (the value of rand(), never negative). */
  function TagOf(roll: nat): (c: char)
    ensures c in Tags
  {
    Tags[roll % |Tags|]
  }

  /** Every tag of the alphabet can be drawn: the choice is not confined to a subset. */
  lemma TagReachable(c: char)
    requires c in Tags
    ensures exists roll: nat :: TagOf(roll) == c
  {
    var k :| 0 <= k < |Tags| && Tags[k] == c;
    assert TagOf(k) == c;
  }

  /**
   * The generator with its persistent counter. `Issued` is the history of the
   * pieces it has handed out, kept for the specification only.
   */
  class Generator {
    var nextId: nat
    ghost var Issued: seq<Piece>

    /** The generator has issued ids 0, 1, ..., nextId - 1, in that order, with tags from the alphabet. */
    ghost predicate Valid()
      reads this
    {
      |Issued| == nextId &&
      forall i :: 0 <= i < |Issued| ==> Issued[i].id == i && Issued[i].name in Tags
    }

    /** The counter as the process starts. */
    constructor ()
      ensures Valid()
      ensures nextId == 0 && Issued == []
    {
      nextId := 0;
      Issued := [];
    }

    /** Hands out the next piece: tag chosen by `roll`, id the current counter, then the counter advances. */
    method Generate(roll: nat) returns (p: Piece)
      requires Valid()
      modifies this
      ensures Valid()
      ensures p == Piece(TagOf(roll), old(nextId))
      ensures nextId == old(nextId) + 1
      ensures Issued == old(Issued) + [p]
    {
      p := Piece(TagOf(roll), nextId);
      nextId := nextId + 1;
      Issued := Issued + [p];
    }
  }
}
