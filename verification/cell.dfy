/**
 * One board square: a value (0 for blank, otherwise 1..9) guarded by a
 * validating setter, and the set of candidate values the engine maintains.
 */
module Cell {
  import opened Exceptions

  /** The values the setter accepts: 0 (blank) and 1..9. */
  predicate Accepts(v: int) {
    0 <= v <= 9
  }

  /**
   * The value a square holds after its setter is called with each of vs in
   * turn, starting from stored: an accepted value replaces it, a rejected one
   * (ValueError) leaves it as it was.
   */
  function StoredAfter(stored: int, vs: seq<int>): int
    decreases |vs|
  {
    if vs == [] then stored
    else StoredAfter(if Accepts(vs[0]) then vs[0] else stored, vs[1..])
  }

  /** Starting in 0..9, a square stays in 0..9 whatever values are assigned to it. */
  lemma {:induction false} RangePreserved(stored: int, vs: seq<int>)
    requires Accepts(stored)
    ensures Accepts(StoredAfter(stored, vs))
    decreases |vs|
  {
    if vs != [] {
      RangePreserved(if Accepts(vs[0]) then vs[0] else stored, vs[1..]);
    }
  }

  /** The last accepted value of vs is what remains stored; with none accepted, the start value remains. */
  lemma {:induction false} LastAcceptedWins(stored: int, vs: seq<int>, v: int)
    ensures StoredAfter(stored, vs + [v]) == if Accepts(v) then v else StoredAfter(stored, vs)
    decreases |vs|
  {
    if vs == [] {
      assert [v][1..] == [];
    } else {
      assert (vs + [v])[1..] == vs[1..] + [v];
      LastAcceptedWins(if Accepts(vs[0]) then vs[0] else stored, vs[1..], v);
    }
  }

  class Square {
    /** The stored value (_value), read through the value property. */
    var value: int
    /** The candidate values; the square itself never changes them. */
    var candidates: set<int>

    /** Square(value=0): stores the argument without the setter's check, with no candidates. */
    constructor (value: int := 0)
      ensures this.value == value && candidates == {}
    {
      this.value := value;
      candidates := {};
    }

    /** The value setter: ValueError outside 0..9; candidates are never touched. */
    method SetValue(v: int) returns (outcome: Outcome)
      modifies this`value
      ensures outcome == if Accepts(v) then Done else Failed(ValueError)
      ensures value == StoredAfter(old(value), [v])
      ensures Accepts(v) ==> value == v
      ensures !Accepts(v) ==> value == old(value)
      ensures candidates == old(candidates)
      ensures ToInt() == StoredAfter(old(ToInt()), [v])
    {
      if !Accepts(v) {
        return Failed(ValueError);
      }
      value := v;
      outcome := Done;
    }

    /** __int__: the stored value, which stays in 0..9 when it starts there. */
    function ToInt(): (r: int)
      reads this
      ensures r == value
      ensures Accepts(value) ==> 0 <= r <= 9
    {
      value
    }

    /** __eq__ against an integer: compares it with the stored value, 0 included. */
    function Eq(other: int): (r: bool)
      reads this
      ensures r <==> other == ToInt()
    {
      other == value
    }

    /** __ne__: the exact complement of __eq__. */
    function Ne(other: int): (r: bool)
      reads this
      ensures r <==> !Eq(other)
    {
      other != value
    }
  }
}
