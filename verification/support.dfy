/** Small general-purpose definitions shared by the frame-table model. */
module Support {

  /** An optional value; stands in for a C pointer or index that may be NULL. */
  datatype Option<+T> = None | Some(value: T)

  /** The first member of `s` at or above `k`, searching up to the member `y`. */
  function FirstFrom(s: set<nat>, k: nat, y: nat): (r: nat)
    requires y in s && k <= y
    ensures r in s && k <= r <= y
    ensures forall x :: k <= x < r ==> x !in s
    decreases y - k
  {
    if k in s then k else FirstFrom(s, k + 1, y)
  }

  /** Every non-empty set of naturals has a least element. */
  lemma LeastExists(s: set<nat>)
    requires s != {}
    ensures exists m :: m in s && forall x :: x in s ==> m <= x
  {
    var y :| y in s;
    var m := FirstFrom(s, 0, y);
    assert m in s && forall x :: x in s ==> m <= x;
  }

  /** The least element of a non-empty set of naturals (first-fit choice). */
  function Least(s: set<nat>): (m: nat)
    requires s != {}
    ensures m in s
    ensures forall x :: x in s ==> m <= x
  {
    LeastExists(s);
    var m :| m in s && (forall x :: x in s ==> m <= x); m
  }

  /**
   * A free-slot allocator modelled as a first-fit scan: the lowest free
   * index, or none when nothing is free.  Both `palloc_get_page (PAL_USER)`
   * and `swap_acquire` are modelled this way; no contract of the frame
   * manager depends on which free index is chosen.
   */
  function FirstFree(free: set<nat>): (r: Option<nat>)
    ensures r.None? <==> free == {}
    ensures r.Some? ==> r.value in free && forall x :: x in free ==> r.value <= x
  {
    if free == {} then None else Some(Least(free))
  }
}
