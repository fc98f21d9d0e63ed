/** The generic `set` of the slicer: a mutable membership collection used as
    the "names already handed out" record of one naming pass.  The Go type
    wraps a map whose keys are the members; it is shared by reference, so a
    `put` through any copy is seen by every holder.  A class with one mutable
    field captures exactly that sharing. */
module Sets {

  class Set<T(==)> {
    /** The keys of the underlying map: the values put so far. */
    var elems: set<T>

    /** `newSet`: a set that contains no value at all (not even ""). */
    constructor ()
      ensures elems == {}
    {
      elems := {};
    }

    /** `put`: afterwards `v` is a member, every other value keeps its
        membership, nothing is ever removed, and putting a value that is
        already there changes nothing. */
    method Put(v: T)
      modifies this
      ensures v in elems
      ensures forall w :: w != v ==> (w in elems <==> w in old(elems))
      ensures old(elems) <= elems
      ensures v in old(elems) ==> elems == old(elems)
    {
      elems := elems + {v};
    }

    /** `contains`: a read-only membership test. */
    method Contains(v: T) returns (b: bool)
      ensures b <==> v in elems
    {
      b := v in elems;
    }
  }
}
