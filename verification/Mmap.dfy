/** Views on a shared read-only memory mapping. */
module Mmap {
  import opened Words

  datatype Mmap = Mmap(mapping: seq<Byte>, start: nat, end: nat) {
    /** The view can be dereferenced. */
    predicate Valid() {
      start <= end <= |mapping| < WORD
    }

    function Deref(): seq<Byte>
      requires Valid()
    {
      mapping[start..end]
    }
  }

  /** `Overflow` stands for an end or a start beyond 64 bits. */
  datatype Constrained = Overflow | Outside | View(mmap: Mmap)

  /** A view on a part of a view; only the end of the part is checked. */
  function Constrain(m: Mmap, lo: U64, hi: U64): Constrained {
    if m.start + hi >= WORD then Overflow
    else if m.start + hi > m.end then Outside
    else if m.start + lo >= WORD then Overflow
    else View(Mmap(m.mapping, m.start + lo, m.start + hi))
  }

  /** The part is what slicing the view yields, and there is one exactly when slicing is possible. */
  lemma ConstrainIsSlice(m: Mmap, lo: U64, hi: U64)
    requires m.Valid()
    ensures Constrain(m, lo, hi).View? && Constrain(m, lo, hi).mmap.Valid() <==> lo <= hi <= |m.Deref()|
    ensures lo <= hi <= |m.Deref()| ==> Constrain(m, lo, hi).mmap.Deref() == m.Deref()[lo..hi]
  {
  }

  /**
   * An inverted range inside the view is accepted, and the resulting view cannot be dereferenced, unless its start
   * is beyond 64 bits.
   */
  lemma InvertedAccepted(m: Mmap, lo: U64, hi: U64)
    requires m.Valid() && hi <= |m.Deref()| && lo > hi
    ensures if m.start + lo < WORD then Constrain(m, lo, hi).View? && !Constrain(m, lo, hi).mmap.Valid()
            else Constrain(m, lo, hi) == Overflow
  {
  }

  /** Constraining twice is constraining once. */
  lemma ConstrainTwice(m: Mmap, lo: U64, hi: U64, lo': U64, hi': U64)
    requires m.Valid() && lo <= hi <= |m.Deref()| && lo' <= hi' <= hi - lo
    ensures Constrain(Constrain(m, lo, hi).mmap, lo', hi') == Constrain(m, lo + lo', lo + hi')
  {
  }
}
