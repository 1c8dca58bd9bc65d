/** The linear allocator: a position that moves through a range of memory. */
module Linear {
  import opened Bits

  class LinearAlloc {
    var base: nat
    var position: nat
    var limit: nat

    ghost predicate Words()
      reads this
    {
      base < WORD && position < WORD && limit < WORD
    }

    /** The position is inside the range. */
    ghost predicate Valid()
      reads this
    {
      Words() && 0 < base <= position <= limit
    }

    /** A range that ends at the end of the address space or beyond it is not one. */
    constructor (mem: nat, len: nat)
      requires 0 < mem < WORD && 0 < len < WORD
      ensures Words() && (Valid() <==> mem + len < WORD)
      ensures base == position == mem && limit == (mem + len) % WORD
    {
      base, position, limit := mem, mem, (mem + len) % WORD;
    }

    /**
     * The next `len` bytes, or 0 when they do not fit. The sum is taken in 32 bits, so that a request that wraps around
     * is granted although it does not fit.
     */
    method Alloc(len: nat) returns (pos: nat)
      requires Words() && len < WORD
      modifies `position
      ensures Words()
      ensures if (old(position) + len) % WORD <= limit then pos == old(position) && position == (pos + len) % WORD
              else pos == 0 && position == old(position)
      ensures old(Valid()) ==> (pos != 0 <==> old(position) + len <= limit || old(position) + len >= WORD)
      ensures old(Valid()) && pos != 0 ==> (Valid() && position == pos + len <==> pos + len <= limit)
      ensures old(Valid()) && pos == 0 ==> Valid()
    {
      if (position + len) % WORD > limit {
        return 0;
      }
      pos := position;
      position := (pos + len) % WORD;
    }
  }
}
