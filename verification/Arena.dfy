/**
  RAD's bump allocator, ADcontext::Memalloc. Memory comes in ADmemblock
  chunks that are never given back; each request is carved off the top of
  the free space of the current block by lowering `Mleft`.
 */
module Arena {

  /** The bytes of one ADmemblock: 1000 doubles of 8 bytes each. */
  const BlockBytes: nat := 1000 * 8

  /** An address: a block, and a byte offset from that block's base `Mbase`. */
  datatype Ptr = Ptr(block: nat, offset: nat)

  /** `len` bytes starting at `at`. */
  datatype Region = Region(at: Ptr, len: nat)

  predicate Disjoint(r: Region, s: Region)
  {
    r.at.block != s.at.block || r.at.offset + r.len <= s.at.offset || s.at.offset + s.len <= r.at.offset
  }

  predicate PairwiseDisjoint(rs: seq<Region>)
  {
    forall i, j :: 0 <= i < j < |rs| ==> Disjoint(rs[i], rs[j])
  }

  class ADcontext {
    /** The block the free space lies in; it stands for the base address `Mbase`. */
    var Mbase: nat
    /** Free bytes left at the bottom of block `Mbase`. */
    var Mleft: nat
    /** The size of block `Mbase`. */
    var cap: nat
    /** Every region handed out so far, oldest first. */
    ghost var Allocs: seq<Region>

    /**
      The free space [0, Mleft) of the current block lies below every region
      handed out from it, every region fits in its block, and no two regions
      overlap.
     */
    ghost predicate Valid()
      reads this
    {
      && Mleft <= cap
      && PairwiseDisjoint(Allocs)
      && forall i :: 0 <= i < |Allocs| ==>
           Allocs[i].at.block <= Mbase &&
           (Allocs[i].at.block == Mbase ==> Mleft <= Allocs[i].at.offset && Allocs[i].at.offset + Allocs[i].len <= cap)
    }

    /** A context whose free space is the whole of its embedded first block. */
    constructor ()
      ensures Valid() && Mbase == 0 && Mleft == BlockBytes && cap == BlockBytes && Allocs == []
    {
      Mbase, Mleft, cap, Allocs := 0, BlockBytes, BlockBytes, [];
    }

    /**
      Memalloc(len). When `len` bytes are free, the region handed out is the
      top `len` bytes of the free space: offset `Mleft - len`, ending where
      the free space ended, and `Mleft` drops by exactly `len`. Otherwise the
      region comes from a block no earlier region lies in. Either way it
      overlaps no earlier region.
     */
    method Memalloc(len: nat) returns (p: Ptr)
      requires Valid()
      modifies this
      ensures Valid()
      ensures Allocs == old(Allocs) + [Region(p, len)]
      ensures forall i :: 0 <= i < |old(Allocs)| ==> Disjoint(old(Allocs)[i], Region(p, len))
      ensures old(Mleft) >= len ==>
                p == Ptr(old(Mbase), old(Mleft) - len) && p.offset + len == old(Mleft) &&
                Mbase == old(Mbase) && cap == old(cap) && Mleft == old(Mleft) - len
      ensures old(Mleft) < len ==>
                p.block > old(Mbase) && forall i :: 0 <= i < |old(Allocs)| ==> old(Allocs)[i].at.block < p.block
    {
      if Mleft >= len {
        Mleft := Mleft - len;
        p := Ptr(Mbase, Mleft);
        Allocs := Allocs + [Region(p, len)];
      } else {
        p := NewBlock(len);
      }
    }

    /**
      The fallback of Memalloc: a new block, at least `len` bytes and at least
      one ADmemblock large, becomes the current block and the request is
      carved off its top.
     */
    method NewBlock(len: nat) returns (p: Ptr)
      requires Valid()
      modifies this
      ensures Valid()
      ensures Mbase == old(Mbase) + 1 && p.block == Mbase
      ensures Allocs == old(Allocs) + [Region(p, len)]
      ensures forall i :: 0 <= i < |old(Allocs)| ==> old(Allocs)[i].at.block < p.block
    {
      Mbase := Mbase + 1;
      cap := if len > BlockBytes then len else BlockBytes;
      Mleft := cap - len;
      p := Ptr(Mbase, Mleft);
      Allocs := Allocs + [Region(p, len)];
    }
  }
}
