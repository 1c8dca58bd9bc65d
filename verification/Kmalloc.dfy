/** kmalloc: size classes over the slab caches, and a header byte in front of every block. */
module Kmalloc {
  import opened Arith
  import opened SlabLayout
  import opened SlabTheory
  import opened SlabCache
  import opened SlabHeap
  import Bits

  const WORD := Bits.WORD
  /** The header holds the index of the class. */
  const IDENT_INFO := 1
  /** The powers the kernel configures, and its strictest alignment. */
  const MIN_POW := 5
  const MAX_POW := 11
  const MAX_ALIGN := 16

  /** What a class of blocks of 2^power bytes asks of its cache: the header padded to the alignment, and the block. */
  function ObjectSize(maxAlign: nat, power: nat): nat {
    RoundUp(IDENT_INFO, maxAlign) + Pow2(power)
  }

  /** What the request needs: size_t arithmetic wraps. */
  function RequiredSpace(size: nat): nat {
    (size + IDENT_INFO) % WORD
  }

  /** The class of a request. */
  function ClassOf(size: nat, lowPow: nat): nat {
    Max(Log2Ceil(RequiredSpace(size)), lowPow) - lowPow
  }

  /** It is the least class at or above the low power that fits what is required. */
  lemma ClassIsLeast(size: nat, lowPow: nat)
    ensures RequiredSpace(size) <= Pow2(ClassOf(size, lowPow) + lowPow)
    ensures forall p :: lowPow <= p < ClassOf(size, lowPow) + lowPow ==> Pow2(p) < RequiredSpace(size)
  {
    var power := Log2Ceil(RequiredSpace(size));
    Log2CeilBounds(RequiredSpace(size));
    if power <= lowPow {
      Pow2Monotone(power, lowPow);
    } else {
      forall p | lowPow <= p < power ensures Pow2(p) < RequiredSpace(size) {
        Pow2Monotone(p, power - 1);
      }
    }
  }

  /** A block of the class holds the request exactly when adding the header does not wrap. */
  lemma BlockHoldsRequest(size: nat, lowPow: nat)
    requires size < WORD && lowPow < Bits.WORD_BITS
    ensures size <= Pow2(ClassOf(size, lowPow) + lowPow) <==> size < WORD - 1
  {
    ClassIsLeast(size, lowPow);
    if size == WORD - 1 {
      assert RequiredSpace(size) == 0 && ClassOf(size, lowPow) == 0;
      Bits.WordIsPow2();
      Pow2Monotone(lowPow, Bits.WORD_BITS - 1);
    }
  }

  /** The classes the kernel configures, 2^5 to 2^11 bytes at alignment 16: the largest puts one object in each slab. */
  lemma KernelClasses(p: nat)
    requires MIN_POW <= p <= MAX_POW
    ensures var g := Init(ObjectSize(MAX_ALIGN, p), MAX_ALIGN, false);
            g.capacity > 0 && (g.capacity == 1 <==> p == MAX_POW) && (g.large <==> p >= 9)
  {
    assert Pow2(5) == 32 && Pow2(6) == 64 && Pow2(7) == 128 && Pow2(8) == 256;
    assert Pow2(9) == 512 && Pow2(10) == 1024 && Pow2(11) == 2048;
  }

  lemma RoundUpPast(x: nat, a: nat)
    requires a > 0 && x % a == 0
    ensures RoundUp(x + IDENT_INFO, a) == x + a && (x + a) % a == 0
  {
    RoundUpBounds(x + IDENT_INFO, a);
    MultiplesAdd(x, a, a);
    if a == 1 {
    } else {
      MultipleIsUnique(RoundUp(x + IDENT_INFO, a), x + a, a);
    }
  }

  class KMalloc {
    const kmm: Kmm
    const maxAlign: nat
    const lowPow: nat
    const maxPow: nat
    /** The caches of the classes; one that could not be created is null. */
    var caches: seq<Cache?>
    /** The header bytes, by address. */
    var indices: map<nat, nat>

    ghost predicate ClassesOk()
      reads this, kmm
    {
      && maxAlign in ALIGNMENTS && maxAlign >= SMALL_CTL
      && (forall c :: c in caches && c != null ==>
          c in kmm.registered && c != kmm.headers && c != kmm.ctls && c != kmm.caches)
      && (forall i, j :: 0 <= i < j < |caches| && caches[i] != null ==> caches[i] != caches[j])
      && (forall i :: 0 <= i < |caches| && caches[i] != null ==>
            caches[i].g == Init(ObjectSize(maxAlign, i + lowPow), maxAlign, false))
    }

    /** The objects in use of class i. */
    ghost function InUseOf(i: nat): set<nat>
      reads this, if i < |caches| && caches[i] != null then {caches[i]} else {}
    {
      if i < |caches| && caches[i] != null then caches[i].InUse() else {}
    }

    /** Every block in use carries the index of its class, but for those of the given headers. */
    ghost predicate IndexedBut(unmarked: set<nat>)
      reads this, caches
    {
      forall i, a :: 0 <= i < |caches| && a in InUseOf(i) && a !in unmarked ==> a in indices && indices[a] == i
    }

    ghost predicate Valid()
      reads this, caches, kmm, kmm.pager, kmm.all, kmm.headers, kmm.ctls, kmm.caches
    {
      && kmm.Valid() && ClassesOk() && |caches| == maxPow - lowPow + 1
      && IndexedBut({})
    }

    method AddClass()
      requires kmm.Valid() && ClassesOk() && Init(ObjectSize(maxAlign, |caches| + lowPow), maxAlign, false).capacity > 0
      modifies `caches, kmm`registered, kmm`all, kmm`structures, kmm.caches, kmm.pager
      ensures kmm.Valid() && ClassesOk() && |caches| == old(|caches|) + 1 && caches[..old(|caches|)] == old(caches)
      ensures forall i :: 0 <= i < old(|caches|) ==> InUseOf(i) == old(InUseOf(i))
      ensures InUseOf(old(|caches|)) == {} && (caches[old(|caches|)] == null <==> old(kmm.Structures()) == 0)
      ensures kmm.Structures() == if old(kmm.Structures()) == 0 then 0 else old(kmm.Structures()) - 1
    {
      hide Kmm.Valid, Cache.InUse, Init, Kmm.Structures;
      var c := kmm.Create(ObjectSize(maxAlign, |caches| + lowPow), maxAlign, false);
      caches := caches + [c];
      forall i | 0 <= i < old(|caches|) ensures InUseOf(i) == old(InUseOf(i)) {
        assert old(caches)[i] in old(caches);
      }
    }

    /** kmalloc_init: one cache for each power, as long as there is memory for their structures. */
    constructor (kmm: Kmm, maxAlign: nat, lowPow: nat, maxPow: nat)
      requires kmm.Valid() && maxAlign in ALIGNMENTS && maxAlign >= SMALL_CTL
      requires lowPow < maxPow && maxPow - lowPow + 1 <= 7
      requires forall p :: lowPow <= p <= maxPow ==> Init(ObjectSize(maxAlign, p), maxAlign, false).capacity > 0
      modifies kmm`registered, kmm`all, kmm`structures, kmm.caches, kmm.pager
      ensures Valid() && this.kmm == kmm && this.maxAlign == maxAlign && this.lowPow == lowPow && this.maxPow == maxPow
      ensures |caches| == maxPow - lowPow + 1 && forall i :: 0 <= i < |caches| ==> InUseOf(i) == {}
      ensures forall i :: 0 <= i < |caches| ==> (caches[i] == null <==> i >= old(kmm.Structures()))
    {
      hide Kmm.Valid, Kmm.Structures, Cache.InUse, Init;
      this.kmm := kmm;
      this.maxAlign := maxAlign;
      this.lowPow := lowPow;
      this.maxPow := maxPow;
      caches := [];
      indices := map[];
      new;
      ghost var structures := kmm.Structures();
      while |caches| < maxPow - lowPow + 1
        invariant |caches| <= maxPow - lowPow + 1 && kmm.Valid() && ClassesOk()
        invariant forall i :: 0 <= i < |caches| ==> InUseOf(i) == {}
        invariant forall i :: 0 <= i < |caches| ==> (caches[i] == null <==> i >= structures)
        invariant kmm.Structures() == if |caches| < structures then structures - |caches| else 0
      {
        AddClass();
      }
    }

    /** The block behind a header. */
    function BlockOf(info: nat): nat {
      RoundUp(info + IDENT_INFO, maxAlign)
    }

    /** Where blocks lie. */
    lemma BlockBehindHeader(i: nat, info: nat)
      requires kmm.Valid() && ClassesOk() && info in InUseOf(i)
      ensures info % maxAlign == 0 && BlockOf(info) == info + maxAlign && (info + maxAlign) % maxAlign == 0
      ensures info + maxAlign + Pow2(i + lowPow) == info + caches[i].g.size
      ensures RoundDown(BlockOf(info) - 1, maxAlign) == info
    {
      hide Partitions, Cache.SoundWith, Live;
      kmm.ObjectInUse(caches[i], info);
      RoundUpPast(info, maxAlign);
      RoundUpPast(0, maxAlign);
      RoundDownBounds(info + maxAlign - 1, maxAlign);
      MultipleIsUnique(RoundDown(info + maxAlign - 1, maxAlign), info, maxAlign);
    }

    /** An operation on a class touches that class and the caches of the allocator itself. */
    lemma ReachOf(c: Cache)
      requires kmm.Valid() && ClassesOk() && c in caches
      ensures kmm.headers in kmm.registered && kmm.ctls in kmm.registered && c in kmm.registered && c in kmm.all
      ensures c.Wired() && c.pager == kmm.pager && c != kmm.headers && c != kmm.ctls && c != kmm.caches
      ensures c.headers == null || c.headers == kmm.headers
      ensures c.ctls == null || c.ctls == kmm.ctls
    {
      hide Partitions, Cache.SoundWith, Live, Init;
      kmm.Members();
    }

    /** There is no cache for class i, or its allocation fails in one way or the other. */
    ghost predicate Lacks(i: nat)
      requires i < |caches| && (caches[i] != null ==> caches[i].Wired())
      reads this, if caches[i] != null then caches[i].Repr() else {}
    {
      caches[i] == null || caches[i].AllocFails() || caches[i].AllocFaults()
    }

    /** The index is written in front of the block. */
    method Mark(i: nat, info: nat)
      requires IndexedBut({info}) && i < |caches| && forall j :: 0 <= j < |caches| && j != i ==> info !in InUseOf(j)
      modifies `indices
      ensures IndexedBut({}) && forall j :: 0 <= j < |caches| ==> InUseOf(j) == old(InUseOf(j))
    {
      hide Cache.InUse;
      indices := indices[info := i];
      forall j, a | 0 <= j < |caches| && a in InUseOf(j) ensures a in indices && indices[a] == j {
        assert a in old(InUseOf(j));
      }
    }

    lemma OnlyOneClass(i: nat, info: nat)
      requires kmm.Valid() && ClassesOk() && info in InUseOf(i)
      ensures forall j :: 0 <= j < |caches| && j != i ==> info !in InUseOf(j)
    {
      hide Partitions, Cache.SoundWith, Live, Init;
      forall j | 0 <= j < |caches| && j != i ensures info !in InUseOf(j) {
        if info in InUseOf(j) {
          kmm.ObjectsHaveOneOwner(caches[i], caches[j], info);
        }
      }
    }

    method TakeFrom(i: nat) returns (r: Outcome)
      requires Valid() && i < |caches| && caches[i] != null
      modifies kmm.pager, kmm.registered
      ensures caches[i].Wired() && (r.Object? <==> !old(Lacks(i)))
      ensures r.Object? ==> kmm.Valid() && ClassesOk() && IndexedBut({r.mem})
      ensures r.Object? ==> r.mem !in old(InUseOf(i)) && InUseOf(i) == old(InUseOf(i)) + {r.mem}
      ensures forall j :: 0 <= j < |caches| && j != i ==> InUseOf(j) == old(InUseOf(j))
      ensures r.Object? ==> forall j :: 0 <= j < |caches| && j != i ==> r.mem !in InUseOf(j)
    {
      hide Kmm.Valid, Cache.InUse, Init;
      ReachOf(caches[i]);
      r := kmm.AllocFrom(caches[i]);
      if r.Object? {
        OnlyOneClass(i, r.mem);
        forall j, a | 0 <= j < |caches| && a in InUseOf(j) && a != r.mem ensures a in indices && indices[a] == j {
          assert a in old(InUseOf(j));
        }
      }
    }

    /** A new block of class i: aligned, behind its own header, inside the object and clear of its control block. */
    ghost predicate Handed(i: nat, mem: nat, before: set<nat>)
      requires ClassesOk()
      reads this, kmm, if i < |caches| && caches[i] != null then {caches[i]} else {}
    {
      && i < |caches| && caches[i] != null && maxAlign <= mem && mem % maxAlign == 0
      && mem - maxAlign !in before && InUseOf(i) == before + {mem - maxAlign}
      && mem + Pow2(i + lowPow) == mem - maxAlign + caches[i].g.size
    }

    /**
     * kmalloc. It asserts that there is a cache for the class; a cache that can give nothing goes unnoticed, and the
     * index is written through a null pointer.
     */
    method Alloc(size: nat) returns (r: Outcome)
      requires Valid() && size < WORD
      modifies `indices, kmm.pager, kmm.registered
      ensures !r.Fault? ==> Valid()
      ensures r.NoMemory? <==> ClassOf(size, lowPow) > maxPow - lowPow
      ensures r.Fault? <==> ClassOf(size, lowPow) <= maxPow - lowPow && old(Lacks(ClassOf(size, lowPow)))
      ensures r.NoMemory? ==> forall i :: 0 <= i < |caches| ==> InUseOf(i) == old(InUseOf(i))
      ensures r.Object? ==> Handed(ClassOf(size, lowPow), r.mem, old(InUseOf(ClassOf(size, lowPow))))
      ensures r.Object? ==> forall i :: 0 <= i < |caches| && i != ClassOf(size, lowPow) ==>
              InUseOf(i) == old(InUseOf(i))
    {
      hide Kmm.Valid, Cache.InUse, Init, Pow2;
      var cacheIndex := ClassOf(size, lowPow);
      if cacheIndex >= maxPow - lowPow + 1 {
        return NoMemory;
      }
      if caches[cacheIndex] == null {
        return Fault;
      }
      r := TakeFrom(cacheIndex);
      if !r.Object? {
        return Fault;
      }
      var info := r.mem;
      BlockBehindHeader(cacheIndex, info);
      Mark(cacheIndex, info);
      r := Object(BlockOf(info));
    }

    method GiveTo(i: nat, info: nat) returns (fault: bool)
      requires Valid() && info in InUseOf(i)
      modifies kmm.pager, kmm.registered
      ensures !fault ==> kmm.Valid() && ClassesOk() && InUseOf(i) == old(InUseOf(i)) - {info}
      ensures forall j :: 0 <= j < |caches| && j != i ==> InUseOf(j) == old(InUseOf(j))
      ensures caches[i].Wired() && (fault <==> old(caches[i].FreeFaults(info)))
    {
      hide Kmm.Valid, Cache.InUse, Init;
      ReachOf(caches[i]);
      fault := kmm.FreeTo(caches[i], info);
    }

    /** kfree finds the header again and through it the cache: exactly the given block of class i goes out of use. */
    method Free(mem: nat, ghost i: nat) returns (fault: bool)
      requires Valid() && maxAlign <= mem && mem - maxAlign in InUseOf(i)
      modifies kmm.pager, kmm.registered
      ensures !fault ==> Valid() && InUseOf(i) == old(InUseOf(i)) - {mem - maxAlign}
      ensures forall j :: 0 <= j < |caches| && j != i ==> InUseOf(j) == old(InUseOf(j))
      ensures caches[i].Wired() && (fault <==> old(caches[i].FreeFaults(mem - maxAlign)))
    {
      hide Kmm.Valid, Cache.InUse, Init, Pow2;
      BlockBehindHeader(i, mem - maxAlign);
      var info := RoundDown(mem - 1, maxAlign);
      var cacheIndex := indices[info];
      fault := GiveTo(cacheIndex, info);
    }
  }

  lemma StructuresInPage()
    ensures Init(CACHE_SIZE, 0, false).capacity == 63
  {
    var g := Init(CACHE_SIZE, 0, false);
    assert g.stride == 64;
    assert g.capacity == AvailableSpace(false) / 64;
  }

  /** The heap as the kernel sets it up: every class has its cache exactly when there is a page at all. */
  method KernelHeap(pager: Pager) returns (k: KMalloc)
    requires pager.Valid() && pager.held == {}
    modifies pager
    ensures k.Valid() && k.maxAlign == MAX_ALIGN && k.lowPow == MIN_POW && k.maxPow == MAX_POW
    ensures |k.caches| == 7
    ensures forall i :: 0 <= i < |k.caches| ==> k.InUseOf(i) == {} && (k.caches[i] != null <==> old(pager.free) != {})
  {
    hide KMalloc.Valid, Kmm.Valid, Kmm.Structures, KMalloc.InUseOf, Init, ObjectSize;
    var kmm := new Kmm(pager);
    forall p | MIN_POW <= p <= MAX_POW ensures Init(ObjectSize(MAX_ALIGN, p), MAX_ALIGN, false).capacity > 0 {
      KernelClasses(p);
    }
    StructuresInPage();
    assert kmm.Structures() == 63 * |pager.free|;
    assert |pager.free| > 0 <==> pager.free != {};
    k := new KMalloc(kmm, MAX_ALIGN, MIN_POW, MAX_POW);
  }
}
