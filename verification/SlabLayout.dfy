/**
 * Where the objects of a slab and their control blocks lie in the page: kmm_cache_init and the address
 * arithmetic of kmm.c. Rounding is division here; MasksRound ties it to the masks.
 */
module SlabLayout {
  import opened Arith
  import Bits

  const PAGE := 4096
  /** The owner pointer at the start of every page. */
  const PAGE_HEADER := 4
  /** A slab header: two list links, a page pointer and a counter. */
  const SLAB_HEADER := 16
  /** A control block of a small buffer is one list link. */
  const SMALL_CTL := 4
  /** A control block of a large buffer also holds its address. */
  const LARGE_CTL := 8
  /** The powers of two that divide the page size. */
  const ALIGNMENTS := {1, 2, 4, 8, 16, 32, 64, 128, 256, 512, 1024, 2048, 4096}

  function RoundUp(x: nat, a: nat): nat {
    if a == 0 then x else (x + a - 1) / a * a
  }

  function RoundDown(x: nat, a: nat): nat {
    if a == 0 then x else x / a * a
  }

  lemma ExponentOf(a: nat) returns (k: nat)
    requires a in ALIGNMENTS
    ensures k <= 12 && Pow2(k) == a
  {
    k := if a == 1 then 0 else if a == 2 then 1 else if a == 4 then 2 else if a == 8 then 3 else if a == 16 then 4
         else if a == 32 then 5 else if a == 64 then 6 else if a == 128 then 7 else if a == 256 then 8
         else if a == 512 then 9 else if a == 1024 then 10 else if a == 2048 then 11 else 12;
    assert Pow2(3) == 8 && Pow2(6) == 64 && Pow2(9) == 512 && Pow2(12) == 4096;
  }

  /** These are the masks of align.h for the alignments in use, as long as nothing wraps. */
  lemma MasksRound(x: nat, a: nat)
    requires (a == 0 || a in ALIGNMENTS) && x + a < Bits.WORD
    ensures Bits.AlignRoundUp(x, a) == RoundUp(x, a) && Bits.AlignRoundDown(x, a) == RoundDown(x, a)
  {
    if a != 0 {
      var k := ExponentOf(a);
      Bits.MaskRoundsUp(x, k);
      Bits.MaskRoundsDown(x, k);
    }
  }

  function PageOf(address: nat): nat {
    RoundDown(address, PAGE)
  }

  datatype Geometry = Geometry(size: nat, alignment: nat, stride: nat, capacity: nat,
                               colourMax: nat, colourOff: nat, large: bool)

  /** What precedes the objects in a page: a small slab keeps its header there too. */
  function Headers(large: bool): nat {
    if large then PAGE_HEADER else PAGE_HEADER + SLAB_HEADER
  }

  function AvailableSpace(large: bool): nat {
    PAGE - Headers(large)
  }

  lemma DivisionBounds(n: nat, d: nat)
    requires d > 0
    ensures n / d * d <= n < n / d * d + d
  {
    assert n == n / d * d + n % d;
  }

  lemma RoundUpBounds(x: nat, a: nat)
    ensures x <= RoundUp(x, a) < x + Max(a, 1)
    ensures a > 0 ==> RoundUp(x, a) % a == 0
  {
    if a > 0 {
      DivisionBounds(x + a - 1, a);
      DivUnique(RoundUp(x, a), a, (x + a - 1) / a, 0);
    }
  }

  /** The parameters a cache computes from the size and alignment of its objects. */
  function Init(size: nat, align: nat, asksLarge: bool): Geometry {
    var bySize := size >= PAGE / 8;
    var large := asksLarge || bySize;
    var space := if bySize then size else size + SMALL_CTL;
    var alignment := if bySize then align else Max(SMALL_CTL, align);
    RoundUpBounds(space, alignment);
    var stride := if alignment != 0 then RoundUp(space, alignment) else space;
    var capacity := AvailableSpace(large) / stride;
    DivisionBounds(AvailableSpace(large), stride);
    Geometry(size, alignment, stride, capacity, AvailableSpace(large) - capacity * stride, alignment, large)
  }

  /** What the rest of the allocator relies on. */
  ghost predicate Proper(g: Geometry) {
    && 0 < g.stride && g.size <= g.stride
    && g.capacity > 0
    && g.capacity * g.stride + g.colourMax == AvailableSpace(g.large)
    && g.colourMax < g.stride
    && g.colourOff == g.alignment
    && (g.alignment == 0 || (g.alignment in ALIGNMENTS && g.stride % g.alignment == 0))
    && (!g.large ==> g.alignment >= SMALL_CTL && g.size + SMALL_CTL <= g.stride)
  }

  lemma RoundDownBounds(x: nat, a: nat)
    requires a > 0
    ensures RoundDown(x, a) <= x < RoundDown(x, a) + a
    ensures RoundDown(x, a) % a == 0
  {
    DivisionBounds(x, a);
    DivUnique(RoundDown(x, a), a, x / a, 0);
  }

  /** Between a multiple of a and the next one there is no other. */
  lemma MultipleIsUnique(x: nat, y: nat, a: nat)
    requires a > 0 && x % a == 0 && y % a == 0
    requires y < x + a && x < y + a
    ensures x == y
  {
    assert x == x / a * a && y == y / a * a;
    assert (x / a - y / a) * a == x - y;
    NoSmallMultiple(x / a - y / a, a);
  }

  /** No multiple is crossed by rounding up what lies below it. */
  lemma RoundUpStaysBelow(x: nat, m: nat, a: nat)
    requires a > 0 && m % a == 0 && x <= m
    ensures RoundUp(x, a) <= m
  {
    RoundUpBounds(x, a);
    var r := RoundUp(x, a);
    assert r == r / a * a && m == m / a * a;
    assert (r / a - m / a) * a == r - m;
    NoSmallMultiple(r / a - m / a, a);
  }

  lemma MultiplesAdd(x: nat, y: nat, a: nat)
    requires a > 0 && x % a == 0 && y % a == 0
    ensures (x + y) % a == 0
    ensures x >= y ==> (x - y) % a == 0
  {
    assert y == y / a * a;
    AddMultiple(x, y / a, a);
    if x >= y {
      AddMultiple(x - y, y / a, a);
    }
  }

  lemma MultipleTimes(x: nat, q: nat, a: nat)
    requires a > 0 && x % a == 0
    ensures (q * x) % a == 0
  {
    assert x == x / a * a;
    assert q * x == q * (x / a) * a;
    DivUnique(q * x, a, q * (x / a), 0);
  }

  lemma AlignmentsDividePages(a: nat, page: nat)
    requires a in ALIGNMENTS && page % PAGE == 0
    ensures page % a == 0 && PAGE % a == 0
    ensures a >= SMALL_CTL ==> a % SMALL_CTL == 0
  {
    assert page == page / PAGE * PAGE;
    MultipleTimes(PAGE, page / PAGE, a);
  }

  /** A cache whose objects fit into a page at all gets proper parameters. */
  lemma InitIsProper(size: nat, align: nat, asksLarge: bool)
    requires (align == 0 || align in ALIGNMENTS)
    requires Init(size, align, asksLarge).capacity > 0
    ensures Proper(Init(size, align, asksLarge))
  {
    var g := Init(size, align, asksLarge);
    var space := if size >= PAGE / 8 then size else size + SMALL_CTL;
    RoundUpBounds(space, g.alignment);
    DivisionBounds(AvailableSpace(g.large), g.stride);
  }

  /**
   * The stride is the least multiple of the alignment that holds an object and, if its size asks for one, a small
   * control block.
   */
  lemma StrideIsLeast(size: nat, align: nat, asksLarge: bool, s: nat)
    ensures var g := Init(size, align, asksLarge);
            && g.size == size && (g.large <==> asksLarge || size >= 512)
            && g.alignment == (if size < 512 && align < SMALL_CTL then SMALL_CTL else align)
            && size + (if size < 512 then SMALL_CTL else 0) <= g.stride
            && (g.alignment == 0 ==> g.stride == size)
            && (g.alignment > 0 ==> g.stride % g.alignment == 0)
            && (g.alignment > 0 && s % g.alignment == 0 && size + (if size < 512 then SMALL_CTL else 0) <= s ==>
                g.stride <= s)
  {
    var g := Init(size, align, asksLarge);
    var space := size + if size < 512 then SMALL_CTL else 0;
    RoundUpBounds(space, g.alignment);
    if g.alignment > 0 && s % g.alignment == 0 && space <= s {
      RoundUpStaysBelow(space, s, g.alignment);
    }
  }

  lemma QuotientIsGreatest(space: nat, d: nat, n: nat)
    requires d > 0
    ensures n <= space / d <==> n * d <= space
  {
    DivisionBounds(space, d);
    var more := n - space / d;
    assert n * d == space / d * d + more * d;
    NoSmallMultiple(more, d);
  }

  /** A page holds as many objects as fit behind its header and, in a small slab, the slab header. */
  lemma CapacityIsGreatest(size: nat, align: nat, asksLarge: bool, n: nat)
    ensures var g := Init(size, align, asksLarge);
            && (n <= g.capacity <==> PAGE_HEADER + (if g.large then 0 else SLAB_HEADER) + n * g.stride <= PAGE)
            && PAGE_HEADER + (if g.large then 0 else SLAB_HEADER) + g.capacity * g.stride + g.colourMax == PAGE
  {
    var g := Init(size, align, asksLarge);
    QuotientIsGreatest(AvailableSpace(g.large), g.stride, n);
  }

  // ------------------------------------------------------------ addresses

  /** The first object of a slab, some colour past the headers. */
  function First(g: Geometry, page: nat, colour: nat): nat {
    RoundUp(page + Headers(g.large) + colour, g.alignment)
  }

  function ObjectAt(g: Geometry, first: nat, i: nat): nat {
    first + i * g.stride
  }

  /** The control block behind a small buffer, and back. */
  function CtlOf(g: Geometry, mem: nat): nat {
    RoundUp(mem + g.size, SMALL_CTL)
  }

  function MemOf(g: Geometry, ctl: nat): nat
    requires ctl >= g.size
  {
    RoundDown(ctl - g.size, g.alignment)
  }

  /** The colour of the next slab. */
  function NextColour(g: Geometry, colour: nat): nat {
    if colour + g.colourOff >= g.colourMax then 0 else colour + g.colourOff
  }

  function ColourAfter(g: Geometry, slabs: nat): nat {
    if slabs == 0 then 0 else NextColour(g, ColourAfter(g, slabs - 1))
  }

  lemma NextInTurn(n: nat, k: nat)
    requires k > 0
    ensures (n + 1) % k == if n % k + 1 == k then 0 else n % k + 1
  {
    var q, r := n / k, n % k;
    assert n == q * k + r;
    if r + 1 == k {
      assert (q + 1) * k == q * k + k;
      DivUnique(n + 1, k, q + 1, 0);
    } else {
      DivUnique(n + 1, k, q, r + 1);
    }
  }

  lemma TimesMonotone(a: nat, b: nat, c: nat)
    requires a <= b
    ensures a * c <= b * c
  {
    assert b * c == a * c + (b - a) * c;
  }

  lemma {:induction false} ColoursAreSmall(g: Geometry, slabs: nat)
    ensures ColourAfter(g, slabs) <= g.colourMax
  {
    if slabs > 0 {
      ColoursAreSmall(g, slabs - 1);
    }
  }

  lemma NextMultiple(g: Geometry, i: nat, k: nat)
    requires i < k && (k == 1 || (k - 1) * g.colourOff < g.colourMax) && g.colourMax <= k * g.colourOff
    ensures NextColour(g, i * g.colourOff) == (if i + 1 == k then 0 else i + 1) * g.colourOff
  {
    assert i * g.colourOff + g.colourOff == (i + 1) * g.colourOff;
    if i + 1 < k {
      TimesMonotone(i + 1, k - 1, g.colourOff);
    }
  }

  /** In turn, the colours are the `k` multiples of the alignment below the wasted space; without alignment, 0. */
  lemma {:induction false} ColoursInTurn(g: Geometry, slabs: nat, k: nat)
    requires k > 0 && (k == 1 || (k - 1) * g.colourOff < g.colourMax) && g.colourMax <= k * g.colourOff
    ensures ColourAfter(g, slabs) == slabs % k * g.colourOff
  {
    hide NextColour;
    if slabs > 0 {
      ColoursInTurn(g, slabs - 1, k);
      NextInTurn(slabs - 1, k);
      NextMultiple(g, (slabs - 1) % k, k);
    }
  }

  lemma {:induction false} NoAlignmentNoColours(g: Geometry, slabs: nat)
    requires g.colourOff == 0
    ensures ColourAfter(g, slabs) == 0
  {
    if slabs > 0 {
      NoAlignmentNoColours(g, slabs - 1);
    }
  }

  /** The objects start past the headers, aligned, and end before the page does. */
  ghost predicate Placed(g: Geometry, page: nat, first: nat) {
    && page % PAGE == 0
    && page + Headers(g.large) <= first && first + g.capacity * g.stride <= page + PAGE
    && (g.alignment > 0 ==> first % g.alignment == 0)
  }

  /** A colour within bounds shifts the objects at least that far, and they leave less than one stride unused. */
  lemma SlabFits(g: Geometry, page: nat, colour: nat)
    requires Proper(g) && page % PAGE == 0 && colour <= g.colourMax
    ensures var first := First(g, page, colour);
            && Placed(g, page, first) && page + PAGE_HEADER + colour <= first
            && (!g.large ==> page + PAGE_HEADER + SLAB_HEADER + colour <= first)
            && first < page + PAGE_HEADER + (if g.large then 0 else SLAB_HEADER) + colour + Max(g.alignment, 1)
            && page + PAGE < first + g.capacity * g.stride + g.stride
  {
    var from := page + Headers(g.large) + colour;
    var objects := g.capacity * g.stride;
    RoundUpBounds(from, g.alignment);
    assert page + PAGE - objects == page + Headers(g.large) + g.colourMax;
    if g.alignment > 0 {
      AlignmentsDividePages(g.alignment, page + PAGE);
      MultipleTimes(g.stride, g.capacity, g.alignment);
      MultiplesAdd(page + PAGE, objects, g.alignment);
      RoundUpStaysBelow(from, page + PAGE - objects, g.alignment);
    }
  }

  lemma ObjectsAscend(g: Geometry, first: nat, i: nat, j: nat)
    requires i < j
    ensures ObjectAt(g, first, i) + g.stride <= ObjectAt(g, first, j)
  {
    var d := j - i - 1;
    assert j * g.stride == i * g.stride + g.stride + d * g.stride;
  }

  lemma NextObject(g: Geometry, first: nat, i: nat)
    ensures ObjectAt(g, first, i) + g.stride == ObjectAt(g, first, i + 1)
  {
  }

  lemma PageOfInside(page: nat, address: nat)
    requires page % PAGE == 0 && page <= address < page + PAGE
    ensures PageOf(address) == page
  {
    RoundDownBounds(address, PAGE);
    MultipleIsUnique(page, PageOf(address), PAGE);
  }

  lemma StridesFit(n: nat, i: nat, stride: nat)
    requires i < n
    ensures 0 <= i * stride && i * stride + stride <= n * stride
  {
    var rest := n - i - 1;
    assert n * stride == i * stride + stride + rest * stride;
  }

  lemma StrideIsPositive(g: Geometry)
    requires Proper(g)
    ensures g.stride > 0
  {
  }

  lemma ObjectIsAligned(g: Geometry, first: nat, i: nat)
    requires Proper(g) && g.alignment > 0 && first % g.alignment == 0
    ensures ObjectAt(g, first, i) % g.alignment == 0
  {
    MultipleTimes(g.stride, i, g.alignment);
    MultiplesAdd(first, i * g.stride, g.alignment);
  }

  /** An object lies in the page past the headers, aligned, and its address leads back to the page. */
  lemma ObjectFits(g: Geometry, page: nat, first: nat, i: nat)
    requires Proper(g) && Placed(g, page, first) && i < g.capacity
    ensures var mem := ObjectAt(g, first, i);
            && page + PAGE_HEADER <= mem && (!g.large ==> page + PAGE_HEADER + SLAB_HEADER <= mem)
            && mem + g.stride <= page + PAGE
            && (g.alignment > 0 ==> mem % g.alignment == 0)
            && PageOf(mem) == page
  {
    hide PageOf, RoundDown, Proper;
    StridesFit(g.capacity, i, g.stride);
    StrideIsPositive(g);
    PageOfInside(page, ObjectAt(g, first, i));
    if g.alignment > 0 {
      ObjectIsAligned(g, first, i);
    }
  }

  lemma MultipleOfMultiple(x: nat, a: nat, b: nat)
    requires a > 0 && b > 0 && x % a == 0 && a % b == 0
    ensures x % b == 0
  {
    assert x == x / a * a;
    MultipleTimes(a, x / a, b);
  }

  lemma LastCtl(g: Geometry, mem: nat)
    requires Proper(g) && !g.large && mem % g.alignment == 0
    ensures (mem + g.stride - SMALL_CTL) % SMALL_CTL == 0
  {
    AlignmentsDividePages(g.alignment, 0);
    MultiplesAdd(mem, g.stride, g.alignment);
    MultipleOfMultiple(mem + g.stride, g.alignment, SMALL_CTL);
    MultiplesAdd(mem + g.stride, SMALL_CTL, SMALL_CTL);
  }

  /** The control block of a small buffer follows it within its stride... */
  lemma CtlFollows(g: Geometry, mem: nat)
    requires Proper(g) && !g.large && mem % g.alignment == 0
    ensures mem + g.size <= CtlOf(g, mem) < mem + g.size + SMALL_CTL
    ensures CtlOf(g, mem) + SMALL_CTL <= mem + g.stride
    ensures CtlOf(g, mem) % SMALL_CTL == 0
  {
    RoundUpBounds(mem + g.size, SMALL_CTL);
    LastCtl(g, mem);
    RoundUpStaysBelow(mem + g.size, mem + g.stride - SMALL_CTL, SMALL_CTL);
  }

  /** ... and the two address maps are inverse. */
  lemma CtlRoundTrip(g: Geometry, mem: nat)
    requires Proper(g) && !g.large && mem % g.alignment == 0
    ensures CtlOf(g, mem) >= g.size && MemOf(g, CtlOf(g, mem)) == mem
  {
    CtlFollows(g, mem);
    RoundDownBounds(CtlOf(g, mem) - g.size, g.alignment);
    MultipleIsUnique(mem, MemOf(g, CtlOf(g, mem)), g.alignment);
  }

  /** Raising an alignment to that of a control block keeps it a multiple of what was asked for. */
  lemma AskedAlignment(asked: nat, used: nat, mem: nat)
    requires asked in ALIGNMENTS && (used == asked || used == Max(SMALL_CTL, asked)) && mem % used == 0
    ensures mem % asked == 0
  {
    MultipleOfMultiple(mem, used, asked);
  }

  /**
   * The layout of every slab a cache ever creates, for the colour of its n-th slab: every object has a stretch of the
   * page to itself, past the headers and aligned as asked, and its control block lies within that stretch.
   */
  lemma SlabLayoutIsSound(size: nat, align: nat, asksLarge: bool, slabs: nat, page: nat, i: nat)
    requires (align == 0 || align in ALIGNMENTS) && page % PAGE == 0
    requires i < Init(size, align, asksLarge).capacity
    ensures var g := Init(size, align, asksLarge);
            var first := First(g, page, ColourAfter(g, slabs));
            var a := ObjectAt(g, first, i);
            && page + PAGE_HEADER <= a && (!g.large ==> page + PAGE_HEADER + SLAB_HEADER <= a)
            && a + g.stride <= page + PAGE
            && (align > 0 ==> a % align == 0)
            && (!g.large ==> a + size <= CtlOf(g, a) && CtlOf(g, a) + SMALL_CTL <= a + g.stride)
            && forall j :: i < j < g.capacity ==> a + g.stride <= ObjectAt(g, first, j)
  {
    var g := Init(size, align, asksLarge);
    InitIsProper(size, align, asksLarge);
    ColoursAreSmall(g, slabs);
    var first := First(g, page, ColourAfter(g, slabs));
    SlabFits(g, page, ColourAfter(g, slabs));
    ObjectFits(g, page, first, i);
    forall j | i < j < g.capacity ensures ObjectAt(g, first, i) + g.stride <= ObjectAt(g, first, j) {
      ObjectsAscend(g, first, i, j);
    }
    if !g.large {
      CtlFollows(g, ObjectAt(g, first, i));
    }
    if align > 0 {
      AskedAlignment(align, g.alignment, ObjectAt(g, first, i));
    }
  }
}
