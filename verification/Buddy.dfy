/**
 * The buddy allocator, for the requests its users make: single pages, order 0. Level l has a bit for each aligned
 * run of 2^l pages.
 */
module Buddy {
  import opened Arith
  import opened Bits
  import opened Bitmaps
  import opened Linear

  /** The size of a bitmap structure: a pointer and two sizes. */
  const BITMAP_STRUCT := 12

  function Levels(pages: nat): nat
    requires pages > 0
  {
    Log2Floor(pages) + 1
  }

  /** pages >> level */
  function Shifted(pages: nat, level: nat): nat {
    if level == 0 then pages else Shifted(pages / 2, level - 1)
  }

  lemma {:induction false} ShiftedDivides(pages: nat, level: nat)
    ensures Shifted(pages, level) == pages / Pow2(level)
  {
    if level > 0 {
      ShiftedDivides(pages / 2, level - 1);
      HalveThenDivide(pages, Pow2(level - 1));
    }
  }

  /** The levels are those that hold a run of pages, and the highest one holds a single run. */
  lemma LevelsHavePages(pages: nat, level: nat)
    requires pages > 0
    ensures level < Levels(pages) <==> pages / Pow2(level) > 0
    ensures level < Levels(pages) <==> Shifted(pages, level) > 0
    ensures level + 1 == Levels(pages) <==> pages / Pow2(level) == 1
  {
    ShiftedDivides(pages, level);
    LogDivides(pages, level);
  }

  /** The bytes of the bitmaps of the first `levels` levels. */
  function BitmapBytes(pages: nat, levels: nat): nat {
    if levels == 0 then 0 else BitmapBytes(pages, levels - 1) + PredictSize(Shifted(pages, levels - 1))
  }

  function TableBytes(pages: nat): nat
    requires pages > 0
  {
    Levels(pages) * BITMAP_STRUCT
  }

  function RequiredSpace(pages: nat): nat
    requires pages > 0
  {
    TableBytes(pages) + BitmapBytes(pages, Levels(pages))
  }

  /** buddy_predict_req_space */
  method PredictReqSpace(pages: nat) returns (bytes: nat)
    requires pages > 0
    ensures bytes == RequiredSpace(pages)
  {
    var bitmaps: nat := 0;
    for i := 0 to Levels(pages)
      invariant bitmaps == BitmapBytes(pages, i)
    {
      bitmaps := bitmaps + PredictSize(Shifted(pages, i));
    }
    bytes := bitmaps + Levels(pages) * BITMAP_STRUCT;
  }

  /** The space predicted for a bitmap is whole words, enough for its bits, and none to spare. */
  lemma PredictionIsTight(length: nat)
    requires length > 0
    ensures PredictSize(length) == 4 * WordCount(length)
    ensures length <= 8 * PredictSize(length) < length + WORD_BITS
  {
    assert WordCount(length) * WORD_BITS / 8 == 4 * WordCount(length);
  }

  lemma {:induction false} MoreBitmapBytes(pages: nat, a: nat, b: nat)
    requires a <= b
    ensures BitmapBytes(pages, a) <= BitmapBytes(pages, b)
    decreases b - a
  {
    if a < b {
      MoreBitmapBytes(pages, a, b - 1);
    }
  }

  function SetIfInside(bits: seq<bool>, i: nat): seq<bool> {
    if i < |bits| then bits[i := true] else bits
  }

  ghost function TruePositions(bits: seq<bool>): set<nat> {
    set p | 0 <= p < |bits| && bits[p]
  }

  /** No clear bit at any level covers a page in use. */
  ghost predicate Covering(state: seq<seq<bool>>)
    requires |state| > 0
  {
    forall l, p :: 0 <= l < |state| && 0 <= p < |state[0]| && state[0][p] && Shifted(p, l) < |state[l]| ==>
      state[l][Shifted(p, l)]
  }

  /** Setting the bits of a page and of all its ancestors. */
  lemma Occupied(state: seq<seq<bool>>, page: nat, state': seq<seq<bool>>)
    requires |state'| == |state| > 0 && page < |state[0]| && Covering(state)
    requires forall l :: 0 <= l < |state| ==> state'[l] == SetIfInside(state[l], Shifted(page, l))
    ensures Covering(state') && TruePositions(state'[0]) == TruePositions(state[0]) + {page}
  {
    assert state'[0] == state[0][page := true];
  }

  /** Clearing the bit of a page and leaving its ancestors alone. */
  lemma Freed(state: seq<seq<bool>>, page: nat, state': seq<seq<bool>>)
    requires |state'| == |state| > 0 && page < |state[0]| && Covering(state)
    requires state'[0] == state[0][page := false] && forall l :: 0 < l < |state| ==> state'[l] == state[l]
    ensures Covering(state') && TruePositions(state'[0]) == TruePositions(state[0]) - {page}
  {
  }

  class BuddyManager {
    const pages: nat
    var levels: seq<Bitmap>

    ghost function Arrays(): set<array<nat>>
      reads this
    {
      set i | 0 <= i < |levels| :: levels[i].bitsets
    }

    /** A bitmap for each of the lowest levels, each with memory of its own. */
    ghost predicate LaidTo(count: nat)
      reads this, Arrays()
    {
      && pages > 0 && |levels| == count
      && (forall i :: 0 <= i < |levels| ==> levels[i].Valid() && levels[i].length == Shifted(pages, i))
      && (forall i, j :: 0 <= i < j < |levels| ==> levels[i].bitsets != levels[j].bitsets)
    }

    ghost predicate Laid()
      reads this, Arrays()
    {
      pages > 0 && LaidTo(Levels(pages))
    }

    /** The bits of all levels. */
    ghost function State(): seq<seq<bool>>
      requires Laid()
      reads this, Arrays()
    {
      seq(|levels|, i requires 0 <= i < |levels| && Laid() reads this, Arrays() => levels[i].Contents())
    }

    /** The pages in use. */
    ghost function InUse(): set<nat>
      requires Laid()
      reads this, Arrays()
    {
      TruePositions(State()[0])
    }

    ghost predicate Valid()
      reads this, Arrays()
    {
      Laid() && Covering(State())
    }

    ghost predicate AllFree()
      requires LaidTo(|levels|)
      reads this, Arrays()
    {
      forall i, k :: 0 <= i < |levels| && 0 <= k < levels[i].length ==> !levels[i].Contents()[k]
    }

    /** The bitmaps fill the range from `start` to `end`, each where the one before ends. */
    ghost predicate Consecutive(start: nat, end: nat)
      reads this
    {
      && (forall i :: 0 < i < |levels| ==> levels[i].space == levels[i - 1].space + PredictSize(levels[i - 1].length))
      && if |levels| == 0 then start == end
         else levels[0].space == start && end == levels[|levels| - 1].space + PredictSize(levels[|levels| - 1].length)
    }

    /** A new bitmap comes behind the others. */
    method Append(bitmap: Bitmap, ghost start: nat, ghost end: nat)
      requires LaidTo(|levels|) && AllFree() && Consecutive(start, end)
      requires bitmap.Valid() && bitmap.length == Shifted(pages, |levels|) && bitmap.space == end
      requires bitmap.bitsets !in Arrays() && forall k :: 0 <= k < bitmap.length ==> !bitmap.Contents()[k]
      modifies `levels
      ensures levels == old(levels) + [bitmap] && LaidTo(|levels|) && AllFree()
      ensures Consecutive(start, end + PredictSize(bitmap.length))
    {
      hide Bitmap.Valid, PredictSize, Shifted, Bitmap.Contents;
      levels := levels + [bitmap];
      assert forall i :: 0 <= i < |levels| ==> levels[i] == if i < |old(levels)| then old(levels[i]) else bitmap;
      assert forall i :: 0 <= i < |levels| ==> levels[i].length == Shifted(pages, i);
      forall i, k | 0 <= i < |levels| && 0 <= k < levels[i].length ensures !levels[i].Contents()[k] {
        assert i < |old(levels)| ==> !old(levels[i].Contents())[k];
      }
    }

    method AddLevel(alloc: LinearAlloc, ghost start: nat)
      requires Consecutive(start, alloc.position)
      requires LaidTo(|levels|) && AllFree() && |levels| < Levels(pages)
      requires alloc.Valid() && alloc.position + PredictSize(Shifted(pages, |levels|)) <= alloc.limit
      modifies `levels, alloc`position
      ensures LaidTo(|levels|) && AllFree() && |levels| == old(|levels|) + 1 && fresh(levels[old(|levels|)].bitsets)
      ensures forall i :: 0 <= i < old(|levels|) ==> levels[i] == old(levels[i])
      ensures Consecutive(start, alloc.position)
      ensures alloc.Valid() && alloc.position == old(alloc.position) + PredictSize(Shifted(pages, old(|levels|)))
    {
      hide Bitmap.Valid, PredictSize, Shifted, Bitmap.Contents, Consecutive;
      var bits := Shifted(pages, |levels|);
      LevelsHavePages(pages, |levels|);
      var space := alloc.Alloc(PredictSize(bits));
      var bitmap := new Bitmap(space, bits);
      Append(bitmap, start, space);
    }

    method AddLevels(alloc: LinearAlloc)
      requires pages > 0 && levels == [] && LaidTo(0) && AllFree() && alloc.Valid()
      requires Consecutive(alloc.position, alloc.position)
      requires alloc.position + BitmapBytes(pages, Levels(pages)) <= alloc.limit
      modifies `levels, alloc`position
      ensures Laid() && AllFree() && forall i :: 0 <= i < |levels| ==> fresh(levels[i].bitsets)
      ensures Consecutive(old(alloc.position), alloc.position)
      ensures alloc.Valid() && alloc.position == old(alloc.position) + BitmapBytes(pages, Levels(pages))
    {
      hide Bitmap.Contents, Bitmap.Valid, AllFree, PredictSize, Consecutive;
      var lvls := Levels(pages);
      MoreBitmapBytes(pages, 0, lvls);
      while |levels| < lvls
        invariant |levels| <= lvls && LaidTo(|levels|) && AllFree()
        invariant forall i :: 0 <= i < |levels| ==> fresh(levels[i].bitsets)
        invariant alloc.Valid() && alloc.position == old(alloc.position) + BitmapBytes(pages, |levels|)
        invariant Consecutive(old(alloc.position), alloc.position)
      {
        MoreBitmapBytes(pages, |levels| + 1, lvls);
        AddLevel(alloc, old(alloc.position));
      }
    }

    lemma NothingCovered()
      requires Laid() && AllFree()
      ensures Valid() && InUse() == {}
    {
      hide Bitmap.Contents, Bitmap.Valid;
      forall i, k | 0 <= i < |levels| && 0 <= k < levels[i].length ensures !State()[i][k] {
      }
    }

    /** A level has a bit for each whole run of its size. Every level that has one is there, and the last has one. */
    lemma AllLevelsAreThere()
      requires Laid()
      ensures forall l: nat :: l < |levels| <==> pages / Pow2(l) > 0
      ensures forall l :: 0 <= l < |levels| ==> levels[l].length == pages / Pow2(l)
      ensures |levels| > 0 && levels[|levels| - 1].length == 1
    {
      hide Bitmap.Valid, Shifted, Pow2;
      forall l: nat ensures l < |levels| <==> pages / Pow2(l) > 0 {
        LevelsHavePages(pages, l);
      }
      forall l | 0 <= l < |levels| ensures levels[l].length == pages / Pow2(l) {
        ShiftedDivides(pages, l);
      }
      LevelsHavePages(pages, |levels| - 1);
    }

    /** buddy_init: the table of bitmaps and then one bitmap after the other. */
    constructor (pages: nat, alloc: LinearAlloc)
      requires pages > 0 && alloc.Valid() && alloc.position + RequiredSpace(pages) <= alloc.limit
      modifies alloc`position
      ensures this.pages == pages && Valid() && InUse() == {} && fresh(Arrays())
      ensures Consecutive(old(alloc.position) + TableBytes(pages), alloc.position)
      ensures alloc.Valid() && alloc.position == old(alloc.position) + RequiredSpace(pages)
      ensures forall l: nat :: l < |levels| <==> pages / Pow2(l) > 0
      ensures forall l :: 0 <= l < |levels| ==> levels[l].length == pages / Pow2(l)
    {
      hide Bitmap.Valid, Bitmap.Contents, PredictSize, Shifted, Pow2, BitmapBytes;
      this.pages := pages;
      levels := [];
      new;
      var table := alloc.Alloc(TableBytes(pages));
      AddLevels(alloc);
      NothingCovered();
      AllLevelsAreThere();
    }

    lemma {:induction false} FromTheStart(start: nat, end: nat, i: nat)
      requires Consecutive(start, end) && i < |levels|
      ensures start <= levels[i].space
    {
      if i > 0 {
        FromTheStart(start, end, i - 1);
      }
    }

    lemma {:induction false} BeforeTheEnd(start: nat, end: nat, i: nat)
      requires Consecutive(start, end) && i < |levels|
      ensures levels[i].space + PredictSize(levels[i].length) <= end
      decreases |levels| - i
    {
      if i < |levels| - 1 {
        BeforeTheEnd(start, end, i + 1);
        assert levels[i + 1].space == levels[i].space + PredictSize(levels[i].length);
      }
    }

    /** The bitmaps of two levels do not overlap. */
    lemma {:induction false} SpacesAreDisjoint(start: nat, end: nat, i: nat, j: nat)
      requires Consecutive(start, end) && i < j < |levels|
      ensures start <= levels[i].space && levels[i].space + PredictSize(levels[i].length) <= levels[j].space
      ensures levels[j].space + PredictSize(levels[j].length) <= end
    {
      FromTheStart(start, end, i);
      BeforeTheEnd(start, end, j);
      if i < j - 1 {
        SpacesAreDisjoint(start, end, i, j - 1);
      }
    }

    method OccupyBuddy(page: nat)
      requires Valid() && page < pages
      modifies Arrays()
      ensures Valid() && InUse() == old(InUse()) + {page}
    {
      hide Bitmap.Contents, Bitmap.Valid, Covering, TruePositions;
      ghost var state := State();
      for i := 0 to |levels|
        invariant Laid()
        invariant forall l :: 0 <= l < i ==> levels[l].Contents() == SetIfInside(state[l], Shifted(page, l))
        invariant forall l :: i <= l < |levels| ==> levels[l].Contents() == state[l]
      {
        // A trailing odd run has no bit at the level above.
        if Shifted(page, i) < levels[i].length {
          levels[i].SetTrue(Shifted(page, i));
        }
      }
      Occupied(state, page, State());
    }

    method TryAlloc(page: nat) returns (ok: bool)
      requires Valid() && page < pages
      modifies Arrays()
      ensures Valid() && ok == (page !in old(InUse())) && InUse() == old(InUse()) + {page}
    {
      hide Bitmap.Contents, Bitmap.Valid, Covering;
      var used := levels[0].Get(page);
      if used {
        return false;
      }
      OccupyBuddy(page);
      ok := true;
    }

    /** The lowest free page, if there is one. */
    method Alloc() returns (ok: bool, page: nat)
      requires Valid()
      modifies Arrays()
      ensures Valid()
      ensures ok <==> exists p :: 0 <= p < pages && p !in old(InUse())
      ensures ok ==> page < pages && page !in old(InUse()) && InUse() == old(InUse()) + {page}
      ensures ok ==> forall p :: 0 <= p < page ==> p in old(InUse())
      ensures !ok ==> InUse() == old(InUse())
    {
      hide Bitmap.Contents, Bitmap.Valid, Covering;
      ok, page := levels[0].SearchFalse();
      if ok {
        assert page !in InUse();
        OccupyBuddy(page);
      }
    }

    /**
     * The climb to the ancestors ends at its first step, since one of the two children it looks at is the page just
     * freed. Looking at both fails an assertion when the page is the last of an odd number.
     */
    method Free(page: nat) returns (asserts: bool)
      requires Valid() && page < pages
      modifies Arrays()
      ensures Valid() && InUse() == old(InUse()) - {page}
      ensures forall l :: 0 < l < |levels| ==> State()[l] == old(State())[l]
      ensures asserts <==> page / 2 * 2 + 1 < pages
    {
      hide Bitmap.Contents, Bitmap.Valid, Covering, TruePositions;
      ghost var state := State();
      levels[0].SetFalse(page);
      Freed(state, page, State());
      asserts := page / 2 * 2 + 1 < levels[0].length;
      if asserts {
        var left := levels[0].Get(page / 2 * 2);
        var right := levels[0].Get(page / 2 * 2 + 1);
        assert !left || !right;
      }
    }
  }
}
