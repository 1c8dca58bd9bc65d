/**
 * The filing of a single slab under any run of allocations and frees, for every capacity. This is where caches of
 * one object a slab go wrong. The lists of a cache file each of its slabs so.
 */
module SlabFiling {
  import opened SlabLists

  datatype Op = Take | Give

  datatype Filing = Filing(list: ListName, inuse: nat)

  /** A trap is an assertion of the allocator that fails. */
  datatype Step = Trap | Next(filing: Filing)

  /** A new slab with its first object in use. */
  function Start(capacity: nat): Filing {
    Filing(if capacity == 1 then Full else Partial, 1)
  }

  /**
   * An allocation as far as this slab is concerned. A full slab is not offered, and the object comes from elsewhere.
   */
  function TakeFrom(f: Filing, capacity: nat): Step {
    if f.list == Full then Next(f)
    else if f.inuse >= capacity then Trap
    else Next(Filing(ListOnReuse(f.list, f.inuse, capacity), f.inuse + 1))
  }

  /** A free of one of its objects, if any is in use. It traps where a list is searched for a slab that is not on it. */
  function GiveTo(f: Filing, capacity: nat): Step {
    var wasFull, becomesEmpty := f.inuse == capacity, f.inuse == 1;
    if f.inuse == 0 then Next(f)
    else if wasFull && f.list != Full then Trap
    else if !wasFull && becomesEmpty && (capacity <= 1 || f.list != Partial) then Trap
    else Next(Filing(if becomesEmpty then Empty else if wasFull then Partial else f.list, f.inuse - 1))
  }

  function Run(f: Filing, ops: seq<Op>, capacity: nat): Step
    decreases |ops|
  {
    if ops == [] then Next(f)
    else
      var step := if ops[0] == Take then TakeFrom(f, capacity) else GiveTo(f, capacity);
      if step.Trap? then Trap else Run(step.filing, ops[1..], capacity)
  }

  lemma {:induction false} FilingHolds(f: Filing, ops: seq<Op>, capacity: nat)
    requires capacity > 1 && f.inuse <= capacity && f.list == ListFor(f.inuse, capacity)
    decreases |ops|
    ensures var end := Run(f, ops, capacity);
            end.Next? && end.filing.inuse <= capacity && end.filing.list == ListFor(end.filing.inuse, capacity)
  {
    if ops != [] {
      var step := if ops[0] == Take then TakeFrom(f, capacity) else GiveTo(f, capacity);
      FilingHolds(step.filing, ops[1..], capacity);
    }
  }

  /** Taking, giving back and taking again leaves the only object in use and the slab on the partial list. */
  lemma OneObjectASlabTraps()
    ensures Run(Start(1), [Give, Take], 1) == Next(Filing(Partial, 1))
    ensures Run(Start(1), [Give, Take, Take], 1) == Trap
    ensures Run(Start(1), [Give, Take, Give], 1) == Trap
  {
    assert [Give, Take, Take][1..][1..] == [Take] && [Give, Take, Give][1..][1..] == [Give];
    assert [Give, Take, Take][1..] == [Take, Take] && [Give, Take, Give][1..] == [Take, Give] &&
        [Give, Take][1..] == [Take];
    assert GiveTo(Start(1), 1) == Next(Filing(Empty, 0)) && TakeFrom(Filing(Empty, 0), 1) == Next(Filing(Partial, 1));
  }

  /** No run traps exactly when a slab holds more than one object. */
  lemma TrapsExactlyForOneObject(capacity: nat)
    requires capacity > 0
    ensures (forall ops :: !Run(Start(capacity), ops, capacity).Trap?) <==> capacity > 1
  {
    if capacity > 1 {
      forall ops ensures !Run(Start(capacity), ops, capacity).Trap? {
        FilingHolds(Start(capacity), ops, capacity);
      }
    } else {
      OneObjectASlabTraps();
    }
  }

  // ------------------------------------------------------------ the lists of a cache

  /** The list that a slab of the cache is on. */
  function ListIn(page: nat, empty: seq<nat>, partial: seq<nat>): ListName {
    if page in empty then Empty else if page in partial then Partial else Full
  }

  /** What an allocation does to the slabs: to one that is there, or with a new one. */
  function Allocated(was: map<nat, Filing>, page: nat, capacity: nat): Step {
    if page in was then TakeFrom(was[page], capacity) else Next(Start(capacity))
  }

  /** The first partly used slab is taken from, without more ado if it does not become full... */
  lemma PartialTaken(counts: map<nat, nat>, capacity: nat, e: seq<nat>, p: seq<nat>, f: seq<nat>)
    requires capacity > 1 && ListsOk(counts, capacity, e, p, f) && p != []
    requires p[0] in counts && counts[p[0]] < capacity
    ensures var page, n := p[0], counts[p[0]];
            var p' := if n + 1 == capacity then p[1..] else p;
            && ListIn(page, e, p) == Partial
            && TakeFrom(Filing(ListIn(page, e, p), n), capacity) == Next(Filing(ListIn(page, e, p'), n + 1))
            && forall q :: q != page ==> ListIn(q, e, p') == ListIn(q, e, p)
  {
    assert p[0] in p && p[0] !in e;
    forall q | q in p && q != p[0] ensures q in p[1..] {
      var i :| 0 <= i < |p| && p[i] == q;
      assert p[1..][i - 1] == q;
    }
  }

  /** ... and otherwise the first empty one. */
  lemma EmptyTaken(counts: map<nat, nat>, capacity: nat, e: seq<nat>, p: seq<nat>, f: seq<nat>)
    requires capacity > 0 && ListsOk(counts, capacity, e, p, f) && e != []
    ensures var page, n := e[0], counts[e[0]];
            && ListIn(page, e, p) == Empty
            && TakeFrom(Filing(ListIn(page, e, p), n), capacity) ==
               Next(Filing(ListIn(page, e[1..], [page] + p), n + 1))
            && forall q :: q != page ==> ListIn(q, e[1..], [page] + p) == ListIn(q, e, p)
  {
    assert e[0] in e && e[0] !in e[1..];
    forall q | q in e && q != e[0] ensures q in e[1..] {
      var i :| 0 <= i < |e| && e[i] == q;
      assert e[1..][i - 1] == q;
    }
  }

  /** With one object a slab, an allocation that comes to a partly used slab traps. */
  lemma UsedOneTraps(counts: map<nat, nat>, e: seq<nat>, p: seq<nat>, f: seq<nat>)
    requires ListsOk(counts, 1, e, p, f) && p != []
    ensures p[0] in counts && ListIn(p[0], e, p) == Partial
    ensures TakeFrom(Filing(ListIn(p[0], e, p), counts[p[0]]), 1) == Trap
  {
    OnOneList(counts, 1, e, p, f, p[0]);
  }

  /** A new slab. */
  lemma NewStarts(capacity: nat, e: seq<nat>, p: seq<nat>, page: nat)
    requires capacity > 0 && page !in e && page !in p
    ensures var p' := if capacity == 1 then p else [page] + p;
            && Start(capacity) == Filing(ListIn(page, e, p'), 1)
            && forall q :: q != page ==> ListIn(q, e, p') == ListIn(q, e, p)
  {
  }

  lemma UnlistedTraps(counts: map<nat, nat>, e: seq<nat>, p: seq<nat>, f: seq<nat>, page: nat)
    requires ListsOk(counts, 1, e, p, f) && page in counts && counts[page] == 1 && page !in f
    ensures GiveTo(Filing(ListIn(page, e, p), 1), 1) == Trap
  {
    OnOneList(counts, 1, e, p, f, page);
  }

  /** A free moves the slab of the object as `GiveTo` says, or traps where that does. */
  lemma GivenBack(counts: map<nat, nat>, capacity: nat, e: seq<nat>, p: seq<nat>, f: seq<nat>, page: nat,
      e': seq<nat>, p': seq<nat>)
    requires capacity > 0 && ListsOk(counts, capacity, e, p, f) && page in counts && 0 < counts[page] <= capacity
    requires var n := counts[page];
             && e' == (if n == 1 then [page] + e else e)
             && if n == capacity then p' == (if n == 1 then p else [page] + p)
                else if n == 1 then LeftBy(p, page, p') else p' == p
    ensures var n := counts[page];
            var step := GiveTo(Filing(ListIn(page, e, p), n), capacity);
            && (step == Trap <==> capacity == 1 && page in p)
            && (step != Trap ==> step == Next(Filing(ListIn(page, e', p'), n - 1)))
            && forall q :: q != page ==> ListIn(q, e', p') == ListIn(q, e, p)
  {
    hide ListsOk;
    OnOneList(counts, capacity, e, p, f, page);
  }
}
