/** The three lists of a cache and how slabs move between them, on values. */
module SlabLists {
  import opened Slist

  datatype ListName = Empty | Partial | Full

  /** The list a slab belongs on. */
  function ListFor(inuse: nat, capacity: nat): ListName {
    if inuse == 0 then Empty else if inuse == capacity then Full else Partial
  }

  /** Where find_existing_slab puts the slab it is about to take an object from, given the list it was on. */
  function ListOnReuse(from: ListName, inuse: nat, capacity: nat): ListName {
    if from == Partial && inuse + 1 == capacity then Full else Partial
  }

  /**
   * Reuse files a slab where it belongs, except in a cache of one object a slab: there an emptied slab goes on
   * the partial list although its only object is in use, and the next allocation finds no free buffer on it.
   */
  lemma ReuseFilesWell(inuse: nat, capacity: nat)
    requires inuse < capacity
    ensures ListOnReuse(ListFor(inuse, capacity), inuse, capacity) == ListFor(inuse + 1, capacity) <==> capacity > 1
  {
  }

  /** `list` holds exactly the slabs that belong on the list of that name, by their numbers of objects in use. */
  ghost predicate Filed(list: seq<nat>, counts: map<nat, nat>, capacity: nat, name: ListName) {
    && AllDifferent(list)
    && (forall p :: p in list ==> p in counts && ListFor(counts[p], capacity) == name)
    && (forall p :: p in counts && ListFor(counts[p], capacity) == name ==> p in list)
  }

  /**
   * The lists of a cache. With one object a slab, a slab in use is on the full list or, once it has been used again,
   * on the partial list.
   */
  ghost predicate ListsOk(counts: map<nat, nat>, capacity: nat, empty: seq<nat>, partial: seq<nat>, full: seq<nat>) {
    && Filed(empty, counts, capacity, Empty)
    && if capacity > 1 then
         Filed(partial, counts, capacity, Partial) && Filed(full, counts, capacity, Full)
       else
         Filed(partial + full, counts, capacity, Full)
  }

  /** `rest` is `list` without `page`, in the same order. */
  ghost predicate LeftBy(list: seq<nat>, page: nat, rest: seq<nat>) {
    && AllDifferent(rest) && page !in rest && |rest| + 1 == |list|
    && (forall q :: q in rest ==> q in list)
    && (forall q :: q in list && q != page ==> q in rest)
    && (exists i :: 0 <= i < |list| && list[i] == page && rest == Without(list, i))
  }

  lemma PlaceOf(list: seq<nat>, page: nat, rest: seq<nat>) returns (i: nat)
    requires LeftBy(list, page, rest)
    ensures i < |list| && list[i] == page && rest == Without(list, i)
  {
    i :| 0 <= i < |list| && list[i] == page && rest == Without(list, i);
  }

  /** Without its first element, a list is the rest of it. */
  lemma FirstLeaves(list: seq<nat>, rest: seq<nat>)
    requires list != [] && AllDifferent(list) && LeftBy(list, list[0], rest)
    ensures rest == list[1..]
  {
    var i := PlaceOf(list, list[0], rest);
  }

  lemma WithoutIsLeft(list: seq<nat>, i: nat)
    requires AllDifferent(list) && i < |list|
    ensures LeftBy(list, list[i], Without(list, i))
  {
    var page, rest := list[i], Without(list, i);
    forall q | q in list && q != page ensures q in rest {
      var j :| 0 <= j < |list| && list[j] == q;
      assert rest[if j < i then j else j - 1] == q;
    }
    forall j | 0 <= j < |rest| ensures rest[j] == list[if j < i then j else j + 1] {
    }
  }

  /** slist_remove on a list of slabs. */
  method Leave(list: seq<nat>, page: nat) returns (rest: seq<nat>)
    requires AllDifferent(list) && page in list
    ensures LeftBy(list, page, rest)
  {
    var i := 0;
    while list[i] != page
      invariant i < |list| && page !in list[..i]
      decreases |list| - i
    {
      i := i + 1;
    }
    rest := Without(list, i);
    WithoutIsLeft(list, i);
  }

  // How one list is filed once slab `page` counts `n` objects in use, or is gone.

  lemma LeavingFiles(list: seq<nat>, rest: seq<nat>, counts: map<nat, nat>, capacity: nat, name: ListName,
      page: nat, n: nat)
    requires Filed(list, counts, capacity, name) && LeftBy(list, page, rest)
    requires page in counts && ListFor(n, capacity) != name
    ensures Filed(rest, counts[page := n], capacity, name)
  {
  }

  lemma JoiningFiles(list: seq<nat>, counts: map<nat, nat>, capacity: nat, name: ListName, page: nat, n: nat)
    requires Filed(list, counts, capacity, name)
    requires page in counts ==> ListFor(counts[page], capacity) != name
    requires ListFor(n, capacity) == name
    ensures Filed([page] + list, counts[page := n], capacity, name)
  {
    assert page !in list;
  }

  lemma StayingFiles(list: seq<nat>, counts: map<nat, nat>, capacity: nat, name: ListName, page: nat, n: nat)
    requires Filed(list, counts, capacity, name)
    requires (ListFor(n, capacity) == name) == (page in counts && ListFor(counts[page], capacity) == name)
    ensures Filed(list, counts[page := n], capacity, name)
  {
  }

  lemma DroppingFiles(list: seq<nat>, rest: seq<nat>, counts: map<nat, nat>, capacity: nat, name: ListName, page: nat)
    requires Filed(list, counts, capacity, name) && page in counts
    requires if ListFor(counts[page], capacity) == name then LeftBy(list, page, rest) else rest == list
    ensures Filed(rest, counts - {page}, capacity, name)
  {
  }

  /** The order of the elements does not matter. */
  lemma FiledInAnyOrder(list: seq<nat>, list': seq<nat>, counts: map<nat, nat>, capacity: nat, name: ListName)
    requires Filed(list, counts, capacity, name) && AllDifferent(list') && forall p :: p in list' <==> p in list
    ensures Filed(list', counts, capacity, name)
  {
  }

  lemma InTheMiddle(a: seq<nat>, x: nat, b: seq<nat>)
    requires AllDifferent([x] + (a + b))
    ensures AllDifferent(a + ([x] + b))
    ensures forall p :: p in a + ([x] + b) <==> p in [x] + (a + b)
  {
    var s, t := [x] + (a + b), a + ([x] + b);
    assert forall i :: 0 <= i < |t| ==> t[i] == if i < |a| then s[i + 1] else if i == |a| then s[0] else s[i];
    forall i, j | 0 <= i < j < |t| ensures t[i] != t[j] {
      var k: nat := if i < |a| then i + 1 else if i == |a| then 0 else i;
      var l: nat := if j < |a| then j + 1 else if j == |a| then 0 else j;
      assert s[k] == t[i] && s[l] == t[j] && k != l;
    }
  }

  lemma LeftBehind(a: seq<nat>, b: seq<nat>, page: nat, rest: seq<nat>)
    requires AllDifferent(a + b) && page in b && LeftBy(b, page, rest)
    ensures page !in a && LeftBy(a + b, page, a + rest)
  {
    hide LeftBy;
    var s := a + b;
    var l := PlaceOf(b, page, rest);
    assert s[|a| + l] == page && forall i :: 0 <= i < |a| ==> s[i] == a[i];
    assert a + rest == Without(s, |a| + l);
    WithoutIsLeft(s, |a| + l);
  }

  lemma OneOfTwo(a: seq<nat>, b: seq<nat>, x: nat)
    requires AllDifferent(a + b)
    ensures !(x in a && x in b) && AllDifferent(b) && (x in a + b <==> x in a || x in b)
  {
    var s := a + b;
    assert forall i :: 0 <= i < |b| ==> s[|a| + i] == b[i];
    assert forall i :: 0 <= i < |a| ==> s[i] == a[i];
  }

  /** What the lists say of each slab, and each slab of the lists. */
  lemma OnOneList(counts: map<nat, nat>, capacity: nat, e: seq<nat>, p: seq<nat>, f: seq<nat>, page: nat)
    requires capacity > 0 && ListsOk(counts, capacity, e, p, f)
    ensures page in e <==> page in counts && counts[page] == 0
    ensures capacity > 1 ==> (page in p <==> page in counts && ListFor(counts[page], capacity) == Partial)
    ensures capacity > 1 ==> (page in f <==> page in counts && ListFor(counts[page], capacity) == Full)
    ensures capacity == 1 ==> !(page in p && page in f)
    ensures capacity == 1 ==> (page in p || page in f <==> page in counts && counts[page] == 1)
  {
    if capacity == 1 {
      OneOfTwo(p, f, page);
    }
  }

  /** The list that slist_remove searches for a slab, and whether it is there. */
  ghost predicate FoundOn(page: nat, inuse: nat, capacity: nat, e: seq<nat>, p: seq<nat>, f: seq<nat>) {
    match ListFor(inuse, capacity)
    case Empty => page in e && AllDifferent(e) && page !in p
    case Full => AllDifferent(f) && (page in f <==> !(capacity == 1 && page in p))
    case Partial => page in p && AllDifferent(p)
  }

  lemma WhereFound(counts: map<nat, nat>, capacity: nat, e: seq<nat>, p: seq<nat>, f: seq<nat>, page: nat)
    requires capacity > 0 && ListsOk(counts, capacity, e, p, f) && page in counts && counts[page] <= capacity
    ensures FoundOn(page, counts[page], capacity, e, p, f)
  {
    OnOneList(counts, capacity, e, p, f, page);
    if capacity == 1 {
      OneOfTwo(p, f, page);
    }
  }

  // How all three lists are filed after each move of the source.

  /** A partly used slab gives one more object; it goes on the full list if that was its last. */
  lemma PartialReused(counts: map<nat, nat>, capacity: nat, e: seq<nat>, p: seq<nat>, f: seq<nat>, page: nat,
      p': seq<nat>, f': seq<nat>)
    requires capacity > 1 && ListsOk(counts, capacity, e, p, f) && page in p && page in counts
    requires counts[page] < capacity
    requires if counts[page] + 1 == capacity then LeftBy(p, page, p') && f' == [page] + f else p' == p && f' == f
    ensures ListsOk(counts[page := counts[page] + 1], capacity, e, p', f')
  {
    var n := counts[page] + 1;
    StayingFiles(e, counts, capacity, Empty, page, n);
    if n == capacity {
      LeavingFiles(p, p', counts, capacity, Partial, page, n);
      JoiningFiles(f, counts, capacity, Full, page, n);
    } else {
      StayingFiles(p, counts, capacity, Partial, page, n);
      StayingFiles(f, counts, capacity, Full, page, n);
    }
  }

  /** An empty slab goes on the partial list, whatever the capacity. */
  lemma EmptyReused(counts: map<nat, nat>, capacity: nat, e: seq<nat>, p: seq<nat>, f: seq<nat>, page: nat,
      e': seq<nat>)
    requires capacity > 0 && ListsOk(counts, capacity, e, p, f) && page in e && LeftBy(e, page, e')
    ensures ListsOk(counts[page := 1], capacity, e', [page] + p, f)
  {
    LeavingFiles(e, e', counts, capacity, Empty, page, 1);
    if capacity > 1 {
      JoiningFiles(p, counts, capacity, Partial, page, 1);
      StayingFiles(f, counts, capacity, Full, page, 1);
    } else {
      JoiningFiles(p + f, counts, capacity, Full, page, 1);
      assert ([page] + p) + f == [page] + (p + f);
    }
  }

  /** A new slab goes on the list it belongs on with its first object in use. */
  lemma NewFiled(counts: map<nat, nat>, capacity: nat, e: seq<nat>, p: seq<nat>, f: seq<nat>, page: nat)
    requires capacity > 0 && ListsOk(counts, capacity, e, p, f) && page !in counts
    ensures ListsOk(counts[page := 1], capacity, e,
                    if capacity == 1 then p else [page] + p, if capacity == 1 then [page] + f else f)
  {
    StayingFiles(e, counts, capacity, Empty, page, 1);
    if capacity > 1 {
      JoiningFiles(p, counts, capacity, Partial, page, 1);
      StayingFiles(f, counts, capacity, Full, page, 1);
    } else {
      JoiningFiles(p + f, counts, capacity, Full, page, 1);
      InTheMiddle(p, page, f);
      FiledInAnyOrder([page] + (p + f), p + ([page] + f), counts[page := 1], capacity, Full);
    }
  }

  /** A slab takes an object back. A full slab must be found on the full list. */
  lemma Refiled(counts: map<nat, nat>, capacity: nat, e: seq<nat>, p: seq<nat>, f: seq<nat>, page: nat, n: nat,
      e': seq<nat>, p': seq<nat>, f': seq<nat>)
    requires ListsOk(counts, capacity, e, p, f) && page in counts && counts[page] == n + 1 <= capacity
    requires if n + 1 == capacity then page in f && LeftBy(f, page, f') else f' == f
    requires if n == 0 then e' == [page] + e else e' == e
    requires if n + 1 == capacity then p' == (if n == 0 then p else [page] + p)
             else if n == 0 then LeftBy(p, page, p') else p' == p
    ensures ListsOk(counts[page := n], capacity, e', p', f')
  {
    if n == 0 {
      JoiningFiles(e, counts, capacity, Empty, page, n);
    } else {
      StayingFiles(e, counts, capacity, Empty, page, n);
    }
    if capacity == 1 {
      LeftBehind(p, f, page, f');
      LeavingFiles(p + f, p + f', counts, capacity, Full, page, n);
    } else if n + 1 == capacity {
      LeavingFiles(f, f', counts, capacity, Full, page, n);
      JoiningFiles(p, counts, capacity, Partial, page, n);
    } else {
      StayingFiles(f, counts, capacity, Full, page, n);
      if n == 0 {
        LeavingFiles(p, p', counts, capacity, Partial, page, n);
      } else {
        StayingFiles(p, counts, capacity, Partial, page, n);
      }
    }
  }

  /** A slab leaves the list that its number of objects in use says. */
  lemma Unlisted(counts: map<nat, nat>, capacity: nat, e: seq<nat>, p: seq<nat>, f: seq<nat>, page: nat,
      e': seq<nat>, p': seq<nat>, f': seq<nat>)
    requires capacity > 0 && ListsOk(counts, capacity, e, p, f) && page in counts && counts[page] <= capacity
    requires var name := ListFor(counts[page], capacity);
             && (if name == Empty then LeftBy(e, page, e') else e' == e)
             && (if name == Partial then LeftBy(p, page, p') else p' == p)
             && (if name == Full then page in f && LeftBy(f, page, f') else f' == f)
    ensures ListsOk(counts - {page}, capacity, e', p', f')
  {
    DroppingFiles(e, e', counts, capacity, Empty, page);
    if capacity > 1 {
      DroppingFiles(p, p', counts, capacity, Partial, page);
      DroppingFiles(f, f', counts, capacity, Full, page);
    } else {
      if counts[page] == 1 {
        LeftBehind(p, f, page, f');
      }
      DroppingFiles(p + f, p' + f', counts, capacity, Full, page);
    }
  }
}
