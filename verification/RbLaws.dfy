/** What the effects of the tree operations mean for a tree kept in order. */
module RbLaws {
  import opened Arith
  import opened RbTheory
  import opened RbHeap
  import opened RbOrder
  import opened RbInsert
  import opened RbDelete
  import opened RbSearch
  import opened RbIterate

  // ---------------------------------------------------------------- order is kept

  /** In a sorted tree the signs against a new node rise, so `Insert` may be called. */
  lemma SortedRises<D>(cmpf: (D, D) -> int, n: RbNode<D>, s: seq<RbNode<D>>)
    requires Sorted(cmpf, s) && Preorder(cmpf, s + [n])
    ensures Rising(cmpf, n.data, s)
  {
    var w := s + [n];
    forall i, j | 0 <= i < j < |s|
      ensures cmpf(s[i].data, n.data) >= 0 ==> cmpf(s[j].data, n.data) >= 0
      ensures cmpf(s[i].data, n.data) > 0 ==> cmpf(s[j].data, n.data) > 0
    {
      assert w[i] == s[i] && w[j] == s[j] && w[|s|] == n;
      assert cmpf(w[i].data, w[j].data) <= 0;
    }
  }

  lemma {:induction false} RankBounds<D, V>(cmpf: (D, V) -> int, v: V, s: seq<RbNode<D>>)
    ensures AllBelow(cmpf, v, s[..Rank(cmpf, v, s)])
    ensures Rank(cmpf, v, s) < |s| ==> cmpf(s[Rank(cmpf, v, s)].data, v) >= 0
  {
    if s != [] && cmpf(s[0].data, v) < 0 {
      RankBounds(cmpf, v, s[1..]);
      var r := Rank(cmpf, v, s);
      assert s[..r] == [s[0]] + s[1..][..r - 1];
    }
  }

  lemma InsertedSorted<D>(cmpf: (D, D) -> int, n: RbNode<D>, s: seq<RbNode<D>>)
    requires Sorted(cmpf, s) && Preorder(cmpf, s + [n])
    ensures Sorted(cmpf, Inserted(cmpf, n, s))
  {
    hide Rank;
    SortedRises(cmpf, n, s);
    RankBounds(cmpf, n.data, s);
    var r, w := Rank(cmpf, n.data, s), s + [n];
    var s' := Inserted(cmpf, n, s);
    assert w[|s|] == n;
    forall i | 0 <= i < r ensures cmpf(s[i].data, n.data) <= 0 {
      assert s[..r][i] == s[i];
    }
    forall i | r <= i < |s| ensures cmpf(n.data, s[i].data) <= 0 {
      assert cmpf(s[r].data, n.data) >= 0;
      assert w[i] == s[i];
    }
    forall i, j | 0 <= i < j < |s'| ensures cmpf(s'[i].data, s'[j].data) <= 0 {
      assert s'[i] == if i < r then s[i] else if i == r then n else s[i - 1];
      assert s'[j] == if j < r then s[j] else if j == r then n else s[j - 1];
    }
  }

  lemma {:induction false} RemovedIsSplit<N>(s: seq<N>, n: N) returns (i: nat)
    requires n in s
    ensures i < |s| && s[i] == n && Removed(s, n) == s[..i] + s[i + 1..]
  {
    if s[0] == n {
      i := 0;
    } else {
      var j := RemovedIsSplit(s[1..], n);
      i := j + 1;
      assert s[..i] == [s[0]] + s[1..][..j];
    }
  }

  lemma RemovedSorted<D>(cmpf: (D, D) -> int, n: RbNode<D>, s: seq<RbNode<D>>)
    requires Sorted(cmpf, s) && n in s
    ensures Sorted(cmpf, Removed(s, n))
  {
    var i := RemovedIsSplit(s, n);
  }

  /** Deleting what was just inserted gives the old sequence back. */
  lemma RemovedInserted<D>(cmpf: (D, D) -> int, n: RbNode<D>, s: seq<RbNode<D>>)
    requires n !in s
    ensures Removed(Inserted(cmpf, n, s), n) == s
  {
    var r := Rank(cmpf, n.data, s);
    RemovedSplit(s[..r], n, s[r..]);
  }

  // ---------------------------------------------------------------- every reachable tree

  /** Height, and with it the number of comparisons of a search, is at most `2 * log2(n + 1)`. */
  lemma ValidIsShallow<D>(rbt: RbTree<D>)
    requires rbt.Valid()
    ensures Pow2(Height(rbt.model)) <= (|rbt.Nodes()| + 1) * (|rbt.Nodes()| + 1)
    ensures NoDuplicates(rbt.Nodes())
  {
    HeightIsLogarithmic(rbt.model);
    DistinctInOrder(rbt.model);
  }

  // ---------------------------------------------------------------- the range walk

  /** The calls are the nodes of a stretch, none above `to`; it ends at the end, before a node above `to`,
      or at a call that said stop, and no earlier call did. */
  lemma {:induction false} CallsAreStretch<D>(s: seq<RbNode<D>>, cmpf: (D, D) -> int, to: D,
      fn: seq<RbNode<D>> -> bool, past: seq<RbNode<D>>)
      returns (m: nat)
    ensures m <= |s| && Calls(s, cmpf, to, fn, past) == past + s[..m]
    ensures forall i :: 0 <= i < m ==> cmpf(s[i].data, to) <= 0
    ensures forall i :: 0 < i < m ==> fn(past + s[..i])
    ensures m == |s| || cmpf(s[m].data, to) > 0 || (m > 0 && !fn(past + s[..m]))
    decreases |s|
  {
    if s == [] || cmpf(s[0].data, to) > 0 {
      m := 0;
      assert past + s[..0] == past;
    } else if !fn(past + [s[0]]) {
      m := 1;
      assert s[..1] == [s[0]];
    } else {
      var l := CallsAreStretch(s[1..], cmpf, to, fn, past + [s[0]]);
      m := l + 1;
      forall i | 0 <= i <= l ensures (past + [s[0]]) + s[1..][..i] == past + s[..i + 1] {
        assert s[..i + 1] == [s[0]] + s[1..][..i];
      }
      forall i | 0 < i < m ensures fn(past + s[..i]) {
        assert i == 1 ==> s[..1] == [s[0]];
        assert i > 1 ==> (past + [s[0]]) + s[1..][..i - 1] == past + s[..i];
      }
    }
  }

  /** With distinct keys and a callback that never stops, the calls are exactly the nodes between the bounds. */
  lemma RangeIsExact<D>(s: seq<RbNode<D>>, cmpf: (D, D) -> int, from: D, to: D, fn: seq<RbNode<D>> -> bool, first: nat)
    requires Rising(cmpf, from, s) && Rising(cmpf, to, s) && LeastWithin(cmpf, from, s, first)
    requires forall i, j :: 0 <= i < j < |s| ==> !(cmpf(s[i].data, from) == 0 && cmpf(s[j].data, from) == 0)
    requires forall past :: fn(past)
    ensures var calls := Calls(s[first..], cmpf, to, fn, []);
      && (forall i :: 0 <= i < |calls| ==> first + i < |s| && calls[i] == s[first + i])
      && (forall i :: 0 <= i < |s| ==>
           (cmpf(s[i].data, from) >= 0 && cmpf(s[i].data, to) <= 0 <==> first <= i < first + |calls|))
  {
    var m := CallsAreStretch(s[first..], cmpf, to, fn, []);
    var calls := Calls(s[first..], cmpf, to, fn, []);
    assert calls == s[first..][..m];
    forall i | 0 <= i < |s|
      ensures cmpf(s[i].data, from) >= 0 && cmpf(s[i].data, to) <= 0 <==> first <= i < first + m
    {
      if i < first {
        assert s[i] == s[..first][i];
      } else if i < first + m {
        assert s[first..][i - first] == s[i];
      } else {
        assert s[first..][m] == s[first + m];
      }
    }
  }
}
