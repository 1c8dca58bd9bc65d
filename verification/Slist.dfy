/** The intrusive singly linked list. A list is a chain of references that starts with its head. */
module Slist {

  class SlistRef<E> {
    /** The object this reference is embedded in; a list head has none. */
    const elem: E
    var next: SlistRef?<E>

    constructor (elem: E)
      ensures this.elem == elem && next == null
    {
      this.elem := elem;
      next := null;
    }
  }

  /** The reference after the `i`-th one. */
  ghost function Successor<E>(refs: seq<SlistRef<E>>, i: nat): SlistRef?<E>
    requires i < |refs|
  {
    if i + 1 < |refs| then refs[i + 1] else null
  }

  ghost predicate AllDifferent<T>(s: seq<T>) {
    forall i, j :: 0 <= i < j < |s| ==> s[i] != s[j]
  }

  /** Following `next` from `refs[0]` visits exactly `refs`. */
  ghost predicate Chain<E>(refs: seq<SlistRef<E>>)
    reads refs
  {
    && (forall i :: 0 <= i < |refs| ==> refs[i].next == Successor(refs, i))
    && AllDifferent(refs)
  }

  ghost function WithAfter<T>(s: seq<T>, i: nat, x: T): seq<T>
    requires i < |s|
  {
    s[..i + 1] + [x] + s[i + 1..]
  }

  function Without<T>(s: seq<T>, i: nat): seq<T>
    requires i < |s|
  {
    s[..i] + s[i + 1..]
  }

  lemma WithAfterAt<E>(refs: seq<SlistRef<E>>, i: nat, x: SlistRef<E>, j: nat)
    requires i < |refs| && j <= |refs|
    ensures var s := WithAfter(refs, i, x);
      && |s| == |refs| + 1
      && s[j] == (if j <= i then refs[j] else if j == i + 1 then x else refs[j - 1])
      && Successor(s, j) == (if j < i then Successor(refs, j) else if j == i then x else Successor(refs, j - 1))
  {
  }

  lemma WithoutAt<E>(refs: seq<SlistRef<E>>, i: nat, j: nat)
    requires 0 < i < |refs| && j < |refs| - 1
    ensures var s := Without(refs, i);
      && |s| == |refs| - 1
      && s[j] == (if j < i then refs[j] else refs[j + 1])
      && Successor(s, j) == (if j + 1 < i then Successor(refs, j) else Successor(refs, j + 1))
  {
  }

  lemma WithAfterDifferent<T>(s: seq<T>, i: nat, x: T)
    requires AllDifferent(s) && i < |s| && x !in s
    ensures AllDifferent(WithAfter(s, i, x))
  {
  }

  method Insert<E>(prev: SlistRef<E>, added: SlistRef<E>, ghost refs: seq<SlistRef<E>>, ghost i: nat)
    requires Chain(refs) && i < |refs| && refs[i] == prev && added !in refs
    modifies prev, added
    ensures Chain(WithAfter(refs, i, added))
  {
    added.next := prev.next;
    prev.next := added;
    ghost var s := WithAfter(refs, i, added);
    forall j | 0 <= j < |s| ensures s[j].next == Successor(s, j) {
      WithAfterAt(refs, i, added, j);
    }
    WithAfterDifferent(refs, i, added);
  }

  lemma WithoutDiffers<T>(s: seq<T>, i: nat)
    requires i < |s| && AllDifferent(s)
    ensures AllDifferent(Without(s, i))
  {
    var t := Without(s, i);
    assert forall j :: 0 <= j < |t| ==> t[j] == s[if j < i then j else j + 1];
  }

  /** The cursor of the source points at the link that leads to the node; here it is the node that owns the link. */
  method Remove<E>(head: SlistRef<E>, gone: SlistRef<E>, ghost refs: seq<SlistRef<E>>, ghost i: nat)
    requires Chain(refs) && 0 < i < |refs| && refs[0] == head && refs[i] == gone
    modifies refs
    ensures Chain(Without(refs, i))
    ensures gone.next == old(gone.next)
  {
    var cursor := head;
    ghost var j := 0;
    while cursor.next != gone
      invariant j < i && cursor == refs[j]
      invariant Chain(refs) && gone.next == old(gone.next)
      decreases i - j
    {
      assert cursor.next == refs[j + 1];
      cursor := cursor.next;
      j := j + 1;
      // The node is in the list, so the cursor never runs off its end.
      assert cursor.next == refs[j + 1];
    }
    assert cursor.next == refs[j + 1];
    WithoutDiffers(refs, i);
    cursor.next := cursor.next.next;
    ghost var s := Without(refs, i);
    forall l | 0 <= l < |s| ensures s[l].next == Successor(s, l) {
      WithoutAt(refs, i, l);
    }
  }
}
