/**
 * `handleDragEnd`: when a tab is dropped on another one, move it to that
 * tab's index with splice semantics (take it out, insert it there).
 */
module TabReorder {
  import opened Tabs

  /** `items.findIndex(t => t.id === id)`: the first index with that id, or -1. */
  function FindIndex(items: seq<Tab>, id: string): (i: int)
    ensures -1 <= i < |items|
    ensures i == -1 <==> id !in Ids(items)
    ensures i >= 0 ==> items[i].id == id && forall k :: 0 <= k < i ==> items[k].id != id
  {
    if items == [] then -1
    else if items[0].id == id then 0
    else
      var j := FindIndex(items[1..], id);
      assert Ids(items) == [items[0].id] + Ids(items[1..]);
      if j == -1 then -1 else j + 1
  }

  /**
   * `arrayMove(array, from, to)`: a copy with the element at `from` spliced
   * out and inserted again at `to`.
   */
  function ArrayMove<T>(list: seq<T>, from: nat, to: nat): (r: seq<T>)
    requires from < |list| && to < |list|
    ensures |r| == |list|
    ensures r[to] == list[from]
    ensures forall k :: 0 <= k < |r| ==> r[k] == list[Source(from, to, k)]
    ensures multiset(r) == multiset(list)
  {
    var rest := list[..from] + list[from + 1..];
    SpliceKeepsElements(list, from, to);
    rest[..to] + [list[from]] + rest[to..]
  }

  lemma SpliceKeepsElements<T>(list: seq<T>, from: nat, to: nat)
    requires from < |list| && to < |list|
    ensures var rest := list[..from] + list[from + 1..];
            multiset(rest[..to] + [list[from]] + rest[to..]) == multiset(list)
  {
    var rest := list[..from] + list[from + 1..];
    assert list == list[..from] + [list[from]] + list[from + 1..];
    assert rest[..to] + rest[to..] == rest;
    var moved := rest[..to] + [list[from]] + rest[to..];
    assert multiset(moved) == multiset(rest[..to]) + multiset([list[from]]) + multiset(rest[to..]);
    assert multiset(rest) == multiset(rest[..to]) + multiset(rest[to..]);
    assert multiset(rest) == multiset(list[..from]) + multiset(list[from + 1..]);
    assert multiset(list) == multiset(list[..from]) + multiset([list[from]]) + multiset(list[from + 1..]);
    assert multiset(moved) == multiset(rest) + multiset([list[from]]);
  }

  /**
   * Where each index of the moved list comes from: the moved element comes
   * from `from`, the ones between the two indices shift by one towards `from`,
   * and all others stay.
   */
  function Source(from: nat, to: nat, k: nat): nat
  {
    if k == to then from
    else if from < to && from <= k < to then k + 1
    else if to < from && to < k <= from then k - 1
    else k
  }

  /** Moving `i` to `j` and then `j` back to `i` restores the list. */
  lemma ArrayMoveRoundTrip<T>(s: seq<T>, i: nat, j: nat)
    requires i < |s| && j < |s|
    ensures ArrayMove(ArrayMove(s, i, j), j, i) == s
  {
    var m := ArrayMove(s, i, j);
    var r := ArrayMove(m, j, i);
    forall k | 0 <= k < |s| ensures r[k] == s[k] {
      assert r[k] == m[Source(j, i, k)];
      assert Source(i, j, Source(j, i, k)) == k;
    }
  }

  /**
   * The drop handler. Both ids belong to rendered tabs, so both are in the
   * list; equal ids leave it unchanged.
   */
  function DragEnd(items: seq<Tab>, activeId: string, overId: string): seq<Tab>
    requires activeId in Ids(items) && overId in Ids(items)
  {
    if activeId != overId then
      var oldIndex := FindIndex(items, activeId);
      var newIndex := FindIndex(items, overId);
      ArrayMove(items, oldIndex, newIndex)
    else items
  }

  /** In a list with distinct ids, a tab's id finds exactly that tab's index. */
  lemma FindIndexUnique(items: seq<Tab>, k: nat)
    requires UniqueIds(items) && k < |items|
    ensures FindIndex(items, items[k].id) == k
  {
    assert Ids(items)[k] == items[k].id;
  }

  /** Moving a tab keeps ids distinct. */
  lemma ArrayMoveUniqueIds(items: seq<Tab>, from: nat, to: nat)
    requires from < |items| && to < |items|
    requires UniqueIds(items)
    ensures UniqueIds(ArrayMove(items, from, to))
  {
    var r := ArrayMove(items, from, to);
    forall a, b | 0 <= a < b < |r| ensures r[a].id != r[b].id {
      var sa, sb := Source(from, to, a), Source(from, to, b);
      assert sa != sb && sa < |items| && sb < |items|;
      assert r[a] == items[sa] && r[b] == items[sb];
    }
  }

  /**
   * Dropping the dragged tab `a` on `b` moves `a` to `b`'s index; the list
   * keeps its length and its tabs, and the tabs in between shift by one.
   */
  lemma DragEndMoves(items: seq<Tab>, a: string, b: string)
    requires a in Ids(items) && b in Ids(items) && a != b
    ensures var i, j, r := FindIndex(items, a), FindIndex(items, b), DragEnd(items, a, b);
            |r| == |items| && multiset(r) == multiset(items) && r[j] == items[i]
            && (forall k :: i <= k < j ==> r[k] == items[k + 1])
            && (forall k :: j < k <= i ==> r[k] == items[k - 1])
  {
  }

  /**
   * Undoing a drag: with distinct ids, dropping `a` back on the tab that now
   * stands where `a` used to be restores the original list.
   */
  lemma DragEndUndo(items: seq<Tab>, a: string, b: string)
    requires UniqueIds(items)
    requires a in Ids(items) && b in Ids(items) && a != b
    ensures var moved := DragEnd(items, a, b);
            var back := moved[FindIndex(items, a)].id;
            a in Ids(moved) && back in Ids(moved) && DragEnd(moved, a, back) == items
  {
    var i, j := FindIndex(items, a), FindIndex(items, b);
    var moved := DragEnd(items, a, b);
    ArrayMoveUniqueIds(items, i, j);
    FindIndexUnique(moved, j);
    FindIndexUnique(moved, i);
    assert Ids(moved)[j] == a && Ids(moved)[i] == moved[i].id;
    assert moved[i].id != a;
    ArrayMoveRoundTrip(items, i, j);
  }

  /** Moving between neighbouring indices is a swap, so the direction does not matter. */
  lemma ArrayMoveAdjacent<T>(s: seq<T>, i: nat, j: nat)
    requires i < |s| && j < |s|
    requires i - j == 1 || j - i == 1
    ensures ArrayMove(s, i, j) == ArrayMove(s, j, i)
  {
    var x, y := ArrayMove(s, i, j), ArrayMove(s, j, i);
    forall k | 0 <= k < |s| ensures x[k] == y[k] {
      assert Source(i, j, k) == Source(j, i, k);
    }
  }

  /**
   * For two neighbouring tabs, dragging `a` onto `b` and then `b` onto `a`
   * restores the list.
   */
  lemma DragEndAdjacentRoundTrip(items: seq<Tab>, a: string, b: string)
    requires UniqueIds(items)
    requires a in Ids(items) && b in Ids(items) && a != b
    requires FindIndex(items, a) - FindIndex(items, b) == 1 || FindIndex(items, b) - FindIndex(items, a) == 1
    ensures a in Ids(DragEnd(items, a, b)) && b in Ids(DragEnd(items, a, b))
    ensures DragEnd(DragEnd(items, a, b), b, a) == items
  {
    var i, j := FindIndex(items, a), FindIndex(items, b);
    var moved := DragEnd(items, a, b);
    assert moved[i] == items[Source(i, j, i)] && Source(i, j, i) == j;
    ArrayMoveUniqueIds(items, i, j);
    FindIndexUnique(moved, i);
    FindIndexUnique(moved, j);
    assert Ids(moved)[i] == b && Ids(moved)[j] == a;
    ArrayMoveAdjacent(moved, i, j);
    ArrayMoveRoundTrip(items, i, j);
  }

  /**
   * Without adjacency the two drags need not cancel: on `[a, x, b]`, dragging
   * `a` onto `b` gives `[x, b, a]`, and dragging `b` back onto `a` then gives
   * `[x, a, b]`.
   */
  lemma DragEndDistantNoRoundTrip(ta: Tab, tx: Tab, tb: Tab)
    requires ta.id != tx.id && ta.id != tb.id && tx.id != tb.id
    ensures ta.id in Ids([ta, tx, tb]) && tb.id in Ids([ta, tx, tb])
    ensures DragEnd([ta, tx, tb], ta.id, tb.id) == [tx, tb, ta]
    ensures ta.id in Ids([tx, tb, ta]) && tb.id in Ids([tx, tb, ta])
    ensures DragEnd([tx, tb, ta], tb.id, ta.id) == [tx, ta, tb]
    ensures [tx, ta, tb] != [ta, tx, tb]
  {
    DragFirstOntoLast(ta, tx, tb);
    DragMiddleOntoLast(tx, tb, ta);
    assert [tx, ta, tb][0] != [ta, tx, tb][0];
  }

  /** Dragging the first of three tabs onto the last moves it to the end. */
  lemma DragFirstOntoLast(ta: Tab, tx: Tab, tb: Tab)
    requires ta.id != tx.id && ta.id != tb.id && tx.id != tb.id
    ensures ta.id in Ids([ta, tx, tb]) && tb.id in Ids([ta, tx, tb])
    ensures DragEnd([ta, tx, tb], ta.id, tb.id) == [tx, tb, ta]
  {
    var s := [ta, tx, tb];
    FindIndexUnique(s, 0);
    FindIndexUnique(s, 2);
    var m := ArrayMove(s, 0, 2);
    assert Source(0, 2, 0) == 1 && Source(0, 2, 1) == 2;
    SeqOfThree(m, tx, tb, ta);
  }

  /** Dragging the middle of three tabs onto the last swaps the two. */
  lemma DragMiddleOntoLast(tx: Tab, tb: Tab, ta: Tab)
    requires ta.id != tx.id && ta.id != tb.id && tx.id != tb.id
    ensures ta.id in Ids([tx, tb, ta]) && tb.id in Ids([tx, tb, ta])
    ensures DragEnd([tx, tb, ta], tb.id, ta.id) == [tx, ta, tb]
  {
    var t := [tx, tb, ta];
    FindIndexUnique(t, 1);
    FindIndexUnique(t, 2);
    var n := ArrayMove(t, 1, 2);
    assert Source(1, 2, 0) == 0 && Source(1, 2, 1) == 2;
    SeqOfThree(n, tx, ta, tb);
  }

  lemma SeqOfThree<T>(s: seq<T>, a: T, b: T, c: T)
    requires |s| == 3 && s[0] == a && s[1] == b && s[2] == c
    ensures s == [a, b, c]
  {
  }
}
