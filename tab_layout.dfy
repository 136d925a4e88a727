/**
 * The resize handler: one left-to-right pass over the tabs with a running
 * width, sending each tab to the visible strip or to the overflow menu.
 */
module TabLayout {
  import opened Sequences
  import opened Tabs

  /** Estimated width of a pinned (compact) tab. */
  const PinnedWidth := 40
  /** Estimated width of an unpinned tab. */
  const UnpinnedWidth := 150
  /** Room reserved for the overflow trigger, subtracted from the container width. */
  const Buffer := 100

  /** Estimated width of a tab with the given pin state. */
  function WidthOf(pinned: bool): int
  {
    if pinned then PinnedWidth else UnpinnedWidth
  }

  function Width(t: Tab): int
  {
    WidthOf(t.pinned)
  }

  /** Total estimated width of a run of tabs. */
  function WidthSum(s: seq<Tab>): (w: int)
    ensures w >= 0
    ensures s != [] ==> w >= PinnedWidth
  {
    if s == [] then 0 else WidthSum(s[..|s| - 1]) + Width(s[|s| - 1])
  }

  datatype Split = Split(visible: seq<Tab>, overflow: seq<Tab>)

  /**
   * Reference definition of the pass: the decision for the last tab depends
   * only on the tabs already made visible before it. A tab is visible exactly
   * when adding it keeps the visible width strictly below `limit`.
   */
  function LayoutOf(tabs: seq<Tab>, limit: int): Split
  {
    if tabs == [] then Split([], [])
    else
      var prev := LayoutOf(tabs[..|tabs| - 1], limit);
      var tab := tabs[|tabs| - 1];
      if WidthSum(prev.visible) + Width(tab) < limit then Split(prev.visible + [tab], prev.overflow)
      else Split(prev.visible, prev.overflow + [tab])
  }

  lemma WidthSumSnoc(s: seq<Tab>, t: Tab)
    ensures WidthSum(s + [t]) == WidthSum(s) + Width(t)
  {
    assert (s + [t])[..|s|] == s;
  }

  /** `handleResize` with the container present. */
  method HandleResize(tabs: seq<Tab>, offsetWidth: int) returns (visible: seq<Tab>, overflow: seq<Tab>)
    ensures Split(visible, overflow) == LayoutOf(tabs, offsetWidth - Buffer)
    ensures |visible| + |overflow| == |tabs|
    ensures visible != [] ==> WidthSum(visible) < offsetWidth - Buffer
  {
    var containerWidth := offsetWidth - Buffer;
    var currentWidth := 0;
    visible, overflow := [], [];
    for i := 0 to |tabs|
      invariant Split(visible, overflow) == LayoutOf(tabs[..i], containerWidth)
      invariant currentWidth == WidthSum(visible)
    {
      var tab := tabs[i];
      var tabWidth := if tab.pinned then PinnedWidth else UnpinnedWidth;
      assert tabs[..i + 1][..i] == tabs[..i];
      if currentWidth + tabWidth < containerWidth {
        WidthSumSnoc(visible, tab);
        visible := visible + [tab];
        currentWidth := currentWidth + tabWidth;
      } else {
        overflow := overflow + [tab];
      }
    }
    assert tabs[..|tabs|] == tabs;
    LayoutPartition(tabs, containerWidth);
    LayoutVisibleFits(tabs, containerWidth);
  }

  /**
   * Every tab lands in exactly one of the two lists: both keep the order of
   * `tabs`, and together they hold each tab as often as `tabs` does.
   */
  lemma {:induction false} LayoutPartition(tabs: seq<Tab>, limit: int)
    ensures |LayoutOf(tabs, limit).visible| + |LayoutOf(tabs, limit).overflow| == |tabs|
    ensures multiset(LayoutOf(tabs, limit).visible) + multiset(LayoutOf(tabs, limit).overflow) == multiset(tabs)
    ensures IsSubseq(LayoutOf(tabs, limit).visible, tabs)
    ensures IsSubseq(LayoutOf(tabs, limit).overflow, tabs)
    decreases |tabs|
  {
    if tabs != [] {
      var init := tabs[..|tabs| - 1];
      var tab := tabs[|tabs| - 1];
      assert tabs == init + [tab];
      LayoutPartition(init, limit);
      var prev := LayoutOf(init, limit);
      if WidthSum(prev.visible) + Width(tab) < limit {
        SubseqSnocBoth(prev.visible, init, tab);
        SubseqSnocRight(prev.overflow, init, tab);
      } else {
        SubseqSnocRight(prev.visible, init, tab);
        SubseqSnocBoth(prev.overflow, init, tab);
      }
    } else {
      SubseqRefl(tabs);
    }
  }

  /** A non-empty visible strip is strictly narrower than the available width. */
  lemma {:induction false} LayoutVisibleFits(tabs: seq<Tab>, limit: int)
    ensures LayoutOf(tabs, limit).visible != [] ==> WidthSum(LayoutOf(tabs, limit).visible) < limit
    decreases |tabs|
  {
    if tabs != [] {
      var init := tabs[..|tabs| - 1];
      var tab := tabs[|tabs| - 1];
      LayoutVisibleFits(init, limit);
      WidthSumSnoc(LayoutOf(init, limit).visible, tab);
    }
  }

  /**
   * No overflowed tab would fit after the final visible strip: the running
   * width only grows, and each overflowed tab already failed at its turn.
   */
  lemma {:induction false} LayoutOverflowDoesNotFit(tabs: seq<Tab>, limit: int)
    ensures forall t :: t in LayoutOf(tabs, limit).overflow ==>
      WidthSum(LayoutOf(tabs, limit).visible) + Width(t) >= limit
    decreases |tabs|
  {
    if tabs != [] {
      var init := tabs[..|tabs| - 1];
      var tab := tabs[|tabs| - 1];
      LayoutOverflowDoesNotFit(init, limit);
      var prev := LayoutOf(init, limit);
      var cur := LayoutOf(tabs, limit);
      WidthSumSnoc(prev.visible, tab);
      assert WidthSum(cur.visible) >= WidthSum(prev.visible);
      forall t | t in cur.overflow ensures WidthSum(cur.visible) + Width(t) >= limit {
        if t in prev.overflow {
          assert WidthSum(prev.visible) + Width(t) >= limit;
        } else {
          assert t == tab && cur.visible == prev.visible;
        }
      }
    }
  }

  /**
   * The pass is online: laying out a prefix of the tabs gives a prefix of
   * each list, so a tab's placement never depends on the tabs after it.
   */
  lemma {:induction false} LayoutPrefixStable(tabs: seq<Tab>, limit: int, k: nat)
    requires k <= |tabs|
    ensures LayoutOf(tabs[..k], limit).visible <= LayoutOf(tabs, limit).visible
    ensures LayoutOf(tabs[..k], limit).overflow <= LayoutOf(tabs, limit).overflow
    decreases |tabs|
  {
    if k == |tabs| {
      assert tabs[..k] == tabs;
    } else {
      var init := tabs[..|tabs| - 1];
      assert init[..k] == tabs[..k];
      LayoutPrefixStable(init, limit, k);
    }
  }

  /**
   * The pass does not stop at the first tab that fails to fit: with 200 units
   * available, two unpinned tabs and a pinned one place the first unpinned
   * and the pinned tab in the strip and overflow only the second unpinned one.
   */
  lemma LayoutSkipsToNarrowerTab(u1: Tab, u2: Tab, p: Tab)
    requires !u1.pinned && !u2.pinned && p.pinned
    ensures LayoutOf([u1, u2, p], 200) == Split([u1, p], [u2])
  {
    assert [u1, u2, p][..2] == [u1, u2];
    assert [u1, u2][..1] == [u1];
    assert [u1][..0] == [];
    assert LayoutOf([u1], 200) == Split([u1], []);
    assert WidthSum([u1]) == UnpinnedWidth;
    assert LayoutOf([u1, u2], 200) == Split([u1], [u2]);
    WidthSumSnoc([u1], p);
  }

  /** Every tab of `s` has the given pin state, hence the same width. */
  ghost predicate AllPinnedAs(s: seq<Tab>, pinned: bool)
  {
    forall i :: 0 <= i < |s| ==> s[i].pinned == pinned
  }

  /** `n` copies of one width add up to `n` times that width. */
  lemma {:induction false} WidthSumUniform(s: seq<Tab>, pinned: bool)
    requires AllPinnedAs(s, pinned)
    ensures WidthSum(s) == |s| * WidthOf(pinned)
    decreases |s|
  {
    if s != [] {
      WidthSumUniform(s[..|s| - 1], pinned);
    }
  }

  /** With `w > 0`, the counts `k` with `k * w < limit` are exactly `0 .. (limit - 1) / w`. */
  lemma CountFits(k: nat, w: int, limit: int)
    requires w > 0 && limit > 0
    ensures k * w < limit <==> k <= (limit - 1) / w
  {
    var q, r := (limit - 1) / w, (limit - 1) % w;
    assert limit - 1 == q * w + r && 0 <= r < w;
    if k <= q {
      MulMonotone(k, q, w);
    } else {
      MulMonotone(q + 1, k, w);
    }
  }

  /** The arithmetic of one step of `LayoutUniform`. */
  lemma UniformStep(len: nat, m: nat, w: int, limit: int, sum: int)
    requires w > 0 && sum == m * w
    requires m == if limit <= 0 then 0 else Min(len, (limit - 1) / w)
    ensures m < len ==> sum + w >= limit
    ensures sum + w < limit ==> m + 1 == if limit <= 0 then 0 else Min(len + 1, (limit - 1) / w)
    ensures sum + w >= limit ==> m == if limit <= 0 then 0 else Min(len + 1, (limit - 1) / w)
  {
    if limit > 0 {
      CountFits(m + 1, w, limit);
      assert (m + 1) * w == m * w + w;
    }
  }

  lemma MulMonotone(a: int, b: int, w: int)
    requires a <= b && w >= 0
    ensures a * w <= b * w
  {
    assert b * w - a * w == (b - a) * w;
  }

  /** How many tabs of one width fit: the largest `k <= len` with `k * w < limit`. */
  function FitCount(len: nat, limit: int, pinned: bool): (k: nat)
    ensures k <= len
  {
    if limit <= 0 then 0 else Min(len, (limit - 1) / WidthOf(pinned))
  }

  /**
   * With all tabs of one width `w`, the visible strip is the longest prefix of
   * `k` tabs with `k * w < limit`, and the rest overflows in order.
   */
  lemma {:induction false} LayoutUniform(tabs: seq<Tab>, limit: int, pinned: bool)
    requires AllPinnedAs(tabs, pinned)
    ensures var n := FitCount(|tabs|, limit, pinned);
            LayoutOf(tabs, limit) == Split(tabs[..n], tabs[n..])
    decreases |tabs|
  {
    if tabs != [] {
      var init, last := tabs[..|tabs| - 1], tabs[|tabs| - 1];
      assert tabs == init + [last];
      assert AllPinnedAs(init, pinned) && last.pinned == pinned;
      LayoutUniform(init, limit, pinned);
      LayoutUniformSnoc(init, last, limit, pinned);
    }
  }

  /** The inductive step of `LayoutUniform`, for the tabs `init + [last]`. */
  lemma LayoutUniformSnoc(init: seq<Tab>, last: Tab, limit: int, pinned: bool)
    requires AllPinnedAs(init, pinned) && last.pinned == pinned
    requires var m := FitCount(|init|, limit, pinned);
             LayoutOf(init, limit) == Split(init[..m], init[m..])
    ensures var n := FitCount(|init| + 1, limit, pinned);
            LayoutOf(init + [last], limit) == Split((init + [last])[..n], (init + [last])[n..])
  {
    var w := WidthOf(pinned);
    var m := FitCount(|init|, limit, pinned);
    var n := FitCount(|init| + 1, limit, pinned);
    assert AllPinnedAs(init[..m], pinned);
    var sum := WidthSum(init[..m]);
    WidthSumUniform(init[..m], pinned);
    UniformStep(|init|, m, w, limit, sum);
    LayoutSnoc(init, last, limit);
    if sum + w < limit {
      assert m == |init| && n == m + 1;
      SnocSplitAtEnd(init, last);
    } else {
      assert n == m;
      SnocSplitBefore(init, last, m);
    }
  }

  /** The pass over `s + [t]` is the pass over `s` followed by the decision for `t`. */
  lemma LayoutSnoc(s: seq<Tab>, t: Tab, limit: int)
    ensures LayoutOf(s + [t], limit) ==
      var prev := LayoutOf(s, limit);
      if WidthSum(prev.visible) + Width(t) < limit then Split(prev.visible + [t], prev.overflow)
      else Split(prev.visible, prev.overflow + [t])
  {
    assert (s + [t])[..|s|] == s;
  }

  lemma SnocSplitAtEnd<T>(s: seq<T>, x: T)
    ensures (s + [x])[..|s| + 1] == s[..|s|] + [x]
    ensures (s + [x])[|s| + 1..] == s[|s|..]
  {
  }

  lemma SnocSplitBefore<T>(s: seq<T>, x: T, k: nat)
    requires k <= |s|
    ensures (s + [x])[..k] == s[..k]
    ensures (s + [x])[k..] == s[k..] + [x]
  {
  }

  function Min(a: int, b: int): int
  {
    if a <= b then a else b
  }
}
