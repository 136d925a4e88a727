/**
 * `togglePin`: flip the pin state of the tab with the given id, then move all
 * pinned tabs in front of all unpinned ones without reordering either group.
 */
module TabPin {
  import opened Sequences
  import opened Tabs

  /** `prev.map(t => t.id === id ? { ...t, pinned: !t.pinned } : t)`. */
  function Flip(prev: seq<Tab>, id: string): seq<Tab>
  {
    seq(|prev|, i requires 0 <= i < |prev| =>
      if prev[i].id == id then prev[i].(pinned := !prev[i].pinned) else prev[i])
  }

  /** `tabs.filter(t => t.pinned)`. */
  function PinnedTabs(tabs: seq<Tab>): (r: seq<Tab>)
    ensures forall i :: 0 <= i < |r| ==> r[i].pinned
    ensures |r| <= |tabs|
  {
    if tabs == [] then []
    else
      (if tabs[0].pinned then [tabs[0]] else []) + PinnedTabs(tabs[1..])
  }

  /** `tabs.filter(t => !t.pinned)`. */
  function UnpinnedTabs(tabs: seq<Tab>): (r: seq<Tab>)
    ensures forall i :: 0 <= i < |r| ==> !r[i].pinned
    ensures |r| <= |tabs|
  {
    if tabs == [] then []
    else
      (if !tabs[0].pinned then [tabs[0]] else []) + UnpinnedTabs(tabs[1..])
  }

  /** The stable partition `[...pinned, ...unpinned]`. */
  function PinnedFirst(tabs: seq<Tab>): seq<Tab>
  {
    PinnedTabs(tabs) + UnpinnedTabs(tabs)
  }

  function TogglePin(prev: seq<Tab>, id: string): seq<Tab>
  {
    PinnedFirst(Flip(prev, id))
  }

  /** Every pinned tab stands before every unpinned tab. */
  ghost predicate PinnedBeforeUnpinned(tabs: seq<Tab>)
  {
    forall i, j :: 0 <= i < j < |tabs| && tabs[j].pinned ==> tabs[i].pinned
  }

  /** Flipping the same id twice restores the list. */
  lemma FlipTwice(prev: seq<Tab>, id: string)
    ensures Flip(Flip(prev, id), id) == prev
  {
  }

  /**
   * Flipping keeps every tab in place and every field but `pinned`, and
   * changes `pinned` exactly on the tabs with the given id.
   */
  lemma FlipOnlyMatching(prev: seq<Tab>, id: string)
    ensures |Flip(prev, id)| == |prev| && Ids(Flip(prev, id)) == Ids(prev)
    ensures forall i :: 0 <= i < |prev| ==>
      && Flip(prev, id)[i].(pinned := prev[i].pinned) == prev[i]
      && (Flip(prev, id)[i].pinned != prev[i].pinned <==> prev[i].id == id)
  {
  }

  /** Flipping an id that is not in the list changes nothing. */
  lemma FlipAbsent(prev: seq<Tab>, id: string)
    requires id !in Ids(prev)
    ensures Flip(prev, id) == prev
  {
    forall i | 0 <= i < |prev| ensures prev[i].id != id {
      assert Ids(prev)[i] == prev[i].id;
    }
  }

  /** The pinned filter holds exactly the pinned tabs of the list, the unpinned filter the others. */
  lemma {:induction false} FiltersMembers(tabs: seq<Tab>)
    ensures forall t :: t in PinnedTabs(tabs) <==> t in tabs && t.pinned
    ensures forall t :: t in UnpinnedTabs(tabs) <==> t in tabs && !t.pinned
    decreases |tabs|
  {
    if tabs != [] {
      FiltersMembers(tabs[1..]);
      assert tabs == [tabs[0]] + tabs[1..];
    }
  }

  /** Each filter keeps the order of the list: it is a subsequence of it. */
  lemma {:induction false} FiltersSubseq(tabs: seq<Tab>)
    ensures IsSubseq(PinnedTabs(tabs), tabs)
    ensures IsSubseq(UnpinnedTabs(tabs), tabs)
    decreases |tabs|
  {
    if tabs == [] {
      SubseqRefl(tabs);
    } else {
      var x, rest := tabs[0], tabs[1..];
      assert tabs == [x] + rest;
      FiltersSubseq(rest);
      FiltersCons(x, rest);
      if x.pinned {
        assert UnpinnedTabs(tabs) == [] + UnpinnedTabs(rest) == UnpinnedTabs(rest);
        SubseqConsBoth(PinnedTabs(rest), rest, x);
        SubseqConsRight(UnpinnedTabs(rest), rest, x);
      } else {
        assert PinnedTabs(tabs) == [] + PinnedTabs(rest) == PinnedTabs(rest);
        SubseqConsRight(PinnedTabs(rest), rest, x);
        SubseqConsBoth(UnpinnedTabs(rest), rest, x);
      }
    }
  }

  /** The two filters split a list into two parts that hold each tab as often as the list. */
  lemma {:induction false} FiltersPermutation(tabs: seq<Tab>)
    ensures multiset(PinnedTabs(tabs)) + multiset(UnpinnedTabs(tabs)) == multiset(tabs)
    ensures |PinnedTabs(tabs)| + |UnpinnedTabs(tabs)| == |tabs|
    decreases |tabs|
  {
    if tabs != [] {
      FiltersPermutation(tabs[1..]);
      assert tabs == [tabs[0]] + tabs[1..];
    }
  }

  /** One step of each filter: the head is kept or dropped, the tail is filtered. */
  lemma FiltersCons(x: Tab, s: seq<Tab>)
    ensures PinnedTabs([x] + s) == (if x.pinned then [x] else []) + PinnedTabs(s)
    ensures UnpinnedTabs([x] + s) == (if !x.pinned then [x] else []) + UnpinnedTabs(s)
  {
    assert ([x] + s)[0] == x && ([x] + s)[1..] == s;
  }

  /** Filtering distributes over concatenation. */
  lemma {:induction false} PinnedTabsAppend(a: seq<Tab>, b: seq<Tab>)
    ensures PinnedTabs(a + b) == PinnedTabs(a) + PinnedTabs(b)
    decreases |a|
  {
    if a == [] {
      assert a + b == b;
    } else {
      var x, rest := a[0], a[1..];
      var head := if x.pinned then [x] else [];
      assert a == [x] + rest && a + b == [x] + (rest + b);
      FiltersCons(x, rest);
      FiltersCons(x, rest + b);
      PinnedTabsAppend(rest, b);
      assert head + (PinnedTabs(rest) + PinnedTabs(b)) == (head + PinnedTabs(rest)) + PinnedTabs(b);
    }
  }

  lemma {:induction false} UnpinnedTabsAppend(a: seq<Tab>, b: seq<Tab>)
    ensures UnpinnedTabs(a + b) == UnpinnedTabs(a) + UnpinnedTabs(b)
    decreases |a|
  {
    if a == [] {
      assert a + b == b;
    } else {
      var x, rest := a[0], a[1..];
      var head := if !x.pinned then [x] else [];
      assert a == [x] + rest && a + b == [x] + (rest + b);
      FiltersCons(x, rest);
      FiltersCons(x, rest + b);
      UnpinnedTabsAppend(rest, b);
      assert head + (UnpinnedTabs(rest) + UnpinnedTabs(b)) == (head + UnpinnedTabs(rest)) + UnpinnedTabs(b);
    }
  }

  /** A list whose tabs are all pinned is its own pinned part, and has no unpinned part. */
  lemma {:induction false} FiltersOfPinned(tabs: seq<Tab>)
    requires forall i :: 0 <= i < |tabs| ==> tabs[i].pinned
    ensures PinnedTabs(tabs) == tabs && UnpinnedTabs(tabs) == []
    decreases |tabs|
  {
    if tabs != [] {
      FiltersOfPinned(tabs[1..]);
    }
  }

  lemma {:induction false} FiltersOfUnpinned(tabs: seq<Tab>)
    requires forall i :: 0 <= i < |tabs| ==> !tabs[i].pinned
    ensures PinnedTabs(tabs) == [] && UnpinnedTabs(tabs) == tabs
    decreases |tabs|
  {
    if tabs != [] {
      FiltersOfUnpinned(tabs[1..]);
    }
  }

  /** After a toggle every pinned tab comes before every unpinned tab. */
  lemma TogglePinGroups(prev: seq<Tab>, id: string)
    ensures PinnedBeforeUnpinned(TogglePin(prev, id))
  {
    var flipped := Flip(prev, id);
    var p, u := PinnedTabs(flipped), UnpinnedTabs(flipped);
    var r := TogglePin(prev, id);
    forall i, j | 0 <= i < j < |r| && r[j].pinned ensures r[i].pinned {
      if i < |p| {
        assert r[i] == p[i];
      }
    }
  }

  /**
   * A toggle only reorders the flipped list: same length, the same tabs
   * with the same multiplicities.
   */
  lemma TogglePinPermutation(prev: seq<Tab>, id: string)
    ensures |TogglePin(prev, id)| == |prev|
    ensures multiset(TogglePin(prev, id)) == multiset(Flip(prev, id))
  {
    FiltersPermutation(Flip(prev, id));
  }

  /** Within each group the tabs keep the order they had after the flip. */
  lemma TogglePinStable(prev: seq<Tab>, id: string)
    ensures PinnedTabs(TogglePin(prev, id)) == PinnedTabs(Flip(prev, id))
    ensures UnpinnedTabs(TogglePin(prev, id)) == UnpinnedTabs(Flip(prev, id))
  {
    var flipped := Flip(prev, id);
    var p, u := PinnedTabs(flipped), UnpinnedTabs(flipped);
    PinnedTabsAppend(p, u);
    UnpinnedTabsAppend(p, u);
    FiltersOfPinned(p);
    FiltersOfUnpinned(u);
    assert p + [] == p && [] + u == u;
  }

  /** A toggle keeps the ids of a list pairwise distinct. */
  lemma TogglePinUniqueIds(prev: seq<Tab>, id: string)
    requires UniqueIds(prev)
    ensures UniqueIds(TogglePin(prev, id))
  {
    var f := Flip(prev, id);
    FlipOnlyMatching(prev, id);
    assert UniqueIds(f) by {
      forall i, j | 0 <= i < j < |f| ensures f[i].id != f[j].id {
        assert Ids(f)[i] == Ids(prev)[i] && Ids(f)[j] == Ids(prev)[j];
      }
    }
    var p, u := PinnedTabs(f), UnpinnedTabs(f);
    FiltersSubseq(f);
    SubseqUniqueIds(p, f);
    SubseqUniqueIds(u, f);
    FiltersMembers(f);
    var r := p + u;
    forall i, j | 0 <= i < j < |r| ensures r[i].id != r[j].id {
      if i < |p| && j >= |p| {
        var x, y := r[i], r[j];
        assert x == p[i] && y == u[j - |p|];
        assert x in f && y in f;
        var a :| 0 <= a < |f| && f[a] == x;
        var b :| 0 <= b < |f| && f[b] == y;
        assert a != b;
      }
    }
  }

  /** Toggling an id that is not in the list only applies the stable partition. */
  lemma TogglePinAbsent(prev: seq<Tab>, id: string)
    requires id !in Ids(prev)
    ensures TogglePin(prev, id) == PinnedFirst(prev)
  {
    FlipAbsent(prev, id);
  }

  /** On a list that is already grouped the stable partition is the identity. */
  lemma {:induction false} PinnedFirstGrouped(tabs: seq<Tab>)
    requires PinnedBeforeUnpinned(tabs)
    ensures PinnedFirst(tabs) == tabs
    decreases |tabs|
  {
    if tabs != [] {
      var x, rest := tabs[0], tabs[1..];
      assert tabs == [x] + rest;
      FiltersCons(x, rest);
      if x.pinned {
        GroupedTail(tabs);
        PinnedFirstGrouped(rest);
        assert [x] + PinnedTabs(rest) + UnpinnedTabs(rest) == [x] + (PinnedTabs(rest) + UnpinnedTabs(rest));
      } else {
        GroupedUnpinnedHead(tabs);
        FiltersOfUnpinned(rest);
      }
    }
  }

  lemma GroupedTail(tabs: seq<Tab>)
    requires tabs != [] && PinnedBeforeUnpinned(tabs)
    ensures PinnedBeforeUnpinned(tabs[1..])
  {
    var rest := tabs[1..];
    forall i, j | 0 <= i < j < |rest| && rest[j].pinned ensures rest[i].pinned {
      assert rest[i] == tabs[i + 1] && rest[j] == tabs[j + 1];
    }
  }

  /** In a grouped list that starts with an unpinned tab, no tab is pinned. */
  lemma GroupedUnpinnedHead(tabs: seq<Tab>)
    requires tabs != [] && PinnedBeforeUnpinned(tabs) && !tabs[0].pinned
    ensures forall i :: 0 <= i < |tabs[1..]| ==> !tabs[1..][i].pinned
  {
    forall i | 0 <= i < |tabs[1..]| ensures !tabs[1..][i].pinned {
      assert tabs[1..][i] == tabs[i + 1];
    }
  }

  /**
   * The partition can reorder a list that was not grouped: toggling an absent
   * id on `[unpinned, pinned]` swaps the two tabs.
   */
  lemma TogglePinAbsentReorders(u: Tab, p: Tab, id: string)
    requires !u.pinned && p.pinned && u.id != id && p.id != id
    ensures TogglePin([u, p], id) == [p, u]
  {
    assert Flip([u, p], id) == [u, p];
    assert [u, p][1..] == [p];
    assert PinnedTabs([u, p]) == [p];
    assert UnpinnedTabs([u, p]) == [u];
  }

  /**
   * The catalog scenario: pinning `dashboard` in the default list leaves it at
   * index 1, right after the pinned `lagerverwaltung`, and changes nothing else.
   */
  lemma TogglePinDashboard()
    ensures TogglePin(InitialTabs, "dashboard") == InitialTabs[1 := InitialTabs[1].(pinned := true)]
  {
    var expected := InitialTabs[1 := InitialTabs[1].(pinned := true)];
    var flipped := Flip(InitialTabs, "dashboard");
    assert flipped == expected by {
      forall i | 0 <= i < |InitialTabs|
        ensures flipped[i] == expected[i]
      {
        assert i != 1 ==> InitialTabs[i].id != "dashboard";
      }
    }
    assert PinnedBeforeUnpinned(expected) by {
      forall i, j | 0 <= i < j < |expected| && expected[j].pinned ensures expected[i].pinned {
        assert j <= 1;
      }
    }
    PinnedFirstGrouped(expected);
  }
}
