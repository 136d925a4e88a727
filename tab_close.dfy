/** `closeTab`: drop every tab with the given id, keep the others in order. */
module TabClose {
  import opened Wrappers
  import opened Sequences
  import opened Tabs
  import opened TabLoad

  /** `prev.filter(t => t.id !== id)`; pinned tabs are closed like any other. */
  function CloseTab(prev: seq<Tab>, id: string): (r: seq<Tab>)
    ensures forall t :: t in r <==> t in prev && t.id != id
    ensures |r| <= |prev|
  {
    if prev == [] then []
    else
      assert forall t :: t in prev <==> t == prev[0] || t in prev[1..];
      (if prev[0].id != id then [prev[0]] else []) + CloseTab(prev[1..], id)
  }

  /**
   * The survivors keep their order and their multiplicities: the result is
   * the subsequence of `prev` made of exactly the tabs whose id differs.
   */
  lemma {:induction false} CloseTabKeepsOthers(prev: seq<Tab>, id: string)
    ensures IsSubseq(CloseTab(prev, id), prev)
    ensures forall t :: multiset(CloseTab(prev, id))[t] == if t.id == id then 0 else multiset(prev)[t]
    decreases |prev|
  {
    if prev != [] {
      var rest := CloseTab(prev[1..], id);
      CloseTabKeepsOthers(prev[1..], id);
      assert prev == [prev[0]] + prev[1..];
      if prev[0].id != id {
        assert CloseTab(prev, id) == [prev[0]] + rest;
        assert ([prev[0]] + rest)[1..] == rest;
      } else {
        assert CloseTab(prev, id) == rest;
      }
    }
  }

  /** Closing an id that is not in the list changes nothing. */
  lemma {:induction false} CloseTabAbsent(prev: seq<Tab>, id: string)
    requires id !in Ids(prev)
    ensures CloseTab(prev, id) == prev
    decreases |prev|
  {
    if prev != [] {
      assert Ids(prev)[0] == prev[0].id;
      assert Ids(prev[1..]) == Ids(prev)[1..];
      CloseTabAbsent(prev[1..], id);
    }
  }

  /** With distinct ids, closing a present id removes exactly one tab. */
  lemma {:induction false} CloseTabRemovesOne(prev: seq<Tab>, id: string)
    requires UniqueIds(prev)
    requires id in Ids(prev)
    ensures |CloseTab(prev, id)| == |prev| - 1
    ensures UniqueIds(CloseTab(prev, id))
    decreases |prev|
  {
    CloseTabKeepsOthers(prev, id);
    SubseqUniqueIds(CloseTab(prev, id), prev);
    var rest := prev[1..];
    assert UniqueIds(rest) by {
      forall i, j | 0 <= i < j < |rest| ensures rest[i].id != rest[j].id {
        assert rest[i] == prev[i + 1] && rest[j] == prev[j + 1];
      }
    }
    assert Ids(rest) == Ids(prev)[1..];
    if prev[0].id == id {
      assert id !in Ids(rest) by {
        forall k | 0 <= k < |rest| ensures Ids(rest)[k] != id {
          assert rest[k] == prev[k + 1];
        }
      }
      CloseTabAbsent(rest, id);
    } else {
      assert id in Ids(rest);
      CloseTabRemovesOne(rest, id);
    }
  }

  /**
   * Closing is not permanent: after closing a catalog tab and saving, the next
   * load appends that catalog tab again after the restored ones.
   */
  lemma CloseThenReload(prev: seq<Tab>, c: Tab)
    requires c in InitialTabs
    ensures var closed := CloseTab(prev, c.id);
            var reloaded := Load(Some(StripAll(closed)));
            |reloaded| > |closed| && c in reloaded[|closed|..]
  {
    var closed := CloseTab(prev, c.id);
    var p := StripAll(closed);
    LoadMerge(p);
    PlainIdsStripAll(closed);
    assert c.id !in PlainIds(p) by {
      forall k | 0 <= k < |closed| ensures PlainIds(p)[k] != c.id {
        assert closed[k] in closed;
      }
    }
  }
}
