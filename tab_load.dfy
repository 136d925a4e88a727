/**
 * The `useState` initializer of the tab list: restore the saved layout, give
 * every saved tab its icon back, and append the catalog tabs it lacks.
 */
module TabLoad {
  import opened Wrappers
  import opened Sequences
  import opened Tabs

  /** `catalog.filter(t => !savedIds.includes(t.id))`. */
  function MissingTabs(catalog: seq<Tab>, savedIds: seq<string>): (r: seq<Tab>)
    ensures forall t :: t in r <==> t in catalog && t.id !in savedIds
    ensures IsSubseq(r, catalog)
    ensures |r| <= |catalog|
  {
    if catalog == [] then []
    else
      var rest := MissingTabs(catalog[1..], savedIds);
      assert forall t :: t in catalog <==> t == catalog[0] || t in catalog[1..];
      if catalog[0].id !in savedIds then [catalog[0]] + rest
      else rest
  }

  /**
   * The filter keeps multiplicities: each catalog tab with an unsaved id occurs
   * in the result as often as in the catalog, and a tab with a saved id not at all.
   */
  lemma {:induction false} MissingTabsCounts(catalog: seq<Tab>, savedIds: seq<string>)
    ensures forall t ::
      multiset(MissingTabs(catalog, savedIds))[t] == (if t.id in savedIds then 0 else multiset(catalog)[t])
    decreases |catalog|
  {
    if catalog != [] {
      var c, rest := catalog[0], catalog[1..];
      assert catalog == [c] + rest;
      MissingTabsCounts(rest, savedIds);
      assert multiset(catalog) == multiset([c]) + multiset(rest);
    }
  }

  /**
   * The initial tab list. `saved` is `None` when nothing is stored under the
   * layout key, when the stored text is empty, or when parsing it throws.
   */
  function Load(saved: Option<seq<PlainTab>>): seq<Tab>
  {
    match saved
    case None => InitialTabs
    case Some(parsed) => Merge(InitialTabs, parsed)
  }

  /** The restore-and-append step of `Load`, over any catalog. */
  function Merge(catalog: seq<Tab>, parsed: seq<PlainTab>): seq<Tab>
  {
    var savedTabs := AttachAll(parsed);
    var savedIds := Ids(savedTabs);
    var missingTabs := MissingTabs(catalog, savedIds);
    if |missingTabs| > 0 then savedTabs + missingTabs else savedTabs
  }

  /** With nothing usable saved, the list is the catalog itself. */
  lemma LoadFallback()
    ensures Load(None) == InitialTabs
  {
  }

  lemma {:induction false} MissingNoneSaved(catalog: seq<Tab>)
    ensures MissingTabs(catalog, []) == catalog
  {
    if catalog != [] {
      MissingNoneSaved(catalog[1..]);
    }
  }

  /** A saved but empty list also yields the catalog, in catalog order. */
  lemma LoadEmptySaved()
    ensures Load(Some([])) == InitialTabs
  {
    MergeEmptySaved(InitialTabs);
  }

  lemma MergeEmptySaved(catalog: seq<Tab>)
    ensures Merge(catalog, []) == catalog
  {
    MissingNoneSaved(catalog);
  }

  /**
   * The merge: the saved tabs come first, in saved order and with their icons
   * restored; after them come exactly the catalog tabs whose ids the saved
   * list lacks, in catalog order.
   */
  lemma LoadMerge(p: seq<PlainTab>)
    ensures |Load(Some(p))| >= |p|
    ensures Load(Some(p))[..|p|] == AttachAll(p)
    ensures forall i :: 0 <= i < |p| ==> Strip(Load(Some(p))[i]) == p[i]
    ensures IsSubseq(Load(Some(p))[|p|..], InitialTabs)
    ensures forall t :: t in Load(Some(p))[|p|..] <==> t in InitialTabs && t.id !in PlainIds(p)
  {
    var r := Load(Some(p));
    IdsAttachAll(p);
    var missing := MissingTabs(InitialTabs, PlainIds(p));
    assert r == AttachAll(p) + missing;
    assert r[..|p|] == AttachAll(p);
    assert r[|p|..] == missing;
    forall i | 0 <= i < |p| ensures Strip(r[i]) == p[i] {
      StripAttach(p[i]);
    }
  }

  /** Every catalog id is present after a load, whatever was saved. */
  lemma LoadCoversCatalog(saved: Option<seq<PlainTab>>)
    ensures forall i :: 0 <= i < |InitialTabs| ==> InitialTabs[i].id in Ids(Load(saved))
  {
    match saved
    case None =>
      forall i | 0 <= i < |InitialTabs| ensures InitialTabs[i].id in Ids(InitialTabs) {
        assert Ids(InitialTabs)[i] == InitialTabs[i].id;
      }
    case Some(p) =>
      MergeCoversCatalog(InitialTabs, p);
  }

  lemma MergeCoversCatalog(catalog: seq<Tab>, p: seq<PlainTab>)
    ensures forall i :: 0 <= i < |catalog| ==> catalog[i].id in Ids(Merge(catalog, p))
  {
    var r := Merge(catalog, p);
    IdsAttachAll(p);
    var missing := MissingTabs(catalog, PlainIds(p));
    assert r == AttachAll(p) + missing;
    forall i | 0 <= i < |catalog| ensures catalog[i].id in Ids(r) {
      var t := catalog[i];
      if t.id in PlainIds(p) {
        var j :| 0 <= j < |p| && PlainIds(p)[j] == t.id;
        assert r[j] == AttachAll(p)[j];
        assert Ids(r)[j] == t.id;
      } else {
        assert t in missing;
        var k :| 0 <= k < |missing| && missing[k] == t;
        assert r[|p| + k] == t;
        assert Ids(r)[|p| + k] == t.id;
      }
    }
  }

  lemma {:induction false} MissingNoneAbsent(catalog: seq<Tab>, savedIds: seq<string>)
    requires forall t :: t in catalog ==> t.id in savedIds
    ensures MissingTabs(catalog, savedIds) == []
  {
    if catalog != [] {
      assert catalog[0] in catalog;
      MissingNoneAbsent(catalog[1..], savedIds);
    }
  }

  lemma LoadNothingMissing(p: seq<PlainTab>)
    requires forall i :: 0 <= i < |InitialTabs| ==> InitialTabs[i].id in PlainIds(p)
    ensures Load(Some(p)) == AttachAll(p)
  {
    MergeNothingMissing(InitialTabs, p);
  }

  lemma MergeNothingMissing(catalog: seq<Tab>, p: seq<PlainTab>)
    requires forall i :: 0 <= i < |catalog| ==> catalog[i].id in PlainIds(p)
    ensures Merge(catalog, p) == AttachAll(p)
  {
    forall t | t in catalog ensures t.id in PlainIds(p) {
      var i :| 0 <= i < |catalog| && catalog[i] == t;
    }
    IdsAttachAll(p);
    MissingNoneAbsent(catalog, PlainIds(p));
  }

  /** Every loaded tab carries the icon its id maps to. */
  lemma LoadIcons(saved: Option<seq<PlainTab>>)
    ensures forall t :: t in Load(saved) ==> HasOwnIcon(t)
  {
    CatalogIconsMatch();
    match saved
    case None =>
    case Some(p) =>
      LoadMerge(p);
      var r := Load(Some(p));
      forall t | t in r ensures HasOwnIcon(t) {
        var i :| 0 <= i < |r| && r[i] == t;
        if i < |p| {
          assert r[i] == AttachAll(p)[i];
          StripAttach(p[i]);
        } else {
          assert r[|p|..][i - |p|] == t;
        }
      }
  }

  /** A saved list without duplicate ids loads into a list without duplicate ids. */
  lemma LoadUniqueIds(p: seq<PlainTab>)
    requires forall i, j :: 0 <= i < j < |p| ==> p[i].id != p[j].id
    ensures UniqueIds(Load(Some(p)))
  {
    CatalogUniqueIds();
    LoadMerge(p);
    IdsAttachAll(p);
    var r := Load(Some(p));
    var missing := MissingTabs(InitialTabs, PlainIds(p));
    assert r == AttachAll(p) + missing;
    forall i, j | 0 <= i < j < |r| ensures r[i].id != r[j].id {
      if j < |p| {
        assert r[i].id == p[i].id && r[j].id == p[j].id;
      } else if i < |p| {
        assert r[j] in missing;
        assert r[i].id == PlainIds(p)[i];
      } else {
        SubseqUniqueIds(missing, InitialTabs);
        assert r[i] == missing[i - |p|] && r[j] == missing[j - |p|];
      }
    }
  }

  /**
   * Persistence round trip: saving a list whose tabs carry their own icons and
   * which holds every catalog id, then loading it, gives the same list back.
   */
  lemma SaveLoadRoundTrip(s: seq<Tab>)
    requires forall t :: t in s ==> HasOwnIcon(t)
    requires forall t :: t in InitialTabs ==> t.id in Ids(s)
    ensures Load(Some(StripAll(s))) == s
  {
    forall i | 0 <= i < |InitialTabs| ensures InitialTabs[i].id in PlainIds(StripAll(s)) {
      assert InitialTabs[i] in InitialTabs;
    }
    PlainIdsStripAll(s);
    LoadNothingMissing(StripAll(s));
    AttachStripAll(s);
  }

  /** Saving the catalog and loading it again restores the catalog. */
  lemma CatalogRoundTrip()
    ensures Load(Some(StripAll(InitialTabs))) == InitialTabs
  {
    CatalogIconsMatch();
    forall t | t in InitialTabs ensures t.id in Ids(InitialTabs) {
      var i :| 0 <= i < |InitialTabs| && InitialTabs[i] == t;
      assert Ids(InitialTabs)[i] == t.id;
    }
    SaveLoadRoundTrip(InitialTabs);
  }
}
