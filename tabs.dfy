/**
 * The tab record, its persisted form without the icon, the fixed catalog of
 * fourteen tabs and the id-to-icon lookup that re-attaches icons on load.
 */
module Tabs {
  import opened Sequences

  /** The icon catalog; a tab's icon is presentation data derived from its id. */
  datatype Icon =
    | Package | LayoutDashboard | Landmark | Phone | UserRound | ShoppingBag | PieChart
    | Mail | Settings | HelpCircle | ListTodo | ShoppingCart | Receipt

  /** A tab as the component holds it in state. */
  datatype Tab = Tab(id: string, title: string, url: string, icon: Icon, pinned: bool)

  /** A tab as it is written to storage: the same record without `icon`. */
  datatype PlainTab = PlainTab(id: string, title: string, url: string, pinned: bool)

  /** The hard-coded default catalog, in display order; only the first tab is pinned. */
  const InitialTabs: seq<Tab> := [
    Tab("lagerverwaltung", "Lagerverwaltung", "/lagerverwaltung", Package, true),
    Tab("dashboard", "Dashboard", "/dashboard", LayoutDashboard, false),
    Tab("banking", "Banking", "/banking", Landmark, false),
    Tab("telefonie", "Telefonie", "/telefonie", Phone, false),
    Tab("accounting", "Accounting", "/accounting", UserRound, false),
    Tab("verkauf", "Verkauf", "/verkauf", ShoppingBag, false),
    Tab("statistik", "Statistik", "/statistik", PieChart, false),
    Tab("post-office", "Post Office", "/post-office", Mail, false),
    Tab("administration", "Administration", "/administration", Settings, false),
    Tab("help", "Help", "/help", HelpCircle, false),
    Tab("warenbestand", "Warenbestand", "/warenbestand", Package, false),
    Tab("auswahllisten", "Auswahllisten", "/auswahllisten", ListTodo, false),
    Tab("einkauf", "Einkauf", "/einkauf", ShoppingCart, false),
    Tab("rechn", "Rechn", "/rechn", Receipt, false)
  ]

  /** The lookup table used when restoring saved tabs. */
  const IconMap: map<string, Icon> := map[
    "lagerverwaltung" := Package,
    "dashboard" := LayoutDashboard,
    "banking" := Landmark,
    "telefonie" := Phone,
    "accounting" := UserRound,
    "verkauf" := ShoppingBag,
    "statistik" := PieChart,
    "post-office" := Mail,
    "administration" := Settings,
    "help" := HelpCircle,
    "warenbestand" := Package,
    "auswahllisten" := ListTodo,
    "einkauf" := ShoppingCart,
    "rechn" := Receipt
  ]

  /** `iconMap[id] || Package`: the mapped icon, or the package icon for an unknown id. */
  function IconFor(id: string): Icon
  {
    if id in IconMap then IconMap[id] else Package
  }

  /** A tab whose icon is the one its id maps to (every loaded tab is one). */
  predicate HasOwnIcon(t: Tab)
  {
    t.icon == IconFor(t.id)
  }

  /** The save projection `({ icon, ...rest }) => rest`. */
  function Strip(t: Tab): PlainTab
  {
    PlainTab(t.id, t.title, t.url, t.pinned)
  }

  /** The load projection `{ ...t, icon: iconMap[t.id] || Package }`. */
  function Attach(p: PlainTab): Tab
  {
    Tab(p.id, p.title, p.url, IconFor(p.id), p.pinned)
  }

  function StripAll(s: seq<Tab>): (r: seq<PlainTab>)
    ensures |r| == |s|
    ensures forall i :: 0 <= i < |s| ==> r[i] == Strip(s[i])
  {
    seq(|s|, i requires 0 <= i < |s| => Strip(s[i]))
  }

  function AttachAll(s: seq<PlainTab>): (r: seq<Tab>)
    ensures |r| == |s|
    ensures forall i :: 0 <= i < |s| ==> r[i] == Attach(s[i])
  {
    seq(|s|, i requires 0 <= i < |s| => Attach(s[i]))
  }

  /** The list of ids, `tabs.map(t => t.id)`. */
  function Ids(s: seq<Tab>): (r: seq<string>)
    ensures |r| == |s|
    ensures forall i :: 0 <= i < |s| ==> r[i] == s[i].id
  {
    seq(|s|, i requires 0 <= i < |s| => s[i].id)
  }

  /**
   * The ids of a persisted list: `Ids` for the icon-free record type that is
   * stored, kept separate because the two record types differ.
   */
  function PlainIds(s: seq<PlainTab>): (r: seq<string>)
    ensures |r| == |s|
    ensures forall i :: 0 <= i < |s| ==> r[i] == s[i].id
  {
    seq(|s|, i requires 0 <= i < |s| => s[i].id)
  }

  /** No two tabs of the list share an id. */
  ghost predicate UniqueIds(s: seq<Tab>)
  {
    forall i, j :: 0 <= i < j < |s| ==> s[i].id != s[j].id
  }

  /** Restoring a persisted record gives back every stored field and adds the mapped icon. */
  lemma StripAttach(p: PlainTab)
    ensures Strip(Attach(p)) == p
    ensures HasOwnIcon(Attach(p))
  {
  }

  /** Stripping and re-attaching is the identity exactly on tabs that carry their own icon. */
  lemma AttachStrip(t: Tab)
    ensures Attach(Strip(t)) == t <==> HasOwnIcon(t)
  {
  }

  lemma {:induction false} StripAttachAll(s: seq<PlainTab>)
    ensures StripAll(AttachAll(s)) == s
  {
    var r := StripAll(AttachAll(s));
    forall i | 0 <= i < |s| ensures r[i] == s[i] {
      StripAttach(s[i]);
    }
  }

  /** Saving then restoring a list whose tabs carry their own icons is the identity. */
  lemma {:induction false} AttachStripAll(s: seq<Tab>)
    requires forall t :: t in s ==> HasOwnIcon(t)
    ensures AttachAll(StripAll(s)) == s
  {
    var r := AttachAll(StripAll(s));
    forall i | 0 <= i < |s| ensures r[i] == s[i] {
      assert s[i] in s;
      AttachStrip(s[i]);
    }
  }

  /** Restoring keeps the ids of the stored records, position by position. */
  lemma {:induction false} IdsAttachAll(s: seq<PlainTab>)
    ensures Ids(AttachAll(s)) == PlainIds(s)
  {
  }

  lemma {:induction false} PlainIdsStripAll(s: seq<Tab>)
    ensures PlainIds(StripAll(s)) == Ids(s)
  {
  }

  /** Every catalog tab carries the icon the lookup table gives its id. */
  lemma CatalogIconsMatch()
    ensures forall t :: t in InitialTabs ==> HasOwnIcon(t)
  {
    CatalogIconsMatchFrom(0);
  }

  /** The icons of catalog entries `k ..` agree with the lookup table, one entry at a time. */
  lemma {:induction false} CatalogIconsMatchFrom(k: nat)
    requires k <= |InitialTabs|
    ensures forall i :: k <= i < |InitialTabs| ==> HasOwnIcon(InitialTabs[i])
    decreases |InitialTabs| - k
  {
    if k < |InitialTabs| {
      var t := InitialTabs[k];
      assert t.id in IconMap && IconMap[t.id] == t.icon;
      CatalogIconsMatchFrom(k + 1);
    }
  }

  /** Catalog ids are pairwise distinct. */
  lemma CatalogUniqueIds()
    ensures UniqueIds(InitialTabs)
  {
  }

  /** Deleting tabs from a list without duplicate ids leaves none. */
  lemma {:induction false} SubseqUniqueIds(a: seq<Tab>, b: seq<Tab>)
    requires IsSubseq(a, b)
    requires UniqueIds(b)
    ensures UniqueIds(a)
    decreases |b|
  {
    if a != [] {
      assert UniqueIds(b[1..]) by {
        forall i, j | 0 <= i < j < |b[1..]| ensures b[1..][i].id != b[1..][j].id {
          assert b[1..][i] == b[i + 1] && b[1..][j] == b[j + 1];
        }
      }
      if a[0] == b[0] && IsSubseq(a[1..], b[1..]) {
        SubseqUniqueIds(a[1..], b[1..]);
        forall j | 0 < j < |a| ensures a[0].id != a[j].id {
          assert a[j] == a[1..][j - 1];
          SubseqMember(a[1..], b[1..], a[j]);
          var k :| 0 <= k < |b[1..]| && b[1..][k] == a[j];
          assert b[k + 1] == a[j];
        }
      } else {
        SubseqUniqueIds(a, b[1..]);
      }
    }
  }
}
