/**
 * app/portfolio/page.tsx: the category tabs, the derived main categories,
 * the selection of projects for the active tab, the badge text and the
 * project link. Fetching, state hooks and rendering are not modelled.
 */
module Portfolio {
  import opened Wrappers
  import opened JsText

  datatype Category = Category(id: string, caption: string)

  /** The `categories` table, in tab order. */
  const Categories: seq<Category> := [
    Category("all", "All Work"),
    Category("Music", "Music & Events"),
    Category("Portrait", "Portraits"),
    Category("Travel", "Travel"),
    Category("Other", "Other")
  ]

  const AllTab: string := "all"
  const OtherTab: string := "Other"
  const LinkPrefix: string := "/portfolio/"

  /** The fields of a `portfolioProject` document the page uses; `slug` is `slug?.current`. */
  datatype Project = Project(id: string, title: string, slug: Option<string>, category: string, excerpt: string)

  /** `Array.prototype.filter`: the elements that satisfy `keep`, in their original order. */
  function Filter<T(!new)>(s: seq<T>, keep: T -> bool): (r: seq<T>)
    ensures |r| <= |s|
    ensures forall x :: x in r <==> x in s && keep(x)
    ensures forall x :: multiset(r)[x] == if keep(x) then multiset(s)[x] else 0
  {
    if s == [] then []
    else
      var head := if keep(s[0]) then [s[0]] else [];
      var rest := Filter(s[1..], keep);
      assert s == [s[0]] + s[1..];
      assert multiset(s) == multiset{s[0]} + multiset(s[1..]);
      assert multiset(head + rest) == multiset(head) + multiset(rest);
      head + rest
  }

  /** `r` is `s` with some elements dropped: an order-preserving embedding exists. */
  ghost predicate Subsequence<T>(r: seq<T>, s: seq<T>) {
    exists idx: seq<nat> :: Embedding(idx, r, s)
  }

  /** `idx` picks, in increasing positions of `s`, the elements of `r`. */
  ghost predicate Embedding<T>(idx: seq<nat>, r: seq<T>, s: seq<T>) {
    && |idx| == |r|
    && (forall k :: 0 <= k < |idx| ==> idx[k] < |s| && r[k] == s[idx[k]])
    && (forall k, l :: 0 <= k < l < |idx| ==> idx[k] < idx[l])
  }

  /** Filtering keeps the order of what it keeps. */
  lemma {:induction false} FilterIsSubsequence<T(!new)>(s: seq<T>, keep: T -> bool)
    ensures Subsequence(Filter(s, keep), s)
  {
    var idx := FilterPositions(s, keep);
  }

  lemma {:induction false} FilterPositions<T(!new)>(s: seq<T>, keep: T -> bool) returns (idx: seq<nat>)
    ensures Embedding(idx, Filter(s, keep), s)
  {
    if s == [] {
      idx := [];
    } else {
      var rest := FilterPositions(s[1..], keep);
      var tail := Filter(s[1..], keep);
      var shifted := Shift(rest, tail, s);
      if keep(s[0]) {
        idx := [0] + shifted;
        assert Filter(s, keep) == [s[0]] + tail;
      } else {
        idx := shifted;
        assert Filter(s, keep) == tail;
      }
    }
  }

  /** An embedding into the tail of `s`, moved one position to the right, is an embedding into `s` that avoids position 0. */
  lemma Shift<T>(rest: seq<nat>, r: seq<T>, s: seq<T>) returns (shifted: seq<nat>)
    requires s != [] && Embedding(rest, r, s[1..])
    ensures Embedding(shifted, r, s) && Embedding([0] + shifted, [s[0]] + r, s)
  {
    shifted := seq(|rest|, k requires 0 <= k < |rest| => rest[k] + 1);
    forall k | 0 <= k < |shifted| ensures shifted[k] < |s| && r[k] == s[shifted[k]] {
      assert r[k] == s[1..][rest[k]];
    }
    var idx := [0] + shifted;
    var r' := [s[0]] + r;
    forall k | 0 <= k < |idx| ensures idx[k] < |s| && r'[k] == s[idx[k]] {
      if k > 0 {
        assert idx[k] == shifted[k - 1] && r'[k] == r[k - 1];
      }
    }
    forall k, l | 0 <= k < l < |idx| ensures idx[k] < idx[l] {
      if k > 0 {
        assert idx[k] == shifted[k - 1] && idx[l] == shifted[l - 1];
      }
    }
  }

  /** `categories.filter(c => c.id !== 'all' && c.id !== 'Other').map(c => c.id)`. */
  function MainCategoryIds(cs: seq<Category>): (ids: seq<string>)
    ensures forall id :: id in ids <==>
      id != AllTab && id != OtherTab && exists c :: c in cs && c.id == id
  {
    if cs == [] then []
    else
      var rest := MainCategoryIds(cs[1..]);
      assert forall c :: c in cs[1..] ==> c in cs;
      if cs[0].id != AllTab && cs[0].id != OtherTab then [cs[0].id] + rest else rest
  }

  /** The main categories are exactly Music, Portrait and Travel, in that order. */
  lemma MainCategoriesAre()
    ensures MainCategoryIds(Categories) == ["Music", "Portrait", "Travel"]
  {
    var cs := Categories;
    assert MainCategoryIds(cs[4..]) == [];
    assert MainCategoryIds(cs[3..]) == ["Travel"];
    assert MainCategoryIds(cs[2..]) == ["Portrait", "Travel"];
    assert MainCategoryIds(cs[1..]) == ["Music", "Portrait", "Travel"];
  }

  /** Whether a project is listed under a tab other than `all`. */
  predicate InTab(p: Project, tab: string) {
    if tab == OtherTab then p.category !in MainCategoryIds(Categories) else p.category == tab
  }

  /** `filteredItems` for the active tab. */
  function FilteredItems(items: seq<Project>, active: string): (r: seq<Project>)
    ensures active == AllTab ==> r == items
    ensures active != AllTab ==> forall p :: p in r <==> p in items && InTab(p, active)
  {
    if active == AllTab then items
    else if active == OtherTab then Filter(items, (p: Project) => p.category !in MainCategoryIds(Categories))
    else Filter(items, (p: Project) => p.category == active)
  }

  /** Every tab lists a selection of the projects in their original order. */
  lemma FilteredIsSubsequence(items: seq<Project>, active: string)
    ensures Subsequence(FilteredItems(items, active), items)
  {
    if active == AllTab {
      var idx := seq(|items|, k requires 0 <= k < |items| => k);
      assert Embedding(idx, items, items);
    } else if active == OtherTab {
      FilterIsSubsequence(items, (p: Project) => p.category !in MainCategoryIds(Categories));
    } else {
      FilterIsSubsequence(items, (p: Project) => p.category == active);
    }
  }

  /** Project categories from the schema that are not main categories are listed under Other. */
  lemma SchemaExtrasLandInOther(p: Project)
    requires p.category in ["Celebrations", "Sport", "Architecture", "Other"]
    ensures InTab(p, OtherTab)
    ensures !InTab(p, "Music") && !InTab(p, "Portrait") && !InTab(p, "Travel")
  {
    MainCategoriesAre();
  }

  /** Every project belongs to exactly one of the Music, Portrait, Travel and Other tabs. */
  lemma ExactlyOneTab(p: Project)
    ensures TabCount(p) == 1
  {
    MainCategoriesAre();
  }

  /** How many of the Music, Portrait, Travel and Other tabs list `p`. */
  function TabCount(p: Project): nat {
    (if InTab(p, "Music") then 1 else 0) + (if InTab(p, "Portrait") then 1 else 0)
    + (if InTab(p, "Travel") then 1 else 0) + (if InTab(p, OtherTab) then 1 else 0)
  }

  /** A tab other than `all` decides project by project. */
  lemma FilteredItemsCons(items: seq<Project>, tab: string)
    requires items != [] && tab != AllTab
    ensures FilteredItems(items, tab) ==
            (if InTab(items[0], tab) then [items[0]] else []) + FilteredItems(items[1..], tab)
  {
  }

  /** What the Music, Portrait, Travel and Other tabs list, taken together. */
  function TabsUnion(items: seq<Project>): multiset<Project> {
    multiset(FilteredItems(items, "Music")) + multiset(FilteredItems(items, "Portrait"))
    + multiset(FilteredItems(items, "Travel")) + multiset(FilteredItems(items, OtherTab))
  }

  /** The Music, Portrait, Travel and Other tabs together list every project exactly once. */
  lemma {:induction false} TabsPartition(items: seq<Project>)
    ensures TabsUnion(items) == multiset(items)
  {
    if items != [] {
      TabsPartition(items[1..]);
      TabsUnionCons(items);
      MultisetCons(items);
    }
  }

  lemma MultisetCons<T>(s: seq<T>)
    requires s != []
    ensures multiset(s) == multiset{s[0]} + multiset(s[1..])
  {
    assert s == [s[0]] + s[1..];
  }

  lemma TabsUnionCons(items: seq<Project>)
    requires items != []
    ensures TabsUnion(items) == multiset{items[0]} + TabsUnion(items[1..])
  {
    var x, rest := items[0], items[1..];
    ExactlyOneTab(x);
    FilteredItemsCons(items, "Music");
    FilteredItemsCons(items, "Portrait");
    FilteredItemsCons(items, "Travel");
    FilteredItemsCons(items, OtherTab);
  }

  /** `categories.find(c => c.id === id)`. */
  function FindCategory(cs: seq<Category>, id: string): (r: Option<Category>)
    ensures r.Some? ==> r.value in cs && r.value.id == id
    ensures r.Some? ==> exists i :: 0 <= i < |cs| && cs[i] == r.value && forall j :: 0 <= j < i ==> cs[j].id != id
    ensures r.None? ==> forall c :: c in cs ==> c.id != id
  {
    if cs == [] then None
    else if cs[0].id == id then Some(cs[0])
    else
      var r := FindCategory(cs[1..], id);
      if r.Some? then
        var i :| 0 <= i < |cs[1..]| && cs[1..][i] == r.value && forall j :: 0 <= j < i ==> cs[1..][j].id != id;
        assert cs[i + 1] == r.value;
        assert forall j :: 0 <= j < i + 1 ==> cs[j].id != id by {
          forall j | 0 <= j < i + 1 ensures cs[j].id != id {
            if j > 0 { assert cs[j] == cs[1..][j - 1]; }
          }
        }
        r
      else r
  }

  /** The badge text: the matching tab's caption, or the raw category when no tab has that id. */
  function BadgeLabel(category: string): (badge: string)
    ensures (exists c :: c in Categories && c.id == category) ==>
      exists c :: c in Categories && c.id == category && badge == c.caption
    ensures (forall c :: c in Categories ==> c.id != category) ==> badge == category
  {
    match FindCategory(Categories, category)
    case Some(c) => if c.caption != "" then c.caption else category
    case None => category
  }

  /**
   * A main category shows its caption, and a project filed under `all`
   * would show the caption "All Work".
   */
  lemma BadgeCaptions()
    ensures BadgeLabel("Music") == "Music & Events"
    ensures BadgeLabel("all") == "All Work"
  {
    assert FindCategory(Categories, "Music") == Some(Categories[1]);
    assert FindCategory(Categories, "all") == Some(Categories[0]);
  }

  /** A schema category without a tab shows itself. */
  lemma BadgeFallsBack()
    ensures BadgeLabel("Sport") == "Sport"
  {
    assert FindCategory(Categories, "Sport") == None;
  }

  /** `href` of a project card: the slug when it is set, otherwise the document id. */
  function ProjectHref(p: Project): (href: string)
    ensures StartsWith(href, LinkPrefix)
    ensures p.slug.Some? && p.slug.value != "" ==> href[|LinkPrefix|..] == p.slug.value
    ensures (p.slug.None? || p.slug.value == "") ==> href[|LinkPrefix|..] == p.id
  {
    LinkPrefix + (if p.slug.Some? && p.slug.value != "" then p.slug.value else p.id)
  }
}
