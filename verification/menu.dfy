/**
 The menu the script injects: `buildMenu` and `buildSubMenu` read only the
 counts and labels out of the tag groups, and `getAllSubItems` finds every
 sub-menu entry carrying a given label. Markup is not modelled; an entry is
 its label, and a page element is named by its position in the menu.
 */
module Menu {
  import opened JsStrings
  import opened Seqs
  import opened Sorting
  import opened Catalogue
  import opened TagIndex

  /** One top-level entry: the tag, the count shown in brackets after it, and
      the labels of its sub-menu entries. */
  datatype MenuItem = MenuItem(tag: JsString, count: int, subItems: seq<JsString>)

  /** A page element the controller highlights: the top-level entry at
      `index`, or the sub-menu entry at position `pos` under entry `menuIndex`. */
  datatype ElemRef = TopItem(index: nat) | SubItem(menuIndex: nat, pos: nat)

  /** The entry shown for a tag lists, in catalogue order, the names of
      exactly the projects carrying the tag, and its count is their number,
      never zero. */
  ghost predicate DescribesTag(c: Catalogue, item: MenuItem)
  {
    var idx := TaggedIndices(item.tag, c);
    && item.count == |idx| >= 1
    && |item.subItems| == |idx|
    && forall k :: 0 <= k < |idx| ==> item.subItems[k] == c[idx[k]].name
  }

  /** `createItem(i, group[0], group.length - 1)` and `buildSubMenu(i, group)`:
      the label, the count and the sub-entries `group[1..]`. */
  function ItemOf(group: seq<JsString>): (item: MenuItem)
    requires |group| >= 1
    ensures item.tag == group[0]
    ensures item.count == |item.subItems| >= 0
  {
    MenuItem(group[0], |group| - 1, group[1..])
  }

  /** Reading the count and the sub-entries off a tag array gives the
      projects carrying the tag. */
  lemma ItemOfTagArray(c: Catalogue, t: JsString)
    requires Occurs(c, t)
    ensures DescribesTag(c, ItemOf(CreateTagArray(t, c)))
  {
  }

  /** The entries read off a tag index describe the tags in use, in order. */
  lemma {:induction false} ItemsOfTagIndex(c: Catalogue, groups: seq<seq<JsString>>)
    requires IsTagIndex(c, groups)
    ensures var menu := seq(|groups|, i requires 0 <= i < |groups| => ItemOf(groups[i]));
            && (forall i :: 0 <= i < |menu| ==> DescribesTag(c, menu[i]))
            && (forall i, j :: 0 <= i < j < |menu| ==> Less(menu[i].tag, menu[j].tag))
            && (forall t :: Occurs(c, t) <==> exists i :: 0 <= i < |menu| && menu[i].tag == t)
  {
    var menu := seq(|groups|, i requires 0 <= i < |groups| => ItemOf(groups[i]));
    forall i | 0 <= i < |menu|
      ensures DescribesTag(c, menu[i])
    {
      var t := groups[i][0];
      assert Occurs(c, t) by {
        assert 0 <= i < |groups| && groups[i][0] == t;
      }
      assert menu[i] == ItemOf(CreateTagArray(t, c));
      ItemOfTagArray(c, t);
    }
    forall t
      ensures Occurs(c, t) <==> exists i :: 0 <= i < |menu| && menu[i].tag == t
    {
      if Occurs(c, t) {
        var i :| 0 <= i < |groups| && groups[i][0] == t;
        assert menu[i].tag == t;
      }
    }
  }

  /** `buildMenu()`: one entry per tag group, in group order. */
  function BuildMenu(c: Catalogue): (menu: seq<MenuItem>)
    ensures |menu| == |GetProjectData(c)|
    ensures forall i :: 0 <= i < |menu| ==> DescribesTag(c, menu[i])
    ensures forall i, j :: 0 <= i < j < |menu| ==> Less(menu[i].tag, menu[j].tag)
    ensures forall t :: Occurs(c, t) <==> exists i :: 0 <= i < |menu| && menu[i].tag == t
  {
    var groups := GetProjectData(c);
    ItemsOfTagIndex(c, groups);
    seq(|groups|, i requires 0 <= i < |groups| => ItemOf(groups[i]))
  }

  /** The count shown next to a tag is the number of projects carrying it. */
  lemma MenuCountIsProjectCount(c: Catalogue, item: MenuItem)
    requires DescribesTag(c, item)
    ensures item.count == |set j | 0 <= j < |c| && item.tag in c[j].tags|
  {
    var idx := TaggedIndices(item.tag, c);
    assert Elements(idx) == set j | 0 <= j < |c| && item.tag in c[j].tags;
    DistinctCard(idx);
  }

  /** Every label listed under a tag names a catalogue project, so a click
      on any sub-menu entry finds its project. */
  lemma MenuLabelsAreFound(c: Catalogue, item: MenuItem, k: nat)
    requires DescribesTag(c, item) && k < |item.subItems|
    ensures Search(c, item.subItems[k]).Found?
  {
    var idx := TaggedIndices(item.tag, c);
    assert item.subItems[k] == c[idx[k]].name;
  }

  /** `e` is a sub-menu entry of `menu` whose label is `name`. */
  ghost predicate LabelledSubItem(menu: seq<MenuItem>, e: ElemRef, name: JsString)
  {
    && e.SubItem?
    && e.menuIndex < |menu|
    && e.pos < |menu[e.menuIndex].subItems|
    && menu[e.menuIndex].subItems[e.pos] == name
  }

  /** Document order of two sub-menu entries. */
  predicate Precedes(a: ElemRef, b: ElemRef)
  {
    a.SubItem? && b.SubItem? &&
    (a.menuIndex < b.menuIndex || (a.menuIndex == b.menuIndex && a.pos < b.pos))
  }

  predicate InDocumentOrder(es: seq<ElemRef>)
  {
    forall i, j :: 0 <= i < j < |es| ==> Precedes(es[i], es[j])
  }

  /** The entries labelled `name` among the first `|items|` sub-entries of entry `i`. */
  function MatchesUnder(i: nat, items: seq<JsString>, name: JsString): (r: seq<ElemRef>)
    ensures forall e :: e in r <==> e.SubItem? && e.menuIndex == i && e.pos < |items| && items[e.pos] == name
    ensures InDocumentOrder(r)
    decreases |items|
  {
    if items == [] then []
    else
      var n := |items| - 1;
      var prev := MatchesUnder(i, items[..n], name);
      assert forall p :: 0 <= p < n ==> items[..n][p] == items[p];
      prev + if items[n] == name then [SubItem(i, n)] else []
  }

  /** `getAllSubItems(name)`: every sub-menu entry labelled `name`, in
      document order, each once. */
  function GetAllSubItems(menu: seq<MenuItem>, name: JsString): (r: seq<ElemRef>)
    ensures forall e :: e in r <==> LabelledSubItem(menu, e, name)
    ensures InDocumentOrder(r)
    decreases |menu|
  {
    if menu == [] then []
    else
      var n := |menu| - 1;
      var prev := GetAllSubItems(menu[..n], name);
      var last := MatchesUnder(n, menu[n].subItems, name);
      assert forall e :: e in prev ==> e.menuIndex < n;
      assert forall e :: LabelledSubItem(menu[..n], e, name) <==> LabelledSubItem(menu, e, name) && e.menuIndex < n;
      prev + last
  }

  lemma DocumentOrderIsDistinct(es: seq<ElemRef>)
    requires InDocumentOrder(es)
    ensures Distinct(es)
  {
  }
}
