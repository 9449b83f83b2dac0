/**
 The selection controller: the click handlers `menuItemClick` and
 `subMenuItemClick`, the highlighting helpers `activateSubMenuItems` and
 `activateMenuItem`, and the end of a transition. The script's globals
 `selectedName`, `transitioning` and `selectedElements`, the `active` class of
 every menu element and the inline `display` of every sub-menu container are
 gathered into one immutable Session; each handler returns the next Session
 together with the one visible effect it causes.
 */
module Selection {
  import opened JsStrings
  import opened Seqs
  import opened Catalogue
  import opened Menu

  /** The string "block". */
  const Block: JsString := [98, 108, 111, 99, 107]
  /** The string "none". */
  const NoDisplay: JsString := [110, 111, 110, 101]

  datatype Session = Session(
    selectedName: JsString,
    transitioning: bool,
    selectedElements: seq<ElemRef>,
    active: set<ElemRef>,
    display: map<nat, JsString>)

  /** The globals at page load: empty name, no transition, nothing highlighted,
      no inline display set on any container. */
  const Initial: Session := Session([], false, [], {}, map[])

  /** What a handler shows beyond the session: a transition towards new
      content under a new title, the "item does not exist" alert, or the link
      back to the overview once a transition ends. */
  datatype Effect =
    | NoEffect
    | BeginTransition(title: JsString, header: JsString, body: JsString)
    | AlertItemMissing
    | ShowOverviewLink

  datatype Outcome = Outcome(session: Session, effect: Effect)

  /** The inline display of container `index`; unset reads as the empty string. */
  function DisplayOf(display: map<nat, JsString>, index: nat): JsString
  {
    if index in display then display[index] else []
  }

  /** The display toggle of `menuItemClick`: "block" becomes "none", anything
      else becomes "block". */
  function ToggleDisplay(d: JsString): (r: JsString)
    ensures r == Block || r == NoDisplay
    ensures r == NoDisplay <==> d == Block
  {
    if d == Block then NoDisplay else Block
  }

  /** Two clicks on the same entry restore a shown or hidden container. */
  lemma ToggleDisplayTwice(d: JsString)
    requires d == Block || d == NoDisplay
    ensures ToggleDisplay(ToggleDisplay(d)) == d
  {
  }

  /** `activateMenuItem(element, sub_item)`: flips the `active` class of `e`;
      a sub-menu entry that becomes active is appended to `selectedElements`. */
  function ActivateMenuItem(s: Session, e: ElemRef, isSubItem: bool): (r: Session)
    ensures forall x :: x in r.active <==> (x in s.active) != (x == e)
    ensures r.selectedElements == s.selectedElements + (if isSubItem && e !in s.active then [e] else [])
    ensures r.selectedName == s.selectedName && r.transitioning == s.transitioning && r.display == s.display
  {
    if e in s.active then s.(active := s.active - {e})
    else if isSubItem then s.(active := s.active + {e}, selectedElements := s.selectedElements + [e])
    else s.(active := s.active + {e})
  }

  /** The second loop of `activateSubMenuItems`: `activateMenuItem(es[i], true)`
      for each `i` in turn. */
  function ActivateEach(s: Session, es: seq<ElemRef>): (r: Session)
    ensures forall x :: x !in es ==> (x in r.active <==> x in s.active)
    ensures r.selectedName == s.selectedName && r.transitioning == s.transitioning && r.display == s.display
    decreases |es|
  {
    if es == [] then s
    else
      var n := |es| - 1;
      assert forall x :: x in es[..n] ==> x in es;
      ActivateMenuItem(ActivateEach(s, es[..n]), es[n], true)
  }

  /** On distinct entries every entry of `es` flips its highlight once: one
      already highlighted is switched off and not recorded, any other is
      switched on and appended to `selectedElements`, in the order of `es`. */
  lemma {:induction false} ActivateEachDistinct(s: Session, es: seq<ElemRef>)
    ensures var r := ActivateEach(s, es);
            Distinct(es) ==>
              && (forall x :: x in es ==> (x in r.active <==> x !in s.active))
              && (forall x :: x in r.selectedElements <==> x in s.selectedElements || (x in es && x !in s.active))
              && ((forall x :: x in es ==> x !in s.active) ==> r.selectedElements == s.selectedElements + es)
    decreases |es|
  {
    if es != [] && Distinct(es) {
      var n := |es| - 1;
      var init, e := es[..n], es[n];
      assert es == init + [e];
      assert Distinct(init) && e !in init by {
        forall i | 0 <= i < n ensures init[i] != e {
          assert init[i] == es[i];
        }
      }
      ActivateEachDistinct(s, init);
      var prev := ActivateEach(s, init);
      assert ActivateEach(s, es) == ActivateMenuItem(prev, e, true);
      assert e in prev.active <==> e in s.active;
    }
  }

  /** `activateSubMenuItems(es)`: remove the highlight from every element in
      `selectedElements`, forget them, then highlight each of `es`. */
  function ActivateSubMenuItems(s: Session, es: seq<ElemRef>): (r: Session)
    ensures forall x :: x in s.selectedElements && x !in es ==> x !in r.active
    ensures forall x :: x !in s.selectedElements && x !in es ==> (x in r.active <==> x in s.active)
    ensures Distinct(es) ==> forall x :: x in es ==> (x in r.active <==> x in s.selectedElements || x !in s.active)
    ensures Distinct(es) ==>
              forall x :: x in r.selectedElements <==> x in es && (x in s.selectedElements || x !in s.active)
    ensures Distinct(es) && (forall x :: x in es && x in s.active ==> x in s.selectedElements) ==>
              r.selectedElements == es && forall x :: x in es ==> x in r.active
    ensures r.selectedName == s.selectedName && r.transitioning == s.transitioning && r.display == s.display
  {
    var cleared := s.(active := s.active - Elements(s.selectedElements), selectedElements := []);
    ActivateEachDistinct(cleared, es);
    ActivateEach(cleared, es)
  }

  /** `selectedElements` holds sub-menu entries only, and every highlighted
      sub-menu entry is recorded there, so the next `activateSubMenuItems`
      clears it. */
  ghost predicate Tracked(s: Session)
  {
    && (forall x :: x in s.selectedElements ==> x.SubItem?)
    && (forall x :: x in s.active && x.SubItem? ==> x in s.selectedElements)
  }

  /** The guard of `subMenuItemClick`: a different name, and no transition running. */
  predicate Accepts(s: Session, name: JsString)
  {
    name != s.selectedName && !s.transitioning
  }

  /** `subMenuItemClick` on an entry whose text is `name`. */
  function SubMenuItemClick(c: Catalogue, menu: seq<MenuItem>, s: Session, name: JsString): (r: Outcome)
    ensures !Accepts(s, name) ==> r == Outcome(s, NoEffect)
    ensures Accepts(s, name) && Named(c, name) ==>
              && r.session.transitioning
              && r.session.selectedName == name
              && forall k: nat :: FirstNamed(c, name, k) ==> r.effect == BeginTransition(name, c[k].header, c[k].body)
    ensures Accepts(s, name) && !Named(c, name) ==>
              && r.session.transitioning == s.transitioning
              && r.session.selectedName == s.selectedName
              && r.effect == AlertItemMissing
    ensures Accepts(s, name) && Tracked(s) ==>
              && r.session.selectedElements == GetAllSubItems(menu, name)
              && forall x: ElemRef :: x.SubItem? ==> (x in r.session.active <==> LabelledSubItem(menu, x, name))
    ensures Tracked(s) ==> forall i: nat :: TopItem(i) in r.session.active <==> TopItem(i) in s.active
    ensures r.session.display == s.display
  {
    if Accepts(s, name) then
      var es := GetAllSubItems(menu, name);
      DocumentOrderIsDistinct(es);
      var s' := ActivateSubMenuItems(s, es);
      match Search(c, name)
      case Found(content) =>
        Outcome(s'.(transitioning := true, selectedName := name),
                BeginTransition(name, content.header, content.body))
      case Null =>
        Outcome(s', AlertItemMissing)
    else
      Outcome(s, NoEffect)
  }

  /** `menuItemClick(element, index)`: flip the highlight of the top-level
      entry and toggle the display of its sub-menu container. */
  function MenuItemClick(s: Session, index: nat): (r: Outcome)
    ensures forall x :: x in r.session.active <==> (x in s.active) != (x == TopItem(index))
    ensures DisplayOf(r.session.display, index) == ToggleDisplay(DisplayOf(s.display, index))
    ensures forall i: nat :: i != index ==> DisplayOf(r.session.display, i) == DisplayOf(s.display, i)
    ensures r.session.selectedName == s.selectedName && r.session.transitioning == s.transitioning
    ensures r.session.selectedElements == s.selectedElements
    ensures r.effect == NoEffect
  {
    var s' := ActivateMenuItem(s, TopItem(index), false);
    Outcome(s'.(display := s'.display[index := ToggleDisplay(DisplayOf(s'.display, index))]), NoEffect)
  }

  /** The last tick of either unfade animation: the flag clears and the link
      back to the overview appears. */
  function FinishTransition(s: Session): (r: Outcome)
    ensures !r.session.transitioning
    ensures r.session == s.(transitioning := false)
    ensures r.effect == ShowOverviewLink
  {
    Outcome(s.(transitioning := false), ShowOverviewLink)
  }

  /** What reaches the controller: a click on a top-level entry, a click on a
      sub-menu entry with the given text, or the end of the running transition. */
  datatype Event = MenuItemClicked(index: nat) | SubMenuItemClicked(name: JsString) | TransitionFinished

  function Step(c: Catalogue, menu: seq<MenuItem>, s: Session, ev: Event): Outcome
  {
    match ev
    case MenuItemClicked(index) => MenuItemClick(s, index)
    case SubMenuItemClicked(name) => SubMenuItemClick(c, menu, s, name)
    case TransitionFinished => FinishTransition(s)
  }

  /** The session after a sequence of events, and the effects in order. */
  function Run(c: Catalogue, menu: seq<MenuItem>, s: Session, evs: seq<Event>): (Session, seq<Effect>)
    decreases |evs|
  {
    if evs == [] then (s, [])
    else
      var o := Step(c, menu, s, evs[0]);
      var rest := Run(c, menu, o.session, evs[1..]);
      (rest.0, [o.effect] + rest.1)
  }

  /** The controller's invariant: highlights are tracked, a running transition
      shows a catalogue project, and the selected name is empty or a
      catalogue project's name. */
  ghost predicate Valid(c: Catalogue, s: Session)
  {
    && Tracked(s)
    && (s.transitioning ==> Named(c, s.selectedName))
    && (s.selectedName == [] || Named(c, s.selectedName))
  }

  lemma InitialIsValid(c: Catalogue)
    ensures Valid(c, Initial)
  {
  }

  /** Every event keeps the invariant. */
  lemma StepPreservesValid(c: Catalogue, menu: seq<MenuItem>, s: Session, ev: Event)
    requires Valid(c, s)
    ensures Valid(c, Step(c, menu, s, ev).session)
  {
    match ev
    case MenuItemClicked(index) =>
    case SubMenuItemClicked(name) =>
    case TransitionFinished =>
  }

  /** While a transition runs and until it reports completion, no click
      starts another one or changes the selection: only top-level entries
      still expand and collapse. */
  lemma {:induction false} NoNewTransitionUntilFinished(c: Catalogue, menu: seq<MenuItem>, s: Session, evs: seq<Event>)
    requires s.transitioning
    requires forall k :: 0 <= k < |evs| ==> !evs[k].TransitionFinished?
    ensures Run(c, menu, s, evs).0.transitioning
    ensures Run(c, menu, s, evs).0.selectedName == s.selectedName
    ensures Run(c, menu, s, evs).0.selectedElements == s.selectedElements
    ensures forall k :: 0 <= k < |Run(c, menu, s, evs).1| ==> Run(c, menu, s, evs).1[k] == NoEffect
    decreases |evs|
  {
    if evs != [] {
      var o := Step(c, menu, s, evs[0]);
      assert o.session.transitioning && o.session.selectedName == s.selectedName;
      assert o.session.selectedElements == s.selectedElements && o.effect == NoEffect;
      NoNewTransitionUntilFinished(c, menu, o.session, evs[1..]);
    }
  }

  /** A click on any sub-entry of a menu entry built from the catalogue (every
      entry of BuildMenu describes its tag) finds its project: from the menu,
      the alert cannot be raised, for names whose rendered text is the name
      itself. */
  lemma MenuClickNeverAlerts(c: Catalogue, menu: seq<MenuItem>, s: Session, item: MenuItem, k: nat)
    requires DescribesTag(c, item) && k < |item.subItems|
    ensures SubMenuItemClick(c, menu, s, item.subItems[k]).effect != AlertItemMissing
  {
    MenuLabelsAreFound(c, item, k);
  }
}
