/**
 A two-project catalogue worked through the model: project "A" tagged "x",
 project "B" tagged "x" and "y". Strings are written as their code units.
 */
module Scenarios {
  import opened JsStrings
  import opened Catalogue
  import opened TagIndex
  import opened Menu
  import opened Selection

  const A: JsString := [65]
  const B: JsString := [66]
  const X: JsString := [120]
  const Y: JsString := [121]

  /** `{projects: [{name: "A", tags: ["x"], header: "H1", body: "B1"},
                   {name: "B", tags: ["x", "y"], header: "H2", body: "B2"}]}` */
  function Example(): Catalogue
  {
    [ Project(A, [X], [72, 49], [66, 49]),
      Project(B, [X, Y], [72, 50], [66, 50]) ]
  }

  lemma ExampleTagArrayX(c: Catalogue)
    requires c == Example()
    ensures CreateTagArray(X, c) == [X, A, B]
  {
    assert c[..1] == [c[0]];
    assert [c[0]][..0] == [];
    assert CreateTagArray(X, [c[0]]) == [X, A];
  }

  lemma ExampleTagArrayY(c: Catalogue)
    requires c == Example()
    ensures CreateTagArray(Y, c) == [Y, B]
  {
    assert c[..1] == [c[0]];
    assert [c[0]][..0] == [];
    assert Y !in c[0].tags;
    assert CreateTagArray(Y, [c[0]]) == [Y];
  }

  lemma ExampleTags(c: Catalogue, t: JsString)
    requires c == Example()
    ensures Occurs(c, t) <==> t == X || t == Y
  {
    if Occurs(c, t) {
      var j :| 0 <= j < |c| && t in c[j].tags;
    }
    if t == X || t == Y {
      assert t in c[1].tags;
    }
  }

  /** The expected groups meet every property of a tag index; stated over
      the three facts about the catalogue that it needs, so that the proof
      does not unfold the catalogue itself. */
  lemma ExampleIsTagIndex(c: Catalogue, g: seq<seq<JsString>>)
    requires CreateTagArray(X, c) == [X, A, B] && CreateTagArray(Y, c) == [Y, B]
    requires forall t :: Occurs(c, t) <==> t == X || t == Y
    requires g == [[X, A, B], [Y, B]]
    ensures IsTagIndex(c, g)
  {
    ExampleGroupsAreTagArrays(c, g);
    ExampleGroupsCoverTags(c, g);
    assert Less(g[0][0], g[1][0]);
  }

  lemma ExampleGroupsAreTagArrays(c: Catalogue, g: seq<seq<JsString>>)
    requires CreateTagArray(X, c) == [X, A, B] && CreateTagArray(Y, c) == [Y, B]
    requires g == [[X, A, B], [Y, B]]
    ensures forall i :: 0 <= i < |g| ==> |g[i]| >= 1 && g[i] == CreateTagArray(g[i][0], c)
  {
    assert g[0][0] == X && g[1][0] == Y;
  }

  lemma ExampleGroupsCoverTags(c: Catalogue, g: seq<seq<JsString>>)
    requires forall t :: Occurs(c, t) <==> t == X || t == Y
    requires g == [[X, A, B], [Y, B]]
    ensures forall t :: Occurs(c, t) <==> exists i :: 0 <= i < |g| && g[i][0] == t
  {
    assert g[0][0] == X && g[1][0] == Y;
  }

  /** Two groups: "x" lists A then B, "y" lists B. */
  lemma ExampleGroups(c: Catalogue)
    requires c == Example()
    ensures GetProjectData(c) == [[X, A, B], [Y, B]]
  {
    ExampleTagArrayX(c);
    ExampleTagArrayY(c);
    forall t
      ensures Occurs(c, t) <==> t == X || t == Y
    {
      ExampleTags(c, t);
    }
    ExampleIsTagIndex(c, [[X, A, B], [Y, B]]);
    IsTagIndexUnique(c, [[X, A, B], [Y, B]]);
  }

  /** The menu read off the two expected groups. */
  lemma MenuOfExampleGroups(c: Catalogue)
    requires GetProjectData(c) == [[X, A, B], [Y, B]]
    ensures BuildMenu(c) == [MenuItem(X, 2, [A, B]), MenuItem(Y, 1, [B])]
  {
    assert [X, A, B][1..] == [A, B];
    assert [Y, B][1..] == [B];
  }

  /** The top-level menu reads "x(2)" and "y(1)", listing A and B under "x"
      and B under "y". */
  lemma ExampleMenu(c: Catalogue)
    requires c == Example()
    ensures BuildMenu(c) == [MenuItem(X, 2, [A, B]), MenuItem(Y, 1, [B])]
  {
    ExampleGroups(c);
    MenuOfExampleGroups(c);
  }

  /** Selecting "B" after load starts a transition titled "B" towards header
      "H2" and body "B2". */
  lemma ExampleFirstClick(c: Catalogue, menu: seq<MenuItem>)
    requires c == Example()
    ensures var o := Step(c, menu, Initial, SubMenuItemClicked(B));
            && o.effect == BeginTransition(B, [72, 50], [66, 50])
            && o.session.transitioning
            && o.session.selectedName == B
  {
    assert FirstNamed(c, B, 1);
    assert Named(c, B);
  }

  /** Three events in a row: each step starts from the session the previous
      one left, and the effects come out in order. */
  lemma RunThree(c: Catalogue, menu: seq<MenuItem>, s: Session, e1: Event, e2: Event, e3: Event)
    ensures var o1 := Step(c, menu, s, e1);
            var o2 := Step(c, menu, o1.session, e2);
            var o3 := Step(c, menu, o2.session, e3);
            Run(c, menu, s, [e1, e2, e3]) == (o3.session, [o1.effect, o2.effect, o3.effect])
  {
    var o1 := Step(c, menu, s, e1);
    var o2 := Step(c, menu, o1.session, e2);
    var o3 := Step(c, menu, o2.session, e3);
    var evs := [e1, e2, e3];
    assert evs[1..] == [e2, e3];
    assert evs[1..][1..] == [e3];
    assert [e3][1..] == [];
    assert Run(c, menu, o3.session, []) == (o3.session, []);
    assert [o3.effect] + [] == [o3.effect];
    assert Run(c, menu, o2.session, [e3]) == (o3.session, [o3.effect]);
    assert [o2.effect] + [o3.effect] == [o2.effect, o3.effect];
    assert Run(c, menu, o1.session, evs[1..]) == (o3.session, [o2.effect, o3.effect]);
    assert [o1.effect] + [o2.effect, o3.effect] == [o1.effect, o2.effect, o3.effect];
  }

  /** Selecting "B" again while its transition runs does nothing, and the end
      of the transition clears the flag and shows the overview link: one
      transition in all. */
  lemma ExampleSelection(c: Catalogue, menu: seq<MenuItem>)
    requires c == Example()
    ensures var (final, effects) := Run(c, menu, Initial,
                                        [SubMenuItemClicked(B), SubMenuItemClicked(B), TransitionFinished]);
            && effects == [BeginTransition(B, [72, 50], [66, 50]), NoEffect, ShowOverviewLink]
            && final.selectedName == B
            && !final.transitioning
  {
    RunThree(c, menu, Initial, SubMenuItemClicked(B), SubMenuItemClicked(B), TransitionFinished);
    ExampleFirstClick(c, menu);
    var o1 := Step(c, menu, Initial, SubMenuItemClicked(B));
    assert Step(c, menu, o1.session, SubMenuItemClicked(B)) == Outcome(o1.session, NoEffect);
  }
}
