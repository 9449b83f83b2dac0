# Slideshow menu: tag indexer and selection controller

A Dafny model of the pure logic in `javascript/portfolio.js`, the script behind a
portfolio slideshow page. The script loads a catalogue of projects, each with a name, tags,
header markup and body markup. From it the script builds a menu with one entry per tag,
each entry listing the projects that carry the tag. Clicking a project name in the menu
highlights it and starts an animated swap of the displayed project.

The model covers two parts.

- **Tag indexer and menu** (`tag_index.dfy`, `menu.dfy`, with `js_strings.dfy`,
  `sorting.dfy`, `catalogue.dfy`, `seqs.dfy`). `getProjectData` collects each tag once,
  dropping duplicates with strict equality. It sorts the tags with the default
  `Array.prototype.sort` and builds one flat group `[tag, name, name, ...]` per tag with
  `createTagArray`. `buildMenu` shows `group.length - 1` as the count and
  `group[1..]` as the sub-entries. `search` returns the header and body of the first
  project with a given name, or `null`. `getAllSubItems` finds every sub-entry with a given
  label.
- **Selection controller** (`selection.dfy`). The globals `selectedName`,
  `transitioning` and `selectedElements`, plus the `active` class and the inline
  `display` of menu elements, form one immutable `Session`. `subMenuItemClick`,
  `menuItemClick` and the end of a transition are pure functions from a session to the
  next session plus one visible `Effect`: a transition starting, the "does not exist"
  alert, or the overview link appearing.

`timing.dfy` models `getIntervalTime`. `scenarios.dfy` works through a two-project
catalogue: A tagged x, B tagged x and y. It checks the groups, the menu counts `x(2)` and
`y(1)`, and a click sequence.

Modelling choices:

- **Strings.** JavaScript strings are sequences of UTF-16 code units, so a string is
  modelled as `seq<CodeUnit>` with `CodeUnit` in `0 .. 0xFFFF`. This makes strict
  equality and the default sort order exact. Dafny's own `char` is a Unicode scalar
  value, which would order characters outside the Basic Multilingual Plane differently.
- **Sort order.** `Less` scans two strings from the front. It is proved equal to the
  string case of ECMAScript's abstract relational comparison: a proper prefix comes
  first, otherwise the first differing code unit decides. It is also proved to be a
  strict total order.
- **Sort algorithm.** The engine's sort algorithm is not fixed, so the model uses
  insertion sort. A lemma shows that on distinct tags only one strictly sorted arrangement
  exists, so the choice of algorithm cannot be observed.
- **Page elements.** A page element is named by its place in the menu: `TopItem(i)` or
  `SubItem(i, pos)`.
- **Clicks.** A click is identified by the text of the clicked entry.

A click whose lookup fails still replaces the highlight, because `subMenuItemClick` calls
`activateSubMenuItems` (line 278) before `search` (line 285). Only `selectedName` and
`transitioning` stay unchanged, and the "does not exist" alert is raised (line 298).
`SubMenuItemClick` states exactly that. `MenuClickNeverAlerts` shows that the miss cannot
happen for a click on an entry of the menu built from the same catalogue, for project
names whose rendered text is the name itself (see "Left out").

## Model

| member | source | states |
|---|---|---|
| `JsStrings.LessIsCodeUnitOrder` | javascript/portfolio.js:465 | the order `sort()` uses holds exactly when the first string is a proper prefix of the second, or is smaller at the first differing code unit |
| `JsStrings.LessTotal` | javascript/portfolio.js:465 | any two different strings are ordered one way or the other, so the sort order is total |
| `JsStrings.LessTransitive` | javascript/portfolio.js:465 | the string order is transitive |
| `JsStrings.LessAsymmetric` | javascript/portfolio.js:465 | no two strings each precede the other |
| `Sorting.Sort` | javascript/portfolio.js:465 | the sorted tags are a permutation of the input, in non-decreasing code-unit order, and strictly increasing when the input has no repeats |
| `Sorting.Insert` | javascript/portfolio.js:465 | inserting one string adds it to the multiset and keeps a sorted (or strictly sorted, if it is new) array sorted |
| `Sorting.StrictlySortedUnique` | javascript/portfolio.js:465 | two strictly sorted arrays with the same strings are equal |
| `Sorting.SortIsAlgorithmIndependent` | javascript/portfolio.js:465 | on distinct tags, any strictly sorted permutation is the one the model returns, whatever algorithm the engine uses |
| `Catalogue.ContainsFrom` | javascript/portfolio.js:507-510 | the loop of `contains` from index i answers true exactly when some later element is strictly equal to the object |
| `Catalogue.Contains` | javascript/portfolio.js:505-512 | `contains(list, object)` is true exactly when the object is a member of the list |
| `Catalogue.SearchFrom` | javascript/portfolio.js:522-524 | the search loop from index e finds nothing exactly when no later project has the name, and otherwise returns the first such project's header and body |
| `Catalogue.FirstNamedHere` | javascript/portfolio.js:522-524 | a project whose name matches at the current index is the first match from that index on |
| `Catalogue.FirstNamedLater` | javascript/portfolio.js:522-524 | when the current project does not match, the first match from here is the first match from the next index |
| `Catalogue.Search` | javascript/portfolio.js:520-527 | `search(name)` is `null` exactly when no project has the name, and otherwise is the header and body of the first project with it |
| `Catalogue.FirstNamedExists` | javascript/portfolio.js:522-524 | if any project has the name, a first one exists at or before it |
| `TagIndex.AddNewTags` | javascript/portfolio.js:456-462 | the inner loop keeps the tags collected so far as a prefix, adds exactly the tags of this project, and never creates a repeat |
| `TagIndex.CollectTags` | javascript/portfolio.js:450-463 | the collected tag list has no repeats and holds exactly the tags used by some project |
| `TagIndex.OccursSplit` | javascript/portfolio.js:450-463 | a tag is used in the catalogue exactly when it is used before the last project or by the last project |
| `TagIndex.TaggedIndices` | javascript/portfolio.js:490-494 | the positions of the projects carrying a tag, strictly increasing, each position listed exactly when its project's tags contain the tag |
| `TagIndex.CreateTagArray` | javascript/portfolio.js:486-497 | the tag array is the tag followed by the names of exactly the projects carrying it, in catalogue order, each once |
| `TagIndex.GetProjectData` | javascript/portfolio.js:445-477 | one group per tag in use, in strictly increasing code-unit order of the tags, each group the tag array of its tag |
| `TagIndex.SortedTagsInUse` | javascript/portfolio.js:450-465 | the sorted collected tags are strictly increasing and are exactly the tags in use |
| `TagIndex.TagArraysFormIndex` | javascript/portfolio.js:464-469 | one tag array per tag, built from strictly sorted tags that are exactly the tags in use, satisfies every property of a tag index |
| `TagIndex.GroupOfProjectData` | javascript/portfolio.js:467-469 | group i is non-empty, its head is a tag in use, and it is that tag's tag array |
| `TagIndex.HeadsOfTagIndex` | javascript/portfolio.js:464-469 | the heads of a valid tag index are strictly sorted and are exactly the tags in use |
| `TagIndex.IsTagIndexUnique` | javascript/portfolio.js:445-477 | any group list with those properties is exactly what `getProjectData` returns |
| `TagIndex.OneGroupPerTag` | javascript/portfolio.js:450-469 | each tag in use heads one and only one group |
| `TagIndex.UntaggedProjectInNoGroup` | javascript/portfolio.js:490-494 | a project with an empty tag list is listed in no group |
| `Menu.ItemOf` | javascript/portfolio.js:383-399 | the entry is labelled with the group's head and its count equals the number of sub-entries listed under it |
| `Menu.ItemOfTagArray` | javascript/portfolio.js:383-385 | the entry for a tag in use shows the number of projects carrying it, at least one, and lists their names in catalogue order |
| `Menu.ItemsOfTagIndex` | javascript/portfolio.js:377-400 | the entries read off any tag index describe their tags, come in ascending tag order and cover exactly the tags in use |
| `Menu.BuildMenu` | javascript/portfolio.js:377-400 | one entry per tag in use, in ascending tag order; each count equals the number of member projects and the sub-entries are their names |
| `Menu.MenuCountIsProjectCount` | javascript/portfolio.js:383 | the count shown after a tag is the size of the set of projects whose tags contain it |
| `Menu.MenuLabelsAreFound` | javascript/portfolio.js:398-399 | every sub-entry label of the menu is found by `search` |
| `Menu.MatchesUnder` | javascript/portfolio.js:361-365 | the entries of one sub-menu labelled with the name, in document order, and no others |
| `Menu.GetAllSubItems` | javascript/portfolio.js:349-369 | exactly the sub-entries labelled with the name, in document order, each once |
| `Menu.DocumentOrderIsDistinct` | javascript/portfolio.js:349-369 | a list in document order has no repeated element |
| `Selection.ToggleDisplay` | javascript/portfolio.js:264 | the new display is always "block" or "none", and it is "none" exactly when the old one was "block" |
| `Selection.ToggleDisplayTwice` | javascript/portfolio.js:264 | toggling a shown or hidden container twice restores it |
| `Selection.ActivateMenuItem` | javascript/portfolio.js:328-342 | the element's highlight flips and no other element's highlight changes; a newly highlighted sub-entry is appended to the selected elements |
| `Selection.ActivateEach` | javascript/portfolio.js:318-319 | elements outside the list keep their highlight, and the selected name, the transition flag and the displays are untouched |
| `Selection.ActivateEachDistinct` | javascript/portfolio.js:318-342 | on distinct entries each listed entry flips its highlight: one already highlighted is switched off and not recorded, any other is switched on and recorded; when none was highlighted, all are appended in order |
| `Selection.ActivateSubMenuItems` | javascript/portfolio.js:307-320 | previously selected entries not in the new list lose their highlight and other elements keep theirs; for distinct new entries, each ends highlighted exactly when it was selected before or not highlighted, and the new selection holds exactly those; when no new entry is highlighted outside the old selection, the selection becomes exactly the new list, all highlighted |
| `Selection.SubMenuItemClick` | javascript/portfolio.js:271-300 | the same name or a running transition changes nothing; otherwise the highlight becomes exactly the entries with that label; a found project starts a transition to its first match's content and becomes selected; a missing one raises the alert and leaves name and flag unchanged |
| `Selection.MenuItemClick` | javascript/portfolio.js:257-265 | only the top-level entry's highlight flips and only its container's display toggles; the selection is untouched |
| `Selection.FinishTransition` | javascript/portfolio.js:145-153 | the end of the animation clears the flag, changes nothing else and shows the overview link |
| `Selection.InitialIsValid` | javascript/portfolio.js:19-26 | the page-load globals satisfy the controller invariant |
| `Selection.StepPreservesValid` | javascript/portfolio.js:271-300 | every click and every transition end keeps the invariant: highlights are tracked, and a running transition or a non-empty selected name refers to a catalogue project |
| `Selection.NoNewTransitionUntilFinished` | javascript/portfolio.js:273-275 | from a running transition, any events before its end start no transition, raise nothing and leave the name, the flag and the selection unchanged |
| `Selection.MenuClickNeverAlerts` | javascript/portfolio.js:285-298 | a click on any sub-entry of a menu entry that describes its tag, as every entry `BuildMenu` produces does, never raises the "does not exist" alert |
| `Timing.GetIntervalTime` | javascript/portfolio.js:223-236 | the tick is 50 ms exactly on mobile devices, 35 ms exactly on desktop Firefox, and 10 ms exactly on other desktop browsers |
| `Scenarios.ExampleGroups` | javascript/portfolio.js:445-477 | the catalogue A{x}, B{x,y} yields the groups x: A, B and y: B |
| `Scenarios.ExampleMenu` | javascript/portfolio.js:377-400 | that catalogue's menu shows x(2) listing A and B, and y(1) listing B |
| `Scenarios.ExampleFirstClick` | javascript/portfolio.js:285-294 | selecting B after load starts a transition titled B with header H2 and body B2 |
| `Scenarios.ExampleSelection` | javascript/portfolio.js:271-300 | selecting B, selecting B again mid-transition, then finishing gives exactly one transition, then nothing, then the overview link |

## Left out

- The catalogue request is left out (lines 535-567): the XHR, the JSON parsing and the two alert paths are network I/O and a foreign parser. So is the load listener at line 31, which calls `requestPortfolioJSON` at once instead of passing it. The catalogue is an input.
- A payload of the wrong shape is not modelled, for example a project with no `tags` array. The script throws and the loader alerts; every project here has all four fields.
- The fade-out, roll-out and unfade animations are left out (lines 47-209). They are timer-driven and use floating-point opacity and width arithmetic. Their start is the `BeginTransition` effect, which sets the flag as at line 50. Their end is the `TransitionFinished` event, which clears the flag as at lines 150 and 203. The choice between the mobile and desktop animation, and the width limits of 1060, are not modelled.
- `isMobileDevice` (lines 575-592) and the Firefox test at line 231 depend on the user-agent string and browser globals. They are the boolean inputs of `Timing.GetIntervalTime`.
- The markup of `createItem`, `createSubItem` and `injectData` is not modelled (lines 407-433). The menu is modelled as the labels, counts and sub-entry lists it displays. `buildMenu` appends to the page, so calling it twice would list every entry twice; only the single call the script makes is modelled.
- A sub-entry's text is taken to be the project name as given. The script compares `element.innerText` (lines 275, 285 and 363), which is the rendered text: the name is inserted as markup, so tags and entities read differently, and rendering collapses runs of white space, trims it at line edges and applies any CSS `text-transform`. A project named `A  B` (two spaces) would be looked up as `A B` and raise the alert. The model, and so `Selection.MenuClickNeverAlerts`, covers only names whose rendered text is the name itself.
- The DOM layout that `getAllSubItems` walks (children from index 2, line 356) is replaced by the menu structure it reflects. `displayShowcaseMsg` is the `ShowOverviewLink` effect.
- `menuItemClick` with an index that has no container throws in the script. The model accepts any index, because the script only generates indices of existing entries.
- TagIndex.CollectTags: states which tags are collected and that none repeats, not that they come in first-occurrence order, because the sort at line 465 erases that order.
- Selection.ActivateSubMenuItems: states the resulting highlight and selection only for a list of distinct entries. A repeated entry would be toggled twice. `getAllSubItems` only ever supplies distinct sub-entries (`Menu.DocumentOrderIsDistinct`).
- Selection.ActivateEachDistinct: likewise states the effect of the loop only for distinct entries, and states the order of the recorded entries only when none of them was highlighted before.
