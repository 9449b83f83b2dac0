/**
 The tag indexer: `getProjectData` and `createTagArray`. Tags are gathered
 in first-occurrence order with duplicates dropped by strict equality, sorted
 by code units, and each becomes a flat group `[tag, name, name, ...]` listing,
 in catalogue order, the projects that carry it.
 */
module TagIndex {
  import opened JsStrings
  import opened Seqs
  import opened Sorting
  import opened Catalogue

  /** Some project of the catalogue carries tag `t`. */
  ghost predicate Occurs(c: Catalogue, t: JsString)
  {
    exists j :: 0 <= j < |c| && t in c[j].tags
  }

  /** The inner loop of `getProjectData`: push each tag of `ts` that `acc` does not contain yet. */
  function AddNewTags(acc: seq<JsString>, ts: seq<JsString>): (r: seq<JsString>)
    ensures |acc| <= |r| && r[..|acc|] == acc
    ensures forall t :: t in r <==> t in acc || t in ts
    ensures Distinct(acc) ==> Distinct(r)
    decreases |ts|
  {
    if ts == [] then acc
    else
      var acc' := if Contains(acc, ts[0]) then acc else acc + [ts[0]];
      assert acc'[..|acc|] == acc;
      assert ts == [ts[0]] + ts[1..];
      var r := AddNewTags(acc', ts[1..]);
      assert r[..|acc|] == r[..|acc'|][..|acc|];
      r
  }

  /** Both loops of `getProjectData` up to the sort: every tag of every
      project, each once, in order of first occurrence. */
  function CollectTags(c: Catalogue): (tags: seq<JsString>)
    ensures Distinct(tags)
    ensures forall t :: t in tags <==> Occurs(c, t)
    decreases |c|
  {
    if c == [] then []
    else
      var n := |c| - 1;
      var r := AddNewTags(CollectTags(c[..n]), c[n].tags);
      OccursSplit(c);
      r
  }

  lemma OccursSplit(c: Catalogue)
    requires c != []
    ensures forall t :: Occurs(c, t) <==> Occurs(c[..|c| - 1], t) || t in c[|c| - 1].tags
  {
    var n := |c| - 1;
    forall t
      ensures Occurs(c, t) <==> Occurs(c[..n], t) || t in c[n].tags
    {
      if Occurs(c, t) {
        var j :| 0 <= j < |c| && t in c[j].tags;
        if j < n {
          assert c[..n][j] == c[j];
        }
      }
      if Occurs(c[..n], t) {
        var j :| 0 <= j < n && t in c[..n][j].tags;
        assert c[..n][j] == c[j];
      }
    }
  }

  /** The positions of the projects carrying `tag`, in catalogue order: the
      reference against which each group is checked. */
  function TaggedIndices(tag: JsString, c: Catalogue): (idx: seq<nat>)
    ensures Increasing(idx)
    ensures forall k :: 0 <= k < |idx| ==> idx[k] < |c|
    ensures forall j :: 0 <= j < |c| ==> (tag in c[j].tags <==> j in idx)
    decreases |c|
  {
    if c == [] then []
    else
      var n := |c| - 1;
      var prev := TaggedIndices(tag, c[..n]);
      assert forall j :: 0 <= j < n ==> c[..n][j] == c[j];
      prev + if tag in c[n].tags then [n] else []
  }

  /** `createTagArray(tag, projects)`: the tag followed by the name of every
      project whose tags contain it. */
  function CreateTagArray(tag: JsString, c: Catalogue): (r: seq<JsString>)
    ensures |r| == 1 + |TaggedIndices(tag, c)|
    ensures r[0] == tag
    ensures forall k :: 0 <= k < |TaggedIndices(tag, c)| ==> r[k + 1] == c[TaggedIndices(tag, c)[k]].name
    decreases |c|
  {
    if c == [] then [tag]
    else
      var n := |c| - 1;
      var prev := CreateTagArray(tag, c[..n]);
      assert TaggedIndices(tag, c) == TaggedIndices(tag, c[..n]) + if tag in c[n].tags then [n] else [];
      assert forall j :: 0 <= j < n ==> c[..n][j] == c[j];
      prev + if Contains(c[n].tags, tag) then [c[n].name] else []
  }

  /** What the menu is built from: one group per tag occurring in the
      catalogue, in strictly ascending code-unit order of the tags, each
      group being the tag array of its tag. */
  ghost predicate IsTagIndex(c: Catalogue, groups: seq<seq<JsString>>)
  {
    && (forall i :: 0 <= i < |groups| ==> |groups[i]| >= 1 && groups[i] == CreateTagArray(groups[i][0], c))
    && (forall i, j :: 0 <= i < j < |groups| ==> Less(groups[i][0], groups[j][0]))
    && (forall t :: Occurs(c, t) <==> exists i :: 0 <= i < |groups| && groups[i][0] == t)
  }

  /** `getProjectData()`: collect the tags, sort them, build one tag array per tag. */
  function GetProjectData(c: Catalogue): (groups: seq<seq<JsString>>)
    ensures IsTagIndex(c, groups)
  {
    var tags := Sort(CollectTags(c));
    SortedTagsInUse(c, tags);
    TagArraysFormIndex(c, tags);
    seq(|tags|, i requires 0 <= i < |tags| => CreateTagArray(tags[i], c))
  }

  lemma SortedTagsInUse(c: Catalogue, tags: seq<JsString>)
    requires tags == Sort(CollectTags(c))
    ensures StrictlySorted(tags)
    ensures forall t :: t in tags <==> Occurs(c, t)
  {
    forall t
      ensures t in tags <==> t in CollectTags(c)
    {
      assert t in tags <==> t in multiset(tags);
    }
  }

  /** One tag array per tag, for strictly sorted tags that are exactly the
      tags in use, is a tag index. */
  lemma TagArraysFormIndex(c: Catalogue, tags: seq<JsString>)
    requires StrictlySorted(tags)
    requires forall t :: t in tags <==> Occurs(c, t)
    ensures IsTagIndex(c, seq(|tags|, i requires 0 <= i < |tags| => CreateTagArray(tags[i], c)))
  {
    var groups := seq(|tags|, i requires 0 <= i < |tags| => CreateTagArray(tags[i], c));
    assert forall i :: 0 <= i < |groups| ==> groups[i][0] == tags[i];
    forall t
      ensures Occurs(c, t) <==> exists i :: 0 <= i < |groups| && groups[i][0] == t
    {
      if Occurs(c, t) {
        var i :| 0 <= i < |tags| && tags[i] == t;
        assert groups[i][0] == t;
      }
    }
  }

  /** Group `i` is the tag array of a tag in use. */
  lemma GroupOfProjectData(c: Catalogue, i: nat)
    requires i < |GetProjectData(c)|
    ensures |GetProjectData(c)[i]| >= 1
    ensures Occurs(c, GetProjectData(c)[i][0])
    ensures GetProjectData(c)[i] == CreateTagArray(GetProjectData(c)[i][0], c)
  {
  }

  /** The tags heading the groups, in group order. */
  function Heads(groups: seq<seq<JsString>>): (h: seq<JsString>)
    requires forall i :: 0 <= i < |groups| ==> |groups[i]| >= 1
    ensures |h| == |groups|
  {
    seq(|groups|, i requires 0 <= i < |groups| => groups[i][0])
  }

  lemma HeadsOfTagIndex(c: Catalogue, groups: seq<seq<JsString>>)
    requires IsTagIndex(c, groups)
    ensures StrictlySorted(Heads(groups))
    ensures forall t :: t in Heads(groups) <==> Occurs(c, t)
  {
    var h := Heads(groups);
    assert forall i :: 0 <= i < |h| ==> h[i] == groups[i][0];
    forall t
      ensures t in h <==> Occurs(c, t)
    {
      if t in h {
        var i :| 0 <= i < |h| && h[i] == t;
        assert groups[i][0] == t;
      }
      if Occurs(c, t) {
        var i :| 0 <= i < |groups| && groups[i][0] == t;
        assert h[i] == t;
      }
    }
  }

  /** The properties of IsTagIndex pin the result down: whatever satisfies
      them is exactly what `getProjectData` returns. */
  lemma IsTagIndexUnique(c: Catalogue, groups: seq<seq<JsString>>)
    requires IsTagIndex(c, groups)
    ensures groups == GetProjectData(c)
  {
    var other := GetProjectData(c);
    HeadsOfTagIndex(c, groups);
    HeadsOfTagIndex(c, other);
    StrictlySortedUnique(Heads(groups), Heads(other));
    forall i | 0 <= i < |groups|
      ensures groups[i] == other[i]
    {
      assert Heads(groups)[i] == Heads(other)[i];
    }
  }

  /** Each tag in use heads exactly one group. */
  lemma OneGroupPerTag(c: Catalogue, t: JsString)
    requires Occurs(c, t)
    ensures exists i :: 0 <= i < |GetProjectData(c)| && GetProjectData(c)[i][0] == t
    ensures forall i, j ::
              (0 <= i < |GetProjectData(c)| && 0 <= j < |GetProjectData(c)|
               && GetProjectData(c)[i][0] == t && GetProjectData(c)[j][0] == t) ==> i == j
  {
    var g := GetProjectData(c);
    forall i, j | 0 <= i < |g| && 0 <= j < |g| && g[i][0] == t && g[j][0] == t
      ensures i == j
    {
      if i < j || j < i {
        LessIrreflexive(t);
      }
    }
  }

  /** A project without tags is listed in no group. */
  lemma UntaggedProjectInNoGroup(c: Catalogue, j: nat)
    requires j < |c| && c[j].tags == []
    ensures forall i :: 0 <= i < |GetProjectData(c)| ==> j !in TaggedIndices(GetProjectData(c)[i][0], c)
  {
  }
}
