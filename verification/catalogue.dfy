/**
 The project catalogue of the portfolio viewer (the `projects` array of the
 JSON payload) and the two linear scans over it that the script performs:
 `contains` over a string array and `search` by project name.
 */
module Catalogue {
  import opened JsStrings

  /** One entry of the `projects` array; `header` and `body` are markup strings. */
  datatype Project = Project(name: JsString, tags: seq<JsString>, header: JsString, body: JsString)

  /** The catalogue in the order the server sent it. */
  type Catalogue = seq<Project>

  /** The markup `search` hands back: the header first, then the body. */
  datatype Content = Content(header: JsString, body: JsString)

  /** What `search` returns: `null`, or the content of the project found. */
  datatype SearchResult = Null | Found(content: Content)

  /** `contains(list, object)` from index `i` on: the loop returns at the first
      element strictly equal to `x`. */
  function ContainsFrom(list: seq<JsString>, x: JsString, i: nat): (found: bool)
    requires i <= |list|
    ensures found <==> exists k :: i <= k < |list| && list[k] == x
    decreases |list| - i
  {
    if i == |list| then false
    else if list[i] == x then true
    else ContainsFrom(list, x, i + 1)
  }

  /** `contains(list, object)`: strict-equality membership. */
  function Contains(list: seq<JsString>, x: JsString): (found: bool)
    ensures found <==> x in list
  {
    ContainsFrom(list, x, 0)
  }

  /** Project `k` is the first one, from index `e` on, whose name is `name`. */
  ghost predicate FirstNamedFrom(c: Catalogue, name: JsString, e: nat, k: nat)
  {
    && e <= k < |c|
    && c[k].name == name
    && forall j :: e <= j < k ==> c[j].name != name
  }

  ghost predicate FirstNamed(c: Catalogue, name: JsString, k: nat)
  {
    FirstNamedFrom(c, name, 0, k)
  }

  /** Some project of the catalogue carries this name. */
  ghost predicate Named(c: Catalogue, name: JsString)
  {
    exists k :: 0 <= k < |c| && c[k].name == name
  }

  /** The loop of `search(name)` from index `e` on. */
  function SearchFrom(c: Catalogue, name: JsString, e: nat): (r: SearchResult)
    requires e <= |c|
    ensures r.Null? <==> forall k :: e <= k < |c| ==> c[k].name != name
    ensures forall k: nat :: FirstNamedFrom(c, name, e, k) ==> r == Found(Content(c[k].header, c[k].body))
    decreases |c| - e
  {
    if e == |c| then Null
    else if c[e].name == name then
      FirstNamedHere(c, name, e);
      Found(Content(c[e].header, c[e].body))
    else
      FirstNamedLater(c, name, e);
      SearchFrom(c, name, e + 1)
  }

  /** A match at `e` is the first one from `e` on. */
  lemma FirstNamedHere(c: Catalogue, name: JsString, e: nat)
    requires e < |c| && c[e].name == name
    ensures forall k: nat :: FirstNamedFrom(c, name, e, k) ==> k == e
  {
  }

  /** Without a match at `e`, the first match from `e` on is the first from `e + 1` on. */
  lemma FirstNamedLater(c: Catalogue, name: JsString, e: nat)
    requires e < |c| && c[e].name != name
    ensures forall k: nat :: FirstNamedFrom(c, name, e, k) ==> FirstNamedFrom(c, name, e + 1, k)
  {
  }

  /** `search(name)`: the header and body of the first project called `name`,
      or `null` when no project is. */
  function Search(c: Catalogue, name: JsString): (r: SearchResult)
    ensures r.Null? <==> !Named(c, name)
    ensures forall k: nat :: FirstNamed(c, name, k) ==> r == Found(Content(c[k].header, c[k].body))
  {
    SearchFrom(c, name, 0)
  }

  /** Whenever some project carries the name, a first one does, so Search's
      answer is the content of a definite project. */
  lemma {:induction false} FirstNamedExists(c: Catalogue, name: JsString, k: nat)
    requires k < |c| && c[k].name == name
    ensures exists m: nat :: m <= k && FirstNamed(c, name, m)
    decreases k
  {
    if forall j :: 0 <= j < k ==> c[j].name != name {
      assert FirstNamed(c, name, k);
    } else {
      var j :| 0 <= j < k && c[j].name == name;
      FirstNamedExists(c, name, j);
    }
  }
}
