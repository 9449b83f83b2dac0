/**
 `Array.prototype.sort` with no comparator on an array of strings. The engine's
 algorithm is not fixed by the language; the model sorts by insertion and
 proves that, on distinct strings, every strictly sorted arrangement of the
 same elements is this one, so the choice of algorithm cannot be observed.
 */
module Sorting {
  import opened JsStrings
  import opened Seqs

  predicate Sorted(s: seq<JsString>)
  {
    forall i, j :: 0 <= i < j < |s| ==> LessEq(s[i], s[j])
  }

  predicate StrictlySorted(s: seq<JsString>)
  {
    forall i, j :: 0 <= i < j < |s| ==> Less(s[i], s[j])
  }

  /** Places `x` in front of the first element it does not come after. */
  function Insert(x: JsString, s: seq<JsString>): (r: seq<JsString>)
    ensures multiset(r) == multiset(s) + multiset{x}
    ensures Sorted(s) ==> Sorted(r)
    ensures StrictlySorted(s) && x !in s ==> StrictlySorted(r)
    decreases |s|
  {
    if s == [] then [x]
    else if LessEq(x, s[0]) then
      InsertFront(x, s);
      [x] + s
    else
      var rest := Insert(x, s[1..]);
      InsertStep(x, s, rest);
      [s[0]] + rest
  }

  /** The proof of the case of Insert that stops at the front. */
  lemma InsertFront(x: JsString, s: seq<JsString>)
    requires s != [] && LessEq(x, s[0])
    ensures Sorted(s) ==> Sorted([x] + s)
    ensures StrictlySorted(s) && x !in s ==> StrictlySorted([x] + s)
  {
    var r := [x] + s;
    if Sorted(s) {
      forall j | 1 <= j < |r|
        ensures LessEq(x, r[j])
      {
        LessEqTransitive(x, s[0], s[j - 1]);
      }
    }
    if StrictlySorted(s) && x !in s {
      forall j | 1 <= j < |r|
        ensures Less(x, r[j])
      {
        if j > 1 {
          LessTransitive(x, s[0], s[j - 1]);
        }
      }
    }
  }

  /** Everything the recursive call of Insert returns is `x` or comes from `s[1..]`,
      so it does not precede `s[0]`. */
  lemma HeadBeforeRest(x: JsString, s: seq<JsString>, rest: seq<JsString>)
    requires s != [] && !LessEq(x, s[0])
    requires multiset(rest) == multiset(s[1..]) + multiset{x}
    ensures Sorted(s) ==> forall k :: 0 <= k < |rest| ==> LessEq(s[0], rest[k])
    ensures StrictlySorted(s) ==> forall k :: 0 <= k < |rest| ==> Less(s[0], rest[k])
  {
    LessTotal(x, s[0]);
    forall k | 0 <= k < |rest|
      ensures Sorted(s) ==> LessEq(s[0], rest[k])
      ensures StrictlySorted(s) ==> Less(s[0], rest[k])
    {
      assert rest[k] in multiset(rest);
      if rest[k] != x {
        assert rest[k] in multiset(s[1..]);
        var m :| 0 <= m < |s[1..]| && s[1..][m] == rest[k];
        assert s[m + 1] == rest[k];
      }
    }
  }

  /** The proof of the recursive case of Insert. */
  lemma InsertStep(x: JsString, s: seq<JsString>, rest: seq<JsString>)
    requires s != [] && !LessEq(x, s[0])
    requires multiset(rest) == multiset(s[1..]) + multiset{x}
    requires Sorted(s[1..]) ==> Sorted(rest)
    requires StrictlySorted(s[1..]) && x !in s[1..] ==> StrictlySorted(rest)
    ensures multiset([s[0]] + rest) == multiset(s) + multiset{x}
    ensures Sorted(s) ==> Sorted([s[0]] + rest)
    ensures StrictlySorted(s) && x !in s ==> StrictlySorted([s[0]] + rest)
  {
    assert s == [s[0]] + s[1..];
    HeadBeforeRest(x, s, rest);
    var r := [s[0]] + rest;
    if Sorted(s) {
      assert Sorted(s[1..]);
      forall i, j | 0 <= i < j < |r|
        ensures LessEq(r[i], r[j])
      {
        if i > 0 {
          assert r[i] == rest[i - 1];
        }
      }
    }
    if StrictlySorted(s) && x !in s {
      assert StrictlySorted(s[1..]);
      forall i, j | 0 <= i < j < |r|
        ensures Less(r[i], r[j])
      {
        if i > 0 {
          assert r[i] == rest[i - 1];
        }
      }
    }
  }

  /** Insertion sort, processing the array from its last element back. */
  function Sort(s: seq<JsString>): (r: seq<JsString>)
    ensures multiset(r) == multiset(s)
    ensures Sorted(r)
    ensures Distinct(s) ==> StrictlySorted(r)
    decreases |s|
  {
    if s == [] then []
    else
      var rest := Sort(s[1..]);
      assert s == [s[0]] + s[1..];
      assert Distinct(s) ==> s[0] !in multiset(s[1..]);
      assert s[0] !in multiset(s[1..]) ==> s[0] !in rest;
      Insert(s[0], rest)
  }

  /** Two strictly sorted arrays holding the same strings are equal. */
  lemma {:induction false} StrictlySortedUnique(a: seq<JsString>, b: seq<JsString>)
    requires StrictlySorted(a) && StrictlySorted(b)
    requires forall t :: t in a <==> t in b
    ensures a == b
    decreases |a|
  {
    if a != [] {
      assert a[0] in b;
    }
    if b != [] {
      assert b[0] in a;
    }
    if a != [] && b != [] {
      if a[0] != b[0] {
        // a[0] occurs in b after b[0], and b[0] occurs in a after a[0].
        assert a[0] in b;
        assert b[0] in a;
        var i :| 0 <= i < |a| && a[i] == b[0];
        var j :| 0 <= j < |b| && b[j] == a[0];
        assert Less(a[0], b[0]);
        assert Less(b[0], a[0]);
        LessAsymmetric(a[0], b[0]);
        assert false;
      }
      forall t
        ensures t in a[1..] <==> t in b[1..]
      {
        if t in a[1..] {
          var i :| 1 <= i < |a| && a[i] == t;
          assert Less(a[0], a[i]);
          LessIrreflexive(t);
          assert t in b;
          var j :| 0 <= j < |b| && b[j] == t;
          assert j != 0;
          assert b[1..][j - 1] == t;
        }
        if t in b[1..] {
          var j :| 1 <= j < |b| && b[j] == t;
          assert Less(b[0], b[j]);
          LessIrreflexive(t);
          assert t in a;
          var i :| 0 <= i < |a| && a[i] == t;
          assert i != 0;
          assert a[1..][i - 1] == t;
        }
      }
      StrictlySortedUnique(a[1..], b[1..]);
      assert a == [a[0]] + a[1..];
      assert b == [b[0]] + b[1..];
    }
  }

  /** On distinct strings the sorted result does not depend on the algorithm:
      any strictly sorted arrangement of the input is the one Sort returns. */
  lemma SortIsAlgorithmIndependent(s: seq<JsString>, r: seq<JsString>)
    requires Distinct(s)
    requires StrictlySorted(r)
    requires multiset(r) == multiset(s)
    ensures r == Sort(s)
  {
    var q := Sort(s);
    forall t
      ensures t in r <==> t in q
    {
      assert t in r <==> t in multiset(r);
      assert t in q <==> t in multiset(q);
    }
    StrictlySortedUnique(r, q);
  }
}
