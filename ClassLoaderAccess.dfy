/**
 * ClassLoaderAccess: the two URL collections of a class loader's search path,
 * reached into so that jars can be added and taken out again at run time.
 * `unopened` is the queue of URLs not yet opened, `path` the list of every
 * URL on the path; both keep insertion order.
 */
module ClassLoaderAccess {
  import opened Wrappers

  /** A URL, compared by its text. */
  type Url = string

  /** The RuntimeException "URL ... already exists in the path". */
  datatype PortError = AlreadyPresent(url: Url)

  /** Collection.indexOf: the first position holding `u`, or -1. */
  function FirstIndex(s: seq<Url>, u: Url): (r: int)
    ensures -1 <= r < |s|
    ensures r >= 0 ==> s[r] == u && u !in s[..r]
    ensures r < 0 <==> u !in s
  {
    if s == [] then -1
    else if s[0] == u then 0
    else
      var k := FirstIndex(s[1..], u);
      assert s[1..][..if k < 0 then 0 else k] == s[1..if k < 0 then 1 else k + 1];
      if k < 0 then -1 else k + 1
  }

  /** Collection.remove(Object): drop the first occurrence of `u`, if there is one. */
  function RemoveFirst(s: seq<Url>, u: Url): seq<Url>
  {
    var i := FirstIndex(s, u);
    if i < 0 then s else s[..i] + s[i + 1..]
  }

  /** No URL occurs twice. */
  predicate Distinct(s: seq<Url>)
  {
    forall i, j :: 0 <= i < j < |s| ==> s[i] != s[j]
  }

  /** remove takes out exactly one copy of `u` when there is one, and nothing otherwise. */
  lemma RemoveFirstCount(s: seq<Url>, u: Url)
    ensures multiset(RemoveFirst(s, u)) == multiset(s) - multiset{u}
    ensures u !in s ==> RemoveFirst(s, u) == s
  {
    var i := FirstIndex(s, u);
    if i >= 0 {
      assert s == s[..i] + [u] + s[i + 1..];
      assert multiset(s) == multiset(s[..i]) + multiset{u} + multiset(s[i + 1..]);
    } else {
      assert multiset(s)[u] == 0;
    }
  }

  /** remove never adds a URL, and keeps every URL other than the one removed. */
  lemma RemoveFirstMembers(s: seq<Url>, u: Url, v: Url)
    ensures v in RemoveFirst(s, u) ==> v in s
    ensures v != u ==> (v in RemoveFirst(s, u) <==> v in s)
  {
    RemoveFirstCount(s, u);
    assert v in RemoveFirst(s, u) <==> multiset(RemoveFirst(s, u))[v] > 0;
    assert v in s <==> multiset(s)[v] > 0;
  }

  /** Removing what was just appended to a list that lacked it gives the list back. */
  lemma RemoveFirstUndoesAppend(s: seq<Url>, u: Url)
    requires u !in s
    ensures RemoveFirst(s + [u], u) == s
  {
    var i := FirstIndex(s + [u], u);
    assert (s + [u])[|s|] == u;
    assert forall k :: 0 <= k < |s| ==> (s + [u])[k] == s[k] != u;
    assert (s + [u])[..|s|] == s;
  }

  /** Appending a URL a list lacks keeps the list free of repeats. */
  lemma DistinctAppend(s: seq<Url>, u: Url)
    requires Distinct(s) && u !in s
    ensures Distinct(s + [u])
  {
    forall i, j | 0 <= i < j < |s + [u]| ensures (s + [u])[i] != (s + [u])[j] {
      if j == |s| {
        assert (s + [u])[i] == s[i];
      }
    }
  }

  /** Removing from a list without repeats keeps it so and leaves no copy of the URL. */
  lemma DistinctRemoveFirst(s: seq<Url>, u: Url)
    requires Distinct(s)
    ensures Distinct(RemoveFirst(s, u))
    ensures u !in RemoveFirst(s, u)
  {
    var i := FirstIndex(s, u);
    if i >= 0 {
      var r := s[..i] + s[i + 1..];
      forall a, b | 0 <= a < b < |r| ensures r[a] != r[b] {
        var a' := if a < i then a else a + 1;
        var b' := if b < i then b else b + 1;
        assert r[a] == s[a'] && r[b] == s[b'];
      }
      forall a | 0 <= a < |r| ensures r[a] != u {
        var a' := if a < i then a else a + 1;
        assert r[a] == s[a'] && s[i] == u;
      }
    }
  }

  /** The first i + 1 elements are the first i and then one more. */
  lemma TakeOneMore<T>(s: seq<T>, i: nat)
    requires i < |s|
    ensures s[..i + 1] == s[..i] + [s[i]]
  {
  }

  /** remove called with each URL of `us` in turn. */
  function RemoveEach(s: seq<Url>, us: seq<Url>): seq<Url>
    decreases |us|
  {
    if us == [] then s else RemoveEach(RemoveFirst(s, us[0]), us[1..])
  }

  /** One more URL at the end of the list is one more remove after the others. */
  lemma {:induction false} RemoveEachSnoc(s: seq<Url>, us: seq<Url>, u: Url)
    ensures RemoveEach(s, us + [u]) == RemoveFirst(RemoveEach(s, us), u)
    decreases |us|
  {
    if us != [] {
      assert (us + [u])[0] == us[0] && (us + [u])[1..] == us[1..] + [u];
      RemoveEachSnoc(RemoveFirst(s, us[0]), us[1..], u);
    }
  }

  /** The port onto a class loader's search path. */
  class Port {
    var unopened: seq<Url>
    var path: seq<Url>

    /** The two collections as they were found in the class loader. */
    constructor (unopened0: seq<Url>, path0: seq<Url>)
      ensures unopened == unopened0 && path == path0
    {
      unopened := unopened0;
      path := path0;
    }

    /** Neither collection holds a URL twice. */
    predicate Valid()
      reads this
    {
      Distinct(unopened) && Distinct(path)
    }

    /** contains(url): the unopened queue is asked first, then the path. */
    predicate Contains(u: Url)
      reads this
      ensures Contains(u) <==> u in unopened || u in path
    {
      if FirstIndex(unopened, u) >= 0 then true else FirstIndex(path, u) >= 0
    }

    /**
     * add(url): refused, with nothing changed, when either collection already
     * has the URL; otherwise appended to both.
     */
    method Add(u: Url) returns (outcome: Outcome<PortError>)
      modifies this
      ensures old(Contains(u)) ==> outcome == Fail(AlreadyPresent(u)) && unopened == old(unopened) && path == old(path)
      ensures !old(Contains(u)) ==> outcome == Pass && unopened == old(unopened) + [u] && path == old(path) + [u]
      ensures Contains(u)
      ensures old(Valid()) ==> Valid()
    {
      if Contains(u) {
        return Fail(AlreadyPresent(u));
      }
      unopened := unopened + [u];
      path := path + [u];
      DistinctAppendBoth(old(unopened), old(path), u);
      return Pass;
    }

    /** remove(url): the first copy leaves each collection; an absent URL changes nothing. */
    method Remove(u: Url)
      modifies this
      ensures unopened == RemoveFirst(old(unopened), u) && path == RemoveFirst(old(path), u)
      ensures !old(Contains(u)) ==> unopened == old(unopened) && path == old(path)
      ensures old(Valid()) ==> Valid() && !Contains(u)
    {
      RemoveFirstCount(unopened, u);
      RemoveFirstCount(path, u);
      if Valid() {
        DistinctRemoveFirst(unopened, u);
        DistinctRemoveFirst(path, u);
      }
      unopened := RemoveFirst(unopened, u);
      path := RemoveFirst(path, u);
    }
  }

  lemma DistinctAppendBoth(s: seq<Url>, t: seq<Url>, u: Url)
    requires u !in s && u !in t
    ensures Distinct(s) ==> Distinct(s + [u])
    ensures Distinct(t) ==> Distinct(t + [u])
  {
    if Distinct(s) {
      DistinctAppend(s, u);
    }
    if Distinct(t) {
      DistinctAppend(t, u);
    }
  }

  /** Adding a URL the port lacks and removing it again restores both collections. */
  method AddThenRemove(p: Port, u: Url)
    requires !p.Contains(u)
    modifies p
    ensures p.unopened == old(p.unopened) && p.path == old(p.path)
  {
    var outcome := p.Add(u);
    p.Remove(u);
    RemoveFirstUndoesAppend(old(p.unopened), u);
    RemoveFirstUndoesAppend(old(p.path), u);
  }
}
