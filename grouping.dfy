/**
  `unionContacts` end to end: index the strings, label the components, and
  collect the contact indices by label. The result is specified by
  `IsGrouping`, which determines it uniquely.
*/
module ContactGroups {
  import opened Contacts
  import opened ContactIndex
  import opened Labels
  import opened Labelling
  import opened Assembly

  /** `r` partitions the indices below `n`: the lists are non-empty and
      ascending, hold only indices below `n`, together hold all of them, share
      none, and are ordered by their first (smallest) index. */
  ghost predicate IsPartition(r: seq<seq<nat>>, n: nat) {
    && (forall a :: 0 <= a < |r| ==> r[a] != [] && StrictlyIncreasing(r[a]))
    && (forall a, x :: 0 <= a < |r| && x in r[a] ==> x < n)
    && (forall i :: 0 <= i < n ==> Listed(r, i))
    && (forall a, b, x :: 0 <= a < |r| && 0 <= b < |r| && x in r[a] && x in r[b] ==> a == b)
    && (forall a, b :: 0 <= a < b < |r| ==> r[a][0] < r[b][0])
  }

  /** `r` groups the contacts of `cs` by person: it partitions the contact
      indices, and each list holds exactly the contacts connected to any one
      of its members. */
  ghost predicate IsGrouping(cs: seq<Contact>, r: seq<seq<nat>>) {
    && IsPartition(r, |cs|)
    && (forall a, x, y :: 0 <= a < |r| && x in r[a] && 0 <= y < |cs| ==> (y in r[a] <==> Connected(cs, x, y)))
  }

  /** Contact `i` is in some list of `r`. */
  ghost predicate Listed(r: seq<seq<nat>>, i: int) {
    exists a :: 0 <= a < |r| && i in r[a]
  }

  /** Groups the contacts that share strings, directly or through other
      contacts: list `h` of the result holds the indices of one person's
      contacts in ascending order, and the lists are ordered by their
      smallest index. */
  method UnionContacts(contacts: seq<Contact>) returns (result: seq<seq<nat>>)
    ensures IsGrouping(contacts, result)
  {
    var index := BuildIndex(contacts);
    var groups := Label(contacts, index);
    result := Assemble(groups);
    GroupingFromLabels(contacts, groups[..], result);
  }

  /** What the assembly phase receives and returns, stated on values. */
  ghost predicate AssembledFrom(cs: seq<Contact>, gs: seq<int>, r: seq<seq<nat>>) {
    && Canonical(gs) && LabelsComponents(cs, gs)
    && |r| == Max(gs)
    && (forall h :: 0 <= h < |r| ==> r[h] == Members(gs, h + 1, |gs|))
    && (forall h :: 0 <= h < |r| ==> r[h] != [])
  }

  /** Lists whose first contacts ascend step by step ascend throughout. */
  lemma {:induction false} FirstsAscend(r: seq<seq<nat>>, a: nat, b: nat)
    requires forall h :: 0 <= h < |r| ==> r[h] != []
    requires forall h :: 0 <= h < |r| - 1 ==> r[h][0] < r[h + 1][0]
    requires a < b < |r|
    ensures r[a][0] < r[b][0]
  {
    if a < b - 1 {
      FirstsAscend(r, a, b - 1);
    }
  }

  /** The first contact labelled `h` comes before the first one labelled `h + 1`. */
  lemma NextFirstAscends(gs: seq<int>, prev: seq<nat>, next: seq<nat>, h: int)
    requires Canonical(gs) && 1 <= h
    requires prev == Members(gs, h, |gs|) && next == Members(gs, h + 1, |gs|) && next != []
    ensures prev != [] && prev[0] < next[0]
  {
    CanonicalFirstsAscend(gs, h);
  }

  /** Every contact is in the list of its label, and in no other. */
  lemma GroupingCovers(cs: seq<Contact>, gs: seq<int>, r: seq<seq<nat>>)
    requires AssembledFrom(cs, gs, r)
    ensures forall i :: 0 <= i < |cs| ==> Listed(r, i)
    ensures forall a, b, x :: 0 <= a < |r| && 0 <= b < |r| && x in r[a] && x in r[b] ==> a == b
  {
    forall i | 0 <= i < |cs|
      ensures Listed(r, i)
    {
      MaxWhole(gs);
      CanonicalAt(gs, i);
      var a := gs[i] - 1;
      assert i in r[a];
    }
  }

  /** A list holds exactly the contacts connected to any of its members. */
  lemma GroupingComponents(cs: seq<Contact>, gs: seq<int>, r: seq<seq<nat>>)
    requires AssembledFrom(cs, gs, r)
    ensures forall a, x, y :: 0 <= a < |r| && x in r[a] && 0 <= y < |cs| ==> (y in r[a] <==> Connected(cs, x, y))
  {
  }

  lemma GroupingFromLabels(cs: seq<Contact>, gs: seq<int>, r: seq<seq<nat>>)
    requires AssembledFrom(cs, gs, r)
    ensures IsGrouping(cs, r)
  {
    GroupingCovers(cs, gs, r);
    GroupingComponents(cs, gs, r);
    forall h | 0 <= h < |r| - 1
      ensures r[h][0] < r[h + 1][0]
    {
      NextFirstAscends(gs, r[h], r[h + 1], h + 1);
    }
    forall a, b | 0 <= a < b < |r|
      ensures r[a][0] < r[b][0]
    {
      FirstsAscend(r, a, b);
    }
  }

  /** Two ascending lists with the same elements are equal. */
  lemma {:induction false} AscendingUnique(xs: seq<nat>, ys: seq<nat>)
    requires StrictlyIncreasing(xs) && StrictlyIncreasing(ys)
    requires forall z :: z in xs <==> z in ys
    ensures xs == ys
  {
    assert xs != [] ==> xs[0] in xs;
    assert ys != [] ==> ys[0] in ys;
    if xs != [] {
      assert xs[0] == ys[0];
      var xs', ys' := xs[1..], ys[1..];
      forall z
        ensures z in xs' <==> z in ys'
      {
        if z in xs' {
          assert z in xs && z != ys[0];
        }
        if z in ys' {
          assert z in ys && z != xs[0];
        }
      }
      AscendingUnique(xs', ys');
      assert xs == [xs[0]] + xs' && ys == [ys[0]] + ys';
    }
  }

  /** Contact `x` has the smallest index among the contacts connected to it. */
  ghost predicate LeastInComponent(cs: seq<Contact>, x: int) {
    0 <= x < |cs| && forall y :: 0 <= y < |cs| && Connected(cs, x, y) ==> x <= y
  }

  /** The first contact of each list (0 for an empty list). */
  function Firsts(r: seq<seq<nat>>): (fs: seq<nat>)
    ensures |fs| == |r|
    ensures forall a :: 0 <= a < |r| && r[a] != [] ==> fs[a] == r[a][0]
  {
    seq(|r|, a requires 0 <= a < |r| => if r[a] == [] then 0 else r[a][0])
  }

  /** In a grouping the first contacts of the lists are exactly the contacts
      that are least in their component. */
  lemma FirstsAreLeast(cs: seq<Contact>, r: seq<seq<nat>>, x: int)
    requires IsGrouping(cs, r)
    ensures x in Firsts(r) <==> LeastInComponent(cs, x)
  {
    var fs := Firsts(r);
    if x in fs {
      var a :| 0 <= a < |r| && fs[a] == x;
      assert r[a][0] in r[a];
      forall y | 0 <= y < |cs| && Connected(cs, x, y)
        ensures x <= y
      {
        assert y in r[a];
        FirstIsSmallest(r[a], y);
      }
    }
    if LeastInComponent(cs, x) {
      assert Listed(r, x);
      var a :| 0 <= a < |r| && x in r[a];
      assert r[a][0] in r[a];
      assert Connected(cs, x, r[a][0]);
      FirstIsSmallest(r[a], x);
      assert fs[a] == x;
    }
  }

  /** A grouping of `cs` is unique: any two results meeting `IsGrouping` are
      the same list of lists, so the ordering promised by the assembly loop
      fully determines the output. */
  lemma GroupingUnique(cs: seq<Contact>, r1: seq<seq<nat>>, r2: seq<seq<nat>>)
    requires IsGrouping(cs, r1) && IsGrouping(cs, r2)
    ensures r1 == r2
  {
    var f1, f2 := Firsts(r1), Firsts(r2);
    forall x
      ensures x in f1 <==> x in f2
    {
      FirstsAreLeast(cs, r1, x);
      FirstsAreLeast(cs, r2, x);
    }
    AscendingUnique(f1, f2);
    forall a | 0 <= a < |r1|
      ensures r1[a] == r2[a]
    {
      var x := r1[a][0];
      assert f1[a] == f2[a];
      assert x == r2[a][0];
      assert x in r1[a] && x in r2[a];
      forall y
        ensures y in r1[a] <==> y in r2[a]
      {
        if y in r1[a] {
          assert y < |cs| && Connected(cs, x, y);
        }
        if y in r2[a] {
          assert y < |cs| && Connected(cs, x, y);
        }
      }
      AscendingUnique(r1[a], r2[a]);
    }
  }

  /** A contact is alone in its list exactly when it shares no string with
      any other contact. */
  lemma IsolatedIffAlone(cs: seq<Contact>, r: seq<seq<nat>>, i: nat)
    requires IsGrouping(cs, r) && i < |cs|
    ensures Isolated(cs, i) <==> [i] in r
  {
    assert Listed(r, i);
    var a :| 0 <= a < |r| && i in r[a];
    if Isolated(cs, i) {
      forall y | y in r[a]
        ensures y == i
      {
        IsolatedConnectedOnlyToItself(cs, i, y);
      }
      AscendingUnique(r[a], [i]);
    }
    if [i] in r {
      var b :| 0 <= b < |r| && r[b] == [i];
      forall j: nat | j < |cs| && Shares(cs[i], cs[j])
        ensures j == i
      {
        ConnectedReflexive(cs, j);
        ConnectedPrepend(cs, i, j, j);
        assert j in r[b];
      }
    }
  }

  /** An ascending list of indices below `n` has at most `n` elements. */
  lemma {:induction false} AscendingBounded(xs: seq<nat>, n: nat)
    requires StrictlyIncreasing(xs) && forall x :: x in xs ==> x < n
    ensures |xs| <= n
  {
    if xs != [] {
      var last := xs[|xs| - 1];
      assert last in xs;
      var init := xs[..|xs| - 1];
      forall x | x in init
        ensures x < last
      {
        var k :| 0 <= k < |init| && init[k] == x;
        assert xs[k] == x;
      }
      AscendingBounded(init, last);
    }
  }

  /** There are never more lists than contacts. */
  lemma GroupingSize(cs: seq<Contact>, r: seq<seq<nat>>)
    requires IsGrouping(cs, r)
    ensures |r| <= |cs|
  {
    var fs := Firsts(r);
    forall x | x in fs
      ensures x < |cs|
    {
      var a :| 0 <= a < |fs| && fs[a] == x;
      assert r[a][0] in r[a];
    }
    AscendingBounded(fs, |cs|);
  }

  /** No contacts, no lists. */
  lemma EmptyInputEmptyResult(cs: seq<Contact>, r: seq<seq<nat>>)
    requires IsGrouping(cs, r) && cs == []
    ensures r == []
  {
    GroupingSize(cs, r);
  }

  /** A sufficient condition for a grouping, checkable list by list: every
      member of a list is connected to its first contact, and no contact of a
      list shares a string with a contact outside it. */
  lemma GroupingFromClosedLists(cs: seq<Contact>, r: seq<seq<nat>>)
    requires IsPartition(r, |cs|)
    requires forall a, y :: 0 <= a < |r| && y in r[a] ==> Connected(cs, r[a][0], y)
    requires forall a, k, j :: 0 <= a < |r| && k in r[a] && 0 <= j < |cs| && Shares(cs[k], cs[j]) ==> j in r[a]
    ensures IsGrouping(cs, r)
  {
    forall a, x, y | 0 <= a < |r| && x in r[a] && 0 <= y < |cs|
      ensures y in r[a] <==> Connected(cs, x, y)
    {
      var first := r[a][0];
      assert first in r[a];
      ConnectedSymmetric(cs, first, x);
      if y in r[a] {
        ConnectedTransitive(cs, x, first, y);
      }
      if Connected(cs, x, y) {
        var S := set z: nat | z < |cs| && z in r[a];
        assert ClosedSet(cs, S);
        ConnectedStaysIn(cs, S, x, y);
      }
    }
  }

  /** Reordering or repeating the strings within contacts leaves the grouping
      unchanged: a grouping of `cs` is one of `ds`, and so, by uniqueness, the
      grouping of `ds`. */
  lemma GroupingIgnoresStringOrder(cs: seq<Contact>, ds: seq<Contact>, r: seq<seq<nat>>)
    requires SameStrings(cs, ds) && IsGrouping(cs, r)
    ensures IsGrouping(ds, r)
  {
    assert SameStrings(ds, cs);
    forall a, x, y | 0 <= a < |r| && x in r[a] && 0 <= y < |ds|
      ensures y in r[a] <==> Connected(ds, x, y)
    {
      if Connected(cs, x, y) {
        SameStringsConnected(cs, ds, x, y);
      }
      if Connected(ds, x, y) {
        SameStringsConnected(ds, cs, x, y);
      }
    }
  }
}
