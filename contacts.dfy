/**
  Contacts and the "shares an identifying string" relation between them.

  A contact is an ordered list of identifying strings (a name, an e-mail
  address, a phone number, ...). Strings are compared only for equality.
  Two contacts are directly linked when some string occurs in both, and
  linked transitively through a chain of such direct links.
*/
module Contacts {

  /** One contact record: its identifying strings, in input order. */
  type Contact = seq<string>

  /** Contacts `a` and `b` have at least one identical string. */
  ghost predicate Shares(a: Contact, b: Contact) {
    exists s :: s in a && s in b
  }

  /** `p` is a non-empty chain of contact indices of `cs` in which each
      consecutive pair of contacts shares a string. */
  ghost predicate IsPath(cs: seq<Contact>, p: seq<nat>) {
    && |p| > 0
    && (forall k :: 0 <= k < |p| ==> p[k] < |cs|)
    && (forall k :: 0 <= k < |p| - 1 ==> Shares(cs[p[k]], cs[p[k + 1]]))
  }

  /** Contacts `i` and `j` belong to the same person: a chain of shared
      strings leads from `i` to `j`. */
  ghost predicate Connected(cs: seq<Contact>, i: nat, j: nat) {
    exists p :: IsPath(cs, p) && p[0] == i && p[|p| - 1] == j
  }

  /** `p` is a chain of shared strings whose contacts all lie in `S`. */
  ghost predicate IsPathIn(cs: seq<Contact>, S: set<nat>, p: seq<nat>) {
    IsPath(cs, p) && forall k :: 0 <= k < |p| ==> p[k] in S
  }

  /** A chain of shared strings leads from `i` to `j` through contacts of `S`
      only. */
  ghost predicate ConnectedWithin(cs: seq<Contact>, S: set<nat>, i: nat, j: nat) {
    exists p :: IsPathIn(cs, S, p) && p[0] == i && p[|p| - 1] == j
  }

  lemma ConnectedWithinReflexive(cs: seq<Contact>, S: set<nat>, i: nat)
    requires i < |cs| && i in S
    ensures ConnectedWithin(cs, S, i, i)
  {
    assert IsPathIn(cs, S, [i]);
  }

  /** A chain through `S` starts and ends in `S`, and is a chain. */
  lemma ConnectedWithinEnds(cs: seq<Contact>, S: set<nat>, i: nat, j: nat)
    requires ConnectedWithin(cs, S, i, j)
    ensures i in S && j in S && Connected(cs, i, j)
  {
    var p :| IsPathIn(cs, S, p) && p[0] == i && p[|p| - 1] == j;
    assert p[0] in S && p[|p| - 1] in S;
  }

  /** A direct link from a contact of `T` followed by a chain through
      `S <= T` is a chain through `T`. */
  lemma ConnectedWithinPrepend(cs: seq<Contact>, S: set<nat>, T: set<nat>, i: nat, j: nat, k: nat)
    requires S <= T && i in T && i < |cs| && j < |cs| && Shares(cs[i], cs[j])
    requires ConnectedWithin(cs, S, j, k)
    ensures ConnectedWithin(cs, T, i, k)
  {
    var p :| IsPathIn(cs, S, p) && p[0] == j && p[|p| - 1] == k;
    var q := [i] + p;
    assert forall m :: 1 <= m < |q| ==> q[m] == p[m - 1];
    assert IsPathIn(cs, T, q);
  }

  /** No contact outside `S` shares a string with a contact inside `S`. */
  ghost predicate ClosedSet(cs: seq<Contact>, S: set<nat>) {
    forall k: nat, j: nat :: k in S && k < |cs| && j < |cs| && Shares(cs[k], cs[j]) ==> j in S
  }

  /** Contact `i` shares no string with any other contact. */
  ghost predicate Isolated(cs: seq<Contact>, i: nat) {
    i < |cs| && forall j: nat :: j < |cs| && j != i ==> !Shares(cs[i], cs[j])
  }

  /** A list of contact indices in non-decreasing order. */
  ghost predicate NonDecreasing(xs: seq<nat>) {
    forall a, b :: 0 <= a < b < |xs| ==> xs[a] <= xs[b]
  }

  /** A list of contact indices in strictly increasing order (so without repeats). */
  ghost predicate StrictlyIncreasing(xs: seq<nat>) {
    forall a, b :: 0 <= a < b < |xs| ==> xs[a] < xs[b]
  }

  /** The first element of an ascending list is its smallest. */
  lemma FirstIsSmallest(xs: seq<nat>, y: nat)
    requires StrictlyIncreasing(xs) && y in xs
    ensures xs[0] <= y
  {
    var k :| 0 <= k < |xs| && xs[k] == y;
    if k > 0 {
      assert xs[0] < xs[k];
    }
  }

  lemma ConnectedReflexive(cs: seq<Contact>, i: nat)
    requires i < |cs|
    ensures Connected(cs, i, i)
  {
    assert IsPath(cs, [i]);
  }

  /** Two contacts holding the same string are linked directly. */
  lemma SharedStringConnects(cs: seq<Contact>, i: nat, j: nat, s: string)
    requires i < |cs| && j < |cs| && s in cs[i] && s in cs[j]
    ensures Shares(cs[i], cs[j]) && Connected(cs, i, j)
  {
    assert IsPath(cs, [i, j]);
  }

  /** A direct link followed by a chain is a chain. */
  lemma ConnectedPrepend(cs: seq<Contact>, i: nat, j: nat, k: nat)
    requires i < |cs| && j < |cs| && Shares(cs[i], cs[j]) && Connected(cs, j, k)
    ensures Connected(cs, i, k)
  {
    var p :| IsPath(cs, p) && p[0] == j && p[|p| - 1] == k;
    var q := [i] + p;
    assert forall m :: 1 <= m < |q| ==> q[m] == p[m - 1];
    assert IsPath(cs, q);
  }

  /** A chain followed by a direct link is a chain. */
  lemma ConnectedAppend(cs: seq<Contact>, i: nat, j: nat, k: nat)
    requires Connected(cs, i, j) && k < |cs| && Shares(cs[j], cs[k])
    ensures Connected(cs, i, k)
  {
    var p :| IsPath(cs, p) && p[0] == i && p[|p| - 1] == j;
    var q := p + [k];
    assert forall m :: 0 <= m < |p| ==> q[m] == p[m];
    assert IsPath(cs, q);
  }

  /** Walking a chain backwards is again a chain. */
  lemma {:induction false} PathReversed(cs: seq<Contact>, p: seq<nat>)
    requires IsPath(cs, p)
    ensures Connected(cs, p[|p| - 1], p[0])
  {
    if |p| == 1 {
      ConnectedReflexive(cs, p[0]);
    } else {
      var rest := p[1..];
      assert IsPath(cs, rest) by {
        assert forall m :: 0 <= m < |rest| ==> rest[m] == p[m + 1];
      }
      PathReversed(cs, rest);
      assert Shares(cs[p[0]], cs[p[1]]);
      ConnectedAppend(cs, p[|p| - 1], p[1], p[0]);
    }
  }

  lemma ConnectedSymmetric(cs: seq<Contact>, i: nat, j: nat)
    requires Connected(cs, i, j)
    ensures Connected(cs, j, i)
  {
    var p :| IsPath(cs, p) && p[0] == i && p[|p| - 1] == j;
    PathReversed(cs, p);
  }

  /** A chain that ends where a connection starts extends it. */
  lemma {:induction false} PathThen(cs: seq<Contact>, p: seq<nat>, k: nat)
    requires IsPath(cs, p) && Connected(cs, p[|p| - 1], k)
    ensures Connected(cs, p[0], k)
  {
    if |p| > 1 {
      var rest := p[1..];
      assert IsPath(cs, rest) by {
        assert forall m :: 0 <= m < |rest| ==> rest[m] == p[m + 1];
      }
      PathThen(cs, rest, k);
      assert Shares(cs[p[0]], cs[p[1]]);
      ConnectedPrepend(cs, p[0], p[1], k);
    }
  }

  lemma ConnectedTransitive(cs: seq<Contact>, i: nat, j: nat, k: nat)
    requires Connected(cs, i, j) && Connected(cs, j, k)
    ensures Connected(cs, i, k)
  {
    var p :| IsPath(cs, p) && p[0] == i && p[|p| - 1] == j;
    PathThen(cs, p, k);
  }

  /** A chain that starts inside a closed set never leaves it. */
  lemma {:induction false} PathStaysIn(cs: seq<Contact>, S: set<nat>, p: seq<nat>)
    requires ClosedSet(cs, S) && IsPath(cs, p) && p[0] in S
    ensures p[|p| - 1] in S
  {
    if |p| > 1 {
      var rest := p[1..];
      assert IsPath(cs, rest) by {
        assert forall m :: 0 <= m < |rest| ==> rest[m] == p[m + 1];
      }
      assert Shares(cs[p[0]], cs[p[1]]);
      PathStaysIn(cs, S, rest);
    }
  }

  /** Everything connected to a member of a closed set is in the set. */
  lemma ConnectedStaysIn(cs: seq<Contact>, S: set<nat>, i: nat, j: nat)
    requires ClosedSet(cs, S) && i in S && Connected(cs, i, j)
    ensures j in S
  {
    var p :| IsPath(cs, p) && p[0] == i && p[|p| - 1] == j;
    PathStaysIn(cs, S, p);
  }

  /** A contact that shares no string with any other one is connected only
      to itself. */
  lemma IsolatedConnectedOnlyToItself(cs: seq<Contact>, i: nat, j: nat)
    requires Isolated(cs, i) && Connected(cs, i, j)
    ensures j == i
  {
    assert ClosedSet(cs, {i});
    ConnectedStaysIn(cs, {i}, i, j);
  }

  /** `cs` and `ds` have the same number of contacts, and each contact of one
      holds the same strings as its counterpart, in any order and number. */
  ghost predicate SameStrings(cs: seq<Contact>, ds: seq<Contact>) {
    |cs| == |ds| && forall i, s :: 0 <= i < |cs| ==> (s in cs[i] <==> s in ds[i])
  }

  /** Connection depends only on which strings each contact holds. */
  lemma SameStringsConnected(cs: seq<Contact>, ds: seq<Contact>, i: nat, j: nat)
    requires SameStrings(cs, ds) && Connected(cs, i, j)
    ensures Connected(ds, i, j)
  {
    var p :| IsPath(cs, p) && p[0] == i && p[|p| - 1] == j;
    forall k | 0 <= k < |p| - 1
      ensures Shares(ds[p[k]], ds[p[k + 1]])
    {
      var s :| s in cs[p[k]] && s in cs[p[k + 1]];
      assert s in ds[p[k]] && s in ds[p[k + 1]];
    }
    assert IsPath(ds, p);
  }
}
