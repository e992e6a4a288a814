/**
  Component labelling of `unionContacts`: the `groups` array starts all 0
  ("unassigned"); for each contact still unassigned, in index order, a
  depth-first search stamps a fresh group id on every contact reachable
  through shared strings.
*/
module Labelling {
  import opened Contacts
  import opened ContactIndex
  import opened Labels

  /** The slots the search may still write: those not holding a positive id. */
  function Unassigned(gs: seq<int>): set<nat> {
    set k: nat | k < |gs| && gs[k] <= 0
  }

  /** `after` differs from `before` only by id `g` written into slots that
      held no positive id. */
  ghost predicate Grows(before: seq<int>, after: seq<int>, g: int) {
    && |after| == |before|
    && (forall k :: 0 <= k < |before| && before[k] > 0 ==> after[k] == before[k])
    && (forall k :: 0 <= k < |before| && before[k] <= 0 ==> after[k] == before[k] || after[k] == g)
  }

  /** Every contact labelled in `after` but not in `before` has all of its
      direct neighbours labelled in `after`. */
  ghost predicate NewlyLabelledExplored(cs: seq<Contact>, before: seq<int>, after: seq<int>) {
    forall k, j ::
      && 0 <= k < |before| == |after| == |cs| && 0 <= j < |after|
      && before[k] <= 0 < after[k] && Shares(cs[k], cs[j])
      ==> after[j] > 0
  }

  /** Two contacts carry the same label exactly when they are connected. */
  ghost predicate LabelsComponents(cs: seq<Contact>, gs: seq<int>) {
    && |gs| == |cs|
    && forall i, j :: 0 <= i < |cs| && 0 <= j < |cs| ==> (gs[i] == gs[j] <==> Connected(cs, i, j))
  }

  /** Labelled contacts have the label of each of their direct neighbours. */
  ghost predicate Closed(cs: seq<Contact>, gs: seq<int>) {
    && |gs| == |cs|
    && forall k, j ::
      0 <= k < |gs| && 0 <= j < |gs| && gs[k] > 0 && Shares(cs[k], cs[j]) ==> gs[j] == gs[k]
  }

  lemma GrowsTransitive(a: seq<int>, b: seq<int>, c: seq<int>, g: int)
    requires Grows(a, b, g) && Grows(b, c, g)
    ensures Grows(a, c, g)
  {
  }

  lemma GrowsShrinksUnassigned(before: seq<int>, after: seq<int>, g: int)
    requires Grows(before, after, g) && g > 0
    ensures Unassigned(after) <= Unassigned(before)
  {
  }

  /** Every contact labelled in `after` but not in `before` is reached from
      `c` by a chain through contacts unassigned in `before`. */
  ghost predicate NewlyLabelledConnected(cs: seq<Contact>, c: nat, before: seq<int>, after: seq<int>) {
    forall k :: 0 <= k < |before| == |after| && before[k] <= 0 < after[k] ==>
      ConnectedWithin(cs, Unassigned(before), c, k)
  }

  /** The contacts labelled in `after` but not in `before` are exactly those
      reached from `c` by a chain through contacts unassigned in `before`. */
  ghost predicate NewlyLabelledReachable(cs: seq<Contact>, c: nat, before: seq<int>, after: seq<int>) {
    && |before| == |after| == |cs|
    && forall k :: 0 <= k < |cs| ==>
         (before[k] <= 0 < after[k] <==> ConnectedWithin(cs, Unassigned(before), c, k))
  }

  lemma SubsetCardinality(a: set<nat>, b: set<nat>)
    requires a <= b
    ensures |a| <= |b|
  {
    if a != b {
      assert !(b <= a);
      var y :| y in b && y !in a;
      SubsetCardinality(a, b - {y});
    }
  }

  /** The state of the search from `c` after the strings `cs[c][..p]` are done:
      `c` holds `g`; contacts newly labelled other than `c` are explored; every
      contact holding one of the done strings is labelled; every newly
      labelled contact is connected to `c`. */
  ghost predicate DfsInv(cs: seq<Contact>, c: nat, g: int, entry: seq<int>, gs: seq<int>, p: nat) {
    && |entry| == |gs| == |cs| && c < |cs| && p <= |cs[c]| && g > 0
    && entry[c] <= 0 && gs[c] == g
    && Grows(entry, gs, g)
    && (forall k, j ::
          && 0 <= k < |cs| && 0 <= j < |cs| && k != c
          && entry[k] <= 0 < gs[k] && Shares(cs[k], cs[j])
          ==> gs[j] > 0)
    && (forall q, j :: 0 <= q < p && 0 <= j < |cs| && cs[c][q] in cs[j] ==> gs[j] > 0)
    && NewlyLabelledConnected(cs, c, entry, gs)
  }

  /** DfsInv, inside the loop over the contacts listed under string
      `cs[c][p]`, after the first `r` of them are visited. */
  ghost predicate VisitInv(cs: seq<Contact>, index: Index, c: nat, g: int, entry: seq<int>, gs: seq<int>, p: nat, r: nat) {
    && DfsInv(cs, c, g, entry, gs, p)
    && p < |cs[c]| && cs[c][p] in index
    && r <= |index[cs[c][p]]|
    && (forall a :: 0 <= a < |index[cs[c][p]]| ==> index[cs[c][p]][a] < |cs|)
    && (forall a :: 0 <= a < r ==> gs[index[cs[c][p]][a]] > 0)
  }

  lemma DfsStart(cs: seq<Contact>, c: nat, g: int, entry: seq<int>, gs: seq<int>)
    requires c < |cs| == |entry| && entry[c] <= 0 && g > 0 && gs == entry[c := g]
    ensures DfsInv(cs, c, g, entry, gs, 0)
  {
    ConnectedWithinReflexive(cs, Unassigned(entry), c);
  }

  /** Along a chain through contacts unassigned in `before` that starts at a
      labelled contact, every contact is labelled, provided each newly
      labelled contact has its direct neighbours labelled. */
  lemma {:induction false} ExploredAlong(cs: seq<Contact>, before: seq<int>, after: seq<int>, p: seq<nat>)
    requires |before| == |after| == |cs|
    requires NewlyLabelledExplored(cs, before, after)
    requires IsPathIn(cs, Unassigned(before), p) && after[p[0]] > 0
    ensures after[p[|p| - 1]] > 0
  {
    if |p| > 1 {
      var init := p[..|p| - 1];
      assert IsPathIn(cs, Unassigned(before), init) by {
        assert forall m :: 0 <= m < |init| ==> init[m] == p[m];
      }
      ExploredAlong(cs, before, after, init);
      var k := p[|p| - 2];
      assert k in Unassigned(before);
      assert Shares(cs[k], cs[p[|p| - 1]]);
    }
  }

  /** A search whose newly labelled contacts are explored and reached from
      `c`, and which labels `c`, labels exactly what `c` reaches through
      unassigned contacts. */
  lemma ExploredReachable(cs: seq<Contact>, c: nat, before: seq<int>, after: seq<int>)
    requires |before| == |after| == |cs| && c < |cs| && after[c] > 0
    requires NewlyLabelledExplored(cs, before, after)
    requires NewlyLabelledConnected(cs, c, before, after)
    ensures NewlyLabelledReachable(cs, c, before, after)
  {
    forall k | 0 <= k < |cs| && ConnectedWithin(cs, Unassigned(before), c, k)
      ensures before[k] <= 0 < after[k]
    {
      var p :| IsPathIn(cs, Unassigned(before), p) && p[0] == c && p[|p| - 1] == k;
      ExploredAlong(cs, before, after, p);
      ConnectedWithinEnds(cs, Unassigned(before), c, k);
    }
  }

  /** While the search is under way, fewer slots are unassigned than on entry. */
  lemma DfsUnassignedDrops(cs: seq<Contact>, c: nat, g: int, entry: seq<int>, gs: seq<int>, p: nat)
    requires DfsInv(cs, c, g, entry, gs, p)
    ensures |Unassigned(gs)| < |Unassigned(entry)|
  {
    assert Unassigned(gs) <= Unassigned(entry) - {c};
    SubsetCardinality(Unassigned(gs), Unassigned(entry) - {c});
  }

  lemma VisitStart(cs: seq<Contact>, index: Index, c: nat, g: int, entry: seq<int>, gs: seq<int>, p: nat)
    requires IsIndex(cs, index) && DfsInv(cs, c, g, entry, gs, p) && p < |cs[c]|
    ensures VisitInv(cs, index, c, g, entry, gs, p, 0)
  {
    var str := cs[c][p];
    IndexSound(cs, index, str, c);
    forall a | 0 <= a < |index[str]|
      ensures index[str][a] < |cs|
    {
      IndexSound(cs, index, str, index[str][a]);
    }
  }

  /** One recursive visit of a contact listed under the current string keeps
      the invariant. */
  lemma VisitStep(cs: seq<Contact>, index: Index, c: nat, g: int, entry: seq<int>,
                  before: seq<int>, after: seq<int>, p: nat, r: nat)
    requires IsIndex(cs, index) && VisitInv(cs, index, c, g, entry, before, p, r)
    requires r < |index[cs[c][p]]| && |after| == |cs|
    requires after[index[cs[c][p]][r]] > 0
    requires Grows(before, after, g)
    requires NewlyLabelledExplored(cs, before, after)
    requires NewlyLabelledReachable(cs, index[cs[c][p]][r], before, after)
    ensures VisitInv(cs, index, c, g, entry, after, p, r + 1)
  {
    var str := cs[c][p];
    var adj := index[str][r];
    GrowsTransitive(entry, before, after, g);
    GrowsShrinksUnassigned(entry, before, g);
    IndexSound(cs, index, str, adj);
    assert c in Unassigned(entry);
    forall k | 0 <= k < |cs| && entry[k] <= 0 < after[k]
      ensures ConnectedWithin(cs, Unassigned(entry), c, k)
    {
      if before[k] <= 0 {
        assert Shares(cs[c], cs[adj]);
        ConnectedWithinPrepend(cs, Unassigned(before), Unassigned(entry), c, adj, k);
      }
    }
  }

  /** Once every contact listed under `cs[c][p]` is visited, string `p` is done. */
  lemma VisitDone(cs: seq<Contact>, index: Index, c: nat, g: int, entry: seq<int>, gs: seq<int>, p: nat)
    requires c < |cs| && p < |cs[c]| && IsIndex(cs, index)
    requires VisitInv(cs, index, c, g, entry, gs, p, |Lookup(index, cs[c][p])|)
    ensures DfsInv(cs, c, g, entry, gs, p + 1)
  {
    var str := cs[c][p];
    forall j | 0 <= j < |cs| && str in cs[j]
      ensures gs[j] > 0
    {
      IndexSound(cs, index, str, j);
      var a :| 0 <= a < |index[str]| && index[str][a] == j;
    }
  }

  /** With every string of `c` done, the search from `c` has explored all it
      labelled. */
  lemma DfsDone(cs: seq<Contact>, c: nat, g: int, entry: seq<int>, gs: seq<int>)
    requires c < |cs| && DfsInv(cs, c, g, entry, gs, |cs[c]|)
    ensures Grows(entry, gs, g)
    ensures NewlyLabelledExplored(cs, entry, gs)
    ensures NewlyLabelledReachable(cs, c, entry, gs)
  {
    forall j | 0 <= j < |cs| && Shares(cs[c], cs[j])
      ensures gs[j] > 0
    {
      var s :| s in cs[c] && s in cs[j];
      var q :| 0 <= q < |cs[c]| && cs[c][q] == s;
    }
    ExploredReachable(cs, c, entry, gs);
  }

  /** The source's `dfs`: unless contact `c` already holds a positive id,
      give it the id `g`, and recurse into every contact sharing a string
      with it. A contact already labelled stops the search, so the contacts
      that receive `g` are exactly those reached from `c` through contacts
      unassigned on entry; every other slot keeps its value. */
  method Dfs(c: nat, cs: seq<Contact>, index: Index, groups: array<int>, g: int)
    requires c < groups.Length == |cs|
    requires IsIndex(cs, index)
    requires g > 0
    modifies groups
    ensures groups[c] > 0
    ensures old(groups[c]) > 0 ==> groups[..] == old(groups[..])
    ensures Grows(old(groups[..]), groups[..], g)
    ensures NewlyLabelledExplored(cs, old(groups[..]), groups[..])
    ensures NewlyLabelledReachable(cs, c, old(groups[..]), groups[..])
    decreases |Unassigned(groups[..])|
  {
    if groups[c] > 0 {
      ExploredReachable(cs, c, groups[..], groups[..]);
      return;
    }
    ghost var entry := groups[..];
    groups[c] := g;
    DfsStart(cs, c, g, entry, groups[..]);
    var contact := cs[c];
    var p := 0;
    while p < |contact|
      invariant DfsInv(cs, c, g, entry, groups[..], p)
    {
      var str := contact[p];
      VisitStart(cs, index, c, g, entry, groups[..], p);
      var adjContactIds := index[str];
      var r := 0;
      while r < |adjContactIds|
        invariant VisitInv(cs, index, c, g, entry, groups[..], p, r)
      {
        ghost var before := groups[..];
        DfsUnassignedDrops(cs, c, g, entry, before, p);
        Dfs(adjContactIds[r], cs, index, groups, g);
        VisitStep(cs, index, c, g, entry, before, groups[..], p, r);
        r := r + 1;
      }
      VisitDone(cs, index, c, g, entry, groups[..], p);
      p := p + 1;
    }
    DfsDone(cs, c, g, entry, groups[..]);
  }

  /** The labelling after contacts `0..i-1` are processed and the ids
      `1..groupId-1` handed out; `roots[h - 1]` is the contact whose search
      created id `h`. */
  ghost predicate LabelInv(cs: seq<Contact>, gs: seq<int>, i: nat, groupId: int, roots: seq<nat>) {
    && |gs| == |cs| && i <= |cs| && groupId == |roots| + 1
    && (forall k :: 0 <= k < |cs| ==> 0 <= gs[k] < groupId)
    && (forall k :: 0 <= k < i ==> gs[k] > 0)
    && Closed(cs, gs)
    && (forall a, b :: 0 <= a < b < |roots| ==> roots[a] < roots[b])
    && (forall a :: 0 <= a < |roots| ==> roots[a] < i)
    && (forall a {:trigger gs[roots[a]]} :: 0 <= a < |roots| ==> gs[roots[a]] == a + 1)
    && (forall k :: 0 <= k < |cs| && gs[k] > 0 ==>
          roots[gs[k] - 1] <= k && Connected(cs, roots[gs[k] - 1], k))
  }

  lemma LabelStart(cs: seq<Contact>, gs: seq<int>)
    requires |gs| == |cs| && forall k :: 0 <= k < |gs| ==> gs[k] == 0
    ensures LabelInv(cs, gs, 0, 1, [])
  {
  }

  /** A contact already labelled by an earlier search is passed over. */
  lemma LabelSkip(cs: seq<Contact>, gs: seq<int>, i: nat, groupId: int, roots: seq<nat>)
    requires LabelInv(cs, gs, i, groupId, roots) && i < |cs| && gs[i] != 0
    ensures LabelInv(cs, gs, i + 1, groupId, roots)
  {
  }

  /** After a search from a fresh contact, labelled contacts still carry the
      label of each direct neighbour. */
  lemma LabelStepClosed(cs: seq<Contact>, before: seq<int>, after: seq<int>, groupId: int)
    requires Closed(cs, before) && |after| == |cs|
    requires Grows(before, after, groupId)
    requires NewlyLabelledExplored(cs, before, after)
    requires forall k :: 0 <= k < |cs| && after[k] > 0 && before[k] <= 0 ==> after[k] == groupId
    requires forall k :: 0 <= k < |cs| && before[k] > 0 ==> before[k] != groupId
    ensures Closed(cs, after)
  {
    forall k, j | 0 <= k < |cs| && 0 <= j < |cs| && after[k] > 0 && Shares(cs[k], cs[j])
      ensures after[j] == after[k]
    {
      if before[k] <= 0 {
        if before[j] > 0 {
          assert Shares(cs[j], cs[k]);
          assert false;
        }
      }
    }
  }

  /** A contact newly labelled by a search from `i`, where every contact
      before `i` was already labelled, comes no earlier than `i` and is
      connected to it. */
  lemma NewlyLabelledFromRoot(cs: seq<Contact>, before: seq<int>, after: seq<int>, i: nat, k: nat)
    requires i <= |cs| == |before| && (forall m :: 0 <= m < i ==> before[m] > 0)
    requires NewlyLabelledReachable(cs, i, before, after)
    requires k < |cs| && before[k] <= 0 < after[k]
    ensures i <= k && Connected(cs, i, k)
  {
    ConnectedWithinEnds(cs, Unassigned(before), i, k);
  }

  /** After a search from contact `i` with id `groupId`, every labelled
      contact is connected to the root of its label. */
  lemma LabelStepRoots(cs: seq<Contact>, before: seq<int>, after: seq<int>, i: nat, groupId: int, roots: seq<nat>)
    requires LabelInv(cs, before, i, groupId, roots) && i < |cs| && |after| == |cs|
    requires Grows(before, after, groupId)
    requires NewlyLabelledReachable(cs, i, before, after)
    ensures forall k :: 0 <= k < |cs| && after[k] > 0 ==>
      (roots + [i])[after[k] - 1] <= k && Connected(cs, (roots + [i])[after[k] - 1], k)
  {
    var roots' := roots + [i];
    forall k | 0 <= k < |cs| && after[k] > 0
      ensures roots'[after[k] - 1] <= k && Connected(cs, roots'[after[k] - 1], k)
    {
      if before[k] <= 0 {
        assert after[k] == groupId && roots'[groupId - 1] == i;
        NewlyLabelledFromRoot(cs, before, after, i, k);
      } else {
        assert after[k] == before[k] && roots'[before[k] - 1] == roots[before[k] - 1];
      }
    }
  }

  /** After a search from contact `i` with id `groupId`, each root, `i`
      included, still carries the label it started. */
  lemma LabelStepRootLabels(before: seq<int>, after: seq<int>, i: nat, groupId: int, roots: seq<nat>)
    requires i < |before| == |after| && groupId == |roots| + 1 && before[i] <= 0 && after[i] > 0
    requires forall a :: 0 <= a < |roots| ==> roots[a] < i
    requires forall a {:trigger before[roots[a]]} :: 0 <= a < |roots| ==> before[roots[a]] == a + 1
    requires Grows(before, after, groupId)
    ensures forall a :: 0 <= a < |roots + [i]| ==> (roots + [i])[a] < i + 1
    ensures forall a {:trigger after[(roots + [i])[a]]} :: 0 <= a < |roots + [i]| ==> after[(roots + [i])[a]] == a + 1
  {
    var roots' := roots + [i];
    forall a | 0 <= a < |roots'|
      ensures after[roots'[a]] == a + 1
    {
      if a < |roots| {
        assert before[roots[a]] == a + 1;
      }
    }
  }

  /** A search from unassigned contact `i` with the fresh id `groupId` keeps
      the invariant, with `i` as the root of the new group. */
  lemma LabelStep(cs: seq<Contact>, before: seq<int>, after: seq<int>, i: nat, groupId: int, roots: seq<nat>)
    requires LabelInv(cs, before, i, groupId, roots) && i < |cs|
    requires before[i] == 0 && |after| == |cs| && after[i] > 0
    requires Grows(before, after, groupId)
    requires NewlyLabelledExplored(cs, before, after)
    requires NewlyLabelledReachable(cs, i, before, after)
    ensures LabelInv(cs, after, i + 1, groupId + 1, roots + [i])
  {
    LabelStepClosed(cs, before, after, groupId);
    LabelStepRoots(cs, before, after, i, groupId, roots);
    LabelStepRootLabels(before, after, i, groupId, roots);
  }

  /** When the labelling loop is done, ids are canonical: numbered in order
      of first appearance. */
  lemma LabelDoneCanonical(cs: seq<Contact>, gs: seq<int>, groupId: int, roots: seq<nat>)
    requires LabelInv(cs, gs, |cs|, groupId, roots)
    ensures Canonical(gs)
  {
    forall k | 0 <= k < |gs|
      ensures 1 <= gs[k] <= MaxBefore(gs, k) + 1
    {
      var h := gs[k];
      if h >= 2 {
        var r := roots[h - 2];
        assert gs[roots[h - 2]] == h - 1;
        assert r < roots[h - 1] <= k;
        assert gs[..k][r] == h - 1;
      }
    }
  }

  /** Two contacts with the same label are connected through its root. */
  lemma LabelDoneSameConnected(cs: seq<Contact>, gs: seq<int>, groupId: int, roots: seq<nat>, i: nat, j: nat)
    requires LabelInv(cs, gs, |cs|, groupId, roots) && i < |cs| && j < |cs| && gs[i] == gs[j]
    ensures Connected(cs, i, j)
  {
    var root := roots[gs[i] - 1];
    ConnectedSymmetric(cs, root, i);
    ConnectedTransitive(cs, i, root, j);
  }

  /** Two connected contacts have the same label: each label class is closed. */
  lemma LabelDoneConnectedSame(cs: seq<Contact>, gs: seq<int>, groupId: int, roots: seq<nat>, i: nat, j: nat)
    requires LabelInv(cs, gs, |cs|, groupId, roots) && i < |cs| && j < |cs| && Connected(cs, i, j)
    ensures gs[i] == gs[j]
  {
    var S := set k: nat | k < |cs| && gs[k] == gs[i];
    assert ClosedSet(cs, S);
    ConnectedStaysIn(cs, S, i, j);
  }

  /** When the labelling loop is done, two contacts carry the same id exactly
      when they are connected. */
  lemma LabelDoneComponents(cs: seq<Contact>, gs: seq<int>, groupId: int, roots: seq<nat>)
    requires LabelInv(cs, gs, |cs|, groupId, roots)
    ensures LabelsComponents(cs, gs)
  {
    forall i, j | 0 <= i < |cs| && 0 <= j < |cs|
      ensures gs[i] == gs[j] <==> Connected(cs, i, j)
    {
      if gs[i] == gs[j] {
        LabelDoneSameConnected(cs, gs, groupId, roots, i, j);
      }
      if Connected(cs, i, j) {
        LabelDoneConnectedSame(cs, gs, groupId, roots, i, j);
      }
    }
  }

  /** One search of the labelling loop: contact `i` is unassigned, so it and
      everything connected to it get the fresh id `groupId`. */
  method NewGroup(i: nat, cs: seq<Contact>, index: Index, groups: array<int>, groupId: int, ghost roots: seq<nat>)
    requires IsIndex(cs, index) && i < |cs| && groups.Length == |cs|
    requires LabelInv(cs, groups[..], i, groupId, roots) && groups[i] == 0
    modifies groups
    ensures LabelInv(cs, groups[..], i + 1, groupId + 1, roots + [i])
  {
    ghost var before := groups[..];
    Dfs(i, cs, index, groups, groupId);
    LabelStep(cs, before, groups[..], i, groupId, roots);
  }

  /** The labelling loop of `unionContacts`: scan the contacts in order and
      start a search with a fresh id, counting up from 1, from each one still
      unassigned. */
  method Label(cs: seq<Contact>, index: Index) returns (groups: array<int>)
    requires IsIndex(cs, index)
    ensures fresh(groups) && groups.Length == |cs|
    ensures Canonical(groups[..])
    ensures LabelsComponents(cs, groups[..])
  {
    groups := new int[|cs|](_ => 0);
    var groupId := 1;
    ghost var roots: seq<nat> := [];
    LabelStart(cs, groups[..]);
    var i := 0;
    while i < |cs|
      invariant LabelInv(cs, groups[..], i, groupId, roots)
    {
      if groups[i] == 0 {
        NewGroup(i, cs, index, groups, groupId, roots);
        roots := roots + [i];
        groupId := groupId + 1;
      } else {
        LabelSkip(cs, groups[..], i, groupId, roots);
      }
      i := i + 1;
    }
    LabelDoneCanonical(cs, groups[..], groupId, roots);
    LabelDoneComponents(cs, groups[..], groupId, roots);
  }
}
