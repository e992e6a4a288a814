/**
  Result assembly of `unionContacts`: one pass over the labels in index
  order, opening a new list the first time a label is met and appending the
  contact index to the list of its label.
*/
module Assembly {
  import opened Contacts
  import opened Labels

  /** List `h` holds, in ascending order, the indices below `i` labelled `h + 1`. */
  ghost predicate ListsUpTo(gs: seq<int>, result: seq<seq<nat>>, i: nat)
    requires i <= |gs|
  {
    forall h :: 0 <= h < |result| ==> result[h] == Members(gs, h + 1, i)
  }

  /** No index below `n` carries a label above the largest one among them. */
  lemma MembersAboveMax(gs: seq<int>, h: int, n: nat)
    requires n <= |gs| && h > Max(gs[..n])
    ensures Members(gs, h, n) == []
  {
    forall x | 0 <= x < n
      ensures gs[x] != h
    {
      assert gs[..n][x] == gs[x];
    }
    if Members(gs, h, n) != [] {
      assert Members(gs, h, n)[0] in Members(gs, h, n);
    }
  }

  /** Opening the list for a label not met yet keeps the lists in step. */
  lemma AssembleOpen(gs: seq<int>, result: seq<seq<nat>>, i: nat)
    requires i <= |gs| && |result| == Max(gs[..i]) && ListsUpTo(gs, result, i)
    ensures ListsUpTo(gs, result + [[]], i)
  {
    var grown := result + [[]];
    forall h | 0 <= h < |grown|
      ensures grown[h] == Members(gs, h + 1, i)
    {
      if h == |result| {
        MembersAboveMax(gs, h + 1, i);
      } else {
        assert grown[h] == result[h];
      }
    }
  }

  /** Appending index `i` to the list of its label keeps the lists in step. */
  lemma AssembleAdd(gs: seq<int>, result: seq<seq<nat>>, i: nat)
    requires i < |gs| && ListsUpTo(gs, result, i) && 0 <= gs[i] - 1 < |result|
    ensures ListsUpTo(gs, result[gs[i] - 1 := result[gs[i] - 1] + [i]], i + 1)
  {
  }

  /** In a canonical labelling the label of slot `i` is at most one more than
      the number of labels met before it, so its list is either open already
      or the next one to open. */
  lemma AssembleLabelFits(gs: seq<int>, i: nat)
    requires Canonical(gs) && i < |gs|
    ensures 0 <= gs[i] - 1 <= Max(gs[..i])
    ensures Max(gs[..i + 1]) == if gs[i] - 1 == Max(gs[..i]) then Max(gs[..i]) + 1 else Max(gs[..i])
  {
    MaxSnoc(gs, i);
    CanonicalAt(gs, i);
  }

  /** One pass of the assembly loop: the label of slot `i` names an open
      list or the next one to open, and after opening it if need be and
      appending `i` to it, the lists are in step with the first `i + 1` slots. */
  lemma AssembleStep(gs: seq<int>, result: seq<seq<nat>>, i: nat)
    requires Canonical(gs) && i < |gs|
    requires |result| == Max(gs[..i]) && ListsUpTo(gs, result, i)
    ensures 0 <= gs[i] - 1 <= |result|
    ensures var grown := if |result| <= gs[i] - 1 then result + [[]] else result;
      && |grown| == Max(gs[..i + 1])
      && ListsUpTo(gs, grown[gs[i] - 1 := grown[gs[i] - 1] + [i]], i + 1)
  {
    AssembleLabelFits(gs, i);
    var grown := if |result| <= gs[i] - 1 then result + [[]] else result;
    if |result| <= gs[i] - 1 {
      AssembleOpen(gs, result, i);
    }
    AssembleAdd(gs, grown, i);
  }

  /** Once all slots are done, no list is empty. */
  lemma AssembledNonEmpty(gs: seq<int>, result: seq<seq<nat>>)
    requires Canonical(gs) && |result| == Max(gs[..|gs|]) && ListsUpTo(gs, result, |gs|)
    ensures forall h :: 0 <= h < |result| ==> result[h] != []
  {
    forall h | 0 <= h < |result|
      ensures result[h] != []
    {
      CanonicalLabelsPresent(gs, |gs|, h + 1);
    }
  }

  /** Collects the contact indices by label: list `h` of the result holds,
      in ascending order, the contacts labelled `h + 1`, and there is one list
      per label. The labels must be canonical, so that each label is at most
      one more than the number of lists grown so far. */
  method Assemble(groups: array<int>) returns (result: seq<seq<nat>>)
    requires Canonical(groups[..])
    ensures |result| == Max(groups[..])
    ensures forall h :: 0 <= h < |result| ==> result[h] == Members(groups[..], h + 1, groups.Length)
    ensures forall h :: 0 <= h < |result| ==> result[h] != []
  {
    ghost var gs := groups[..];
    result := [];
    var i := 0;
    while i < groups.Length
      invariant 0 <= i <= groups.Length
      invariant |result| == Max(gs[..i]) && ListsUpTo(gs, result, i)
    {
      AssembleStep(gs, result, i);
      var id := groups[i] - 1;
      assert id == gs[i] - 1;
      if |result| <= id {
        result := result + [[]];
      }
      result := result[id := result[id] + [i]];
      i := i + 1;
    }
    MaxWhole(gs);
    AssembledNonEmpty(gs, result);
  }
}
