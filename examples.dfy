/**
  The two inputs documented with `unionContacts`, and the results it
  returns for them.
*/
module Examples {
  import opened Contacts
  import opened ContactIndex
  import opened Labelling
  import opened ContactGroups

  /** Four contacts: the first, third and fourth belong to one person. */
  const FourContacts: seq<Contact> := [
    ["John", "john@gmail.com", "john@fb.com"],
    ["Dan", "dan@gmail.com", "+1234567"],
    ["john123", "+5412312", "john123@skype.com"],
    ["john1985", "+5412312", "john@fb.com"]
  ]

  /** Seven contacts: the four above, a copy of Dan's, one more of Dan's
      addresses and one more of John's. */
  const SevenContacts: seq<Contact> := [
    ["John", "john@gmail.com", "john@fb.com"],
    ["Dan", "dan@gmail.com", "+1234567"],
    ["john123", "+5412312", "john123@skype.com"],
    ["john1985", "+5412312", "john@fb.com"],
    ["Dan", "dan@gmail.com", "+1234567"],
    ["dan@gmail.com", "dan@hotmail.com"],
    ["john@gmail.com"]
  ]

  lemma FourContactsLinks()
    ensures Connected(FourContacts, 0, 3) && Connected(FourContacts, 0, 2)
  {
    var cs := FourContacts;
    SharedStringConnects(cs, 0, 3, "john@fb.com");
    SharedStringConnects(cs, 3, 2, "+5412312");
    ConnectedTransitive(cs, 0, 3, 2);
  }

  lemma FourContactsApart(k: nat)
    requires k in [0, 2, 3]
    ensures !Shares(FourContacts[k], FourContacts[1]) && !Shares(FourContacts[1], FourContacts[k])
  {
  }

  lemma FourListsPartition()
    ensures IsPartition([[0, 2, 3], [1]], 4)
  {
    var r := [[0, 2, 3], [1]];
    assert 0 in r[0] && 2 in r[0] && 3 in r[0] && 1 in r[1];
    forall i | 0 <= i < 4
      ensures Listed(r, i)
    {
      if i == 1 {
        assert i in r[1];
      } else {
        assert i in r[0];
      }
    }
  }

  lemma FourContactsReach()
    ensures var r := [[0, 2, 3], [1]];
      forall a, y :: 0 <= a < |r| && y in r[a] ==> Connected(FourContacts, r[a][0], y)
  {
    var cs, r := FourContacts, [[0, 2, 3], [1]];
    FourContactsLinks();
    ConnectedReflexive(cs, 0);
    ConnectedReflexive(cs, 1);
    forall a, y | 0 <= a < |r| && y in r[a]
      ensures Connected(cs, r[a][0], y)
    {
      if a == 0 {
        assert y == 0 || y == 2 || y == 3;
      } else {
        assert y == 1;
      }
    }
  }

  lemma FourContactsClosed()
    ensures var r := [[0, 2, 3], [1]];
      forall a, k, j :: 0 <= a < |r| && k in r[a] && 0 <= j < |FourContacts| && Shares(FourContacts[k], FourContacts[j]) ==> j in r[a]
  {
    var cs, r := FourContacts, [[0, 2, 3], [1]];
    forall a, k, j | 0 <= a < |r| && k in r[a] && 0 <= j < |cs| && Shares(cs[k], cs[j])
      ensures j in r[a]
    {
      if a == 0 {
        if j == 1 {
          FourContactsApart(k);
        }
      } else if j != 1 {
        FourContactsApart(j);
      }
    }
  }

  lemma FourContactsGrouping()
    ensures IsGrouping(FourContacts, [[0, 2, 3], [1]])
  {
    FourListsPartition();
    FourContactsReach();
    FourContactsClosed();
    GroupingFromClosedLists(FourContacts, [[0, 2, 3], [1]]);
  }

  /** Whatever `UnionContacts` returns for the four contacts is [[0, 2, 3], [1]]. */
  lemma FourContactsResult(r: seq<seq<nat>>)
    requires IsGrouping(FourContacts, r)
    ensures r == [[0, 2, 3], [1]]
  {
    FourContactsGrouping();
    GroupingUnique(FourContacts, r, [[0, 2, 3], [1]]);
  }

  /** Grouping the four documented contacts. */
  method GroupFourContacts() returns (result: seq<seq<nat>>)
    ensures result == [[0, 2, 3], [1]]
  {
    result := UnionContacts(FourContacts);
    FourContactsResult(result);
  }

  lemma SevenContactsLinks()
    ensures Connected(SevenContacts, 0, 3) && Connected(SevenContacts, 0, 2) && Connected(SevenContacts, 0, 6)
    ensures Connected(SevenContacts, 1, 4) && Connected(SevenContacts, 1, 5)
  {
    var cs := SevenContacts;
    SharedStringConnects(cs, 0, 3, "john@fb.com");
    SharedStringConnects(cs, 3, 2, "+5412312");
    ConnectedTransitive(cs, 0, 3, 2);
    SharedStringConnects(cs, 0, 6, "john@gmail.com");
    SharedStringConnects(cs, 1, 4, "Dan");
    SharedStringConnects(cs, 1, 5, "dan@gmail.com");
  }

  lemma SevenContactsApart(k: nat, j: nat)
    requires k in [0, 2, 3, 6] && j in [1, 4, 5]
    ensures !Shares(SevenContacts[k], SevenContacts[j]) && !Shares(SevenContacts[j], SevenContacts[k])
  {
  }

  lemma SevenListsPartition()
    ensures IsPartition([[0, 2, 3, 6], [1, 4, 5]], 7)
  {
    var r := [[0, 2, 3, 6], [1, 4, 5]];
    assert 0 in r[0] && 2 in r[0] && 3 in r[0] && 6 in r[0];
    assert 1 in r[1] && 4 in r[1] && 5 in r[1];
    forall i | 0 <= i < 7
      ensures Listed(r, i)
    {
      if i in [1, 4, 5] {
        assert i in r[1];
      } else {
        assert i in r[0];
      }
    }
  }

  lemma SevenContactsReach()
    ensures var r := [[0, 2, 3, 6], [1, 4, 5]];
      forall a, y :: 0 <= a < |r| && y in r[a] ==> Connected(SevenContacts, r[a][0], y)
  {
    var cs, r := SevenContacts, [[0, 2, 3, 6], [1, 4, 5]];
    SevenContactsLinks();
    ConnectedReflexive(cs, 0);
    ConnectedReflexive(cs, 1);
    forall a, y | 0 <= a < |r| && y in r[a]
      ensures Connected(cs, r[a][0], y)
    {
      if a == 0 {
        assert y == 0 || y == 2 || y == 3 || y == 6;
      } else {
        assert y == 1 || y == 4 || y == 5;
      }
    }
  }

  lemma SevenContactsClosed()
    ensures var r := [[0, 2, 3, 6], [1, 4, 5]];
      forall a, k, j :: 0 <= a < |r| && k in r[a] && 0 <= j < |SevenContacts| && Shares(SevenContacts[k], SevenContacts[j]) ==> j in r[a]
  {
    var cs, r := SevenContacts, [[0, 2, 3, 6], [1, 4, 5]];
    forall a, k, j | 0 <= a < |r| && k in r[a] && 0 <= j < |cs| && Shares(cs[k], cs[j])
      ensures j in r[a]
    {
      if a == 0 {
        if j in [1, 4, 5] {
          SevenContactsApart(k, j);
        }
      } else if j !in [1, 4, 5] {
        SevenContactsApart(j, k);
      }
    }
  }

  lemma SevenContactsGrouping()
    ensures IsGrouping(SevenContacts, [[0, 2, 3, 6], [1, 4, 5]])
  {
    SevenListsPartition();
    SevenContactsReach();
    SevenContactsClosed();
    GroupingFromClosedLists(SevenContacts, [[0, 2, 3, 6], [1, 4, 5]]);
  }

  /** Whatever `UnionContacts` returns for the seven contacts is
      [[0, 2, 3, 6], [1, 4, 5]]. */
  lemma SevenContactsResult(r: seq<seq<nat>>)
    requires IsGrouping(SevenContacts, r)
    ensures r == [[0, 2, 3, 6], [1, 4, 5]]
  {
    SevenContactsGrouping();
    GroupingUnique(SevenContacts, r, [[0, 2, 3, 6], [1, 4, 5]]);
  }

  /** Three contacts linked in a line: the middle one shares a string with
      each of the other two, which share none with each other. */
  const Line: seq<Contact> := [["a"], ["a", "b"], ["b"]]

  /** A chain of `Line` that avoids the middle contact never leaves the
      first one. */
  lemma {:induction false} LineChainStays(p: seq<nat>)
    requires IsPathIn(Line, {0, 2}, p) && p[0] == 0
    ensures p[|p| - 1] == 0
  {
    if |p| > 1 {
      var init := p[..|p| - 1];
      assert IsPathIn(Line, {0, 2}, init) by {
        assert forall m :: 0 <= m < |init| ==> init[m] == p[m];
      }
      LineChainStays(init);
      assert Shares(Line[p[|p| - 2]], Line[p[|p| - 1]]);
    }
  }

  /** With the middle contact of `Line` already holding id 5, a search from
      the first contact with id 7 labels the first contact only: the
      labelled middle contact stops it before the last one. */
  lemma DfsStopsAtLabelledContact(after: seq<int>)
    requires Grows([0, 5, 0], after, 7)
    requires NewlyLabelledReachable(Line, 0, [0, 5, 0], after)
    ensures after == [7, 5, 0]
  {
    var before := [0, 5, 0];
    assert Unassigned(before) == {0, 2} by {
      assert 0 in Unassigned(before) && 2 in Unassigned(before);
    }
    ConnectedWithinReflexive(Line, {0, 2}, 0);
    forall p | IsPathIn(Line, {0, 2}, p) && p[0] == 0
      ensures p[|p| - 1] != 2
    {
      LineChainStays(p);
    }
    assert !ConnectedWithin(Line, {0, 2}, 0, 2);
    assert after[0] == 7 && after[1] == 5 && after[2] == 0;
  }

  /** Running `Dfs` on `Line` with the middle contact already labelled. */
  method DfsOnLine() returns (after: seq<int>)
    ensures after == [7, 5, 0]
  {
    var index := BuildIndex(Line);
    var groups := new int[3];
    groups[0], groups[1], groups[2] := 0, 5, 0;
    Dfs(0, Line, index, groups, 7);
    after := groups[..];
    DfsStopsAtLabelledContact(after);
  }

  /** The computation of the demonstration program: group the seven contacts. */
  method GroupSevenContacts() returns (result: seq<seq<nat>>)
    ensures result == [[0, 2, 3, 6], [1, 4, 5]]
  {
    result := UnionContacts(SevenContacts);
    SevenContactsResult(result);
  }
}
