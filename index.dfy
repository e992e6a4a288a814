/**
  The identifier index of `unionContacts`: a map from each identifying
  string to the indices of the contacts that hold it, built by appending
  contact indices in input order.
*/
module ContactIndex {
  import opened Contacts

  /** The index as the source keeps it: string -> list of contact indices. */
  type Index = map<string, seq<nat>>

  /** `x` repeated `k` times. */
  function Repeat(x: nat, k: nat): (r: seq<nat>)
    ensures |r| == k && forall y :: y in r ==> y == x
  {
    if k == 0 then [] else Repeat(x, k - 1) + [x]
  }

  /** Reference definition of the list kept for `s` once the first `n`
      contacts are indexed: every contact index `i < n`, once for each
      occurrence of `s` in contact `i`, in ascending order of `i`. */
  function Occurrences(cs: seq<Contact>, s: string, n: nat): seq<nat>
    requires n <= |cs|
  {
    if n == 0 then [] else Occurrences(cs, s, n - 1) + Repeat(n - 1, multiset(cs[n - 1])[s])
  }

  /** The list `index` holds for `s`, or the empty list when `s` is no key. */
  function Lookup(index: Index, s: string): seq<nat> {
    if s in index then index[s] else []
  }

  /** `index` is the identifier index of `cs`: each string maps to its
      occurrence list, and only strings that occur somewhere are keys. */
  ghost predicate IsIndex(cs: seq<Contact>, index: Index) {
    IndexesUpTo(cs, index, |cs|)
  }

  /** `index` holds the occurrence lists of the first `n` contacts. */
  ghost predicate IndexesUpTo(cs: seq<Contact>, index: Index, n: nat)
    requires n <= |cs|
  {
    && (forall s :: Lookup(index, s) == Occurrences(cs, s, n))
    && (forall s :: s in index ==> index[s] != [])
  }

  /** Appending contact index `i` to the list of `str`, the list being
      created empty on first use. */
  function AddId(index: Index, str: string, i: nat): Index {
    index[str := Lookup(index, str) + [i]]
  }

  /** The index after appending `i` for each of the strings `c`, in order. */
  function AddContact(index: Index, c: Contact, i: nat): Index
    decreases |c|
  {
    if c == [] then index else AddId(AddContact(index, c[..|c| - 1], i), c[|c| - 1], i)
  }

  /** The index after the first `n` contacts, as the nested loops build it. */
  function IndexOf(cs: seq<Contact>, n: nat): Index
    requires n <= |cs|
  {
    if n == 0 then map[] else AddContact(IndexOf(cs, n - 1), cs[n - 1], n - 1)
  }

  /** No identifying string is repeated within contact `c`. */
  ghost predicate DistinctInfos(c: Contact) {
    forall a, b :: 0 <= a < b < |c| ==> c[a] != c[b]
  }

  /** Builds the identifier index: for each contact in order, for each of its
      strings in order, append the contact's index to that string's list,
      creating the list on first use. */
  method BuildIndex(cs: seq<Contact>) returns (index: Index)
    ensures IsIndex(cs, index)
  {
    index := map[];
    var i := 0;
    while i < |cs|
      invariant 0 <= i <= |cs|
      invariant index == IndexOf(cs, i)
    {
      var contact := cs[i];
      var p := 0;
      while p < |contact|
        invariant 0 <= p <= |contact|
        invariant index == AddContact(IndexOf(cs, i), contact[..p], i)
      {
        var str := contact[p];
        if str !in index {
          index := index[str := []];
        }
        index := index[str := index[str] + [i]];
        assert contact[..p + 1][..p] == contact[..p];
        p := p + 1;
      }
      assert contact[..p] == contact;
      i := i + 1;
    }
    IndexOfIsIndex(cs, |cs|);
  }

  /** Adding the strings of one contact appends `i` once per occurrence. */
  lemma {:induction false} AddContactLookup(index: Index, c: Contact, i: nat, s: string)
    ensures Lookup(AddContact(index, c, i), s) == Lookup(index, s) + Repeat(i, multiset(c)[s])
    decreases |c|
  {
    if c != [] {
      var init, last := c[..|c| - 1], c[|c| - 1];
      assert c == init + [last];
      assert multiset(c)[s] == multiset(init)[s] + (if last == s then 1 else 0);
      AddContactLookup(index, init, i, s);
      var before := AddContact(index, init, i);
      assert AddContact(index, c, i) == AddId(before, last, i);
      if last == s {
        assert Repeat(i, multiset(c)[s]) == Repeat(i, multiset(init)[s]) + [i];
        assert Lookup(AddId(before, last, i), s) == Lookup(before, s) + [i];
      } else {
        assert Lookup(AddId(before, last, i), s) == Lookup(before, s);
      }
    }
  }

  /** A string is a key after adding a contact only if it was one before or
      the contact holds it. */
  lemma {:induction false} AddContactKeys(index: Index, c: Contact, i: nat, s: string)
    ensures s in AddContact(index, c, i) ==> s in index || s in c
    decreases |c|
  {
    if c != [] {
      AddContactKeys(index, c[..|c| - 1], i, s);
      assert s in c[..|c| - 1] ==> s in c;
    }
  }

  /** The nested loops build exactly the reference index. */
  lemma {:induction false} IndexOfIsIndex(cs: seq<Contact>, n: nat)
    requires n <= |cs|
    ensures forall s :: Lookup(IndexOf(cs, n), s) == Occurrences(cs, s, n)
    ensures forall s :: s in IndexOf(cs, n) ==> IndexOf(cs, n)[s] != []
  {
    if n > 0 {
      IndexOfIsIndex(cs, n - 1);
      var prev := IndexOf(cs, n - 1);
      forall s
        ensures Lookup(IndexOf(cs, n), s) == Occurrences(cs, s, n)
        ensures s in IndexOf(cs, n) ==> IndexOf(cs, n)[s] != []
      {
        AddContactLookup(prev, cs[n - 1], n - 1, s);
        AddContactKeys(prev, cs[n - 1], n - 1, s);
        assert Lookup(prev, s) == Occurrences(cs, s, n - 1);
      }
    }
  }

  lemma {:induction false} OccurrencesMembership(cs: seq<Contact>, s: string, n: nat, i: nat)
    requires n <= |cs|
    ensures i in Occurrences(cs, s, n) <==> i < n && s in cs[i]
  {
    if n > 0 {
      OccurrencesMembership(cs, s, n - 1, i);
      var prev, r := Occurrences(cs, s, n - 1), Repeat(n - 1, multiset(cs[n - 1])[s]);
      assert Occurrences(cs, s, n) == prev + r;
      assert i in prev + r <==> i in prev || i in r;
      assert r != [] ==> r[0] in r;
      assert i in r <==> i == n - 1 && s in cs[n - 1];
    }
  }

  /** Every list of the index is non-decreasing: contacts are appended in
      ascending index order. */
  lemma {:induction false} OccurrencesNonDecreasing(cs: seq<Contact>, s: string, n: nat)
    requires n <= |cs|
    ensures NonDecreasing(Occurrences(cs, s, n))
    ensures forall x :: x in Occurrences(cs, s, n) ==> x < n
  {
    if n > 0 {
      OccurrencesNonDecreasing(cs, s, n - 1);
      var prev := Occurrences(cs, s, n - 1);
      var r := Repeat(n - 1, multiset(cs[n - 1])[s]);
      assert forall a :: 0 <= a < |prev| ==> prev[a] in prev;
      assert forall a :: 0 <= a < |r| ==> r[a] in r;
    }
  }

  lemma DistinctInfosCount(c: Contact, s: string)
    requires DistinctInfos(c)
    ensures multiset(c)[s] <= 1
  {
    if c != [] {
      var last := |c| - 1;
      assert c == c[..last] + [c[last]];
      assert DistinctInfos(c[..last]);
      DistinctInfosCount(c[..last], s);
      if c[last] == s {
        assert s !in c[..last];
      }
    }
  }

  /** When no contact repeats a string (the source's stated assumption), every
      list of the index is strictly increasing. */
  lemma {:induction false} OccurrencesStrictlyIncreasing(cs: seq<Contact>, s: string, n: nat)
    requires n <= |cs|
    requires forall i :: 0 <= i < n ==> DistinctInfos(cs[i])
    ensures StrictlyIncreasing(Occurrences(cs, s, n))
  {
    if n > 0 {
      OccurrencesStrictlyIncreasing(cs, s, n - 1);
      OccurrencesNonDecreasing(cs, s, n - 1);
      DistinctInfosCount(cs[n - 1], s);
      var prev := Occurrences(cs, s, n - 1);
      assert forall a :: 0 <= a < |prev| ==> prev[a] in prev;
    }
  }

  /** What the traversal relies on: a listed contact holds the string, and a
      contact holding a string is listed under it. */
  lemma IndexSound(cs: seq<Contact>, index: Index, s: string, j: nat)
    requires IsIndex(cs, index)
    ensures s in index && j in index[s] <==> j < |cs| && s in cs[j]
  {
    OccurrencesMembership(cs, s, |cs|, j);
    assert Lookup(index, s) == Occurrences(cs, s, |cs|);
  }

  /** Properties of the built index: membership in both directions, lists in
      ascending order, and strictly ascending under distinct strings. */
  lemma IndexOrdered(cs: seq<Contact>, index: Index, s: string)
    requires IsIndex(cs, index) && s in index
    ensures NonDecreasing(index[s])
    ensures (forall i :: 0 <= i < |cs| ==> DistinctInfos(cs[i])) ==> StrictlyIncreasing(index[s])
  {
    OccurrencesNonDecreasing(cs, s, |cs|);
    if forall i :: 0 <= i < |cs| ==> DistinctInfos(cs[i]) {
      OccurrencesStrictlyIncreasing(cs, s, |cs|);
    }
  }
}
