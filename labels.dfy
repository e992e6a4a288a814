/**
  Group labels, as the `groups` array of `unionContacts` holds them: slot `k`
  holds the group id of contact `k`, ids start at 1.
*/
module Labels {
  import opened Contacts

  /** The largest label in `gs`, or 0 when `gs` is empty. */
  function Max(gs: seq<int>): (m: int)
    ensures m >= 0
    ensures forall k :: 0 <= k < |gs| ==> gs[k] <= m
    ensures m == 0 || exists k :: 0 <= k < |gs| && gs[k] == m
  {
    if gs == [] then 0
    else
      var rest := Max(gs[..|gs| - 1]);
      assert forall k :: 0 <= k < |gs| - 1 ==> gs[..|gs| - 1][k] == gs[k];
      if gs[|gs| - 1] > rest then gs[|gs| - 1] else rest
  }

  /** Labels are positive and numbered in order of first appearance: no label
      exceeds by more than one the largest label seen before it. */
  ghost predicate Canonical(gs: seq<int>) {
    forall k {:trigger MaxBefore(gs, k)} :: 0 <= k < |gs| ==> 1 <= gs[k] <= MaxBefore(gs, k) + 1
  }

  /** The largest label among the first `k` slots. */
  function MaxBefore(gs: seq<int>, k: nat): int
    requires k <= |gs|
  {
    Max(gs[..k])
  }

  /** The canonical-labelling condition at one slot. */
  lemma CanonicalAt(gs: seq<int>, k: nat)
    requires Canonical(gs) && k < |gs|
    ensures 1 <= gs[k] <= Max(gs[..k]) + 1
  {
    assert MaxBefore(gs, k) == Max(gs[..k]);
  }

  /** Contact indices below `n` whose label is `h`, in ascending order. */
  function Members(gs: seq<int>, h: int, n: nat): (r: seq<nat>)
    requires n <= |gs|
    ensures forall x {:trigger x in r} :: x in r <==> 0 <= x < n && gs[x] == h
    ensures StrictlyIncreasing(r)
  {
    if n == 0 then []
    else
      var prev := Members(gs, h, n - 1);
      assert forall a :: 0 <= a < |prev| ==> prev[a] in prev;
      prev + (if gs[n - 1] == h then [n - 1] else [])
  }

  lemma MaxSnoc(gs: seq<int>, i: nat)
    requires i < |gs|
    ensures Max(gs[..i + 1]) == if gs[i] > Max(gs[..i]) then gs[i] else Max(gs[..i])
  {
    assert gs[..i + 1][..i] == gs[..i];
  }

  lemma MaxWhole(gs: seq<int>)
    ensures Max(gs[..|gs|]) == Max(gs)
  {
    assert gs[..|gs|] == gs;
  }

  /** In a canonical labelling every label up to the largest one seen in a
      prefix occurs in that prefix. */
  lemma {:induction false} CanonicalLabelsPresent(gs: seq<int>, i: nat, h: int)
    requires Canonical(gs) && i <= |gs| && 1 <= h <= Max(gs[..i])
    ensures Members(gs, h, i) != []
  {
    if i > 0 {
      MaxSnoc(gs, i - 1);
      CanonicalAt(gs, i - 1);
      if h <= Max(gs[..i - 1]) {
        CanonicalLabelsPresent(gs, i - 1, h);
        var x := Members(gs, h, i - 1)[0];
        assert x in Members(gs, h, i);
      } else {
        assert gs[i - 1] == h;
        assert i - 1 in Members(gs, h, i);
      }
    }
  }

  /** In a canonical labelling the first contact with label `h` comes before
      the first contact with label `h + 1`. */
  lemma CanonicalFirstsAscend(gs: seq<int>, h: int)
    requires Canonical(gs) && 1 <= h && Members(gs, h + 1, |gs|) != []
    ensures Members(gs, h, |gs|) != []
    ensures Members(gs, h, |gs|)[0] < Members(gs, h + 1, |gs|)[0]
  {
    var n := |gs|;
    var k := Members(gs, h + 1, n)[0];
    assert k in Members(gs, h + 1, n);
    assert gs[k] == h + 1;
    CanonicalAt(gs, k);
    assert Max(gs[..k]) >= h;
    CanonicalLabelsPresent(gs, k, h);
    var x := Members(gs, h, k)[0];
    assert x in Members(gs, h, k);
    assert x in Members(gs, h, n);
  }

  /** A canonical labelling uses exactly the labels 1 to its largest one:
      each slot holds one of them, and each of them occurs. */
  lemma CanonicalLabelsDense(gs: seq<int>)
    requires Canonical(gs)
    ensures forall k :: 0 <= k < |gs| ==> 1 <= gs[k] <= Max(gs)
    ensures forall h :: 1 <= h <= Max(gs) ==> Members(gs, h, |gs|) != []
  {
    forall k | 0 <= k < |gs|
      ensures 1 <= gs[k]
    {
      CanonicalAt(gs, k);
    }
    MaxWhole(gs);
    forall h | 1 <= h <= Max(gs)
      ensures Members(gs, h, |gs|) != []
    {
      CanonicalLabelsPresent(gs, |gs|, h);
    }
  }
}
