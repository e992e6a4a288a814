# Union of contacts, modelled in Dafny

`Others/UnionContacts.java` groups contact records. A contact is a list of
identifying strings (name, e-mail address, phone number, ...). Two contacts
belong to the same person when they hold an identical string, directly or
through a chain of other contacts. `unionContacts` returns the contact
indices grouped by person. It works in three phases over mutable state:

1. **Index build.** A map from each string to the list of contact indices
   holding it. The lists are created on first use and appended in input
   order.
2. **Labelling.** An `int[] groups` array starts all 0. For each contact
   still at 0, in index order, the recursive `dfs` stamps a fresh group id
   (1, 2, ...) on every contact reachable through shared strings.
3. **Assembly.** One pass over the indices appends index `i` to list
   `groups[i] - 1` of the result. A new list is opened when the id is met
   for the first time.

The model keeps that shape:

- `BuildIndex` is a pair of nested loops over a `map<string, seq<nat>>`.
- `Dfs` is a recursive method that `modifies` an `array<int>`.
- `Label` is the counter loop that calls `Dfs`.
- `Assemble` is the loop that grows the result.
- `UnionContacts` chains the three phases.

Each phase is proved against a specification:

- **Index.** The index equals a reference occurrence list (`Occurrences`).
- **Labelling.** The labels are canonical (ids appear in order of first use). Two contacts get the same label exactly when they are `Connected`.
- **Assembly.** List `h` of the result is the ascending list of contacts labelled `h + 1`.
- **Whole result.** `IsGrouping` holds of it. The result partitions the indices into non-empty ascending lists, ordered by their first member. Each list is exactly one connected component. `IsGrouping` determines the result uniquely, which is how the two documented examples are proved.

Files, one module each:

- `contacts.dfy` (`Contacts`): contacts, the shares-a-string relation, chains, connection.
- `index.dfy` (`ContactIndex`): the index build.
- `labels.dfy` (`Labels`): labels, their maximum, canonical labellings, label classes.
- `labelling.dfy` (`Labelling`): `dfs` and the labelling loop.
- `assembly.dfy` (`Assembly`): result assembly.
- `grouping.dfy` (`ContactGroups`): `unionContacts` and the properties of its result.
- `examples.dfy` (`Examples`): the two documented inputs, and one search stopped by an already labelled contact.

The comment at lines 28-32 says the group ids are put into the result by a final loop so that the order within each group is kept; filling the lists from inside `dfs` is mentioned only as the alternative when order does not matter. The assembly pass runs over `0..n-1` (lines 71-76), so each group is strictly ascending. That is what `Assemble` and `IsGrouping` state.

## Model

| member | source | states |
|---|---|---|
| `ContactIndex.BuildIndex` | Others/UnionContacts.java:51-63 | The nested loops build exactly the reference index. For every string, the list holds each contact index once per occurrence of the string in that contact, in ascending index order. Only strings that occur are keys, and no list is empty. |
| `ContactIndex.IndexOfIsIndex` | Others/UnionContacts.java:54-62 | The loop-by-loop index (a fold of list-creating appends) agrees with the reference occurrence lists, key by key. |
| `ContactIndex.IndexSound` | Others/UnionContacts.java:54-62 | Index `j` is listed under string `s` if and only if `s` occurs in contact `j`. |
| `ContactIndex.IndexOrdered` | Others/UnionContacts.java:54-62 | Every list of the index is non-decreasing. It is strictly increasing when no contact repeats a string, which is the assumption stated at line 14. |
| `Labelling.Dfs` | Others/UnionContacts.java:35-48 | With `g > 0`, `groups[c] > 0` on return. If `groups[c]` already held a positive id, the array is unchanged (the early return). Otherwise the slots that receive `g` are exactly the contacts reached from `c` by a chain of shared strings through contacts unassigned on entry; every other slot keeps its value. Every newly labelled contact has all its direct neighbours labelled. Termination is on the number of unassigned slots. |
| `Labelling.ExploredReachable` | Others/UnionContacts.java:40-47 | A search that labels `c`, whose newly labelled contacts all lie on chains from `c` through unassigned contacts and have all their neighbours labelled, labels every contact `c` reaches through unassigned contacts. |
| `Labelling.NewGroup` | Others/UnionContacts.java:66-67 | A `dfs` from an unassigned contact `i` with the next id preserves the labelling invariant for the first `i + 1` contacts, with `i` recorded as the root of the new id. |
| `Labelling.Label` | Others/UnionContacts.java:64-69 | The labelling loop returns a fresh array with one label per contact. The labels are canonical: each is at least 1 and at most one more than the largest label before it. Two contacts carry the same label if and only if they are connected. |
| `Labelling.LabelDoneCanonical` | Others/UnionContacts.java:64-69 | Ids are handed out in order of the contact that triggers them, so `groups[i] <= 1 + max(groups[0..i))`. |
| `Labelling.LabelDoneComponents` | Others/UnionContacts.java:64-69 | After the loop, `groups[i] == groups[j]` exactly when contacts `i` and `j` are linked by a chain of shared strings. |
| `Labels.CanonicalLabelsDense` | Others/UnionContacts.java:64-69 | Every label lies in `1..max`, and every id up to the largest is used by some contact. |
| `Labels.CanonicalFirstsAscend` | Others/UnionContacts.java:64-69 | The first contact with id `h` comes before the first contact with id `h + 1`. |
| `Assembly.AssembleStep` | Others/UnionContacts.java:72-76 | At every step `0 <= id <= result.size()`, so `result.get(id)` is in range. After the optional new list and the append, list `h` holds the indices so far labelled `h + 1`, and the number of lists equals the largest label so far. |
| `Assembly.Assemble` | Others/UnionContacts.java:70-77 | The result has one list per id. List `h` is the ascending list of all contacts labelled `h + 1`, and no list is empty. |
| `ContactGroups.UnionContacts` | Others/UnionContacts.java:50-79 | The result partitions `0..n-1`. Every list is non-empty and strictly ascending. The lists are ordered by their smallest member. Each list holds exactly the contacts connected to any of its members. |
| `ContactGroups.GroupingFromLabels` | Others/UnionContacts.java:70-77 | Collecting canonical component labels by label yields a grouping in the above sense. |
| `ContactGroups.GroupingUnique` | Others/UnionContacts.java:50-79 | Any two results meeting that description are equal, so the output is fully determined by the input. |
| `ContactGroups.FirstsAreLeast` | Others/UnionContacts.java:28-30 | The first member of each list is exactly a contact with the smallest index in its component. |
| `ContactGroups.IsolatedIffAlone` | Others/UnionContacts.java:70-77 | A contact that shares no string with any other is alone in its list, and a contact alone in its list shares no string with any other. |
| `ContactGroups.GroupingSize` | Others/UnionContacts.java:70-77 | There are never more lists than contacts. |
| `ContactGroups.EmptyInputEmptyResult` | Others/UnionContacts.java:70-78 | No contacts give an empty result. |
| `ContactGroups.GroupingIgnoresStringOrder` | Others/UnionContacts.java:25-27 | Permuting or repeating the strings inside contacts does not change the grouping. |
| `Contacts.ConnectedSymmetric` | Others/UnionContacts.java:25-26 | The link between contacts is undirected: a chain from `i` to `j` gives one from `j` to `i`. |
| `Contacts.ConnectedTransitive` | Others/UnionContacts.java:27 | Chains compose, so the linked contacts form one group. |
| `Examples.FourContactsResult` | Others/UnionContacts.java:6-12 | For the four documented contacts the result is `[[0, 2, 3], [1]]`. |
| `Examples.SevenContactsResult` | Others/UnionContacts.java:82-93 | For the seven contacts of the demonstration program the result is `[[0, 2, 3, 6], [1, 4, 5]]`. |
| `Examples.GroupSevenContacts` | Others/UnionContacts.java:91-93 | Running `UnionContacts` on the seven contacts returns `[[0, 2, 3, 6], [1, 4, 5]]`. |
| `Examples.GroupFourContacts` | Others/UnionContacts.java:6-12 | Running `UnionContacts` on the four documented contacts returns `[[0, 2, 3], [1]]`. |
| `Examples.DfsStopsAtLabelledContact` | Others/UnionContacts.java:37-39 | For contacts `[a]`, `[a, b]`, `[b]` with ids `[0, 5, 0]`, any state meeting `Dfs`'s contract for a search from contact 0 with id 7 is `[7, 5, 0]`: the labelled middle contact stops the search. |
| `Examples.DfsOnLine` | Others/UnionContacts.java:35-48 | Calling `Dfs` on that input returns the array `[7, 5, 0]`. |

## Left out

- `main` and its console output (lines 81-94): only the computation it performs is modelled, as `Examples.GroupSevenContacts`.
- `HashMap` hashing and buckets: the index is a Dafny `map`. Only key lookup, key creation and the order of values within a list matter.
- Aliasing of the index lists: the source keeps a mutable `ArrayList` per key. The model keeps an immutable sequence per key and re-stores it on every append. No other code holds those lists, so nothing observable is lost.
- The result's `ArrayList` objects are modelled as a sequence of sequences, for the same reason.
- JVM recursion depth: `Dfs` stays recursive, and its termination measure is the number of unassigned slots. Stack overflow on deep components is not modelled.
- Merging the strings of a group into one record (the comment at lines 33-34): the source does not implement it.
- Java `int` overflow: indices and ids are unbounded integers. Ids never exceed the number of contacts, and a Java list cannot hold more than `Integer.MAX_VALUE` contacts, so no wrap-around is reachable.
- `null` contacts, `null` strings and `null` input lists: they would make the source throw. They are not modelled.
- Assemble: it requires a canonical labelling, which `Label` guarantees. On an arbitrary array the source's `result.get(id)` could throw, and that error path is not modelled.
- Dfs: it requires the index built from the same contacts. With a foreign map, the source's `map.get(str)` could return `null`, and that error path is not modelled.
