# Duplicate removal for JSON record arrays

This project models `remove_duplicates` from `scripts/remove_duplicates.py`.
The function takes the decoded JSON array of a dataset and scans it once, in
order. For each item it computes a fingerprint: the item serialised with
`json.dumps(item, sort_keys=True)`. The item is kept if that fingerprint has
not been seen before. Otherwise it is counted as a duplicate. The function
returns the kept items in input order together with the duplicate count. The
script's default output path is modelled too.

Modules:

- `KeyOrder` defines the key order `sort_keys=True` uses. Python compares
  `str` keys code point by code point, and a proper prefix sorts first. The
  module proves that this order is irreflexive, asymmetric, transitive and
  total.
- `JsonValue` defines the decoded values, `Json`. An object is a list of
  `Member`s in insertion order, as a Python dict keeps them. The module also
  defines a value's `Kind` and the predicates for sorted and normal forms.
- `Canonical` defines `Canon`, the normal form of a value: every object's
  members, at every depth, sorted by key with an insertion sort. It also
  defines `Fingerprint`, which stands in for the serialised string. With
  sorted keys the text no longer records member order. It is a one-to-one
  rendering of the normal form for null, booleans, integers, strings, arrays
  and objects with pairwise different keys. So two items get equal strings
  exactly when their normal forms are equal.
- `MemberOrder` says what equal fingerprints mean for values whose objects
  have pairwise different keys, as every value `json.load` returns does.
  `SameUpToMemberOrder` compares objects by key lookup at every depth, and
  scalars by kind and value. This is stricter than Python's `==`, under which
  `True == 1`: `json.dumps` prints `true` and `1` differently, so the script
  keeps both. Equal fingerprints hold exactly when two values are the same up
  to member order.
- `Deduplicator` defines the scan. `Step` is one loop iteration and `Dedup` is
  the whole scan, as a function. `RemoveDuplicates` is the loop itself, with
  the `seen` set, proved equal to `Dedup`. The reference definition is
  `IsFirst` / `KeptIndices`: the positions whose item is the first to carry
  its fingerprint.
- `OutputPath` resolves the output file name.
- `Scenarios` proves small cases: a repeated record, members reordered at the
  top level and inside a nested object, and `1` versus `"1"`.

The type annotation of `remove_duplicates` says it returns a list. The code
returns a pair (kept items, duplicate count), and the model follows the code.

## Model

| member | source | states |
|---|---|---|
| Deduplicator.Dedup | scripts/remove_duplicates.py:7-24 | the number of kept items plus the duplicate count equals the number of input items |
| Deduplicator.Step | scripts/remove_duplicates.py:15-21 | each iteration either appends the item to the kept list or adds one to the count, never both. It appends exactly when the item's fingerprint is not yet in the seen set. Afterwards the seen set holds the item's fingerprint as well |
| Deduplicator.RemoveDuplicates | scripts/remove_duplicates.py:9-24 | the loop with its `seen` set returns exactly the kept list and the duplicate count of the scan `Dedup` |
| Deduplicator.DedupAppend | scripts/remove_duplicates.py:13-21 | scanning one more item runs one more iteration on the result for the items before it |
| Deduplicator.DedupOnePerFingerprint | scripts/remove_duplicates.py:13-21 | no two kept items share a fingerprint, and every fingerprint of the input is carried by some kept item |
| Deduplicator.FingerprintsAppend | scripts/remove_duplicates.py:18 | adding an item to the kept list adds exactly its fingerprint to the seen set |
| Deduplicator.FingerprintsMembers | scripts/remove_duplicates.py:10 | a fingerprint is in the seen set exactly when some kept item carries it |
| Deduplicator.FingerprintsAreCanonForms | scripts/remove_duplicates.py:10 | the seen set is the set of the kept items' fingerprints |
| Deduplicator.NotSeenBefore | scripts/remove_duplicates.py:15-17 | the last item is the first to carry its fingerprint exactly when no earlier item's fingerprint equals it |
| Deduplicator.IsFirstInPrefix | scripts/remove_duplicates.py:13-17 | whether an item is a first occurrence depends only on the items before it |
| Deduplicator.KeptIndicesInOrder | scripts/remove_duplicates.py:13-19 | the first-occurrence positions lie inside the input and are strictly increasing |
| Deduplicator.KeptIndicesAreFirstOccurrences | scripts/remove_duplicates.py:15-19 | a position is among the first-occurrence positions exactly when no earlier item shares its fingerprint |
| Deduplicator.DedupFirstStep | scripts/remove_duplicates.py:17-21 | the scan appends the last item exactly when it is a first occurrence |
| Deduplicator.KeptItemsExtend | scripts/remove_duplicates.py:17-21 | if the kept list matches the first occurrences of a prefix, it still matches them after one more item |
| Deduplicator.DedupKeepsFirstOccurrences | scripts/remove_duplicates.py:13-24 | the kept list is the input restricted to its first occurrences, in input order. Together with `KeptIndicesInOrder` it is an order-preserving subsequence in which the first occurrence wins. The duplicate count is the number of other items |
| Deduplicator.DedupIdentityIffDistinct | scripts/remove_duplicates.py:13-24 | an input whose items have pairwise different fingerprints comes back unchanged with count 0, and only such an input does |
| Deduplicator.DedupIdempotent | scripts/remove_duplicates.py:13-24 | deduplicating the output again returns it unchanged with count 0 |
| Canonical.Fingerprint | scripts/remove_duplicates.py:15 | the fingerprint `item_str` of an item. It is defined as the normal form and has no contract of its own. What equal fingerprints mean is stated by `MemberOrder.SameFingerprintIffSameUpToMemberOrder` |
| Deduplicator.Fingerprints | scripts/remove_duplicates.py:10-18 | the `seen` set after scanning a list: one fingerprint added per kept item. It has no contract of its own. Its meaning is stated by `FingerprintsMembers` and `FingerprintsAreCanonForms` |
| KeyOrder.Less | scripts/remove_duplicates.py:15 | Python's `str` order, which `sort_keys=True` sorts by. It compares code point by code point, and a proper prefix sorts first. It has no contract of its own. Its order properties are stated by the `KeyOrder` lemmas |
| Canonical.Insert | scripts/remove_duplicates.py:15 | inserting a member yields the old members plus that one, as a multiset |
| Canonical.SortMembers | scripts/remove_duplicates.py:15 | `sort_keys=True` lays out a permutation of the members in non-decreasing key order |
| Canonical.Canon | scripts/remove_duplicates.py:15 | normalising keeps a value's JSON kind and the length of its arrays and objects |
| Canonical.CanonElems | scripts/remove_duplicates.py:15 | an array is normalised element by element |
| Canonical.CanonMembers | scripts/remove_duplicates.py:15 | an object's values are normalised member by member, and the keys are kept |
| Canonical.InsertKeepsSorted | scripts/remove_duplicates.py:15 | inserting into a key-sorted member list keeps it sorted |
| Canonical.InsertKeepsStrictlySorted | scripts/remove_duplicates.py:15 | inserting a new key into a strictly sorted list keeps it strictly sorted |
| Canonical.SortMembersStrictlySorted | scripts/remove_duplicates.py:15 | a dict's members, whose keys are pairwise different, come out in strictly increasing key order |
| Canonical.SortMembersOfSorted | scripts/remove_duplicates.py:15 | members that are already sorted are left in place |
| Canonical.StrictlySortedUnique | scripts/remove_duplicates.py:15 | two strictly sorted member lists holding the same members are equal |
| Canonical.CanonMembersSameMembers | scripts/remove_duplicates.py:15 | normalising two lists that hold the same members gives two lists that hold the same members |
| Canonical.SortMembersSameMembers | scripts/remove_duplicates.py:15 | sorting keeps exactly the members it was given |
| Canonical.KeyOrderInsensitive | scripts/remove_duplicates.py:15 | two objects holding the same members, listed in any order, have the same fingerprint |
| Canonical.CanonIsNormal | scripts/remove_duplicates.py:15 | every fingerprint is in normal form, with every object sorted at every depth |
| Canonical.CanonOfNormal | scripts/remove_duplicates.py:15 | a value already in normal form is its own fingerprint |
| Canonical.CanonIdempotent | scripts/remove_duplicates.py:15 | fingerprinting a fingerprint changes nothing |
| Canonical.NormalFormsDistinguished | scripts/remove_duplicates.py:15 | two values in normal form share a fingerprint exactly when they are the same value: different values never collide |
| MemberOrder.SameFingerprintIffSameUpToMemberOrder | scripts/remove_duplicates.py:15 | two values, each with pairwise different keys in every object, get equal fingerprints exactly when they are the same up to the member order of every object at every depth. So reordering members inside nested objects still gives a duplicate, and a number and a string never match at any depth |
| MemberOrder.SameUpToMemberOrderSameFingerprint | scripts/remove_duplicates.py:15 | values that agree up to member order at every depth have equal fingerprints |
| MemberOrder.SameFingerprintSameUpToMemberOrder | scripts/remove_duplicates.py:15 | values with equal fingerprints agree up to member order at every depth: the kind, every scalar, every array element and every key's value match |
| MemberOrder.CanonMembersKeyOrderInsensitive | scripts/remove_duplicates.py:15 | two objects whose members, after normalising their values, are the same in any order have the same fingerprint |
| MemberOrder.MatchedMembersSameCanonMembers | scripts/remove_duplicates.py:15 | member lists matched key by key, with values of equal fingerprints, normalise to lists holding the same members |
| MemberOrder.ArrFingerprints | scripts/remove_duplicates.py:15 | an array shares its fingerprint only with an array of the same length whose elements share theirs pointwise |
| MemberOrder.ObjSameCanonMembers | scripts/remove_duplicates.py:15 | an object shares its fingerprint only with an object whose normalised members are the same |
| MemberOrder.SameCanonMembersMatched | scripts/remove_duplicates.py:15 | normalised member lists holding the same members match key by key, in both directions |
| MemberOrder.ValueOf | scripts/remove_duplicates.py:15 | the dict lookup `dct[k]` returns the value of some member with key `k` |
| MemberOrder.ValueOfMember | scripts/remove_duplicates.py:15 | with pairwise different keys, looking up a member's key returns that member's value |
| Scenarios.NestedReorderedIsDuplicate | scripts/remove_duplicates.py:13-21 | for any keys `k` ≠ `z`, `a` ≠ `b` and any values, the object `{k:{a:va,b:vb},z:vz}` followed by `{z:vz,k:{b:vb,a:va}}`, reordered at both depths, gives the first object and count 1 |
| Scenarios.NestedReorderedExample | scripts/remove_duplicates.py:13-21 | `{"k":{"a":1,"b":2},"z":0}` followed by `{"z":0,"k":{"b":2,"a":1}}` gives the first object and count 1 |
| Scenarios.TwoMembersSwapped | scripts/remove_duplicates.py:15 | two two-member objects with the same two keys in opposite orders, and values of equal fingerprints under each key, have equal fingerprints |
| Scenarios.SwappedMembersMatched | scripts/remove_duplicates.py:15 | the members of two such objects match key by key in both directions, and each object's keys are pairwise different |
| Scenarios.SwappedKeysDistinct | scripts/remove_duplicates.py:15 | two different keys listed in opposite orders are pairwise different in both member lists |
| Scenarios.SwappedKeysPresent | scripts/remove_duplicates.py:15 | every key of the reordered object is a key of the original |
| MemberOrder.MatchedObjectsSameFingerprint | scripts/remove_duplicates.py:15 | two objects with pairwise different keys, whose members match key by key with values of equal fingerprints, have equal fingerprints |
| MemberOrder.SameUpToMemberOrderReflexive | scripts/remove_duplicates.py:15 | every value with pairwise different keys in every object is the same as itself up to member order |
| MemberOrder.CounterpartCanonMember | scripts/remove_duplicates.py:15 | a member with a counterpart under its key normalises to a member of the other object's normalised list |
| MemberOrder.CounterpartCanonMemberBack | scripts/remove_duplicates.py:15 | when the other object's keys are pairwise different, the member under the same key normalises to the very same member |
| MemberOrder.CanonMembersMatched | scripts/remove_duplicates.py:15 | if every normalised member of one object is a normalised member of another, every member has a counterpart with an equal fingerprint under its key |
| MemberOrder.CanonMemberFound | scripts/remove_duplicates.py:15 | one member of such an object has a counterpart, and its key is present in the other object |
| Deduplicator.FingerprintsCollected | scripts/remove_duplicates.py:17-18 | every kept item's fingerprint is in the seen set |
| Deduplicator.FingerprintsCarried | scripts/remove_duplicates.py:10-18 | every fingerprint in the seen set belongs to some kept item |
| Deduplicator.ExtendShapes | scripts/remove_duplicates.py:15-21 | one more item extends both the kept list and the first-occurrence positions by that item when it is a first occurrence, and leaves both unchanged otherwise |
| KeyOrder.LessIrreflexive | scripts/remove_duplicates.py:15 | no key sorts before itself |
| KeyOrder.LessAsymmetric | scripts/remove_duplicates.py:15 | two keys never sort before each other |
| KeyOrder.LessTransitive | scripts/remove_duplicates.py:15 | the key order is transitive |
| KeyOrder.LessTotal | scripts/remove_duplicates.py:15 | any two different keys are ordered one way or the other |
| KeyOrder.LessOrEqualTransitive | scripts/remove_duplicates.py:15 | "sorts no later than" is transitive |
| OutputPath.ResolveOutput | scripts/remove_duplicates.py:35-36 | a path given with `-o` is used as it is. Without one, the output path is the input path followed by `.dedup`, so the default path differs from the input path |
| Scenarios.SingleKept | scripts/remove_duplicates.py:13-19 | a one-item input is kept whole, and its fingerprint is the only one seen |
| Scenarios.TwoDistinctKept | scripts/remove_duplicates.py:13-19 | two items with different fingerprints are both kept, in order, with count 0 |
| Scenarios.SameFingerprintDropped | scripts/remove_duplicates.py:13-21 | of two items with equal fingerprints only the first is kept, and the count is 1 |
| Scenarios.RepeatedRecordDropped | scripts/remove_duplicates.py:13-24 | in `[a, b, a]` with `a` and `b` different, the repeat is dropped and counted: the result is `([a, b], 1)` |
| Scenarios.ReorderedObjectIsDuplicate | scripts/remove_duplicates.py:15-21 | an object followed by the same members in another order: the second is a duplicate |
| Scenarios.KindsKeptApart | scripts/remove_duplicates.py:15-19 | values of different JSON kinds, such as `1` and `"1"`, are never duplicates |
| Scenarios.ContractRecords | scripts/remove_duplicates.py:13-24 | the record example with `contract_name` A, B, A gives the first two records and count 1 |
| Scenarios.SwappedMembers | scripts/remove_duplicates.py:15 | `{"a":1,"b":2}` followed by `{"b":2,"a":1}` gives the first object and count 1 |
| Scenarios.BoolAndIntMembers | scripts/remove_duplicates.py:15-19 | `{"x":true}` and `{"x":1}`, equal under Python's `==`, are both kept with count 0 |
| Scenarios.BoolIsNotOne | scripts/remove_duplicates.py:15 | `{"x":true}` and `{"x":1}` are not the same up to member order: scalars are compared by kind and value |
| Scenarios.NumberAndStringMembers | scripts/remove_duplicates.py:15 | `{"x":1}` and `{"x":"1"}` are both kept |

## Left out

- Argument parsing, file reading and writing, `json.load` and `json.dump` (lines 26-33 and 38-52) are I/O. The model starts from the decoded array and ends at the returned pair.
- The progress and summary output, and the per-duplicate diagnostic line (line 22), are printing only.
- The diagnostic reads `item.get('contract_name', 'N/A')`. For a duplicate item that is not an object, this raises, and `main` turns that into an error exit. The model treats such duplicates like any other. The function is written for arrays of dicts.
- The exception handlers and exit codes (lines 63-71) are left out with the I/O they guard.
- Floating-point numbers are left out. Numbers are integers, so `1` versus `1.0` and NaN are not modelled.
- Canonical.Fingerprint: the serialised string itself is not built. The normal form stands in for it. This relies on the sorted-key text being a one-to-one rendering of the normal form for the modelled values, which is assumed and not proved.
- Canonical.KeyOrderInsensitive: this covers one object whose members are reordered at the top level, and requires the keys of each object to be pairwise different. A Python dict cannot hold a key twice, but a member list in the model could. Reordering at every depth is covered by `MemberOrder.SameFingerprintIffSameUpToMemberOrder`, under the same key requirement.
- Canonical.Canon: its own contract only keeps the kind and the length. What the normal form means is stated by `CanonIsNormal`, `CanonOfNormal`, `KeyOrderInsensitive` and `NormalFormsDistinguished`.
- MemberOrder.SameFingerprintIffSameUpToMemberOrder: requires every object in both values to have pairwise different keys. A Python dict cannot hold a key twice, but a member list in the model could, and lookup by key does not describe such a list.
