/**
 The order-preserving deduplication pass `remove_duplicates`: one scan over
 the input array that keeps the first item carrying each fingerprint and
 counts every later item whose fingerprint was already seen.
 */
module Deduplicator {
  import opened JsonValue
  import opened Canonical

  /** The fingerprints of a list of items, collected front to back as the
      scan adds them to `seen`. */
  function Fingerprints(xs: seq<Json>): (r: set<Json>)
    decreases |xs|
  {
    if |xs| == 0 then {} else Fingerprints(xs[..|xs| - 1]) + {Fingerprint(xs[|xs| - 1])}
  }

  /** No two items of `xs` share a fingerprint. */
  predicate DistinctFingerprints(xs: seq<Json>) {
    forall i, j :: 0 <= i < j < |xs| ==> Fingerprint(xs[i]) != Fingerprint(xs[j])
  }

  /** Reference definition: item `i` is the first one carrying its fingerprint. */
  ghost predicate IsFirst(data: seq<Json>, i: int)
    requires 0 <= i < |data|
  {
    forall j :: 0 <= j < i ==> Fingerprint(data[j]) != Fingerprint(data[i])
  }

  /** Reference definition: the positions, in increasing order, of the items
      that are first with their fingerprint. */
  ghost function KeptIndices(data: seq<Json>): (r: seq<nat>)
    decreases |data|
  {
    if |data| == 0 then []
    else
      KeptIndices(data[..|data| - 1])
      + (if IsFirst(data, |data| - 1) then [|data| - 1] else [])
  }

  /** One iteration of the scan: an item whose fingerprint is not among
      those of the items kept so far is appended, any other is counted. */
  function Step(acc: (seq<Json>, nat), item: Json): (r: (seq<Json>, nat))
    ensures r == (acc.0, acc.1 + 1) || r == (acc.0 + [item], acc.1)
    ensures r.0 == acc.0 + [item] <==> Fingerprint(item) !in Fingerprints(acc.0)
    ensures Fingerprints(r.0) == Fingerprints(acc.0) + {Fingerprint(item)}
  {
    if Fingerprint(item) in Fingerprints(acc.0) then (acc.0, acc.1 + 1)
    else
      FingerprintsAppend(acc.0, item);
      (acc.0 + [item], acc.1)
  }

  /** The result of the scan: the kept items in input order, and how many
      items were dropped as duplicates. */
  function Dedup(data: seq<Json>): (r: (seq<Json>, nat))
    ensures |r.0| + r.1 == |data|
    decreases |data|
  {
    if |data| == 0 then ([], 0)
    else Step(Dedup(data[..|data| - 1]), data[|data| - 1])
  }

  /** The kept items carry pairwise different fingerprints, and every input
      item's fingerprint is carried by some kept item: nothing distinct is lost. */
  lemma {:induction false} DedupOnePerFingerprint(data: seq<Json>)
    ensures DistinctFingerprints(Dedup(data).0)
    ensures Fingerprints(Dedup(data).0) == Fingerprints(data)
    decreases |data|
  {
    if |data| > 0 {
      var n := |data| - 1;
      var prefix, item := data[..n], data[n];
      DedupOnePerFingerprint(prefix);
      assert data == prefix + [item];
      FingerprintsAppend(prefix, item);
      var unique := Dedup(prefix).0;
      FingerprintsMembers(unique);
      if Fingerprint(item) !in Fingerprints(unique) {
        FingerprintsAppend(unique, item);
      }
    }
  }

  /** Scanning one more item is one more iteration. */
  lemma DedupAppend(prefix: seq<Json>, item: Json)
    ensures Dedup(prefix + [item]) == Step(Dedup(prefix), item)
  {
  }

  lemma FingerprintsAppend(xs: seq<Json>, y: Json)
    ensures Fingerprints(xs + [y]) == Fingerprints(xs) + {Fingerprint(y)}
  {
  }

  /** A fingerprint is collected exactly when some item carries it. */
  lemma FingerprintsMembers(xs: seq<Json>)
    ensures forall i :: 0 <= i < |xs| ==> Fingerprint(xs[i]) in Fingerprints(xs)
    ensures forall c :: c in Fingerprints(xs) ==> exists i :: 0 <= i < |xs| && Fingerprint(xs[i]) == c
  {
    FingerprintsCollected(xs);
    FingerprintsCarried(xs);
  }

  /** Every item's fingerprint is collected. */
  lemma {:induction false} FingerprintsCollected(xs: seq<Json>)
    ensures forall i :: 0 <= i < |xs| ==> Fingerprint(xs[i]) in Fingerprints(xs)
    decreases |xs|
  {
    if |xs| > 0 {
      var n := |xs| - 1;
      FingerprintsCollected(xs[..n]);
      forall i | 0 <= i < n
        ensures Fingerprint(xs[i]) in Fingerprints(xs)
      {
        assert xs[..n][i] == xs[i];
      }
    }
  }

  /** Every collected fingerprint is carried by some item. */
  lemma {:induction false} FingerprintsCarried(xs: seq<Json>)
    ensures forall c :: c in Fingerprints(xs) ==> exists i :: 0 <= i < |xs| && Fingerprint(xs[i]) == c
    decreases |xs|
  {
    if |xs| > 0 {
      var n := |xs| - 1;
      FingerprintsCarried(xs[..n]);
      forall c | c in Fingerprints(xs)
        ensures exists i :: 0 <= i < |xs| && Fingerprint(xs[i]) == c
      {
        if c in Fingerprints(xs[..n]) {
          var i :| 0 <= i < n && Fingerprint(xs[..n][i]) == c;
          assert xs[..n][i] == xs[i];
        } else {
          assert Fingerprint(xs[n]) == c;
        }
      }
    }
  }

  /** The collected fingerprints are the set `{ Fingerprint(x) | x in xs }`. */
  lemma {:induction false} FingerprintsAreCanonForms(xs: seq<Json>)
    ensures Fingerprints(xs) == set x | x in xs :: Fingerprint(x)
  {
    FingerprintsMembers(xs);
    var s := set x | x in xs :: Fingerprint(x);
    forall c | c in s
      ensures c in Fingerprints(xs)
    {
      var x :| x in xs && Fingerprint(x) == c;
      var i :| 0 <= i < |xs| && xs[i] == x;
    }
    forall c | c in Fingerprints(xs)
      ensures c in s
    {
      var i :| 0 <= i < |xs| && Fingerprint(xs[i]) == c;
      assert xs[i] in xs;
    }
  }

  /** The last item is a first occurrence exactly when its fingerprint is not
      among those of the items before it. */
  lemma NotSeenBefore(data: seq<Json>)
    requires |data| > 0
    ensures IsFirst(data, |data| - 1) <==> Fingerprint(data[|data| - 1]) !in Fingerprints(data[..|data| - 1])
  {
    var n := |data| - 1;
    var prefix := data[..n];
    FingerprintsMembers(prefix);
    if IsFirst(data, n) {
      assert forall i :: 0 <= i < n ==> Fingerprint(prefix[i]) != Fingerprint(data[n]);
    } else {
      var j :| 0 <= j < n && Fingerprint(data[j]) == Fingerprint(data[n]);
      assert prefix[j] == data[j];
    }
  }

  /** Whether an item is a first occurrence depends only on the items before it. */
  lemma IsFirstInPrefix(data: seq<Json>, i: int)
    requires 0 <= i < |data| - 1
    ensures IsFirst(data[..|data| - 1], i) <==> IsFirst(data, i)
  {
  }

  /** The reference positions are in range and strictly increasing. */
  lemma {:induction false} KeptIndicesInOrder(data: seq<Json>)
    ensures forall k :: 0 <= k < |KeptIndices(data)| ==> KeptIndices(data)[k] < |data|
    ensures forall k, l :: 0 <= k < l < |KeptIndices(data)| ==> KeptIndices(data)[k] < KeptIndices(data)[l]
    decreases |data|
  {
    if |data| > 0 {
      KeptIndicesInOrder(data[..|data| - 1]);
    }
  }

  /** First occurrence wins: a position is kept exactly when no earlier item
      shares its fingerprint. */
  lemma {:induction false} KeptIndicesAreFirstOccurrences(data: seq<Json>)
    ensures forall i :: 0 <= i < |data| ==> (i in KeptIndices(data) <==> IsFirst(data, i))
    decreases |data|
  {
    if |data| > 0 {
      var n := |data| - 1;
      var prefix := data[..n];
      KeptIndicesAreFirstOccurrences(prefix);
      KeptIndicesInOrder(prefix);
      var ks := KeptIndices(prefix);
      var tail: seq<nat> := if IsFirst(data, n) then [n] else [];
      assert KeptIndices(data) == ks + tail;
      forall i | 0 <= i < |data|
        ensures i in ks + tail <==> IsFirst(data, i)
      {
        if i < n {
          IsFirstInPrefix(data, i);
          assert i !in tail;
        } else {
          assert n !in ks;
        }
      }
    }
  }

  /** The scan keeps exactly the first occurrences, in input order, and its
      count is the number of items that are not first occurrences. */
  lemma {:induction false} DedupKeepsFirstOccurrences(data: seq<Json>)
    ensures |Dedup(data).0| == |KeptIndices(data)|
    ensures forall k :: 0 <= k < |KeptIndices(data)| ==>
              KeptIndices(data)[k] < |data| && Dedup(data).0[k] == data[KeptIndices(data)[k]]
    ensures Dedup(data).1 == |data| - |KeptIndices(data)|
    decreases |data|
  {
    if |data| > 0 {
      var n := |data| - 1;
      var prefix := data[..n];
      DedupKeepsFirstOccurrences(prefix);
      KeptIndicesInOrder(prefix);
      DedupFirstStep(data);
      KeptItemsExtend(data, Dedup(prefix).0, KeptIndices(prefix));
    }
  }

  /** The induction step of `DedupKeepsFirstOccurrences`, on the prefix's
      kept items `unique` and kept positions `ks`. */
  lemma KeptItemsExtend(data: seq<Json>, unique: seq<Json>, ks: seq<nat>)
    requires |data| > 0
    requires unique == Dedup(data[..|data| - 1]).0 && ks == KeptIndices(data[..|data| - 1])
    requires |unique| == |ks|
    requires forall k :: 0 <= k < |ks| ==> ks[k] < |data| - 1 && unique[k] == data[..|data| - 1][ks[k]]
    requires IsFirst(data, |data| - 1) <==> Fingerprint(data[|data| - 1]) !in Fingerprints(unique)
    ensures |Dedup(data).0| == |KeptIndices(data)|
    ensures forall k :: 0 <= k < |KeptIndices(data)| ==>
              KeptIndices(data)[k] < |data| && Dedup(data).0[k] == data[KeptIndices(data)[k]]
  {
    var n := |data| - 1;
    ExtendShapes(data, unique, ks);
    forall k | 0 <= k < |ks|
      ensures unique[k] == data[ks[k]]
    {
      assert data[..n][ks[k]] == data[ks[k]];
    }
    if IsFirst(data, n) {
      var unique', ks' := unique + [data[n]], ks + [n];
      forall k | 0 <= k < |ks'|
        ensures ks'[k] < |data| && unique'[k] == data[ks'[k]]
      {
        if k < |ks| {
          assert ks'[k] == ks[k] && unique'[k] == unique[k];
        }
      }
    }
  }

  /** One more item extends the kept list and the kept positions together,
      or neither. */
  lemma ExtendShapes(data: seq<Json>, unique: seq<Json>, ks: seq<nat>)
    requires |data| > 0
    requires unique == Dedup(data[..|data| - 1]).0 && ks == KeptIndices(data[..|data| - 1])
    requires IsFirst(data, |data| - 1) <==> Fingerprint(data[|data| - 1]) !in Fingerprints(unique)
    ensures IsFirst(data, |data| - 1) ==>
              Dedup(data).0 == unique + [data[|data| - 1]] && KeptIndices(data) == ks + [|data| - 1]
    ensures !IsFirst(data, |data| - 1) ==> Dedup(data).0 == unique && KeptIndices(data) == ks
  {
  }

  /** One step of the scan in terms of the reference definition: the last item
      is appended exactly when it is a first occurrence. */
  lemma DedupFirstStep(data: seq<Json>)
    requires |data| > 0
    ensures IsFirst(data, |data| - 1) <==> Fingerprint(data[|data| - 1]) !in Fingerprints(Dedup(data[..|data| - 1]).0)
  {
    DedupOnePerFingerprint(data[..|data| - 1]);
    NotSeenBefore(data);
  }

  /** An input whose items have pairwise different fingerprints is returned
      unchanged with no duplicates, and only such an input is. */
  lemma {:induction false} DedupIdentityIffDistinct(data: seq<Json>)
    ensures DistinctFingerprints(data) <==> Dedup(data) == (data, 0)
    decreases |data|
  {
    DedupOnePerFingerprint(data);
    if |data| > 0 && DistinctFingerprints(data) {
      var n := |data| - 1;
      var prefix, item := data[..n], data[n];
      assert DistinctFingerprints(prefix);
      DedupIdentityIffDistinct(prefix);
      assert IsFirst(data, n);
      NotSeenBefore(data);
      assert Dedup(data) == Step((prefix, 0), item);
      assert prefix + [item] == data;
    }
  }

  /** Idempotence: deduplicating the output again changes nothing. */
  lemma {:induction false} DedupIdempotent(data: seq<Json>)
    ensures Dedup(Dedup(data).0) == (Dedup(data).0, 0)
  {
    DedupOnePerFingerprint(data);
    DedupIdentityIffDistinct(Dedup(data).0);
  }

  /** The loop of `remove_duplicates`: `seen` holds the fingerprints of the
      items kept so far. */
  method RemoveDuplicates(data: seq<Json>) returns (unique: seq<Json>, duplicates: nat)
    ensures unique == Dedup(data).0 && duplicates == Dedup(data).1
  {
    unique := [];
    duplicates := 0;
    var seen: set<Json> := {};
    var idx := 0;
    while idx < |data|
      invariant 0 <= idx <= |data|
      invariant |unique| + duplicates == idx
      invariant seen == Fingerprints(unique)
      invariant (unique, duplicates) == Dedup(data[..idx])
    {
      var item := data[idx];
      var itemKey := Fingerprint(item);
      assert data[..idx + 1][..idx] == data[..idx];
      if itemKey !in seen {
        FingerprintsAppend(unique, item);
        seen := seen + {itemKey};
        unique := unique + [item];
      } else {
        duplicates := duplicates + 1;
      }
      idx := idx + 1;
    }
    assert data[..idx] == data;
  }
}
