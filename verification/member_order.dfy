/**
 What equal fingerprints mean for values whose objects have pairwise
 different keys: `json.dumps(..., sort_keys=True)` sorts the keys of every
 object at every depth, so two such values get the same fingerprint exactly
 when they are the same value once the member order of each object is
 ignored. Scalars are compared by kind and value, not by Python's `==`:
 `true` and `1` print differently.
 */
module MemberOrder {
  import opened JsonValue
  import opened Canonical

  /** Some member of `ms` has key `k`. */
  predicate HasKey(ms: seq<Member>, k: string) {
    exists i :: 0 <= i < |ms| && ms[i].key == k
  }

  /** The value stored under key `k`: `dct[k]` in Python. */
  function ValueOf(ms: seq<Member>, k: string): (v: Json)
    requires HasKey(ms, k)
    ensures exists i :: 0 <= i < |ms| && ms[i].key == k && ms[i].value == v
  {
    if ms[0].key == k then ms[0].value
    else
      var i :| 0 <= i < |ms| && ms[i].key == k;
      assert ms[1..][i - 1].key == k;
      ValueOf(ms[1..], k)
  }

  /** With pairwise different keys, a key's value is the one its member holds. */
  lemma ValueOfMember(ms: seq<Member>, j: int)
    requires DistinctKeys(ms) && 0 <= j < |ms|
    ensures HasKey(ms, ms[j].key) && ValueOf(ms, ms[j].key) == ms[j].value
  {
    assert ms[j].key == ms[j].key;
    var v := ValueOf(ms, ms[j].key);
    var i :| 0 <= i < |ms| && ms[i].key == ms[j].key && ms[i].value == v;
  }

  /** Some member of `ms'` has the key of `m` and a value with the same
      fingerprint as the value of `m`. */
  predicate HasCounterpart(m: Member, ms': seq<Member>) {
    exists j :: 0 <= j < |ms'| && ms'[j].key == m.key && Fingerprint(ms'[j].value) == Fingerprint(m.value)
  }

  /** `a` and `b` are the same value up to the order of members in each
      object, at every depth: arrays match element by element; two objects
      have the same keys, and each key's values match. Scalars must be
      equal. */
  predicate SameUpToMemberOrder(a: Json, b: Json)
    decreases a
  {
    match a
    case Arr(es) =>
      b.Arr? && |es| == |b.elems| &&
      forall k :: 0 <= k < |es| ==> SameUpToMemberOrder(es[k], b.elems[k])
    case Obj(ms) =>
      b.Obj? &&
      (forall i :: 0 <= i < |ms| ==>
         HasKey(b.members, ms[i].key) &&
         SameUpToMemberOrder(ms[i].value, ValueOf(b.members, ms[i].key))) &&
      (forall j :: 0 <= j < |b.members| ==> HasKey(ms, b.members[j].key))
    case _ => a == b
  }

  /** Every value with pairwise different keys agrees with itself. */
  lemma {:induction false} SameUpToMemberOrderReflexive(a: Json)
    requires DeepDistinctKeys(a)
    ensures SameUpToMemberOrder(a, a)
    decreases a
  {
    match a
    case Arr(es) =>
      forall k | 0 <= k < |es| {
        SameUpToMemberOrderReflexive(es[k]);
      }
    case Obj(ms) =>
      forall i | 0 <= i < |ms|
        ensures HasKey(ms, ms[i].key) && SameUpToMemberOrder(ms[i].value, ValueOf(ms, ms[i].key))
      {
        ValueOfMember(ms, i);
        SameUpToMemberOrderReflexive(ms[i].value);
      }
      forall j | 0 <= j < |ms|
        ensures HasKey(ms, ms[j].key)
      {
        ValueOfMember(ms, j);
      }
    case _ =>
  }

  /** Values that agree up to member order have the same fingerprint. */
  lemma {:induction false} SameUpToMemberOrderSameFingerprint(a: Json, b: Json)
    requires DeepDistinctKeys(a) && DeepDistinctKeys(b)
    requires SameUpToMemberOrder(a, b)
    ensures Fingerprint(a) == Fingerprint(b)
    decreases a
  {
    match a
    case Arr(es) =>
      var es' := b.elems;
      forall k | 0 <= k < |es|
        ensures Canon(es[k]) == Canon(es'[k])
      {
        SameUpToMemberOrderSameFingerprint(es[k], es'[k]);
      }
      assert CanonElems(es) == CanonElems(es');
    case Obj(ms) =>
      var ms' := b.members;
      forall i | 0 <= i < |ms|
        ensures HasCounterpart(ms[i], ms')
      {
        var j :| 0 <= j < |ms'| && ms'[j].key == ms[i].key;
        ValueOfMember(ms', j);
        SameUpToMemberOrderSameFingerprint(ms[i].value, ms'[j].value);
      }
      assert DistinctKeys(ms) && DistinctKeys(ms');
      MatchedMembersSameCanonMembers(ms, ms');
      CanonMembersKeyOrderInsensitive(ms, ms');
    case _ =>
  }

  /** Member lists matched key by key, with values of equal fingerprints,
      normalise to lists holding the same members. */
  lemma MatchedMembersSameCanonMembers(ms: seq<Member>, ms': seq<Member>)
    requires DistinctKeys(ms')
    requires forall i :: 0 <= i < |ms| ==> HasCounterpart(ms[i], ms')
    requires forall j :: 0 <= j < |ms'| ==> HasKey(ms, ms'[j].key)
    ensures forall x :: x in CanonMembers(ms) <==> x in CanonMembers(ms')
  {
    var c, c' := CanonMembers(ms), CanonMembers(ms');
    forall x | x in c
      ensures x in c'
    {
      var i :| 0 <= i < |c| && c[i] == x;
      CounterpartCanonMember(ms, ms', i);
    }
    forall x | x in c'
      ensures x in c
    {
      var j :| 0 <= j < |c'| && c'[j] == x;
      assert HasKey(ms, ms'[j].key);
      var i :| 0 <= i < |ms| && ms[i].key == ms'[j].key;
      CounterpartCanonMemberBack(ms, ms', i, j);
    }
  }

  /** A member with a counterpart normalises to a member of the other list. */
  lemma CounterpartCanonMember(ms: seq<Member>, ms': seq<Member>, i: int)
    requires 0 <= i < |ms| && HasCounterpart(ms[i], ms')
    ensures CanonMembers(ms)[i] in CanonMembers(ms')
  {
    var j :| 0 <= j < |ms'| && ms'[j].key == ms[i].key && Fingerprint(ms'[j].value) == Fingerprint(ms[i].value);
    assert CanonMembers(ms')[j] == CanonMembers(ms)[i];
  }

  /** With pairwise different keys in `ms'`, the counterpart of member `i` is
      the member `j` of `ms'` with the same key, so both normalise alike. */
  lemma CounterpartCanonMemberBack(ms: seq<Member>, ms': seq<Member>, i: int, j: int)
    requires DistinctKeys(ms')
    requires 0 <= i < |ms| && HasCounterpart(ms[i], ms')
    requires 0 <= j < |ms'| && ms[i].key == ms'[j].key
    ensures CanonMembers(ms')[j] == CanonMembers(ms)[i]
  {
    var j' :| 0 <= j' < |ms'| && ms'[j'].key == ms[i].key && Fingerprint(ms'[j'].value) == Fingerprint(ms[i].value);
    assert j' == j;
  }

  /** Two objects with pairwise different keys, whose members match key by
      key with values of equal fingerprints, have equal fingerprints. */
  lemma MatchedObjectsSameFingerprint(ms: seq<Member>, ms': seq<Member>)
    requires DistinctKeys(ms) && DistinctKeys(ms')
    requires forall i :: 0 <= i < |ms| ==> HasCounterpart(ms[i], ms')
    requires forall j :: 0 <= j < |ms'| ==> HasKey(ms, ms'[j].key)
    ensures Fingerprint(Obj(ms)) == Fingerprint(Obj(ms'))
  {
    MatchedMembersSameCanonMembers(ms, ms');
    CanonMembersKeyOrderInsensitive(ms, ms');
  }

  /** Two objects whose normalised member lists hold the same members have
      the same fingerprint, whatever order either lists them in. */
  lemma CanonMembersKeyOrderInsensitive(ms: seq<Member>, ms': seq<Member>)
    requires DistinctKeys(ms) && DistinctKeys(ms')
    requires forall x :: x in CanonMembers(ms) <==> x in CanonMembers(ms')
    ensures Canon(Obj(ms)) == Canon(Obj(ms'))
  {
    var c, c' := CanonMembers(ms), CanonMembers(ms');
    assert DistinctKeys(c);
    assert DistinctKeys(c');
    SortMembersStrictlySorted(c);
    SortMembersStrictlySorted(c');
    SortMembersSameMembers(c);
    SortMembersSameMembers(c');
    StrictlySortedUnique(SortMembers(c), SortMembers(c'));
  }

  /** Values with the same fingerprint agree up to member order; in
      particular a number and a string, or values of any two different kinds,
      never share a fingerprint at any depth. */
  lemma {:induction false} SameFingerprintSameUpToMemberOrder(a: Json, b: Json)
    requires DeepDistinctKeys(b)
    requires Fingerprint(a) == Fingerprint(b)
    ensures SameUpToMemberOrder(a, b)
    decreases a
  {
    match a
    case Arr(es) =>
      var es' := ArrFingerprints(es, b);
      forall k | 0 <= k < |es|
        ensures SameUpToMemberOrder(es[k], es'[k])
      {
        SameFingerprintSameUpToMemberOrder(es[k], es'[k]);
      }
    case Obj(ms) =>
      var ms' := ObjSameCanonMembers(ms, b);
      SameCanonMembersMatched(ms, ms');
      forall i | 0 <= i < |ms|
        ensures HasKey(ms', ms[i].key) && SameUpToMemberOrder(ms[i].value, ValueOf(ms', ms[i].key))
      {
        assert HasCounterpart(ms[i], ms');
        var j :| 0 <= j < |ms'| && ms'[j].key == ms[i].key && Fingerprint(ms'[j].value) == Fingerprint(ms[i].value);
        ValueOfMember(ms', j);
        SameFingerprintSameUpToMemberOrder(ms[i].value, ms'[j].value);
      }
    case _ =>
      assert KindOf(Canon(a)) == KindOf(Canon(b));
  }

  /** An array shares its fingerprint only with an array of the same length
      whose elements share theirs pointwise. */
  lemma ArrFingerprints(es: seq<Json>, b: Json) returns (es': seq<Json>)
    requires Fingerprint(Arr(es)) == Fingerprint(b)
    ensures b == Arr(es') && |es'| == |es|
    ensures forall k :: 0 <= k < |es| ==> Fingerprint(es[k]) == Fingerprint(es'[k])
  {
    assert KindOf(Canon(Arr(es))) == KindOf(Canon(b));
    es' := b.elems;
    assert CanonElems(es) == CanonElems(es');
    forall k | 0 <= k < |es|
      ensures Canon(es[k]) == Canon(es'[k])
    {
      assert Canon(es[k]) == CanonElems(es)[k];
    }
  }

  /** Equal object fingerprints mean the normalised member lists hold the
      same members. */
  lemma ObjSameCanonMembers(ms: seq<Member>, b: Json) returns (ms': seq<Member>)
    requires Fingerprint(Obj(ms)) == Fingerprint(b)
    ensures b == Obj(ms')
    ensures forall x :: x in CanonMembers(ms) <==> x in CanonMembers(ms')
  {
    assert KindOf(Canon(Obj(ms))) == KindOf(Canon(b));
    ms' := b.members;
    var c, c' := CanonMembers(ms), CanonMembers(ms');
    assert SortMembers(c) == SortMembers(c');
    SortMembersSameMembers(c);
    SortMembersSameMembers(c');
  }

  /** Normalised member lists holding the same members match key by key. */
  lemma SameCanonMembersMatched(ms: seq<Member>, ms': seq<Member>)
    requires forall x :: x in CanonMembers(ms) <==> x in CanonMembers(ms')
    ensures forall i :: 0 <= i < |ms| ==> HasCounterpart(ms[i], ms')
    ensures forall j :: 0 <= j < |ms'| ==> HasKey(ms, ms'[j].key)
  {
    CanonMembersMatched(ms, ms');
    forall j | 0 <= j < |ms'|
      ensures HasKey(ms, ms'[j].key)
    {
      CanonMemberFound(ms', ms, j);
    }
  }

  /** Each member of `ms` has a counterpart in `ms'` with the same key and a
      value of the same fingerprint. */
  lemma CanonMembersMatched(ms: seq<Member>, ms': seq<Member>)
    requires forall x :: x in CanonMembers(ms) ==> x in CanonMembers(ms')
    ensures forall i :: 0 <= i < |ms| ==> HasCounterpart(ms[i], ms')
  {
    forall i | 0 <= i < |ms|
      ensures HasCounterpart(ms[i], ms')
    {
      CanonMemberFound(ms, ms', i);
    }
  }

  /** Member `i` of `ms` has a counterpart in `ms'`. */
  lemma CanonMemberFound(ms: seq<Member>, ms': seq<Member>, i: int)
    requires forall x :: x in CanonMembers(ms) ==> x in CanonMembers(ms')
    requires 0 <= i < |ms|
    ensures HasCounterpart(ms[i], ms')
    ensures HasKey(ms', ms[i].key)
  {
    var c, c' := CanonMembers(ms), CanonMembers(ms');
    assert c[i] in c;
    var j :| 0 <= j < |c'| && c'[j] == c[i];
    assert ms'[j].key == ms[i].key;
  }

  /** Fingerprint equality is exactly equality up to member order, for the
      values `json.load` produces. */
  lemma SameFingerprintIffSameUpToMemberOrder(a: Json, b: Json)
    requires DeepDistinctKeys(a) && DeepDistinctKeys(b)
    ensures Fingerprint(a) == Fingerprint(b) <==> SameUpToMemberOrder(a, b)
  {
    if Fingerprint(a) == Fingerprint(b) {
      SameFingerprintSameUpToMemberOrder(a, b);
    }
    if SameUpToMemberOrder(a, b) {
      SameUpToMemberOrderSameFingerprint(a, b);
    }
  }
}
