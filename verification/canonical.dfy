/**
 The fingerprint `json.dumps(item, sort_keys=True)` computed for every input
 item. With sorted keys the text no longer records the order of an object's
 members: it is a one-to-one rendering of the sorted-key normal form `Canon`
 of the item, for the values modelled here (null, booleans, integers,
 strings, arrays, and objects with pairwise different keys). So two items get
 the same fingerprint text exactly when their normal forms are equal, and
 this module stands the normal form in for the string.
 */
module Canonical {
  import KeyOrder
  import opened JsonValue

  /** Places `m` in front of the first member whose key does not sort
      before `m.key`. */
  function Insert(m: Member, ms: seq<Member>): (r: seq<Member>)
    ensures multiset(r) == multiset(ms) + multiset{m}
  {
    if |ms| == 0 then [m]
    else if KeyOrder.Less(ms[0].key, m.key) then
      assert ms == [ms[0]] + ms[1..];
      [ms[0]] + Insert(m, ms[1..])
    else [m] + ms
  }

  /** The member order `sort_keys=True` writes out: a sorted permutation. */
  function SortMembers(ms: seq<Member>): (r: seq<Member>)
    ensures multiset(r) == multiset(ms)
    ensures KeysSorted(r)
  {
    if |ms| == 0 then []
    else
      assert ms == [ms[0]] + ms[1..];
      var rest := SortMembers(ms[1..]);
      InsertKeepsSorted(ms[0], rest);
      Insert(ms[0], rest)
  }

  /** The normal form of a JSON value: the same value with every object's
      members, at every depth, sorted by key. */
  function Canon(j: Json): (r: Json)
    ensures KindOf(r) == KindOf(j)
    ensures j.Arr? ==> |r.elems| == |j.elems|
    ensures j.Obj? ==> |r.members| == |j.members|
    decreases j, 1
  {
    match j
    case Arr(es) => Arr(CanonElems(es))
    case Obj(ms) =>
      var sorted := SortMembers(CanonMembers(ms));
      assert |sorted| == |multiset(sorted)| == |ms|;
      Obj(sorted)
    case _ => j
  }

  /** The fingerprint `json.dumps(item, sort_keys=True)` of an item. The text
      renders the normal form one to one, so two items get equal fingerprint
      strings exactly when their normal forms are equal, and the normal form
      stands in for the string. */
  function Fingerprint(j: Json): (r: Json) {
    Canon(j)
  }

  function CanonElems(es: seq<Json>): (r: seq<Json>)
    ensures |r| == |es|
    ensures forall k :: 0 <= k < |es| ==> r[k] == Canon(es[k])
    decreases es, 0
  {
    if |es| == 0 then [] else [Canon(es[0])] + CanonElems(es[1..])
  }

  function CanonMembers(ms: seq<Member>): (r: seq<Member>)
    ensures |r| == |ms|
    ensures forall k :: 0 <= k < |ms| ==> r[k] == Member(ms[k].key, Canon(ms[k].value))
    decreases ms, 0
  {
    if |ms| == 0 then []
    else [Member(ms[0].key, Canon(ms[0].value))] + CanonMembers(ms[1..])
  }

  lemma {:induction false} InsertKeepsSorted(m: Member, ms: seq<Member>)
    requires KeysSorted(ms)
    ensures KeysSorted(Insert(m, ms))
    decreases |ms|
  {
    if |ms| == 0 {
    } else if KeyOrder.Less(ms[0].key, m.key) {
      var rest := Insert(m, ms[1..]);
      InsertKeepsSorted(m, ms[1..]);
      forall k | 0 <= k < |rest|
        ensures KeyOrder.LessOrEqual(ms[0].key, rest[k].key)
      {
        assert rest[k] in multiset(rest);
        if rest[k] == m {
          KeyOrder.LessAsymmetric(ms[0].key, m.key);
        } else {
          assert rest[k] in ms[1..];
        }
      }
    } else {
      forall k | 0 < k < |ms|
        ensures KeyOrder.LessOrEqual(m.key, ms[k].key)
      {
        KeyOrder.LessOrEqualTransitive(m.key, ms[0].key, ms[k].key);
      }
    }
  }

  lemma {:induction false} InsertKeepsStrictlySorted(m: Member, ms: seq<Member>)
    requires KeysStrictlySorted(ms)
    requires forall k :: 0 <= k < |ms| ==> ms[k].key != m.key
    ensures KeysStrictlySorted(Insert(m, ms))
    decreases |ms|
  {
    if |ms| == 0 {
    } else if KeyOrder.Less(ms[0].key, m.key) {
      var rest := Insert(m, ms[1..]);
      InsertKeepsStrictlySorted(m, ms[1..]);
      forall k | 0 <= k < |rest|
        ensures KeyOrder.Less(ms[0].key, rest[k].key)
      {
        assert rest[k] in multiset(rest);
        if rest[k] != m {
          assert rest[k] in ms[1..];
        }
      }
    } else {
      KeyOrder.LessTotal(m.key, ms[0].key);
      forall k | 0 <= k < |ms|
        ensures KeyOrder.Less(m.key, ms[k].key)
      {
        if k > 0 {
          KeyOrder.LessTransitive(m.key, ms[0].key, ms[k].key);
        }
      }
    }
  }

  /** Members with pairwise different keys come out in strictly increasing key order. */
  lemma {:induction false} SortMembersStrictlySorted(ms: seq<Member>)
    requires DistinctKeys(ms)
    ensures KeysStrictlySorted(SortMembers(ms))
    decreases |ms|
  {
    if |ms| > 0 {
      var rest := SortMembers(ms[1..]);
      SortMembersStrictlySorted(ms[1..]);
      forall k | 0 <= k < |rest|
        ensures rest[k].key != ms[0].key
      {
        assert rest[k] in multiset(rest);
        assert rest[k] in ms[1..];
      }
      InsertKeepsStrictlySorted(ms[0], rest);
    }
  }

  /** An already sorted member list is left as it is. */
  lemma {:induction false} SortMembersOfSorted(ms: seq<Member>)
    requires KeysSorted(ms)
    ensures SortMembers(ms) == ms
    decreases |ms|
  {
    if |ms| > 0 {
      SortMembersOfSorted(ms[1..]);
      assert ms == [ms[0]] + ms[1..];
    }
  }

  /** Two strictly sorted member lists holding the same members are equal. */
  lemma {:induction false} StrictlySortedUnique(a: seq<Member>, b: seq<Member>)
    requires KeysStrictlySorted(a) && KeysStrictlySorted(b)
    requires forall m :: m in a <==> m in b
    ensures a == b
    decreases |a|
  {
    if |b| > 0 {
      assert b[0] in b;
    }
    if |a| > 0 {
      assert a[0] in b;
      assert |b| > 0;
      assert b[0] in a;
      var i :| 0 <= i < |a| && a[i] == b[0];
      var j :| 0 <= j < |b| && b[j] == a[0];
      if i > 0 && j > 0 {
        KeyOrder.LessTransitive(a[0].key, b[0].key, a[0].key);
        KeyOrder.LessIrreflexive(a[0].key);
        assert false;
      }
      assert a[0] == b[0];
      forall m
        ensures m in a[1..] <==> m in b[1..]
      {
        if m in a[1..] {
          var k :| 1 <= k < |a| && a[k] == m;
          KeyOrder.LessIrreflexive(a[0].key);
          assert m in b;
        }
        if m in b[1..] {
          var k :| 1 <= k < |b| && b[k] == m;
          KeyOrder.LessIrreflexive(b[0].key);
          assert m in a;
        }
      }
      StrictlySortedUnique(a[1..], b[1..]);
      assert a == [a[0]] + a[1..];
      assert b == [b[0]] + b[1..];
    } else if |b| > 0 {
      assert false;
    }
  }

  /** Normalising the values of two member lists holding the same members
      yields two lists holding the same members. */
  lemma CanonMembersSameMembers(ms: seq<Member>, ms': seq<Member>)
    requires forall m :: m in ms ==> m in ms'
    ensures forall x :: x in CanonMembers(ms) ==> x in CanonMembers(ms')
  {
    var c, c' := CanonMembers(ms), CanonMembers(ms');
    forall x | x in c
      ensures x in c'
    {
      var k :| 0 <= k < |c| && c[k] == x;
      assert ms[k] in ms';
      var k' :| 0 <= k' < |ms'| && ms'[k'] == ms[k];
      assert c'[k'] == x;
    }
  }

  /** Sorting keeps exactly the members it was given. */
  lemma SortMembersSameMembers(ms: seq<Member>)
    ensures forall x :: x in SortMembers(ms) <==> x in ms
  {
    var s := SortMembers(ms);
    forall x
      ensures x in s <==> x in ms
    {
      assert x in s <==> x in multiset(s);
      assert x in ms <==> x in multiset(ms);
    }
  }

  /** Key-order insensitivity: two objects holding the same members, listed
      in any order, have the same fingerprint. */
  lemma KeyOrderInsensitive(ms: seq<Member>, ms': seq<Member>)
    requires DistinctKeys(ms) && DistinctKeys(ms')
    requires forall m :: m in ms <==> m in ms'
    ensures Canon(Obj(ms)) == Canon(Obj(ms'))
  {
    var c, c' := CanonMembers(ms), CanonMembers(ms');
    CanonMembersSameMembers(ms, ms');
    CanonMembersSameMembers(ms', ms);
    SortMembersStrictlySorted(c);
    SortMembersStrictlySorted(c');
    SortMembersSameMembers(c);
    SortMembersSameMembers(c');
    StrictlySortedUnique(SortMembers(c), SortMembers(c'));
  }

  /** Every fingerprint is in normal form. */
  lemma {:induction false} CanonIsNormal(j: Json)
    ensures IsNormal(Canon(j))
    decreases j
  {
    match j
    case Arr(es) =>
      forall k | 0 <= k < |es| {
        CanonIsNormal(es[k]);
      }
    case Obj(ms) =>
      forall k | 0 <= k < |ms| {
        CanonIsNormal(ms[k].value);
      }
      var c := CanonMembers(ms);
      var s := SortMembers(c);
      forall k | 0 <= k < |s|
        ensures IsNormal(s[k].value)
      {
        assert s[k] in multiset(s);
        var i :| 0 <= i < |c| && c[i] == s[k];
      }
    case _ =>
  }

  /** A value already in normal form is its own fingerprint. */
  lemma {:induction false} CanonOfNormal(j: Json)
    requires IsNormal(j)
    ensures Canon(j) == j
    decreases j
  {
    match j
    case Arr(es) =>
      forall k | 0 <= k < |es| {
        CanonOfNormal(es[k]);
      }
      assert CanonElems(es) == es;
    case Obj(ms) =>
      forall k | 0 <= k < |ms| {
        CanonOfNormal(ms[k].value);
      }
      assert CanonMembers(ms) == ms;
      SortMembersOfSorted(ms);
    case _ =>
  }

  /** Fingerprinting a fingerprint changes nothing. */
  lemma CanonIdempotent(j: Json)
    ensures Fingerprint(Fingerprint(j)) == Fingerprint(j)
  {
    CanonIsNormal(j);
    CanonOfNormal(Canon(j));
  }

  /** Value sensitivity: values in normal form share a fingerprint exactly
      when they are the same value, so no two different values collide. */
  lemma NormalFormsDistinguished(a: Json, b: Json)
    ensures IsNormal(a) && IsNormal(b) ==> (Fingerprint(a) == Fingerprint(b) <==> a == b)
  {
    if IsNormal(a) && IsNormal(b) {
      CanonOfNormal(a);
      CanonOfNormal(b);
    }
  }
}
