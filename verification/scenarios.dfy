/**
 Small inputs on which the deduplication pass behaves as documented:
 a repeated record is dropped, objects differing only in member order are
 duplicates, and values of different JSON kinds are never duplicates.
 */
module Scenarios {
  import opened JsonValue
  import opened Canonical
  import opened Deduplicator
  import opened MemberOrder

  /** A single item is kept. */
  lemma SingleKept(a: Json)
    ensures Dedup([a]) == ([a], 0)
    ensures Fingerprints([a]) == {Fingerprint(a)}
  {
    var empty: seq<Json> := [];
    DedupAppend(empty, a);
    FingerprintsAppend(empty, a);
    assert empty + [a] == [a];
  }

  /** `[a, b]` with different fingerprints: both are kept, nothing is counted. */
  lemma TwoDistinctKept(a: Json, b: Json)
    requires Fingerprint(a) != Fingerprint(b)
    ensures Dedup([a, b]) == ([a, b], 0)
  {
    SingleKept(a);
    DedupAppend([a], b);
    assert [a] + [b] == [a, b];
  }

  /** `[a, b, a]` with `a` and `b` different: the repeat of `a` is counted
      and dropped, `a` and `b` are kept in input order. */
  lemma RepeatedRecordDropped(a: Json, b: Json)
    requires Fingerprint(a) != Fingerprint(b)
    ensures Dedup([a, b, a]) == ([a, b], 1)
  {
    TwoDistinctKept(a, b);
    FingerprintsMembers([a, b]);
    assert Fingerprint([a, b][0]) in Fingerprints([a, b]);
    assert [a, b, a][..2] == [a, b];
    assert Dedup([a, b, a]) == Step(([a, b], 0), a);
  }

  /** Two objects holding the same members in different orders: the second
      is a duplicate of the first. */
  lemma ReorderedObjectIsDuplicate(ms: seq<Member>, ms': seq<Member>)
    requires DistinctKeys(ms) && DistinctKeys(ms')
    requires forall m :: m in ms <==> m in ms'
    ensures Dedup([Obj(ms), Obj(ms')]) == ([Obj(ms)], 1)
  {
    KeyOrderInsensitive(ms, ms');
    SameFingerprintDropped(Obj(ms), Obj(ms'));
  }

  /** `[a, b]` with equal fingerprints: `b` is counted and dropped. */
  lemma SameFingerprintDropped(a: Json, b: Json)
    requires Fingerprint(a) == Fingerprint(b)
    ensures Dedup([a, b]) == ([a], 1)
  {
  }

  /** Two values of different JSON kinds, such as `1` and `"1"`, are both kept. */
  lemma KindsKeptApart(a: Json, b: Json)
    requires KindOf(a) != KindOf(b)
    ensures Dedup([a, b]) == ([a, b], 0)
  {
    assert KindOf(Fingerprint(a)) != KindOf(Fingerprint(b));
    TwoDistinctKept(a, b);
  }

  /** The record scenario: `[{"contract_name":"A","v":1}, {"contract_name":"B","v":2},
      {"contract_name":"A","v":1}]` keeps the first two and counts one duplicate. */
  lemma ContractRecords()
    ensures var a := Obj([Member("contract_name", Str("A")), Member("v", Int(1))]);
            var b := Obj([Member("contract_name", Str("B")), Member("v", Int(2))]);
            Dedup([a, b, a]) == ([a, b], 1)
  {
    var a := Obj([Member("contract_name", Str("A")), Member("v", Int(1))]);
    var b := Obj([Member("contract_name", Str("B")), Member("v", Int(2))]);
    assert KeyOrder.LessOrEqual("contract_name", "v");
    assert IsNormal(a) && IsNormal(b);
    NormalFormsDistinguished(a, b);
    RepeatedRecordDropped(a, b);
  }

  /** `{"a":1,"b":2}` and `{"b":2,"a":1}` are duplicates. */
  lemma SwappedMembers()
    ensures var ab := Obj([Member("a", Int(1)), Member("b", Int(2))]);
            var ba := Obj([Member("b", Int(2)), Member("a", Int(1))]);
            Dedup([ab, ba]) == ([ab], 1)
  {
    var ab := [Member("a", Int(1)), Member("b", Int(2))];
    var ba := [Member("b", Int(2)), Member("a", Int(1))];
    ReorderedObjectIsDuplicate(ab, ba);
  }

  /** `{"x":true}` and `{"x":1}` are not duplicates, although Python's `==`
      holds between them: the printed texts differ. */
  lemma BoolAndIntMembers()
    ensures var t, n := Obj([Member("x", Bool(true))]), Obj([Member("x", Int(1))]);
            Dedup([t, n]) == ([t, n], 0)
  {
    var t, n := Obj([Member("x", Bool(true))]), Obj([Member("x", Int(1))]);
    assert IsNormal(t) && IsNormal(n);
    NormalFormsDistinguished(t, n);
    TwoDistinctKept(t, n);
  }

  /** Under key lookup the value of `"x"` is `true` in one object and `1` in
      the other, so the two are not the same up to member order. */
  lemma BoolIsNotOne()
    ensures !SameUpToMemberOrder(Obj([Member("x", Bool(true))]), Obj([Member("x", Int(1))]))
  {
    var ms := [Member("x", Int(1))];
    assert ValueOf(ms, "x") == Int(1) by { ValueOfMember(ms, 0); }
  }

  /** `{"x":1}` and `{"x":"1"}` are not duplicates. */
  lemma NumberAndStringMembers()
    ensures var n, s := Obj([Member("x", Int(1))]), Obj([Member("x", Str("1"))]);
            Dedup([n, s]) == ([n, s], 0)
  {
    var n, s := Obj([Member("x", Int(1))]), Obj([Member("x", Str("1"))]);
    assert IsNormal(n) && IsNormal(s);
    NormalFormsDistinguished(n, s);
    TwoDistinctKept(n, s);
  }

  /** An object holding a nested object, followed by the same object with
      the members reordered at both levels: the second is a duplicate. */
  lemma NestedReorderedIsDuplicate(k: string, z: string, a: string, b: string, va: Json, vb: Json, vz: Json)
    requires k != z && a != b
    ensures var x := Obj([Member(k, Obj([Member(a, va), Member(b, vb)])), Member(z, vz)]);
            var y := Obj([Member(z, vz), Member(k, Obj([Member(b, vb), Member(a, va)]))]);
            Dedup([x, y]) == ([x], 1)
  {
    var ab := [Member(a, va), Member(b, vb)];
    var ba := [Member(b, vb), Member(a, va)];
    KeyOrderInsensitive(ab, ba);
    var xs := [Member(k, Obj(ab)), Member(z, vz)];
    var ys := [Member(z, vz), Member(k, Obj(ba))];
    TwoMembersSwapped(xs, ys);
    SameFingerprintDropped(Obj(xs), Obj(ys));
  }

  /** Two two-member objects listing the same keys in opposite orders, with
      values of equal fingerprints under each key, have equal fingerprints. */
  lemma TwoMembersSwapped(xs: seq<Member>, ys: seq<Member>)
    requires |xs| == 2 && |ys| == 2 && xs[0].key != xs[1].key
    requires ys[0].key == xs[1].key && ys[1].key == xs[0].key
    requires Fingerprint(xs[0].value) == Fingerprint(ys[1].value)
    requires Fingerprint(xs[1].value) == Fingerprint(ys[0].value)
    ensures Fingerprint(Obj(xs)) == Fingerprint(Obj(ys))
  {
    SwappedMembersMatched(xs, ys);
    MatchedObjectsSameFingerprint(xs, ys);
  }

  /** The members of two such objects match key by key. */
  lemma SwappedMembersMatched(xs: seq<Member>, ys: seq<Member>)
    requires |xs| == 2 && |ys| == 2 && xs[0].key != xs[1].key
    requires ys[0].key == xs[1].key && ys[1].key == xs[0].key
    requires Fingerprint(xs[0].value) == Fingerprint(ys[1].value)
    requires Fingerprint(xs[1].value) == Fingerprint(ys[0].value)
    ensures DistinctKeys(xs) && DistinctKeys(ys)
    ensures forall i :: 0 <= i < |xs| ==> HasCounterpart(xs[i], ys)
    ensures forall j :: 0 <= j < |ys| ==> HasKey(xs, ys[j].key)
  {
    SwappedKeysDistinct(xs, ys);
    SwappedKeysPresent(xs, ys);
    assert HasCounterpart(xs[0], ys) by { assert ys[1].key == xs[0].key; }
    assert HasCounterpart(xs[1], ys) by { assert ys[0].key == xs[1].key; }
    forall i | 0 <= i < |xs| ensures HasCounterpart(xs[i], ys) {
      assert i == 0 || i == 1;
    }
  }

  /** Two keys listed in opposite orders are pairwise different in both lists. */
  lemma SwappedKeysDistinct(xs: seq<Member>, ys: seq<Member>)
    requires |xs| == 2 && |ys| == 2 && xs[0].key != xs[1].key
    requires ys[0].key == xs[1].key && ys[1].key == xs[0].key
    ensures DistinctKeys(xs) && DistinctKeys(ys)
  {
    forall i, j | 0 <= i < j < 2 ensures xs[i].key != xs[j].key && ys[i].key != ys[j].key {
      assert i == 0 && j == 1;
    }
  }

  /** Each key of the second list is a key of the first. */
  lemma SwappedKeysPresent(xs: seq<Member>, ys: seq<Member>)
    requires |xs| == 2 && |ys| == 2
    requires ys[0].key == xs[1].key && ys[1].key == xs[0].key
    ensures forall j :: 0 <= j < |ys| ==> HasKey(xs, ys[j].key)
  {
    assert HasKey(xs, ys[0].key) by { assert xs[1].key == ys[0].key; }
    assert HasKey(xs, ys[1].key) by { assert xs[0].key == ys[1].key; }
    forall j | 0 <= j < |ys| ensures HasKey(xs, ys[j].key) {
      assert j == 0 || j == 1;
    }
  }

  /** `{"k":{"a":1,"b":2},"z":0}` followed by `{"z":0,"k":{"b":2,"a":1}}`. */
  lemma NestedReorderedExample()
    ensures var x := Obj([Member("k", Obj([Member("a", Int(1)), Member("b", Int(2))])), Member("z", Int(0))]);
            var y := Obj([Member("z", Int(0)), Member("k", Obj([Member("b", Int(2)), Member("a", Int(1))]))]);
            Dedup([x, y]) == ([x], 1)
  {
    NestedReorderedIsDuplicate("k", "z", "a", "b", Int(1), Int(2), Int(0));
  }
}
