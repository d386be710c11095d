/**
 The JSON values a decoded input array holds: what `json.load` produces in
 Python, with numbers restricted to integers. An object is a list of members
 in insertion order, because a Python dict remembers that order and writes it
 back out; only its fingerprint forgets it.
 */
module JsonValue {
  import KeyOrder

  datatype Json =
    | Null
    | Bool(b: bool)
    | Int(i: int)
    | Str(s: string)
    | Arr(elems: seq<Json>)
    | Obj(members: seq<Member>)

  datatype Member = Member(key: string, value: Json)

  /** The JSON kind of a value; values of different kinds never serialise alike. */
  datatype Kind = NullKind | BoolKind | IntKind | StrKind | ArrKind | ObjKind

  function KindOf(j: Json): (r: Kind) {
    match j
    case Null => NullKind
    case Bool(_) => BoolKind
    case Int(_) => IntKind
    case Str(_) => StrKind
    case Arr(_) => ArrKind
    case Obj(_) => ObjKind
  }

  /** The members have pairwise different keys, as in every Python dict. */
  predicate DistinctKeys(ms: seq<Member>) {
    forall i, j :: 0 <= i < j < |ms| ==> ms[i].key != ms[j].key
  }

  /** Every object in the value, at any depth, has pairwise different keys,
      as every value `json.load` returns does. */
  predicate DeepDistinctKeys(j: Json)
    decreases j
  {
    match j
    case Arr(es) => forall k :: 0 <= k < |es| ==> DeepDistinctKeys(es[k])
    case Obj(ms) => DistinctKeys(ms) && forall k :: 0 <= k < |ms| ==> DeepDistinctKeys(ms[k].value)
    case _ => true
  }

  /** The members appear in non-decreasing key order. */
  predicate KeysSorted(ms: seq<Member>) {
    forall i, j :: 0 <= i < j < |ms| ==> KeyOrder.LessOrEqual(ms[i].key, ms[j].key)
  }

  /** The members appear in strictly increasing key order. */
  predicate KeysStrictlySorted(ms: seq<Member>) {
    forall i, j :: 0 <= i < j < |ms| ==> KeyOrder.Less(ms[i].key, ms[j].key)
  }

  /** A value in normal form: every object in it, at any depth, lists its
      members sorted by key. */
  predicate IsNormal(j: Json)
    decreases j
  {
    match j
    case Arr(es) => forall k :: 0 <= k < |es| ==> IsNormal(es[k])
    case Obj(ms) => KeysSorted(ms) && forall k :: 0 <= k < |ms| ==> IsNormal(ms[k].value)
    case _ => true
  }
}
