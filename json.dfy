/** The JSON values the store works with, and the few operations of the JSON
    library that the store relies on: key lookup and insertion in objects,
    iteration, and the library's ordering of values. Objects keep their members
    sorted by key, as the library's default object type (an ordered map) does. */
module Json {

  import Decimal

  datatype Option<T> = None | Some(value: T)

  /** An outcome that may instead carry the message of an exception. */
  datatype Result<T> = Ok(value: T) | Err(error: string)

  datatype Value =
    | Null
    | Bool(b: bool)
    | Int(i: int)
    | Str(s: string)
    | Array(items: seq<Value>)
    | Object(fields: seq<(string, Value)>)

  type Fields = seq<(string, Value)>

  // ---------------------------------------------------------------------------
  // Ordering of strings (character by character, a proper prefix first)
  // ---------------------------------------------------------------------------

  /** Three-way comparison of strings: negative, zero or positive. */
  function StrCompare(a: string, b: string): int
  {
    if a == [] then (if b == [] then 0 else -1)
    else if b == [] then 1
    else if a[0] != b[0] then (if a[0] < b[0] then -1 else 1)
    else StrCompare(a[1..], b[1..])
  }

  predicate StrLess(a: string, b: string) {
    StrCompare(a, b) < 0
  }

  lemma {:induction false} StrCompareZero(a: string, b: string)
    ensures StrCompare(a, b) == 0 <==> a == b
  {
    if a != [] && b != [] && a[0] == b[0] {
      StrCompareZero(a[1..], b[1..]);
      if a[1..] == b[1..] { assert a == [a[0]] + a[1..] && b == [b[0]] + b[1..]; }
    }
  }

  lemma {:induction false} StrAntisym(a: string, b: string)
    ensures StrCompare(b, a) == -StrCompare(a, b)
  {
    if a != [] && b != [] && a[0] == b[0] { StrAntisym(a[1..], b[1..]); }
  }

  lemma {:induction false} StrLessTrans(a: string, b: string, c: string)
    requires StrLess(a, b) && StrLess(b, c)
    ensures StrLess(a, c)
  {
    if a != [] && b != [] && c != [] && a[0] == b[0] && b[0] == c[0] {
      StrLessTrans(a[1..], b[1..], c[1..]);
    }
  }

  /** Exactly one of a < b, a == b, b < a holds. */
  lemma StrTrichotomy(a: string, b: string)
    ensures StrLess(a, b) || a == b || StrLess(b, a)
    ensures !(StrLess(a, b) && StrLess(b, a))
    ensures StrLess(a, b) ==> a != b
  {
    StrCompareZero(a, b);
    StrAntisym(a, b);
  }

  // ---------------------------------------------------------------------------
  // Objects as key-sorted member lists
  // ---------------------------------------------------------------------------

  predicate KeysSorted(fs: Fields) {
    forall i, j :: 0 <= i < j < |fs| ==> StrLess(fs[i].0, fs[j].0)
  }

  function Keys(fs: Fields): seq<string> {
    if fs == [] then [] else [fs[0].0] + Keys(fs[1..])
  }

  /** The member `k` of an object, if present (the first one, should keys repeat). */
  function Get(fs: Fields, k: string): (r: Option<Value>)
    ensures r.Some? <==> k in Keys(fs)
    ensures r.Some? ==> (k, r.value) in fs
  {
    if fs == [] then None
    else if fs[0].0 == k then Some(fs[0].1)
    else Get(fs[1..], k)
  }

  /** Assignment `obj[k] = v`: replaces the member `k` or inserts it in key order. */
  function Put(fs: Fields, k: string, v: Value): (r: Fields)
  {
    if fs == [] then [(k, v)]
    else if fs[0].0 == k then [(k, v)] + fs[1..]
    else if StrLess(k, fs[0].0) then [(k, v)] + fs
    else [fs[0]] + Put(fs[1..], k, v)
  }

  /** After `obj[k] = v`, reading `k` gives `v` and every other key reads as before. */
  lemma {:induction false} GetPut(fs: Fields, k: string, v: Value, k': string)
    ensures Get(Put(fs, k, v), k') == if k' == k then Some(v) else Get(fs, k')
  {
    if fs != [] && fs[0].0 != k && !StrLess(k, fs[0].0) {
      GetPut(fs[1..], k, v, k');
    }
  }

  lemma PutKeepsOthers(fs: Fields, k: string, v: Value)
    ensures Get(Put(fs, k, v), k) == Some(v)
    ensures forall k' :: k' != k ==> Get(Put(fs, k, v), k') == Get(fs, k')
  {
    GetPut(fs, k, v, k);
    forall k' | k' != k ensures Get(Put(fs, k, v), k') == Get(fs, k') { GetPut(fs, k, v, k'); }
  }

  lemma {:induction false} PutKeys(fs: Fields, k: string, v: Value, x: string)
    ensures x in Keys(Put(fs, k, v)) <==> x == k || x in Keys(fs)
  {
    GetPut(fs, k, v, x);
  }

  lemma {:induction false} PutSorted(fs: Fields, k: string, v: Value)
    requires KeysSorted(fs)
    ensures KeysSorted(Put(fs, k, v))
    ensures fs != [] && StrLess(fs[0].0, k) ==> Put(fs, k, v)[0] == fs[0]
    ensures |Put(fs, k, v)| == if k in Keys(fs) then |fs| else |fs| + 1
  {
    if fs == [] {
    } else if fs[0].0 == k {
      SortedKeyIn(fs, k);
    } else if StrLess(k, fs[0].0) {
      StrTrichotomy(k, fs[0].0);
      InsertFrontSorted(fs, k, v);
      SortedKeyIn(fs, k);
    } else {
      StrTrichotomy(k, fs[0].0);
      PutSorted(fs[1..], k, v);
      InsertPastSorted(fs, k, v);
    }
  }

  /** Putting a key below every key of a sorted object in front keeps it sorted. */
  lemma InsertFrontSorted(fs: Fields, k: string, v: Value)
    requires KeysSorted(fs) && fs != [] && StrLess(k, fs[0].0)
    ensures KeysSorted([(k, v)] + fs)
  {
    var r := [(k, v)] + fs;
    forall i, j | 0 <= i < j < |r| ensures StrLess(r[i].0, r[j].0) {
      if i == 0 && j > 1 { StrLessTrans(k, fs[0].0, fs[j - 1].0); }
    }
  }

  /** Putting a key above the first key into the rest of a sorted object keeps the
      first member in front. */
  lemma InsertPastSorted(fs: Fields, k: string, v: Value)
    requires KeysSorted(fs) && fs != [] && StrLess(fs[0].0, k)
    requires KeysSorted(Put(fs[1..], k, v))
    ensures KeysSorted([fs[0]] + Put(fs[1..], k, v))
  {
    var rest := Put(fs[1..], k, v);
    forall x | x in Keys(rest) ensures StrLess(fs[0].0, x) {
      PutKeys(fs[1..], k, v, x);
      if x != k { KeyInSorted(fs[1..], x); var i :| 0 <= i < |fs[1..]| && fs[1..][i].0 == x; assert fs[i + 1].0 == x; }
    }
    forall j | 0 <= j < |rest| ensures StrLess(fs[0].0, rest[j].0) {
      KeyAt(rest, j);
    }
  }

  lemma {:induction false} KeyAt(fs: Fields, j: nat)
    requires j < |fs|
    ensures fs[j].0 in Keys(fs)
  {
    if j > 0 { KeyAt(fs[1..], j - 1); }
  }

  lemma {:induction false} KeyInSorted(fs: Fields, x: string)
    requires x in Keys(fs)
    ensures exists i :: 0 <= i < |fs| && fs[i].0 == x
  {
    if fs[0].0 != x { KeyInSorted(fs[1..], x); var i :| 0 <= i < |fs[1..]| && fs[1..][i].0 == x; assert fs[i + 1].0 == x; }
  }

  /** In a sorted object, a key smaller than the first one is absent. */
  lemma SortedKeyIn(fs: Fields, k: string)
    requires KeysSorted(fs) && fs != []
    ensures StrLess(k, fs[0].0) ==> k !in Keys(fs)
    ensures k == fs[0].0 ==> k !in Keys(fs[1..])
  {
    if k in Keys(fs) && StrLess(k, fs[0].0) {
      KeyInSorted(fs, k);
      var i :| 0 <= i < |fs| && fs[i].0 == k;
      if i == 0 { StrTrichotomy(k, k); } else { StrTrichotomy(k, fs[0].0); }
    }
    if k == fs[0].0 && k in Keys(fs[1..]) {
      KeyInSorted(fs[1..], k);
      StrTrichotomy(k, k);
    }
  }

  /** `obj.contains(k)`: false for anything that is not an object. */
  predicate Contains(v: Value, k: string) {
    v.Object? && Get(v.fields, k).Some?
  }

  // ---------------------------------------------------------------------------
  // Iteration
  // ---------------------------------------------------------------------------

  /** What a range-for over a value visits: the items of an array, the member
      values of an object, nothing for null, and the value itself otherwise. */
  function Elements(v: Value): (r: seq<Value>)
    ensures v.Array? ==> r == v.items
    ensures v.Null? ==> r == []
    ensures !v.Array? && !v.Object? && !v.Null? ==> r == [v]
    ensures v.Object? ==> |r| == |v.fields| && forall i :: 0 <= i < |r| ==> r[i] == v.fields[i].1
  {
    match v
    case Array(items) => items
    case Object(fs) => MemberValues(fs)
    case Null => []
    case _ => [v]
  }

  function MemberValues(fs: Fields): (r: seq<Value>)
    ensures |r| == |fs| && forall i :: 0 <= i < |r| ==> r[i] == fs[i].1
  {
    if fs == [] then [] else [fs[0].1] + MemberValues(fs[1..])
  }

  /** What iterating `items()` visits, as key/value pairs: an array's items keyed by
      their decimal index, an object's members, nothing for null, and the value
      itself under the empty key otherwise. */
  function Items(v: Value): (r: Fields)
    ensures v.Object? ==> r == v.fields
    ensures v.Null? ==> r == []
    ensures v.Array? ==> |r| == |v.items|
    ensures v.Array? ==> forall i :: 0 <= i < |r| ==> r[i] == (Decimal.NatToDecimal(i), v.items[i])
    ensures !v.Array? && !v.Object? && !v.Null? ==> r == [("", v)]
  {
    match v
    case Array(items) => seq(|items|, i requires 0 <= i < |items| => (Decimal.NatToDecimal(i), items[i]))
    case Object(fs) => fs
    case Null => []
    case _ => [("", v)]
  }

  // ---------------------------------------------------------------------------
  // The library's ordering of values (operator<)
  // ---------------------------------------------------------------------------

  /** Values of different kinds are ordered by kind: null, boolean, number,
      object, array, string. */
  function KindRank(v: Value): nat {
    match v
    case Null => 0
    case Bool(_) => 1
    case Int(_) => 2
    case Object(_) => 3
    case Array(_) => 4
    case Str(_) => 5
  }

  function Sign(x: int): int { if x < 0 then -1 else if x > 0 then 1 else 0 }

  /** Three-way comparison: within a kind, false before true, numbers by value,
      strings character by character, arrays item by item and objects member by
      member (key first, then value), a proper prefix first. */
  function Compare(a: Value, b: Value): int
    decreases a, 1
  {
    if KindRank(a) != KindRank(b) then Sign(KindRank(a) - KindRank(b))
    else match a
      case Null => 0
      case Bool(x) => if x == b.b then 0 else if !x then -1 else 1
      case Int(x) => Sign(x - b.i)
      case Str(x) => StrCompare(x, b.s)
      case Array(xs) => ItemsCompare(xs, b.items)
      case Object(xs) => FieldsCompare(xs, b.fields)
  }

  function ItemsCompare(xs: seq<Value>, ys: seq<Value>): int
    decreases xs, 0
  {
    if xs == [] then (if ys == [] then 0 else -1)
    else if ys == [] then 1
    else var c := Compare(xs[0], ys[0]); if c != 0 then c else ItemsCompare(xs[1..], ys[1..])
  }

  function FieldsCompare(xs: Fields, ys: Fields): int
    decreases xs, 0
  {
    if xs == [] then (if ys == [] then 0 else -1)
    else if ys == [] then 1
    else
      var k := StrCompare(xs[0].0, ys[0].0);
      if k != 0 then k
      else
        assert xs[0].1 < xs[0];
        var c := Compare(xs[0].1, ys[0].1);
        if c != 0 then c else FieldsCompare(xs[1..], ys[1..])
  }

  /** `a < b` of the JSON library. */
  predicate Less(a: Value, b: Value) {
    Compare(a, b) < 0
  }

  lemma {:induction false} CompareAntisym(a: Value, b: Value)
    ensures Compare(b, a) == -Compare(a, b)
    decreases a, 1
  {
    if KindRank(a) == KindRank(b) {
      match a
      case Array(xs) => ItemsAntisym(xs, b.items);
      case Object(xs) => FieldsAntisym(xs, b.fields);
      case Str(x) => StrAntisym(x, b.s);
      case _ =>
    }
  }

  lemma {:induction false} ItemsAntisym(xs: seq<Value>, ys: seq<Value>)
    ensures ItemsCompare(ys, xs) == -ItemsCompare(xs, ys)
    decreases xs, 0
  {
    if xs != [] && ys != [] {
      CompareAntisym(xs[0], ys[0]);
      ItemsAntisym(xs[1..], ys[1..]);
    }
  }

  lemma {:induction false} FieldsAntisym(xs: Fields, ys: Fields)
    ensures FieldsCompare(ys, xs) == -FieldsCompare(xs, ys)
    decreases xs, 0
  {
    if xs != [] && ys != [] {
      StrAntisym(xs[0].0, ys[0].0);
      assert xs[0].1 < xs[0];
      CompareAntisym(xs[0].1, ys[0].1);
      FieldsAntisym(xs[1..], ys[1..]);
    }
  }

  /** Two values compare as equal exactly when they are equal. */
  lemma {:induction false} CompareZero(a: Value, b: Value)
    ensures Compare(a, b) == 0 <==> a == b
    decreases a, 1
  {
    if KindRank(a) == KindRank(b) {
      match a
      case Array(xs) => ItemsZero(xs, b.items);
      case Object(xs) => FieldsZero(xs, b.fields);
      case Str(x) => StrCompareZero(x, b.s);
      case _ =>
    }
  }

  lemma {:induction false} ItemsZero(xs: seq<Value>, ys: seq<Value>)
    ensures ItemsCompare(xs, ys) == 0 <==> xs == ys
    decreases xs, 0
  {
    if xs != [] && ys != [] {
      CompareZero(xs[0], ys[0]);
      ItemsZero(xs[1..], ys[1..]);
      if xs[0] == ys[0] && xs[1..] == ys[1..] { assert xs == [xs[0]] + xs[1..] && ys == [ys[0]] + ys[1..]; }
    }
  }

  lemma {:induction false} FieldsZero(xs: Fields, ys: Fields)
    ensures FieldsCompare(xs, ys) == 0 <==> xs == ys
    decreases xs, 0
  {
    if xs != [] && ys != [] {
      StrCompareZero(xs[0].0, ys[0].0);
      assert xs[0].1 < xs[0];
      CompareZero(xs[0].1, ys[0].1);
      FieldsZero(xs[1..], ys[1..]);
      if xs[0] == ys[0] && xs[1..] == ys[1..] { assert xs == [xs[0]] + xs[1..] && ys == [ys[0]] + ys[1..]; }
    }
  }

  /** The library's `<` is a strict order that separates any two different values:
      exactly one of a < b, a == b, b < a holds. */
  lemma LessTrichotomy(a: Value, b: Value)
    ensures Less(a, b) || a == b || Less(b, a)
    ensures !(Less(a, b) && Less(b, a))
    ensures Less(a, b) ==> a != b
  {
    CompareAntisym(a, b);
    CompareZero(a, b);
  }
}
