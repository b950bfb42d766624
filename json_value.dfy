/** JSON documents as the scripts see them once json.load has built Python objects:
    dicts, lists, strings, numbers, booleans and None, with Python's truthiness and ==. */
module PyJson {
  import opened Wrappers

  /** A parsed JSON value. Numbers are reals, so 1 and 1.0 are one value, as they are
      equal in Python; an object keeps its members in document order. */
  datatype JValue =
    | JNull
    | JBool(b: bool)
    | JNumber(n: real)
    | JString(s: string)
    | JArray(items: seq<JValue>)
    | JObject(fields: seq<(string, JValue)>)

  /** A Python dict with string keys, as the pairs it was built from. A key given twice is
      bound to its last value, as json.load and csv.DictReader leave it. */
  type Dict<V> = seq<(string, V)>

  /** The position of the binding the dict keeps for key k, if k is a key. */
  function KeyIndex<V>(d: Dict<V>, k: string): (r: Option<nat>)
    ensures r.Some? ==> r.value < |d| && d[r.value].0 == k
    ensures r.Some? ==> forall j :: r.value < j < |d| ==> d[j].0 != k
    ensures r.None? <==> forall j :: 0 <= j < |d| ==> d[j].0 != k
  {
    if |d| == 0 then None
    else if d[|d| - 1].0 == k then Some(|d| - 1)
    else KeyIndex(d[..|d| - 1], k)
  }

  /** Python's `k in d`. */
  predicate HasKey<V>(d: Dict<V>, k: string) {
    KeyIndex(d, k).Some?
  }

  /** Python's d[k] when k is a key, None otherwise. */
  function Get<V>(d: Dict<V>, k: string): (r: Option<V>)
    ensures r.Some? <==> HasKey(d, k)
  {
    match KeyIndex(d, k)
    case Some(i) => Some(d[i].1)
    case None => None
  }

  /** Python's bool(v). */
  predicate Truthy(v: JValue) {
    match v
    case JNull => false
    case JBool(b) => b
    case JNumber(n) => n != 0.0
    case JString(s) => s != []
    case JArray(items) => items != []
    case JObject(fields) => fields != []
  }

  /** The number a bool or a number stands for in a Python comparison. */
  function Numeric(v: JValue): Option<real> {
    match v
    case JBool(b) => Some(if b then 1.0 else 0.0)
    case JNumber(n) => Some(n)
    case _ => None
  }

  /** Python's == between two parsed JSON values: True == 1 and False == 0, lists compare
      element by element, dicts by their keys and the values bound to them. */
  predicate PyEq(a: JValue, b: JValue)
    decreases a
  {
    if Numeric(a).Some? then Numeric(b) == Numeric(a)
    else match a
      case JNull => b.JNull?
      case JString(s) => b == JString(s)
      case JArray(xs) =>
        && b.JArray? && |xs| == |b.items|
        && forall i :: 0 <= i < |xs| ==> PyEq(xs[i], b.items[i])
      case JObject(f) =>
        && b.JObject?
        && (forall j :: 0 <= j < |b.fields| ==> HasKey(f, b.fields[j].0))
        && forall i :: 0 <= i < |f| ==>
             && KeyIndex(b.fields, f[i].0).Some?
             && PyEq(f[KeyIndex(f, f[i].0).value].1, b.fields[KeyIndex(b.fields, f[i].0).value].1)
      case _ => false
  }

  /** Python's xs.count(v). */
  function PyCount(xs: seq<JValue>, v: JValue): (n: nat)
    ensures n <= |xs|
  {
    if xs == [] then 0
    else PyCount(xs[..|xs| - 1], v) + (if PyEq(xs[|xs| - 1], v) then 1 else 0)
  }

  /** A string equals exactly the same string. */
  lemma PyEqString(v: JValue, s: string)
    ensures PyEq(v, JString(s)) <==> v == JString(s)
  {
  }

  /** The indices at which xs holds v. */
  function Positions<T(==)>(xs: seq<T>, v: T): set<int> {
    set i | 0 <= i < |xs| && xs[i] == v
  }

  /** Counting a string counts its copies, which is what list.count does for str. */
  lemma {:induction false} PyCountString(xs: seq<JValue>, s: string)
    ensures PyCount(xs, JString(s)) == |Positions(xs, JString(s))|
  {
    if xs != [] {
      var n := |xs| - 1;
      PyCountString(xs[..n], s);
      PyEqString(xs[n], s);
      PositionsSnoc(xs, JString(s));
    }
  }

  /** The positions of v in a non-empty list: its positions before the last, and the last
      one if it holds v. */
  lemma PositionsSnoc<T>(xs: seq<T>, v: T)
    requires xs != []
    ensures var n := |xs| - 1;
            |Positions(xs, v)| == |Positions(xs[..n], v)| + (if xs[n] == v then 1 else 0)
  {
    var n := |xs| - 1;
    var before := Positions(xs[..n], v);
    assert before == set i | 0 <= i < n && xs[i] == v;
    if xs[n] == v {
      assert Positions(xs, v) == before + {n};
    } else {
      assert Positions(xs, v) == before;
    }
  }
}
