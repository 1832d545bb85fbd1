/** A parsed JSON document as Python holds it after `json.loads`, and the Python operations
    the EmProps extractor applies to it, each either returning a value or raising. */
module PyJson {
  import opened Outcomes
  import opened Text

  /** A JSON value. An object is the dict `json.loads` builds: its members in insertion order,
      with distinct keys. JSON numbers are integers here. */
  datatype Json =
    | JNull
    | JBool(b: bool)
    | JInt(i: int)
    | JStr(s: string)
    | JArr(items: seq<Json>)
    | JObj(members: seq<Member>)

  datatype Member = Member(key: string, value: Json)

  /** The value stored under `key`: the first member with that key. */
  function Lookup(ms: seq<Member>, key: string): Option<Json>
    decreases |ms|
  {
    if ms == [] then None
    else if ms[0].key == key then Some(ms[0].value)
    else Lookup(ms[1..], key)
  }

  /** No object, at any depth, has two members with the same key: a Python dict holds each key
      once. */
  ghost predicate DistinctKeys(x: Json) {
    match x
    case JArr(items) => forall i :: 0 <= i < |items| ==> DistinctKeys(items[i])
    case JObj(ms) =>
      && (forall i, j :: 0 <= i < j < |ms| ==> ms[i].key != ms[j].key)
      && (forall i :: 0 <= i < |ms| ==> DistinctKeys(ms[i].value))
    case _ => true
  }

  /** `json.loads` on a text: the document, or None where it raises JSONDecodeError. Each
      object it builds is a dict, so the documents it yields have distinct keys. */
  type Loads = f: string -> Option<Json> | forall t :: f(t).Some? ==> DistinctKeys(f(t).value)
    witness (t: string) => None

  /** In an object with distinct keys the member `Lookup` finds is the only one with the key,
      so which duplicate Python would keep does not arise. */
  lemma {:induction false} LookupDistinct(ms: seq<Member>, i: nat)
    requires i < |ms| && forall a, b :: 0 <= a < b < |ms| ==> ms[a].key != ms[b].key
    ensures Lookup(ms, ms[i].key) == Some(ms[i].value)
    decreases i
  {
    if i > 0 {
      assert ms[0].key != ms[i].key;
      assert ms[1..][i - 1] == ms[i];
      LookupDistinct(ms[1..], i - 1);
    }
  }

  /** `Lookup` finds the value of the first member with the key, and nothing exactly when no
      member has it. */
  lemma {:induction false} LookupSpec(ms: seq<Member>, key: string)
    ensures Lookup(ms, key).None? <==> forall i :: 0 <= i < |ms| ==> ms[i].key != key
    ensures Lookup(ms, key).Some? ==>
              exists i :: 0 <= i < |ms| && ms[i].key == key && ms[i].value == Lookup(ms, key).value
                          && forall j :: 0 <= j < i ==> ms[j].key != key
    decreases |ms|
  {
    if ms != [] && ms[0].key != key {
      LookupSpec(ms[1..], key);
      if Lookup(ms, key).Some? {
        var i :| 0 <= i < |ms[1..]| && ms[1..][i].key == key && ms[1..][i].value == Lookup(ms, key).value
                 && forall j :: 0 <= j < i ==> ms[1..][j].key != key;
        assert ms[i + 1].key == key;
        assert forall j :: 0 <= j < i + 1 ==> ms[j].key != key by {
          forall j | 0 <= j < i + 1 ensures ms[j].key != key {
            if j > 0 {
              assert ms[j] == ms[1..][j - 1];
            }
          }
        }
      } else {
        forall i | 0 <= i < |ms| ensures ms[i].key != key {
          if i > 0 {
            assert ms[i] == ms[1..][i - 1];
          }
        }
      }
    }
  }

  /** `x.values()`: the member values of an object in order; anything else has no `values`. */
  function Values(x: Json): (r: Outcome<seq<Json>>)
    ensures r.Returned? <==> x.JObj?
    ensures r.Returned? ==> |r.value| == |x.members| && forall i :: 0 <= i < |r.value| ==> r.value[i] == x.members[i].value
  {
    if x.JObj? then Returned(seq(|x.members|, i requires 0 <= i < |x.members| => x.members[i].value))
    else Raised(AttributeError)
  }

  /** `x.get(key, default)`: only a dict has `get`. */
  function Get(x: Json, key: string, default: Json): Outcome<Json> {
    if x.JObj? then
      match Lookup(x.members, key)
      case Some(v) => Returned(v)
      case None => Returned(default)
    else Raised(AttributeError)
  }

  /** `key in x` for a string `key`: a key of a dict, a substring of a string, an element of a
      list; other values are not containers. */
  function HasKey(x: Json, key: string): Outcome<bool> {
    match x
    case JObj(ms) => Returned(Lookup(ms, key).Some?)
    case JStr(s) => Returned(Contains(s, key))
    case JArr(items) => Returned(JStr(key) in items)
    case _ => Raised(TypeError)
  }

  /** `x[key]` for a string `key`: a dict raises KeyError for a missing key; every other value
      rejects a string index. */
  function Index(x: Json, key: string): Outcome<Json> {
    if x.JObj? then
      match Lookup(x.members, key)
      case Some(v) => Returned(v)
      case None => Raised(KeyError)
    else Raised(TypeError)
  }

  /** The receiver of a `str` method (`strip`, `endswith`, `lower`, `replace`): other values
      do not have those methods. */
  function AsText(x: Json): Outcome<string> {
    if x.JStr? then Returned(x.s) else Raised(AttributeError)
  }

  /** Python truthiness. */
  predicate Truthy(x: Json) {
    match x
    case JNull => false
    case JBool(b) => b
    case JInt(i) => i != 0
    case JStr(s) => s != []
    case JArr(items) => items != []
    case JObj(ms) => ms != []
  }

  /** `str(x)`, as an f-string renders it. */
  function PyStr(x: Json): string {
    if x.JStr? then x.s else Repr(x)
  }

  /** `repr(x)` for the values `json.loads` produces. */
  function Repr(x: Json): string
    decreases x, 1
  {
    match x
    case JNull => "None"
    case JBool(b) => if b then "True" else "False"
    case JInt(i) => IntToString(i)
    case JStr(s) => "'" + s + "'"
    case JArr(items) => "[" + ReprItems(x, items) + "]"
    case JObj(ms) => "{" + ReprMembers(x, ms) + "}"
  }

  function ReprItems(parent: Json, items: seq<Json>): string
    requires forall i :: 0 <= i < |items| ==> items[i] < parent
    decreases parent, 0, |items|
  {
    if items == [] then ""
    else if |items| == 1 then Repr(items[0])
    else Repr(items[0]) + ", " + ReprItems(parent, items[1..])
  }

  function ReprMembers(parent: Json, ms: seq<Member>): string
    requires forall i :: 0 <= i < |ms| ==> ms[i].value < parent
    decreases parent, 0, |ms|
  {
    if ms == [] then ""
    else
      var m := "'" + ms[0].key + "': " + Repr(ms[0].value);
      if |ms| == 1 then m else m + ", " + ReprMembers(parent, ms[1..])
  }

  /** `[x for x in xs if cond(x)]`: the conditions are evaluated left to right, and the first
      one that raises ends the comprehension with its exception. */
  function Filter(xs: seq<Json>, cond: Json -> Outcome<bool>): Outcome<seq<Json>>
    decreases |xs|
  {
    if xs == [] then Returned([])
    else
      var keep :- cond(xs[0]);
      var rest :- Filter(xs[1..], cond);
      Returned(if keep then [xs[0]] + rest else rest)
  }

  /** A comprehension that completes evaluated every condition without an exception, kept
      exactly the elements whose condition is true, and kept them in order: its first element
      is the first such element, and it is empty only when no condition is true. */
  lemma {:induction false} FilterSpec(xs: seq<Json>, cond: Json -> Outcome<bool>)
    requires Filter(xs, cond).Returned?
    ensures forall i :: 0 <= i < |xs| ==> cond(xs[i]).Returned?
    ensures forall y :: y in Filter(xs, cond).value ==> y in xs && cond(y) == Returned(true)
    ensures Filter(xs, cond).value == [] <==> forall i :: 0 <= i < |xs| ==> cond(xs[i]) == Returned(false)
    ensures Filter(xs, cond).value != [] ==>
              exists i :: 0 <= i < |xs| && Filter(xs, cond).value[0] == xs[i] && cond(xs[i]) == Returned(true)
                          && forall j :: 0 <= j < i ==> cond(xs[j]) == Returned(false)
    decreases |xs|
  {
    if xs != [] {
      var rest := xs[1..];
      FilterSpec(rest, cond);
      forall i | 0 < i < |xs| ensures xs[i] == rest[i - 1] {
      }
      if cond(xs[0]) == Returned(false) && Filter(xs, cond).value != [] {
        var i :| 0 <= i < |rest| && Filter(rest, cond).value[0] == rest[i] && cond(rest[i]) == Returned(true)
                 && forall j :: 0 <= j < i ==> cond(rest[j]) == Returned(false);
        assert forall j :: 0 <= j < i + 1 ==> cond(xs[j]) == Returned(false);
      }
    }
  }

  /** A comprehension over `[x] + xs` keeps `x` when its condition holds, then what it keeps of `xs`. */
  lemma FilterCons(x: Json, xs: seq<Json>, cond: Json -> Outcome<bool>)
    requires cond(x).Returned? && Filter(xs, cond).Returned?
    ensures Filter([x] + xs, cond) == Returned((if cond(x).value then [x] else []) + Filter(xs, cond).value)
  {
    var ys := [x] + xs;
    assert ys[0] == x && ys[1..] == xs;
    assert [] + Filter(xs, cond).value == Filter(xs, cond).value;
  }

  /** A comprehension over two elements. */
  lemma FilterTwo(a: Json, b: Json, cond: Json -> Outcome<bool>)
    requires cond(a).Returned? && cond(b).Returned?
    ensures Filter([a, b], cond) ==
              Returned((if cond(a).value then [a] else []) + (if cond(b).value then [b] else []))
  {
    FilterCons(b, [], cond);
    assert [b] + [] == [b];
    FilterCons(a, [b], cond);
    assert [a] + [b] == [a, b];
  }

  /** A comprehension raises exactly the exception of the first condition that raises. */
  lemma {:induction false} FilterRaises(xs: seq<Json>, cond: Json -> Outcome<bool>)
    ensures Filter(xs, cond).Raised? <==> exists i :: 0 <= i < |xs| && cond(xs[i]).Raised?
    ensures Filter(xs, cond).Raised? ==>
              exists i :: 0 <= i < |xs| && cond(xs[i]) == Raised(Filter(xs, cond).error)
    decreases |xs|
  {
    if xs != [] {
      FilterRaises(xs[1..], cond);
      if exists i :: 0 <= i < |xs| && cond(xs[i]).Raised? {
        var i :| 0 <= i < |xs| && cond(xs[i]).Raised?;
        if i > 0 {
          assert xs[1..][i - 1] == xs[i];
        }
      }
      if Filter(xs[1..], cond).Raised? {
        var i :| 0 <= i < |xs[1..]| && cond(xs[1..][i]) == Raised(Filter(xs[1..], cond).error);
        assert xs[i + 1] == xs[1..][i];
      }
    }
  }

  /** `a(x) and b(x)`, with `b` evaluated only when `a` holds. */
  function Both(a: Json -> Outcome<bool>, b: Json -> Outcome<bool>): Json -> Outcome<bool> {
    x => if a(x) == Returned(true) then b(x) else a(x)
  }

  /** Filtering the result of a comprehension again keeps what one comprehension with both
      conditions keeps, in the same order. */
  lemma {:induction false} FilterFilter(xs: seq<Json>, a: Json -> Outcome<bool>, b: Json -> Outcome<bool>)
    requires Filter(xs, a).Returned? && Filter(Filter(xs, a).value, b).Returned?
    ensures Filter(xs, Both(a, b)) == Filter(Filter(xs, a).value, b)
    decreases |xs|
  {
    if xs != [] {
      var rest := Filter(xs[1..], a).value;
      if a(xs[0]) == Returned(true) {
        assert Filter(xs, a).value == [xs[0]] + rest;
        assert ([xs[0]] + rest)[1..] == rest;
      }
      FilterFilter(xs[1..], a, b);
    }
  }

  /** The first element a comprehension keeps is the first element whose condition is true. */
  lemma FilterFirst(xs: seq<Json>, cond: Json -> Outcome<bool>, i: int)
    requires Filter(xs, cond).Returned?
    requires 0 <= i < |xs| && cond(xs[i]) == Returned(true)
    requires forall j :: 0 <= j < i ==> cond(xs[j]) != Returned(true)
    ensures Filter(xs, cond).value != [] && Filter(xs, cond).value[0] == xs[i]
  {
    FilterSpec(xs, cond);
    assert cond(xs[i]) != Returned(false);
  }
}
