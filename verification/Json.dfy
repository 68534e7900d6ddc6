/** Parsed JSON values as Python holds them; an object keeps its insertion order. */
module Json {
  import opened Text

  datatype Json =
    | Null
    | Bool(b: bool)
    | Int(i: int)
    | Float(f: real)
    | Str(s: string)
    | Arr(items: seq<Json>)
    | Obj(order: seq<string>, fields: map<string, Json>)

  /** `dict.get(key)`, with `None` for an absent key and for a `null` value alike. */
  function Get(j: Json, key: string): Json {
    if j.Obj? && key in j.fields then j.fields[key] else Null
  }

  /** Python truthiness. */
  predicate Truthy(j: Json) {
    match j
    case Null => false
    case Bool(b) => b
    case Int(i) => i != 0
    case Float(f) => f != 0.0
    case Str(s) => s != ""
    case Arr(items) => items != []
    case Obj(_, fields) => fields != map[]
  }

  predicate IsNumber(j: Json) {
    j.Bool? || j.Int? || j.Float?
  }

  function Numeric(j: Json): real
    requires IsNumber(j)
  {
    match j
    case Bool(b) => if b then 1.0 else 0.0
    case Int(i) => i as real
    case Float(f) => f
  }

  /** Python `==`: numbers compare by value across types, dicts ignore order. */
  predicate PyEq(a: Json, b: Json) {
    if IsNumber(a) && IsNumber(b) then Numeric(a) == Numeric(b)
    else match a
      case Arr(xs) => b.Arr? && |xs| == |b.items| && forall i | 0 <= i < |xs| :: PyEq(xs[i], b.items[i])
      case Obj(_, m) =>
        b.Obj? && m.Keys == b.fields.Keys && forall k | k in m :: k in b.fields && PyEq(m[k], b.fields[k])
      case _ => a == b
  }

  /** A dict key: numbers equal in Python are one key. */
  function AsKey(j: Json): Json {
    match j
    case Bool(b) => Int(if b then 1 else 0)
    case Float(f) => if f.Floor as real == f then Int(f.Floor) else j
    case _ => j
  }

  /** Lists and dicts cannot be dict keys. */
  predicate Hashable(j: Json) {
    !j.Arr? && !j.Obj?
  }

  /** What is false in a condition. */
  lemma FalsyIff(j: Json)
    ensures !Truthy(j) <==>
              || j == Null || j == Bool(false) || j == Int(0) || j == Float(0.0) || j == Str("") || j == Arr([])
              || (j.Obj? && |j.fields| == 0)
  {
  }

  /** A value with its numbers as numbers and the order of its keys forgotten. */
  datatype Plain =
    | Nothing
    | Number(n: real)
    | Text(s: string)
    | List(items: seq<Plain>)
    | Dict(fields: map<string, Plain>)

  ghost function PlainOf(j: Json): Plain {
    match j
    case Null => Nothing
    case Bool(b) => Number(if b then 1.0 else 0.0)
    case Int(i) => Number(i as real)
    case Float(f) => Number(f)
    case Str(s) => Text(s)
    case Arr(items) => List(seq(|items|, i requires 0 <= i < |items| => PlainOf(items[i])))
    case Obj(_, fields) => Dict(map key | key in fields :: PlainOf(fields[key]))
  }

  /** Two values are equal exactly when they are the same as numbers, texts, lists and unordered dicts. */
  lemma {:induction false} PyEqIff(a: Json, b: Json)
    ensures PyEq(a, b) <==> PlainOf(a) == PlainOf(b)
    decreases a
  {
    match a
    case Arr(xs) =>
      if b.Arr? {
        forall i | 0 <= i < |xs| && i < |b.items|
          ensures PyEq(xs[i], b.items[i]) <==> PlainOf(xs[i]) == PlainOf(b.items[i])
        {
          PyEqIff(xs[i], b.items[i]);
        }
        ListsEqual(xs, b.items);
      }
    case Obj(_, m) =>
      if b.Obj? {
        forall key | key in m && key in b.fields
          ensures PyEq(m[key], b.fields[key]) <==> PlainOf(m[key]) == PlainOf(b.fields[key])
        {
          PyEqIff(m[key], b.fields[key]);
        }
        DictsEqual(m, b.fields);
      }
    case _ =>
  }

  lemma ListsEqual(xs: seq<Json>, ys: seq<Json>)
    ensures PlainOf(Arr(xs)) == PlainOf(Arr(ys))
            <==> |xs| == |ys| && forall i :: 0 <= i < |xs| ==> PlainOf(xs[i]) == PlainOf(ys[i])
  {
    var a, b := PlainOf(Arr(xs)).items, PlainOf(Arr(ys)).items;
    assert |a| == |xs| && |b| == |ys|;
    if a == b {
      forall i | 0 <= i < |xs| ensures PlainOf(xs[i]) == PlainOf(ys[i]) {
        assert a[i] == PlainOf(xs[i]) && b[i] == PlainOf(ys[i]);
      }
    }
  }

  lemma DictsEqual(m: map<string, Json>, n: map<string, Json>)
    ensures PlainOf(Obj([], m)) == PlainOf(Obj([], n))
            <==> m.Keys == n.Keys && forall key :: key in m && key in n ==> PlainOf(m[key]) == PlainOf(n[key])
  {
    var a, b := PlainOf(Obj([], m)).fields, PlainOf(Obj([], n)).fields;
    assert a.Keys == m.Keys && b.Keys == n.Keys;
    if a == b {
      forall key | key in m && key in n ensures PlainOf(m[key]) == PlainOf(n[key]) {
        assert a[key] == PlainOf(m[key]) && b[key] == PlainOf(n[key]);
      }
    }
  }

  /** Values that can be dict keys are one key exactly when they are equal. */
  lemma KeysIff(a: Json, b: Json)
    requires Hashable(a) && Hashable(b)
    ensures AsKey(a) == AsKey(b) <==> PyEq(a, b)
  {
  }

  lemma StringsCompareExactly(s: string, j: Json)
    ensures PyEq(Str(s), j) <==> j == Str(s)
    ensures PyEq(j, Str(s)) <==> j == Str(s)
  {
  }
}
