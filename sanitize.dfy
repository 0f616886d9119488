/** The JSON sanitiser applied to endpoint payloads: NumPy integer and
    float16/32/64 scalars become plain numbers, non-finite floats become
    null, tuples become lists, and dictionaries and lists are sanitised
    element by element. */
module Sanitize {
  import opened Types

  /** A Python value as the sanitiser sees it. A float carries whether it is
      finite; NaN and the infinities are not, and their numeric value is then
      meaningless. `NumpyInt` is an int8 to uint64 scalar, whose `.item()` is
      a Python int; `NumpyFloat` is a float16, float32 or float64 scalar, whose
      `.item()` is a Python float. A dictionary is its key/value pairs in
      insertion order. */
  datatype Value =
    | Null
    | Bool(b: bool)
    | Int(n: int)
    | Str(s: string)
    | Float(x: real, finite: bool)
    | NumpyInt(m: int)
    | NumpyFloat(y: real, yFinite: bool)
    | List(items: seq<Value>)
    | Tuple(elems: seq<Value>)
    | Dict(entries: seq<(string, Value)>)

  /** A value the JSON encoder accepts as it is: no NumPy scalar, no tuple and
      no non-finite float at any depth. */
  predicate Plain(v: Value)
  {
    match v
    case NumpyInt(_) => false
    case NumpyFloat(_, _) => false
    case Tuple(_) => false
    case Float(_, finite) => finite
    case List(items) => forall k :: 0 <= k < |items| ==> Plain(items[k])
    case Dict(entries) => forall k :: 0 <= k < |entries| ==> Plain(entries[k].1)
    case _ => true
  }

  /** No non-finite float, plain or NumPy, at any depth. */
  predicate AllFinite(v: Value)
  {
    match v
    case Float(_, finite) => finite
    case NumpyFloat(_, finite) => finite
    case List(items) => forall k :: 0 <= k < |items| ==> AllFinite(items[k])
    case Tuple(elems) => forall k :: 0 <= k < |elems| ==> AllFinite(elems[k])
    case Dict(entries) => forall k :: 0 <= k < |entries| ==> AllFinite(entries[k].1)
    case _ => true
  }

  /** `x.item()` for a NumPy scalar; any other value is left as it is. */
  function Unwrap(v: Value): (r: Value)
    ensures !r.NumpyInt? && !r.NumpyFloat?
    ensures v.NumpyInt? ==> r == Int(v.m)
    ensures v.NumpyFloat? ==> r == Float(v.y, v.yFinite)
    ensures !v.NumpyInt? && !v.NumpyFloat? ==> r == v
  {
    match v
    case NumpyInt(m) => Int(m)
    case NumpyFloat(y, finite) => Float(y, finite)
    case _ => v
  }

  function SanitizeForJson(v: Value): (r: Value)
    ensures Plain(r)
    ensures v.Float? || v.NumpyFloat? ==> r == (if Unwrap(v).finite then Unwrap(v) else Null)
    ensures v.List? ==> (r.List? && |r.items| == |v.items| &&
              forall k :: 0 <= k < |v.items| ==> r.items[k] == SanitizeForJson(v.items[k]))
    ensures v.Tuple? ==> (r.List? && |r.items| == |v.elems| &&
              forall k :: 0 <= k < |v.elems| ==> r.items[k] == SanitizeForJson(v.elems[k]))
    ensures v.Dict? ==> (r.Dict? && |r.entries| == |v.entries| &&
              forall k :: 0 <= k < |v.entries| ==>
                r.entries[k].0 == v.entries[k].0 && r.entries[k].1 == SanitizeForJson(v.entries[k].1))
    ensures v.Null? || v.Bool? || v.Int? || v.Str? ==> r == v
    ensures v.NumpyInt? ==> r == Int(v.m)
    decreases v, 1
  {
    var u := Unwrap(v);
    if u.Float? then (if u.finite then u else Null)
    else match v
      case List(items) => List(SanitizeItems(v, items))
      case Tuple(elems) => List(SanitizeItems(v, elems))
      case Dict(entries) => Dict(SanitizeEntries(v, entries))
      case _ => u
  }

  /** The elements of a list or tuple `v`, each sanitised. */
  function SanitizeItems(v: Value, items: seq<Value>): (r: seq<Value>)
    requires v.List? || v.Tuple?
    requires items == (if v.List? then v.items else v.elems)
    ensures |r| == |items|
    ensures forall k :: 0 <= k < |items| ==> r[k] == SanitizeForJson(items[k])
    decreases v, 0
  {
    seq(|items|, k requires 0 <= k < |items| => SanitizeForJson(items[k]))
  }

  /** The entries of a dictionary `v`, each value sanitised, keys and order
      kept. */
  function SanitizeEntries(v: Value, entries: seq<(string, Value)>): (r: seq<(string, Value)>)
    requires v.Dict? && entries == v.entries
    ensures |r| == |entries|
    ensures forall k :: 0 <= k < |entries| ==> r[k].0 == entries[k].0 && r[k].1 == SanitizeForJson(entries[k].1)
    decreases v, 0
  {
    seq(|entries|, k requires 0 <= k < |entries| => (entries[k].0, SanitizeForJson(entries[k].1)))
  }

  /** A plain value is already sanitised, and a value the sanitiser leaves
      unchanged is plain. */
  lemma {:induction false} PlainIsFixedPoint(v: Value)
    ensures Plain(v) <==> SanitizeForJson(v) == v
    decreases v
  {
    if Plain(v) {
      match v
      case List(items) =>
        forall k | 0 <= k < |items| ensures SanitizeForJson(items[k]) == items[k] {
          PlainIsFixedPoint(items[k]);
        }
        assert SanitizeForJson(v).items == items;
      case Dict(entries) =>
        forall k | 0 <= k < |entries| ensures SanitizeForJson(entries[k].1) == entries[k].1 {
          PlainIsFixedPoint(entries[k].1);
        }
        assert SanitizeForJson(v).entries == entries;
      case _ =>
    }
  }

  /** Sanitising twice is sanitising once. */
  lemma SanitizeIdempotent(v: Value)
    ensures SanitizeForJson(SanitizeForJson(v)) == SanitizeForJson(v)
  {
    PlainIsFixedPoint(SanitizeForJson(v));
  }

  /** A plain value holds no non-finite float. */
  lemma {:induction false} PlainIsFinite(v: Value)
    requires Plain(v)
    ensures AllFinite(v)
    decreases v
  {
    match v
    case List(items) =>
      forall k | 0 <= k < |items| ensures AllFinite(items[k]) {
        PlainIsFinite(items[k]);
      }
    case Dict(entries) =>
      forall k | 0 <= k < |entries| ensures AllFinite(entries[k].1) {
        PlainIsFinite(entries[k].1);
      }
    case _ =>
  }

  /** The sanitised value holds no non-finite float at any depth. */
  lemma SanitizedIsFinite(v: Value)
    ensures AllFinite(SanitizeForJson(v))
  {
    PlainIsFinite(SanitizeForJson(v));
  }

  /** A payload of an endpoint: a data frame, or any other value. */
  datatype Payload = Frame | Data(value: Value)

  /** The sanitiser applied before a response is sent. Frames go through a
      separate conversion that is not part of this model. */
  function SanitizePreApiResp(p: Payload): (r: Option<Value>)
    ensures r.Some? <==> p.Data?
    ensures p.Data? ==> r == Some(SanitizeForJson(p.value))
  {
    match p
    case Frame => None
    case Data(v) => Some(SanitizeForJson(v))
  }
}
