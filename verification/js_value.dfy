/**
 * JSON-like JavaScript values as the frontend sees them (parsed API payloads,
 * record fields handed to the CSV exporter), with the language's truthiness,
 * optional property access and `String(...)` conversion.
 */
module Js {
  import opened Text
  import opened Wrappers

  /**
   * A JavaScript value. Numbers are unbounded integers: fractions, the
   * rounding of doubles beyond 2^53 and the exponent notation `String`
   * gives from 1e21 on are not modelled. An object is its own enumerable properties in enumeration
   * order; JavaScript never gives an object two properties with one name.
   */
  datatype JsValue =
    | Undefined
    | Null
    | Bool(b: bool)
    | Num(n: int)
    | Str(s: string)
    | Arr(items: seq<JsValue>)
    | Obj(entries: seq<(string, JsValue)>)
  {
    /** `null` or `undefined`: what `??` and `?.` treat as missing. */
    predicate Nullish() {
      Undefined? || Null?
    }

    /** The values JavaScript's `if (v)` and `!v` treat as true. */
    predicate Truthy() {
      match this
      case Undefined => false
      case Null => false
      case Bool(b) => b
      case Num(n) => n != 0
      case Str(s) => s != ""
      case Arr(_) => true
      case Obj(_) => true
    }

    /** `typeof v === "object"` for a non-null value: objects and arrays. */
    predicate IsObjectLike() {
      Arr? || Obj?
    }
  }

  /** No two properties of the object share a name. */
  predicate DistinctKeys(entries: seq<(string, JsValue)>) {
    forall i, j :: 0 <= i < j < |entries| ==> entries[i].0 != entries[j].0
  }

  /** The value of property `key` among `entries`, if present. */
  function Lookup(entries: seq<(string, JsValue)>, key: string): (r: Option<JsValue>)
    ensures r.Some? <==> exists i :: 0 <= i < |entries| && entries[i].0 == key
    ensures r.Some? ==> exists i :: 0 <= i < |entries| && entries[i] == (key, r.value)
  {
    if entries == [] then None
    else if entries[0].0 == key then Some(entries[0].1)
    else
      var r := Lookup(entries[1..], key);
      assert forall i :: 1 <= i < |entries| ==> entries[i] == entries[1..][i - 1];
      r
  }

  /** In an object with distinct names, the lookup finds the entry holding the name. */
  lemma {:induction false} LookupDistinct(entries: seq<(string, JsValue)>, i: nat)
    requires DistinctKeys(entries)
    requires i < |entries|
    ensures Lookup(entries, entries[i].0) == Some(entries[i].1)
  {
    if i > 0 {
      LookupDistinct(entries[1..], i - 1);
    }
  }

  /**
   * `v?.[key]` read as a property: an object's own property, or `undefined`
   * for a missing property, for `null`/`undefined` (optional chaining) and
   * for every other value. Properties inherited from a prototype are not
   * modelled: a read of a built-in name such as `constructor` gives
   * `undefined` here, where JavaScript finds the inherited value.
   */
  function Get(v: JsValue, key: string): (r: JsValue)
    ensures !v.Obj? ==> r == Undefined
  {
    match v
    case Obj(entries) => Lookup(entries, key).GetOr(Undefined)
    case _ => Undefined
  }

  /** `String(v)`: the text JavaScript converts a value to. */
  function ToJsString(v: JsValue): string
    decreases v, 0
  {
    match v
    case Undefined => "undefined"
    case Null => "null"
    case Bool(b) => if b then "true" else "false"
    case Num(n) => IntToString(n)
    case Str(s) => s
    case Arr(items) => Join(seq(|items|, i requires 0 <= i < |items| => ElementString(items[i])), ',')
    case Obj(_) => "[object Object]"
  }

  /** How `Array.prototype.join` renders one element: `null`/`undefined` as nothing. */
  function ElementString(v: JsValue): string
    decreases v, 1
  {
    if v.Nullish() then "" else ToJsString(v)
  }

  /** `items.join(sep)` for a one-character separator. */
  function ArrayJoin(items: seq<JsValue>, sep: char): (r: string)
    ensures |items| == 1 ==> r == ElementString(items[0])
  {
    Join(seq(|items|, i requires 0 <= i < |items| => ElementString(items[i])), sep)
  }

  /** Two strings joined: the first, the separator, the second. */
  lemma ArrayJoinTwo(a: string, b: string, sep: char)
    ensures ArrayJoin([Str(a), Str(b)], sep) == a + [sep] + b
  {
    var items := [Str(a), Str(b)];
    var parts := seq(|items|, i requires 0 <= i < |items| => ElementString(items[i]));
    assert ElementString(Str(a)) == a && ElementString(Str(b)) == b;
    assert parts[0] == a && parts[1] == b;
    assert parts == [a, b];
    assert parts[1..] == [b];
    assert Join(parts, sep) == a + [sep] + b;
    assert ArrayJoin(items, sep) == Join(parts, sep);
  }
}
