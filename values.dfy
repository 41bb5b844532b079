/**
 * JavaScript values as the publication sees them: the fields of a result document, the
 * values stored in the `published` snapshot, and the truthiness tests the code applies to
 * them. Numbers are integers (no NaN, no fractions). An object is known by its identity,
 * and a `Date` is an object too: it carries the time `getTime()` reads beside its identity,
 * so two `Date`s of the same instant are still different values. With that, `===` on these
 * values is Dafny's `==`, while `<` on `Date`s compares their times.
 */
module Values {

  datatype Option<+T> = None | Some(value: T)

  /** The exceptions a JavaScript statement of the core can raise. */
  datatype JsError = TypeError(reason: string)

  datatype Result<+T> = Ok(value: T) | Err(error: JsError)

  datatype Value =
    | Undefined
    | Null
    | Bool(b: bool)
    | Num(n: int)
    | Str(s: string)
    | Date(ref: nat, millis: int)   // a JavaScript `Date`: its identity and its `getTime()`
    | Obj(ref: nat)                 // any other object, by identity

  /** A document (a MongoDB result row or record): its own properties. */
  type Doc = map<string, Value>

  /** `doc[key]`: a missing property reads as `undefined`. */
  function Get(doc: Doc, key: string): (v: Value)
    ensures key !in doc ==> v == Undefined
    ensures key in doc ==> v == doc[key]
  {
    if key in doc then doc[key] else Undefined
  }

  /** JavaScript truthiness (`if (v)`). */
  predicate Truthy(v: Value) {
    match v
    case Undefined => false
    case Null => false
    case Bool(b) => b
    case Num(n) => n != 0
    case Str(s) => s != ""
    case Date(_, _) => true
    case Obj(_) => true
  }

  /**
   * An option whose value is a field name or `false`; it is "set" when it is truthy,
   * so the empty string counts as unset.
   */
  predicate IsSet(field: Option<string>) {
    field.Some? && field.value != ""
  }

  /** `v.getTime()`: only a `Date` has it. */
  function TimeOf(v: Value): (r: Result<int>)
    ensures r.Ok? <==> v.Date?
    ensures r.Ok? ==> r.value == v.millis
  {
    if v.Date? then Ok(v.millis) else Err(TypeError("getTime is not a function"))
  }

  /** No element occurs twice. */
  predicate Distinct<T(==)>(s: seq<T>) {
    forall i, j :: 0 <= i < j < |s| ==> s[i] != s[j]
  }

  /** The `pastPeriod` option: the record field holding a date, and the window width. */
  datatype Window = Window(field: string, millis: int)
}
