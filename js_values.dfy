/** JavaScript values as the DOM core stores them in property caches, commands
    and events, with the two operations on them the core relies on: strict
    equality (`===`) and string conversion (`String(x)`). */
module JsValues {

  datatype Option<+T> = None | Some(value: T) {
    function GetOr(default: T): T {
      match this
      case Some(v) => v
      case None => default
    }
  }

  /** A JavaScript value. Objects and functions carry an identity `ref`, so that
      `===` compares them by reference; an object also carries the entries it
      was built with. Numbers are integers here (no fractions, no NaN). */
  datatype Value =
    | Undefined
    | Null
    | Bool(b: bool)
    | Num(n: int)
    | Str(s: string)
    | Obj(ref: nat, fields: map<string, Value>)
    | Fn(ref: nat)

  /** `a === b`: identity for objects and functions, value equality otherwise. */
  predicate StrictEquals(a: Value, b: Value) {
    match (a, b)
    case (Obj(r1, _), Obj(r2, _)) => r1 == r2
    case _ => a == b
  }

  /** Every value is `===` itself (there is no NaN here). */
  lemma StrictEqualsReflexive(v: Value)
    ensures StrictEquals(v, v)
  {
    match v
    case Obj(_, _) =>
    case _ =>
  }

  /** JavaScript truthiness (`!!v`). */
  predicate Truthy(v: Value) {
    match v
    case Undefined => false
    case Null => false
    case Bool(b) => b
    case Num(n) => n != 0
    case Str(s) => s != ""
    case Obj(_, _) => true
    case Fn(_) => true
  }

  function DigitChar(d: nat): char
    requires d < 10
  {
    "0123456789"[d]
  }

  /** Decimal digits of a natural number, most significant first. */
  function NatToDecimal(n: nat): (s: string)
    ensures |s| > 0
    decreases n
  {
    if n < 10 then [DigitChar(n)] else NatToDecimal(n / 10) + [DigitChar(n % 10)]
  }

  /** `String(v)`. The text of a function is its source code, which is not
      modelled; it is rendered as a fixed placeholder. */
  function ToJsString(v: Value): string {
    match v
    case Undefined => "undefined"
    case Null => "null"
    case Bool(b) => if b then "true" else "false"
    case Num(n) => if n < 0 then "-" + NatToDecimal(-n) else NatToDecimal(n)
    case Str(s) => s
    case Obj(_, _) => "[object Object]"
    case Fn(_) => "function"
  }
}
