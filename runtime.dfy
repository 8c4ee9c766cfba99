/** The host primitives the core calls but whose internals are not part of this
    model. They are passed in as functions so that every result is stated relative
    to them. */
module Runtime {
  import opened Options
  import opened Types

  /** - `parseNumber`: `Number(s)` on a string; `None` is NaN.
      - `numberToString`: `String(x)` on a finite number.
      - `formatDate`: the date re-rendering of lib/cleaning.ts; `None` is `null`.
      - `sqrt`: `Math.sqrt`. */
  datatype Host = Host(
    parseNumber: string -> Option<real>,
    numberToString: real -> string,
    formatDate: (string, DateFormat) -> Option<string>,
    sqrt: real -> real)

  /** The only facts about `Math.sqrt` the model relies on. */
  ghost predicate SqrtSpec(host: Host)
  {
    forall x: real :: x >= 0.0 ==> host.sqrt(x) >= 0.0 && (host.sqrt(x) == 0.0 <==> x == 0.0)
  }

  /** `Number(v)` on a cell; `None` is NaN. */
  function JsNumber(host: Host, v: Cell): (r: Option<real>)
    ensures v.Num? ==> r == Some(v.x)
    ensures v.NaN? ==> r.None?
    ensures v.Bool? ==> r == Some(if v.b then 1.0 else 0.0)
  {
    match v
    case Num(x) => Some(x)
    case NaN => None
    case Str(s) => host.parseNumber(s)
    case Bool(b) => Some(if b then 1.0 else 0.0)
    case Null => Some(0.0)
  }

  /** `String(v)` on a cell. */
  function JsString(host: Host, v: Cell): (r: string)
    ensures v.Str? ==> r == v.s
    ensures v.Bool? ==> r == (if v.b then "true" else "false")
  {
    match v
    case Num(x) => host.numberToString(x)
    case NaN => "NaN"
    case Str(s) => s
    case Bool(b) => if b then "true" else "false"
    case Null => "null"
  }
}
