/** Shared vocabulary: optional values, JSON-like values. */
module Wrappers {

  datatype Option<+T> = None | Some(value: T) {
    function GetOr(default: T): T {
      if Some? then value else default
    }
  }

  /**
   * A stored JavaScript value.  Numbers are exact integers, an object is a map (key order is not
   * modelled), and `undefined` is `None` of `Option<Value>`.
   */
  datatype Value =
    | Null
    | Bool(b: bool)
    | Num(n: int)
    | Str(s: string)
    | Arr(items: seq<Value>)
    | Obj(fields: map<string, Value>)

  const EMPTY_OBJECT := Obj(map[])

  function Max(a: nat, b: nat): nat {
    if a < b then b else a
  }

  function Min(a: nat, b: nat): nat {
    if a < b then a else b
  }

  /** Decimal digits. */
  function Digits(n: nat): string {
    if n < 10 then [('0' as int + n) as char] else Digits(n / 10) + [('0' as int + n % 10) as char]
  }

  /** JavaScript's `String(v)`. */
  function Text(v: Value): string {
    match v
    case Null => "null"
    case Bool(b) => if b then "true" else "false"
    case Num(n) => if n < 0 then "-" + Digits(-n) else Digits(n)
    case Str(s) => s
    case Arr(items) => ItemsText(items)
    case Obj(_) => "[object Object]"
  }

  /** Array items joined by commas, null as nothing. */
  function ItemsText(items: seq<Value>): string {
    if items == [] then ""
    else
      var last := items[|items| - 1];
      var text := if last.Null? then "" else Text(last);
      if |items| == 1 then text else ItemsText(items[..|items| - 1]) + "," + text
  }
}
