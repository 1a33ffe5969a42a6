/** Values of the PHP runtime that the framework stores in sessions, models and queries. */
module Php {

  datatype Option<+T> = None | Some(value: T)

  /** One flash message as FlashSession stores it: `['remove' => bool, 'value' => string]`. */
  datatype FlashMessage = FlashMessage(remove: bool, value: string)

  /**
   * The PHP values the core reads and writes. `FlashBag` is the array of flash
   * messages that FlashSession keeps under a single session key.
   */
  datatype Value =
    | Null
    | Bool(b: bool)
    | Int(i: int)
    | Str(s: string)
    | FlashBag(messages: map<string, FlashMessage>)

  /** PHP's conversion of a string to bool: only "" and "0" are false. */
  predicate TruthyString(s: string) {
    s != "" && s != "0"
  }

  /** PHP's conversion of a value to bool (`if ($v)`, `!$v`). */
  predicate Truthy(v: Value) {
    match v
    case Null => false
    case Bool(b) => b
    case Int(i) => i != 0
    case Str(s) => TruthyString(s)
    case FlashBag(m) => |m| > 0
  }
}
