/**
 * The fields of a parsed JSON request body, as JavaScript sees them, and the
 * few JavaScript operators that the request handlers apply to them.
 */
module Json {

  /**
   * One field of the body. A number is either an integer or not; every
   * number that is not an integer (such as 1.5, or the `Infinity` that an
   * overflowing literal like `1e400` parses to) is `NonInteger`, which is
   * truthy and fails `Number.isInteger`. JSON cannot spell NaN.
   */
  datatype Value =
    | Undefined    // the field is not present in the body
    | Null
    | Bool(b: bool)
    | Int(i: int)
    | NonInteger   // a number that is not an integer
    | Str(s: string)
    | Composite    // an array or an object

  /** `Number.isInteger(v)`: false for every value that is not an integral number. */
  predicate IsInteger(v: Value)
  {
    v.Int?
  }

  /** JavaScript truthiness: `false`, `null`, `undefined`, `0` and `""` are falsy. */
  predicate Truthy(v: Value)
  {
    match v
    case Undefined => false
    case Null => false
    case Bool(b) => b
    case Int(i) => i != 0
    case NonInteger => true
    case Str(s) => s != []
    case Composite => true
  }

  /** The operand values that `??` replaces by its right-hand side. */
  predicate Nullish(v: Value)
  {
    v.Undefined? || v.Null?
  }
}
