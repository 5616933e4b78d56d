/**
 * Shared vocabulary of the model: optional and failure-carrying results, the
 * errors the package raises, PHP attribute values with PHP's `empty()` test,
 * PHP's truthiness of strings, and duplicate-free sequences.
 */
module Common {

  datatype Option<+T> = None | Some(value: T)

  datatype Result<+R, +E> = Success(value: R) | Failure(error: E)

  /** The outcome of an operation that returns nothing but may throw. */
  datatype Outcome<+E> = Pass | Fail(error: E)

  /** The exceptions of the package, as values. */
  datatype Error =
    | LocalesNotDefined            // LocalesNotDefinedException from Locales::load
    | ModelNotFound(locale: string) // ModelNotFoundException from getTranslationOrFail
    | InvalidLocale(locale: string) // InvalidArgumentException from RuleFactory::setLocales
    | TypeError                    // PHP TypeError: an argument of a type the parameter does not admit

  /**
   * A PHP scalar or array as stored in a model attribute. Arrays are ordered
   * key/value lists, as PHP arrays are. Floats and objects are not modelled.
   */
  datatype Value =
    | Null
    | Bool(b: bool)
    | Int(i: int)
    | Str(s: string)
    | Array(entries: seq<(string, Value)>)

  /** PHP's `empty()`: null, false, 0, "", "0" and the empty array. */
  predicate PhpEmpty(v: Value)
  {
    match v
    case Null => true
    case Bool(b) => !b
    case Int(i) => i == 0
    case Str(s) => s == "" || s == "0"
    case Array(es) => es == []
  }

  /** A string PHP treats as false in a boolean context. */
  predicate Falsy(s: string)
  {
    s == "" || s == "0"
  }

  /** A nullable string PHP treats as true in a boolean context. */
  predicate Truthy(o: Option<string>)
  {
    o.Some? && !Falsy(o.value)
  }

  /** PHP's `$a ?: $b` for a nullable string `$a`. */
  function OrElse(a: Option<string>, b: string): string
  {
    if Truthy(a) then a.value else b
  }

  predicate NoDuplicates<T(==)>(s: seq<T>)
  {
    forall i, j :: 0 <= i < j < |s| ==> s[i] != s[j]
  }

  predicate IsPrefix<T(==)>(p: seq<T>, s: seq<T>)
  {
    |p| <= |s| && s[..|p|] == p
  }

  lemma AppendAssoc<T>(x: seq<T>, y: seq<T>, z: seq<T>)
    ensures (x + y) + z == x + (y + z)
  {
  }

  lemma AppendEmpty<T>(x: seq<T>)
    ensures x + [] == x
  {
  }

  lemma AppendEmptyLeft<T>(x: seq<T>)
    ensures [] + x == x
  {
  }

  /** Dropping the last element of `a + b`, for a non-empty `b`, drops it from `b`. */
  lemma DropLastAppend<T>(a: seq<T>, b: seq<T>)
    requires b != []
    ensures (a + b)[..|a + b| - 1] == a + b[..|b| - 1] && (a + b)[|a + b| - 1] == b[|b| - 1]
  {
  }
}
