/**
 * Request bodies as the Joi schemas see them: a JSON object is a map from
 * field name to JSON value, an absent field is a missing key.
 */
module RequestBody {

  /** A JSON value. Numbers are kept exact; arrays and objects are not told apart. */
  datatype Json = JString(s: string) | JNumber(x: real) | JBool(b: bool) | JNull | JComposite

  type Body = map<string, Json>

  /** Number.MAX_SAFE_INTEGER: Joi's `number()` refuses values beyond it in size. */
  const MaxSafeInteger: int := 9007199254740991

  /** `joi.string()`: a string, and not the empty one (Joi refuses "" by default). */
  predicate IsString(v: Json)
  {
    v.JString? && |v.s| >= 1
  }

  /** The UTF-16 code units a character takes: two above U+FFFF, one otherwise. */
  function Utf16Units(c: char): nat
  {
    if c as int > 0xFFFF then 2 else 1
  }

  /** A JavaScript string's `length`: the number of UTF-16 code units. */
  function Utf16Length(s: string): (n: nat)
    ensures |s| <= n <= 2 * |s|
  {
    if s == [] then 0 else Utf16Units(s[0]) + Utf16Length(s[1..])
  }

  /** A character repeated `k` times takes `k` times its code units. */
  lemma {:induction false} Utf16LengthRepeat(k: nat, c: char)
    ensures Utf16Length(seq(k, _ => c)) == k * Utf16Units(c)
  {
    if k > 0 {
      var s := seq(k, _ => c);
      assert s[0] == c;
      assert s[1..] == seq(k - 1, _ => c);
      Utf16LengthRepeat(k - 1, c);
    }
  }

  /** `joi.number()`: a number within the safe range. */
  predicate IsNumber(v: Json)
  {
    v.JNumber? && -MaxSafeInteger as real <= v.x <= MaxSafeInteger as real
  }

  /** `joi.number().integer().min(lo)`. */
  predicate IsIntegerAtLeast(v: Json, lo: int)
  {
    IsNumber(v) && v.x == v.x.Floor as real && v.x.Floor >= lo
  }

  /** The integer an `IsIntegerAtLeast` value holds. */
  function IntegerOf(v: Json, lo: int): (n: int)
    requires IsIntegerAtLeast(v, lo)
    ensures n as real == v.x
    ensures lo <= n <= MaxSafeInteger
  {
    v.x.Floor
  }
}
