// The values of a store (interfaces/inner_api/include/preferences_value.h), their comparison, and the
// checks of frameworks/native/src/preferences_utils.cpp.
module Values {
  import opened Bits

  type Key = Bytes
  type Int32 = i: int | -0x8000_0000 <= i < 0x8000_0000
  type Int64 = i: int | -0x8000_0000_0000_0000 <= i < 0x8000_0000_0000_0000
  type Word32 = n: nat | n < 0x1_0000_0000
  type Word64 = n: nat | n < 0x1_0000_0000_0000_0000

  /** A float or double is its bit pattern. */
  datatype Value =
    | Mono
    | Int(i: Int32)
    | Long(l: Int64)
    | Float(f: Word32)
    | Double(d: Word64)
    | Bool(b: bool)
    | Str(s: Bytes)
    | StringArray(ss: seq<Bytes>)
    | BoolArray(bs: seq<bool>)
    | DoubleArray(ds: seq<Word64>)
    | Uint8Array(bytes: Bytes)
    | Object(json: Bytes)
    | BigInt(words: seq<Word64>, sign: Int32)
    | IntArray(ints: seq<Int32>)
    | Int64Array(longs: seq<Int64>)

  type ValueMap = map<Key, Value>

  // The == of floating-point numbers: the two zeros are equal, and a NaN is equal to nothing.

  predicate FloatEqual(x: Word32, y: Word32) {
    var a, b := x % 0x8000_0000, y % 0x8000_0000;
    (a == 0 && b == 0) || (x == y && a <= 0x7F80_0000)
  }

  predicate DoubleEqual(x: Word64, y: Word64) {
    var a, b := x % 0x8000_0000_0000_0000, y % 0x8000_0000_0000_0000;
    (a == 0 && b == 0) || (x == y && a <= 0x7FF0_0000_0000_0000)
  }

  /** PreferencesValue::operator==. */
  predicate Equal(v: Value, w: Value) {
    match (v, w)
    case (Float(x), Float(y)) => FloatEqual(x, y)
    case (Double(x), Double(y)) => DoubleEqual(x, y)
    case (DoubleArray(xs), DoubleArray(ys)) => |xs| == |ys| && forall i :: 0 <= i < |xs| ==> DoubleEqual(xs[i], ys[i])
    case _ => v == w
  }

  datatype Code = E_OK | E_ERROR | E_KEY_EMPTY | E_KEY_EXCEED_MAX_LENGTH | E_VALUE_EXCEED_MAX_LENGTH
                | E_INVALID_ARGS | E_NO_DATA | E_ALREADY_CLOSED | E_NOT_SUPPORTED

  const MAX_KEY_LENGTH := 1024
  const MAX_VALUE_LENGTH := 16 * 1024 * 1024

  function CheckKey(key: Key): Code {
    if key == [] then E_KEY_EMPTY
    else if MAX_KEY_LENGTH < |key| then E_KEY_EXCEED_MAX_LENGTH
    else E_OK
  }

  /** The lengths are compared as uint32_t. */
  function CheckValue(value: Value): Code {
    match value
    case Str(s) => if MAX_VALUE_LENGTH < |s| % TWO_POW_32 then E_VALUE_EXCEED_MAX_LENGTH else E_OK
    case Object(s) => if MAX_VALUE_LENGTH < |s| % TWO_POW_32 then E_VALUE_EXCEED_MAX_LENGTH else E_OK
    case BigInt(words, _) => if words == [] then E_ERROR else E_OK
    case _ => E_OK
  }

  function CheckPut(key: Key, value: Value): Code {
    if CheckKey(key) != E_OK then CheckKey(key) else CheckValue(value)
  }

  // ----- what the comparison means

  /** The same value, but for the sign of floating-point zeros. */
  predicate SameUpToZeros(v: Value, w: Value) {
    v == w
    || (v.Float? && w.Float? && v.f % 0x8000_0000 == 0 && w.f % 0x8000_0000 == 0)
    || (v.Double? && w.Double? && v.d % 0x8000_0000_0000_0000 == 0 && w.d % 0x8000_0000_0000_0000 == 0)
    || (v.DoubleArray? && w.DoubleArray? && |v.ds| == |w.ds|
        && forall i :: 0 <= i < |v.ds| ==>
             v.ds[i] == w.ds[i] || (v.ds[i] % 0x8000_0000_0000_0000 == 0 && w.ds[i] % 0x8000_0000_0000_0000 == 0))
  }

  /** The exponent of a NaN is all ones and its fraction is not zero. */
  predicate HasNaN(v: Value) {
    match v
    case Float(f) => f % 0x8000_0000 > 0x7F80_0000
    case Double(d) => d % 0x8000_0000_0000_0000 > 0x7FF0_0000_0000_0000
    case DoubleArray(ds) => exists i :: 0 <= i < |ds| && ds[i] % 0x8000_0000_0000_0000 > 0x7FF0_0000_0000_0000
    case _ => false
  }

  predicate IsFloating(v: Value) {
    v.Float? || v.Double? || v.DoubleArray?
  }

  // Two values are equal exactly if they are the same but for the sign of zeros and hold no NaN; other
  // values than floating-point numbers are equal exactly if they are the same.
  lemma EqualExactly(v: Value, w: Value)
    ensures Equal(v, w) <==> SameUpToZeros(v, w) && !HasNaN(v)
    ensures !IsFloating(v) ==> (Equal(v, w) <==> v == w)
  {
  }

  lemma SameAsItself(v: Value)
    ensures SameUpToZeros(v, v)
    ensures forall w :: !IsFloating(v) && SameUpToZeros(w, v) ==> w == v
  {
  }

  // A key is legal exactly if it has 1 to 1024 bytes; a value is refused exactly if it is an empty BigInt
  // or a string or object whose length, as a uint32_t, exceeds 16 MiB.
  lemma LegalExactly(key: Key, value: Value)
    ensures CheckKey(key) == E_OK <==> 1 <= |key| <= 1024
    ensures CheckKey(key) == E_KEY_EMPTY <==> |key| == 0
    ensures CheckKey(key) == E_KEY_EXCEED_MAX_LENGTH <==> |key| > 1024
    ensures CheckValue(value) == E_VALUE_EXCEED_MAX_LENGTH <==>
      (value.Str? && |value.s| % 0x1_0000_0000 > 16777216) || (value.Object? && |value.json| % 0x1_0000_0000 > 16777216)
    ensures CheckValue(value) == E_ERROR <==> value.BigInt? && |value.words| == 0
    ensures CheckValue(value) in {E_OK, E_ERROR, E_VALUE_EXCEED_MAX_LENGTH}
    ensures CheckPut(key, value) == E_OK <==> CheckKey(key) == E_OK && CheckValue(value) == E_OK
  {
  }
}
