// The mapping between values and XML elements, and between a map of values and a document:
// frameworks/native/src/preferences_xml_utils.cpp. libxml2 is assumed to give back the tree of
// elements, attributes and texts it was given, as C strings.
module XmlValues {
  import opened Bits
  import opened Options
  import opened Values
  import Base64
  import Parcel

  /** An element: its name, its key and value attributes, its text and its child elements. */
  datatype Node = Node(name: string, key: Option<Bytes>, value: Option<Bytes>, text: Bytes, children: seq<Node>)

  /** class Element of preferences_xml_utils.h. */
  datatype Element = Element(tag: string, key: Bytes, value: Bytes, children: seq<Element>)

  /** std::to_string and stream extraction of floats and doubles, and the byte after the Base64 table. */
  datatype Env = Env(
    floatText: Word32 -> Bytes, textFloat: Bytes -> Word32,
    doubleText: Word64 -> Bytes, textDouble: Bytes -> Word64,
    past: byte)

  /** What c_str() hands to libxml2: the bytes before the first NUL. */
  function CStr(s: Bytes): (r: Bytes)
    ensures 0 !in r
    ensures r == s <==> 0 !in s
  {
    if s == [] || s[0] == 0 then [] else [s[0]] + CStr(s[1..])
  }

  // ----- numbers as text

  function Decimal(n: nat): Bytes {
    if n < 10 then [48 + n] else Decimal(n / 10) + [48 + n % 10]
  }

  function IntText(i: int): Bytes {
    if i < 0 then [45] + Decimal(-i) else Decimal(i)
  }

  predicate IsDigit(c: byte) { 48 <= c <= 57 }

  predicate IsSpace(c: byte) { c == 32 || 9 <= c <= 13 }

  function SkipSpace(s: Bytes): Bytes {
    if s != [] && IsSpace(s[0]) then SkipSpace(s[1..]) else s
  }

  function Digits(s: Bytes): (d: Bytes)
    ensures forall i :: 0 <= i < |d| ==> IsDigit(d[i])
  {
    if s != [] && IsDigit(s[0]) then [s[0]] + Digits(s[1..]) else []
  }

  function DigitsValue(d: Bytes): nat
    requires forall i :: 0 <= i < |d| ==> IsDigit(d[i])
  {
    if d == [] then 0
    else
      var last: nat := d[|d| - 1];
      assert IsDigit(d[|d| - 1]);
      10 * DigitsValue(d[..|d| - 1]) + last - 48
  }

  /** Stream extraction of a signed integer: an optional sign, digits, and saturation; 0 without digits. */
  function ParseInt(text: Bytes, lo: int, hi: int): int {
    var s := SkipSpace(text);
    var negative := s != [] && s[0] == 45;
    var n: int := DigitsValue(Digits(if s != [] && (s[0] == 45 || s[0] == 43) then s[1..] else s));
    if negative then (if -n < lo then lo else -n) else (if n > hi then hi else n)
  }

  /** Of an unsigned one: a minus sign wraps around. */
  function ParseWord(text: Bytes): Word64 {
    var s := SkipSpace(text);
    var negative := s != [] && s[0] == 45;
    var n := DigitsValue(Digits(if s != [] && (s[0] == 45 || s[0] == 43) then s[1..] else s));
    if n >= TWO_POW_64 then TWO_POW_64 - 1 else if negative && n > 0 then TWO_POW_64 - n else n
  }

  function ParseInt32(text: Bytes): Int32 { Clamp(text, -0x8000_0000, 0x7FFF_FFFF) }
  function ParseInt64(text: Bytes): Int64 { Clamp(text, -0x8000_0000_0000_0000, 0x7FFF_FFFF_FFFF_FFFF) }

  function Clamp(text: Bytes, lo: int, hi: int): (r: int)
    requires lo <= 0 <= hi
    ensures lo <= r <= hi
  {
    ParseInt(text, lo, hi)
  }

  const TRUE: Bytes := [116, 114, 117, 101]
  const FALSE: Bytes := [102, 97, 108, 115, 101]

  function BoolText(b: bool): Bytes { if b then TRUE else FALSE }

  // ----- writing

  /** struct ValueVisitor after its visit. */
  datatype Visitor = Visitor(typeTag: string, valueStr: Bytes, childrenTag: string, arrayValues: seq<Bytes>)

  function Mapped<S, T>(xs: seq<S>, f: S -> T): (ys: seq<T>)
    ensures |ys| == |xs| && forall i :: 0 <= i < |xs| ==> ys[i] == f(xs[i])
  {
    seq(|xs|, i requires 0 <= i < |xs| => f(xs[i]))
  }

  /** The words, and after them the sign as one more 64-bit word. */
  function BigIntTexts(words: seq<Word64>, sign: Int32): seq<Bytes> {
    Mapped(words, w => IntText(w)) + [IntText(Parcel.Unsigned64(sign))]
  }

  function Visited(v: Value, env: Env): Visitor {
    match v
    case Int(i) => Visitor("int", IntText(i), "", [])
    case Long(l) => Visitor("long", IntText(l), "", [])
    case Float(f) => Visitor("float", env.floatText(f), "", [])
    case Double(d) => Visitor("double", env.doubleText(d), "", [])
    case Bool(b) => Visitor("bool", BoolText(b), "", [])
    case Str(s) => Visitor("string", s, "", [])
    case Object(s) => Visitor("object", s, "", [])
    case Uint8Array(b) => Visitor("uint8Array", Base64.Encoding(b[..|b| % TWO_POW_32]), "", [])
    case StringArray(ss) => Visitor("stringArray", [], "string", ss)
    case BoolArray(bs) => Visitor("boolArray", [], "bool", Mapped(bs, b => BoolText(b)))
    case DoubleArray(ds) => Visitor("doubleArray", [], "double", Mapped(ds, env.doubleText))
    case IntArray(ints) => Visitor("intArray", [], "int", Mapped(ints, (i: Int32) => IntText(i)))
    case Int64Array(ls) => Visitor("int64Array", [], "int64", Mapped(ls, (l: Int64) => IntText(l)))
    case BigInt(words, sign) => Visitor("BigInt", [], "uint64_t", BigIntTexts(words, sign))
    case Mono => Visitor("unknown", [], "", [])
  }

  function Child(tag: string, text: Bytes): Node {
    if tag == "string" then Node(tag, None, None, CStr(text), []) else Node(tag, None, Some(CStr(text)), [], [])
  }

  function Children(tag: string, texts: seq<Bytes>): seq<Node> {
    seq(|texts|, i requires 0 <= i < |texts| => Child(tag, texts[i]))
  }

  predicate IsTextTag(tag: string) {
    tag == "string" || tag == "uint8Array" || tag == "object"
  }

  predicate IsWrittenPrimitive(tag: string) {
    tag == "int" || tag == "long" || tag == "float" || tag == "bool" || tag == "double"
  }

  predicate IsWrittenArray(tag: string) {
    tag == "intArray" || tag == "int64Array" || tag == "doubleArray" || tag == "stringArray" || tag == "boolArray"
    || tag == "BigInt"
  }

  /** Nothing is written for a value without a type. */
  function Written(key: Key, v: Value, env: Env): Option<Node> {
    var w := Visited(v, env);
    if IsTextTag(w.typeTag) then Some(Node(w.typeTag, Some(CStr(key)), None, CStr(w.valueStr), []))
    else if IsWrittenPrimitive(w.typeTag) then Some(Node(w.typeTag, Some(CStr(key)), Some(CStr(w.valueStr)), [], []))
    else if IsWrittenArray(w.typeTag) then
      Some(Node(w.typeTag, Some(CStr(key)), None, [], Children(w.childrenTag, w.arrayValues)))
    else None
  }

  function WrittenAll(order: seq<Key>, m: ValueMap, env: Env): seq<Node>
    requires forall i :: 0 <= i < |order| ==> order[i] in m
  {
    if order == [] then []
    else
      var rest := WrittenAll(order[1..], m, env);
      var node := Written(order[0], m[order[0]], env);
      if node.Some? then [node.value] + rest else rest
  }

  // ----- reading

  predicate IsPrimitive(tag: string) {
    tag == "int" || tag == "int64" || tag == "long" || tag == "bool" || tag == "float" || tag == "double" || tag == "uint64_t"
  }

  predicate IsArray(tag: string) {
    tag == "boolArray" || tag == "stringArray" || tag == "doubleArray" || tag == "intArray" || tag == "int64Array"
    || tag == "BigInt" || tag == "set"
  }

  function KeyOr(key: Option<Bytes>): Bytes {
    if key.Some? then key.value else []
  }

  function Parsed(node: Node): Option<Element>
    decreases node, 1
  {
    if IsTextTag(node.name) then Some(Element(node.name, KeyOr(node.key), node.text, []))
    else if IsPrimitive(node.name) then
      if node.value.Some? then Some(Element(node.name, KeyOr(node.key), node.value.value, [])) else None
    else if IsArray(node.name) && node.key.Some? then
      var children := ParsedAll(node.children);
      if children.Some? then Some(Element(node.name, node.key.value, [], children.value)) else None
    else None
  }

  function ParsedAll(nodes: seq<Node>): Option<seq<Element>>
    decreases nodes, 0
  {
    if nodes == [] then Some([])
    else
      var e := Parsed(nodes[0]);
      if e.None? then None else Cons(e.value, ParsedAll(nodes[1..]))
  }

  function Converted<T>(es: seq<Element>, f: Bytes -> T): seq<T> {
    Mapped(es, (e: Element) => f(e.value))
  }

  function ToBigInt(es: seq<Element>): Value {
    var words := Converted(es, t => ParseWord(t));
    if words == [] then BigInt([], 0)
    else BigInt(words[..|words| - 1], Parcel.Signed32(words[|words| - 1] % TWO_POW_32))
  }

  function Decode(text: Bytes, past: byte): Bytes {
    match Base64.Decoding(text, past)
    case Accepted(b) => b
    case Rejected => []
  }

  /** The alternative of the variant whose type name is the tag. */
  function ToValue(e: Element, env: Env): Option<Value> {
    if e.tag == "unknown" then Some(Mono)
    else if e.tag == "int" then Some(Int(ParseInt32(e.value)))
    else if e.tag == "long" then Some(Long(ParseInt64(e.value)))
    else if e.tag == "float" then Some(Float(env.textFloat(e.value)))
    else if e.tag == "double" then Some(Double(env.textDouble(e.value)))
    else if e.tag == "bool" then Some(Bool(e.value == TRUE))
    else if e.tag == "string" then Some(Str(e.value))
    else if e.tag == "stringArray" then Some(StringArray(Converted(e.children, t => t)))
    else if e.tag == "boolArray" then Some(BoolArray(Converted(e.children, t => t == TRUE)))
    else if e.tag == "doubleArray" then Some(DoubleArray(Converted(e.children, env.textDouble)))
    else if e.tag == "uint8Array" then Some(Uint8Array(Decode(e.value, env.past)))
    else if e.tag == "object" then Some(Object(e.value))
    else if e.tag == "BigInt" then Some(ToBigInt(e.children))
    else if e.tag == "intArray" then Some(IntArray(Converted(e.children, t => ParseInt32(t))))
    else if e.tag == "int64Array" then Some(Int64Array(Converted(e.children, t => ParseInt64(t))))
    else None
  }

  /** insert keeps the entry that is already there. */
  function Inserted(m: ValueMap, e: Element, env: Env): ValueMap {
    var v := ToValue(e, env);
    if v.None? || e.key in m then m else m[e.key := v.value]
  }

  /** The children of the root, read one by one until one cannot be parsed. */
  function Reading(nodes: seq<Node>, m: ValueMap, env: Env): (bool, ValueMap)
    decreases |nodes|
  {
    if nodes == [] then (true, m)
    else
      var e := Parsed(nodes[0]);
      if e.None? then (false, m) else Reading(nodes[1..], Inserted(m, e.value, env), env)
  }

  // ----- numbers survive their text

  lemma {:induction false} DecimalBack(n: nat)
    ensures var d := Decimal(n); d != [] && (forall i :: 0 <= i < |d| ==> IsDigit(d[i])) && DigitsValue(d) == n
  {
    if n >= 10 {
      DecimalBack(n / 10);
      var d := Decimal(n);
      assert d[..|d| - 1] == Decimal(n / 10);
    }
  }

  lemma {:induction false} AllDigits(d: Bytes)
    requires forall i :: 0 <= i < |d| ==> IsDigit(d[i])
    ensures Digits(d) == d && 0 !in d
  {
    if d != [] {
      AllDigits(d[1..]);
    }
  }

  // The text of an integer reads as that integer, or as the limit it exceeds.
  lemma IntBack(i: int, lo: int, hi: int)
    requires lo <= 0 <= hi
    ensures ParseInt(IntText(i), lo, hi) == if i < lo then lo else if i > hi then hi else i
    ensures CStr(IntText(i)) == IntText(i)
  {
    hide Decimal, DigitsValue;
    var d := Decimal(if i < 0 then -i else i);
    DecimalBack(if i < 0 then -i else i);
    AllDigits(d);
    if i < 0 {
      assert IntText(i)[1..] == d;
    }
  }

  // An unsigned one saturates too, and a minus sign wraps it around.
  lemma WordBack(n: nat)
    ensures ParseWord(IntText(n)) == if n < TWO_POW_64 then n else TWO_POW_64 - 1
    ensures ParseWord(IntText(-(n as int))) == if n == 0 then 0 else if n < TWO_POW_64 then TWO_POW_64 - n else TWO_POW_64 - 1
    ensures CStr(IntText(n)) == IntText(n)
  {
    hide Decimal, DigitsValue;
    DecimalBack(n);
    AllDigits(Decimal(n));
    assert n > 0 ==> IntText(-(n as int))[1..] == Decimal(n);
  }

  lemma BoolBack(b: bool)
    ensures CStr(BoolText(b)) == BoolText(b) && (BoolText(b) == TRUE <==> b)
  {
  }

  lemma Base64Back(b: Bytes, past: byte)
    ensures CStr(Base64.Encoding(b)) == Base64.Encoding(b) && Decode(Base64.Encoding(b), past) == b
  {
    hide Base64.Encoding, Base64.Decoding;
    Base64.DecodeOfEncode(b, past);
    Base64.EncodingIsCanonical(b);
    NoNul(Base64.Encoding(b));
  }

  lemma NoNul(s: Bytes)
    requires Base64.Canonical(s)
    ensures 0 !in s
  {
    var pad :| 0 <= pad <= 2 && Base64.CanonicalWith(s, pad);
    forall i | 0 <= i < |s|
      ensures s[i] != 0
    {
      if i < |s| - pad {
        assert Base64.InAlphabet(s[i]);
      } else {
        assert s[i] == Base64.PAD;
      }
    }
  }

  // ----- one value

  /** The value a written element is read back as; None when nothing is written. */
  function ReadBack(v: Value, env: Env): Option<Value> {
    match v
    case Mono => None
    case Str(s) => Some(Str(CStr(s)))
    case Object(s) => Some(Object(CStr(s)))
    case StringArray(ss) => Some(StringArray(Mapped(ss, s => CStr(s))))
    case Uint8Array(b) => Some(Uint8Array(b[..|b| % TWO_POW_32]))
    case Float(f) => Some(Float(env.textFloat(CStr(env.floatText(f)))))
    case Double(d) => Some(Double(env.textDouble(CStr(env.doubleText(d)))))
    case DoubleArray(ds) => Some(DoubleArray(Mapped(ds, d => env.textDouble(CStr(env.doubleText(d))))))
    case _ => Some(v)
  }

  /** No string of the value contains a NUL, an array of bytes is shorter than 4 GiB, and the text of
      every floating-point number reads as that number. */
  predicate Faithful(v: Value, env: Env) {
    match v
    case Mono => false
    case Str(s) => 0 !in s
    case Object(s) => 0 !in s
    case StringArray(ss) => forall i :: 0 <= i < |ss| ==> 0 !in ss[i]
    case Uint8Array(b) => |b| < TWO_POW_32
    case Float(f) => env.textFloat(CStr(env.floatText(f))) == f
    case Double(d) => env.textDouble(CStr(env.doubleText(d))) == d
    case DoubleArray(ds) => forall i :: 0 <= i < |ds| ==> env.textDouble(CStr(env.doubleText(ds[i]))) == ds[i]
    case _ => true
  }

  lemma FaithfulExactly(v: Value, env: Env)
    ensures ReadBack(v, env) == Some(v) <==> Faithful(v, env)
  {
    match v
    case StringArray(ss) =>
      var back := Mapped(ss, s => CStr(s));
      assert back == ss <==> forall i :: 0 <= i < |ss| ==> back[i] == ss[i];
    case DoubleArray(ds) =>
      var back := Mapped(ds, d => env.textDouble(CStr(env.doubleText(d))));
      assert back == ds <==> forall i :: 0 <= i < |ds| ==> back[i] == ds[i];
    case Uint8Array(b) =>
      assert |b| < TWO_POW_32 ==> b[..|b|] == b;
    case _ =>
  }

  predicate IsChildTag(tag: string) {
    tag == "string" || tag == "int" || tag == "int64" || tag == "bool" || tag == "double" || tag == "uint64_t"
  }

  function ChildElements(tag: string, texts: seq<Bytes>): seq<Element> {
    seq(|texts|, i requires 0 <= i < |texts| => Element(tag, [], CStr(texts[i]), []))
  }

  lemma {:induction false} ChildrenBack(tag: string, texts: seq<Bytes>)
    requires IsChildTag(tag)
    ensures ParsedAll(Children(tag, texts)) == Some(ChildElements(tag, texts))
  {
    if texts == [] {
      assert ChildElements(tag, texts) == [];
    } else {
      ChildrenBack(tag, texts[1..]);
      assert Children(tag, texts)[0] == Child(tag, texts[0]);
      assert Children(tag, texts)[1..] == Children(tag, texts[1..]);
      assert Parsed(Child(tag, texts[0])) == Some(Element(tag, [], CStr(texts[0]), []));
      assert [Element(tag, [], CStr(texts[0]), [])] + ChildElements(tag, texts[1..]) == ChildElements(tag, texts);
    }
  }

  ghost predicate Back(key: Key, v: Value, env: Env) {
    var node := Written(key, v, env);
    && node.Some? && Parsed(node.value).Some?
    && Parsed(node.value).value.key == CStr(key)
    && ToValue(Parsed(node.value).value, env) == ReadBack(v, env)
  }

  lemma ArrayParsed(key: Key, tag: string, childTag: string, texts: seq<Bytes>)
    requires IsWrittenArray(tag) && IsChildTag(childTag)
    ensures Parsed(Node(tag, Some(CStr(key)), None, [], Children(childTag, texts))) ==
            Some(Element(tag, CStr(key), [], ChildElements(childTag, texts)))
  {
    hide CStr, Children, ChildElements;
    ChildrenBack(childTag, texts);
  }

  lemma StringArrayBack(key: Key, ss: seq<Bytes>, env: Env)
    ensures Back(key, StringArray(ss), env)
  {
    hide CStr, Parsed, Children;
    ArrayParsed(key, "stringArray", "string", ss);
    assert Converted(ChildElements("string", ss), t => t) == Mapped(ss, s => CStr(s));
  }

  lemma BoolArrayBack(key: Key, bs: seq<bool>, env: Env)
    ensures Back(key, BoolArray(bs), env)
  {
    hide CStr, Parsed, Children;
    var texts := Mapped(bs, b => BoolText(b));
    ArrayParsed(key, "boolArray", "bool", texts);
    forall i | 0 <= i < |bs| {
      BoolBack(bs[i]);
    }
    assert Converted(ChildElements("bool", texts), t => t == TRUE) == bs;
  }

  lemma DoubleArrayBack(key: Key, ds: seq<Word64>, env: Env)
    ensures Back(key, DoubleArray(ds), env)
  {
    hide CStr, Parsed, Children;
    var texts := Mapped(ds, env.doubleText);
    ArrayParsed(key, "doubleArray", "double", texts);
    assert Converted(ChildElements("double", texts), env.textDouble) == Mapped(ds, d => env.textDouble(CStr(env.doubleText(d))));
  }

  lemma IntArrayBack(key: Key, ints: seq<Int32>, env: Env)
    ensures Back(key, IntArray(ints), env)
  {
    hide CStr, IntText, ParseInt, Parsed, Children;
    var texts := Mapped(ints, (i: Int32) => IntText(i));
    ArrayParsed(key, "intArray", "int", texts);
    forall i | 0 <= i < |ints| {
      IntBack(ints[i], -0x8000_0000, 0x7FFF_FFFF);
    }
    assert Converted(ChildElements("int", texts), t => ParseInt32(t)) == ints;
  }

  lemma Int64ArrayBack(key: Key, longs: seq<Int64>, env: Env)
    ensures Back(key, Int64Array(longs), env)
  {
    hide CStr, IntText, ParseInt, Parsed, Children;
    var texts := Mapped(longs, (l: Int64) => IntText(l));
    ArrayParsed(key, "int64Array", "int64", texts);
    forall i | 0 <= i < |longs| {
      IntBack(longs[i], -0x8000_0000_0000_0000, 0x7FFF_FFFF_FFFF_FFFF);
    }
    assert Converted(ChildElements("int64", texts), t => ParseInt64(t)) == longs;
  }

  // The sign is written as a last 64-bit word and truncated back to an int.
  lemma BigIntBack(key: Key, words: seq<Word64>, sign: Int32, env: Env)
    ensures Back(key, BigInt(words, sign), env)
  {
    hide CStr, IntText, ParseWord, ToBigInt, ChildElements, Parsed, Children;
    ArrayParsed(key, "BigInt", "uint64_t", BigIntTexts(words, sign));
    WordsAndSignBack(words, sign);
  }

  lemma WordsAndSignBack(words: seq<Word64>, sign: Int32)
    ensures ToBigInt(ChildElements("uint64_t", BigIntTexts(words, sign))) == BigInt(words, sign)
  {
    hide CStr, IntText, ParseWord;
    var texts := BigIntTexts(words, sign);
    var all := words + [Parcel.Unsigned64(sign)];
    forall i | 0 <= i < |all|
      ensures ParseWord(CStr(texts[i])) == all[i]
    {
      WordBack(all[i]);
    }
    assert Converted(ChildElements("uint64_t", texts), t => ParseWord(t)) == all;
    assert all[..|all| - 1] == words && all[|all| - 1] == Parcel.Unsigned64(sign);
    SignBack(sign);
  }

  lemma SignBack(sign: Int32)
    ensures Parcel.Signed32(Parcel.Unsigned64(sign) % TWO_POW_32) == sign
  {
  }

  // Every element that is written can be read, under its key up to a NUL, as the value ReadBack says.
  lemma ElementBack(key: Key, v: Value, env: Env)
    ensures v.Mono? <==> Written(key, v, env).None?
    ensures v.Mono? || Back(key, v, env)
  {
    hide CStr, IntText, ParseInt, Decode, Back;
    match v
    case StringArray(ss) => StringArrayBack(key, ss, env);
    case BoolArray(bs) => BoolArrayBack(key, bs, env);
    case DoubleArray(ds) => DoubleArrayBack(key, ds, env);
    case IntArray(ints) => IntArrayBack(key, ints, env);
    case Int64Array(longs) => Int64ArrayBack(key, longs, env);
    case BigInt(words, sign) => BigIntBack(key, words, sign, env);
    case Mono =>
    case _ => ScalarBack(key, v, env);
  }

  lemma ScalarParsed(key: Key, tag: string, text: Bytes)
    ensures IsTextTag(tag) ==> Parsed(Node(tag, Some(CStr(key)), None, CStr(text), [])) == Some(Element(tag, CStr(key), CStr(text), []))
    ensures IsWrittenPrimitive(tag) ==>
      Parsed(Node(tag, Some(CStr(key)), Some(CStr(text)), [], [])) == Some(Element(tag, CStr(key), CStr(text), []))
  {
    hide CStr;
  }

  lemma ScalarBack(key: Key, v: Value, env: Env)
    requires v.Int? || v.Long? || v.Float? || v.Double? || v.Bool? || v.Str? || v.Object? || v.Uint8Array?
    ensures Back(key, v, env)
  {
    hide CStr, IntText, ParseInt, Decode, Base64.Encoding, Parsed;
    ScalarParsed(key, Visited(v, env).typeTag, Visited(v, env).valueStr);
    match v
    case Int(i) => IntBack(i, -0x8000_0000, 0x7FFF_FFFF);
    case Long(l) => IntBack(l, -0x8000_0000_0000_0000, 0x7FFF_FFFF_FFFF_FFFF);
    case Bool(b) => BoolBack(b);
    case Uint8Array(b) => Base64Back(b[..|b| % TWO_POW_32], env.past);
    case _ =>
  }

  // ----- a whole map

  ghost predicate Orders(order: seq<Key>, m: ValueMap) {
    (forall i :: 0 <= i < |order| ==> order[i] in m) && (forall k :: k in m ==> k in order)
  }

  /** Reading the elements of these keys into c. */
  function Folded(order: seq<Key>, m: ValueMap, c: ValueMap, env: Env): ValueMap
    requires forall i :: 0 <= i < |order| ==> order[i] in m
    decreases |order|
  {
    if order == [] then c
    else
      var v := ReadBack(m[order[0]], env);
      var key := CStr(order[0]);
      Folded(order[1..], m, if v.None? || key in c then c else c[key := v.value], env)
  }

  lemma {:induction false} ReadingFolds(order: seq<Key>, m: ValueMap, c: ValueMap, env: Env)
    requires forall i :: 0 <= i < |order| ==> order[i] in m
    ensures Reading(WrittenAll(order, m, env), c, env) == (true, Folded(order, m, c, env))
    decreases |order|
  {
    hide CStr, Written, ReadBack, ToValue, Parsed;
    if order != [] {
      var key, v := order[0], m[order[0]];
      var rest := WrittenAll(order[1..], m, env);
      ElementBack(key, v, env);
      NothingForMono(v, env);
      if v.Mono? {
        ReadingFolds(order[1..], m, c, env);
      } else {
        var all := WrittenAll(order, m, env);
        var e := Parsed(Written(key, v, env).value).value;
        assert all[0] == Written(key, v, env).value && all[1..] == rest;
        ReadingFolds(order[1..], m, Inserted(c, e, env), env);
      }
    }
  }

  lemma NothingForMono(v: Value, env: Env)
    ensures v.Mono? <==> ReadBack(v, env).None?
  {
  }

  lemma {:induction false} FoldedKeys(order: seq<Key>, m: ValueMap, c: ValueMap, env: Env, key: Key)
    requires forall i :: 0 <= i < |order| ==> order[i] in m
    ensures key in c ==> key in Folded(order, m, c, env) && Folded(order, m, c, env)[key] == c[key]
    ensures key in Folded(order, m, c, env) && key !in c ==> 0 !in key
    decreases |order|
  {
    hide ReadBack;
    if order != [] {
      var v := ReadBack(m[order[0]], env);
      var k := CStr(order[0]);
      FoldedKeys(order[1..], m, if v.None? || k in c then c else c[k := v.value], env, key);
    }
  }

  // Without NULs in the keys, reading adds exactly the values that were written, below what is there.
  lemma {:induction false} FoldedValues(order: seq<Key>, m: ValueMap, c: ValueMap, env: Env, key: Key)
    requires forall i :: 0 <= i < |order| ==> order[i] in m && 0 !in order[i]
    requires key !in c
    ensures var r := Folded(order, m, c, env);
      if key in order && ReadBack(m[key], env).Some? then key in r && r[key] == ReadBack(m[key], env).value else key !in r
    decreases |order|
  {
    hide ReadBack, CStr;
    if order != [] {
      var v := ReadBack(m[order[0]], env);
      var k := CStr(order[0]);
      assert k == order[0];
      var c' := if v.None? || k in c then c else c[k := v.value];
      if key in c' {
        FoldedKeys(order[1..], m, c', env, key);
      } else {
        FoldedValues(order[1..], m, c', env, key);
      }
    }
  }

  ghost predicate AllFaithful(m: ValueMap, env: Env) {
    forall k :: k in m ==> 0 !in k && Faithful(m[k], env)
  }

  // Reading any document into a map that is not empty adds what it reads alone below the bindings that
  // are already there, and succeeds when it would alone.
  lemma {:induction false} ReadingMerges(nodes: seq<Node>, m: ValueMap, c: ValueMap, env: Env)
    ensures var (ok, read) := Reading(nodes, m, env); Reading(nodes, m + c, env) == (ok, read + c)
    decreases |nodes|
  {
    hide Parsed, ToValue;
    if nodes != [] && Parsed(nodes[0]).Some? {
      var e := Parsed(nodes[0]).value;
      ReadingMerges(nodes[1..], Inserted(m, e, env), c, env);
      assert Inserted(m + c, e, env) == Inserted(m, e, env) + c;
    }
  }

  // Reading a written map back, in whatever order it was written, adds it below the bindings that are
  // already there.
  lemma MapIsMerged(order: seq<Key>, m: ValueMap, c: ValueMap, env: Env)
    requires Orders(order, m) && AllFaithful(m, env)
    ensures Reading(WrittenAll(order, m, env), c, env) == (true, m + c)
  {
    hide Folded, Faithful, ReadBack, WrittenAll, Reading;
    ReadingFolds(order, m, c, env);
    var r := Folded(order, m, c, env);
    forall key
      ensures key in r <==> key in m + c
      ensures key in r ==> r[key] == (m + c)[key]
    {
      if key in c {
        FoldedKeys(order, m, c, env, key);
      } else {
        FoldedValues(order, m, c, env, key);
        if key in m {
          FaithfulExactly(m[key], env);
        }
      }
    }
    assert r == m + c;
  }

  // A map is read back as it was exactly when no key contains a NUL and every value is faithful.
  lemma MapRoundTrip(order: seq<Key>, m: ValueMap, env: Env)
    requires Orders(order, m)
    ensures Reading(WrittenAll(order, m, env), map[], env) == (true, m) <==> AllFaithful(m, env)
  {
    hide Folded, Faithful, ReadBack, WrittenAll, Reading;
    if AllFaithful(m, env) {
      MapIsMerged(order, m, map[], env);
      assert m + map[] == m;
    } else {
      var key :| key in m && !(0 !in key && Faithful(m[key], env));
      ReadingFolds(order, m, map[], env);
      FoldedKeys(order, m, map[], env, key);
      if Folded(order, m, map[], env) == m {
        forall i | 0 <= i < |order|
          ensures 0 !in order[i]
        {
          FoldedKeys(order, m, map[], env, order[i]);
        }
        FoldedValues(order, m, map[], env, key);
        FaithfulExactly(m[key], env);
        assert false;
      }
    }
  }

  // ----- the program

  method VisitAll<T>(vals: seq<T>, text: T -> Bytes) returns (arrayValues: seq<Bytes>)
    ensures arrayValues == Mapped(vals, text)
  {
    arrayValues := [];
    for i := 0 to |vals|
      invariant |arrayValues| == i && forall j :: 0 <= j < i ==> arrayValues[j] == text(vals[j])
    {
      arrayValues := arrayValues + [text(vals[i])];
    }
  }

  /** std::visit(visitor, value.value_). */
  method Visit(value: Value, env: Env) returns (visitor: Visitor)
    ensures visitor == Visited(value, env)
  {
    hide IntText, Base64.Encoding, BoolText;
    var texts: seq<Bytes>;
    match value
    case StringArray(ss) =>
      texts := VisitAll(ss, s => s);
      assert texts == ss;
      visitor := Visitor("stringArray", [], "string", texts);
    case BoolArray(bs) =>
      texts := VisitAll(bs, b => BoolText(b));
      visitor := Visitor("boolArray", [], "bool", texts);
    case DoubleArray(ds) =>
      texts := VisitAll(ds, env.doubleText);
      visitor := Visitor("doubleArray", [], "double", texts);
    case IntArray(ints) =>
      texts := VisitAll(ints, (i: Int32) => IntText(i));
      visitor := Visitor("intArray", [], "int", texts);
    case Int64Array(longs) =>
      texts := VisitAll(longs, (l: Int64) => IntText(l));
      visitor := Visitor("int64Array", [], "int64", texts);
    case BigInt(words, sign) =>
      texts := VisitAll(words, (w: Word64) => IntText(w));
      texts := texts + [IntText(Parcel.Unsigned64(sign))];
      assert texts == BigIntTexts(words, sign);
      visitor := Visitor("BigInt", [], "uint64_t", texts);
    case Uint8Array(bytes) =>
      var text := Base64.Encode(bytes);
      visitor := Visitor("uint8Array", text, "", []);
    case Int(i) => visitor := Visitor("int", IntText(i), "", []);
    case Long(l) => visitor := Visitor("long", IntText(l), "", []);
    case Float(f) => visitor := Visitor("float", env.floatText(f), "", []);
    case Double(d) => visitor := Visitor("double", env.doubleText(d), "", []);
    case Bool(b) => visitor := Visitor("bool", BoolText(b), "", []);
    case Str(s) => visitor := Visitor("string", s, "", []);
    case Object(s) => visitor := Visitor("object", s, "", []);
    case Mono => visitor := Visitor("unknown", [], "", []);
  }

  method WriteXmlElement(key: Key, value: Value, env: Env) returns (node: Option<Node>)
    ensures node == Written(key, value, env)
  {
    hide Visited, CStr;
    var visitor := Visit(value, env);
    var tag := visitor.typeTag;
    if IsTextTag(tag) {
      return Some(Node(tag, Some(CStr(key)), None, CStr(visitor.valueStr), []));
    } else if IsWrittenPrimitive(tag) {
      return Some(Node(tag, Some(CStr(key)), Some(CStr(visitor.valueStr)), [], []));
    } else if IsWrittenArray(tag) {
      var children: seq<Node> := [];
      for i := 0 to |visitor.arrayValues|
        invariant |children| == i
        invariant forall j :: 0 <= j < i ==> children[j] == Child(visitor.childrenTag, visitor.arrayValues[j])
      {
        var text := CStr(visitor.arrayValues[i]);
        if visitor.childrenTag == "string" {
          children := children + [Node(visitor.childrenTag, None, None, text, [])];
        } else {
          children := children + [Node(visitor.childrenTag, None, Some(text), [], [])];
        }
      }
      assert children == Children(visitor.childrenTag, visitor.arrayValues);
      return Some(Node(tag, Some(CStr(key)), None, [], children));
    }
    return None;
  }

  /** The children of the root element; `order` is the order in which the hash map is walked. */
  method WriteSettingXml(order: seq<Key>, m: ValueMap, env: Env) returns (nodes: seq<Node>)
    requires Orders(order, m)
    ensures nodes == WrittenAll(order, m, env)
  {
    hide Written;
    nodes := [];
    assert order[0..] == order;
    for i := 0 to |order|
      invariant nodes + WrittenAll(order[i..], m, env) == WrittenAll(order, m, env)
    {
      assert order[i..][1..] == order[i + 1..];
      var node := WriteXmlElement(order[i], m[order[i]], env);
      if node.Some? {
        nodes := nodes + [node.value];
      }
    }
  }

  method ParseNodeElement(node: Node) returns (element: Option<Element>)
    ensures element == Parsed(node)
    decreases node, 1
  {
    if IsTextTag(node.name) {
      return Some(Element(node.name, KeyOr(node.key), node.text, []));
    }
    if IsPrimitive(node.name) {
      if node.value.Some? {
        return Some(Element(node.name, KeyOr(node.key), node.value.value, []));
      }
      return None;
    }
    if IsArray(node.name) {
      if node.key.None? {
        return None;
      }
      var children := ParseChildren(node.children);
      if children.None? {
        return None;
      }
      return Some(Element(node.name, node.key.value, [], children.value));
    }
    return None;
  }

  /** The loop of ParseArrayNodeElement. */
  method ParseChildren(nodes: seq<Node>) returns (children: Option<seq<Element>>)
    ensures children == ParsedAll(nodes)
    decreases nodes, 0
  {
    hide Append, Parsed, Cons;
    children := None;
    var done: seq<Element> := [];
    assert nodes[0..] == nodes;
    AppendNothing(ParsedAll(nodes));
    for i := 0 to |nodes|
      invariant ParsedAll(nodes) == Append(done, ParsedAll(nodes[i..]))
    {
      assert nodes[i..][1..] == nodes[i + 1..];
      var child := ParseNodeElement(nodes[i]);
      if child.None? {
        AppendFails(done);
        return None;
      }
      AppendCons(done, child.value, ParsedAll(nodes[i + 1..]));
      done := done + [child.value];
    }
    AppendAll(done);
    return Some(done);
  }

  /** The loop over the children of the root; conMap already holds the bindings of the caller. */
  method ReadSettingXml(nodes: seq<Node>, conMap: ValueMap, env: Env) returns (success: bool, result: ValueMap)
    ensures (success, result) == Reading(nodes, conMap, env)
  {
    hide Parsed, ToValue;
    result := conMap;
    assert nodes[0..] == nodes;
    for i := 0 to |nodes|
      invariant Reading(nodes[i..], result, env) == Reading(nodes, conMap, env)
    {
      assert nodes[i..][1..] == nodes[i + 1..];
      var element := ParseNodeElement(nodes[i]);
      if element.None? {
        return false, result;
      }
      var value := ToValue(element.value, env);
      if value.Some? {
        if element.value.key !in result {
          result := result[element.value.key := value.value];
        }
      }
    }
    return true, result;
  }

  // ----- the format

  // An element is parsed exactly if its name is one of these, one that holds a number has a value, and
  // one that holds an array has a key and only children that are parsed.
  lemma ParsedExactly(node: Node)
    ensures Parsed(node).Some? <==>
      || node.name in {"string", "uint8Array", "object"}
      || (node.name in {"int", "int64", "long", "bool", "float", "double", "uint64_t"} && node.value.Some?)
      || (node.name in {"boolArray", "stringArray", "doubleArray", "intArray", "int64Array", "BigInt", "set"}
          && node.key.Some? && forall i :: 0 <= i < |node.children| ==> Parsed(node.children[i]).Some?)
    ensures Parsed(node).Some? ==>
      var e := Parsed(node).value;
      && e.tag == node.name && e.key == (if node.key.Some? then node.key.value else [])
      && (node.name in {"string", "uint8Array", "object"} ==> e.value == node.text && e.children == [])
      && (node.name in {"int", "int64", "long", "bool", "float", "double", "uint64_t"} ==> e.value == node.value.value)
      && (e.children != [] ==> |e.children| == |node.children|)
      && forall i :: 0 <= i < |e.children| ==> Parsed(node.children[i]) == Some(e.children[i])
  {
    ParsedAllExactly(node.children);
  }

  lemma {:induction false} ParsedAllExactly(nodes: seq<Node>)
    ensures ParsedAll(nodes).Some? <==> forall i :: 0 <= i < |nodes| ==> Parsed(nodes[i]).Some?
    ensures ParsedAll(nodes).Some? ==>
      && |ParsedAll(nodes).value| == |nodes|
      && forall i :: 0 <= i < |nodes| ==> Parsed(nodes[i]) == Some(ParsedAll(nodes).value[i])
    decreases |nodes|
  {
    hide Parsed;
    if nodes != [] {
      ParsedAllExactly(nodes[1..]);
      assert forall i :: 1 <= i < |nodes| ==> nodes[i] == nodes[1..][i - 1];
      if ParsedAll(nodes[1..]).Some? && Parsed(nodes[0]).Some? {
        forall i | 0 <= i < |nodes|
          ensures Parsed(nodes[i]).Some?
        {
          assert i > 0 ==> nodes[i] == nodes[1..][i - 1];
        }
      }
    }
  }

  // A document is read exactly if each of its elements can be parsed.
  lemma {:induction false} ReadingExactly(nodes: seq<Node>, m: ValueMap, env: Env)
    ensures Reading(nodes, m, env).0 <==> forall i :: 0 <= i < |nodes| ==> Parsed(nodes[i]).Some?
    decreases |nodes|
  {
    hide Parsed, ToValue;
    if nodes != [] && Parsed(nodes[0]).Some? {
      ReadingExactly(nodes[1..], Inserted(m, Parsed(nodes[0]).value, env), env);
      assert forall i :: 1 <= i < |nodes| ==> nodes[i] == nodes[1..][i - 1];
      if Reading(nodes, m, env).0 {
        forall i | 0 <= i < |nodes|
          ensures Parsed(nodes[i]).Some?
        {
          assert i > 0 ==> nodes[i] == nodes[1..][i - 1];
        }
      }
    }
  }

  // What is in a document, type by type: the names of the elements, and where the text of a value is.
  lemma FormatOfTexts(key: Key, env: Env, s: Bytes)
    requires 0 !in key && 0 !in s
    ensures Written(key, Str(s), env) == Some(Node("string", Some(key), None, s, []))
    ensures Written(key, Object(s), env) == Some(Node("object", Some(key), None, s, []))
    ensures Written(key, Uint8Array(s), env) ==
      Some(Node("uint8Array", Some(key), None, CStr(Base64.Encoding(s[..|s| % TWO_POW_32])), []))
    ensures Written(key, Mono, env) == None
  {
    hide Base64.Encoding, CStr;
  }

  lemma FormatOfPrimitives(key: Key, env: Env, i: Int32, l: Int64, f: Word32, d: Word64, b: bool)
    requires 0 !in key
    ensures Written(key, Int(i), env) == Some(Node("int", Some(key), Some(CStr(IntText(i))), [], []))
    ensures Written(key, Long(l), env) == Some(Node("long", Some(key), Some(CStr(IntText(l))), [], []))
    ensures Written(key, Float(f), env) == Some(Node("float", Some(key), Some(CStr(env.floatText(f))), [], []))
    ensures Written(key, Double(d), env) == Some(Node("double", Some(key), Some(CStr(env.doubleText(d))), [], []))
    ensures Written(key, Bool(b), env) == Some(Node("bool", Some(key), Some(CStr(BoolText(b))), [], []))
  {
    hide IntText, CStr, BoolText;
  }

  /** An array element: its name, and the name and texts of its children. */
  ghost predicate IsArrayOf(node: Option<Node>, key: Key, tag: string, childTag: string, texts: seq<Bytes>) {
    && node.Some? && node.value.name == tag && node.value.key == Some(key) && node.value.value == None && node.value.text == []
    && |node.value.children| == |texts|
    && forall i :: 0 <= i < |texts| ==>
         node.value.children[i] == if childTag == "string" then Node(childTag, None, None, CStr(texts[i]), [])
                                   else Node(childTag, None, Some(CStr(texts[i])), [], [])
  }

  lemma FormatOfArrays(key: Key, env: Env, v: Value, texts: seq<Bytes>)
    requires 0 !in key
    ensures v.StringArray? && texts == v.ss ==> IsArrayOf(Written(key, v, env), key, "stringArray", "string", texts)
    ensures v.BoolArray? && |texts| == |v.bs| && (forall i :: 0 <= i < |texts| ==> texts[i] == BoolText(v.bs[i])) ==>
      IsArrayOf(Written(key, v, env), key, "boolArray", "bool", texts)
    ensures v.DoubleArray? && |texts| == |v.ds| && (forall i :: 0 <= i < |texts| ==> texts[i] == env.doubleText(v.ds[i])) ==>
      IsArrayOf(Written(key, v, env), key, "doubleArray", "double", texts)
    ensures v.IntArray? && |texts| == |v.ints| && (forall i :: 0 <= i < |texts| ==> texts[i] == IntText(v.ints[i])) ==>
      IsArrayOf(Written(key, v, env), key, "intArray", "int", texts)
    ensures v.Int64Array? && |texts| == |v.longs| && (forall i :: 0 <= i < |texts| ==> texts[i] == IntText(v.longs[i])) ==>
      IsArrayOf(Written(key, v, env), key, "int64Array", "int64", texts)
  {
    hide CStr, IntText, BoolText;
  }

  lemma FormatOfBigInt(key: Key, env: Env, words: seq<Word64>, sign: Int32, texts: seq<Bytes>)
    requires 0 !in key
    requires |texts| == |words| + 1 && texts[|words|] == IntText(Parcel.Unsigned64(sign))
    requires forall i :: 0 <= i < |words| ==> texts[i] == IntText(words[i])
    ensures IsArrayOf(Written(key, BigInt(words, sign), env), key, "BigInt", "uint64_t", texts)
  {
    hide CStr, IntText, BoolText;
  }

  // The texts of true, false and numbers; a bool is true exactly if its text is "true".
  lemma TextsOfValues(key: Bytes, text: Bytes, env: Env)
    ensures BoolText(true) == [116, 114, 117, 101] && BoolText(false) == [102, 97, 108, 115, 101]
    ensures IntText(-12) == [45, 49, 50] && IntText(0) == [48]
    ensures ToValue(Element("bool", key, text, []), env) == Some(Bool(text == [116, 114, 117, 101]))
  {
    assert IntText(12) == [49, 50];
  }

  // White space before a number is skipped and a plus sign has no effect; what follows the digits is not
  // looked at, and a text that begins with no digit reads as 0.
  lemma NumbersAreExtracted(n: nat, space: byte, rest: Bytes, lo: int, hi: int)
    requires lo <= 0 <= hi && (space == 32 || 9 <= space <= 13)
    requires rest != [] ==> !IsDigit(rest[0])
    ensures ParseInt([space] + rest, lo, hi) == ParseInt(rest, lo, hi)
    ensures ParseWord([space] + rest) == ParseWord(rest)
    ensures ParseInt(IntText(n) + rest, lo, hi) == if n > hi then hi else n
    ensures ParseInt([43] + IntText(n) + rest, lo, hi) == if n > hi then hi else n
    ensures rest != [] && !IsSpace(rest[0]) && rest[0] != 45 && rest[0] != 43 ==> ParseInt(rest, lo, hi) == 0
  {
    hide Decimal, DigitsValue;
    var d := Decimal(n);
    DecimalBack(n);
    DigitsEnd(d, rest);
    assert ([space] + rest)[1..] == rest;
    assert ([43] + d + rest)[1..] == d + rest;
    NoDigits(rest);
  }

  lemma NoDigits(rest: Bytes)
    requires rest != [] ==> !IsDigit(rest[0])
    ensures Digits(rest) == [] && DigitsValue(Digits(rest)) == 0
  {
  }

  lemma {:induction false} DigitsEnd(d: Bytes, rest: Bytes)
    requires (forall i :: 0 <= i < |d| ==> IsDigit(d[i])) && (rest != [] ==> !IsDigit(rest[0]))
    ensures Digits(d + rest) == d
  {
    if d != [] {
      assert (d + rest)[1..] == d[1..] + rest;
      DigitsEnd(d[1..], rest);
    } else {
      assert d + rest == rest;
    }
  }

  const TYPE_NAMES: set<string> :=
    {"unknown", "int", "long", "float", "double", "bool", "string", "stringArray", "boolArray", "doubleArray", "uint8Array",
     "object", "BigInt", "intArray", "int64Array"}

  // An element gives a value exactly if its name is that of a type of values; its text is the bytes of a
  // string as they are, and a text that is no Base64 gives no bytes.
  lemma ValuesExactly(e: Element, env: Env)
    ensures ToValue(e, env).Some? <==> e.tag in TYPE_NAMES
    ensures e.tag == "string" ==> ToValue(e, env) == Some(Str(e.value))
    ensures e.tag == "object" ==> ToValue(e, env) == Some(Object(e.value))
    ensures e.tag == "uint8Array" && Base64.Decoding(e.value, env.past).Rejected? ==> ToValue(e, env) == Some(Uint8Array([]))
    ensures e.tag == "BigInt" && e.children == [] ==> ToValue(e, env) == Some(BigInt([], 0))
    ensures e.tag == "unknown" ==> ToValue(e, env) == Some(Mono)
  {
    hide Base64.Decoding, ParseInt, ParseWord;
  }
}
