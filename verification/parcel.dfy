// The binary encoding of values: frameworks/native/src/preferences_value_parcel.cpp. Integers are
// little endian, size_t is 64 bits wide.
module Parcel {
  import opened Bits
  import opened Options
  import opened Values

  // ----- integers

  function Le(n: nat, k: nat): (b: Bytes)
    ensures |b| == k
  {
    if k == 0 then [] else [n % 256] + Le(n / 256, k - 1)
  }

  function LeValue(b: Bytes): nat {
    if b == [] then 0 else b[0] + 256 * LeValue(b[1..])
  }

  function Pow256(k: nat): nat {
    if k == 0 then 1 else 256 * Pow256(k - 1)
  }

  lemma {:induction false} LeBack(n: nat, k: nat)
    requires n < Pow256(k)
    ensures LeValue(Le(n, k)) == n
  {
    if k > 0 {
      LeBack(n / 256, k - 1);
      assert Le(n, k)[1..] == Le(n / 256, k - 1);
    }
  }

  lemma {:induction false} LeBound(b: Bytes)
    ensures LeValue(b) < Pow256(|b|)
  {
    if b != [] {
      LeBound(b[1..]);
    }
  }

  lemma Widths()
    ensures Pow256(1) == 256 && Pow256(4) == TWO_POW_32 && Pow256(8) == TWO_POW_64
  {
    assert Pow256(4) == 256 * Pow256(3) && Pow256(3) == 256 * Pow256(2) && Pow256(2) == 256 * Pow256(1);
    assert Pow256(8) == 256 * Pow256(7) && Pow256(7) == 256 * Pow256(6) && Pow256(6) == 256 * Pow256(5);
    assert Pow256(5) == 256 * Pow256(4);
  }

  function Le8(n: nat): (b: Bytes)
    ensures |b| == 8
  {
    Le(n, 8)
  }

  // two's complement

  function Unsigned32(i: Int32): Word32 { if i < 0 then i + TWO_POW_32 else i }
  function Unsigned64(i: Int64): Word64 { if i < 0 then i + TWO_POW_64 else i }
  function Signed32(n: Word32): Int32 { if n < 0x8000_0000 then n else n - TWO_POW_32 }
  function Signed64(n: Word64): Int64 { if n < 0x8000_0000_0000_0000 then n else n - TWO_POW_64 }

  /** The conversion of an int64_t to int. */
  function Narrow(i: Int64): Int32 { Signed32(i % TWO_POW_32) }

  // ----- the format

  function TypeIndex(v: Value): byte {
    match v
    case Int(_) => 1
    case Long(_) => 2
    case Float(_) => 3
    case Double(_) => 4
    case Bool(_) => 5
    case Str(_) => 6
    case StringArray(_) => 7
    case BoolArray(_) => 8
    case DoubleArray(_) => 9
    case Uint8Array(_) => 10
    case Object(_) => 11
    case BigInt(_, _) => 12
    case _ => 0
  }

  predicate Supported(v: Value) {
    TypeIndex(v) != 0
  }

  function BoolByte(b: bool): byte { if b then 1 else 0 }

  function Strings(ss: seq<Bytes>): Bytes {
    if ss == [] then [] else Le8(|ss[0]|) + ss[0] + Strings(ss[1..])
  }

  function Words(ws: seq<Word64>): (b: Bytes)
    ensures |b| == 8 * |ws|
  {
    if ws == [] then [] else Le8(ws[0]) + Words(ws[1..])
  }

  function Bools(bs: seq<bool>): (b: Bytes)
    ensures |b| == |bs|
  {
    seq(|bs|, i requires 0 <= i < |bs| => BoolByte(bs[i]))
  }

  function Payload(v: Value): Bytes {
    match v
    case Int(i) => Le(Unsigned32(i), 4)
    case Long(l) => Le8(Unsigned64(l))
    case Float(f) => Le(f, 4)
    case Double(d) => Le8(d)
    case Bool(b) => [BoolByte(b)]
    case Str(s) => Le8(|s|) + s
    case Object(s) => Le8(|s|) + s
    case StringArray(ss) => Le8(|ss|) + Strings(ss)
    case BoolArray(bs) => Le8(|bs|) + Bools(bs)
    case DoubleArray(ds) => Le8(|ds|) + Words(ds)
    case Uint8Array(bytes) => Le8(|bytes|) + bytes
    case BigInt(words, sign) => Le8(|words|) + Le8(Unsigned64(sign)) + Words(words)
    case _ => []
  }

  function Encoding(v: Value): Bytes {
    if Supported(v) then [TypeIndex(v)] + Payload(v) else []
  }

  // ----- reading it back

  /** Overrun stands for a read past the end of the data, which the program does not check. */
  datatype Decoded = Ok(value: Value) | Invalid | Overrun

  function ParseStrings(s: Bytes, n: nat): Option<seq<Bytes>> {
    if n == 0 then Some([])
    else if |s| < 8 then None
    else
      var len := Word(s);
      if |s| < 8 + len then None
      else Cons(s[8..8 + len], ParseStrings(s[8 + len..], n - 1))
  }

  function ParseWords(s: Bytes, n: nat): Option<seq<Word64>> {
    if n == 0 then Some([])
    else if |s| < 8 then None
    else Cons(Word(s), ParseWords(s[8..], n - 1))
  }

  function Word(s: Bytes): Word64
    requires |s| >= 8
  {
    LeBound(s[..8]);
    Widths();
    LeValue(s[..8])
  }

  function HalfWord(s: Bytes): Word32
    requires |s| >= 4
  {
    LeBound(s[..4]);
    Widths();
    LeValue(s[..4])
  }

  /** The elements after the element count; `s` begins with the count. */
  function ParseArray(type_: byte, s: Bytes): Decoded {
    if |s| < 8 then Overrun
    else
      var n, rest := Word(s), s[8..];
      if type_ == 7 then
        var ss := ParseStrings(rest, n);
        if ss.None? then Overrun else Ok(StringArray(ss.value))
      else if type_ == 9 then
        var ws := ParseWords(rest, n);
        if ws.None? then Overrun else Ok(DoubleArray(ws.value))
      else if type_ == 12 then
        if |rest| < 8 then Overrun
        else
          var ws := ParseWords(rest[8..], n);
          if ws.None? then Overrun else Ok(BigInt(ws.value, Narrow(Signed64(Word(rest)))))
      else if |rest| < n then Overrun
      else if type_ == 6 then Ok(Str(rest[..n]))
      else if type_ == 11 then Ok(Object(rest[..n]))
      else if type_ == 10 then Ok(Uint8Array(rest[..n]))
      else Ok(BoolArray(seq(n, i requires 0 <= i < n => rest[i] != 0)))
  }

  function Decoding(data: Bytes): Decoded {
    if data == [] then Invalid
    else
      var type_, s := data[0], data[1..];
      match type_
      case 1 => if |s| < 4 then Overrun else Ok(Int(Signed32(HalfWord(s))))
      case 2 => if |s| < 8 then Overrun else Ok(Long(Signed64(Word(s))))
      case 3 => if |s| < 4 then Overrun else Ok(Float(HalfWord(s)))
      case 4 => if |s| < 8 then Overrun else Ok(Double(Word(s)))
      case 5 => if |s| < 1 then Overrun else Ok(Bool(s[0] != 0))
      case _ => if 6 <= type_ <= 12 then ParseArray(type_, s) else Invalid
  }

  // ----- round trip

  lemma Le8Back(n: nat, tail: Bytes)
    requires n < TWO_POW_64
    ensures Word(Le8(n) + tail) == n && (Le8(n) + tail)[..8] == Le8(n) && (Le8(n) + tail)[8..] == tail
  {
    hide Le;
    Widths();
    LeBack(n, 8);
    assert (Le8(n) + tail)[..8] == Le8(n);
  }

  lemma HalfBack(n: Word32, tail: Bytes)
    ensures HalfWord(Le(n, 4) + tail) == n
  {
    hide Le;
    Widths();
    LeBack(n, 4);
    assert (Le(n, 4) + tail)[..4] == Le(n, 4);
  }

  lemma {:induction false} WordsBack(ws: seq<Word64>, tail: Bytes)
    ensures ParseWords(Words(ws) + tail, |ws|) == Some(ws)
  {
    hide Le8, Word;
    if ws != [] {
      WordsBack(ws[1..], tail);
      var rest := Words(ws[1..]) + tail;
      Le8Back(ws[0], rest);
      assert Words(ws) + tail == Le8(ws[0]) + rest;
      assert [ws[0]] + ws[1..] == ws;
    } else {
      assert Words(ws) + tail == tail;
    }
  }

  lemma {:induction false} StringsBack(ss: seq<Bytes>, tail: Bytes)
    requires |Strings(ss)| < TWO_POW_64
    ensures ParseStrings(Strings(ss) + tail, |ss|) == Some(ss)
  {
    hide Le8, Word;
    if ss != [] {
      StringsBack(ss[1..], tail);
      var rest := Strings(ss[1..]) + tail;
      Le8Back(|ss[0]|, ss[0] + rest);
      var s := Le8(|ss[0]|) + (ss[0] + rest);
      assert Strings(ss) + tail == s;
      Split(Le8(|ss[0]|), ss[0], rest);
      assert [ss[0]] + ss[1..] == ss;
    } else {
      assert Strings(ss) + tail == tail;
    }
  }

  lemma Split(a: Bytes, b: Bytes, c: Bytes)
    ensures var s := a + (b + c); s[|a|..|a| + |b|] == b && s[|a| + |b|..] == c
  {
  }

  lemma ArrayBack(v: Value, tail: Bytes)
    requires 6 <= TypeIndex(v) && |Payload(v)| < TWO_POW_64
    ensures ParseArray(TypeIndex(v), Payload(v) + tail) == Ok(v)
  {
    hide Le, Le8, Words, Strings, ParseWords, ParseStrings, Word;
    match v
    case Str(s) => BytesArrayBack(s, tail);
    case Object(s) => BytesArrayBack(s, tail);
    case Uint8Array(s) => BytesArrayBack(s, tail);
    case BoolArray(bs) => BoolArrayBack(bs, tail);
    case StringArray(ss) =>
      StringsLength(ss);
      StringsBack(ss, tail);
      Le8Back(|ss|, Strings(ss) + tail);
      assert Payload(v) + tail == Le8(|ss|) + (Strings(ss) + tail);
    case DoubleArray(ds) =>
      WordsBack(ds, tail);
      Le8Back(|ds|, Words(ds) + tail);
      assert Payload(v) + tail == Le8(|ds|) + (Words(ds) + tail);
    case BigInt(words, sign) =>
      BigIntBack(words, sign, tail);
  }

  lemma BoolArrayBack(bs: seq<bool>, tail: Bytes)
    requires |Payload(BoolArray(bs))| < TWO_POW_64
    ensures ParseArray(TypeIndex(BoolArray(bs)), Payload(BoolArray(bs)) + tail) == Ok(BoolArray(bs))
  {
    hide Le, Le8, Word;
    BytesArrayBack(Bools(bs), tail);
    assert seq(|bs|, i requires 0 <= i < |bs| => Bools(bs)[i] != 0) == bs;
    assert seq(|bs|, i requires 0 <= i < |bs| => (Bools(bs) + tail)[i] != 0) == bs;
  }

  lemma {:induction false} StringsLength(ss: seq<Bytes>)
    ensures |Strings(ss)| >= 8 * |ss|
  {
    if ss != [] {
      StringsLength(ss[1..]);
    }
  }

  lemma BytesArrayBack(s: Bytes, tail: Bytes)
    requires |s| < TWO_POW_64
    ensures var d := Le8(|s|) + s + tail;
      Word(d) == |s| && d[8..] == s + tail && d[8..][..|s|] == s
  {
    hide Le8;
    Le8Back(|s|, s + tail);
    assert Le8(|s|) + s + tail == Le8(|s|) + (s + tail);
  }

  lemma BigIntBack(words: seq<Word64>, sign: Int32, tail: Bytes)
    requires |words| < TWO_POW_64
    ensures ParseArray(12, Payload(BigInt(words, sign)) + tail) == Ok(BigInt(words, sign))
  {
    hide Le, Words, ParseWords, Word;
    var rest := Words(words) + tail;
    WordsBack(words, tail);
    Le8Back(Unsigned64(sign), rest);
    Le8Back(|words|, Le8(Unsigned64(sign)) + rest);
    assert Payload(BigInt(words, sign)) + tail == Le8(|words|) + (Le8(Unsigned64(sign)) + rest);
  }

  // Every supported value is read back from its encoding, whatever follows it.
  lemma DecodeOfEncode(v: Value, tail: Bytes)
    requires Supported(v) && |Encoding(v)| < TWO_POW_64
    ensures Decoding(Encoding(v) + tail) == Ok(v)
  {
    hide Le, Le8, Words, Strings, Word, HalfWord;
    var data := Encoding(v) + tail;
    assert data[1..] == Payload(v) + tail;
    if 1 <= TypeIndex(v) <= 5 {
      BasicBack(v, tail);
    } else {
      ArrayBack(v, tail);
    }
  }

  lemma BasicBack(v: Value, tail: Bytes)
    requires 1 <= TypeIndex(v) <= 5
    ensures Decoding(Encoding(v) + tail) == Ok(v)
  {
    hide Le, Le8, Words, Strings, Word, HalfWord;
    var data := Encoding(v) + tail;
    assert data[1..] == Payload(v) + tail;
    match v
    case Int(i) => HalfBack(Unsigned32(i), tail);
    case Long(l) => Le8Back(Unsigned64(l), tail);
    case Float(f) => HalfBack(f, tail);
    case Double(d) => Le8Back(d, tail);
    case Bool(b) =>
  }

  // Hence different values never share an encoding.
  lemma EncodingIsInjective(v: Value, w: Value)
    requires Supported(v) && Supported(w) && |Encoding(v)| < TWO_POW_64 && Encoding(v) == Encoding(w)
    ensures v == w
  {
    hide Encoding, Decoding;
    DecodeOfEncode(v, []);
    DecodeOfEncode(w, []);
  }

  // ----- the size the caller allocates

  /** A uint32_t result: it wraps when the encoding is 4 GiB or longer. */
  method CalSize(value: Value) returns (size: nat)
    ensures size == |Encoding(value)| % TWO_POW_32
  {
    hide Strings, Words, Bools, Le, Le8;
    match value
    case Int(_) => size := 1 + 4;
    case Long(_) => size := 1 + 8;
    case Float(_) => size := 1 + 4;
    case Double(_) => size := 1 + 8;
    case Bool(_) => size := 1 + 1;
    case Str(s) => size := (1 + 8 + |s|) % TWO_POW_32;
    case Object(s) => size := (1 + 8 + |s|) % TWO_POW_32;
    case BoolArray(bs) => size := (1 + 8 + |bs|) % TWO_POW_32;
    case DoubleArray(ds) => size := (1 + 8 + |ds| * 8) % TWO_POW_32;
    case Uint8Array(bytes) => size := (1 + 8 + |bytes|) % TWO_POW_32;
    case StringArray(ss) => size := StringArraySize(ss);
    case BigInt(words, _) => size := (1 + 8 + 8 + |words| * 8) % TWO_POW_32;
    case _ => size := 0;
  }

  method StringArraySize(ss: seq<Bytes>) returns (size: nat)
    ensures size == (1 + 8 + |Strings(ss)|) % TWO_POW_32
  {
    hide Strings, Le8;
    size := 1 + 8;
    assert ss[0..] == ss;
    for i := 0 to |ss|
      invariant 0 <= size < TWO_POW_32
      invariant (size + |Strings(ss[i..])|) % TWO_POW_32 == (1 + 8 + |Strings(ss)|) % TWO_POW_32
    {
      StringsStep(ss, i);
      WrapTwice(size, |ss[i]|, |Strings(ss[i + 1..])|);
      size := (size + 8) % TWO_POW_32;
      size := (size + |ss[i]|) % TWO_POW_32;
    }
    StringsEnd(ss);
  }

  lemma WrapTwice(size: nat, n: nat, rest: nat)
    ensures (((size + 8) % TWO_POW_32 + n) % TWO_POW_32 + rest) % TWO_POW_32 == (size + 8 + n + rest) % TWO_POW_32
  {
    WrapOnce(size + 8, n);
    WrapOnce((size + 8) % TWO_POW_32 + n, rest);
    WrapOnce(size + 8, n + rest);
  }

  /** A partial sum may be reduced before the rest is added. */
  lemma WrapOnce(a: nat, b: nat)
    ensures (a % TWO_POW_32 + b) % TWO_POW_32 == (a + b) % TWO_POW_32
  {
    var q, c := a / TWO_POW_32, a % TWO_POW_32 + b;
    assert a + b == (q + c / TWO_POW_32) * TWO_POW_32 + c % TWO_POW_32;
    RemainderUnique(a + b, TWO_POW_32, q + c / TWO_POW_32, c % TWO_POW_32);
  }

  lemma StringsStep(ss: seq<Bytes>, i: nat)
    requires i < |ss|
    ensures Strings(ss[i..]) == Le8(|ss[i]|) + ss[i] + Strings(ss[i + 1..])
  {
    assert ss[i..][1..] == ss[i + 1..];
  }

  lemma StringsEnd(ss: seq<Bytes>)
    ensures Strings(ss[|ss|..]) == []
  {
  }

  lemma WordsStep(ws: seq<Word64>, i: nat)
    requires i < |ws|
    ensures Words(ws[i..]) == Le8(ws[i]) + Words(ws[i + 1..])
  {
    assert ws[i..][1..] == ws[i + 1..];
  }

  // ----- writing into the buffer

  /** The first `at` bytes of the encoding are written, and the rest of the buffer is as before. */
  ghost predicate Filled(data: Bytes, code: Bytes, at: nat, before: Bytes) {
    at <= |code| <= |before| && data == code[..at] + before[at..]
  }

  /** memcpy_s to the current address, which then advances. */
  method Emit(data: array<byte>, at: nat, b: Bytes, ghost code: Bytes, ghost before: Bytes) returns (next: nat)
    requires Filled(data[..], code, at, before) && b <= code[at..]
    modifies data
    ensures next == at + |b| <= |code| && Filled(data[..], code, next, before)
  {
    for i := 0 to |b|
      invariant data[..] == code[..at + i] + before[at + i..]
    {
      assert code[at..][i] == b[i];
      data[at + i] := b[i];
      assert data[..] == code[..at + i + 1] + before[at + i + 1..];
    }
    next := at + |b|;
  }

  lemma FilledUp(data: Bytes, code: Bytes, before: Bytes)
    ensures |code| <= |before| ==> (Filled(data, code, |code|, before) <==> data == code + before[|code|..])
  {
    assert code[..|code|] == code;
  }

  lemma FilledNothing(code: Bytes, before: Bytes)
    requires |code| <= |before|
    ensures Filled(before, code, 0, before) && code[0..] == code
  {
  }

  lemma AfterPrefix(code: Bytes, at: nat, a: Bytes, b: Bytes)
    requires at <= |code| && code[at..] == a + b
    ensures a <= code[at..] && at + |a| <= |code| && code[at + |a|..] == b
  {
    assert code[at + |a|..] == code[at..][|a|..];
  }

  method MarshallingBasicValue(value: Value, data: array<byte>)
    requires 1 <= TypeIndex(value) <= 5 && |Encoding(value)| <= data.Length
    modifies data
    ensures data[..] == Encoding(value) + old(data[..])[|Encoding(value)|..]
  {
    hide Filled, Encoding, TypeIndex, Payload;
    ghost var code, before := Encoding(value), data[..];
    TypeThenPayload(value);
    FilledNothing(code, before);
    AfterPrefix(code, 0, [TypeIndex(value)], Payload(value) + []);
    var at := Emit(data, 0, [TypeIndex(value)], code, before);
    var b := BasicBytes(value);
    AfterPrefix(code, at, b, []);
    at := Emit(data, at, b, code, before);
    FilledUp(data[..], code, before);
  }

  lemma TypeThenPayload(value: Value)
    requires Supported(value)
    ensures Encoding(value) == [TypeIndex(value)] + (Payload(value) + [])
  {
    hide Payload, TypeIndex;
    assert Payload(value) + [] == Payload(value);
  }

  method BasicBytes(value: Value) returns (b: Bytes)
    requires 1 <= TypeIndex(value) <= 5
    ensures b == Payload(value)
  {
    hide Le, Le8;
    match value
    case Int(i) => b := Le(Unsigned32(i), 4);
    case Long(l) => b := Le8(Unsigned64(l));
    case Float(f) => b := Le(f, 4);
    case Double(d) => b := Le8(d);
    case Bool(t) => b := [BoolByte(t)];
  }

  method MarshallingStringValue(value: Value, data: array<byte>)
    requires (value.Str? || value.Object?) && |Encoding(value)| <= data.Length
    modifies data
    ensures data[..] == Encoding(value) + old(data[..])[|Encoding(value)|..]
  {
    ghost var code, before := Encoding(value), data[..];
    var s := if value.Object? then value.json else value.s;
    assert code == [TypeIndex(value)] + (Le8(|s|) + s);
    hide Le8, Filled, Encoding, TypeIndex;
    FilledNothing(code, before);
    var at := Emit(data, 0, [TypeIndex(value)], code, before);
    AfterPrefix(code, 0, [TypeIndex(value)], Le8(|s|) + s);
    AfterPrefix(code, at, Le8(|s|), s);
    at := Emit(data, at, Le8(|s|), code, before);
    if |s| != 0 {
      at := Emit(data, at, s, code, before);
    }
    FilledUp(data[..], code, before);
  }

  /** The loop of MarshallingStringArrayValue. */
  method EmitStrings(data: array<byte>, start: nat, ss: seq<Bytes>, ghost code: Bytes, ghost before: Bytes)
    requires start <= |code| && Filled(data[..], code, start, before) && code[start..] == Strings(ss)
    modifies data
    ensures Filled(data[..], code, |code|, before)
  {
    hide Le8, Strings, Filled;
    var at := start;
    assert ss[0..] == ss;
    for i := 0 to |ss|
      invariant 0 <= at <= |code| && Filled(data[..], code, at, before) && code[at..] == Strings(ss[i..])
    {
      StringsStep(ss, i);
      ghost var rest := Strings(ss[i + 1..]);
      assert code[at..] == Le8(|ss[i]|) + (ss[i] + rest);
      AfterPrefix(code, at, Le8(|ss[i]|), ss[i] + rest);
      at := Emit(data, at, Le8(|ss[i]|), code, before);
      if |ss[i]| == 0 {
        assert ss[i] + rest == rest;
        continue;
      }
      AfterPrefix(code, at, ss[i], rest);
      at := Emit(data, at, ss[i], code, before);
    }
    StringsEnd(ss);
    assert at == |code|;
  }

  method MarshallingStringArrayValue(value: Value, data: array<byte>)
    requires value.StringArray? && |Encoding(value)| <= data.Length
    modifies data
    ensures data[..] == Encoding(value) + old(data[..])[|Encoding(value)|..]
  {
    hide Le8, Strings, Filled;
    ghost var code, before := Encoding(value), data[..];
    var ss := value.ss;
    FilledNothing(code, before);
    var at := Emit(data, 0, [TypeIndex(value)], code, before);
    AfterPrefix(code, at, Le8(|ss|), Strings(ss));
    at := Emit(data, at, Le8(|ss|), code, before);
    EmitStrings(data, at, ss, code, before);
    FilledUp(data[..], code, before);
  }

  /** The loops of MarshallingVecBigIntAfterType and MarshallingVecDoubleAfterType. */
  method EmitWords(data: array<byte>, start: nat, ws: seq<Word64>, ghost code: Bytes, ghost before: Bytes)
    requires Filled(data[..], code, start, before) && code[start..] == Words(ws)
    modifies data
    ensures Filled(data[..], code, |code|, before)
  {
    hide Le8, Words;
    var at := start;
    assert ws[0..] == ws;
    for i := 0 to |ws|
      invariant Filled(data[..], code, at, before) && code[at..] == Words(ws[i..])
    {
      WordsStep(ws, i);
      at := Emit(data, at, Le8(ws[i]), code, before);
      assert code[at..] == Words(ws[i + 1..]);
    }
    assert |Words(ws[|ws|..])| == 0;
  }

  method MarshallingVecUInt8AfterType(bytes: Bytes, data: array<byte>, start: nat, ghost code: Bytes, ghost before: Bytes)
    requires Filled(data[..], code, start, before) && code[start..] == Le8(|bytes|) + bytes
    modifies data
    ensures Filled(data[..], code, |code|, before)
  {
    hide Le8;
    var at := Emit(data, start, Le8(|bytes|), code, before);
    if |bytes| == 0 {
      return;
    }
    assert code[at..] == bytes;
    at := Emit(data, at, bytes, code, before);
  }

  method MarshallingVecBigIntAfterType(words: seq<Word64>, sign: Int32, data: array<byte>, start: nat, ghost code: Bytes, ghost before: Bytes)
    requires Filled(data[..], code, start, before) && code[start..] == Le8(|words|) + Le8(Unsigned64(sign)) + Words(words)
    modifies data
    ensures Filled(data[..], code, |code|, before)
  {
    hide Le8, Words;
    assert code[start..] == Le8(|words|) + (Le8(Unsigned64(sign)) + Words(words));
    var at := Emit(data, start, Le8(|words|), code, before);
    assert code[at..] == Le8(Unsigned64(sign)) + Words(words);
    at := Emit(data, at, Le8(Unsigned64(sign)), code, before);
    assert code[at..] == Words(words);
    EmitWords(data, at, words, code, before);
  }

  method MarshallingVecDoubleAfterType(ds: seq<Word64>, data: array<byte>, start: nat, ghost code: Bytes, ghost before: Bytes)
    requires Filled(data[..], code, start, before) && code[start..] == Le8(|ds|) + Words(ds)
    modifies data
    ensures Filled(data[..], code, |code|, before)
  {
    hide Le8, Words;
    var at := Emit(data, start, Le8(|ds|), code, before);
    assert code[at..] == Words(ds);
    EmitWords(data, at, ds, code, before);
  }

  method MarshallingVecBoolAfterType(bs: seq<bool>, data: array<byte>, start: nat, ghost code: Bytes, ghost before: Bytes)
    requires Filled(data[..], code, start, before) && code[start..] == Le8(|bs|) + Bools(bs)
    modifies data
    ensures Filled(data[..], code, |code|, before)
  {
    hide Le8;
    var at := Emit(data, start, Le8(|bs|), code, before);
    ghost var first := at;
    assert code[first..] == Bools(bs);
    for i := 0 to |bs|
      invariant Filled(data[..], code, at, before) && at == first + i
    {
      assert code[at..][0] == code[first..][i];
      at := Emit(data, at, [BoolByte(bs[i])], code, before);
    }
  }

  method MarshallingBasicArrayValue(value: Value, data: array<byte>)
    requires value.Uint8Array? || value.BigInt? || value.DoubleArray? || value.BoolArray?
    requires |Encoding(value)| <= data.Length
    modifies data
    ensures data[..] == Encoding(value) + old(data[..])[|Encoding(value)|..]
  {
    hide Le8, Words, Bools, Filled;
    ghost var code, before := Encoding(value), data[..];
    FilledNothing(code, before);
    var at := Emit(data, 0, [TypeIndex(value)], code, before);
    assert code[1..] == Payload(value);
    match value {
      case Uint8Array(bytes) => MarshallingVecUInt8AfterType(bytes, data, at, code, before);
      case BigInt(words, sign) => MarshallingVecBigIntAfterType(words, sign, data, at, code, before);
      case DoubleArray(ds) => MarshallingVecDoubleAfterType(ds, data, at, code, before);
      case BoolArray(bs) => MarshallingVecBoolAfterType(bs, data, at, code, before);
    }
    FilledUp(data[..], code, before);
  }

  /** A buffer of the size of the encoding is written from its first byte to its last, and no byte
      after that is touched. */
  method MarshallingPreferenceValue(value: Value, data: array<byte>) returns (errCode: Code)
    requires |Encoding(value)| <= data.Length
    modifies data
    ensures errCode == if Supported(value) then E_OK else E_INVALID_ARGS
    ensures data[..] == Encoding(value) + old(data[..])[|Encoding(value)|..]
  {
    hide Payload;
    var type_ := TypeIndex(value);
    if 1 <= type_ <= 5 {
      MarshallingBasicValue(value, data);
    } else if type_ == 6 || type_ == 11 {
      MarshallingStringValue(value, data);
    } else if type_ == 7 {
      MarshallingStringArrayValue(value, data);
    } else if type_ != 0 {
      MarshallingBasicArrayValue(value, data);
    } else {
      return E_INVALID_ARGS;
    }
    return E_OK;
  }

  // ----- reading the buffer

  method UnmarshallingBasicValue(type_: byte, data: Bytes) returns (r: Decoded)
    requires data != [] && data[0] == type_ && 1 <= type_ <= 5
    ensures r == Decoding(data)
  {
    hide Word, HalfWord;
    var s := data[1..];
    if |s| < (if type_ == 1 || type_ == 3 then 4 else if type_ == 5 then 1 else 8) {
      return Overrun;
    }
    match type_
    case 1 => return Ok(Int(Signed32(HalfWord(s))));
    case 2 => return Ok(Long(Signed64(Word(s))));
    case 3 => return Ok(Float(HalfWord(s)));
    case 4 => return Ok(Double(Word(s)));
    case _ => return Ok(Bool(s[0] != 0));
  }

  method UnmarshallingStringValue(type_: byte, data: Bytes) returns (r: Decoded)
    requires data != [] && data[0] == type_ && (type_ == 6 || type_ == 11)
    ensures r == Decoding(data)
  {
    hide Word;
    if |data| < 9 {
      return Overrun;
    }
    var strLen := Word(data[1..]);
    if |data| - 9 < strLen {
      return Overrun;
    }
    assert data[1..][8..] == data[9..] && data[9..][..strLen] == data[9..9 + strLen];
    var strValue: Bytes := if strLen == 0 then [] else data[9..9 + strLen];
    return if type_ == 11 then Ok(Object(strValue)) else Ok(Str(strValue));
  }

  method UnmarshallingStringArrayValue(data: Bytes) returns (r: Decoded)
    requires data != [] && data[0] == 7
    ensures r == Decoding(data)
  {
    hide Word, Cons, Append;
    if |data| < 9 {
      return Overrun;
    }
    var vecNum := Word(data[1..]);
    var at: nat := 9;
    assert data[1..][8..] == data[at..];
    var strVec: seq<Bytes> := [];
    ghost var all := ParseStrings(data[at..], vecNum);
    AppendNothing(all);
    for i := 0 to vecNum
      invariant at <= |data| && all == Append(strVec, ParseStrings(data[at..], vecNum - i))
    {
      ghost var rest := data[at..];
      if |data| < at + 8 {
        AppendFails(strVec);
        return Overrun;
      }
      var strLen := Word(data[at..]);
      at := at + 8;
      if |data| < at + strLen {
        AppendFails(strVec);
        return Overrun;
      }
      assert rest[8..8 + strLen] == data[at..at + strLen] && rest[8 + strLen..] == data[at + strLen..];
      AppendCons(strVec, data[at..at + strLen], ParseStrings(data[at + strLen..], vecNum - i - 1));
      strVec := strVec + [data[at..at + strLen]];
      at := at + strLen;
    }
    AppendAll(strVec);
    return Ok(StringArray(strVec));
  }

  /** The loops of UnmarshallingVecDouble and UnmarshallingVecBigInt. */
  method ReadWords(data: Bytes, start: nat, vecNum: nat) returns (r: Option<seq<Word64>>)
    requires start <= |data|
    ensures r == ParseWords(data[start..], vecNum)
  {
    hide Word, Cons, Append;
    var at: nat := start;
    var vec: seq<Word64> := [];
    AppendNothing(ParseWords(data[start..], vecNum));
    for i := 0 to vecNum
      invariant at <= |data| && ParseWords(data[start..], vecNum) == Append(vec, ParseWords(data[at..], vecNum - i))
    {
      if |data| < at + 8 {
        AppendFails(vec);
        return None;
      }
      var element := Word(data[at..]);
      AppendCons(vec, element, ParseWords(data[at + 8..], vecNum - i - 1));
      assert data[at..][8..] == data[at + 8..];
      vec := vec + [element];
      at := at + 8;
    }
    AppendAll(vec);
    return Some(vec);
  }

  method UnmarshallingBasicArrayValue(type_: byte, data: Bytes) returns (r: Decoded)
    requires data != [] && data[0] == type_ && (type_ == 8 || type_ == 9 || type_ == 10 || type_ == 12)
    ensures r == Decoding(data)
  {
    hide Word, ParseWords, ParseStrings;
    if |data| < 9 {
      return Overrun;
    }
    var vecNum := Word(data[1..]);
    assert data[1..][8..] == data[9..];
    match type_
    case 10 =>
      r := UnmarshallingVecUInt8(data, vecNum);
    case 8 =>
      r := UnmarshallingVecBool(data, vecNum);
    case 9 =>
      var words := ReadWords(data, 9, vecNum);
      return if words.None? then Overrun else Ok(DoubleArray(words.value));
    case _ =>
      if |data| < 17 {
        return Overrun;
      }
      var sign := Signed64(Word(data[9..]));
      var words := ReadWords(data, 17, vecNum);
      assert data[9..][8..] == data[17..];
      return if words.None? then Overrun else Ok(BigInt(words.value, Narrow(sign)));
  }

  method UnmarshallingVecUInt8(data: Bytes, vecNum: nat) returns (r: Decoded)
    requires |data| >= 9
    ensures r == if |data| - 9 < vecNum then Overrun else Ok(Uint8Array(data[9..][..vecNum]))
  {
    var vec: Bytes := [];
    for i := 0 to vecNum
      invariant 9 + i <= |data| && vec == data[9..9 + i]
    {
      if |data| <= 9 + i {
        return Overrun;
      }
      vec := vec + [data[9 + i]];
    }
    assert data[9..][..vecNum] == data[9..9 + vecNum];
    return Ok(Uint8Array(vec));
  }

  method UnmarshallingVecBool(data: Bytes, vecNum: nat) returns (r: Decoded)
    requires |data| >= 9
    ensures r == if |data| - 9 < vecNum then Overrun
      else Ok(BoolArray(seq(vecNum, i requires 0 <= i < vecNum => data[9..][i] != 0)))
  {
    var vec: seq<bool> := [];
    for i := 0 to vecNum
      invariant 9 + i <= |data| && |vec| == i && forall k :: 0 <= k < i ==> vec[k] == (data[9 + k] != 0)
    {
      if |data| <= 9 + i {
        return Overrun;
      }
      vec := vec + [data[9 + i] != 0];
    }
    assert vec == seq(vecNum, i requires 0 <= i < vecNum => data[9..][i] != 0);
    return Ok(BoolArray(vec));
  }

  method UnmarshallingPreferenceValue(data: Bytes) returns (r: Decoded)
    ensures r == Decoding(data)
  {
    hide ParseArray, Word, HalfWord;
    if data == [] {
      return Invalid;
    }
    var type_ := data[0];
    if 1 <= type_ <= 5 {
      r := UnmarshallingBasicValue(type_, data);
    } else if type_ == 6 || type_ == 11 {
      r := UnmarshallingStringValue(type_, data);
    } else if type_ == 7 {
      r := UnmarshallingStringArrayValue(data);
    } else if type_ == 8 || type_ == 9 || type_ == 10 || type_ == 12 {
      r := UnmarshallingBasicArrayValue(type_, data);
    } else {
      return Invalid;
    }
  }

  // ----- the format, byte by byte

  /** The bytes of n, lowest first. */
  function Little(n: nat, k: nat): (b: Bytes)
    ensures |b| == k
  {
    Powers256();
    seq(k, i requires 0 <= i < k => n / Pow256(i) % 256)
  }

  lemma {:induction false} Powers256()
    ensures forall i: nat :: Pow256(i) > 0
  {
    forall i: nat
      ensures Pow256(i) > 0
    {
      PowIsPositive(i);
    }
  }

  lemma {:induction false} PowIsPositive(i: nat)
    ensures Pow256(i) > 0
  {
    if i > 0 {
      PowIsPositive(i - 1);
    }
  }

  lemma {:induction false} LittleEndian(n: nat, k: nat)
    ensures Le(n, k) == Little(n, k)
  {
    Powers256();
    if k > 0 {
      LittleEndian(n / 256, k - 1);
      forall i | 0 <= i < k
        ensures Le(n, k)[i] == Little(n, k)[i]
      {
        if i > 0 {
          DivTwice(n, Pow256(i - 1));
        }
      }
    }
  }

  lemma DivTwice(n: nat, p: nat)
    requires p > 0
    ensures n / (256 * p) == n / 256 / p
  {
    var q, r := n / 256 / p, n / 256 % p;
    assert n == 256 * (q * p + r) + n % 256;
    RemainderUnique(n, 256 * p, q, 256 * r + n % 256);
  }

  // The first byte is the index of the type; integers take four or eight bytes in two's complement,
  // lowest first; an array begins with the number of its elements in eight bytes.
  lemma FormatOfEncoding(v: Value)
    ensures match v
      case Int(i) => Encoding(v) == [1] + Little(if i < 0 then i + 0x1_0000_0000 else i, 4)
      case Long(l) => Encoding(v) == [2] + Little(if l < 0 then l + 0x1_0000_0000_0000_0000 else l, 8)
      case Float(f) => Encoding(v) == [3] + Little(f, 4)
      case Double(d) => Encoding(v) == [4] + Little(d, 8)
      case Bool(b) => Encoding(v) == [5, if b then 1 else 0]
      case Str(s) => Encoding(v) == [6] + (Little(|s|, 8) + s)
      case StringArray(ss) => Encoding(v) == [7] + (Little(|ss|, 8) + Strings(ss))
      case BoolArray(bs) => Encoding(v) == [8] + (Little(|bs|, 8) + Bools(bs))
      case DoubleArray(ds) => Encoding(v) == [9] + (Little(|ds|, 8) + Words(ds))
      case Uint8Array(b) => Encoding(v) == [10] + (Little(|b|, 8) + b)
      case Object(s) => Encoding(v) == [11] + (Little(|s|, 8) + s)
      case BigInt(words, sign) =>
        Encoding(v) == [12] +
          (Little(|words|, 8) + Little(if sign < 0 then sign + 0x1_0000_0000_0000_0000 else sign, 8) + Words(words))
      case _ => Encoding(v) == []
  {
    hide Le, Strings, Words, Bools, Little;
    match v
    case Int(i) => LittleEndian(Unsigned32(i), 4);
    case Long(l) => LittleEndian(Unsigned64(l), 8);
    case Float(f) => LittleEndian(f, 4);
    case Double(d) => LittleEndian(d, 8);
    case Str(s) => LittleEndian(|s|, 8);
    case Object(s) => LittleEndian(|s|, 8);
    case Uint8Array(b) => LittleEndian(|b|, 8);
    case StringArray(ss) => LittleEndian(|ss|, 8);
    case BoolArray(bs) => LittleEndian(|bs|, 8);
    case DoubleArray(ds) => LittleEndian(|ds|, 8);
    case BigInt(words, sign) =>
      LittleEndian(|words|, 8);
      LittleEndian(Unsigned64(sign), 8);
    case _ =>
  }

  // The elements follow one another: a string behind its length, a word in eight bytes, a bool in one.
  lemma FormatOfElements(s: Bytes, ss: seq<Bytes>, w: Word64, ws: seq<Word64>, bs: seq<bool>)
    ensures Strings([s] + ss) == Little(|s|, 8) + s + Strings(ss) && Strings([]) == []
    ensures Words([w] + ws) == Little(w, 8) + Words(ws) && Words([]) == []
    ensures forall i :: 0 <= i < |bs| ==> Bools(bs)[i] == if bs[i] then 1 else 0
  {
    hide Le, Little;
    LittleEndian(|s|, 8);
    LittleEndian(w, 8);
    assert ([s] + ss)[1..] == ss && ([w] + ws)[1..] == ws;
  }

  // Data is refused as invalid exactly if it is empty or begins with no index of a type.
  lemma InvalidExactly(data: Bytes)
    ensures Decoding(data).Invalid? <==> data == [] || data[0] == 0 || data[0] > 12
  {
    hide Word, HalfWord, ParseStrings, ParseWords;
  }

  // What is decoded is a value of the type the first byte names; and data that begins with an encoding
  // is never refused.
  lemma DecodedType(data: Bytes)
    ensures Decoding(data).Ok? ==> TypeIndex(Decoding(data).value) == data[0]
    ensures forall v :: Supported(v) && |Encoding(v)| < TWO_POW_64 && Encoding(v) <= data ==> Decoding(data) == Ok(v)
  {
    hide Word, HalfWord, ParseStrings, ParseWords, Encoding;
    forall v | Supported(v) && |Encoding(v)| < TWO_POW_64 && Encoding(v) <= data
      ensures Decoding(data) == Ok(v)
    {
      DecodeOfEncode(v, data[|Encoding(v)|..]);
      assert Encoding(v) + data[|Encoding(v)|..] == data;
    }
  }

  lemma {:induction false} LeForth(b: Bytes)
    ensures Le(LeValue(b), |b|) == b
  {
    if b != [] {
      LeForth(b[1..]);
      assert LeValue(b) % 256 == b[0] && LeValue(b) / 256 == LeValue(b[1..]);
      assert b == [b[0]] + b[1..];
    }
  }

  lemma WordForth(s: Bytes)
    requires |s| >= 8
    ensures s == Le8(Word(s)) + s[8..]
  {
    hide Le, LeValue;
    LeForth(s[..8]);
    assert s == s[..8] + s[8..];
  }

  lemma Prefixes(a: Bytes, rest: Bytes, s: Bytes)
    requires a <= s && rest <= s[|a|..]
    ensures a + rest <= s
  {
  }

  lemma {:induction false} WordsForth(s: Bytes, n: nat)
    requires ParseWords(s, n).Some?
    ensures Words(ParseWords(s, n).value) <= s && |ParseWords(s, n).value| == n
  {
    hide Le8, Word;
    if n > 0 {
      WordForth(s);
      WordsForth(s[8..], n - 1);
      var ws := ParseWords(s[8..], n - 1).value;
      Prefixes(Le8(Word(s)), Words(ws), s);
      WordsOf(Word(s), ws);
    }
  }

  lemma WordsOf(w: Word64, ws: seq<Word64>)
    ensures Words([w] + ws) == Le8(w) + Words(ws)
  {
    hide Le8;
    assert ([w] + ws)[1..] == ws;
  }

  lemma {:induction false} StringsForth(s: Bytes, n: nat)
    requires ParseStrings(s, n).Some?
    ensures Strings(ParseStrings(s, n).value) <= s && |ParseStrings(s, n).value| == n
  {
    hide Le8, Word;
    if n > 0 {
      WordForth(s);
      var len := Word(s);
      StringsForth(s[8 + len..], n - 1);
      var ss, text := ParseStrings(s[8 + len..], n - 1).value, s[8..8 + len];
      Prefixes(Le8(len), text, s);
      Prefixes(Le8(len) + text, Strings(ss), s);
      StringsOf(text, ss);
    }
  }

  lemma StringsOf(text: Bytes, ss: seq<Bytes>)
    ensures Strings([text] + ss) == Le8(|text|) + text + Strings(ss)
  {
    hide Le8;
    assert ([text] + ss)[1..] == ss;
  }

  // What is decoded is what the data begins with: the data is the encoding of the value and a tail, unless
  // a bool was written as another byte than 0 or 1, or a sign as more than an int.
  lemma DecodedIsPrefix(data: Bytes)
    requires Decoding(data).Ok? && data[0] !in {5, 8, 12}
    ensures Encoding(Decoding(data).value) <= data
  {
    var s := data[1..];
    assert data == [data[0]] + s;
    if data[0] in {1, 2, 3, 4} {
      BasicForth(data);
    } else {
      ArrayForth(data);
    }
  }

  lemma BasicForth(data: Bytes)
    requires Decoding(data).Ok? && data[0] in {1, 2, 3, 4}
    ensures Encoding(Decoding(data).value) <= data
  {
    hide Le, LeValue, Words, Strings;
    var s := data[1..];
    LeForth(s[..if data[0] in {1, 3} then 4 else 8]);
    assert data == [data[0]] + s;
  }

  lemma ArrayForth(data: Bytes)
    requires Decoding(data).Ok? && data[0] in {6, 7, 9, 10, 11}
    ensures Encoding(Decoding(data).value) <= data
  {
    hide Le8, Word, ParseWords, ParseStrings, Words, Strings;
    var s := data[1..];
    WordForth(s);
    var n, rest := Word(s), s[8..];
    assert data == [data[0]] + (Le8(n) + rest);
    if data[0] == 7 {
      StringsForth(rest, n);
    } else if data[0] == 9 {
      WordsForth(rest, n);
    }
  }
}
