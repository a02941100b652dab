// The Base64 codec of frameworks/native/src/base64_helper.cpp: section 4 of RFC 4648, with a
// decoder that accepts more than the canonical encodings of section 3.5.
module Base64 {
  import opened Bits

  datatype Decoded = Rejected | Accepted(bytes: Bytes)

  const PAD: byte := 61
  const INVALID: byte := 0xFF

  // The two tables, written as ranges of the ASCII codes they hold.

  function EncodeSextet(s: nat): byte
    requires s < 64
  {
    if s < 26 then 65 + s
    else if s < 52 then 97 + (s - 26)
    else if s < 62 then 48 + (s - 52)
    else if s == 62 then 43 else 47
  }

  /** The decoder's table has 255 entries: index 255 reads the byte that lies after it, `past`. */
  function DecodeChar(c: byte, past: byte): byte {
    if 65 <= c <= 90 then c - 65
    else if 97 <= c <= 122 then c - 97 + 26
    else if 48 <= c <= 57 then c - 48 + 52
    else if c == 43 then 62
    else if c == 47 then 63
    else if c == 255 then past
    else INVALID
  }

  predicate InAlphabet(c: byte) {
    65 <= c <= 90 || 97 <= c <= 122 || 48 <= c <= 57 || c == 43 || c == 47
  }

  // ----- the groups of section 4 of RFC 4648 as arithmetic

  /** The four characters for the first one, two or three bytes. */
  function Group(x: Bytes): (r: Bytes)
    requires x != []
    ensures |r| == 4
  {
    var x1, x2 := if |x| > 1 then x[1] else 0, if |x| > 2 then x[2] else 0;
    [EncodeSextet(x[0] / 4),
     EncodeSextet(x[0] % 4 * 16 + x1 / 16),
     if |x| > 1 then EncodeSextet(x1 % 16 * 4 + x2 / 64) else PAD,
     if |x| > 2 then EncodeSextet(x2 % 64) else PAD]
  }

  function AfterGroup(x: Bytes): Bytes {
    if |x| > 3 then x[3..] else []
  }

  function Encoding(x: Bytes): Bytes
    decreases |x|
  {
    if x == [] then [] else Group(x) + Encoding(AfterGroup(x))
  }

  function DecodingOfQuads(s: Bytes, past: byte): Decoded
    requires |s| % 4 == 0
  {
    if s == [] then Accepted([])
    else
      var c1, c2 := DecodeChar(s[0], past), DecodeChar(s[1], past);
      if c1 == INVALID || c2 == INVALID then Rejected
      else if s[2] == PAD then Accepted([FirstByte(c1, c2)])
      else
        var c3 := DecodeChar(s[2], past);
        if c3 == INVALID then Rejected
        else if s[3] == PAD then Accepted([FirstByte(c1, c2), SecondByte(c2, c3)])
        else
          var c4 := DecodeChar(s[3], past);
          if c4 == INVALID then Rejected
          else Prepend([FirstByte(c1, c2), SecondByte(c2, c3), ThirdByte(c3, c4)], DecodingOfQuads(s[4..], past))
  }

  function Prepend(b: Bytes, d: Decoded): Decoded {
    if d.Rejected? then Rejected else Accepted(b + d.bytes)
  }

  function FirstByte(c1: byte, c2: byte): byte { ToUint8(Or(Shl(c1, 2), Shr(c2, 4))) }

  function SecondByte(c2: byte, c3: byte): byte { ToUint8(Or(Shl(c2, 4), Shr(c3, 2))) }

  function ThirdByte(c3: byte, c4: byte): byte { ToUint8(Or(Shl(c3, 6), c4)) }

  function Decoding(s: Bytes, past: byte): Decoded {
    if |s| % 4 != 0 then Rejected else DecodingOfQuads(s, past)
  }

  // On sextets the operators recombine the bits the encoder took apart.
  lemma BytesOfSextets(c1: byte, c2: byte, c3: byte, c4: byte)
    requires c1 < 64 && c2 < 64 && c3 < 64 && c4 < 64
    ensures FirstByte(c1, c2) == c1 * 4 + c2 / 16
    ensures SecondByte(c2, c3) == c2 % 16 * 16 + c3 / 4
    ensures ThirdByte(c3, c4) == c3 % 4 * 64 + c4
  {
    hide Or, Shl, Shr, ToUint8;
    Powers();
    Shifts(c1);
    Shifts(c2);
    Shifts(c3);
    OrDisjoint(c1, c2 / 16, 2);
    OrDisjoint(c2, c3 / 4, 4);
    OrDisjoint(c3, c4, 6);
    Truncated(c1, c2, c3, c4);
  }

  lemma Truncated(c1: byte, c2: byte, c3: byte, c4: byte)
    requires c1 < 64 && c2 < 64 && c3 < 64 && c4 < 64
    ensures ToUint8(c1 * 4 + c2 / 16) == c1 * 4 + c2 / 16
    ensures ToUint8(c2 * 16 + c3 / 4) == c2 % 16 * 16 + c3 / 4
    ensures ToUint8(c3 * 64 + c4) == c3 % 4 * 64 + c4
  {
    var d2, d3 := c2 / 16, c3 / 4;
    LowByte(c1 * 4 + d2, 0, c1 * 4 + d2);
    LowByte(c2 * 16 + d3, d2, c2 % 16 * 16 + d3);
    LowByte(c3 * 64 + c4, d3, c3 % 4 * 64 + c4);
  }

  lemma LowByte(x: nat, q: nat, r: nat)
    requires x == q * 256 + r && r < 256
    ensures ToUint8(x) == r
  {
    RemainderUnique(x, 256, q, r);
  }

  lemma Powers()
    ensures Pow2(2) == 4 && Pow2(4) == 16 && Pow2(6) == 64
  {
  }

  // ----- the program's loops

  /** The length is taken as a uint32_t, so only the first |input| mod 2^32 bytes are encoded. */
  method Encode(input: Bytes) returns (result: Bytes)
    ensures result == Encoding(input[..|input| % TWO_POW_32])
  {
    hide EncodeSextet, Or, And, Shl, Shr, Encoding, Group, AfterGroup;
    result := [];
    var index := 0;
    var len := |input| % TWO_POW_32;
    ghost var taken := input[..len];
    EncodingStep([], taken);
    assert taken[0..] == taken;
    while len > 0
      invariant 0 <= len && index + len == |taken|
      invariant result + Encoding(taken[index..]) == Encoding(taken)
      decreases len
    {
      ghost var group, before := taken[index..], result;
      GroupOperators(group);
      EncodingStep(before, group);
      result := result + [EncodeSextet(Shr(input[index], 2))];
      var code := Shl(And(input[index], 0x03), 4);
      index := index + 1;
      if len > 1 {
        result := result + [EncodeSextet(Or(code, Shr(input[index], 4)))];
        code := Shl(And(input[index], 0x0F), 2);
        index := index + 1;
        if len > 2 {
          result := result + [EncodeSextet(Or(code, Shr(input[index], 6)))];
          result := result + [EncodeSextet(And(input[index], 0x3F))];
          index := index + 1;
          assert result == before + Group(group);
          AfterThree(taken, index - 3);
        } else {
          result := result + [EncodeSextet(code)];
          result := result + [PAD];
          assert result == before + Group(group);
          return;
        }
      } else {
        result := result + [EncodeSextet(code)];
        result := result + [PAD, PAD];
        assert result == before + Group(group);
        return;
      }
      len := len - 3;
    }
    EncodingStep([], taken[index..]);
  }

  lemma AfterThree(x: Bytes, i: nat)
    requires i + 3 <= |x|
    ensures AfterGroup(x[i..]) == x[i + 3..]
  {
  }

  lemma EncodingStep(before: Bytes, x: Bytes)
    ensures x == [] ==> Encoding(x) == []
    ensures x != [] ==> Encoding(x) == Group(x) + Encoding(AfterGroup(x))
    ensures x != [] ==> before + Encoding(x) == before + Group(x) + Encoding(AfterGroup(x))
    ensures 0 < |x| <= 3 ==> before + Encoding(x) == before + Group(x)
  {
    hide Group;
  }

  lemma GroupOperators(x: Bytes)
    requires x != []
    ensures And(x[0], 0x03) < 4 && Shr(x[0], 2) < 64 && Shl(And(x[0], 0x03), 4) < 64
    ensures |x| == 1 ==> Group(x) == [EncodeSextet(Shr(x[0], 2)), EncodeSextet(Shl(And(x[0], 0x03), 4)), PAD, PAD]
    ensures |x| > 1 ==> Or(Shl(And(x[0], 0x03), 4), Shr(x[1], 4)) < 64 && Shl(And(x[1], 0x0F), 2) < 64
    ensures |x| == 2 ==>
      Group(x) == [EncodeSextet(Shr(x[0], 2)), EncodeSextet(Or(Shl(And(x[0], 0x03), 4), Shr(x[1], 4))),
                   EncodeSextet(Shl(And(x[1], 0x0F), 2)), PAD]
    ensures |x| > 2 ==> Or(Shl(And(x[1], 0x0F), 2), Shr(x[2], 6)) < 64 && And(x[2], 0x3F) < 64
    ensures |x| > 2 ==>
      Group(x) == [EncodeSextet(Shr(x[0], 2)), EncodeSextet(Or(Shl(And(x[0], 0x03), 4), Shr(x[1], 4))),
                   EncodeSextet(Or(Shl(And(x[1], 0x0F), 2), Shr(x[2], 6))), EncodeSextet(And(x[2], 0x3F))]
  {
    hide EncodeSextet, Or, And, Shl, Shr;
    Shifts(0);
    EncoderOperators(x[0], if |x| > 1 then x[1] else 0, if |x| > 2 then x[2] else 0);
  }

  lemma EncoderOperators(x0: byte, x1: byte, x2: byte)
    ensures And(x0, 0x03) == x0 % 4 && Shr(x0, 2) == x0 / 4 && Shl(And(x0, 0x03), 4) == x0 % 4 * 16
    ensures Or(Shl(And(x0, 0x03), 4), Shr(x1, 4)) == x0 % 4 * 16 + x1 / 16
    ensures Shl(And(x1, 0x0F), 2) == x1 % 16 * 4
    ensures Or(Shl(And(x1, 0x0F), 2), Shr(x2, 6)) == x1 % 16 * 4 + x2 / 64
    ensures And(x2, 0x3F) == x2 % 64
  {
    hide Or, And, Shl, Shr;
    Powers();
    Shifts(x0);
    Shifts(x1);
    Shifts(x2);
    Shifts(x0 % 4);
    Shifts(x1 % 16);
    AndMask(x0, 2);
    AndMask(x1, 4);
    AndMask(x2, 6);
    OrDisjoint(x0 % 4, x1 / 16, 4);
    OrDisjoint(x1 % 16, x2 / 64, 2);
  }

  /** `output` is assigned only on success; `prior` is its value before the call. */
  method Decode(input: Bytes, prior: Bytes, past: byte) returns (ok: bool, output: Bytes)
    requires |input| < TWO_POW_32
    ensures ok <==> Decoding(input, past).Accepted?
    ensures output == if ok then Decoding(input, past).bytes else prior
  {
    hide DecodeChar, FirstByte, SecondByte, ThirdByte, Decoding, Reached;
    if |input| % 4 != 0 {
      Unaligned(input, past);
      return false, prior;
    }
    var index := 0;
    var result: Bytes := [];
    Begins(input, past);
    while index < |input|
      invariant 0 <= index <= |input| && index % 4 == 0
      invariant Reached(input, past, index, result)
    {
      Advances(input, past, index, result);
      ghost var before := result;
      var ch1 := DecodeChar(input[index], past);
      var ch2 := DecodeChar(input[index + 1], past);
      index := index + 2;
      if ch1 == INVALID || ch2 == INVALID {
        return false, prior;
      }
      result := result + [FirstByte(ch1, ch2)];
      if input[index] == PAD {
        return true, result;
      }
      var ch3 := DecodeChar(input[index], past);
      index := index + 1;
      if ch3 == INVALID {
        return false, prior;
      }
      result := result + [SecondByte(ch2, ch3)];
      assert result == before + [FirstByte(ch1, ch2), SecondByte(ch2, ch3)];
      if input[index] == PAD {
        return true, result;
      }
      var ch4 := DecodeChar(input[index], past);
      index := index + 1;
      if ch4 == INVALID {
        return false, prior;
      }
      result := result + [ThirdByte(ch3, ch4)];
      assert result == before + [FirstByte(ch1, ch2), SecondByte(ch2, ch3), ThirdByte(ch3, ch4)];
    }
    Finishes(input, past, result);
    return true, result;
  }

  /** `result` is what the quads before `index` decode to. */
  ghost predicate Reached(input: Bytes, past: byte, index: nat, result: Bytes) {
    |input| % 4 == 0 && index <= |input| && index % 4 == 0
    && Decoding(input, past) == Prepend(result, DecodingOfQuads(input[index..], past))
  }

  lemma Unaligned(input: Bytes, past: byte)
    requires |input| % 4 != 0
    ensures Decoding(input, past) == Rejected
  {
  }

  lemma Begins(input: Bytes, past: byte)
    requires |input| % 4 == 0
    ensures Reached(input, past, 0, [])
  {
    hide DecodingOfQuads;
    assert input[0..] == input;
    PrependNothing(DecodingOfQuads(input, past));
  }

  lemma Finishes(input: Bytes, past: byte, result: Bytes)
    requires Reached(input, past, |input|, result)
    ensures Decoding(input, past) == Accepted(result)
  {
    hide DecodingOfQuads, Decoding;
    assert input[|input|..] == [];
    QuadsEnd(past);
  }

  lemma Advances(input: Bytes, past: byte, i: nat, result: Bytes)
    requires Reached(input, past, i, result) && i < |input|
    ensures i + 4 <= |input|
    ensures var c1, c2, d := DecodeChar(input[i], past), DecodeChar(input[i + 1], past), Decoding(input, past);
      if c1 == INVALID || c2 == INVALID then d == Rejected
      else if input[i + 2] == PAD then d == Accepted(result + [FirstByte(c1, c2)])
      else
        var c3 := DecodeChar(input[i + 2], past);
        if c3 == INVALID then d == Rejected
        else if input[i + 3] == PAD then d == Accepted(result + [FirstByte(c1, c2), SecondByte(c2, c3)])
        else
          var c4 := DecodeChar(input[i + 3], past);
          if c4 == INVALID then d == Rejected
          else Reached(input, past, i + 4, result + [FirstByte(c1, c2), SecondByte(c2, c3), ThirdByte(c3, c4)])
  {
    hide DecodeChar, FirstByte, SecondByte, ThirdByte, DecodingOfQuads, Decoding;
    var rest := input[i..];
    QuadStep(rest, past);
    assert rest[4..] == input[i + 4..];
    forall three
      ensures Prepend(result, Prepend(three, DecodingOfQuads(rest[4..], past))) ==
              Prepend(result + three, DecodingOfQuads(rest[4..], past))
    {
      PrependTwice(result, three, DecodingOfQuads(rest[4..], past));
    }
  }

  lemma QuadStep(s: Bytes, past: byte)
    requires s != [] && |s| % 4 == 0
    ensures var c1, c2, d := DecodeChar(s[0], past), DecodeChar(s[1], past), DecodingOfQuads(s, past);
      if c1 == INVALID || c2 == INVALID then d == Rejected
      else if s[2] == PAD then d == Accepted([FirstByte(c1, c2)])
      else
        var c3 := DecodeChar(s[2], past);
        if c3 == INVALID then d == Rejected
        else if s[3] == PAD then d == Accepted([FirstByte(c1, c2), SecondByte(c2, c3)])
        else
          var c4 := DecodeChar(s[3], past);
          if c4 == INVALID then d == Rejected
          else d == Prepend([FirstByte(c1, c2), SecondByte(c2, c3), ThirdByte(c3, c4)], DecodingOfQuads(s[4..], past))
  {
    hide DecodeChar, FirstByte, SecondByte, ThirdByte, Prepend;
  }

  lemma QuadsEnd(past: byte)
    ensures DecodingOfQuads([], past) == Accepted([])
  {
  }

  lemma PrependNothing(d: Decoded)
    ensures Prepend([], d) == d
  {
    if d.Accepted? {
      assert [] + d.bytes == d.bytes;
    }
  }

  lemma PrependTwice(a: Bytes, b: Bytes, d: Decoded)
    ensures Prepend(a, Prepend(b, d)) == Prepend(a + b, d)
  {
    if d.Accepted? {
      assert a + (b + d.bytes) == (a + b) + d.bytes;
    }
  }

  // ----- round trips

  lemma EncodingOfSextet(s: nat, past: byte)
    requires s < 64
    ensures InAlphabet(EncodeSextet(s)) && EncodeSextet(s) != PAD && DecodeChar(EncodeSextet(s), past) == s
  {
  }

  lemma AlphabetDecodes(c: byte, past: byte)
    requires InAlphabet(c)
    ensures c != PAD && DecodeChar(c, past) < 64 && EncodeSextet(DecodeChar(c, past)) == c
    ensures DecodeChar(c, past) == DecodeChar(c, 0)
  {
  }

  // Decoding inverts encoding, whatever byte lies after the decoder's table.
  lemma {:induction false} DecodeOfEncode(x: Bytes, past: byte)
    ensures |Encoding(x)| == 4 * ((|x| + 2) / 3)
    ensures Decoding(Encoding(x), past) == Accepted(x)
    decreases |x|
  {
    hide Group, DecodingOfQuads, Encoding;
    EncodingStep([], x);
    EncodingLength(x);
    if x == [] {
      DecodeOfGroup([], [], past);
    } else {
      DecodeOfEncode(AfterGroup(x), past);
      EncodingLength(AfterGroup(x));
      DecodeOfGroup(x, Encoding(AfterGroup(x)), past);
    }
  }

  lemma {:induction false} EncodingLength(x: Bytes)
    ensures |Encoding(x)| == 4 * ((|x| + 2) / 3)
    ensures |Encoding(x)| % 4 == 0
    decreases |x|
  {
    hide Group;
    if x != [] {
      EncodingLength(AfterGroup(x));
    }
  }

  lemma DecodeOfGroup(x: Bytes, t: Bytes, past: byte)
    requires |t| % 4 == 0
    ensures DecodingOfQuads([], past) == Accepted([])
    ensures 0 < |x| <= 2 ==> DecodingOfQuads(Group(x) + t, past) == Accepted(x)
    ensures |x| > 2 && DecodingOfQuads(t, past) == Accepted(x[3..]) ==> DecodingOfQuads(Group(x) + t, past) == Accepted(x)
  {
    hide EncodeSextet, DecodeChar, InAlphabet, FirstByte, SecondByte, ThirdByte, Group;
    if x != [] {
      GroupSextets(x, past);
      var s := Group(x) + t;
      var d := DecodedGroup(x, past);
      assert s[4..] == t;
      if |x| == 1 {
        assert DecodingOfQuads(s, past) == Accepted(d[..1]);
      } else if |x| == 2 {
        assert DecodingOfQuads(s, past) == Accepted(d[..2]);
      } else {
        assert DecodingOfQuads(s, past) == Prepend(d, DecodingOfQuads(t, past));
        assert x == d + x[3..];
      }
    }
  }

  lemma DecodedGroup(x: Bytes, past: byte) returns (d: Bytes)
    requires x != []
    ensures var g := Group(x);
      d == [FirstByte(DecodeChar(g[0], past), DecodeChar(g[1], past)),
            SecondByte(DecodeChar(g[1], past), DecodeChar(g[2], past)),
            ThirdByte(DecodeChar(g[2], past), DecodeChar(g[3], past))]
    ensures |x| == 1 ==> d[..1] == x
    ensures |x| == 2 ==> d[..2] == x
    ensures |x| > 2 ==> d == x[..3]
  {
    hide EncodeSextet, DecodeChar, InAlphabet, FirstByte, SecondByte, ThirdByte, Group;
    var x1, x2 := if |x| > 1 then x[1] else 0, if |x| > 2 then x[2] else 0;
    GroupSextets(x, past);
    BytesOfSextets(x[0] / 4, x[0] % 4 * 16 + x1 / 16, x1 % 16 * 4 + x2 / 64, x2 % 64);
    var g := Group(x);
    d := [FirstByte(DecodeChar(g[0], past), DecodeChar(g[1], past)),
          SecondByte(DecodeChar(g[1], past), DecodeChar(g[2], past)),
          ThirdByte(DecodeChar(g[2], past), DecodeChar(g[3], past))];
    BytesBack(x[0], x1, x2);
    assert d[0] == x[0];
    assert |x| > 1 ==> d[1] == x[1];
    assert |x| > 2 ==> d[2] == x[2];
  }

  lemma BytesBack(x0: byte, x1: byte, x2: byte)
    ensures x0 / 4 * 4 + (x0 % 4 * 16 + x1 / 16) / 16 == x0
    ensures (x0 % 4 * 16 + x1 / 16) % 16 * 16 + (x1 % 16 * 4 + x2 / 64) / 4 == x1
    ensures (x1 % 16 * 4 + x2 / 64) % 4 * 64 + x2 % 64 == x2
  {
  }

  // What the decoder sees in a group.
  lemma GroupSextets(x: Bytes, past: byte)
    requires x != []
    ensures DecodeChar(Group(x)[0], past) == x[0] / 4
    ensures DecodeChar(Group(x)[1], past) == x[0] % 4 * 16 + if |x| > 1 then x[1] / 16 else 0
    ensures |x| == 1 ==> Group(x)[2] == PAD
    ensures |x| > 1 ==> Group(x)[2] != PAD
    ensures |x| > 1 ==> DecodeChar(Group(x)[2], past) == x[1] % 16 * 4 + if |x| > 2 then x[2] / 64 else 0
    ensures |x| <= 2 ==> Group(x)[3] == PAD
    ensures |x| > 2 ==> Group(x)[3] != PAD && DecodeChar(Group(x)[3], past) == x[2] % 64
  {
    hide EncodeSextet, DecodeChar, InAlphabet;
    var x1, x2 := if |x| > 1 then x[1] else 0, if |x| > 2 then x[2] else 0;
    EncodingOfSextet(x[0] / 4, past);
    EncodingOfSextet(x[0] % 4 * 16 + x1 / 16, past);
    EncodingOfSextet(x1 % 16 * 4 + x2 / 64, past);
    EncodingOfSextet(x2 % 64, past);
  }

  /** Section 3.5 of RFC 4648: padding only at the end, and the bits it leaves over are zero. */
  ghost predicate CanonicalWith(s: Bytes, pad: nat) {
    && |s| % 4 == 0 && pad <= 2 && pad <= |s|
    && (forall i :: 0 <= i < |s| - pad ==> InAlphabet(s[i]))
    && (forall i :: |s| - pad <= i < |s| ==> s[i] == PAD)
    && (pad == 1 ==> DecodeChar(s[|s| - 2], 0) % 4 == 0)
    && (pad == 2 ==> DecodeChar(s[|s| - 3], 0) % 16 == 0)
  }

  ghost predicate Canonical(s: Bytes) {
    exists pad :: 0 <= pad <= 2 && CanonicalWith(s, pad)
  }

  lemma {:induction false} EncodingIsCanonical(x: Bytes)
    ensures Canonical(Encoding(x))
  {
    hide Group, CanonicalWith;
    if x == [] {
      EmptyIsCanonical();
    } else {
      GroupIsCanonical(x);
      if |x| > 3 {
        EncodingIsCanonical(x[3..]);
        var pad :| 0 <= pad <= 2 && CanonicalWith(Encoding(x[3..]), pad);
        CanonicalPrepend(Group(x), Encoding(x[3..]), pad);
      } else {
        assert Encoding(x) == Group(x);
      }
    }
  }

  lemma EmptyIsCanonical()
    ensures CanonicalWith([], 0)
  {
  }

  lemma GroupIsCanonical(x: Bytes)
    requires x != []
    ensures |x| == 1 ==> CanonicalWith(Group(x), 2)
    ensures |x| == 2 ==> CanonicalWith(Group(x), 1)
    ensures |x| > 2 ==> CanonicalWith(Group(x), 0) && forall i :: 0 <= i < 4 ==> InAlphabet(Group(x)[i])
  {
    hide EncodeSextet, DecodeChar, InAlphabet;
    var x1, x2 := if |x| > 1 then x[1] else 0, if |x| > 2 then x[2] else 0;
    EncodingOfSextet(x[0] / 4, 0);
    EncodingOfSextet(x[0] % 4 * 16 + x1 / 16, 0);
    EncodingOfSextet(x1 % 16 * 4 + x2 / 64, 0);
    EncodingOfSextet(x2 % 64, 0);
  }

  lemma CanonicalPrepend(q: Bytes, t: Bytes, pad: nat)
    requires |q| == 4 && (forall i :: 0 <= i < 4 ==> InAlphabet(q[i]))
    requires CanonicalWith(t, pad)
    ensures CanonicalWith(q + t, pad)
  {
    hide DecodeChar, InAlphabet;
    var s := q + t;
    assert forall i :: 4 <= i < |s| ==> s[i] == t[i - 4];
  }

  lemma {:induction false} CanonicalDecodes(s: Bytes, pad: nat, past: byte)
    requires CanonicalWith(s, pad)
    ensures Decoding(s, past).Accepted? && Encoding(Decoding(s, past).bytes) == s
  {
    hide EncodeSextet, DecodeChar, InAlphabet, FirstByte, SecondByte, ThirdByte;
    if |s| > 4 {
      CanonicalDecodes(s[4..], pad, past);
      QuadDecodes(s, past);
    } else if |s| == 4 && pad == 0 {
      assert CanonicalWith(s[4..], 0);
      CanonicalDecodes(s[4..], 0, past);
      QuadDecodes(s, past);
    } else if |s| == 4 {
      PaddedQuadDecodes(s, pad, past);
    }
  }

  lemma QuadDecodes(s: Bytes, past: byte)
    requires |s| >= 4 && |s| % 4 == 0 && forall i :: 0 <= i < 4 ==> InAlphabet(s[i])
    requires Decoding(s[4..], past).Accepted? && Encoding(Decoding(s[4..], past).bytes) == s[4..]
    ensures Decoding(s, past).Accepted? && Encoding(Decoding(s, past).bytes) == s
  {
    hide EncodeSextet, DecodeChar, InAlphabet, FirstByte, SecondByte, ThirdByte, Group, Encoding;
    AlphabetDecodes(s[0], past);
    AlphabetDecodes(s[1], past);
    AlphabetDecodes(s[2], past);
    AlphabetDecodes(s[3], past);
    var c1, c2, c3, c4 := DecodeChar(s[0], past), DecodeChar(s[1], past), DecodeChar(s[2], past), DecodeChar(s[3], past);
    var rest := Decoding(s[4..], past).bytes;
    var x := [FirstByte(c1, c2), SecondByte(c2, c3), ThirdByte(c3, c4)] + rest;
    assert Decoding(s, past) == Accepted(x);
    GroupOfBytes(x, c1, c2, c3, c4);
    EncodingStep([], x);
    assert AfterGroup(x) == rest;
    assert s == s[..4] + s[4..];
  }

  lemma GroupOfBytes(x: Bytes, c1: byte, c2: byte, c3: byte, c4: byte)
    requires x != [] && c1 < 64 && c2 < 64 && c3 < 64 && c4 < 64
    requires x[0] == FirstByte(c1, c2)
    requires if |x| > 1 then x[1] == SecondByte(c2, c3) else c2 % 16 == 0
    requires if |x| > 2 then x[2] == ThirdByte(c3, c4) else c3 % 4 == 0
    ensures |x| == 1 ==> Group(x) == [EncodeSextet(c1), EncodeSextet(c2), PAD, PAD]
    ensures |x| == 2 ==> Group(x) == [EncodeSextet(c1), EncodeSextet(c2), EncodeSextet(c3), PAD]
    ensures |x| > 2 ==> Group(x) == [EncodeSextet(c1), EncodeSextet(c2), EncodeSextet(c3), EncodeSextet(c4)]
  {
    hide EncodeSextet, FirstByte, SecondByte, ThirdByte;
    BytesOfSextets(c1, c2, c3, c4);
    SextetsOfBytes(c1, c2, c3, c4);
  }

  lemma SextetsOfBytes(c1: byte, c2: byte, c3: byte, c4: byte)
    requires c1 < 64 && c2 < 64 && c3 < 64 && c4 < 64
    ensures (c1 * 4 + c2 / 16) / 4 == c1
    ensures (c1 * 4 + c2 / 16) % 4 * 16 == c2 / 16 * 16
    ensures (c2 % 16 * 16 + c3 / 4) / 16 == c2 % 16
    ensures (c2 % 16 * 16 + c3 / 4) % 16 * 4 == c3 / 4 * 4
    ensures (c3 % 4 * 64 + c4) / 64 == c3 % 4
    ensures (c3 % 4 * 64 + c4) % 64 == c4
  {
  }

  lemma PaddedQuadDecodes(s: Bytes, pad: nat, past: byte)
    requires |s| == 4 && 0 < pad && CanonicalWith(s, pad)
    ensures Decoding(s, past).Accepted? && Encoding(Decoding(s, past).bytes) == s
  {
    hide EncodeSextet, DecodeChar, InAlphabet, FirstByte, SecondByte, ThirdByte, Group, Encoding;
    assert s[3] == PAD;
    AlphabetDecodes(s[0], past);
    AlphabetDecodes(s[1], past);
    var c1, c2 := DecodeChar(s[0], past), DecodeChar(s[1], past);
    if pad == 1 {
      AlphabetDecodes(s[2], past);
      var c3 := DecodeChar(s[2], past);
      var x := [FirstByte(c1, c2), SecondByte(c2, c3)];
      assert Decoding(s, past) == Accepted(x);
      GroupOfBytes(x, c1, c2, c3, 0);
      EncodingStep([], x);
    } else {
      assert s[2] == PAD;
      assert Decoding(s, past) == Accepted([FirstByte(c1, c2)]);
      GroupOfBytes([FirstByte(c1, c2)], c1, c2, 0, 0);
      EncodingStep([], [FirstByte(c1, c2)]);
    }
  }

  // Encoding what was decoded gives the text back exactly for the canonical texts.
  lemma EncodeOfDecode(s: Bytes, past: byte)
    ensures Decoding(s, past).Accepted? && Encoding(Decoding(s, past).bytes) == s <==> Canonical(s)
  {
    hide Encoding, Decoding, CanonicalWith;
    if Canonical(s) {
      var pad :| 0 <= pad <= 2 && CanonicalWith(s, pad);
      CanonicalDecodes(s, pad, past);
    }
    if Decoding(s, past).Accepted? && Encoding(Decoding(s, past).bytes) == s {
      EncodingIsCanonical(Decoding(s, past).bytes);
    }
  }

  // The canonical texts are exactly the texts the encoder writes.
  lemma ImageOfEncode(s: Bytes)
    ensures Canonical(s) <==> exists x: Bytes :: Encoding(x) == s
  {
    hide Encoding, Decoding, CanonicalWith;
    EncodeOfDecode(s, 0);
    if Canonical(s) {
      assert Encoding(Decoding(s, 0).bytes) == s;
    }
    if exists x: Bytes :: Encoding(x) == s {
      var x: Bytes :| Encoding(x) == s;
      EncodingIsCanonical(x);
    }
  }

  // The decoder is wider than its inverse: "QR==" is accepted, and reads as "QQ==" does.
  lemma DecoderAcceptsMore(past: byte)
    ensures Decoding([81, 82, 61, 61], past) == Decoding([81, 81, 61, 61], past) == Accepted([65])
    ensures !Canonical([81, 82, 61, 61]) && Canonical([81, 81, 61, 61])
  {
    hide Canonical, CanonicalWith;
    BytesOfSextets(16, 17, 0, 0);
    BytesOfSextets(16, 16, 0, 0);
    QuadStep([81, 82, 61, 61], past);
    QuadStep([81, 81, 61, 61], past);
    StrayBits();
    NoStrayBits();
  }

  lemma StrayBits()
    ensures !Canonical([81, 82, 61, 61])
  {
    var s: Bytes := [81, 82, 61, 61];
    assert s[1] == 82 && s[2] == PAD && !InAlphabet(PAD) && DecodeChar(82, 0) % 16 == 1;
    forall pad | 0 <= pad <= 2
      ensures !CanonicalWith(s, pad)
    {
      if pad < 2 {
        assert !InAlphabet(s[2]);
      } else {
        assert s[|s| - 3] == s[1];
      }
    }
  }

  lemma NoStrayBits()
    ensures Canonical([81, 81, 61, 61])
  {
    var t: Bytes := [81, 81, 61, 61];
    assert t[1] == 81 && DecodeChar(81, 0) % 16 == 0;
    assert CanonicalWith(t, 2);
  }

  // ----- which texts are accepted

  /** A character the decoder reads as a sextet, or as whatever lies after its table. */
  predicate Decodes(c: byte, past: byte) {
    InAlphabet(c) || (c == 255 && past != INVALID)
  }

  /** The characters up to n can be decoded, and there the text ends, or a padding character stands in
      the third or fourth place of its group. */
  ghost predicate StopsAt(s: Bytes, n: nat, past: byte) {
    n <= |s| && (forall i :: 0 <= i < n ==> Decodes(s[i], past)) && (n == |s| || (n % 4 >= 2 && s[n] == PAD))
  }

  lemma DecodesExactly(c: byte, past: byte)
    ensures Decodes(c, past) <==> DecodeChar(c, past) != INVALID
    ensures !Decodes(PAD, past)
  {
  }

  // A text is accepted exactly if its length is a multiple of four and everything can be decoded up to
  // its end, or up to the first padding character, which must be third or fourth in its group; what comes
  // after that is not looked at. Four characters give three bytes.
  lemma AcceptedExactly(s: Bytes, past: byte)
    ensures Decoding(s, past).Accepted? <==> |s| % 4 == 0 && exists n: nat :: StopsAt(s, n, past)
    ensures forall n: nat :: |s| % 4 == 0 && StopsAt(s, n, past) ==>
      Decoding(s, past).Accepted? && |Decoding(s, past).bytes| == n * 3 / 4
  {
    hide DecodingOfQuads, StopsAt;
    if |s| % 4 == 0 {
      if Decoding(s, past).Accepted? {
        var n := StopOf(s, past);
      }
      forall n: nat | StopsAt(s, n, past)
        ensures Decoding(s, past).Accepted? && |Decoding(s, past).bytes| == n * 3 / 4
      {
        StoppedIsAccepted(s, n, past);
      }
    }
  }

  lemma {:induction false} StopOf(s: Bytes, past: byte) returns (n: nat)
    requires |s| % 4 == 0 && DecodingOfQuads(s, past).Accepted?
    ensures StopsAt(s, n, past)
  {
    hide DecodeChar, FirstByte, SecondByte, ThirdByte, Decodes;
    if s == [] {
      n := 0;
    } else {
      QuadStep(s, past);
      FirstFour(s, past);
      if s[2] == PAD {
        n := 2;
      } else if s[3] == PAD {
        n := 3;
      } else {
        n := StopOf(s[4..], past);
        n := n + 4;
        assert forall i :: 4 <= i < n ==> s[i] == s[4..][i - 4];
        assert n < |s| ==> s[n] == s[4..][n - 4];
      }
    }
  }

  lemma FirstFour(s: Bytes, past: byte)
    requires |s| >= 4
    ensures forall i :: 0 <= i < 4 ==> (Decodes(s[i], past) <==> DecodeChar(s[i], past) != INVALID)
    ensures forall i :: 0 <= i < 4 && s[i] == PAD ==> !Decodes(s[i], past)
  {
    forall i | 0 <= i < 4
      ensures Decodes(s[i], past) <==> DecodeChar(s[i], past) != INVALID
      ensures s[i] == PAD ==> !Decodes(s[i], past)
    {
      DecodesExactly(s[i], past);
    }
  }

  lemma {:induction false} StoppedIsAccepted(s: Bytes, n: nat, past: byte)
    requires |s| % 4 == 0 && StopsAt(s, n, past)
    ensures DecodingOfQuads(s, past).Accepted? && |DecodingOfQuads(s, past).bytes| == n * 3 / 4
  {
    hide DecodeChar, FirstByte, SecondByte, ThirdByte, Decodes;
    if s != [] {
      QuadStep(s, past);
      FirstFour(s, past);
      assert Decodes(s[0], past) && Decodes(s[1], past);
      if n >= 4 {
        assert Decodes(s[2], past) && Decodes(s[3], past);
        assert forall i :: 0 <= i < n - 4 ==> s[4..][i] == s[i + 4];
        assert n < |s| ==> s[4..][n - 4] == s[n];
        StoppedIsAccepted(s[4..], n - 4, past);
      }
    }
  }

  // The alphabet of table 1 of RFC 4648.
  lemma AlphabetOfRfc(k: nat)
    requires k < 64
    ensures k < 26 ==> EncodeSextet(k) == 'A' as int + k
    ensures 26 <= k < 52 ==> EncodeSextet(k) == 'a' as int + (k - 26)
    ensures 52 <= k < 62 ==> EncodeSextet(k) == '0' as int + (k - 52)
    ensures EncodeSextet(62) == '+' as int && EncodeSextet(63) == '/' as int && PAD == '=' as int
  {
  }

  // The test vectors of section 10 of RFC 4648: the empty text, f, fo, foo and foobar.
  lemma VectorsOfRfc()
    ensures Encoding([]) == []
    ensures Encoding([102]) == [90, 103, 61, 61]
    ensures Encoding([102, 111]) == [90, 109, 56, 61]
    ensures Encoding([102, 111, 111]) == [90, 109, 57, 118]
    ensures Encoding([102, 111, 111, 98, 97, 114]) == [90, 109, 57, 118] + [89, 109, 70, 121]
  {
    EncodingStep([], [102]);
    EncodingStep([], [102, 111]);
    EncodingStep([], [102, 111, 111]);
    EncodingStep([], [98, 97, 114]);
    EncodingStep([], [102, 111, 111, 98, 97, 114]);
    EncodingStep([], []);
    assert [102, 111, 111, 98, 97, 114][3..] == [98, 97, 114];
    VectorGroups();
    hide Encoding, Group;
  }

  lemma VectorGroups()
    ensures Group([102]) == [90, 103, 61, 61] && Group([102, 111]) == [90, 109, 56, 61]
    ensures Group([102, 111, 111]) == [90, 109, 57, 118] && Group([98, 97, 114]) == [89, 109, 70, 121]
    ensures Group([102, 111, 111, 98, 97, 114]) == [90, 109, 57, 118]
  {
  }
}
