/** The decoder of src/emv/index.ts on input in the form it is meant for:
    well-formed identifiers and length octets. On such input the decoder reads
    back exactly the identifier and the length written, and decoding undoes
    `Encode`. Identifiers are limited to six octets and long-form lengths to six
    length octets, so that every number involved stays below 2^53, where
    JavaScript's `parseInt` is exact. */
module TlvCodec {
  import opened Options
  import opened Text
  import opened Arith
  import opened Radix
  import opened Js
  import opened EmvUtils
  import opened Types
  import opened Tlv
  import opened TlvTags
  import opened TlvProps

  /** Octet `k` of a hex string, as a number. */
  function Octet(t: string, k: nat): nat
    requires 2 * k + 2 <= |t|
  {
    Value(t[2 * k..2 * k + 2], 16)
  }

  /** A BER identifier as the decoder emits it: upper-case hex, whole octets, no
      leading zero digit; a first octet with low five bits `11111` is followed by
      octets with the top bit set and a last octet without it, any other first
      octet stands alone. */
  predicate WellFormedTag(t: string) {
    UpperHex(t) && |t| % 2 == 0 && 2 <= |t| <= 12 && Octet(t, 0) >= 16
    && (Octet(t, 0) % 32 == 31 <==> |t| >= 4)
    && (forall k :: 1 <= k < |t| / 2 - 1 ==> Octet(t, k) >= 128)
    && (|t| >= 4 ==> Octet(t, |t| / 2 - 1) < 128)
  }

  /** Length octets as the decoder reads them: one octet, or `8n` followed by
      `n` octets (at most six). */
  predicate WellFormedLength(lf: string) {
    AllHex(lf) && |lf| >= 2
    && if lf[0] == '8' then |lf| == 2 + 2 * DigitValue(lf[1]) && |lf| <= 14 else |lf| == 2
  }

  /** The number of value octets well-formed length octets announce. */
  function LengthOf(lf: string): nat
    requires WellFormedLength(lf)
  {
    if lf[0] == '8' then Value(lf[2..], 16) else Value(lf, 16)
  }

  /** Following the continuation octets of a well-formed identifier from
      octet `k` on ends exactly at its last character. */
  lemma TagLimitWellFormed(t: string, rest: string, k: nat)
    requires WellFormedTag(t) && 1 <= k && 2 * k < |t|
    ensures TagLimitFrom(t + rest, 2 * k) == |t|
  {
    TagLimitIsTagEnd(t + rest, 2 * k);
    TagEndWellFormed(t, rest, k);
  }

  /** `TagEnd` from octet `k` of a well-formed identifier is its length. */
  lemma {:induction false} TagEndWellFormed(t: string, rest: string, k: nat)
    requires WellFormedTag(t) && 1 <= k && 2 * k < |t|
    ensures TagEnd(t + rest, 2 * k) == |t|
    decreases |t| - 2 * k
  {
    assert 2 * (k + 1) == 2 * k + 2;
    TagOctet(t, rest, k);
    OctetAt(t, k);
    if 2 * (k + 1) < |t| {
      TagEndWellFormed(t, rest, k + 1);
    }
  }

  /** Octet `k` (not the first) of a well-formed identifier has its top bit
      set exactly when it is not the last one. */
  lemma OctetAt(t: string, k: nat)
    requires WellFormedTag(t) && 1 <= k && 2 * k < |t|
    ensures 2 * (k + 1) <= |t|
    ensures Octet(t, k) >= 128 <==> 2 * (k + 1) < |t|
  {
    assert |t| == 2 * (|t| / 2);
  }

  /** Octet `k` of an identifier followed by more input, as the loop reads it. */
  lemma TagOctet(t: string, rest: string, k: nat)
    requires UpperHex(t) && 2 * k + 2 <= |t|
    ensures var o := Substring(t + rest, 2 * k, 2 * k + 2);
      |o| == 2 && CheckHex(o) && Value(o, 16) == Octet(t, k)
  {
    assert Substring(t + rest, 2 * k, 2 * k + 2) == t[2 * k..2 * k + 2];
  }

  /** The first octet the decoder sees is the first octet of the identifier. */
  lemma FirstOctetWellFormed(t: string, rest: string)
    requires WellFormedTag(t)
    ensures FirstOctet(t + rest) == Octet(t, 0)
  {
    assert Substring(t + rest, 0, 2) == t[0..2];
  }

  /** The number the decoder computes for a well-formed identifier is the
      identifier's own value. */
  lemma TagValueWellFormed(t: string, rest: string)
    requires WellFormedTag(t)
    ensures TagValue(t + rest) == Some(Value(t, 16))
  {
    FirstOctetWellFormed(t, rest);
    if |t| == 2 {
      assert t[0..2] == t;
    } else {
      HighValueWellFormed(t, rest);
    }
  }

  lemma HighValueWellFormed(t: string, rest: string)
    requires WellFormedTag(t) && |t| >= 4 && FirstOctet(t + rest) == Octet(t, 0)
    ensures TagValue(t + rest) == Some(Value(t, 16))
  {
    var d := t + rest;
    var b0 := Octet(t, 0);
    assert TagLimitFrom(d, 2) == |t| by {
      TagLimitWellFormed(t, rest, 1);
    }
    assert Substring(d, 0, |t|) == t;
    assert TagValue(d) == HighTagValue(b0, t, |t|);
    assert t[0..2] == t[..2];
    HighTagValueOf(t, b0);
  }

  /** The high-tag-number computation on a whole well-formed identifier. */
  lemma HighTagValueOf(t: string, b0: nat)
    requires CheckHex(t) && 4 <= |t| <= 12
    requires b0 == Value(t[..2], 16) && b0 % 32 == 31 && b0 < 256
    ensures HighTagValue(b0, t, |t|) == Some(Value(t, 16))
  {
    var v := Value(t, 16);
    var l := |t|;
    var p := Pow(16, l - 2);
    var w := 4 * l - 3;
    assert HighTagValue(b0, t, l) == Some(Value(Fixed(b0 / 32, 2, 3) + Fixed(v, 2, w), 2));
    assert Value(Fixed(b0 / 32, 2, 3) + Fixed(v, 2, w), 2) == b0 / 32 * Pow(2, w) + v % Pow(2, w) by {
      TopAndLow(b0 / 32, v, w);
    }
    assert Pow(2, w) == p * 32 by {
      TopWeight(l);
    }
    assert b0 == v / p by {
      ValuePrefix(t, 2, 16);
    }
    SplitTop(b0, p, v);
  }

  /** A number whose leading part `v / p` is an octet with low five bits
      `11111` is its top three bits followed by its remainder modulo `32*p`. */
  lemma SplitTop(b0: nat, p: nat, v: nat)
    requires p >= 1 && b0 == v / p && b0 % 32 == 31
    ensures (b0 / 32) * (p * 32) + v % (p * 32) == v
  {
    var top := b0 / 32;
    var low := v % p;
    DivMod(v, p);
    DivMod(b0, 32);
    assert v == b0 * p + low;
    assert b0 == top * 32 + 31;
    assert b0 * p == top * (p * 32) + 31 * p by {
      assert (top * 32 + 31) * p == top * 32 * p + 31 * p;
    }
    DivModUnique(v, p * 32, top, 31 * p + low);
  }

  /** The decoder reads a well-formed identifier back as itself, with its
      constructed bit. */
  lemma ReadTagWellFormed(t: string, rest: string)
    requires WellFormedTag(t)
    ensures ReadTag(t + rest) == TagInfo(t, ConstructedTag(t))
  {
    TagValueWellFormed(t, rest);
    ReadTagValue(t + rest);
    ReadTagConstructed(t + rest);
    FirstOctetWellFormed(t, rest);
    assert t[0..2] == t[..2];
    TwoDigits(t[..2]);
    ToRadixOfValue(t, 16);
    UpperOfLower(t);
    UpperOfUpperHex(t);
  }

  /** `Number(Hex2Dec(x))`: the hex value, or 0 when `x` is rejected. */
  lemma NumberOfHex(x: string)
    ensures NumberOf(Hex2Dec(x)) == if CheckHex(x) then Value(x, 16) else 0
  {
  }

  /** The decoder reads well-formed length octets back as themselves, and the
      value spans twice the announced number of characters. */
  lemma ReadLengthWellFormed(tag: string, lf: string, body: string)
    requires WellFormedLength(lf)
    ensures ReadLength(tag + lf + body, |tag|)
      == LengthField(lf, |tag| + |lf|, |tag| + |lf| + 2 * LengthOf(lf))
  {
    var d := tag + lf + body;
    var lenHex := Substring(d, |tag|, |tag| + 2);
    assert lenHex == lf[..2];
    assert Substring(lenHex, 0, 1) == [lf[0]];
    if lf[0] == '8' {
      var n := DigitValue(lf[1]);
      assert Substring(lenHex, 1, 2) == [lf[1]];
      assert Value([lf[1]], 16) == n by {
        assert [lf[1]][..0] == [];
      }
      NumberOfHex([lf[1]]);
      assert Substring(d, |tag|, |tag| + 2 + n * 2) == lf;
      NumberOfHex(SubstringFrom(lf, 2));
      if n == 0 {
        assert lf[2..] == [];
      }
    } else {
      NumberOfHex(lenHex);
      assert lf[..2] == lf;
    }
  }

  /** The element the decoder reads from a well-formed identifier, well-formed
      length octets and what follows: the value is the announced number of
      characters, or all that is left when the input is cut short, and decoding
      goes on after it. */
  lemma ParseHead(t: string, lf: string, body: string)
    requires WellFormedTag(t) && WellFormedLength(lf)
    ensures var k := if 2 * LengthOf(lf) <= |body| then 2 * LengthOf(lf) else |body|;
      Parse(t + lf + body)
        == [EmvObject(t, lf, if ConstructedTag(t) then Cons(Parse(body[..k])) else Prim(body[..k]), None)]
          + Parse(body[k..])
  {
    var data, n := t + lf + body, 2 * LengthOf(lf);
    assert ReadTag(data) == TagInfo(t, ConstructedTag(t)) by {
      ReadTagBeforeLength(t, lf, body);
    }
    assert ReadLength(data, |t|) == LengthField(lf, |t| + |lf|, |t| + |lf| + n) by {
      ReadLengthWellFormed(t, lf, body);
    }
    HeadFields(t, lf, body, n, ConstructedTag(t));
  }

  /** `ReadTagWellFormed` with the rest split into length octets and what follows. */
  lemma ReadTagBeforeLength(t: string, lf: string, body: string)
    requires WellFormedTag(t)
    ensures ReadTag(t + lf + body) == TagInfo(t, ConstructedTag(t))
  {
    Regroup3(t, lf, body);
    ReadTagWellFormed(t, lf + body);
  }

  /** `ParseHead` once the identifier and length octets are known to be read back. */
  lemma HeadFields(t: string, lf: string, body: string, n: nat, c: bool)
    requires ReadTag(t + lf + body) == TagInfo(t, c)
    requires ReadLength(t + lf + body, |t|) == LengthField(lf, |t| + |lf|, |t| + |lf| + n)
    ensures var k := if n <= |body| then n else |body|;
      Parse(t + lf + body)
        == [EmvObject(t, lf, if c then Cons(Parse(body[..k])) else Prim(body[..k]), None)] + Parse(body[k..])
  {
    HeadStep(t + lf, body, t, c, lf, n);
  }

  /** One round of `parse` on a head whose identifier and length field are
      known, followed by the value and the rest. */
  lemma HeadStep(head: string, body: string, tag: string, c: bool, text: string, n: nat)
    requires ReadTag(head + body) == TagInfo(tag, c)
    requires ReadLength(head + body, |tag|) == LengthField(text, |head|, |head| + n)
    ensures var k := if n <= |body| then n else |body|;
      Parse(head + body)
        == [EmvObject(tag, text, if c then Cons(Parse(body[..k])) else Prim(body[..k]), None)] + Parse(body[k..])
  {
    var k := if n <= |body| then n else |body|;
    assert |head| >= 2 by {
      assert ReadLength(head + body, |tag|).valueStart >= |tag| + 2;
    }
    ValueSlices(head, body, n, |head|);
    ParseStep(head + body, TagInfo(tag, c), LengthField(text, |head|, |head| + n), body[..k], body[k..]);
  }

  /** One round of `parse` once the identifier and the length field are known. */
  lemma ParseStep(data: string, t: TagInfo, f: LengthField, v: string, rest: string)
    requires |data| > 0
    requires ReadTag(data) == t && ReadLength(data, |t.tag|) == f
    requires Substring(data, f.valueStart, f.end) == v && SubstringFrom(data, f.end) == rest
    ensures Parse(data) == [EmvObject(t.tag, f.text, if t.constructed then Cons(Parse(v)) else Prim(v), None)] + Parse(rest)
  {
    ParseUnfold(data);
  }

  /** A complete element followed by more input: decoding yields the element
      and then decodes the rest. */
  lemma ParseElement(t: string, lf: string, value: string, rest: string)
    requires WellFormedTag(t) && WellFormedLength(lf) && |value| == 2 * LengthOf(lf)
    ensures Parse(t + lf + value + rest)
      == [EmvObject(t, lf, if ConstructedTag(t) then Cons(Parse(value)) else Prim(value), None)] + Parse(rest)
  {
    assert t + lf + value + rest == t + lf + (value + rest);
    ParseHead(t, lf, value + rest);
    assert (value + rest)[..|value|] == value && (value + rest)[|value|..] == rest;
  }

  /** `ParseElement` for a primitive identifier. */
  lemma ParsePrimitive(t: string, lf: string, value: string, rest: string)
    requires WellFormedTag(t) && !ConstructedTag(t) && WellFormedLength(lf) && |value| == 2 * LengthOf(lf)
    ensures Parse(t + lf + value + rest) == [EmvObject(t, lf, Prim(value), None)] + Parse(rest)
  {
    ParseElement(t, lf, value, rest);
  }

  /** The value slice and the remainder when the value starts right after `head`. */
  lemma ValueSlices(head: string, body: string, n: nat, h: nat)
    requires h == |head|
    ensures var k := if n <= |body| then n else |body|;
      Substring(head + body, h, h + n) == body[..k]
      && SubstringFrom(head + body, h + n) == body[k..]
  {
  }

  /** The hex text of a list of elements: identifier, length octets and value of
      each, in order. */
  function Encode(objs: seq<EmvObject>): string
    decreases objs
  {
    if |objs| == 0 then ""
    else
      var o := objs[0];
      var value := match o.value
        case Prim(h) => h
        case Cons(cs) => Encode(cs);
      o.tag + o.length + value + Encode(objs[1..])
  }

  /** Elements `Encode` writes and `Parse` reads back: well-formed identifiers
      and lengths, values of the announced size whose kind matches the tag, and
      no descriptions. */
  predicate Encodable(objs: seq<EmvObject>)
    decreases objs
  {
    forall i :: 0 <= i < |objs| ==>
      WellFormedTag(objs[i].tag) && WellFormedLength(objs[i].length) && objs[i].description == None
      && (objs[i].value.Cons? <==> ConstructedTag(objs[i].tag))
      && match objs[i].value
         case Prim(h) => |h| == 2 * LengthOf(objs[i].length)
         case Cons(cs) => Encodable(cs) && |Encode(cs)| == 2 * LengthOf(objs[i].length)
  }

  /** Decoding undoes encoding. */
  lemma {:induction false} RoundTrip(objs: seq<EmvObject>)
    requires Encodable(objs)
    ensures Parse(Encode(objs)) == objs
    decreases objs
  {
    if |objs| > 0 {
      EncodableTail(objs);
      RoundTrip(objs[1..]);
      if objs[0].value.Cons? {
        RoundTrip(objs[0].value.children);
      }
      RoundTripStep(objs);
    }
  }

  /** The elements after the first of an encodable list are encodable. */
  lemma EncodableTail(objs: seq<EmvObject>)
    requires Encodable(objs) && |objs| > 0
    ensures Encodable(objs[1..])
  {
    var tail := objs[1..];
    assert forall i :: 0 <= i < |tail| ==> tail[i] == objs[i + 1];
  }

  /** One step of `RoundTrip`: the first element is read back, given that the
      rest and the first element's children are. */
  lemma RoundTripStep(objs: seq<EmvObject>)
    requires Encodable(objs) && |objs| > 0
    requires Parse(Encode(objs[1..])) == objs[1..]
    requires objs[0].value.Cons? ==> Parse(Encode(objs[0].value.children)) == objs[0].value.children
    ensures Parse(Encode(objs)) == objs
  {
    var o, rest := objs[0], Encode(objs[1..]);
    EncodableHead(objs);
    SplitFirst(objs);
    var text := match o.value
      case Prim(h) => h
      case Cons(cs) => Encode(cs);
    assert Encode(objs) == o.tag + o.length + text + rest;
    assert o.value.Cons? ==> Parse(text) == o.value.children;
    ElementRoundTrip(o.tag, o.length, o.value, text, rest, objs[1..]);
  }

  /** A list whose first element has no description, as its first element and the rest. */
  lemma SplitFirst(objs: seq<EmvObject>)
    requires |objs| > 0 && objs[0].description == None
    ensures objs == [EmvObject(objs[0].tag, objs[0].length, objs[0].value, None)] + objs[1..]
  {
  }

  /** What `Encodable` demands of the first element. */
  lemma EncodableHead(objs: seq<EmvObject>)
    requires Encodable(objs) && |objs| > 0
    ensures var o := objs[0];
      WellFormedTag(o.tag) && WellFormedLength(o.length) && o.description == None
      && (o.value.Cons? <==> ConstructedTag(o.tag))
      && match o.value
         case Prim(h) => |h| == 2 * LengthOf(o.length)
         case Cons(cs) => Encodable(cs) && |Encode(cs)| == 2 * LengthOf(o.length)
  {
  }

  /** An element whose value text reads back as its value, in front of text
      that reads back as `tail`. */
  lemma ElementRoundTrip(t: string, lf: string, v: EmvValue, text: string, rest: string, tail: seq<EmvObject>)
    requires WellFormedTag(t) && WellFormedLength(lf) && |text| == 2 * LengthOf(lf)
    requires v.Cons? <==> ConstructedTag(t)
    requires v.Prim? ==> text == v.hex
    requires v.Cons? ==> Parse(text) == v.children
    requires Parse(rest) == tail
    ensures Parse(t + lf + text + rest) == [EmvObject(t, lf, v, None)] + tail
  {
    ParseElement(t, lf, text, rest);
  }
}
