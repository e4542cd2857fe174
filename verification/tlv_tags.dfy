/** What the identifier reading of src/emv/index.ts computes, in numbers: the
    emitted tag is the upper-case hex rendering, without leading zeros, of the
    class and constructed bits of the first octet followed by the remaining
    bits of all consumed octets; its constructed flag is bit 0x20 of the first
    octet. */
module TlvTags {
  import opened Options
  import opened Text
  import opened Arith
  import opened Radix
  import opened Js
  import opened EmvUtils
  import opened Tlv

  /** The number whose rendering is the tag, or `None` when the identifier bits
      exceed the 64 that `Bin2Hex` accepts (the tag is then empty). */
  function TagValue(data: string): Option<nat> {
    var b0 := FirstOctet(data);
    if b0 % 32 != 31 then Some(b0)
    else
      var limit := TagLimitFrom(data, 2);
      HighTagValue(b0, Substring(data, 0, limit), limit)
  }

  /** The high-tag-number form: the top three bits of the first octet followed by
      all but the top three of the `limit / 2` octets in `sub`; only the three
      bits when `sub` is not hex. */
  function HighTagValue(b0: nat, sub: string, limit: nat): Option<nat>
    requires limit >= 1
  {
    if !CheckHex(sub) then Some(b0 / 32)
    else if 4 * limit > 64 then None
    else Some(Value(Fixed(b0 / 32, 2, 3) + Fixed(Value(sub, 16), 2, 4 * limit - 3), 2))
  }

  function Render(n: Option<nat>): Option<string> {
    match n
    case Some(v) => Some(ToRadix(v, 16))
    case None => None
  }

  function TagText(n: Option<nat>): string {
    match n
    case Some(v) => ToUpper(ToRadix(v, 16))
    case None => ""
  }

  /** `tag_bin` is the first octet as eight bits. */
  lemma InitialBits(data: string)
    ensures InitialTagBits(data) == Fixed(FirstOctet(data), 2, 8)
  {
    var s := Substring(data, 0, 2);
    if CheckHex(s) {
      HexPrefixBound(s, false, 2 - |s|);
      PaddedOctet(s);
    } else {
      FixedZero(2, 8);
    }
  }

  /** How the eight bits of the first octet split into `tag_class`,
      `tag_constructed` and `tag_number`. */
  lemma OctetFields(b0: nat)
    requires b0 < 256
    ensures Substring(Fixed(b0, 2, 8), 0, 2) + Substring(Fixed(b0, 2, 8), 2, 3) == Fixed(b0 / 32, 2, 3)
    ensures Substring(Fixed(b0, 2, 8), 2, 3) == "1" <==> (b0 / 32) % 2 == 1
    ensures Substring(Fixed(b0, 2, 8), 3, 8) == Fixed(b0, 2, 5)
    ensures Fixed(b0, 2, 5) == "11111" <==> b0 % 32 == 31
  {
    var f := Fixed(b0, 2, 8);
    assert f[..3] == Fixed(b0 / 32, 2, 3) && f[3..] == Fixed(b0, 2, 5) by {
      assert Pow(2, 5) == 32;
      FixedSplit(b0, 2, 3, 5, b0 / 32);
    }
    assert Substring(f, 2, 3) == [DigitChar((b0 / 32) % 2)] by {
      assert Fixed(b0 / 32, 2, 3) == Fixed(b0 / 32 / 2, 2, 2) + [DigitChar((b0 / 32) % 2)];
    }
    assert DigitChar(0) == '0' && DigitChar(1) == '1';
    LowFive(b0, "11111");
  }

  /** The low five bits read `11111` exactly when the octet is 31 modulo 32. */
  lemma LowFive(b0: nat, ones: string)
    requires ones == "11111"
    ensures Fixed(b0, 2, 5) == ones <==> b0 % 32 == 31
  {
    assert Value(ones, 2) == 31 by {
      assert DigitValue('1') == 1;
      assert forall k :: 0 <= k < 5 ==> ones[k] == '1';
      assert ones[..1][..0] == [];
      assert Value(ones[..1], 2) == 1;
      assert ones[..2][..1] == ones[..1];
      assert Value(ones[..2], 2) == 3;
      assert ones[..3][..2] == ones[..2];
      assert Value(ones[..3], 2) == 7;
      assert ones[..4][..3] == ones[..3];
      assert Value(ones[..4], 2) == 15;
      assert ones[..5] == ones;
    }
    assert Value(Fixed(b0, 2, 5), 2) == b0 % 32 by {
      ValueFixed(b0, 2, 5);
      assert Pow(2, 5) == 32;
    }
    if b0 % 32 == 31 {
      ValueInjective(Fixed(b0, 2, 5), ones, 2);
    }
  }

  /** The constructed flag is bit 0x20 of the first octet. */
  lemma ReadTagConstructed(data: string)
    ensures ReadTag(data).constructed <==> (FirstOctet(data) / 32) % 2 == 1
  {
    InitialBits(data);
    OctetFields(FirstOctet(data));
  }

  /** Padding the binary rendering of `sub` to four bits per character gives its
      fixed-width rendering. */
  lemma PaddedWide(sub: string, limit: nat)
    requires CheckHex(sub) && |sub| <= limit
    ensures PaddedBits(sub, 4 * limit) == Fixed(Value(sub, 16), 2, 4 * limit)
  {
    var v := Value(sub, 16);
    assert v < Pow(2, 4 * limit) by {
      CheckAlphabets(sub);
      ValueBound(sub, 16);
      PowMonotone(16, |sub|, limit);
      Pow16(limit);
    }
    PadToRadix(v, 2, 4 * limit);
  }

  /** A binary string that passes the check renders its value in hex. */
  lemma BitsToHex(bits: string)
    requires LowerDigits(bits, 2) && 1 <= |bits| <= 64
    ensures Bin2Hex(bits) == Some(ToRadix(Value(bits, 2), 16))
  {
    BinaryDigits(bits);
  }

  /** Lower-case binary digits are exactly what `CheckBin` accepts, up to length. */
  lemma BinaryDigits(bits: string)
    requires LowerDigits(bits, 2) && 1 <= |bits| <= 64
    ensures CheckBin(bits)
  {
    forall i | 0 <= i < |bits| ensures bits[i] == '0' || bits[i] == '1' {
      assert IsDigit(bits[i], 2);
    }
  }

  /** The value of the three class-and-constructed bits followed by `rest`. */
  lemma TopBitsValue(b0: nat, rest: string)
    requires b0 < 256
    ensures Value(Fixed(b0 / 32, 2, 3) + rest, 2) == b0 / 32 * Pow(2, |rest|) + Value(rest, 2)
  {
    ValueConcat(Fixed(b0 / 32, 2, 3), rest, 2);
    ValueFixed(b0 / 32, 2, 3);
    assert Pow(2, 3) == 8;
    DivModUnique(b0 / 32, 8, 0, b0 / 32);
  }

  /** The emitted tag is the rendering of `TagValue`. */
  lemma ReadTagValue(data: string)
    ensures ReadTag(data).tag == TagText(TagValue(data))
  {
    TagBitsValue(data);
  }

  /** The identifier bits render as the hex of `TagValue`. */
  lemma TagBitsValue(data: string)
    ensures Bin2Hex(TagBits(data)) == Render(TagValue(data))
  {
    var b0 := FirstOctet(data);
    OctetFields(b0);
    if b0 % 32 != 31 {
      LowTagBits(data);
      LowTagNumber(b0);
    } else {
      var limit := TagLimitFrom(data, 2);
      HighTagBitsOf(data);
      HighTagBits(b0, Substring(data, 0, limit), limit);
    }
  }

  /** A first octet whose low five bits are not all set is the whole identifier. */
  lemma LowTagBits(data: string)
    requires FirstOctet(data) % 32 != 31
    ensures TagBits(data) == Fixed(FirstOctet(data), 2, 8)
  {
    var b0 := FirstOctet(data);
    var f := Fixed(b0, 2, 8);
    InitialBits(data);
    OctetFields(b0);
    ShortTagBits(data, f);
    SubstringParts(f, 2, 3);
  }

  /** Without the `11111` marker the identifier bits are the first octet's three fields. */
  lemma ShortTagBits(data: string, bin: string)
    requires InitialTagBits(data) == bin && Substring(bin, 3, 8) != "11111"
    ensures TagBits(data) == Substring(bin, 0, 2) + Substring(bin, 2, 3) + Substring(bin, 3, 8)
  {
  }

  /** In the high-tag-number form the bits are the first octet's top three and
      then all but the top three of the consumed octets. */
  lemma HighTagBitsOf(data: string)
    requires FirstOctet(data) % 32 == 31
    ensures var limit := TagLimitFrom(data, 2);
      TagBits(data) == Fixed(FirstOctet(data) / 32, 2, 3)
        + Substring(PaddedBits(Substring(data, 0, limit), 4 * limit), 3, 4 * limit)
  {
    var b0 := FirstOctet(data);
    InitialBits(data);
    OctetFields(b0);
    var limit := TagLimitFrom(data, 2);
    TagLimitEven(data, 2);
    EvenHalf(limit);
  }

  /** With no further bits, the tag is the top three bits of the first octet. */
  lemma TopBitsOnly(b0: nat)
    requires b0 < 256
    ensures Bin2Hex(Fixed(b0 / 32, 2, 3)) == Some(ToRadix(b0 / 32, 16))
  {
    TopBitsValue(b0, "");
    assert Fixed(b0 / 32, 2, 3) + "" == Fixed(b0 / 32, 2, 3);
    BitsToHex(Fixed(b0 / 32, 2, 3));
  }

  /** A single-octet identifier keeps all eight bits. */
  lemma LowTagNumber(b0: nat)
    requires b0 < 256
    ensures Bin2Hex(Fixed(b0, 2, 8)) == Some(ToRadix(b0, 16))
  {
    BitsToHex(Fixed(b0, 2, 8));
    ValueFixed(b0, 2, 8);
    assert Pow(2, 8) == 256;
    DivModUnique(b0, 256, 0, b0);
  }

  /** The high-tag-number bits: the first octet's top three bits, then all but
      the top three bits of the consumed octets. */
  lemma HighTagBits(b0: nat, sub: string, limit: nat)
    requires b0 < 256 && |sub| <= limit && limit >= 1
    ensures Bin2Hex(Fixed(b0 / 32, 2, 3) + Substring(PaddedBits(sub, 4 * limit), 3, 4 * limit))
      == Render(HighTagValue(b0, sub, limit))
  {
    if CheckHex(sub) {
      HighTagBitsHex(b0, sub, limit);
      assert Render(HighTagValue(b0, sub, limit)) == HexRendering(b0, sub, limit);
    } else {
      HighTagBitsPlain(b0, sub, limit);
    }
  }

  /** `Render(HighTagValue(b0, sub, limit))` for hex `sub`, spelt out. */
  function HexRendering(b0: nat, sub: string, limit: nat): Option<string>
    requires limit >= 1
  {
    if 4 * limit <= 64
    then Some(ToRadix(Value(Fixed(b0 / 32, 2, 3) + Fixed(Value(sub, 16), 2, 4 * limit - 3), 2), 16))
    else None
  }

  lemma HighTagBitsPlain(b0: nat, sub: string, limit: nat)
    requires b0 < 256 && |sub| <= limit && limit >= 1 && !CheckHex(sub)
    ensures Bin2Hex(Fixed(b0 / 32, 2, 3) + Substring(PaddedBits(sub, 4 * limit), 3, 4 * limit))
      == Render(HighTagValue(b0, sub, limit))
  {
    assert Substring(PaddedBits(sub, 4 * limit), 3, 4 * limit) == "";
    TopBitsOnly(b0);
    assert Fixed(b0 / 32, 2, 3) + "" == Fixed(b0 / 32, 2, 3);
  }

  lemma HighTagBitsHex(b0: nat, sub: string, limit: nat)
    requires b0 < 256 && |sub| <= limit && limit >= 1 && CheckHex(sub)
    ensures Bin2Hex(Fixed(b0 / 32, 2, 3) + Substring(PaddedBits(sub, 4 * limit), 3, 4 * limit))
      == HexRendering(b0, sub, limit)
  {
    var v := Value(sub, 16);
    var w := 4 * limit - 3;
    NumberBits(sub, limit);
    var bits := Fixed(b0 / 32, 2, 3) + Fixed(v, 2, w);
    if 4 * limit <= 64 {
      assert Bin2Hex(bits) == Some(ToRadix(Value(bits, 2), 16)) by {
        assert LowerDigits(bits, 2);
        BitsToHex(bits);
      }
    } else {
      assert |bits| > 64;
    }
  }

  /** All but the top three of the padded bits of hex `sub`. */
  lemma NumberBits(sub: string, limit: nat)
    requires |sub| <= limit && limit >= 1 && CheckHex(sub)
    ensures Substring(PaddedBits(sub, 4 * limit), 3, 4 * limit) == Fixed(Value(sub, 16), 2, 4 * limit - 3)
  {
    var v := Value(sub, 16);
    PaddedWide(sub, limit);
    FixedLow(v, 2, 3, 4 * limit - 3);
  }

  /** The tag text announces the same constructed flag the decoder used,
      whenever it has at least two characters. */
  lemma TagConstructedBit(data: string)
    ensures |ReadTag(data).tag| >= 2 ==> (ConstructedTag(ReadTag(data).tag) <==> ReadTag(data).constructed)
  {
    ReadTagValue(data);
    ReadTagConstructed(data);
    TagTextPrefix(data);
  }

  lemma TagTextPrefix(data: string)
    ensures var tag := TagText(TagValue(data));
      |tag| >= 2 ==> (Value(tag[..2], 16) / 32) % 2 == (FirstOctet(data) / 32) % 2
  {
    var b0 := FirstOctet(data);
    if b0 % 32 != 31 {
      SingleOctetPrefix(b0);
    } else {
      var limit := TagLimitFrom(data, 2);
      var sub := Substring(data, 0, limit);
      if b0 == 31 && CheckHex(sub) {
        FirstOctetText(data);
        assert sub[..2] == data[..2];
      }
      HighPrefix(b0, sub, limit);
    }
  }

  /** The high-tag-number case of `TagTextPrefix`. */
  lemma HighPrefix(b0: nat, sub: string, limit: nat)
    requires b0 < 256 && b0 % 32 == 31 && |sub| <= limit && limit >= 2
    requires b0 == 31 && CheckHex(sub) ==> |sub| >= 2 && Value(sub[..2], 16) == 31
    ensures var tag := TagText(HighTagValue(b0, sub, limit));
      |tag| >= 2 ==> (Value(tag[..2], 16) / 32) % 2 == (b0 / 32) % 2
  {
    if !CheckHex(sub) {
      assert TagText(HighTagValue(b0, sub, limit)) == ToUpper(ToRadix(b0 / 32, 16));
      assert b0 / 32 < Pow(16, 1);
      ToRadixShort(b0 / 32, 16, 1);
    } else if 4 * limit <= 64 {
      HighPrefixHex(b0, sub, limit);
    } else {
      assert TagText(HighTagValue(b0, sub, limit)) == "";
    }
  }

  lemma HighPrefixHex(b0: nat, sub: string, limit: nat)
    requires b0 < 256 && b0 % 32 == 31 && |sub| <= limit && limit >= 2
    requires CheckHex(sub) && 4 * limit <= 64
    requires b0 == 31 ==> |sub| >= 2 && Value(sub[..2], 16) == 31
    ensures var tag := TagText(HighTagValue(b0, sub, limit));
      |tag| >= 2 && (Value(tag[..2], 16) / 32) % 2 == (b0 / 32) % 2
  {
    var top := b0 / 32;
    var v := Value(sub, 16);
    var w := 4 * limit - 3;
    var n := top * Pow(2, w) + v % Pow(2, w);
    var r := ToRadix(n, 16);
    assert HighTagValue(b0, sub, limit) == Some(n) by {
      TopAndLow(top, v, w);
    }
    assert TagText(Some(n)) == ToUpper(r);
    assert top >= 1 || (|sub| >= 2 && Value(sub[..2], 16) == 31) by {
      assert top == 0 ==> b0 == 31;
    }
    assert |r| >= 2 && (Value(r[..2], 16) / 32) % 2 == top % 2 by {
      HighPrefixRender(top, sub, limit, n);
    }
    UpperPrefix(r);
  }

  /** The first octet of the rendered high-tag-number value keeps the
      constructed bit `top % 2`. */
  lemma HighPrefixRender(top: nat, sub: string, limit: nat, n: nat)
    requires top < 8 && CheckHex(sub) && |sub| <= limit && limit >= 2
    requires top >= 1 || (|sub| >= 2 && Value(sub[..2], 16) == 31)
    requires n == top * Pow(2, 4 * limit - 3) + Value(sub, 16) % Pow(2, 4 * limit - 3)
    ensures var r := ToRadix(n, 16); |r| >= 2 && (Value(r[..2], 16) / 32) % 2 == top % 2
  {
    if top >= 1 {
      HighTopPrefix(top, Value(sub, 16), limit, n);
    } else {
      assert top * Pow(2, 4 * limit - 3) == 0;
      HighZeroPrefix(sub, limit, n);
    }
  }

  /** Upper-casing does not change the value of the first two digits. */
  lemma UpperPrefix(r: string)
    requires |r| >= 2
    ensures Value(ToUpper(r)[..2], 16) == Value(r[..2], 16)
  {
    ValueCase(r[..2], 16);
    assert ToUpper(r)[..2] == ToUpper(r[..2]);
  }

  /** A first octet of 0x1F comes from two hex characters. */
  lemma FirstOctetText(data: string)
    requires FirstOctet(data) >= 16
    ensures |data| >= 2 && CheckHex(data[..2]) && Value(data[..2], 16) == FirstOctet(data)
  {
    ShortFirstOctet(data);
    assert Substring(data, 0, 2) == data[..2];
  }

  /** Fewer than two characters give a first octet below 0x10. */
  lemma ShortFirstOctet(data: string)
    ensures |data| < 2 ==> FirstOctet(data) < 16
  {
    var s := Substring(data, 0, 2);
    if |data| < 2 && CheckHex(s) {
      ValueBound(s, 16);
      assert Pow(16, |s|) == 16;
    }
  }

  /** A single-octet tag of two digits reads back as the octet. */
  lemma SingleOctetPrefix(b0: nat)
    requires b0 < 256
    ensures |ToUpper(ToRadix(b0, 16))| >= 2 ==> Value(ToUpper(ToRadix(b0, 16))[..2], 16) == b0
  {
    var r := ToRadix(b0, 16);
    if |r| >= 2 {
      assert Pow(16, 2) == 256;
      ToRadixShort(b0, 16, 2);
      assert ToUpper(r)[..2] == ToUpper(r);
      ValueCase(r, 16);
    }
  }

  /** The weight of the lowest of the top three bits of a `limit`-digit value,
      `2^(4 limit - 3)`, is 32 times `16^(limit - 2)`, the weight of its second digit. */
  lemma TopWeight(limit: nat)
    requires limit >= 2
    ensures Pow(2, 4 * limit - 3) == Pow(16, limit - 2) * 32
  {
    PowAdd(2, 4 * (limit - 2), 5);
    Pow16(limit - 2);
    assert Pow(2, 5) == 32;
  }

  /** The value of three top bits followed by the `w` low bits of `v`. */
  lemma TopAndLow(top: nat, v: nat, w: nat)
    requires top < 8
    ensures Value(Fixed(top, 2, 3) + Fixed(v, 2, w), 2) == top * Pow(2, w) + v % Pow(2, w)
  {
    ValueConcat(Fixed(top, 2, 3), Fixed(v, 2, w), 2);
    ValueFixed(top, 2, 3);
    assert Pow(2, 3) == 8;
    DivModUnique(top, 8, 0, top);
    ValueFixed(v, 2, w);
  }

  /** A number between `16^(k-1)` and `16^k` has exactly `k` hex digits. */
  lemma DigitCount(n: nat, k: nat)
    requires k >= 1 && Pow(16, k - 1) <= n < Pow(16, k)
    ensures |ToRadix(n, 16)| == k
  {
    ToRadixShort(n, 16, k);
    ToRadixLong(n, 16, k - 1);
  }

  /** `top * (p * 32) + low`, with `low` below `p * 32`, lies between `16 p` and `256 p`
      and its quotient by `p` has `top` above bit 5. */
  lemma TopArithmetic(top: nat, p: nat, low: nat)
    requires 1 <= top < 8 && p >= 1 && low < p * 32
    ensures p * 16 <= top * (p * 32) + low < p * 256
    ensures (top * (p * 32) + low) / p / 32 == top
  {
    var n := top * (p * 32) + low;
    MulAddBelow(top, p * 32, low, 8);
    MulAtLeast(top, p * 32);
    DivDiv(n, p, 32);
    DivModUnique(n, p * 32, top, low);
  }

  /** With a non-zero top, the rendering has `limit` digits and its first two
      digits keep the three top bits. */
  lemma HighTopPrefix(top: nat, v: nat, limit: nat, n: nat)
    requires 1 <= top < 8 && limit >= 2
    requires n == top * Pow(2, 4 * limit - 3) + v % Pow(2, 4 * limit - 3)
    ensures var r := ToRadix(n, 16); |r| == limit && Value(r[..2], 16) / 32 == top
  {
    var w := 4 * limit - 3;
    var p := Pow(16, limit - 2);
    var low := v % Pow(2, w);
    TopWeight(limit);
    assert n == top * (p * 32) + low;
    TopArithmetic(top, p, low);
    assert Pow(16, limit - 1) == p * 16 && Pow(16, limit) == p * 256 by {
      PowAdd(16, limit - 2, 1);
      PowAdd(16, limit - 2, 2);
      assert Pow(16, 2) == 256;
    }
    DigitCount(n, limit);
    ValuePrefix(ToRadix(n, 16), 2, 16);
  }

  /** A hex string led by the octet 0x1F is below `2^(4|sub| - 3)`. */
  lemma LedBy1F(sub: string)
    requires CheckHex(sub) && |sub| >= 2 && Value(sub[..2], 16) == 31
    ensures Value(sub, 16) < Pow(2, 4 * |sub| - 3)
  {
    var k := |sub|;
    var v := Value(sub, 16);
    var p := Pow(16, k - 2);
    assert v / p == 31 by {
      LeadingOctet(sub);
    }
    assert v < p * 32 by {
      BelowNextMultiple(v, p, 31);
    }
    assert Pow(2, 4 * k - 3) == p * 32 by {
      TopWeight(k);
    }
  }

  /** The leading octet of a hex string is its value divided by the weight of the rest. */
  lemma LeadingOctet(sub: string)
    requires CheckHex(sub) && |sub| >= 2
    ensures Value(sub[..2], 16) == Value(sub, 16) / Pow(16, |sub| - 2)
  {
    CheckAlphabets(sub);
    ValuePrefix(sub, 2, 16);
  }

  /** A number whose quotient by `p` is `q` is below `(q + 1) * p`. */
  lemma BelowNextMultiple(v: nat, p: nat, q: nat)
    requires p > 0 && v / p == q
    ensures v < p * (q + 1)
  {
    DivMod(v, p);
    MulAddBelow(q, p, v % p, q + 1);
  }

  /** `LedBy1F` for a field of `limit` characters. */
  lemma LedBy1FWithin(sub: string, limit: nat)
    requires CheckHex(sub) && 2 <= |sub| <= limit && Value(sub[..2], 16) == 31
    ensures Value(sub, 16) < Pow(2, 4 * limit - 3)
  {
    LedBy1F(sub);
    PowMonotone(2, 4 * |sub| - 3, 4 * limit - 3);
  }

  /** With top bits zero (first octet 0x1F), the value is that of `sub` itself
      and renders as `sub` lower-cased. */
  lemma HighZeroPrefix(sub: string, limit: nat, n: nat)
    requires CheckHex(sub) && 2 <= |sub| <= limit && Value(sub[..2], 16) == 31
    requires n == Value(sub, 16) % Pow(2, 4 * limit - 3)
    ensures var r := ToRadix(n, 16); |r| >= 2 && Value(r[..2], 16) == 31
  {
    var v := Value(sub, 16);
    var p := Pow(2, 4 * limit - 3);
    LedBy1FWithin(sub, limit);
    DivModUnique(v, p, 0, v);
    RenderLedBy1F(sub);
  }

  /** A hex string led by the octet 0x1F renders back with that lead. */
  lemma RenderLedBy1F(sub: string)
    requires CheckHex(sub) && |sub| >= 2 && Value(sub[..2], 16) == 31
    ensures var r := ToRadix(Value(sub, 16), 16);
      |r| >= 2 && Value(r[..2], 16) == 31
  {
    assert DigitValue(sub[0]) != 0 by {
      assert sub[..2][..1] == [sub[0]];
      assert [sub[0]][..0] == [];
    }
    CheckAlphabets(sub);
    ToRadixOfValue(sub, 16);
    assert ToLower(sub)[..2] == ToLower(sub[..2]);
    ValueCase(sub[..2], 16);
  }
}
