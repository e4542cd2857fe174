/** What the card reader's pure parts promise: byte/hex conversion round trips,
    the AID scan on hex input, the SELECT command's octets, the record
    extractors on the templates cards send, and the order in which a read
    fails. */
module ScannerProps {
  import opened Options
  import opened Text
  import opened Arith
  import opened Radix
  import opened Js
  import opened Types
  import opened Tlv
  import opened TlvProps
  import opened Scanner

  // ---- hex and bytes ----

  /** A number in 0..255 is written as its two upper-case hex digits. */
  lemma ByteHexOfByte(b: int)
    requires 0 <= b < 256
    ensures ByteHex(b) == ToUpper(Fixed(b, 16, 2))
  {
    var r := ToRadix(b, 16);
    var u := ToUpper(r);
    var x := "00" + u;
    assert |r| <= 2 && Zeros(2 - |r|) + r == Fixed(b, 16, 2) by {
      assert Pow(16, 2) == 16 * Pow(16, 1) == 256;
      PadToRadix(b, 16, 2);
    }
    assert ByteHex(b) == x[|x| - 2..] by {
      assert RenderHex(b) == r;
    }
    assert ToUpper(Fixed(b, 16, 2)) == ToUpper(Zeros(2 - |r|)) + u by {
      UpperConcat(Zeros(2 - |r|), r);
    }
    if |r| == 1 {
      assert ToUpper(Zeros(1)) == "0";
      assert x[|x| - 2..] == "0" + u;
    } else {
      assert ToUpper(Zeros(2 - |r|)) == "";
      assert x[|x| - 2..] == u;
    }
  }

  /** A pair of hex digits reads back as its value. */
  lemma PairOfByte(b: int)
    requires 0 <= b < 256
    ensures AllHex(ByteHex(b)) && PairHead(ByteHex(b)) == [b]
  {
    ByteHexOfByte(b);
    PairOfFixed(b);
  }

  lemma PairOfFixed(b: int)
    requires 0 <= b < 256
    ensures AllHex(ToUpper(Fixed(b, 16, 2))) && PairHead(ToUpper(Fixed(b, 16, 2))) == [b]
  {
    var h := ToUpper(Fixed(b, 16, 2));
    assert Pow(16, 2) == 16 * Pow(16, 1) == 256;
    UpperFixed(b, 16, 2);
    PairHeadHex(h);
  }

  /** Bytes written by `toHexString` are read back by `toByteArray`. */
  lemma {:induction false} BytesRoundTrip(bs: seq<int>)
    requires forall i :: 0 <= i < |bs| ==> 0 <= bs[i] < 256
    ensures ToByteArray(ToHexString(bs)) == bs
    decreases |bs|
  {
    if |bs| > 0 {
      BytesRoundTrip(bs[1..]);
      Twice(|bs| - 1);
      ByteThenRest(bs[0], ToHexString(bs[1..]), bs[1..]);
      assert bs == [bs[0]] + bs[1..];
    }
  }

  lemma Twice(k: nat)
    ensures (2 * k) % 2 == 0
  {
  }

  /** One step of `BytesRoundTrip`: a byte written in front of an even-length
      string that reads as `bs`. */
  lemma ByteThenRest(b: int, rest: string, bs: seq<int>)
    requires 0 <= b < 256
    requires |rest| % 2 == 0 && ToByteArray(rest) == bs
    ensures ToByteArray(ByteHex(b) + rest) == [b] + bs
  {
    PairOfByte(b);
    RoundTripStep(ByteHex(b), rest, b, bs);
  }

  /** A pair that reads as `b` in front of an even-length string that reads as `bs`. */
  lemma RoundTripStep(first: string, rest: string, b: int, bs: seq<int>)
    requires |first| == 2 && PairHead(first) == [b]
    requires |rest| % 2 == 0 && ToByteArray(rest) == bs
    ensures ToByteArray(first + rest) == [b] + bs
  {
    PairBytesCons(first, rest);
    assert ToByteArray(rest) == PairBytes(rest);
    assert ToByteArray(first + rest) == PairBytes(first + rest);
  }

  /** Even-length hex read by `toByteArray` and written back by `toHexString`
      comes out upper-cased and otherwise unchanged. */
  lemma {:induction false} HexRoundTrip(h: string)
    requires AllHex(h) && |h| % 2 == 0
    ensures ToHexString(ToByteArray(h)) == ToUpper(h)
    decreases |h|
  {
    if |h| > 0 {
      var pair := h[..2];
      var v := Value(pair, 16);
      assert AllDigits(pair, 16);
      assert ToByteArray(h) == PairBytes(h);
      assert h == pair + h[2..];
      PairBytesCons(pair, h[2..]);
      PairHeadHex(pair);
      assert PairBytes(h) == [v] + PairBytes(h[2..]);
      assert ToByteArray(h[2..]) == PairBytes(h[2..]);
      HexRoundTrip(h[2..]);
      assert v < 256 by {
        ValueBound(pair, 16);
        assert Pow(16, 2) == 16 * Pow(16, 1) == 256;
      }
      ByteHexOfByte(v);
      FixedOfValue(pair, 16);
      UpperOfLower(pair);
      assert ([v] + PairBytes(h[2..]))[1..] == PairBytes(h[2..]);
      UpperConcat(pair, h[2..]);
      assert h == pair + h[2..];
    }
  }

  /** An odd number of hex digits starts with a half octet. */
  lemma OddHex(h: string)
    requires AllHex(h) && |h| % 2 == 1
    ensures ToByteArray(h) == [DigitValue(h[0])] + ToByteArray(h[1..])
  {
    var n := "0" + h;
    assert AllHex(n);
    assert n[..2] == ['0', h[0]];
    TwoDigits(n[..2]);
    assert n[2..] == h[1..];
    assert n == n[..2] + n[2..];
    PairBytesCons(n[..2], n[2..]);
    assert ToByteArray(h[1..]) == PairBytes(h[1..]);
  }

  /** `toHexString` of bytes is upper-case hex. */
  lemma {:induction false} HexStringIsUpper(bs: seq<int>)
    requires forall i :: 0 <= i < |bs| ==> 0 <= bs[i] < 256
    ensures UpperHex(ToHexString(bs))
    decreases |bs|
  {
    if |bs| > 0 {
      HexStringIsUpper(bs[1..]);
      ByteHexOfByte(bs[0]);
      var f := Fixed(bs[0], 16, 2);
      assert UpperHex(ToUpper(f));
    }
  }

  // ---- parseInt on a pair ----

  /** The case analysis of `ParsePair` is `parseInt(pair, 16)` on every string
      of at most two characters. */
  lemma ParsePairIsParseInt(pair: string)
    requires |pair| <= 2
    ensures ParsePair(pair) == ParseInt16(pair)
  {
    if |pair| == 1 {
      OneChar(pair);
    } else if |pair| == 2 {
      if IsWhitespace(pair[0]) {
        WhitespaceFirst(pair);
      } else if pair[0] == '-' || pair[0] == '+' {
        SignFirst(pair);
      } else {
        TwoChars(pair);
      }
    }
  }

  lemma OneDigit(s: string)
    requires |s| == 1
    ensures Value(s, 16) == DigitValue(s[0])
  {
    assert s[..0] == [];
  }

  lemma OneChar(pair: string)
    requires |pair| == 1
    ensures ParsePair(pair) == ParseInt16(pair)
  {
    OneDigit(pair);
    if IsWhitespace(pair[0]) {
      WhitespaceIsNotText(pair[0]);
      assert pair[1..] == [];
    }
  }

  lemma WhitespaceFirst(pair: string)
    requires |pair| == 2 && IsWhitespace(pair[0])
    ensures ParsePair(pair) == ParseInt16(pair)
  {
    var rest := pair[1..];
    WhitespaceIsNotText(pair[0]);
    assert ParseInt16(pair) == ParseInt16(rest);
    OneDigit(rest);
    if IsWhitespace(rest[0]) {
      WhitespaceIsNotText(rest[0]);
      assert ParseInt16(rest) == ParseInt16(rest[1..]);
      assert rest[1..] == [];
    } else {
      assert ParseInt16(rest) == ParseTrimmed(rest);
      HexPrefixSpec(rest);
      if IsHexDigit(rest[0]) {
        assert HexPrefix(rest) == rest;
      } else {
        assert HexRun(rest) == 0;
      }
    }
  }

  lemma SignFirst(pair: string)
    requires |pair| == 2 && (pair[0] == '-' || pair[0] == '+')
    ensures ParsePair(pair) == ParseInt16(pair)
  {
    var rest := pair[1..];
    assert !IsWhitespace(pair[0]) by {
      if IsWhitespace(pair[0]) {
        WhitespaceIsNotText(pair[0]);
      }
    }
    assert ParseInt16(pair) == ParseTrimmed(pair);
    OneDigit(rest);
    HexPrefixSpec(rest);
    if IsHexDigit(rest[0]) {
      assert HexPrefix(rest) == rest;
    } else {
      assert HexRun(rest) == 0;
    }
  }

  lemma TwoChars(pair: string)
    requires |pair| == 2 && !IsWhitespace(pair[0]) && pair[0] != '-' && pair[0] != '+'
    ensures ParsePair(pair) == ParseInt16(pair)
  {
    assert ParseInt16(pair) == ParseTrimmed(pair);
    if pair[0] == '0' && (pair[1] == 'x' || pair[1] == 'X') {
      assert HexRun(pair[2..]) == 0;
    } else {
      HexPrefixSpec(pair);
      if IsHexDigit(pair[0]) && IsHexDigit(pair[1]) {
        assert HexPrefix(pair) == pair;
        TwoDigits(pair);
      } else if IsHexDigit(pair[0]) {
        assert HexRun(pair[1..]) == 0;
        assert HexPrefix(pair) == pair[..1];
        OneDigit(pair[..1]);
      } else {
        assert HexRun(pair) == 0;
      }
    }
  }

  // ---- card schemes ----

  /** An AID whose first ten characters, upper-cased, are `rid`. */
  lemma UpperStarts(aid: string, rid: string)
    requires |rid| == 10 && |aid| >= 10 && ToUpper(aid[..10]) == rid
    ensures StartsWith(ToUpper(aid), rid)
  {
    assert ToUpper(aid)[..10] == ToUpper(aid[..10]);
  }

  /** The scheme test vectors: Visa. */
  lemma VisaVectors(a: string, b: string, c: string)
    requires a == "A0000000031010" && b == "A0000000032010" && c == "a0000000031010"
    ensures GetCardSchemeFromAid(a) == Some(Visa)
    ensures GetCardSchemeFromAid(b) == Some(Visa)
    ensures GetCardSchemeFromAid(c) == Some(Visa)
  {
    UpperStarts(a, "A000000003");
    UpperStarts(b, "A000000003");
    UpperStarts(c, "A000000003");
  }

  /** The scheme test vectors: Mastercard. */
  lemma MastercardVectors(a: string, b: string, c: string)
    requires a == "A0000000041010" && b == "A0000000049999" && c == "a0000000041010"
    ensures GetCardSchemeFromAid(a) == Some(Mastercard)
    ensures GetCardSchemeFromAid(b) == Some(Mastercard)
    ensures GetCardSchemeFromAid(c) == Some(Mastercard)
  {
    UpperStarts(a, "A000000004");
    UpperStarts(b, "A000000004");
    UpperStarts(c, "A000000004");
  }

  /** The scheme test vectors: JCB, American Express, UnionPay. */
  lemma OtherSchemeVectors(jcb: string, amex: string, unionPay: string)
    requires jcb == "A0000000651010" && amex == "A0000000250000" && unionPay == "A0000003330101"
    ensures GetCardSchemeFromAid(jcb) == Some(Jcb)
    ensures GetCardSchemeFromAid(amex) == Some(Amex)
    ensures GetCardSchemeFromAid(unionPay) == Some(UnionPay)
  {
    UpperStarts(jcb, "A000000065");
    UpperStarts(amex, "A000000025");
    UpperStarts(unionPay, "A000000333");
  }

  /** The scheme test vectors: the three Discover identifiers. */
  lemma DiscoverVectors(a: string, b: string, c: string)
    requires a == "A0000001523010" && b == "A0000003241010" && c == "A0000004440101"
    ensures GetCardSchemeFromAid(a) == Some(Discover)
    ensures GetCardSchemeFromAid(b) == Some(Discover)
    ensures GetCardSchemeFromAid(c) == Some(Discover)
  {
    assert a[..10] == "A000000152";
    assert b[..10] == "A000000324";
    assert c[..10] == "A000000444";
  }

  /** An AID that does not start with `A` (in either case) has no scheme. */
  lemma NoRid(aid: string)
    requires |aid| == 0 || UpperChar(aid[0]) != 'A'
    ensures GetCardSchemeFromAid(aid) == None
  {
    var upper := ToUpper(aid);
    assert |aid| == 0 || aid[0] != 'A';
    NotStarting(upper, "A000000003");
    NotStarting(upper, "A000000004");
    NotStarting(upper, "A000000065");
    NotStarting(upper, "A000000025");
    NotStarting(upper, "A000000333");
    NotStarting(aid, "A000000152");
    NotStarting(aid, "A000000324");
    NotStarting(aid, "A000000444");
  }

  /** A string whose first character differs from the prefix's does not start with it. */
  lemma NotStarting(s: string, prefix: string)
    requires |prefix| > 0 && prefix[0] == 'A' && (|s| == 0 || s[0] != 'A')
    ensures !StartsWith(s, prefix)
  {
    if |prefix| <= |s| {
      assert s[..|prefix|][0] == s[0];
    }
  }

  /** The unknown-AID test vectors. */
  lemma UnknownVectors(unknown: string, empty: string)
    requires unknown == "B000000000" && empty == ""
    ensures GetCardSchemeFromAid(unknown) == None
    ensures GetCardSchemeFromAid(empty) == None
  {
    NoRid(unknown);
    NoRid(empty);
  }

  /** A lower-case Discover AID has no scheme: the Discover identifiers are
      compared without upper-casing. */
  lemma LowerDiscoverVector(aid: string)
    requires aid == "a0000001523010"
    ensures GetCardSchemeFromAid(aid) == None
  {
    UpperStarts(aid, "A000000152");
    assert ToUpper(aid)[..10] == "A000000152";
    assert aid[0] == 'a';
  }

  // ---- the PPSE answer ----

  /** On hex input the pattern matches exactly where `4F` or `4f` starts with
      at least three more characters after it. */
  lemma MatchOnHex(s: string, p: nat)
    requires AllHex(s)
    ensures MatchAt(s, p) <==> p + 5 <= |s| && s[p] == '4' && (s[p + 1] == 'F' || s[p + 1] == 'f')
  {
  }

  /** Without a match there is no candidate. */
  lemma AidScanNone(s: string)
    requires forall q :: !MatchAt(s, q)
    ensures ExtractAidTags(s) == []
  {
    assert FindMatch(s, 0) == None;
  }

  /** On hex input (what `toHexString` produces) the only candidate comes from
      the leftmost match: the characters after the two-digit length, cut to
      twice that length, or shorter when the answer ends first. */
  lemma AidScanOnHex(s: string, p: nat, n: nat)
    requires AllHex(s)
    requires MatchAt(s, p) && forall q :: 0 <= q < p ==> !MatchAt(s, q)
    requires n == 2 * Value(s[p + 2..p + 4], 16)
    ensures ExtractAidTags(s) == [s[p + 4..if p + 4 + n <= |s| then p + 4 + n else |s|]]
  {
    var g, tail := s[p + 2..p + 4], s[p + 4..];
    assert AidChars(g) == n by {
      assert AllHex(g);
    }
    assert HexPrefix(tail) == tail by {
      HexPrefixSpec(tail);
      assert AllHex(tail);
    }
    assert ExtractFrom(s, p + 4 + |tail|) == [] by {
      assert FindMatch(s, |s|) == None;
    }
    assert FindMatch(s, 0) == Some(p);
    assert ExtractAidTags(s) == [Substring(tail, 0, n)];
    var k := if n <= |tail| then n else |tail|;
    assert Substring(tail, 0, n) == tail[..k] == s[p + 4..p + 4 + k];
  }

  /** An answer made of `4F`, a two-digit length, an AID of exactly that many
      octets and any further hex (the status word): the scan finds the AID. */
  lemma AidOfAnswer(s: string, len: string, aid: string, rest: string)
    requires s == "4F" + len + aid + rest
    requires |len| == 2 && AllHex(len) && 2 * Value(len, 16) == |aid| && |aid| >= 1
    requires AllHex(aid) && AllHex(rest)
    ensures ExtractAidTags(s) == [aid]
  {
    var f := "4F";
    assert |f| == 2 && f[0] == '4' && f[1] == 'F' && AllHex(f);
    AnswerScan(s, f, len, aid, rest);
  }

  /** `AidOfAnswer` for any two-character hex prefix `4F`. */
  lemma AnswerScan(s: string, f: string, len: string, aid: string, rest: string)
    requires s == f + len + aid + rest && |f| == 2 && f[0] == '4' && f[1] == 'F' && AllHex(f)
    requires |len| == 2 && AllHex(len) && 2 * Value(len, 16) == |aid| && |aid| >= 1
    requires AllHex(aid) && AllHex(rest)
    ensures ExtractAidTags(s) == [aid]
  {
    AnswerParts(s, f, len, aid, rest);
    assert MatchAt(s, 0) by {
      assert s[0] == s[..2][0] && s[1] == s[..2][1];
    }
    assert s[4..if 4 + |aid| <= |s| then 4 + |aid| else |s|] == aid;
    AidScanOnHex(s, 0, |aid|);
  }

  /** The pieces of an answer `f + len + aid + rest` sit where they were put. */
  lemma AnswerParts(s: string, f: string, len: string, aid: string, rest: string)
    requires s == f + len + aid + rest && |f| == 2 && |len| == 2
    requires AllHex(f) && AllHex(len) && AllHex(aid) && AllHex(rest)
    ensures |s| == 4 + |aid| + |rest| && s[..2] == f && s[2..4] == len
    ensures s[4..4 + |aid|] == aid && AllHex(s)
  {
    assert s == f + (len + (aid + rest));
  }

  /** A card's answer with one AID, `A0000000031010`, followed by the status
      word `9000`: the greedy hex run takes the status word too, and the
      announced length (`07`) cuts it off again. */
  lemma AidExample(s: string, aid: string)
    requires s == "4F07A00000000310109000" && aid == "A0000000031010"
    ensures ExtractAidTags(s) == [aid]
  {
    var len, sw := "07", "9000";
    assert Value(len, 16) == 7 by {
      TwoDigits(len);
    }
    assert s == "4F" + len + aid + sw;
    AidOfAnswer(s, len, aid, sw);
  }

  // ---- SELECT by AID ----

  /** Two hex digits read as one octet. */
  lemma PairOfDigits(pair: string)
    requires |pair| == 2 && AllHex(pair)
    ensures PairHead(pair) == [DigitValue(pair[0]) * 16 + DigitValue(pair[1])]
  {
    TwoDigits(pair);
  }

  /** The command header `00A40400` reads as the four octets class, instruction,
      P1 and P2. */
  lemma SelectHeader(h: string)
    requires h == "00A40400"
    ensures PairBytes(h) == [0x00, 0xA4, 0x04, 0x00]
  {
    var a, b, c, d := h[..2], h[2..4], h[4..6], h[6..];
    PairOfDigits(a);
    PairOfDigits(b);
    PairOfDigits(c);
    PairOfDigits(d);
    assert h[2..] == b + (c + d);
    assert h[4..] == c + d;
    PairBytesCons(a, b + (c + d));
    PairBytesCons(b, c + d);
    PairBytesCons(c, d);
    assert h == a + (b + (c + d));
  }

  /** The length field of the command: a length below 256 as two lower-case
      hex digits, which read back as that length. */
  lemma SelectLength(n: nat)
    requires n < 256
    ensures PadStart2(ToRadix(n, 16)) == Fixed(n, 16, 2)
    ensures PairHead(Fixed(n, 16, 2)) == [n]
  {
    assert Pow(16, 2) == 256 by {
      assert Pow(16, 2) == 16 * Pow(16, 1);
    }
    assert PadStart2(ToRadix(n, 16)) == Fixed(n, 16, 2) by {
      PadToRadix(n, 16, 2);
      var r := ToRadix(n, 16);
      if |r| == 2 {
        assert Zeros(0) + r == r;
      }
    }
    OctetOfFixed(n);
  }

  /** Two fixed digits of a number below 256 read back as that number. */
  lemma OctetOfFixed(n: nat)
    requires n < 256 && Pow(16, 2) == 256
    ensures PairHead(Fixed(n, 16, 2)) == [n]
  {
    var f := Fixed(n, 16, 2);
    assert AllHex(f);
    PairHeadHex(f);
    ValueFixed(n, 16, 2);
    DivModUnique(n, Pow(16, 2), 0, n);
  }

  /** The SELECT command for an even-length hex AID of at most 255 octets is
      the header, the AID's length in octets, and the AID's own octets. */
  lemma SelectCommand(aid: string)
    requires AllHex(aid) && |aid| % 2 == 0 && |aid| < 512
    ensures ToByteArray(SelectAidHex(aid)) == [0x00, 0xA4, 0x04, 0x00, |aid| / 2] + ToByteArray(aid)
  {
    var m := |aid| / 2;
    var len := Fixed(m, 16, 2);
    SelectLength(m);
    SelectHeader("00A40400");
    EvenSelect(aid, len);
    SelectParts("00A40400", len, aid, [0x00, 0xA4, 0x04, 0x00], m);
  }

  /** For an even-length AID the length field is the padded rendering of half its length. */
  lemma EvenSelect(aid: string, len: string)
    requires |aid| % 2 == 0 && len == PadStart2(ToRadix(|aid| / 2, 16))
    ensures SelectAidHex(aid) == "00A40400" + (len + aid)
  {
    assert HalfText(|aid|) == ToRadix(|aid| / 2, 16);
    assert SelectAidHex(aid) == "00A40400" + len + aid;
    Regroup3("00A40400", len, aid);
  }

  /** Octets of a command `header + (len + aid)` whose parts are pairs. */
  lemma SelectParts(header: string, len: string, aid: string, hb: seq<int>, m: int)
    requires |header| == 8 && PairBytes(header) == hb
    requires |len| == 2 && PairHead(len) == [m] && |aid| % 2 == 0
    ensures ToByteArray(header + (len + aid)) == hb + [m] + ToByteArray(aid)
  {
    PairBytesConcat(header, len + aid);
    PairBytesCons(len, aid);
    var cmd := header + (len + aid);
    assert |cmd| == 2 * (5 + |aid| / 2);
    Twice(5 + |aid| / 2);
    EvenBytes(cmd);
    EvenBytes(aid);
  }

  lemma EvenBytes(s: string)
    requires |s| % 2 == 0
    ensures ToByteArray(s) == PairBytes(s)
  {
  }

  /** An odd-length AID leaves the fraction of `(n / 2).toString(16)` in the
      command: the length field is not two hex digits. */
  lemma OddSelectCommand(aid: string)
    requires |aid| % 2 == 1
    ensures SelectAidHex(aid)[8..8 + |HalfText(|aid|)|] == HalfText(|aid|)
    ensures '.' in HalfText(|aid|)
  {
    var h := ToRadix(|aid| / 2, 16);
    assert HalfText(|aid|) == h + ".8";
    assert (h + ".8")[|h|] == '.';
  }

  // ---- expiry dates and track 2 ----

  /** The first four digits `YYMM` of a date are shown as `MM/YY`. */
  lemma ExpiryOfDate(date: string)
    requires |date| >= 4
    ensures Expiry(Substring(date, 0, 4)) == date[2..4] + "/" + date[..2]
  {
    var d := date[..4];
    assert Substring(date, 0, 4) == d;
    assert SliceFrom(d, 2) == d[2..] == date[2..4];
    assert Slice(d, 0, 2) == d[..2] == date[..2];
  }

  /** A missing date gives the bare separator. */
  lemma ExpiryOfNothing()
    ensures Expiry("") == "/"
  {
  }

  /** `MM/YY` can be read back: split at the separator and swapped, the two
      halves give the date again. */
  lemma ExpiryReadsBack(date: string)
    requires |date| == 4 && '/' !in date
    ensures var parts := Split(Expiry(date), '/');
      |parts| == 2 && parts[1] + parts[0] == date
  {
    var e := Expiry(date);
    assert e == date[2..] + "/" + date[..2];
    assert '/' !in date[2..] && '/' !in date[..2];
    SplitAt(date[2..], date[..2], '/');
    assert Split(date[..2], '/') == [date[..2]];
    assert date[..2] + date[2..] == date;
  }

  /** Splitting at the first separator. */
  lemma SplitAt(head: string, tail: string, sep: char)
    requires sep !in head
    ensures Split(head + [sep] + tail, sep) == [head] + Split(tail, sep)
  {
    var s := head + [sep] + tail;
    assert s[|head|] == sep;
    var i := IndexOf(s, sep);
    assert s[..|head|] == head;
    assert i == |head|;
    assert s[i + 1..] == tail;
  }

  /** Track 2 data `PAN D YYMM …`: the card number is the text before the
      first separator and the expiry date the four digits after it. */
  lemma TrackTwo(pan: string, tail: string)
    requires 'D' !in pan && |tail| >= 4 && 'D' !in tail[..4]
    ensures var parts := Split(pan + "D" + tail, 'D');
      |parts| >= 2 && parts[0] == pan && Substring(parts[1], 0, 4) == tail[..4]
  {
    SplitAt(pan, tail, 'D');
    var rest := Split(tail, 'D');
    assert Join(rest, 'D') == tail;
    TakeFirstPart(tail, 'D', 4);
  }

  /** The first part of a split keeps any prefix free of the separator. */
  lemma TakeFirstPart(s: string, sep: char, k: nat)
    requires k <= |s| && sep !in s[..k]
    ensures |Split(s, sep)[0]| >= k && Split(s, sep)[0][..k] == s[..k]
  {
    if sep in s {
      var i := IndexOf(s, sep);
      assert i >= k;
    }
  }
}
