/** The pure decisions of the card reader in src/scanner.ts. The NFC exchanges
    are inputs: the bytes the card answered to SELECT PPSE and the last answer
    of each of the two record-reading command sets. The dictionary the
    decoder's annotation pass reads is a parameter. */
module Scanner {
  import opened Options
  import opened Text
  import opened Arith
  import opened Radix
  import opened Js
  import opened Types
  import opened Tlv

  /** A card number and an expiry date, before the scheme is attached. */
  datatype CardRecord = CardRecord(card: string, exp: string)

  // ---- hex and bytes ----

  /** The loop of `toByteArray` with the reading of one pair as a parameter:
      every two characters from the start, a last single character alone. */
  function ReadPairs(s: string, read: string --> seq<int>): seq<int>
    requires forall p: string :: |p| <= 2 ==> read.requires(p)
    decreases |s|
  {
    if |s| <= 2 then read(s) else read(s[..2]) + ReadPairs(s[2..], read)
  }

  /** `ReadPairs` reads the first pair, then the rest. */
  lemma ReadPairsCons(pair: string, rest: string, read: string --> seq<int>)
    requires forall p: string :: |p| <= 2 ==> read.requires(p)
    requires |pair| == 2 && read("") == []
    ensures ReadPairs(pair + rest, read) == read(pair) + ReadPairs(rest, read)
  {
    var s := pair + rest;
    assert s[..2] == pair && s[2..] == rest;
    if |rest| == 0 {
      assert s == pair;
    }
  }

  /** `ReadPairs` on an even-length prefix and the rest. */
  lemma {:induction false} ReadPairsConcat(a: string, b: string, read: string --> seq<int>)
    requires forall p: string :: |p| <= 2 ==> read.requires(p)
    requires |a| % 2 == 0 && read("") == []
    ensures ReadPairs(a + b, read) == ReadPairs(a, read) + ReadPairs(b, read)
    decreases |a|
  {
    if |a| == 0 {
      assert a + b == b;
    } else {
      var p, t := a[..2], a[2..];
      ReadPairsConcat(t, b, read);
      assert a == p + t && a + b == p + (t + b);
      ReadPairsCons(p, t + b, read);
      ReadPairsCons(p, t, read);
    }
  }

  /** `ReadPairs` yields at most one number per character, and only numbers
      `read` yields. */
  lemma {:induction false} ReadPairsFrom(s: string, read: string --> seq<int>, lo: int, hi: int)
    requires forall p: string :: |p| <= 2 ==> read.requires(p)
    requires forall p: string :: |p| <= 2 ==> |read(p)| <= |p|
    requires forall p: string, i :: |p| <= 2 && 0 <= i < |read(p)| ==> lo <= read(p)[i] <= hi
    ensures |ReadPairs(s, read)| <= |s|
    ensures forall i :: 0 <= i < |ReadPairs(s, read)| ==> lo <= ReadPairs(s, read)[i] <= hi
    decreases |s|
  {
    if |s| > 2 {
      ReadPairsFrom(s[2..], read, lo, hi);
      var h, t := read(s[..2]), ReadPairs(s[2..], read);
      assert forall i :: |h| <= i < |h| + |t| ==> (h + t)[i] == t[i - |h|];
    }
  }

  /** The loop of `toByteArray`: every two characters from the start are read
      as hex, skipping the pairs `parseInt` rejects (a last single character is
      read alone). */
  function PairBytes(s: string): (bs: seq<int>)
    ensures |bs| <= |s|
    ensures forall i :: 0 <= i < |bs| ==> -15 <= bs[i] <= 255
  {
    ReadPairsFrom(s, PairHead, -15, 255);
    ReadPairs(s, PairHead)
  }

  /** `parseInt(pair, 16)` on the at most two characters the loop takes, case
      by case: a hex digit first reads one or two digits; whitespace or a sign
      first reads the second digit; `0x` alone has no digits left. `None` is
      `NaN`. `ParsePairIsParseInt` shows it agrees with `ParseInt16`. */
  function ParsePair(pair: string): (r: Option<int>)
    requires |pair| <= 2
    ensures AllHex(pair) && |pair| >= 1 ==> r == Some(Value(pair, 16))
    ensures r.Some? ==> -15 <= r.value <= 255
  {
    PairDigits(pair);
    if |pair| == 0 then None
    else if |pair| == 2 && pair[0] == '0' && (pair[1] == 'x' || pair[1] == 'X') then None
    else if IsHexDigit(pair[0]) then
      Some(if |pair| == 2 && IsHexDigit(pair[1]) then DigitValue(pair[0]) * 16 + DigitValue(pair[1])
           else DigitValue(pair[0]))
    else if |pair| == 2 && IsHexDigit(pair[1]) && (IsWhitespace(pair[0]) || pair[0] == '+') then
      Some(DigitValue(pair[1]))
    else if |pair| == 2 && IsHexDigit(pair[1]) && pair[0] == '-' then Some(-(DigitValue(pair[1]) as int))
    else None
  }

  /** One pair read by `parseInt(pair, 16)`; a pair it rejects contributes nothing. */
  function PairHead(pair: string): (bs: seq<int>)
    requires |pair| <= 2
    ensures |bs| <= |pair| && |bs| <= 1
    ensures |bs| == 1 ==> -15 <= bs[0] <= 255
  {
    match ParsePair(pair)
    case Some(v) => [v]
    case None => []
  }

  /** On one or two hex digits, the pair reads as its value. */
  lemma PairHeadHex(pair: string)
    requires |pair| <= 2 && AllHex(pair) && |pair| >= 1
    ensures PairHead(pair) == [Value(pair, 16)]
  {
  }

  /** The value of one or two hex digits. */
  lemma PairDigits(pair: string)
    requires |pair| <= 2
    ensures |pair| == 2 ==> Value(pair, 16) == DigitValue(pair[0]) * 16 + DigitValue(pair[1])
    ensures |pair| == 1 ==> Value(pair, 16) == DigitValue(pair[0])
  {
    if |pair| == 2 {
      TwoDigits(pair);
    } else if |pair| == 1 {
      assert pair[..0] == [];
    }
  }

  /** On hex input every pair gives one octet, its value. */
  lemma {:induction false} PairsOfHex(s: string)
    requires |s| % 2 == 0 && AllHex(s)
    ensures |PairBytes(s)| == |s| / 2
    ensures forall i :: 0 <= i < |s| / 2 ==> PairBytes(s)[i] == Value(s[2 * i..2 * i + 2], 16)
    ensures forall i :: 0 <= i < |s| / 2 ==> 0 <= PairBytes(s)[i] < 256
    decreases |s|
  {
    if |s| > 0 {
      var pair := s[..2];
      PairsOfHex(s[2..]);
      PairHeadHex(pair);
      assert s == pair + s[2..];
      PairBytesCons(pair, s[2..]);
      assert Value(pair, 16) < 256 by {
        assert AllDigits(pair, 16);
        ValueBound(pair, 16);
        assert Pow(16, 2) == 16 * Pow(16, 1) == 256;
      }
      forall i | 1 <= i < |s| / 2
        ensures PairBytes(s)[i] == Value(s[2 * i..2 * i + 2], 16)
      {
        assert s[2..][2 * (i - 1)..2 * (i - 1) + 2] == s[2 * i..2 * i + 2];
      }
    }
  }

  /** `PairBytes` reads the first pair, then the rest. */
  lemma PairBytesCons(pair: string, rest: string)
    requires |pair| == 2
    ensures PairBytes(pair + rest) == PairHead(pair) + PairBytes(rest)
  {
    ReadPairsCons(pair, rest, PairHead);
  }

  /** `PairBytes` on an even-length prefix and the rest. */
  lemma PairBytesConcat(a: string, b: string)
    requires |a| % 2 == 0
    ensures PairBytes(a + b) == PairBytes(a) + PairBytes(b)
  {
    ReadPairsConcat(a, b, PairHead);
  }

  /** `toByteArray`: an odd-length string gets a leading `0`, then every pair is
      read as hex. */
  function ToByteArray(hex: string): (bs: seq<int>)
    ensures |bs| <= |hex| + 1
  {
    var normalized := if |hex| % 2 == 0 then hex else "0" + hex;
    PairBytes(normalized)
  }

  /** `toByteArray` yields numbers between -15 and 255; on hex input, one octet
      per pair of characters. */
  lemma ByteArrayRange(hex: string)
    ensures var bs := ToByteArray(hex);
      forall i :: 0 <= i < |bs| ==> -15 <= bs[i] <= 255
    ensures var bs := ToByteArray(hex);
      AllHex(hex) ==> |bs| == (|hex| + 1) / 2 && forall i :: 0 <= i < |bs| ==> 0 <= bs[i] < 256
  {
    var normalized := if |hex| % 2 == 0 then hex else "0" + hex;
    if AllHex(hex) {
      assert AllHex(normalized);
      PairsOfHex(normalized);
    }
  }

  /** `n.toString(16)` for any integer: a minus sign before the digits of a
      negative number. */
  function RenderHex(n: int): string {
    if n < 0 then "-" + ToRadix(-n, 16) else ToRadix(n, 16)
  }

  /** The two characters `toHexString` writes for one number. */
  function ByteHex(b: int): (h: string)
    ensures |h| == 2
  {
    SliceFrom("00" + ToUpper(RenderHex(b)), -2)
  }

  /** `toHexString`: the two-character renderings of the numbers, in order. */
  function ToHexString(bs: seq<int>): (h: string)
    ensures |h| == 2 * |bs|
  {
    if |bs| == 0 then "" else ByteHex(bs[0]) + ToHexString(bs[1..])
  }

  // ---- the PPSE answer ----

  /** ECMA-262 LineTerminator code points, which `.` in a regular expression does not match. */
  predicate IsLineTerminator(c: char) {
    c == '\n' || c == '\r' || c == '\U{2028}' || c == '\U{2029}'
  }

  /** `/4F(..)([A-Fa-f0-9]+)/i` matches at `p`. */
  predicate MatchAt(s: string, p: nat) {
    p + 5 <= |s| && s[p] == '4' && (s[p + 1] == 'F' || s[p + 1] == 'f')
    && !IsLineTerminator(s[p + 2]) && !IsLineTerminator(s[p + 3]) && IsHexDigit(s[p + 4])
  }

  /** The leftmost match at or after `from`: what `exec` finds from `lastIndex`. */
  function FindMatch(s: string, from: nat): (p: Option<nat>)
    ensures p.Some? ==> (from <= p.value && MatchAt(s, p.value)
      && forall q :: from <= q < p.value ==> !MatchAt(s, q))
    ensures p.None? ==> forall q :: from <= q ==> !MatchAt(s, q)
    decreases |s| - from
  {
    if from + 5 > |s| then None
    else if MatchAt(s, from) then Some(from)
    else FindMatch(s, from + 1)
  }

  /** `parseInt(g, 16) * 2` as `substring` uses it: `NaN` counts as 0. */
  function AidChars(g: string): int {
    match ParseInt16(g)
    case Some(v) => 2 * v
    case None => 0
  }

  /** The candidates of every match from `from` on. The greedy hex run of a
      match ends where the next search starts. */
  function ExtractFrom(s: string, from: nat): (aids: seq<string>)
    ensures forall i :: 0 <= i < |aids| ==> AllHex(aids[i])
    ensures AllHex(s) ==> |aids| <= 1
    decreases |s| - from
  {
    match FindMatch(s, from)
    case None => []
    case Some(p) =>
      var run := HexPrefix(s[p + 4..]);
      HexPrefixSpec(s[p + 4..]);
      var aid := Substring(run, 0, AidChars(s[p + 2..p + 4]));
      var next := p + 4 + |run|;
      assert AllHex(s) ==> AllHex(s[p + 4..]) && next == |s|;
      [aid] + ExtractFrom(s, next)
  }

  /** `extractAidTags`. */
  function ExtractAidTags(hex: string): (aids: seq<string>)
    ensures forall i :: 0 <= i < |aids| ==> AllHex(aids[i])
    ensures AllHex(hex) ==> |aids| <= 1
  {
    ExtractFrom(hex, 0)
  }

  // ---- card schemes ----

  predicate DiscoverAid(aid: string) {
    StartsWith(aid, "A000000152") || StartsWith(aid, "A000000324") || StartsWith(aid, "A000000444")
  }

  /** A Discover AID, upper-cased, keeps the digits that tell it from the others. */
  lemma DiscoverUpper(aid: string)
    ensures DiscoverAid(aid) ==> |aid| >= 10 && ToUpper(aid)[7] == aid[7] && aid[7] != '0'
  {
  }

  /** `getCardSchemeFromAid`: the first five registered application provider
      identifiers are compared on the upper-cased AID, the three Discover ones
      on the AID as given. No two of them can match the same AID. */
  function GetCardSchemeFromAid(aid: string): (r: Option<CardScheme>)
    ensures r == Some(Visa) <==> StartsWith(ToUpper(aid), "A000000003")
    ensures r == Some(Mastercard) <==> StartsWith(ToUpper(aid), "A000000004")
    ensures r == Some(Jcb) <==> StartsWith(ToUpper(aid), "A000000065")
    ensures r == Some(Amex) <==> StartsWith(ToUpper(aid), "A000000025")
    ensures r == Some(UnionPay) <==> StartsWith(ToUpper(aid), "A000000333")
    ensures r == Some(Discover) <==> DiscoverAid(aid)
  {
    var upper := ToUpper(aid);
    DiscoverUpper(aid);
    if StartsWith(upper, "A000000003") then Some(Visa)
    else if StartsWith(upper, "A000000004") then Some(Mastercard)
    else if StartsWith(upper, "A000000065") then Some(Jcb)
    else if StartsWith(upper, "A000000025") then Some(Amex)
    else if StartsWith(upper, "A000000333") then Some(UnionPay)
    else if DiscoverAid(aid) then Some(Discover)
    else None
  }

  // ---- SELECT by AID ----

  /** `(n / 2).toString(16)`: an odd `n` leaves the fraction `.8`. */
  function HalfText(n: nat): (r: string)
    ensures n % 2 == 0 ==> Canonical(r, 16) && Value(r, 16) == n / 2
    ensures n % 2 == 1 ==>
      |r| >= 3 && r[|r| - 2..] == ".8" && Canonical(r[..|r| - 2], 16) && Value(r[..|r| - 2], 16) == n / 2
  {
    var h := ToRadix(n / 2, 16);
    if n % 2 == 0 then h
    else
      assert (h + ".8")[..|h|] == h;
      h + ".8"
  }

  /** `padStart(2, '0')`: the input behind as many zeros as bring it to two
      characters, none when it has two or more. */
  function PadStart2(s: string): (r: string)
    ensures |r| == if |s| >= 2 then |s| else 2
    ensures r == Zeros(|r| - |s|) + s
    ensures |s| >= 2 ==> r == s
  {
    if |s| >= 2 then
      assert Zeros(0) + s == s;
      s
    else Zeros(2 - |s|) + s
  }

  /** The SELECT command for an AID, as hex: class 00, instruction A4, P1 04
      (select by name), P2 00, the AID's length in octets, the AID. */
  function SelectAidHex(aid: string): (r: string)
    ensures |r| >= 10 + |aid|
    ensures r[..8] == "00A40400"
    ensures r[|r| - |aid|..] == aid
  {
    var r := "00A40400" + PadStart2(HalfText(|aid|)) + aid;
    assert r[..8] == "00A40400";
    assert r[|r| - |aid|..] == aid;
    r
  }

  // ---- record templates ----

  /** The value as a string, for the casts `value as string`; a constructed
      value, which the decoder never gives a primitive tag, reads as empty. */
  function TextOf(v: EmvValue): string {
    match v
    case Prim(h) => h
    case Cons(_) => ""
  }

  /** The value as a list, for the casts `value as EmvObject[]`; a primitive
      value, which the decoder never gives a constructed tag, reads as empty. */
  function ChildrenOf(v: EmvValue): seq<EmvObject> {
    match v
    case Prim(_) => []
    case Cons(cs) => cs
  }

  /** JavaScript truthiness of a value: a non-empty string, or any array. */
  predicate Truthy(v: EmvValue) {
    match v
    case Prim(h) => h != ""
    case Cons(_) => true
  }

  /** `Array.prototype.find`: the first element satisfying `p`. */
  function Find(objs: seq<EmvObject>, p: EmvObject -> bool): (r: Option<EmvObject>)
    ensures r.Some? <==> exists i :: 0 <= i < |objs| && p(objs[i])
    ensures r.Some? ==> exists i :: (0 <= i < |objs| && objs[i] == r.value && p(objs[i])
      && forall j :: 0 <= j < i ==> !p(objs[j]))
  {
    if |objs| == 0 then None
    else if p(objs[0]) then Some(objs[0])
    else
      var r := Find(objs[1..], p);
      FindTail(objs, p, r);
      r
  }

  /** The first match in a list whose head does not match is the first match in its tail. */
  lemma FindTail(objs: seq<EmvObject>, p: EmvObject -> bool, r: Option<EmvObject>)
    requires |objs| > 0 && !p(objs[0])
    requires r.Some? <==> exists i :: 0 <= i < |objs[1..]| && p(objs[1..][i])
    requires r.Some? ==> exists i :: (0 <= i < |objs[1..]| && objs[1..][i] == r.value && p(objs[1..][i])
      && forall j :: 0 <= j < i ==> !p(objs[1..][j]))
    ensures r.Some? <==> exists i :: 0 <= i < |objs| && p(objs[i])
    ensures r.Some? ==> exists i :: (0 <= i < |objs| && objs[i] == r.value && p(objs[i])
      && forall j :: 0 <= j < i ==> !p(objs[j]))
  {
    assert forall i :: 1 <= i < |objs| ==> objs[i] == objs[1..][i - 1];
    if r.Some? {
      var i :| 0 <= i < |objs[1..]| && objs[1..][i] == r.value && p(objs[1..][i])
        && forall j :: 0 <= j < i ==> !p(objs[1..][j]);
      assert objs[i + 1] == r.value && forall j :: 0 <= j < i + 1 ==> !p(objs[j]);
    }
  }

  /** An expiry date `YYMM…` shown as `MM/YY`. */
  function Expiry(date: string): (exp: string)
    ensures '/' in exp
  {
    var exp := SliceFrom(date, 2) + "/" + Slice(date, 0, 2);
    assert exp[|SliceFrom(date, 2)|] == '/';
    exp
  }

  /** A record template `70` with a non-empty value. */
  predicate IsFlatTemplate(o: EmvObject) {
    o.tag == "70" && ValueLength(o.value) > 0
  }

  /** A record template `77` with a non-empty value. */
  predicate IsNestedTemplate(o: EmvObject) {
    o.tag == "77" && ValueLength(o.value) > 0
  }

  /** The application primary account number, tag `5A`. */
  predicate IsPan(o: EmvObject) {
    o.tag == "5A"
  }

  /** The application expiration date, tag `5F24`. */
  predicate IsExpiryDate(o: EmvObject) {
    o.tag == "5F24"
  }

  /** Track 2 equivalent data, tag `57`, with a truthy value. */
  predicate IsTrackTwo(o: EmvObject) {
    o.tag == "57" && Truthy(o.value)
  }

  /** `flatTLVParser`: in the first non-empty template `70`, the first `5A` is
      the card number and the first four digits of the first `5F24` the
      expiry date. */
  function FlatTlvParser(objs: seq<EmvObject>): (r: Option<CardRecord>)
    ensures r.Some? <==> exists i :: 0 <= i < |objs| && objs[i].tag == "70" && ValueLength(objs[i].value) > 0
    ensures r.Some? ==> '/' in r.value.exp && |r.value.exp| <= 5
  {
    match Find(objs, IsFlatTemplate)
    case None => None
    case Some(res) =>
      var children := ChildrenOf(res.value);
      var card := match Find(children, IsPan) case Some(c) => TextOf(c.value) case None => "";
      var date := match Find(children, IsExpiryDate)
        case Some(e) => Substring(TextOf(e.value), 0, 4)
        case None => "";
      Some(CardRecord(card, Expiry(date)))
  }

  /** `nestedTLVParser`: in the first non-empty template `77`, the first `57`
      with a truthy value holds track 2 data; the card number is the text before
      the first separator `D`, the expiry date the four digits after it. */
  function NestedTlvParser(objs: seq<EmvObject>): (r: Option<CardRecord>)
    ensures r.Some? ==> exists i :: 0 <= i < |objs| && objs[i].tag == "77" && ValueLength(objs[i].value) > 0
    ensures r.Some? ==> 'D' !in r.value.card && '/' in r.value.exp
  {
    match Find(objs, IsNestedTemplate)
    case None => None
    case Some(res) =>
      match Find(ChildrenOf(res.value), IsTrackTwo)
      case None => None
      case Some(info) =>
        var parts := Split(TextOf(info.value), 'D');
        var date := if |parts| >= 2 then Substring(parts[1], 0, 4) else "";
        Some(CardRecord(parts[0], Expiry(date)))
  }

  /** The dispatch at the end of `extractRecord`: the last answer is decoded
      with the dictionary for the kernel `Generic`, and a first element `70` or
      `77` selects the flat or the nested extractor. */
  function ExtractRecord(lastResp: seq<int>, table: seq<TagEntry>): (r: Option<CardRecord>)
    ensures r.Some? ==> '/' in r.value.exp
    ensures var parsed := DescribeKernel(ToHexString(lastResp), "Generic", table);
      r.Some? ==> |parsed| > 0 && (parsed[0].tag == "70" || parsed[0].tag == "77")
  {
    var parsed := DescribeKernel(ToHexString(lastResp), "Generic", table);
    if |parsed| == 0 then None
    else if parsed[0].tag == "70" then FlatTlvParser(parsed)
    else if parsed[0].tag == "77" then NestedTlvParser(parsed)
    else None
  }

  /** The flat result when it has both a card number and an expiry date,
      otherwise the nested one. */
  function Reconcile(flat: Option<CardRecord>, nested: Option<CardRecord>): (r: Option<CardRecord>)
    ensures r == flat || r == nested
    ensures flat.Some? && flat.value.card != "" && '/' in flat.value.exp ==> r == flat
    ensures flat.None? || flat.value.card == "" ==> r == nested
  {
    if flat.Some? && flat.value.card != "" && flat.value.exp != "" then flat else nested
  }

  /** The decisions of `readCardData`: the first AID candidate of the PPSE
      answer, its scheme, and the reconciled record, failing in that order. */
  function ReadCardData(ppseResp: seq<int>, flatResp: seq<int>, nestedResp: seq<int>, table: seq<TagEntry>)
    : (r: Result<NfcCardResult, NfcError>)
    ensures var aids := ExtractAidTags(ToHexString(ppseResp));
      r == Failure(AidNotFound) <==> |aids| == 0 || aids[0] == ""
    ensures var aids := ExtractAidTags(ToHexString(ppseResp));
      r == Failure(UnsupportedCardScheme) <==> |aids| > 0 && aids[0] != "" && GetCardSchemeFromAid(aids[0]).None?
    ensures r.Failure? ==> r.error in {AidNotFound, UnsupportedCardScheme, CardReadFailed}
    ensures r.Success? ==> (r.value.card != "" && '/' in r.value.exp
      && Some(r.value.scheme) == GetCardSchemeFromAid(ExtractAidTags(ToHexString(ppseResp))[0]))
  {
    var aids := ExtractAidTags(ToHexString(ppseResp));
    if |aids| == 0 || aids[0] == "" then Failure(AidNotFound)
    else
      match GetCardSchemeFromAid(aids[0])
      case None => Failure(UnsupportedCardScheme)
      case Some(scheme) =>
        var chosen := Reconcile(ExtractRecord(flatResp, table), ExtractRecord(nestedResp, table));
        if chosen.None? || chosen.value.card == "" || chosen.value.exp == "" then Failure(CardReadFailed)
        else Success(NfcCardResult(chosen.value.card, chosen.value.exp, scheme))
  }

  /** `scanNfc`: support and enablement are checked first; then the read races a
      timer, and `timedOut` says the timer fired first. */
  function ScanNfc(supported: bool, enabled: bool, timedOut: bool,
                   ppseResp: seq<int>, flatResp: seq<int>, nestedResp: seq<int>, table: seq<TagEntry>)
    : (r: Result<NfcCardResult, NfcError>)
    ensures r == Failure(NfcNotSupported) <==> !supported
    ensures r == Failure(NfcNotEnabled) <==> supported && !enabled
    ensures r == Failure(ScanTimeout) <==> supported && enabled && timedOut
    ensures supported && enabled && !timedOut ==> r == ReadCardData(ppseResp, flatResp, nestedResp, table)
  {
    if !supported then Failure(NfcNotSupported)
    else if !enabled then Failure(NfcNotEnabled)
    else if timedOut then Failure(ScanTimeout)
    else ReadCardData(ppseResp, flatResp, nestedResp, table)
  }
}
