/** The BER-TLV decoder of src/emv/index.ts, as written: the identifier is read
    through binary strings and re-rendered with `Bin2Hex`, so leading zero
    nibbles of a tag are lost; only a length octet whose first hex digit is `8`
    switches to the long form; and input that is cut short yields shortened
    slices instead of an error. Callbacks, which the source invokes
    synchronously, are return values here. */
module Tlv {
  import opened Options
  import opened Text
  import opened Arith
  import opened Radix
  import opened Js
  import opened EmvUtils
  import opened Types

  /** The identifier as the decoder reads it: the emitted tag text and the
      `tag_constructed` bit that decides whether the value is decoded further. */
  datatype TagInfo = TagInfo(tag: string, constructed: bool)

  /** The raw length octets (the `length` field of an element) and the character
      positions where the value starts and where the next element starts. */
  datatype LengthField = LengthField(text: string, valueStart: nat, end: nat)

  /** The first identifier octet as the decoder sees it: the first two characters
      read as hex, or 0 when they are not hex. */
  function FirstOctet(data: string): (b: nat)
    ensures b < 256
  {
    var s := Substring(data, 0, 2);
    if CheckHex(s) then
      HexPrefixBound(s, false, 2 - |s|);
      Value(s, 16)
    else 0
  }

  /** `tag_bin` before the high-tag-number branch: the first octet as eight bits. */
  function InitialTagBits(data: string): string {
    match Hex2Bin(Substring(data, 0, 2))
    case Some(b) => Pad(b, 8)
    case None => "00000000"
  }

  /** `pad(Hex2Bin(hex), width)`, or the empty string when `hex` is not hex. */
  function PaddedBits(hex: string, width: nat): string {
    match Hex2Bin(hex)
    case Some(b) => Pad(b, width)
    case None => ""
  }

  /** The do-while loop of the high-tag-number form: starting from `limit`
      characters, take the next octet, and go on while that octet has its top
      bit set. The result is the number of characters of the identifier. */
  function TagLimitFrom(data: string, limit: nat): (tl: nat)
    ensures tl >= limit + 2
    decreases |data| + 2 - limit
  {
    var next := limit + 2;
    var octet := Substring(data, limit, next);
    OctetWithin(data, limit);
    if TopBitSet(octet) then TagLimitFrom(data, next) else next
  }

  /** The two characters from `limit` on, when both exist, lie inside `data`. */
  lemma OctetWithin(data: string, limit: nat)
    ensures var o := Substring(data, limit, limit + 2); |o| <= 2 && (|o| == 2 ==> limit + 2 <= |data|)
  {
  }

  /** The loop condition: the octet's padded bits start with `1`, which takes
      two characters. */
  predicate TopBitSet(octet: string)
    ensures TopBitSet(octet) && |octet| <= 2 ==> |octet| == 2
  {
    ShortOctetLow(octet);
    Substring(PaddedBits(octet, 8), 0, 1) == "1"
  }

  /** Fewer than two characters never have the top bit set: one hex digit is
      below 0x10, and anything else pads to nothing. */
  lemma ShortOctetLow(s: string)
    ensures |s| < 2 ==> Substring(PaddedBits(s, 8), 0, 1) != "1"
  {
    if |s| < 2 {
      if CheckHex(s) {
        var v := Value(s, 16);
        assert v < 16 by {
          ValueBound(s, 16);
        }
        PaddedOctet(s);
        FixedTop(v);
      } else {
        assert PaddedBits(s, 8) == "";
      }
    }
  }

  /** An octet's padded bits start with `1` exactly when it is two hex digits
      worth at least 0x80. */
  lemma OctetLead(s: string)
    requires |s| <= 2
    ensures TopBitSet(s) <==> |s| == 2 && CheckHex(s) && Value(s, 16) >= 128
  {
    if CheckHex(s) {
      var v := Value(s, 16);
      HexPrefixBound(s, false, 2 - |s|);
      PaddedOctet(s);
      FixedTop(v);
      if |s| == 1 {
        assert v < 16 by {
          ValueBound(s, 16);
        }
      }
    } else {
      assert PaddedBits(s, 8) == "";
    }
  }

  /** One round of the do-while loop: it goes on exactly when the next octet
      is two hex digits worth at least 0x80. */
  lemma TagLimitStep(data: string, limit: nat)
    ensures var o := Substring(data, limit, limit + 2);
      TagLimitFrom(data, limit)
        == if |o| == 2 && CheckHex(o) && Value(o, 16) >= 128 then TagLimitFrom(data, limit + 2) else limit + 2
  {
    OctetLead(Substring(data, limit, limit + 2));
  }

  /** The end of the identifier read on octet values rather than bit strings:
      from character `limit`, take the next octet and go on while it is two
      hex digits worth at least 0x80. */
  function TagEnd(data: string, limit: nat): (tl: nat)
    ensures tl >= limit + 2
    decreases |data| + 2 - limit
  {
    var o := Substring(data, limit, limit + 2);
    if |o| == 2 && CheckHex(o) && Value(o, 16) >= 128 then TagEnd(data, limit + 2) else limit + 2
  }

  /** The do-while loop over bit strings finds the same end as `TagEnd`. */
  lemma {:induction false} TagLimitIsTagEnd(data: string, limit: nat)
    ensures TagLimitFrom(data, limit) == TagEnd(data, limit)
    decreases |data| + 2 - limit
  {
    TagLimitStep(data, limit);
    var o := Substring(data, limit, limit + 2);
    if |o| == 2 && CheckHex(o) && Value(o, 16) >= 128 {
      TagLimitIsTagEnd(data, limit + 2);
    }
  }

  /** The loop consumes whole octets: the identifier length has the parity of `limit`. */
  lemma TagLimitEven(data: string, limit: nat)
    ensures TagLimitFrom(data, limit) % 2 == limit % 2
  {
    TagLimitIsTagEnd(data, limit);
    TagEndEven(data, limit);
  }

  lemma {:induction false} TagEndEven(data: string, limit: nat)
    ensures TagEnd(data, limit) % 2 == limit % 2
    decreases |data| + 2 - limit
  {
    var o := Substring(data, limit, limit + 2);
    if |o| == 2 && CheckHex(o) && Value(o, 16) >= 128 {
      TagEndEven(data, limit + 2);
      PlusTwoParity(limit);
    }
  }

  /** On hex input of at most two digits, the padded bits are the fixed eight-bit rendering. */
  lemma PaddedOctet(s: string)
    requires CheckHex(s) && Value(s, 16) < 256
    ensures PaddedBits(s, 8) == Fixed(Value(s, 16), 2, 8)
  {
    var v := Value(s, 16);
    assert Pow(2, 8) == 256;
    PadToRadix(v, 2, 8);
  }

  /** The first of eight bits is the top bit. */
  lemma FixedTop(v: nat)
    requires v < 256
    ensures Substring(Fixed(v, 2, 8), 0, 1) == (if v >= 128 then "1" else "0")
  {
    var f := Fixed(v, 2, 8);
    var q := if v >= 128 then 1 else 0;
    assert Pow(2, 7) == 128;
    FixedLead(v, 2, 8, q, v - 128 * q);
    assert Substring(f, 0, 1) == [f[0]];
    assert DigitChar(0) == '0' && DigitChar(1) == '1';
  }

  /** `tag_number`: the low five bits of the first octet, or, in the
      high-tag-number form, all bits but the top three of the consumed octets
      (empty when those are not hex). */
  function TagNumberBits(data: string, tagBin: string): string {
    if Substring(tagBin, 3, 8) == "11111" then
      var limit := TagLimitFrom(data, 2);
      Substring(PaddedBits(Substring(data, 0, limit), 8 * (limit / 2)), 3, 8 * (limit / 2))
    else Substring(tagBin, 3, 8)
  }

  /** `tag_class + tag_constructed + tag_number`. */
  function TagBits(data: string): string {
    var tagBin := InitialTagBits(data);
    Substring(tagBin, 0, 2) + Substring(tagBin, 2, 3) + TagNumberBits(data, tagBin)
  }

  /** Reads the identifier at the start of `data`. */
  function ReadTag(data: string): (t: TagInfo)
    ensures |t.tag| <= 16 && UpperHex(t.tag)
  {
    var constructed := Substring(InitialTagBits(data), 2, 3) == "1";
    match Bin2Hex(TagBits(data))
    case Some(h) =>
      Bin2HexShort(TagBits(data));
      TagInfo(ToUpper(h), constructed)
    case None => TagInfo("", constructed)
  }

  /** Bit 0x20 of the first octet of a tag of at least two characters: the
      constructed flag the tag text itself announces. */
  predicate ConstructedTag(tag: string) {
    |tag| >= 2 && (Value(tag[..2], 16) / 32) % 2 == 1
  }

  /** An element whose value kind agrees with the constructed flag its tag announces. */
  predicate Typed(o: EmvObject) {
    |o.tag| >= 2 ==> (o.value.Cons? <==> ConstructedTag(o.tag))
  }

  /** Every element, at every depth, is `Typed`: what the card reader's casts
      `value as EmvObject[]` and `value as string` take for granted. */
  predicate WellTyped(objs: seq<EmvObject>)
    decreases objs
  {
    forall i :: 0 <= i < |objs| ==>
      Typed(objs[i]) && (objs[i].value.Cons? ==> WellTyped(objs[i].value.children))
  }

  /** Reads the length octets that follow a tag of `tagLen` characters. */
  function ReadLength(data: string, tagLen: nat): (f: LengthField)
    ensures tagLen + 2 <= f.valueStart <= f.end
  {
    var lenHex := Substring(data, tagLen, tagLen + 2);
    if Substring(lenHex, 0, 1) == "8" then
      var count := NumberOf(Hex2Dec(Substring(lenHex, 1, 2)));
      var longHex := Substring(data, tagLen, tagLen + 2 + count * 2);
      var len := NumberOf(Hex2Dec(SubstringFrom(longHex, 2))) * 2;
      LengthField(longHex, tagLen + 2 + count * 2, tagLen + 2 + count * 2 + len)
    else
      var len := NumberOf(Hex2Dec(lenHex)) * 2;
      LengthField(lenHex, tagLen + 2, tagLen + 2 + len)
  }

  /** `parse`: decodes a hex string into a list of elements. It never fails and
      always terminates, since each element consumes at least two characters
      (or the whole remaining input). */
  function Parse(data: string): (objs: seq<EmvObject>)
    ensures |data| == 0 <==> objs == []
    ensures |objs| <= (|data| + 1) / 2
    decreases |data|
  {
    if |data| == 0 then []
    else
      var t := ReadTag(data);
      var f := ReadLength(data, |t.tag|);
      var v := Substring(data, f.valueStart, f.end);
      var value := if t.constructed then Cons(Parse(v)) else Prim(v);
      [EmvObject(t.tag, f.text, value, None)] + Parse(SubstringFrom(data, f.end))
  }

  /** `getValue`: the values of the top-level elements whose tag is `tag`, in order
      (the source calls its callback once for each). */
  function GetValue(tag: string, objs: seq<EmvObject>): (vs: seq<EmvValue>)
    ensures |vs| <= |objs|
    ensures forall v :: v in vs ==> exists o :: o in objs && o.tag == tag && o.value == v
    ensures forall o :: o in objs && o.tag == tag ==> o.value in vs
  {
    if |objs| == 0 then []
    else (if objs[0].tag == tag then [objs[0].value] else []) + GetValue(tag, objs[1..])
  }

  /** `getElement`: the top-level elements whose tag is `tag`, in order. */
  function GetElement(tag: string, objs: seq<EmvObject>): (es: seq<EmvObject>)
    ensures |es| <= |objs|
    ensures forall o :: o in es <==> o in objs && o.tag == tag
  {
    if |objs| == 0 then []
    else (if objs[0].tag == tag then [objs[0]] else []) + GetElement(tag, objs[1..])
  }

  /** An entry of the tag dictionary. */
  datatype TagEntry = TagEntry(tag: string, kernel: string, name: string)

  /** `lookupKernel`: the name of the first entry whose tag is `tag` (compared
      exactly) and whose kernel is `kernel` (compared ignoring case). */
  function LookupKernel(table: seq<TagEntry>, tag: string, kernel: string): (name: Option<string>)
    ensures name.Some? <==>
      exists i :: 0 <= i < |table| && table[i].tag == tag && ToUpper(table[i].kernel) == ToUpper(kernel)
    ensures name.Some? ==> exists i :: (0 <= i < |table| && table[i].tag == tag
      && ToUpper(table[i].kernel) == ToUpper(kernel) && table[i].name == name.value
      && forall j :: 0 <= j < i ==> !(table[j].tag == tag && ToUpper(table[j].kernel) == ToUpper(kernel)))
  {
    if |table| == 0 then None
    else if table[0].tag == tag && ToUpper(table[0].kernel) == ToUpper(kernel) then Some(table[0].name)
    else
      var r := LookupKernel(table[1..], tag, kernel);
      assert forall i :: 1 <= i < |table| ==> table[i] == table[1..][i - 1];
      r
  }

  /** The description `describeKernel` attaches: a found, non-empty name. */
  function Describe(table: seq<TagEntry>, o: EmvObject, kernel: string): (r: Option<string>)
    ensures r != o.description ==> r.Some? && r.value != ""
    ensures r != o.description ==> exists i :: (0 <= i < |table|
      && table[i].tag == o.tag && ToUpper(table[i].kernel) == ToUpper(kernel) && table[i].name == r.value)
    ensures (forall i :: 0 <= i < |table| ==>
      !(table[i].tag == o.tag && ToUpper(table[i].kernel) == ToUpper(kernel))) ==> r == o.description
  {
    match LookupKernel(table, o.tag, kernel)
    case Some(name) => if name != "" then Some(name) else o.description
    case None => o.description
  }

  /** Annotates one top-level element and its direct children. */
  function Annotate(table: seq<TagEntry>, o: EmvObject, kernel: string): (r: EmvObject)
    ensures r.tag == o.tag && r.length == o.length && r.description == Describe(table, o, kernel)
    ensures r.value.Prim? <==> o.value.Prim?
    ensures o.value.Prim? ==> r.value == o.value
    ensures o.value.Cons? ==> |r.value.children| == |o.value.children|
    ensures o.value.Cons? ==> forall j :: 0 <= j < |o.value.children| ==>
      var c, a := o.value.children[j], r.value.children[j];
      a.tag == c.tag && a.length == c.length && a.value == c.value && a.description == Describe(table, c, kernel)
  {
    var value :=
      match o.value
      case Prim(h) => Prim(h)
      case Cons(cs) => Cons(seq(|cs|, j requires 0 <= j < |cs| =>
                                 cs[j].(description := Describe(table, cs[j], kernel))));
    o.(value := value, description := Describe(table, o, kernel))
  }

  /** `describeKernel`: `parse`, then descriptions from the table on the elements
      at depth 0 and 1. */
  function DescribeKernel(data: string, kernel: string, table: seq<TagEntry>): (objs: seq<EmvObject>)
    ensures |objs| == |Parse(data)|
    ensures forall i :: 0 <= i < |objs| ==>
      objs[i].tag == Parse(data)[i].tag && objs[i].length == Parse(data)[i].length
  {
    var parsed := Parse(data);
    seq(|parsed|, i requires 0 <= i < |parsed| => Annotate(table, parsed[i], kernel))
  }
}
