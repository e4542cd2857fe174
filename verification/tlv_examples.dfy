/** The decoder on the inputs of src/__tests__/emv-parser.test.ts, worked out
    through `ParseHead`. */
module TlvExamples {
  import opened Options
  import opened Text
  import opened Radix
  import opened Js
  import opened EmvUtils
  import opened Types
  import opened Tlv
  import opened TlvCodec
  import opened TlvProps

  lemma Tag5A()
    ensures WellFormedTag("5A") && !ConstructedTag("5A")
  {
    TwoDigits("5A");
    assert "5A"[0..2] == "5A" && "5A"[..2] == "5A";
  }

  lemma Tag5F24()
    ensures WellFormedTag("5F24") && !ConstructedTag("5F24")
  {
    TwoDigits("5F");
    TwoDigits("24");
    assert "5F24"[0..2] == "5F" && "5F24"[..2] == "5F" && "5F24"[2..4] == "24";
  }

  lemma Tag6F()
    ensures WellFormedTag("6F") && ConstructedTag("6F")
  {
    TwoDigits("6F");
    assert "6F"[0..2] == "6F" && "6F"[..2] == "6F";
  }

  lemma Tag84()
    ensures WellFormedTag("84") && !ConstructedTag("84")
  {
    TwoDigits("84");
    assert "84"[0..2] == "84" && "84"[..2] == "84";
  }

  /** A one-octet length field announcing `n` octets. */
  lemma ShortLength(lf: string, n: nat)
    requires |lf| == 2 && AllHex(lf) && lf[0] != '8' && DigitValue(lf[0]) * 16 + DigitValue(lf[1]) == n
    ensures WellFormedLength(lf) && LengthOf(lf) == n
  {
    TwoDigits(lf);
  }

  /** `5A 08 4761739001010119`: one primitive element, the card number. */
  lemma ParsePan()
    ensures Parse("5A084761739001010119") == [EmvObject("5A", "08", Prim("4761739001010119"), None)]
    ensures GetValue("5A", Parse("5A084761739001010119")) == [Prim("4761739001010119")]
    ensures GetElement("5A", Parse("5A084761739001010119"))
      == [EmvObject("5A", "08", Prim("4761739001010119"), None)]
  {
    var data, value := "5A084761739001010119", "4761739001010119";
    assert data == "5A" + "08" + value + "" by {
      forall i | 0 <= i < |data| ensures data[i] == ("5A" + "08" + value + "")[i] {}
    }
    Tag5A();
    ShortLength("08", 8);
    ParsePrimitive("5A", "08", value, "");
  }

  /** `5A 08 … 5F24 03 271231 0000`: the card number, the two-octet tag `5F24`
      with the expiry date, and then the trailing zeros, which lose their
      leading zero and decode as two elements with the one-character tag `0`. */
  lemma ParsePanAndExpiry()
    ensures Parse("5A0847617390010101195F24032712310000")
      == [EmvObject("5A", "08", Prim("4761739001010119"), None),
          EmvObject("5F24", "03", Prim("271231"), None),
          EmvObject("0", "00", Prim(""), None),
          EmvObject("0", "", Prim(""), None)]
  {
    var data := "5A0847617390010101195F24032712310000";
    assert data == "5A084761739001010119" + ("5F2403271231" + "0000") by {
      forall i | 0 <= i < |data| ensures data[i] == ("5A084761739001010119" + ("5F2403271231" + "0000"))[i] {}
    }
    PanAndExpiryAt(data);
  }

  /** `ParsePanAndExpiry` on its input split into the three parts decoded in turn. */
  lemma PanAndExpiryAt(data: string)
    requires data == "5A084761739001010119" + ("5F2403271231" + "0000")
    ensures Parse(data)
      == [EmvObject("5A", "08", Prim("4761739001010119"), None),
          EmvObject("5F24", "03", Prim("271231"), None),
          EmvObject("0", "00", Prim(""), None),
          EmvObject("0", "", Prim(""), None)]
  {
    PanThenExpiry("0000");
    ParseZeros();
  }

  /** The card number and the expiry date, whatever follows them. */
  lemma PanThenExpiry(z: string)
    ensures Parse("5A084761739001010119" + ("5F2403271231" + z))
      == [EmvObject("5A", "08", Prim("4761739001010119"), None),
          EmvObject("5F24", "03", Prim("271231"), None)] + Parse(z)
  {
    var e1, e2 := EmvObject("5A", "08", Prim("4761739001010119"), None), EmvObject("5F24", "03", Prim("271231"), None);
    var rest := "5F2403271231" + z;
    PanThen(rest);
    ExpiryThen(z);
    ConsTwo(Parse("5A084761739001010119" + rest), Parse(rest), Parse(z), e1, e2);
  }

  /** Two decoding steps in a row: the first element, then the second, then the rest. */
  lemma ConsTwo<T>(all: seq<T>, mid: seq<T>, rest: seq<T>, a: T, b: T)
    requires all == [a] + mid && mid == [b] + rest
    ensures all == [a, b] + rest
  {
    assert [a] + ([b] + rest) == [a, b] + rest;
  }

  /** The card number, whatever follows it. */
  lemma PanThen(rest: string)
    ensures Parse("5A084761739001010119" + rest)
      == [EmvObject("5A", "08", Prim("4761739001010119"), None)] + Parse(rest)
  {
    assert "5A084761739001010119" == "5A" + "08" + "4761739001010119";
    Tag5A();
    ShortLength("08", 8);
    ParsePrimitive("5A", "08", "4761739001010119", rest);
  }

  /** The expiry date, whatever follows it. */
  lemma ExpiryThen(rest: string)
    ensures Parse("5F2403271231" + rest) == [EmvObject("5F24", "03", Prim("271231"), None)] + Parse(rest)
  {
    assert "5F2403271231" == "5F24" + "03" + "271231";
    Tag5F24();
    ShortLength("03", 3);
    ParsePrimitive("5F24", "03", "271231", rest);
  }

  /** `0000` decodes as tag `0`, length `00` and an empty value, and then the
      last `0` as tag `0` with no length octets at all. */
  lemma ParseZeros()
    ensures Parse("0000") == [EmvObject("0", "00", Prim(""), None), EmvObject("0", "", Prim(""), None)]
  {
    ParseZerosAt("0000");
  }

  lemma ParseZerosAt(d: string)
    requires d == "0000"
    ensures Parse(d) == [EmvObject("0", "00", Prim(""), None), EmvObject("0", "", Prim(""), None)]
  {
    ZerosHead(d);
    assert Substring(d, 3, 3) == "" && SubstringFrom(d, 3) == d[3..];
    ParseUnfold(d);
    ParseZero(d[3..]);
  }

  lemma ZerosHead(d: string)
    requires d == "0000"
    ensures ReadTag(d) == TagInfo("0", false)
    ensures ReadLength(d, 1) == LengthField("00", 3, 3)
  {
    LeadingZeroTag(d);
    var lenHex := Substring(d, 1, 3);
    assert lenHex == "00";
    NumberOfHex(lenHex);
    TwoDigits(lenHex);
  }

  /** A lone `0`: tag `0`, no length octets, empty value. */
  lemma ParseZero(d: string)
    requires d == "0"
    ensures Parse(d) == [EmvObject("0", "", Prim(""), None)]
  {
    assert ReadTag(d) == TagInfo("0", false) by {
      assert FirstOctet(d) == 0 by {
        assert Substring(d, 0, 2) == d;
        assert CheckHex(d);
        assert d[..0] == "";
      }
      LowOctetTag(d);
    }
    assert ReadLength(d, 1) == LengthField("", 3, 3) by {
      assert Substring(d, 1, 3) == "";
      NumberOfHex("");
    }
    ParseUnfold(d);
  }

  /** `6F 10 840E…`: a constructed template holding one primitive element. */
  lemma ParseTemplate()
    ensures Parse("6F" + "10" + ("840E" + "325041592E5359532E4444463031"))
      == [EmvObject("6F", "10", Cons([EmvObject("84", "0E", Prim("325041592E5359532E4444463031"), None)]), None)]
  {
    Tag6F();
    ShortLength("10", 16);
    ParseDirectoryName();
    ParseOnly("6F", "10", "840E" + "325041592E5359532E4444463031");
  }

  /** `84 0E 3250…`: the directory name `2PAY.SYS.DDF01`. */
  lemma ParseDirectoryName()
    ensures Parse("840E" + "325041592E5359532E4444463031")
      == [EmvObject("84", "0E", Prim("325041592E5359532E4444463031"), None)]
  {
    assert "840E" == "84" + "0E";
    Tag84();
    ShortLength("0E", 14);
    ParseOnly("84", "0E", "325041592E5359532E4444463031");
  }

  /** An input holding exactly one complete element. */
  lemma ParseOnly(t: string, lf: string, value: string)
    requires WellFormedTag(t) && WellFormedLength(lf) && |value| == 2 * LengthOf(lf)
    ensures Parse(t + lf + value) == [EmvObject(t, lf, if ConstructedTag(t) then Cons(Parse(value)) else Prim(value), None)]
  {
    ParseElement(t, lf, value, "");
    assert t + lf + value + "" == t + lf + value;
    assert Parse("") == [];
  }

  /** The dictionary lookup takes the first matching entry, comparing kernels
      without regard to case, and finds nothing for an unknown tag. */
  lemma LookupExamples()
    ensures var table := [TagEntry("42", "Generic", "Issuer Identification Number (IIN)"),
                          TagEntry("42", "GENERIC", "second")];
      LookupKernel(table, "42", "generic") == Some("Issuer Identification Number (IIN)")
      && LookupKernel(table, "ZZZZ", "Generic") == None
  {
  }
}
