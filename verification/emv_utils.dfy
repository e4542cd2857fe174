/** The string and radix helpers of src/emv/utils.ts. The converters return the
    numeric sentinel `0` on input that fails the alphabet check; here that is
    `None`, and a converted string is `Some`. */
module EmvUtils {
  import opened Options
  import opened Text
  import opened Arith
  import opened Radix
  import opened Js

  /** `/^[01]{1,64}$/` */
  predicate CheckBin(n: string) {
    1 <= |n| <= 64 && forall i :: 0 <= i < |n| ==> n[i] == '0' || n[i] == '1'
  }

  /** `/^[0-9]{1,64}$/` */
  predicate CheckDec(n: string) {
    1 <= |n| <= 64 && forall i :: 0 <= i < |n| ==> '0' <= n[i] <= '9'
  }

  /** `/^[0-9A-Fa-f]{1,64}$/` */
  predicate CheckHex(n: string) {
    1 <= |n| <= 64 && AllHex(n)
  }

  /** Each check accepts exactly the strings of 1 to 64 digits of its radix. */
  lemma CheckAlphabets(n: string)
    ensures CheckBin(n) <==> 1 <= |n| <= 64 && AllDigits(n, 2)
    ensures CheckDec(n) <==> 1 <= |n| <= 64 && AllDigits(n, 10)
    ensures CheckHex(n) <==> 1 <= |n| <= 64 && AllDigits(n, 16)
    ensures CheckBin(n) ==> CheckDec(n) && CheckHex(n)
    ensures !CheckBin("") && !CheckDec("") && !CheckHex("")
  {
    if 1 <= |n| <= 64 && AllDigits(n, 2) {
      forall i | 0 <= i < |n| ensures n[i] == '0' || n[i] == '1' {
        assert IsDigit(n[i], 2);
      }
    }
    if 1 <= |n| <= 64 && AllDigits(n, 10) {
      forall i | 0 <= i < |n| ensures '0' <= n[i] <= '9' {
        assert IsDigit(n[i], 10);
      }
    }
  }

  /** `pad(s, z)`: left-pads with zeros up to length `z`. */
  function Pad(s: string, z: int): (r: string)
    ensures r == Zeros(if z > |s| then z - |s| else 0) + s
    decreases z - |s|
  {
    if |s| < z then Pad("0" + s, z) else s
  }

  /** `unpad(s)`: strips every leading zero. */
  function Unpad(s: string): (r: string)
    ensures |r| <= |s|
    ensures |r| == 0 || r[0] != '0'
    ensures s == Zeros(|s| - |r|) + r
  {
    if |s| > 0 && s[0] == '0' then
      var r := Unpad(s[1..]);
      assert s == "0" + s[1..];
      r
    else s
  }

  function Dec2Bin(n: string): (r: Option<string>)
    ensures r.Some? <==> CheckDec(n)
    ensures r.Some? ==> Canonical(r.value, 2) && Value(r.value, 2) == Value(n, 10)
  {
    if !CheckDec(n) then None else Some(ToRadix(Value(n, 10), 2))
  }

  function Dec2Hex(n: string): (r: Option<string>)
    ensures r.Some? <==> CheckDec(n)
    ensures r.Some? ==> Canonical(r.value, 16) && Value(r.value, 16) == Value(n, 10)
  {
    if !CheckDec(n) then None else Some(ToRadix(Value(n, 10), 16))
  }

  function Bin2Dec(n: string): (r: Option<string>)
    ensures r.Some? <==> CheckBin(n)
    ensures r.Some? ==> Canonical(r.value, 10) && Value(r.value, 10) == Value(n, 2)
  {
    if !CheckBin(n) then None else Some(ToRadix(Value(n, 2), 10))
  }

  function Bin2Hex(n: string): (r: Option<string>)
    ensures r.Some? <==> CheckBin(n)
    ensures r.Some? ==> Canonical(r.value, 16) && Value(r.value, 16) == Value(n, 2)
  {
    if !CheckBin(n) then None else Some(ToRadix(Value(n, 2), 16))
  }

  function Hex2Bin(n: string): (r: Option<string>)
    ensures r.Some? <==> CheckHex(n)
    ensures r.Some? ==> Canonical(r.value, 2) && Value(r.value, 2) == Value(n, 16)
  {
    if !CheckHex(n) then None else Some(ToRadix(Value(n, 16), 2))
  }

  function Hex2Dec(n: string): (r: Option<string>)
    ensures r.Some? <==> CheckHex(n)
    ensures r.Some? ==> Canonical(r.value, 10) && Value(r.value, 10) == Value(n, 16)
  {
    if !CheckHex(n) then None else Some(ToRadix(Value(n, 16), 10))
  }

  /** `Number(x)` applied to a converter's result: the sentinel is the number 0. */
  function NumberOf(r: Option<string>): nat {
    match r
    case None => 0
    case Some(s) => Value(s, 10)
  }

  /** `Hex2Ascii(hex)`: one character per two-character chunk, whose code is the
      chunk's `parseInt(chunk, 16)` reduced to 16 bits (`NaN` gives code 0). */
  function Hex2Ascii(hex: string): (r: string)
    ensures |r| == (|hex| + 1) / 2
    decreases |hex|
  {
    if |hex| == 0 then ""
    else
      var code := ChunkCode(Substr(hex, 0, 2));
      [code as char] + Hex2Ascii(SubstrFrom(hex, 2))
  }

  /** The character code of one chunk: never a surrogate, since a chunk of at
      most two characters parses to a number between -15 and 255. */
  function ChunkCode(chunk: string): (code: nat)
    requires |chunk| <= 2
    ensures code < 0xD800 || 0xE000 <= code < 0x10000
    ensures AllHex(chunk) && |chunk| >= 1 ==> code == Value(chunk, 16)
  {
    var p := ParseInt16(chunk);
    assert p.Some? ==> -15 <= p.value <= 255;
    CodeUnit(p)
  }

  /** On hexadecimal input, character `i` has the value of the `i`-th two-digit chunk. */
  lemma {:induction false} Hex2AsciiOfHex(hex: string)
    requires AllHex(hex)
    ensures forall i :: 0 <= i < |Hex2Ascii(hex)| ==>
      Hex2Ascii(hex)[i] as int == Value(hex[2 * i..if 2 * i + 2 <= |hex| then 2 * i + 2 else |hex|], 16)
    decreases |hex|
  {
    if |hex| > 0 {
      var k := if |hex| >= 2 then 2 else |hex|;
      var rest := SubstrFrom(hex, 2);
      assert rest == hex[k..];
      var r := Hex2Ascii(hex);
      var tail := Hex2Ascii(rest);
      assert r == [ChunkCode(Substr(hex, 0, 2)) as char] + tail;
      assert r[0] as int == Value(hex[0..k], 16) by {
        assert Substr(hex, 0, 2) == hex[..k] == hex[0..k];
        assert AllHex(hex[..k]);
      }
      assert forall i :: 0 <= i < |tail| ==>
        tail[i] as int == Value(rest[2 * i..if 2 * i + 2 <= |rest| then 2 * i + 2 else |rest|], 16) by {
        assert AllHex(rest);
        Hex2AsciiOfHex(rest);
      }
      forall i | 0 < i < |r|
        ensures r[i] as int == Value(hex[2 * i..if 2 * i + 2 <= |hex| then 2 * i + 2 else |hex|], 16)
      {
        assert |hex| >= 2 && k == 2 && rest == hex[2..];
        assert r[i] == tail[i - 1];
        ChunkShift(hex, i);
      }
    }
  }

  /** Chunk `i` of a string is chunk `i - 1` of the string without its first chunk. */
  lemma ChunkShift(hex: string, i: nat)
    requires |hex| >= 2 && 1 <= i && 2 * i < |hex|
    ensures hex[2 * i..if 2 * i + 2 <= |hex| then 2 * i + 2 else |hex|]
         == hex[2..][2 * (i - 1)..if 2 * (i - 1) + 2 <= |hex| - 2 then 2 * (i - 1) + 2 else |hex| - 2]
  {
    var rest := hex[2..];
    var e := if 2 * i + 2 <= |hex| then 2 * i + 2 else |hex|;
    assert e - 2 == if 2 * (i - 1) + 2 <= |hex| - 2 then 2 * (i - 1) + 2 else |hex| - 2;
    assert |rest[2 * i - 2..e - 2]| == |hex[2 * i..e]|;
    forall j | 0 <= j < e - 2 * i
      ensures rest[2 * i - 2..e - 2][j] == hex[2 * i..e][j]
    {
      assert rest[2 * i - 2 + j] == hex[2 * i + j];
    }
  }

  /** `replaceAt(str, index, character)`. */
  function ReplaceAt(s: string, index: int, c: string): (r: string)
    ensures index >= 0 ==> r == s[..if index <= |s| then index else |s|] + c
                               + s[if index + |c| <= |s| then index + |c| else |s|..]
    ensures 0 <= index && index + |c| <= |s| ==>
      |r| == |s| && r[..index] == s[..index] && r[index..index + |c|] == c
      && r[index + |c|..] == s[index + |c|..]
  {
    Substr(s, 0, index) + c + SubstrFrom(s, index + |c|)
  }

  /** A string that passes the binary check renders to at most 16 hex digits,
      which upper-case to hex digits. */
  lemma Bin2HexShort(b: string)
    requires CheckBin(b)
    ensures |Bin2Hex(b).value| <= 16 && UpperHex(ToUpper(Bin2Hex(b).value))
  {
    var v := Value(b, 2);
    assert v < Pow(16, 16) by {
      CheckAlphabets(b);
      ValueBound(b, 2);
      PowMonotone(2, |b|, 64);
      Pow16(16);
    }
    ToRadixShort(v, 16, 16);
    var h := ToRadix(v, 16);
    forall i | 0 <= i < |h| ensures IsHexDigit(ToUpper(h)[i]) && !('a' <= ToUpper(h)[i] <= 'f') {
      assert IsDigit(h[i], 16);
    }
  }

  /** `Bin2Hex(Hex2Bin(h))` recovers `h` lower-cased without its leading zeros,
    as long as the binary rendering fits the 64-digit check. */
  lemma Bin2HexOfHex2Bin(h: string)
    requires CheckHex(h) && Value(h, 16) < Pow(2, 64)
    ensures Hex2Bin(h).Some?
    ensures Bin2Hex(Hex2Bin(h).value) == Some(if Unpad(h) == "" then "0" else ToLower(Unpad(h)))
  {
    var v := Value(h, 16);
    var b := ToRadix(v, 2);
    assert Hex2Bin(h) == Some(b);
    assert CheckBin(b) by {
      ToRadixShort(v, 2, 64);
      CheckAlphabets(b);
    }
    assert Bin2Hex(b) == Some(ToRadix(v, 16));
    var u := Unpad(h);
    assert Value(u, 16) == v by {
      ValueZerosPrefix(|h| - |u|, u, 16);
    }
    if u != "" {
      UnpadDigits(h, u);
      ToRadixOfValue(u, 16);
    }
  }

  /** The digits left after `unpad` are hexadecimal and lead with a non-zero one. */
  lemma UnpadDigits(h: string, u: string)
    requires AllHex(h) && u == Unpad(h) && u != ""
    ensures AllDigits(u, 16) && (|u| > 1 ==> DigitValue(u[0]) != 0)
  {
    assert h == Zeros(|h| - |u|) + u;
    forall i | 0 <= i < |u| ensures IsDigit(u[i], 16) {
      assert u[i] == h[|h| - |u| + i];
    }
  }

  lemma BinaryExamples()
    ensures Bin2Dec("1010") == Some("10") && Bin2Hex("10000") == Some("10")
  {
    BinaryRenderings();
    assert Value("1010", 2) == 10 && Value("10000", 2) == 16;
    assert DigitChar(0) == '0' && DigitChar(1) == '1';
    assert ToRadix(10, 10) == ToRadix(1, 10) + "0" && ToRadix(16, 16) == ToRadix(1, 16) + "0";
  }

  /** `ToRadix` on the small numbers of the examples. */
  lemma BinaryRenderings()
    ensures ToRadix(2, 2) == "10" && ToRadix(5, 2) == "101"
    ensures ToRadix(10, 2) == "1010" && ToRadix(16, 2) == "10000"
  {
    assert DigitChar(0) == '0' && DigitChar(1) == '1';
    assert ToRadix(1, 2) == "1";
    assert ToRadix(2, 2) == ToRadix(1, 2) + "0";
    assert ToRadix(4, 2) == ToRadix(2, 2) + "0";
    assert ToRadix(8, 2) == ToRadix(4, 2) + "0";
    assert ToRadix(16, 2) == ToRadix(8, 2) + "0";
    assert ToRadix(5, 2) == ToRadix(2, 2) + "1";
    assert ToRadix(10, 2) == ToRadix(5, 2) + "0";
  }

  lemma HexToBinaryExamples()
    ensures Hex2Bin("10") == Some("10000") && Dec2Bin("10") == Some("1010")
  {
    assert Value("10", 16) == 16 && Value("10", 10) == 10 by {
      assert "10"[..1] == "1" && "1"[..0] == "";
      assert DigitValue('1') == 1 && DigitValue('0') == 0;
    }
    assert CheckHex("10") && CheckDec("10");
    BinaryRenderings();
  }

  /** `ToRadix` on the numbers of the converter examples. */
  lemma OctetRenderings()
    ensures ToRadix(255, 2) == "11111111" && ToRadix(255, 16) == "ff" && ToRadix(255, 10) == "255"
    ensures ToRadix(16, 10) == "16" && ToRadix(16, 16) == "10" && ToRadix(0, 2) == "0"
  {
    assert DigitChar(0) == '0' && DigitChar(1) == '1' && DigitChar(15) == 'f';
    assert DigitChar(2) == '2' && DigitChar(5) == '5' && DigitChar(6) == '6';
    assert ToRadix(1, 2) == "1";
    assert ToRadix(3, 2) == ToRadix(1, 2) + "1";
    assert ToRadix(7, 2) == ToRadix(3, 2) + "1";
    assert ToRadix(15, 2) == ToRadix(7, 2) + "1";
    assert ToRadix(31, 2) == ToRadix(15, 2) + "1";
    assert ToRadix(63, 2) == ToRadix(31, 2) + "1";
    assert ToRadix(127, 2) == ToRadix(63, 2) + "1";
    assert ToRadix(255, 2) == ToRadix(127, 2) + "1";
    assert ToRadix(255, 16) == ToRadix(15, 16) + "f";
    assert ToRadix(25, 10) == ToRadix(2, 10) + "5";
    assert ToRadix(255, 10) == ToRadix(25, 10) + "5";
    assert ToRadix(16, 10) == ToRadix(1, 10) + "6";
    assert ToRadix(16, 16) == ToRadix(1, 16) + "0";
  }

  /** The decimal converter test vectors. */
  lemma DecimalExamples(n: string, m: string, z: string)
    requires n == "255" && m == "16" && z == "0"
    ensures Dec2Bin(n) == Some("11111111") && Dec2Hex(n) == Some("ff")
    ensures Dec2Hex(m) == Some("10") && Dec2Bin(z) == Some("0")
  {
    assert Value(n, 10) == 255 by {
      assert n[..2] == "25" && "25"[..1] == "2" && "2"[..0] == "";
    }
    assert Value(m, 10) == 16 && Value(z, 10) == 0 by {
      assert m[..1] == "1" && "1"[..0] == "" && z[..0] == "";
    }
    assert CheckDec(n) && CheckDec(m) && CheckDec(z);
    OctetRenderings();
  }

  /** The binary converter test vectors on the octet 255. */
  lemma OnesExamples(ones: string)
    requires ones == "11111111"
    ensures Bin2Dec(ones) == Some("255") && Bin2Hex(ones) == Some("ff")
  {
    assert Value(ones, 2) == 255 by {
      assert ones[..7] == "1111111" && "1111111"[..6] == "111111" && "111111"[..5] == "11111";
      assert "11111"[..4] == "1111" && "1111"[..3] == "111" && "111"[..2] == "11" && "11"[..1] == "1";
      assert "1"[..0] == "";
    }
    assert CheckBin(ones);
    OctetRenderings();
  }

  /** The hex converter test vectors. */
  lemma HexExamples(ff: string, ten: string)
    requires ff == "FF" && ten == "10"
    ensures Hex2Bin(ff) == Some("11111111") && Hex2Dec(ff) == Some("255") && Hex2Dec(ten) == Some("16")
  {
    assert Value(ff, 16) == 255 && Value(ten, 16) == 16 by {
      assert ff[..1] == "F" && ten[..1] == "1" && "F"[..0] == "" && "1"[..0] == "";
    }
    assert CheckHex(ff) && CheckHex(ten);
    OctetRenderings();
  }

  /** The alphabet checks on the test inputs. */
  lemma CheckExamples()
    ensures CheckBin("0101") && CheckBin("1111") && !CheckBin("2") && !CheckBin("abc")
    ensures CheckDec("123") && CheckDec("0") && !CheckDec("abc")
    ensures CheckHex("FF") && CheckHex("0a") && CheckHex("123abc") && !CheckHex("GG")
  {
    assert "2"[0] == '2' && "abc"[0] == 'a' && "GG"[0] == 'G';
  }

  /** The converters reject input outside their alphabet. */
  lemma ConverterRejects()
    ensures Dec2Bin("xyz") == None && Bin2Dec("abc") == None && Hex2Bin("ZZ") == None
    ensures Dec2Hex("") == None && Bin2Hex("2") == None && Hex2Dec("0x1F") == None
  {
    assert "xyz"[0] == 'x' && "abc"[0] == 'a' && "ZZ"[0] == 'Z';
    assert "2"[0] == '2' && "0x1F"[1] == 'x';
  }

  lemma PadExamples()
    ensures Pad("1", 4) == "0001" && Pad("101", 8) == "00000101" && Pad("1234", 4) == "1234"
  {
  }

  /** `unpad` removes exactly the zeros `pad` put in front of a string that does
      not itself start with `0`. */
  lemma {:induction false} UnpadZeros(k: nat, r: string)
    requires |r| == 0 || r[0] != '0'
    ensures Unpad(Zeros(k) + r) == r
    decreases k
  {
    var s := Zeros(k) + r;
    if k > 0 {
      assert s[0] == '0' && s[1..] == Zeros(k - 1) + r;
      UnpadZeros(k - 1, r);
    } else {
      assert s == r;
    }
  }

  lemma UnpadExamples(a: string, b: string, c: string)
    requires a == "0001" && b == "00000101" && c == "0"
    ensures Unpad(a) == "1" && Unpad(b) == "101" && Unpad(c) == ""
  {
    assert a == Zeros(3) + "1";
    UnpadZeros(3, "1");
    assert b == Zeros(5) + "101";
    UnpadZeros(5, "101");
    assert c == Zeros(1) + "";
    UnpadZeros(1, "");
  }

  /** `Hex2Ascii("4E4643")` spells `NFC`. */
  lemma Hex2AsciiExample(h: string)
    requires h == "4E4643"
    ensures Hex2Ascii(h) == "NFC"
  {
    var r := Hex2Ascii(h);
    assert AllHex(h);
    Hex2AsciiOfHex(h);
    assert r[0] as int == 78 by {
      assert h[0..2] == "4E";
      TwoDigits(h[0..2]);
    }
    assert r[1] as int == 70 by {
      assert h[2..4] == "46";
      TwoDigits(h[2..4]);
    }
    assert r[2] as int == 67 by {
      assert h[4..6] == "43";
      TwoDigits(h[4..6]);
    }
  }

  /** `Hex2Ascii("48656C6C6F")` spells `Hello`. */
  lemma Hex2AsciiHello(h: string)
    requires h == "48656C6C6F"
    ensures Hex2Ascii(h) == "Hello"
  {
    var r := Hex2Ascii(h);
    assert AllHex(h);
    Hex2AsciiOfHex(h);
    assert r[0] as int == 72 by {
      assert h[0..2] == "48";
      TwoDigits(h[0..2]);
    }
    assert r[1] as int == 101 by {
      assert h[2..4] == "65";
      TwoDigits(h[2..4]);
    }
    assert r[2] as int == 108 && r[3] as int == 108 by {
      assert h[4..6] == "6C" && h[6..8] == "6C";
      TwoDigits(h[4..6]);
    }
    assert r[4] as int == 111 by {
      assert h[8..10] == "6F";
      TwoDigits(h[8..10]);
    }
  }
}
