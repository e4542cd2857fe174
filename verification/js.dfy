/** The JavaScript built-ins the card reader relies on, with their edge-case
    behaviour: index clamping in `substring`/`substr`/`slice`, `split` on a
    one-character separator, and `parseInt(s, 16)` with its whitespace, sign and
    `0x` handling and its longest-valid-prefix rule. */
module Js {
  import opened Options
  import opened Text
  import opened Radix
  import opened Arith

  function Clamp(i: int, n: nat): (r: nat)
    ensures r <= n
    ensures 0 <= i <= n ==> r == i
  {
    if i < 0 then 0 else if i > n then n else i
  }

  /** `s.substring(start, end)`: both indices clamped to `[0, |s|]`, swapped when reversed. */
  function Substring(s: string, start: int, end: int): (r: string)
    ensures |r| <= |s|
    ensures 0 <= start <= end <= |s| ==> r == s[start..end]
    ensures start <= end ==> |r| == Clamp(end, |s|) - Clamp(start, |s|)
  {
    var a, b := Clamp(start, |s|), Clamp(end, |s|);
    if a <= b then s[a..b] else s[b..a]
  }

  /** Three consecutive substrings put back together. */
  lemma SubstringParts(s: string, i: nat, j: nat)
    requires i <= j <= |s|
    ensures Substring(s, 0, i) + Substring(s, i, j) + Substring(s, j, |s|) == s
  {
    assert s == s[..i] + s[i..j] + s[j..];
  }

  /** `s.substring(start)`. */
  function SubstringFrom(s: string, start: int): (r: string)
    ensures |r| == |s| - Clamp(start, |s|)
    ensures r == s[Clamp(start, |s|)..]
  {
    Substring(s, start, |s|)
  }

  /** Start index of `substr`/`slice`: a negative index counts from the end. */
  function RelativeIndex(i: int, n: nat): (r: nat)
    ensures r <= n
  {
    if i < 0 then (if n + i < 0 then 0 else n + i) else if i > n then n else i
  }

  /** `s.substr(start, length)` (ECMA-262, Annex B). */
  function Substr(s: string, start: int, length: int): (r: string)
    ensures |r| <= |s|
    ensures 0 <= start <= |s| && 0 <= length && start + length <= |s| ==> r == s[start..start + length]
  {
    var a := RelativeIndex(start, |s|);
    var n := if length < 0 then 0 else if length > |s| - a then |s| - a else length;
    s[a..a + n]
  }

  /** `s.substr(start)`. */
  function SubstrFrom(s: string, start: int): (r: string)
    ensures 0 <= start <= |s| ==> r == s[start..]
  {
    s[RelativeIndex(start, |s|)..]
  }

  /** `s.slice(start, end)`. */
  function Slice(s: string, start: int, end: int): (r: string)
    ensures |r| <= |s|
  {
    var a, b := RelativeIndex(start, |s|), RelativeIndex(end, |s|);
    if a < b then s[a..b] else ""
  }

  /** `s.slice(start)`. */
  function SliceFrom(s: string, start: int): (r: string)
    ensures |r| <= |s|
  {
    Slice(s, start, |s|)
  }

  predicate StartsWith(s: string, prefix: string) {
    |prefix| <= |s| && s[..|prefix|] == prefix
  }

  /** Index of the first occurrence of `c`. */
  function IndexOf(s: string, c: char): (i: nat)
    requires c in s
    ensures i < |s| && s[i] == c && c !in s[..i]
  {
    if s[0] == c then 0 else IndexOf(s[1..], c) + 1
  }

  /** The inverse of `split`: the parts joined by the separator. */
  function Join(parts: seq<string>, sep: char): string
    decreases |parts|
  {
    if |parts| == 0 then ""
    else if |parts| == 1 then parts[0]
    else parts[0] + [sep] + Join(parts[1..], sep)
  }

  /** `s.split(sep)` for a one-character separator. */
  function Split(s: string, sep: char): (parts: seq<string>)
    ensures |parts| >= 1
    ensures forall i :: 0 <= i < |parts| ==> sep !in parts[i]
    ensures Join(parts, sep) == s
    ensures sep !in s <==> |parts| == 1
    decreases |s|
  {
    if sep !in s then [s]
    else
      var i := IndexOf(s, sep);
      var rest := Split(s[i + 1..], sep);
      assert s == s[..i] + [sep] + s[i + 1..];
      [s[..i]] + rest
  }

  /** The WhiteSpace and LineTerminator code points of ECMA-262, which
      `parseInt` skips: tab to carriage return and space below the no-break
      space; from it on, the no-break space, the space separators of Unicode,
      the line and paragraph separators, and the byte order mark. */
  predicate IsWhitespace(c: char) {
    if c < '\U{A0}' then c == ' ' || '\t' <= c <= '\r'
    else (c == '\U{A0}' || c == '\U{1680}' || '\U{2000}' <= c <= '\U{200A}' || c == '\U{2028}'
          || c == '\U{2029}' || c == '\U{202F}' || c == '\U{205F}' || c == '\U{3000}' || c == '\U{FEFF}')
  }

  /** No whitespace character is a hex digit or a sign: all lie at or below
      the space or at or above the no-break space. */
  lemma WhitespaceIsNotText(c: char)
    requires IsWhitespace(c)
    ensures c <= ' ' || '\U{A0}' <= c
    ensures !IsHexDigit(c) && c != '-' && c != '+'
  {
  }

  /** The length of the longest prefix of hexadecimal digits. */
  function HexRun(s: string): (n: nat)
    ensures n <= |s|
  {
    if |s| == 0 || !IsHexDigit(s[0]) then 0 else 1 + HexRun(s[1..])
  }

  /** The longest prefix of hexadecimal digits. */
  function HexPrefix(s: string): (z: string)
    ensures |z| <= |s|
  {
    s[..HexRun(s)]
  }

  /** `HexPrefix` is all hex and stops at the first non-hex character. */
  lemma {:induction false} HexPrefixSpec(s: string)
    ensures var z := HexPrefix(s); z == s[..|z|] && AllHex(z)
    ensures var z := HexPrefix(s); |z| < |s| ==> !IsHexDigit(s[|z|])
    ensures AllHex(s) ==> HexPrefix(s) == s
    decreases |s|
  {
    if |s| > 0 && IsHexDigit(s[0]) {
      HexPrefixSpec(s[1..]);
      assert forall i :: 1 <= i < HexRun(s) ==> s[i] == s[1..][i - 1];
    }
  }

  /** `parseInt(s, 16)`; `None` stands for `NaN`. Leading whitespace is
      skipped one character at a time, then `ParseTrimmed` reads the rest. */
  function ParseInt16(s: string): (r: Option<int>)
    ensures AllHex(s) && |s| >= 1 ==> r == Some(Value(s, 16))
    ensures |s| <= 2 && r.Some? ==> -15 <= r.value <= 255
    decreases |s|
  {
    if |s| > 0 && IsWhitespace(s[0]) then
      WhitespaceIsNotText(s[0]);
      ParseInt16(s[1..])
    else ParseTrimmed(s)
  }

  /** `parseInt(t, 16)` once leading whitespace is gone: an optional sign, an
      optional `0x` or `0X`, then the longest run of hex digits, `NaN` when
      that run is empty. */
  function ParseTrimmed(t: string): (r: Option<int>)
    ensures AllHex(t) && |t| >= 1 ==> r == Some(Value(t, 16))
    ensures |t| <= 2 && r.Some? ==> -15 <= r.value <= 255
  {
    var negative := |t| > 0 && t[0] == '-';
    var u := if |t| > 0 && (t[0] == '-' || t[0] == '+') then t[1..] else t;
    var w := if |u| >= 2 && u[0] == '0' && (u[1] == 'x' || u[1] == 'X') then u[2..] else u;
    var z := HexPrefix(w);
    HexPrefixSpec(w);
    var v: int := Value(z, 16);
    HexPrefixBound(z, negative, |t| - |z|);
    if |z| == 0 then None else Some(if negative then -v else v)
  }

  lemma HexPrefixBound(z: string, negative: bool, slack: int)
    requires AllHex(z)
    requires slack >= 0 && (negative ==> slack >= 1)
    ensures |z| + slack <= 2 && |z| >= 1 ==> Value(z, 16) <= (if negative then 15 else 255)
  {
    if |z| + slack <= 2 && |z| >= 1 {
      assert AllDigits(z, 16);
      ValueBound(z, 16);
      if |z| == 1 {
        assert Pow(16, |z|) == 16;
      } else {
        assert |z| == 2;
        assert Pow(16, 2) == 16 * Pow(16, 1) == 256;
      }
    }
  }

  /** `ToUint16`, which `String.fromCharCode` applies to its argument (`NaN` gives 0). */
  function CodeUnit(x: Option<int>): (u: nat)
    ensures u < 0x10000
  {
    match x
    case None => 0
    case Some(v) => v % 0x10000
  }
}
