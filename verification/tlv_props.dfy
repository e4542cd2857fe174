/** Properties of the decoder in src/emv/index.ts that hold for every input:
    the kind of every decoded value matches the constructed bit of its tag,
    the dictionary pass changes nothing but descriptions, and the filters
    keep order. */
module TlvProps {
  import opened Options
  import opened Text
  import opened Radix
  import opened Js
  import opened EmvUtils
  import opened Types
  import opened Tlv
  import opened TlvTags

  /** The element `Parse` puts first, and what it reads next. */
  lemma ParseUnfold(data: string)
    requires |data| > 0
    ensures var t := ReadTag(data);
      var f := ReadLength(data, |t.tag|);
      var v := Substring(data, f.valueStart, f.end);
      Parse(data) == [EmvObject(t.tag, f.text, if t.constructed then Cons(Parse(v)) else Prim(v), None)]
        + Parse(SubstringFrom(data, f.end))
  {
  }

  /** `WellTyped` of a one-element prefix and a tail. */
  lemma WellTypedCons(o: EmvObject, rest: seq<EmvObject>)
    requires Typed(o) && (o.value.Cons? ==> WellTyped(o.value.children))
    requires WellTyped(rest)
    ensures WellTyped([o] + rest)
  {
    var all := [o] + rest;
    forall i | 0 <= i < |all|
      ensures Typed(all[i]) && (all[i].value.Cons? ==> WellTyped(all[i].value.children))
    {
      if i > 0 {
        assert all[i] == rest[i - 1];
      }
    }
  }

  /** Every decoded element, at every depth, carries children exactly when its
      tag (of two or more characters) has the constructed bit: the decoder's
      choice and the tag it emits never disagree. */
  lemma {:induction false} ParseWellTyped(data: string)
    ensures WellTyped(Parse(data))
    decreases |data|
  {
    if |data| > 0 {
      var t := ReadTag(data);
      var f := ReadLength(data, |t.tag|);
      var v := Substring(data, f.valueStart, f.end);
      var rest := SubstringFrom(data, f.end);
      var o := EmvObject(t.tag, f.text, if t.constructed then Cons(Parse(v)) else Prim(v), None);
      ParseUnfold(data);
      TagConstructedBit(data);
      if t.constructed {
        ParseWellTyped(v);
      }
      ParseWellTyped(rest);
      WellTypedCons(o, Parse(rest));
    }
  }

  /** No element, at any depth, carries a description. */
  predicate Undescribed(objs: seq<EmvObject>)
    decreases objs
  {
    forall i :: 0 <= i < |objs| ==>
      objs[i].description == None && (objs[i].value.Cons? ==> Undescribed(objs[i].value.children))
  }

  lemma UndescribedCons(o: EmvObject, rest: seq<EmvObject>)
    requires o.description == None && (o.value.Cons? ==> Undescribed(o.value.children))
    requires Undescribed(rest)
    ensures Undescribed([o] + rest)
  {
    var all := [o] + rest;
    forall i | 0 <= i < |all|
      ensures all[i].description == None && (all[i].value.Cons? ==> Undescribed(all[i].value.children))
    {
      if i > 0 {
        assert all[i] == rest[i - 1];
      }
    }
  }

  /** The decoder itself never attaches a description. */
  lemma {:induction false} ParseUndescribed(data: string)
    ensures Undescribed(Parse(data))
    decreases |data|
  {
    if |data| > 0 {
      var t := ReadTag(data);
      var f := ReadLength(data, |t.tag|);
      var v := Substring(data, f.valueStart, f.end);
      var rest := SubstringFrom(data, f.end);
      var o := EmvObject(t.tag, f.text, if t.constructed then Cons(Parse(v)) else Prim(v), None);
      ParseUnfold(data);
      if t.constructed {
        ParseUndescribed(v);
      }
      ParseUndescribed(rest);
      UndescribedCons(o, Parse(rest));
    }
  }

  /** The description a found name gives: none when the name is missing or empty. */
  function Named(name: Option<string>): Option<string> {
    match name
    case Some(n) => if n != "" then Some(n) else None
    case None => None
  }

  /** An element with the descriptions at its own level and its children's removed. */
  function Erase(o: EmvObject): EmvObject {
    var value :=
      match o.value
      case Prim(h) => Prim(h)
      case Cons(cs) => Cons(seq(|cs|, j requires 0 <= j < |cs| => cs[j].(description := None)));
    o.(value := value, description := None)
  }

  /** `describeKernel` returns the decoded elements in order, changed only in
      their descriptions and their children's: each is the name the table gives
      its tag for the kernel, when there is a non-empty one. */
  lemma DescribeKernelSpec(data: string, kernel: string, table: seq<TagEntry>)
    ensures var p := Parse(data);
      var d := DescribeKernel(data, kernel, table);
      |d| == |p|
      && (forall i :: 0 <= i < |p| ==> Erase(d[i]) == p[i])
      && (forall i :: 0 <= i < |p| ==> d[i].description == Named(LookupKernel(table, p[i].tag, kernel)))
      && (forall i :: 0 <= i < |p| && p[i].value.Cons? ==>
            forall j :: 0 <= j < |p[i].value.children| ==>
              d[i].value.children[j].description
                == Named(LookupKernel(table, p[i].value.children[j].tag, kernel)))
  {
    ParseUndescribed(data);
    AnnotateSpec(Parse(data), DescribeKernel(data, kernel, table), kernel, table);
  }

  /** `DescribeKernelSpec` for any undescribed list annotated element by element. */
  lemma AnnotateSpec(p: seq<EmvObject>, d: seq<EmvObject>, kernel: string, table: seq<TagEntry>)
    requires Undescribed(p)
    requires |d| == |p| && forall i :: 0 <= i < |p| ==> d[i] == Annotate(table, p[i], kernel)
    ensures forall i :: 0 <= i < |p| ==> Erase(d[i]) == p[i]
    ensures forall i :: 0 <= i < |p| ==> d[i].description == Named(LookupKernel(table, p[i].tag, kernel))
    ensures forall i :: 0 <= i < |p| && p[i].value.Cons? ==>
      d[i].value.Cons? && |d[i].value.children| == |p[i].value.children| &&
      forall j :: 0 <= j < |p[i].value.children| ==>
        d[i].value.children[j].description == Named(LookupKernel(table, p[i].value.children[j].tag, kernel))
  {
  }

  /** The dictionary pass keeps every element `Typed`, at every depth. */
  lemma DescribeKernelWellTyped(data: string, kernel: string, table: seq<TagEntry>)
    ensures WellTyped(DescribeKernel(data, kernel, table))
  {
    ParseWellTyped(data);
    AnnotateWellTyped(Parse(data), DescribeKernel(data, kernel, table), kernel, table);
  }

  /** Annotating element by element keeps a list `WellTyped`. */
  lemma AnnotateWellTyped(p: seq<EmvObject>, d: seq<EmvObject>, kernel: string, table: seq<TagEntry>)
    requires WellTyped(p)
    requires |d| == |p| && forall i :: 0 <= i < |p| ==> d[i] == Annotate(table, p[i], kernel)
    ensures WellTyped(d)
  {
  }

  /** `getElement` on a concatenation: the matches of each part, in order. */
  lemma {:induction false} GetElementConcat(tag: string, a: seq<EmvObject>, b: seq<EmvObject>)
    ensures GetElement(tag, a + b) == GetElement(tag, a) + GetElement(tag, b)
    decreases |a|
  {
    if |a| > 0 {
      assert (a + b)[1..] == a[1..] + b;
      GetElementConcat(tag, a[1..], b);
    } else {
      assert a + b == b;
    }
  }

  /** The values of a list of elements, in order. */
  function Values(es: seq<EmvObject>): (vs: seq<EmvValue>)
    ensures |vs| == |es|
    ensures forall i :: 0 <= i < |es| ==> vs[i] == es[i].value
  {
    seq(|es|, i requires 0 <= i < |es| => es[i].value)
  }

  /** `getValue` yields exactly the values of the elements `getElement` yields. */
  lemma {:induction false} GetValueOfElements(tag: string, objs: seq<EmvObject>)
    ensures GetValue(tag, objs) == Values(GetElement(tag, objs))
    decreases |objs|
  {
    if |objs| > 0 {
      var head := if objs[0].tag == tag then [objs[0]] else [];
      var hv := if objs[0].tag == tag then [objs[0].value] else [];
      var tail := GetElement(tag, objs[1..]);
      assert GetValue(tag, objs[1..]) == Values(tail) by {
        GetValueOfElements(tag, objs[1..]);
      }
      assert GetValue(tag, objs) == hv + GetValue(tag, objs[1..]);
      assert GetElement(tag, objs) == head + tail;
      assert Values(head) == hv;
      assert Values(head + tail) == hv + Values(tail) by {
        ValuesConcat(head, tail);
      }
    }
  }

  /** The values of a concatenation are the values of each part, in order. */
  lemma ValuesConcat(a: seq<EmvObject>, b: seq<EmvObject>)
    ensures Values(a + b) == Values(a) + Values(b)
  {
    assert forall i :: 0 <= i < |a| + |b| ==> (a + b)[i] == if i < |a| then a[i] else b[i - |a|];
  }

  /** An identifier whose first octet is below 0x10 (or not hex, which the
      decoder reads as 0) is emitted as one digit, the leading zero lost, and is
      never constructed. */
  lemma LowOctetTag(data: string)
    requires FirstOctet(data) < 16
    ensures ReadTag(data).tag == [UpperChar(DigitChar(FirstOctet(data)))]
    ensures !ReadTag(data).constructed
  {
    var b0 := FirstOctet(data);
    LowTagText(data);
    ReadTagValue(data);
    ReadTagConstructed(data);
  }

  lemma LowTagText(data: string)
    requires FirstOctet(data) < 16
    ensures TagText(TagValue(data)) == [UpperChar(DigitChar(FirstOctet(data)))]
    ensures (FirstOctet(data) / 32) % 2 == 0
  {
    var b0 := FirstOctet(data);
    assert b0 % 32 == b0;
    assert ToRadix(b0, 16) == [DigitChar(b0)];
  }

  /** A first octet `0x0h` becomes the one-character tag `h`, so the decoder
      reads the length octets from the second digit of the identifier on. */
  lemma LeadingZeroTag(data: string)
    requires |data| >= 2 && data[0] == '0' && IsHexDigit(data[1])
    ensures ReadTag(data).tag == [UpperChar(data[1])] && !ReadTag(data).constructed
    ensures Parse(data)[0].tag == [UpperChar(data[1])]
    ensures Parse(data)[0].length == ReadLength(data, 1).text
  {
    var c := data[1];
    assert ReadTag(data).tag == [UpperChar(c)] && !ReadTag(data).constructed by {
      ZeroLedOctet(data);
      LowOctetTag(data);
      DigitCase(c);
    }
    ParseFirst(data);
  }

  /** Rendering a hex digit's value and upper-casing gives the upper-cased digit. */
  lemma DigitCase(c: char)
    requires IsHexDigit(c)
    ensures UpperChar(DigitChar(DigitValue(c))) == UpperChar(c)
  {
    assert Value([c], 16) == DigitValue(c) by {
      assert [c][..0] == [];
    }
    ToRadixOfValue([c], 16);
  }

  lemma ZeroLedOctet(data: string)
    requires |data| >= 2 && data[0] == '0' && IsHexDigit(data[1])
    ensures FirstOctet(data) == DigitValue(data[1])
  {
    var s := Substring(data, 0, 2);
    assert s == [data[0], data[1]];
    assert IsHexDigit(s[0]) && IsHexDigit(s[1]);
    assert CheckHex(s);
    TwoDigits(s);
    assert DigitValue(s[0]) == 0;
  }

  /** The identifier and length octets of the first decoded element. */
  lemma ParseFirst(data: string)
    requires |data| > 0
    ensures Parse(data)[0].tag == ReadTag(data).tag
    ensures Parse(data)[0].length == ReadLength(data, |ReadTag(data).tag|).text
  {
    ParseUnfold(data);
  }
}
