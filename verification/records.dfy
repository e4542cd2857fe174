/** What the card reader gets out of a record the card sends: for any record
    template that the decoder reads back exactly (a well-formed BER-TLV
    encoding), the card number and expiry date it carries. And how the two
    extractions and the three checks of a read decide the outcome. */
module ScannerRecords {
  import opened Options
  import opened Text
  import opened Radix
  import opened Js
  import opened Types
  import opened Tlv
  import opened TlvCodec
  import opened TlvProps
  import opened Scanner
  import opened ScannerProps

  /** `find` returns the first element satisfying the predicate. */
  lemma FindFirst(objs: seq<EmvObject>, p: EmvObject -> bool, i: nat)
    requires i < |objs| && p(objs[i]) && forall j :: 0 <= j < i ==> !p(objs[j])
    ensures Find(objs, p) == Some(objs[i])
  {
    var r := Find(objs, p);
    var k :| 0 <= k < |objs| && objs[k] == r.value && p(objs[k]) && forall j :: 0 <= j < k ==> !p(objs[j]);
    assert k == i;
  }

  /** The elements the dictionary pass returns for a well-formed encoding carry
      the encoded tags and values, and so do their children. */
  lemma DescribedEncoding(objs: seq<EmvObject>, table: seq<TagEntry>)
    requires Encodable(objs)
    ensures var d := DescribeKernel(Encode(objs), "Generic", table);
      |d| == |objs|
      && forall i :: 0 <= i < |d| ==> (d[i].tag == objs[i].tag
        && d[i].value.Cons? == objs[i].value.Cons?
        && (d[i].value.Prim? ==> d[i].value == objs[i].value)
        && (d[i].value.Cons? ==> (|d[i].value.children| == |objs[i].value.children|
          && forall j :: 0 <= j < |d[i].value.children| ==>
               d[i].value.children[j].tag == objs[i].value.children[j].tag
               && d[i].value.children[j].value == objs[i].value.children[j].value)))
  {
    RoundTrip(objs);
    DescribeKernelSpec(Encode(objs), "Generic", table);
    var d := DescribeKernel(Encode(objs), "Generic", table);
    forall i | 0 <= i < |d| && d[i].value.Cons?
      ensures |d[i].value.children| == |objs[i].value.children|
      ensures forall j :: 0 <= j < |d[i].value.children| ==>
        d[i].value.children[j].tag == objs[i].value.children[j].tag
        && d[i].value.children[j].value == objs[i].value.children[j].value
    {
      assert Erase(d[i]) == objs[i];
      var ds := d[i].value.children;
      forall j | 0 <= j < |ds|
        ensures ds[j].tag == objs[i].value.children[j].tag && ds[j].value == objs[i].value.children[j].value
      {
        assert Erase(d[i]).value.children[j] == ds[j].(description := None);
      }
    }
    forall i | 0 <= i < |d|
      ensures d[i].tag == objs[i].tag && d[i].value.Cons? == objs[i].value.Cons?
      ensures d[i].value.Prim? ==> d[i].value == objs[i].value
    {
      assert Erase(d[i]) == objs[i];
    }
  }

  /** A card answer that is the encoding of a record template `70` holding a
      card number `5A` and an expiry date `5F24` (each the first of its tag)
      yields that card number and the date's `YYMM` shown as `MM/YY`. */
  lemma FlatRecordRead(resp: seq<int>, table: seq<TagEntry>, objs: seq<EmvObject>, a: nat, b: nat)
    requires Encodable(objs) && ToHexString(resp) == Encode(objs)
    requires |objs| > 0 && objs[0].tag == "70" && objs[0].value.Cons?
    requires var cs := objs[0].value.children;
      a < |cs| && cs[a].tag == "5A" && (forall j :: 0 <= j < a ==> cs[j].tag != "5A")
      && b < |cs| && cs[b].tag == "5F24" && (forall j :: 0 <= j < b ==> cs[j].tag != "5F24")
      && |TextOf(cs[b].value)| >= 4
    ensures var cs := objs[0].value.children;
      var date := TextOf(cs[b].value);
      ExtractRecord(resp, table) == Some(CardRecord(TextOf(cs[a].value), date[2..4] + "/" + date[..2]))
  {
    var cs := objs[0].value.children;
    var date := TextOf(cs[b].value);
    DescribedEncoding(objs, table);
    var d := DescribeKernel(Encode(objs), "Generic", table);
    assert d[0].tag == "70" && d[0].value.Cons?;
    var ds := d[0].value.children;
    assert |ds| == |cs|;
    FindFirst(d, IsFlatTemplate, 0);
    FindFirst(ds, IsPan, a);
    FindFirst(ds, IsExpiryDate, b);
    assert TextOf(ds[b].value) == date;
    ExpiryOfDate(date);
    assert FlatTlvParser(d) == Some(CardRecord(TextOf(cs[a].value), date[2..4] + "/" + date[..2]));
  }

  /** A card answer that is the encoding of a record template `77` holding track
      2 data `57` of the form `PAN D YYMM …` (the first truthy `57`) yields the
      PAN and the date shown as `MM/YY`. */
  lemma NestedRecordRead(resp: seq<int>, table: seq<TagEntry>, objs: seq<EmvObject>, k: nat, pan: string, tail: string)
    requires Encodable(objs) && ToHexString(resp) == Encode(objs)
    requires |objs| > 0 && objs[0].tag == "77" && objs[0].value.Cons?
    requires var cs := objs[0].value.children;
      k < |cs| && cs[k].tag == "57" && cs[k].value == Prim(pan + "D" + tail)
      && (forall j :: 0 <= j < k ==> !IsTrackTwo(cs[j]))
    requires 'D' !in pan && |tail| >= 4 && 'D' !in tail[..4]
    ensures ExtractRecord(resp, table) == Some(CardRecord(pan, tail[2..4] + "/" + tail[..2]))
  {
    DescribedEncoding(objs, table);
    var d := DescribeKernel(Encode(objs), "Generic", table);
    NestedDecoded(d, objs, k, pan, tail);
  }

  /** `NestedTemplate` on a list that carries the tags and values of `objs`. */
  lemma NestedDecoded(d: seq<EmvObject>, objs: seq<EmvObject>, k: nat, pan: string, tail: string)
    requires |d| == |objs| > 0 && objs[0].tag == "77" && objs[0].value.Cons?
    requires d[0].tag == objs[0].tag && d[0].value.Cons? == objs[0].value.Cons?
    requires d[0].value.Cons? ==> (|d[0].value.children| == |objs[0].value.children|
      && forall j :: 0 <= j < |d[0].value.children| ==>
           d[0].value.children[j].tag == objs[0].value.children[j].tag
           && d[0].value.children[j].value == objs[0].value.children[j].value)
    requires var cs := objs[0].value.children;
      k < |cs| && cs[k].tag == "57" && cs[k].value == Prim(pan + "D" + tail)
      && (forall j :: 0 <= j < k ==> !IsTrackTwo(cs[j]))
    requires 'D' !in pan && |tail| >= 4 && 'D' !in tail[..4]
    ensures NestedTlvParser(d) == Some(CardRecord(pan, tail[2..4] + "/" + tail[..2]))
  {
    var cs := objs[0].value.children;
    var ds := d[0].value.children;
    assert forall j :: 0 <= j < k ==> IsTrackTwo(ds[j]) == IsTrackTwo(cs[j]);
    NestedTemplate(d, k, pan, tail);
  }

  /** The nested extractor on a list led by a template `77`. */
  lemma NestedTemplate(d: seq<EmvObject>, k: nat, pan: string, tail: string)
    requires |d| > 0 && d[0].tag == "77" && d[0].value.Cons?
    requires var ds := d[0].value.children;
      k < |ds| && ds[k].tag == "57" && ds[k].value == Prim(pan + "D" + tail)
      && (forall j :: 0 <= j < k ==> !IsTrackTwo(ds[j]))
    requires 'D' !in pan && |tail| >= 4 && 'D' !in tail[..4]
    ensures NestedTlvParser(d) == Some(CardRecord(pan, tail[2..4] + "/" + tail[..2]))
  {
    var ds := d[0].value.children;
    FindFirst(d, IsNestedTemplate, 0);
    FindFirst(ds, IsTrackTwo, k);
    TrackTwo(pan, tail);
    ExpiryOfDate(tail);
  }

  /** A `70` template without a `5A` still gives a record, with an empty card number. */
  lemma FlatWithoutPan(d: seq<EmvObject>, res: EmvObject)
    requires Find(d, IsFlatTemplate) == Some(res)
    requires forall j :: 0 <= j < |ChildrenOf(res.value)| ==> !IsPan(ChildrenOf(res.value)[j])
    ensures FlatTlvParser(d).Some? && FlatTlvParser(d).value.card == ""
  {
  }

  /** A `70` template without a `5F24` gives the bare separator as its expiry. */
  lemma FlatWithoutExpiry(d: seq<EmvObject>, res: EmvObject)
    requires Find(d, IsFlatTemplate) == Some(res)
    requires forall j :: 0 <= j < |ChildrenOf(res.value)| ==> !IsExpiryDate(ChildrenOf(res.value)[j])
    ensures FlatTlvParser(d).Some? && FlatTlvParser(d).value.exp == "/"
  {
  }

  /** Track 2 text without the separator `D` is taken whole as the card
      number, with the bare separator as the expiry. */
  lemma NestedWithoutSeparator(d: seq<EmvObject>, res: EmvObject, info: EmvObject)
    requires Find(d, IsNestedTemplate) == Some(res)
    requires Find(ChildrenOf(res.value), IsTrackTwo) == Some(info)
    requires 'D' !in TextOf(info.value)
    ensures NestedTlvParser(d) == Some(CardRecord(TextOf(info.value), "/"))
  {
    var parts := Split(TextOf(info.value), 'D');
    assert |parts| == 1;
    assert Join(parts, 'D') == parts[0];
    ExpiryOfNothing();
  }

  /** The nested extractor gives a record exactly when the first non-empty
      `77` template has a `57` child with a truthy value. */
  lemma NestedFound(d: seq<EmvObject>)
    ensures NestedTlvParser(d).Some? <==>
      (Find(d, IsNestedTemplate).Some?
       && var cs := ChildrenOf(Find(d, IsNestedTemplate).value.value);
         exists j :: 0 <= j < |cs| && IsTrackTwo(cs[j]))
  {
  }

  // ---- the outcome of a read ----

  /** Both extractions always produce an expiry text, so `readCardData`'s check
      of `exp` never fails: the flat record is taken exactly when it has a card
      number. */
  lemma ReconcileByCard(flatResp: seq<int>, nestedResp: seq<int>, table: seq<TagEntry>)
    ensures var flat := ExtractRecord(flatResp, table);
      var nested := ExtractRecord(nestedResp, table);
      Reconcile(flat, nested) == if flat.Some? && flat.value.card != "" then flat else nested
  {
    var flat := ExtractRecord(flatResp, table);
    if flat.Some? {
      assert '/' in flat.value.exp;
    }
  }

  /** `CARD_READ_FAILED` is reported exactly when an AID with a scheme was
      found but neither record gave a card number. */
  lemma ReadFailedIff(ppseResp: seq<int>, flatResp: seq<int>, nestedResp: seq<int>, table: seq<TagEntry>)
    ensures var aids := ExtractAidTags(ToHexString(ppseResp));
      var chosen := Reconcile(ExtractRecord(flatResp, table), ExtractRecord(nestedResp, table));
      ReadCardData(ppseResp, flatResp, nestedResp, table) == Failure(CardReadFailed)
      <==> (|aids| > 0 && aids[0] != "" && GetCardSchemeFromAid(aids[0]).Some?
            && (chosen.None? || chosen.value.card == ""))
  {
    var chosen := Reconcile(ExtractRecord(flatResp, table), ExtractRecord(nestedResp, table));
    ReconcileByCard(flatResp, nestedResp, table);
    if chosen.Some? {
      assert '/' in chosen.value.exp;
    }
  }

  /** A read whose AID has a scheme and whose chosen record has a card number
      succeeds, carrying that record and the scheme. */
  lemma ReadSucceeds(ppseResp: seq<int>, flatResp: seq<int>, nestedResp: seq<int>, table: seq<TagEntry>,
                     aid: string, scheme: CardScheme, record: CardRecord)
    requires ExtractAidTags(ToHexString(ppseResp)) == [aid] && aid != ""
    requires GetCardSchemeFromAid(aid) == Some(scheme)
    requires Reconcile(ExtractRecord(flatResp, table), ExtractRecord(nestedResp, table)) == Some(record)
    requires record.card != ""
    ensures ReadCardData(ppseResp, flatResp, nestedResp, table)
      == Success(NfcCardResult(record.card, record.exp, scheme))
  {
    ReconcileByCard(flatResp, nestedResp, table);
  }

  /** A card whose directory names an AID with a scheme and whose first record
      answer encodes a template `70` with a card number is read from that
      template, whatever the second answer holds. */
  lemma ReadFlatCard(ppseResp: seq<int>, flatResp: seq<int>, nestedResp: seq<int>, table: seq<TagEntry>,
                     aid: string, scheme: CardScheme, objs: seq<EmvObject>, a: nat, b: nat)
    requires ExtractAidTags(ToHexString(ppseResp)) == [aid] && aid != ""
    requires GetCardSchemeFromAid(aid) == Some(scheme)
    requires Encodable(objs) && ToHexString(flatResp) == Encode(objs)
    requires |objs| > 0 && objs[0].tag == "70" && objs[0].value.Cons?
    requires var cs := objs[0].value.children;
      a < |cs| && cs[a].tag == "5A" && (forall j :: 0 <= j < a ==> cs[j].tag != "5A")
      && b < |cs| && cs[b].tag == "5F24" && (forall j :: 0 <= j < b ==> cs[j].tag != "5F24")
      && |TextOf(cs[b].value)| >= 4 && TextOf(cs[a].value) != ""
    ensures var cs := objs[0].value.children;
      var date := TextOf(cs[b].value);
      ReadCardData(ppseResp, flatResp, nestedResp, table)
        == Success(NfcCardResult(TextOf(cs[a].value), date[2..4] + "/" + date[..2], scheme))
  {
    var cs := objs[0].value.children;
    var date := TextOf(cs[b].value);
    var record := CardRecord(TextOf(cs[a].value), date[2..4] + "/" + date[..2]);
    FlatRecordRead(flatResp, table, objs, a, b);
    ReconcileByCard(flatResp, nestedResp, table);
    ReadSucceeds(ppseResp, flatResp, nestedResp, table, aid, scheme, record);
  }

  // ---- the casts of the extractors ----

  /** The constructed bit of the tags the extractors read: the record templates
      are constructed, the data objects inside them primitive. */
  lemma TagKinds(t70: string, t77: string, t5A: string, t5F24: string, t57: string)
    requires t70 == "70" && t77 == "77" && t5A == "5A" && t5F24 == "5F24" && t57 == "57"
    ensures ConstructedTag(t70) && ConstructedTag(t77)
    ensures !ConstructedTag(t5A) && !ConstructedTag(t5F24) && !ConstructedTag(t57)
  {
    assert t70[..2] == t70 && t77[..2] == t77 && t5A[..2] == t5A && t57[..2] == t57;
    TwoDigits(t70);
    TwoDigits(t77);
    TwoDigits(t5A);
    TwoDigits(t5F24[..2]);
    TwoDigits(t57);
    assert Value(t5A, 16) == 90 && Value(t5F24[..2], 16) == 95 && Value(t57, 16) == 87;
  }

  /** On what the dictionary pass returns, the casts `value as EmvObject[]` on a
      template and `value as string` on the data objects inside it always hold,
      so `ChildrenOf` and `TextOf` never fall back to an empty value. */
  lemma CastsHold(data: string, table: seq<TagEntry>)
    ensures var d := DescribeKernel(data, "Generic", table);
      forall i :: 0 <= i < |d| && (d[i].tag == "70" || d[i].tag == "77") ==>
        d[i].value.Cons?
        && forall j :: 0 <= j < |d[i].value.children| ==>
             var c := d[i].value.children[j];
             (c.tag == "5A" || c.tag == "5F24" || c.tag == "57") ==> c.value.Prim?
  {
    var d := DescribeKernel(data, "Generic", table);
    DescribeKernelWellTyped(data, "Generic", table);
    TagKinds("70", "77", "5A", "5F24", "57");
    forall i | 0 <= i < |d| && (d[i].tag == "70" || d[i].tag == "77")
      ensures d[i].value.Cons?
      ensures forall j :: 0 <= j < |d[i].value.children| ==>
        var c := d[i].value.children[j];
        (c.tag == "5A" || c.tag == "5F24" || c.tag == "57") ==> c.value.Prim?
    {
      assert Typed(d[i]);
      assert WellTyped(d[i].value.children);
      forall j | 0 <= j < |d[i].value.children|
        ensures var c := d[i].value.children[j];
          (c.tag == "5A" || c.tag == "5F24" || c.tag == "57") ==> c.value.Prim?
      {
        assert Typed(d[i].value.children[j]);
      }
    }
  }
}
