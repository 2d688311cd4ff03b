/** Decoding one fixed-width consumer record into its name, social security
    number and 200 credit tags (`getDataObjectFromFixedLengthRecord`,
    Utilities/bulk_insert.js:100-129).

    The function is unfinished in the repository; this module models what
    it evidently means to do, at three points:
    - `ssn.isNaN()` (:108) calls a method numbers do not have; the model
      tests the parsed number for NaN, as `Number.isNaN(ssn)` would;
    - `let = creditTagValues = [ null ]` (:114) is malformed; the model
      declares a fresh array `creditTagValues` holding `null` in slot 0;
    - the parsed tag value (:126) is discarded; the model stores tag `k`
      in slot `k` and returns the decoded record. */
module RecordDecoder {
  import opened Outcomes
  import opened JsText
  import opened RecordLayout

  /** The non-fatal diagnostic of :103-105. */
  datatype Warning = MissingName(inputFileName: string, lineNumber: int)

  /** The fatal error thrown at :109-112. */
  datatype DecodeError = MissingSsn(inputFileName: string, lineNumber: int)

  /** A decoded record: `ssn` is the number `parseInt` returned (never
      NaN, possibly -0); slot 0 of `creditTags` is `null`, slot `k` holds
      what `parseInt` made of tag `k` (possibly NaN). */
  datatype ConsumerRecord = ConsumerRecord(name: string, ssn: JsInt, creditTags: seq<Option<JsInt>>)

  /** What one call produces: the warnings printed before it returned or
      threw, and the record or the thrown error. */
  datatype Decoded = Decoded(warnings: seq<Warning>, outcome: Result<ConsumerRecord, DecodeError>)

  // ---------------------------------------------------------------------
  // Fields

  /** `record.substr(0, 72).trim()` (:101). */
  function RecordName(record: string): (name: string)
    ensures |name| <= NameLength
  {
    Trim(Substr(record, 0, NameLength))
  }

  /** `record.substr(72, 9).trim().replace(/^0{1,8}/, '')`, the string
      handed to `parseInt` for the SSN (:107). */
  function SsnResidual(record: string): (residual: string)
    ensures |residual| <= SsnLength
  {
    StripLeadingZeros(Trim(Substr(record, SsnOffset, SsnLength)), 8)
  }

  /** `record.substr(startIndex, 9).trim()` for tag `k` (:116-117). */
  function TagField(record: string, k: int): (field: string)
    requires 1 <= k <= TagCount
    ensures |field| <= TagLength
  {
    Trim(Substr(record, TagStart(k), TagLength))
  }

  /** `v.replace(/^-0{1,7}/, '')` (:119): a '-' followed by one to seven
      zeros, as many as there are, is removed, sign included. */
  function StripNegativeZeros(v: string): (r: string)
    ensures |r| <= |v| && r == v[|v| - |r|..]
  {
    if |v| >= 2 && v[0] == '-' && v[1] == '0' then v[1 + Min(7, LeadingZeros(v[1..]))..] else v
  }

  /** The match of `/^-0{1,7}/`: nothing unless `v` starts with "-0";
      otherwise the sign and between one and seven zeros, all the zeros
      there are unless seven were taken. */
  lemma StripNegativeZerosSpec(v: string)
    ensures var r := StripNegativeZeros(v);
      var cut := |v| - |r|;
      && (cut == 0 <==> !(|v| >= 2 && v[0] == '-' && v[1] == '0'))
      && (cut > 0 ==> v[0] == '-' && 2 <= cut <= 8 && forall j :: 1 <= j < cut ==> v[j] == '0')
      && (0 < cut < 8 ==> r == [] || r[0] != '0')
  {
    if |v| >= 2 && v[0] == '-' && v[1] == '0' {
      var w := v[1..];
      LeadingZerosSpec(w);
      assert forall j :: 1 <= j < 1 + Min(7, LeadingZeros(w)) ==> v[j] == w[j - 1];
    }
  }

  /** `v.substr(0, 1) === '-'` (:118). */
  predicate SubstrIsMinus(v: string)
    ensures SubstrIsMinus(v) <==> |v| > 0 && v[0] == '-'
  {
    Substr(v, 0, 1) == "-"
  }

  /** The sign-dependent zero stripping of :118-125, applied to a trimmed
      tag field. */
  function NormalizeTag(v: string): (r: string)
    ensures |r| <= |v|
    ensures r == "0" || r == v[|v| - |r|..]
  {
    if SubstrIsMinus(v) then
      var w := StripNegativeZeros(v);
      if w == "-0" then "0" else w
    else
      StripLeadingZeros(v, 8)
  }

  /** `parseInt(…, 10)` of tag `k`'s normalised field (:126). */
  function TagValue(record: string, k: int): (value: JsInt)
    requires 1 <= k <= TagCount
    ensures TagStart(k) >= |record| ==> value == NaN
  {
    var field := TagField(record, k);
    assert TagStart(k) >= |record| ==> field == [] && NormalizeTag(field) == [];
    ParseInt(NormalizeTag(field))
  }

  // ---------------------------------------------------------------------
  // The decoder

  /** Decodes `record`, found on line `lineNumber` of `inputFileName`. An
      empty name is one warning and never an error; an SSN that `parseInt`
      cannot read is the one fatal error; otherwise slot 0 is `null` and
      each tag 1..200 lands in its own slot, in order. */
  method DecodeRecord(record: string, inputFileName: string, lineNumber: int) returns (d: Decoded)
    ensures d.warnings == if RecordName(record) == [] then [MissingName(inputFileName, lineNumber)] else []
    ensures d.outcome.Err? <==> ParseInt(SsnResidual(record)).NaN?
    ensures d.outcome.Err? <==> !StartsWithNumber(SsnResidual(record))
    ensures d.outcome.Err? ==> d.outcome.error == MissingSsn(inputFileName, lineNumber)
    ensures d.outcome.Ok? ==>
      var r := d.outcome.value;
      && r.name == RecordName(record)
      && r.ssn == ParseInt(SsnResidual(record)) && r.ssn.Int?
      && |r.creditTags| == TagCount + 1
      && r.creditTags[0] == None
      && forall k :: 1 <= k <= TagCount ==> r.creditTags[k] == Some(TagValue(record, k))
  {
    var warnings: seq<Warning> := [];
    var name := RecordName(record);
    if name == [] {
      warnings := [MissingName(inputFileName, lineNumber)];
    }
    var ssn := ParseInt(SsnResidual(record));
    if ssn.NaN? {
      ParseIntNaNIff(SsnResidual(record));
      return Decoded(warnings, Err(MissingSsn(inputFileName, lineNumber)));
    }
    var creditTagValues := DecodeCreditTags(record);
    ParseIntNaNIff(SsnResidual(record));
    d := Decoded(warnings, Ok(ConsumerRecord(name, ssn, creditTagValues)));
  }

  /** The loop of :114-128: tags 1..200 in increasing order, each trimmed,
      normalised and parsed, tag `k` stored in slot `k` after the `null`
      of slot 0. */
  method DecodeCreditTags(record: string) returns (creditTagValues: seq<Option<JsInt>>)
    ensures |creditTagValues| == TagCount + 1
    ensures creditTagValues[0] == None
    ensures forall k :: 1 <= k <= TagCount ==> creditTagValues[k] == Some(TagValue(record, k))
  {
    creditTagValues := [None];
    for creditTagNumber := 1 to TagCount + 1
      invariant |creditTagValues| == creditTagNumber && creditTagValues[0] == None
      invariant forall k :: 1 <= k < creditTagNumber ==> creditTagValues[k] == Some(TagValue(record, k))
    {
      var startIndex := (NameLength + SsnLength) + ((creditTagNumber - 1) * TagLength);
      var value := Trim(Substr(record, startIndex, TagLength));
      assert value == TagField(record, creditTagNumber);
      value := StripTagZeros(value);
      var parsed := ParseInt(value);
      creditTagValues := creditTagValues + [Some(parsed)];
    }
  }

  /** The sign-dependent stripping of :118-125 on a trimmed field, as the
      source's statements reassign `value`: after a '-' the regex
      `/^-0{1,7}/`, with "-0" mapped to "0"; otherwise `/^0{1,8}/`. It is
      proved equal to the expression form `NormalizeTag`, which the lemmas
      about signs and digits below are stated over. */
  method StripTagZeros(field: string) returns (value: string)
    ensures value == NormalizeTag(field)
  {
    value := field;
    if SubstrIsMinus(value) {
      value := StripNegativeZeros(value);
      if value == "-0" {
        value := "0";
      }
    } else {
      value := StripLeadingZeros(value, 8);
    }
  }

  // ---------------------------------------------------------------------
  // What the zero stripping does to well-formed fields

  /** A field of digits (after `trim`, which leaves it alone) decodes to
      its decimal value, except that a field of at most eight zeros is
      stripped to "" and parses to NaN. With nine or more characters the
      strip always leaves a digit, so `000000000` is 0 and `000000123` is
      123. The same holds for the SSN and for a tag without a sign. */
  lemma DigitFieldValue(s: string)
    requires AllDigits(s)
    ensures NormalizeTag(Trim(s)) == StripLeadingZeros(Trim(s), 8)
    ensures ParseInt(StripLeadingZeros(Trim(s), 8))
            == if AllZeros(s) && |s| <= 8 then NaN else Int(false, DigitsValue(s))
  {
    TrimUnpadded(s);
    UnsignedDigitsValue(s);
  }

  /** The same for digits already trimmed. */
  lemma UnsignedDigitsValue(s: string)
    requires AllDigits(s)
    ensures NormalizeTag(s) == StripLeadingZeros(s, 8)
    ensures ParseInt(StripLeadingZeros(s, 8))
            == if AllZeros(s) && |s| <= 8 then NaN else Int(false, DigitsValue(s))
  {
    assert NormalizeTag(s) == StripLeadingZeros(s, 8) by {
      assert !SubstrIsMinus(s);
    }
    StripZerosOfDigits(s, 8);
    ParseIntOfDigitString(StripLeadingZeros(s, 8));
  }

  /** A tag written as '-' and digits: with no zero after the sign it
      parses to the negative number; with zeros after it the regex of :119
      removes the sign together with up to seven zeros, so the value comes
      out non-negative, or NaN when nothing is left. The `-0` case of
      :120-122 never arises here, and the result is never -0. */
  lemma NegativeDigitFieldValue(d: string)
    requires AllDigits(d)
    ensures ParseInt(NormalizeTag("-" + d))
            == if d == [] then NaN
               else if d[0] != '0' then Int(true, DigitsValue(d))
               else if AllZeros(d) && |d| <= 7 then NaN
               else Int(false, DigitsValue(d))
    ensures ParseInt(NormalizeTag("-" + d)) != Int(true, 0)
  {
    NormalizeNegativeDigits(d);
    if d == [] || d[0] != '0' {
      ParseIntOfSignedDigits(d);
      if d != [] {
        DigitsValuePositive(d);
      }
    } else {
      StripZerosOfDigits(d, 7);
      ParseIntOfDigitString(StripLeadingZeros(d, 7));
    }
  }

  /** What :118-125 make of '-' and digits: the sign survives only when no
      zero follows it. */
  lemma NormalizeNegativeDigits(d: string)
    requires AllDigits(d)
    ensures NormalizeTag("-" + d)
            == if d == [] || d[0] != '0' then "-" + d else StripLeadingZeros(d, 7)
  {
    var v := "-" + d;
    assert SubstrIsMinus(v);
    assert v[1..] == d;
    if d != [] && d[0] == '0' {
      var w := StripLeadingZeros(d, 7);
      assert StripNegativeZeros(v) == w;
      assert w != "-0" by {
        if |w| > 0 {
          assert w[0] == d[|d| - |w|];
        }
      }
    }
  }

  /** A nine-character field of zeros decodes to 0 and not to NaN, as an
      SSN and as a tag: the strip stops one zero short. */
  lemma ZeroFieldDecodesToZero(zeros: string)
    requires |zeros| == 9 && AllZeros(zeros)
    ensures ParseInt(StripLeadingZeros(Trim(zeros), 8)) == Int(false, 0)
    ensures ParseInt(NormalizeTag(Trim(zeros))) == Int(false, 0)
  {
    AllZerosValue(zeros);
    DigitFieldValue(zeros);
  }

  /** A tag field of '-' and eight zeros decodes to 0 as well: the regex
      of :119 takes the sign and seven zeros and leaves "0". */
  lemma NegativeZeroFieldDecodesToZero(zeros: string)
    requires |zeros| == 8 && AllZeros(zeros)
    ensures ParseInt(NormalizeTag(Trim("-" + zeros))) == Int(false, 0)
  {
    TrimUnpadded("-" + zeros);
    AllZerosValue(zeros);
    NegativeDigitFieldValue(zeros);
  }

  /** The sign is lost once a zero follows it: `-00000012` decodes as
      `00000012` does, to 12. */
  lemma SignIgnoredAfterZero(d: string)
    requires AllDigits(d) && |d| > 0 && d[0] == '0' && !AllZeros(d)
    ensures ParseInt(NormalizeTag("-" + d)) == Int(false, DigitsValue(d))
    ensures ParseInt(NormalizeTag(d)) == Int(false, DigitsValue(d))
  {
    assert ParseInt(NormalizeTag("-" + d)) == Int(false, DigitsValue(d)) by {
      NegativeDigitFieldValue(d);
    }
    assert ParseInt(NormalizeTag(d)) == Int(false, DigitsValue(d)) by {
      UnsignedDigitsValue(d);
    }
  }

  /** A tag whose field starts at or past the end of the record reads as
      "" through `substr` and decodes to NaN. */
  lemma TagPastEndIsNaN(record: string, k: int)
    requires 1 <= k <= TagCount
    requires TagStart(k) >= |record|
    ensures TagValue(record, k) == NaN
  {
    assert TagField(record, k) == [];
    assert NormalizeTag([]) == [];
  }

  // ---------------------------------------------------------------------
  // The layout is all the decoder reads

  /** On a record of at least the layout's width, each field is exactly
      its window of the record. */
  lemma FieldsAreWindows(record: string, k: int)
    requires |record| >= RecordWidth
    requires 1 <= k <= TagCount
    ensures Substr(record, 0, NameLength) == record[..NameLength]
    ensures Substr(record, SsnOffset, SsnLength) == record[SsnOffset..SsnOffset + SsnLength]
    ensures Substr(record, TagStart(k), TagLength) == record[TagStart(k)..TagStart(k) + TagLength]
  {
    TagFieldsTile();
  }

  /** Two records that agree on their first 1881 characters decode alike:
      whatever follows (the line terminator, the rest of an 1800- or
      1801-character slice) is never read. */
  lemma DecodeReadsOnlyLayout(r1: string, r2: string)
    requires |r1| >= RecordWidth && |r2| >= RecordWidth
    requires r1[..RecordWidth] == r2[..RecordWidth]
    ensures RecordName(r1) == RecordName(r2)
    ensures SsnResidual(r1) == SsnResidual(r2)
    ensures forall k :: 1 <= k <= TagCount ==> TagValue(r1, k) == TagValue(r2, k)
  {
    SameWindow(r1, r2, 0, NameLength);
    SameWindow(r1, r2, SsnOffset, SsnLength);
    forall k | 1 <= k <= TagCount
      ensures TagValue(r1, k) == TagValue(r2, k)
    {
      TagFieldsTile();
      SameWindow(r1, r2, TagStart(k), TagLength);
    }
  }

  lemma SameWindow(r1: string, r2: string, start: nat, length: nat)
    requires |r1| >= RecordWidth && |r2| >= RecordWidth
    requires r1[..RecordWidth] == r2[..RecordWidth]
    requires start + length <= RecordWidth
    ensures Substr(r1, start, length) == Substr(r2, start, length)
  {
    forall p | start <= p < start + length
      ensures r1[p] == r2[p]
    {
      assert r1[p] == r1[..RecordWidth][p];
    }
  }
}
