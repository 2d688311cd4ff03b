/** Writing a consumer record in the fixed-width layout the loader reads:
    the name left-aligned and space-filled to 72 characters, the SSN and
    each credit tag as nine zero-padded decimal digits, then a newline.
    The loader has no writer of its own; this one is the reference the
    decoder is checked against. */
module RecordEncoder {
  import opened JsText
  import opened RecordLayout
  import opened RecordDecoder

  /** The decimal digit for `d`. */
  function DigitChar(d: nat): (c: char)
    requires d < 10
    ensures IsDigit(c) && DigitValue(c) == d
  {
    (('0' as int) + d) as char
  }

  /** The last `width` decimal digits of `n`, zero-padded: exactly `n`
      when `n < 10^width`. */
  function ZeroPad(n: nat, width: nat): (s: string)
    ensures |s| == width && AllDigits(s)
    ensures n < Pow10(width) ==> DigitsValue(s) == n
  {
    if width == 0 then []
    else
      var init := ZeroPad(n / 10, width - 1);
      var s := init + [DigitChar(n % 10)];
      assert s[..|s| - 1] == init;
      s
  }

  /** `name` followed by spaces up to `width` characters. */
  function SpacePad(name: string, width: nat): (s: string)
    requires |name| <= width
    ensures |s| == width && s[..|name|] == name
    ensures forall j :: |name| <= j < width ==> s[j] == ' '
  {
    name + seq(width - |name|, _ => ' ')
  }

  /** The 200 tag fields, one after another. */
  function TagsText(tags: seq<nat>): (s: string)
    ensures |s| == TagLength * |tags|
  {
    if |tags| == 0 then [] else TagsText(tags[..|tags| - 1]) + ZeroPad(tags[|tags| - 1], TagLength)
  }

  /** A whole line: the 1881 content characters and the newline. */
  function EncodeRecord(name: string, ssn: nat, tags: seq<nat>): (record: string)
    requires |name| <= NameLength && |tags| == TagCount
    ensures |record| == RecordWidth + 1
  {
    SpacePad(name, NameLength) + ZeroPad(ssn, SsnLength) + TagsText(tags) + "\n"
  }

  /** A name the layout can carry unchanged: at most 72 characters, with
      no whitespace at either end (which `trim` would remove). */
  predicate StorableName(name: string) {
    |name| <= NameLength
    && (|name| > 0 ==> !IsJsWhitespace(name[0]) && !IsJsWhitespace(name[|name| - 1]))
  }

  // ---------------------------------------------------------------------
  // Lemmas

  /** Tag field `j` (0-based) of the tag text is tag `j` zero-padded. */
  lemma {:induction false} TagsTextField(tags: seq<nat>, j: nat)
    requires j < |tags|
    ensures TagsText(tags)[TagLength * j..TagLength * j + TagLength] == ZeroPad(tags[j], TagLength)
    decreases |tags|
  {
    var init := tags[..|tags| - 1];
    assert TagsText(tags) == TagsText(init) + ZeroPad(tags[|tags| - 1], TagLength);
    if j < |tags| - 1 {
      TagsTextField(init, j);
      assert init[j] == tags[j];
    }
  }

  /** A window inside the middle part of a concatenation is a window of
      that part. */
  lemma MiddleWindow(head: string, text: string, tail: string, i: nat, n: nat)
    requires i + n <= |text|
    ensures (head + text + tail)[|head| + i..|head| + i + n] == text[i..i + n]
  {
  }

  /** The name field of an encoded record is the space-padded name. */
  lemma EncodedName(name: string, ssn: nat, tags: seq<nat>)
    requires |name| <= NameLength && |tags| == TagCount
    ensures Substr(EncodeRecord(name, ssn, tags), 0, NameLength) == SpacePad(name, NameLength)
  {
    var field := SpacePad(name, NameLength);
    var rest := ZeroPad(ssn, SsnLength) + TagsText(tags) + "\n";
    assert EncodeRecord(name, ssn, tags) == field + rest;
    assert (field + rest)[..NameLength] == field;
  }

  /** The SSN field of an encoded record is the zero-padded SSN. */
  lemma EncodedSsn(name: string, ssn: nat, tags: seq<nat>)
    requires |name| <= NameLength && |tags| == TagCount
    ensures Substr(EncodeRecord(name, ssn, tags), SsnOffset, SsnLength) == ZeroPad(ssn, SsnLength)
  {
    var field := ZeroPad(ssn, SsnLength);
    MiddleWindow(SpacePad(name, NameLength), field, TagsText(tags) + "\n", 0, SsnLength);
    assert EncodeRecord(name, ssn, tags) == SpacePad(name, NameLength) + field + (TagsText(tags) + "\n");
  }

  /** Tag field `k` of an encoded record is tag `k` zero-padded. */
  lemma EncodedTag(name: string, ssn: nat, tags: seq<nat>, k: int)
    requires |name| <= NameLength && |tags| == TagCount
    requires 1 <= k <= TagCount
    ensures Substr(EncodeRecord(name, ssn, tags), TagStart(k), TagLength) == ZeroPad(tags[k - 1], TagLength)
  {
    var head := SpacePad(name, NameLength) + ZeroPad(ssn, SsnLength);
    var text := TagsText(tags);
    var i := TagLength * (k - 1);
    assert TagStart(k) == |head| + i;
    MiddleWindow(head, text, "\n", i, TagLength);
    TagsTextField(tags, k - 1);
  }

  /** The name comes back; an empty one is the one that draws the
      warning. */
  lemma NameRoundTrip(name: string, ssn: nat, tags: seq<nat>)
    requires StorableName(name) && |tags| == TagCount
    ensures RecordName(EncodeRecord(name, ssn, tags)) == name
  {
    EncodedName(name, ssn, tags);
    var field := SpacePad(name, NameLength);
    assert field[..|name|] == name;
    TrimIsUnique(field, 0, |name|);
  }

  /** A nine-digit field holding `n < 10^9` decodes to `n`. */
  lemma PaddedValueDecodes(n: nat)
    requires n < Pow10(9)
    ensures ParseInt(StripLeadingZeros(Trim(ZeroPad(n, 9)), 8)) == Int(false, n)
    ensures ParseInt(NormalizeTag(Trim(ZeroPad(n, 9)))) == Int(false, n)
  {
    DigitFieldValue(ZeroPad(n, 9));
  }

  /** The SSN comes back, as the number and not as NaN. */
  lemma SsnRoundTrip(name: string, ssn: nat, tags: seq<nat>)
    requires |name| <= NameLength && |tags| == TagCount
    requires ssn < Pow10(SsnLength)
    ensures ParseInt(SsnResidual(EncodeRecord(name, ssn, tags))) == Int(false, ssn)
  {
    EncodedSsn(name, ssn, tags);
    PaddedValueDecodes(ssn);
  }

  /** Tag `k` comes back in slot `k`. */
  lemma TagRoundTrip(name: string, ssn: nat, tags: seq<nat>, k: int)
    requires |name| <= NameLength && |tags| == TagCount
    requires 1 <= k <= TagCount && tags[k - 1] < Pow10(TagLength)
    ensures TagValue(EncodeRecord(name, ssn, tags), k) == Int(false, tags[k - 1])
  {
    EncodedTag(name, ssn, tags, k);
    PaddedValueDecodes(tags[k - 1]);
  }

  /** Decoding an encoded record gives back its name, SSN and tags: the
      decoder's fields invert the writer for every storable name and
      every value below 10^9. */
  lemma RoundTrip(name: string, ssn: nat, tags: seq<nat>)
    requires StorableName(name) && |tags| == TagCount
    requires ssn < Pow10(SsnLength)
    requires forall k :: 0 <= k < |tags| ==> tags[k] < Pow10(TagLength)
    ensures var record := EncodeRecord(name, ssn, tags);
      && RecordName(record) == name
      && ParseInt(SsnResidual(record)) == Int(false, ssn)
      && forall k :: 1 <= k <= TagCount ==> TagValue(record, k) == Int(false, tags[k - 1])
  {
    NameRoundTrip(name, ssn, tags);
    SsnRoundTrip(name, ssn, tags);
    forall k | 1 <= k <= TagCount
      ensures TagValue(EncodeRecord(name, ssn, tags), k) == Int(false, tags[k - 1])
    {
      TagRoundTrip(name, ssn, tags, k);
    }
  }
}
