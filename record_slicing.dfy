/** Cutting a buffer of fixed-width rows into records, each tagged with its
    absolute line number (`extractRecordsToInsert`,
    Utilities/bulk_insert.js:131-140).

    As written the loop never advances `startBufferIndex` and so never
    ends once `dataLength > 0`; the model advances it to `endBufferIndex`,
    as the loop evidently means to, and returns the records it builds,
    which the repository's version computes and drops. */
module RecordSlicing {
  import opened JsText

  /** One row of the input: its 1-based line number in the file and the
      characters of its stride (content and line terminator). */
  datatype RawRecord = RawRecord(lineNumber: int, text: string)

  /** Offset of stride `i` (0-based): `i * stride`, built up one stride at
      a time as the loop builds it. */
  function Offset(i: nat, stride: nat): nat {
    if i == 0 then 0 else Offset(i - 1, stride) + stride
  }

  /** The number of strides of width `stride` that start before
      `dataLength`: the least `n` whose strides reach `dataLength`. */
  function StrideCount(dataLength: nat, stride: nat): (n: nat)
    requires stride > 0
    ensures Offset(n, stride) >= dataLength
    ensures n == 0 || Offset(n - 1, stride) < dataLength
  {
    if dataLength == 0 then 0
    else if dataLength <= stride then 1
    else StrideCount(dataLength - stride, stride) + 1
  }

  /** Record `i` (0-based) of a chunk: the stride starting at offset
      `i * stride`, numbered `startingLineCount + i`. */
  function RecordAt(buffer: seq<char>, stride: nat, startingLineCount: int, i: nat): (record: RawRecord)
    ensures |record.text| <= stride
    ensures Offset(i, stride) + stride <= |buffer| ==> |record.text| == stride
    ensures |buffer| <= Offset(i, stride) ==> record.text == []
  {
    RawRecord(startingLineCount + i, BufferSlice(buffer, Offset(i, stride), Offset(i, stride) + stride))
  }

  /** The first `n` records of a chunk. */
  function Slices(buffer: seq<char>, stride: nat, startingLineCount: int, n: nat): (records: seq<RawRecord>)
    ensures |records| == n
  {
    if n == 0 then [] else Slices(buffer, stride, startingLineCount, n - 1) + [RecordAt(buffer, stride, startingLineCount, n - 1)]
  }

  /** The characters of the records, one after another. */
  function Texts(records: seq<RawRecord>): string {
    if |records| == 0 then [] else Texts(records[..|records| - 1]) + records[|records| - 1].text
  }

  /** Walks `buffer` from offset 0 in strides of `fixedRowLength + 1` while
      the stride starts before `dataLength`, numbering the rows from
      `startingLineCount`. The last stride is cut short only by the end of
      the buffer, not by `dataLength`. */
  method ExtractRecordsToInsert(buffer: array<char>, dataLength: nat, startingLineCount: int, fixedRowLength: nat)
    returns (records: seq<RawRecord>)
    ensures |records| == StrideCount(dataLength, fixedRowLength + 1)
    ensures records == Slices(buffer[..], fixedRowLength + 1, startingLineCount, |records|)
  {
    ghost var stride := fixedRowLength + 1;
    ghost var data := buffer[..];
    var startBufferIndex := 0;
    var lineCount := startingLineCount - 1;
    records := [];
    while startBufferIndex < dataLength
      invariant startBufferIndex == Offset(|records|, stride)
      invariant lineCount == startingLineCount + |records| - 1
      invariant records == [] || Offset(|records| - 1, stride) < dataLength
      invariant records == Slices(data, stride, startingLineCount, |records|)
      decreases dataLength - startBufferIndex
    {
      lineCount := lineCount + 1;
      var endBufferIndex := startBufferIndex + fixedRowLength + 1;
      var consumerRecord := BufferSlice(buffer[..], startBufferIndex, endBufferIndex);
      assert RawRecord(lineCount, consumerRecord) == RecordAt(data, stride, startingLineCount, |records|);
      records := records + [RawRecord(lineCount, consumerRecord)];
      startBufferIndex := endBufferIndex;
    }
    StrideCountUnique(dataLength, stride, |records|);
    assert data == buffer[..];
  }

  // ---------------------------------------------------------------------
  // Lemmas

  /** The offsets are the multiples of the stride written in the source:
      record `i` starts at `i * (fixedRowLength + 1)`. */
  lemma {:induction false} OffsetIsProduct(i: nat, stride: nat)
    ensures Offset(i, stride) == i * stride
  {
    if i > 0 {
      OffsetIsProduct(i - 1, stride);
      assert (i - 1) * stride + stride == i * stride;
    }
  }

  /** Offsets grow with the index: later records start strictly later,
      one full stride apart at least. */
  lemma {:induction false} OffsetsIncrease(i: nat, j: nat, stride: nat)
    requires i < j
    ensures Offset(i, stride) + stride <= Offset(j, stride)
  {
    if i + 1 < j {
      OffsetsIncrease(i, j - 1, stride);
    }
  }

  /** `StrideCount` is the only count with its two bounds. */
  lemma StrideCountUnique(dataLength: nat, stride: nat, n: nat)
    requires stride > 0
    requires Offset(n, stride) >= dataLength
    requires n == 0 || Offset(n - 1, stride) < dataLength
    ensures n == StrideCount(dataLength, stride)
  {
    var m := StrideCount(dataLength, stride);
    if n < m {
      OffsetsIncrease(n, m - 1, stride);
    } else if m < n {
      OffsetsIncrease(m, n - 1, stride);
    }
  }

  /** A window of exactly `count` strides yields exactly `count` records. */
  lemma FullWindowStrides(count: nat, stride: nat)
    requires stride > 0
    ensures StrideCount(Offset(count, stride), stride) == count
  {
    if count > 0 {
      OffsetsIncrease(count - 1, count, stride);
    }
    StrideCountUnique(Offset(count, stride), stride, count);
  }

  /** Record `i` of the slices is the stride at offset `i * stride`,
      numbered `startingLineCount + i`. */
  lemma {:induction false} SlicesAt(buffer: seq<char>, stride: nat, startingLineCount: int, n: nat, i: nat)
    requires i < n
    ensures Slices(buffer, stride, startingLineCount, n)[i] == RecordAt(buffer, stride, startingLineCount, i)
  {
    if i < n - 1 {
      SlicesAt(buffer, stride, startingLineCount, n - 1, i);
    }
  }

  /** Line numbers are consecutive: each record is numbered one more than
      the one before it. */
  lemma LineNumbersConsecutive(buffer: seq<char>, stride: nat, startingLineCount: int, n: nat, i: nat)
    requires i + 1 < n
    ensures var records := Slices(buffer, stride, startingLineCount, n);
      records[i + 1].lineNumber == records[i].lineNumber + 1
  {
    SlicesAt(buffer, stride, startingLineCount, n, i);
    SlicesAt(buffer, stride, startingLineCount, n, i + 1);
  }

  /** The records tile the buffer: laid end to end they give back the
      buffer up to the end of the last stride, so no character is skipped
      or read twice. */
  lemma {:induction false} SlicesTile(buffer: seq<char>, stride: nat, startingLineCount: int, n: nat)
    requires Offset(n, stride) <= |buffer|
    ensures Texts(Slices(buffer, stride, startingLineCount, n)) == buffer[..Offset(n, stride)]
  {
    if n > 0 {
      var lo := Offset(n - 1, stride);
      var prev := Slices(buffer, stride, startingLineCount, n - 1);
      var last := RecordAt(buffer, stride, startingLineCount, n - 1);
      assert Slices(buffer, stride, startingLineCount, n) == prev + [last];
      assert last.text == buffer[lo..lo + stride];
      calc {
        Texts(prev + [last]);
        { TextsSnoc(prev, last); }
        Texts(prev) + last.text;
        { SlicesTile(buffer, stride, startingLineCount, n - 1); }
        buffer[..lo] + buffer[lo..lo + stride];
        { SliceJoin(buffer, lo, lo + stride); }
        buffer[..lo + stride];
      }
    }
  }

  lemma TextsSnoc(records: seq<RawRecord>, last: RawRecord)
    ensures Texts(records + [last]) == Texts(records) + last.text
  {
    assert (records + [last])[..|records|] == records;
  }

  /** The buffer up to `lo`, then the buffer from `lo` to `hi`, is the
      buffer up to `hi`. */
  lemma SliceJoin(buffer: seq<char>, lo: nat, hi: nat)
    requires lo <= hi <= |buffer|
    ensures buffer[..lo] + buffer[lo..hi] == buffer[..hi]
  {
  }

  /** The records cover the buffer up to the end of the last stride, or
      all of it when that stride runs past the buffer's end. */
  lemma {:induction false} TextsLength(buffer: seq<char>, stride: nat, startingLineCount: int, n: nat)
    ensures |Texts(Slices(buffer, stride, startingLineCount, n))| == Min(Offset(n, stride), |buffer|)
  {
    if n > 0 {
      var prev := Slices(buffer, stride, startingLineCount, n - 1);
      var last := RecordAt(buffer, stride, startingLineCount, n - 1);
      assert Slices(buffer, stride, startingLineCount, n) == prev + [last];
      TextsSnoc(prev, last);
      TextsLength(buffer, stride, startingLineCount, n - 1);
    }
  }

  /** Unless `dataLength` falls on a stride boundary, the last record runs
      past `dataLength` into whatever the buffer holds beyond it. */
  lemma LastRecordOverrunsData(buffer: seq<char>, dataLength: nat, stride: nat, startingLineCount: int)
    requires stride > 0
    requires Offset(StrideCount(dataLength, stride), stride) != dataLength
    requires dataLength < |buffer|
    ensures var n := StrideCount(dataLength, stride);
      |Texts(Slices(buffer, stride, startingLineCount, n))| > dataLength
  {
    var n := StrideCount(dataLength, stride);
    TextsLength(buffer, stride, startingLineCount, n);
  }
}
