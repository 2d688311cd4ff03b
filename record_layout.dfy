/** The fixed-width consumer record: a 72-character name, a 9-character
    social security number and 200 credit tags of 9 characters each, all
    at fixed 0-based offsets (Utilities/bulk_insert.js:101, :107, :116). */
module RecordLayout {

  const NameLength: nat := 72
  const SsnOffset: nat := 72
  const SsnLength: nat := 9
  const TagLength: nat := 9
  const TagCount: nat := 200

  /** Content characters the offsets reach: 72 + 9 + 200 * 9. */
  const RecordWidth: nat := 1881

  /** First character of credit tag `k` (1-based), written as the loader
      writes it: `(72 + 9) + ((k - 1) * 9)`. */
  function TagStart(k: int): (start: nat)
    requires 1 <= k <= TagCount
    ensures SsnOffset + SsnLength <= start && start + TagLength <= RecordWidth
  {
    (NameLength + SsnLength) + ((k - 1) * TagLength)
  }

  /** The credit tag whose field holds offset `p`. */
  function TagAt(p: nat): (k: int)
    requires TagStart(1) <= p < RecordWidth
    ensures 1 <= k <= TagCount
    ensures TagStart(k) <= p < TagStart(k) + TagLength
  {
    (p - TagStart(1)) / TagLength + 1
  }

  /** The tag fields lie end to end: the first starts where the SSN field
      ends, each starts where the one before ends, the last ends at the
      record width, and no two of them overlap. */
  lemma TagFieldsTile()
    ensures TagStart(1) == SsnOffset + SsnLength && SsnOffset == NameLength
    ensures forall k :: 1 <= k < TagCount ==> TagStart(k) + TagLength == TagStart(k + 1)
    ensures TagStart(TagCount) + TagLength == RecordWidth
    ensures forall j, k :: 1 <= j < k <= TagCount ==> TagStart(j) + TagLength <= TagStart(k)
  {
  }

  /** Every offset past the SSN field and before the record width lies in
      exactly one tag field. */
  lemma TagFieldOfOffsetUnique(p: nat, k: int)
    requires 1 <= k <= TagCount
    requires TagStart(k) <= p < TagStart(k) + TagLength
    ensures TagStart(1) <= p < RecordWidth
    ensures TagAt(p) == k
  {
  }
}
