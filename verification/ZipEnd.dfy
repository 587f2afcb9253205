/**
 * Counting the entries of a downloaded ZIP archive from its end record, by a bounded backward scan
 * (sections 4.3.12 and 4.3.16 of the PKWARE ZIP APPNOTE).
 */
module ZipEnd {
  import opened Wrappers

  datatype ArchiveError =
    NoEndRecord | NoValidEndRecord | NotSingleDisk | InconsistentCentralDirectory | NotExactlyOneRecord

  const END_RECORD_LENGTH: nat := 22
  const MAX_COMMENT_LENGTH: nat := 0xFFFF
  const CENTRAL_RECORD_LENGTH: nat := 46
  const END_SIGNATURE: Bytes := [0x50, 0x4B, 5, 6]
  const CENTRAL_SIGNATURE: Bytes := [0x50, 0x4B, 1, 2]

  function U16(bytes: Bytes, at: nat): (value: nat)
    requires at + 2 <= |bytes|
    ensures value <= 0xFFFF
  {
    var low: int, high: int := bytes[at], bytes[at + 1];
    low + 0x100 * high
  }

  function U32(bytes: Bytes, at: nat): nat
    requires at + 4 <= |bytes|
  {
    U16(bytes, at) + 0x1_0000 * U16(bytes, at + 2)
  }

  /** An end record stands here and its comment reaches exactly to the end of the archive. */
  predicate ConsistentEnd(archive: Bytes, at: nat) {
    && at + END_RECORD_LENGTH <= |archive|
    && archive[at..at + 4] == END_SIGNATURE
    && at + END_RECORD_LENGTH + U16(archive, at + 20) == |archive|
  }

  /** The consistent end record at the greatest offset of the whole archive. */
  ghost predicate LastEnd(archive: Bytes, at: nat) {
    ConsistentEnd(archive, at) && forall later :: at < later ==> !ConsistentEnd(archive, later)
  }

  function CentralLength(archive: Bytes, at: nat): nat
    requires at + CENTRAL_RECORD_LENGTH <= |archive|
  {
    CENTRAL_RECORD_LENGTH + U16(archive, at + 28) + U16(archive, at + 30) + U16(archive, at + 32)
  }

  /** The verdict on one end record. */
  function Judge(archive: Bytes, at: nat): Result<nat, ArchiveError>
    requires at + END_RECORD_LENGTH <= |archive|
  {
    var entries := U16(archive, at + 10);
    if U16(archive, at + 4) != 0 || U16(archive, at + 6) != 0 || U16(archive, at + 8) != entries || entries == 0xFFFF
    then Err(NotSingleDisk)
    else if entries != 1 then Ok(entries)
    else
      var size, offset := U32(archive, at + 12), U32(archive, at + 16);
      if size < CENTRAL_RECORD_LENGTH || offset + size != at || archive[offset..offset + 4] != CENTRAL_SIGNATURE
      then Err(InconsistentCentralDirectory)
      else if CentralLength(archive, offset) != size then Err(NotExactlyOneRecord)
      else Ok(1)
  }

  lemma OnlyOneLastEnd(archive: Bytes, a: nat, b: nat)
    requires LastEnd(archive, a) && LastEnd(archive, b)
    ensures a == b
  {
  }

  /** What counting comes to: the verdict on the last consistent end record, if the archive has one. */
  ghost function Count(archive: Bytes): Result<nat, ArchiveError> {
    if |archive| < END_RECORD_LENGTH then Err(NoEndRecord)
    else if exists at: nat :: LastEnd(archive, at) then
      var at: nat :| LastEnd(archive, at);
      Judge(archive, at)
    else Err(NoValidEndRecord)
  }

  lemma CountJudgesLastEnd(archive: Bytes, at: nat)
    requires LastEnd(archive, at)
    ensures Count(archive) == Judge(archive, at)
  {
    forall other: nat | LastEnd(archive, other) ensures other == at {
      OnlyOneLastEnd(archive, at, other);
    }
  }

  method ZipEntryCount(archive: Bytes) returns (count: Result<nat, ArchiveError>)
    ensures count == Count(archive)
    ensures |archive| < END_RECORD_LENGTH ==> count == Err(NoEndRecord)
    ensures |archive| >= END_RECORD_LENGTH && (forall at :: !ConsistentEnd(archive, at)) ==>
              count == Err(NoValidEndRecord)
    ensures forall at :: LastEnd(archive, at) ==> count == Judge(archive, at)
  {
    if |archive| < END_RECORD_LENGTH {
      return Err(NoEndRecord);
    }
    var window := END_RECORD_LENGTH + MAX_COMMENT_LENGTH;
    var searchStart := if |archive| < window then 0 else |archive| - window;
    var searchEnd := |archive| - END_RECORD_LENGTH;
    for offset := searchEnd + 1 downto searchStart
      invariant forall at :: offset <= at ==> !ConsistentEnd(archive, at)
    {
      if archive[offset..offset + 4] != END_SIGNATURE {
        continue;
      }
      var commentLength := U16(archive, offset + 20);
      if offset + END_RECORD_LENGTH + commentLength != |archive| {
        continue;
      }
      assert LastEnd(archive, offset);
      CountJudgesLastEnd(archive, offset);
      forall at | LastEnd(archive, at) ensures at == offset {
        OnlyOneLastEnd(archive, at, offset);
      }
      var entries := U16(archive, offset + 10);
      if U16(archive, offset + 4) != 0 || U16(archive, offset + 6) != 0
         || U16(archive, offset + 8) != entries || entries == 0xFFFF
      {
        return Err(NotSingleDisk);
      }
      if entries == 1 {
        var size, central := U32(archive, offset + 12), U32(archive, offset + 16);
        if size < CENTRAL_RECORD_LENGTH || central + size != offset
           || archive[central..central + 4] != CENTRAL_SIGNATURE
        {
          return Err(InconsistentCentralDirectory);
        }
        if CentralLength(archive, central) != size {
          return Err(NotExactlyOneRecord);
        }
      }
      return Ok(entries);
    }
    return Err(NoValidEndRecord);
  }

  // ---- What the verdict means ------------------------------------------------------------------------

  /** An independent reading of the central directory: the number of records that fill a stretch exactly. */
  function CentralRecords(archive: Bytes, from: nat, to: nat): Option<nat>
    requires from <= to <= |archive|
    decreases |archive| - from
  {
    if from == to then Some(0)
    else if from + CENTRAL_RECORD_LENGTH > to || archive[from..from + 4] != CENTRAL_SIGNATURE then None
    else if from + CentralLength(archive, from) > to then None
    else match CentralRecords(archive, from + CentralLength(archive, from), to)
      case None => None
      case Some(rest) => Some(1 + rest)
  }

  predicate SingleDisk(archive: Bytes, at: nat)
    requires at + END_RECORD_LENGTH <= |archive|
  {
    U16(archive, at + 4) == 0 && U16(archive, at + 6) == 0 && U16(archive, at + 8) == U16(archive, at + 10)
  }

  /**
   * The verdict is one entry exactly when the end record is a single-disk record of one entry whose
   * directory ends where the end record begins and holds exactly one well-formed record.
   */
  lemma OneEntryMeansOneRecord(archive: Bytes, at: nat)
    requires at + END_RECORD_LENGTH <= |archive|
    ensures Judge(archive, at) == Ok(1) <==>
            && SingleDisk(archive, at) && U16(archive, at + 10) == 1
            && U32(archive, at + 16) + U32(archive, at + 12) == at
            && CentralRecords(archive, U32(archive, at + 16), at) == Some(1)
  {
    var offset := U32(archive, at + 16);
    if offset + CENTRAL_RECORD_LENGTH <= at && offset + CentralLength(archive, offset) < at {
      assert CentralRecords(archive, offset + CentralLength(archive, offset), at) != Some(0);
    }
  }

  /** No record that could matter lies before the scanned window: a comment's length fits sixteen bits. */
  lemma WindowLosesNothing(archive: Bytes, at: nat)
    requires ConsistentEnd(archive, at)
    ensures |archive| <= at + END_RECORD_LENGTH + MAX_COMMENT_LENGTH
  {
  }

  // ---- A round trip ------------------------------------------------------------------------------------

  function LittleEndian(value: nat, width: nat): (bytes: Bytes)
    ensures |bytes| == width
  {
    if width == 0 then [] else [value % 256] + LittleEndian(value / 256, width - 1)
  }

  /** The end record of a single-disk archive of one entry. */
  function EndRecord(size: nat, offset: nat, comment: Bytes): (record: Bytes)
    ensures |record| == END_RECORD_LENGTH + |comment|
  {
    END_SIGNATURE + [0, 0, 0, 0, 1, 0, 1, 0] + LittleEndian(size, 4) + LittleEndian(offset, 4)
    + LittleEndian(|comment|, 2) + comment
  }

  lemma EndRecordFields(size: nat, offset: nat, comment: Bytes)
    requires size < 0x1_0000_0000 && offset < 0x1_0000_0000 && |comment| <= MAX_COMMENT_LENGTH
    ensures var record := EndRecord(size, offset, comment);
            && ConsistentEnd(record, 0) && SingleDisk(record, 0) && U16(record, 10) == 1
            && U32(record, 12) == size && U32(record, 16) == offset
  {
    var record := EndRecord(size, offset, comment);
    assert record[..4] == END_SIGNATURE;
    assert record[12..16] == LittleEndian(size, 4) && record[16..20] == LittleEndian(offset, 4);
    assert record[20..22] == LittleEndian(|comment|, 2);
    FourBytes(size);
    FourBytes(offset);
    TwoBytes(|comment|);
    assert forall i :: 0 <= i < 4 ==> record[12 + i] == record[12..16][i] && record[16 + i] == record[16..20][i];
    assert forall i :: 0 <= i < 2 ==> record[20 + i] == record[20..22][i];
  }

  lemma FourBytes(value: nat)
    requires value < 0x1_0000_0000
    ensures LittleEndian(value, 4) == [value % 256, value / 256 % 256, value / 0x1_0000 % 256, value / 0x100_0000]
    ensures U32(LittleEndian(value, 4), 0) == value
  {
    assert value / 256 / 256 == value / 0x1_0000 && value / 0x1_0000 / 256 == value / 0x100_0000;
    assert LittleEndian(value / 0x100_0000, 1) == [value / 0x100_0000];
    assert LittleEndian(value / 0x1_0000, 2) == [value / 0x1_0000 % 256, value / 0x100_0000];
    assert LittleEndian(value / 256, 3) == [value / 256 % 256, value / 0x1_0000 % 256, value / 0x100_0000];
  }

  lemma TwoBytes(value: nat)
    requires value <= 0xFFFF
    ensures U16(LittleEndian(value, 2), 0) == value
  {
  }

  lemma EmbeddedU16(archive: Bytes, base: nat, part: Bytes, i: nat)
    requires base + |part| <= |archive| && archive[base..base + |part|] == part && i + 2 <= |part|
    ensures U16(archive, base + i) == U16(part, i)
  {
  }

  lemma EmbeddedEndRecord(archive: Bytes, at: nat, size: nat, offset: nat, comment: Bytes)
    requires size < 0x1_0000_0000 && offset < 0x1_0000_0000 && |comment| <= MAX_COMMENT_LENGTH
    requires at <= |archive| && archive[at..] == EndRecord(size, offset, comment)
    ensures ConsistentEnd(archive, at) && SingleDisk(archive, at) && U16(archive, at + 10) == 1
    ensures U32(archive, at + 12) == size && U32(archive, at + 16) == offset
  {
    var record := EndRecord(size, offset, comment);
    EndRecordFields(size, offset, comment);
    assert archive[at..at + |record|] == record;
    assert archive[at..at + 4] == archive[at..][0..4] == record[0..4];
    EmbeddedU16(archive, at, record, 4);
    EmbeddedU16(archive, at, record, 6);
    EmbeddedU16(archive, at, record, 8);
    EmbeddedU16(archive, at, record, 10);
    EmbeddedU16(archive, at, record, 12);
    EmbeddedU16(archive, at, record, 14);
    EmbeddedU16(archive, at, record, 16);
    EmbeddedU16(archive, at, record, 18);
    EmbeddedU16(archive, at, record, 20);
  }

  lemma EmbeddedRecord(archive: Bytes, base: nat, record: Bytes)
    requires base + |record| <= |archive| && archive[base..base + |record|] == record
    requires CentralRecords(record, 0, |record|) == Some(1)
    ensures CentralRecords(archive, base, base + |record|) == Some(1)
  {
  }

  /** Every archive of some data, one central record and an end record is counted as one entry at that record. */
  lemma AssembledArchiveHasOneEntry(archive: Bytes, data: Bytes, record: Bytes, comment: Bytes)
    requires archive == data + record + EndRecord(|record|, |data|, comment)
    requires CentralRecords(record, 0, |record|) == Some(1)
    requires |data| + |record| < 0x1_0000_0000 && |comment| <= MAX_COMMENT_LENGTH
    ensures ConsistentEnd(archive, |data| + |record|)
    ensures Judge(archive, |data| + |record|) == Ok(1)
  {
    Parts(archive, data, record, EndRecord(|record|, |data|, comment));
    EmbeddedEndRecord(archive, |data| + |record|, |record|, |data|, comment);
    EmbeddedRecord(archive, |data|, record);
    OneEntryMeansOneRecord(archive, |data| + |record|);
  }

  /** A consistent end record found within another archive's tail, seen from the start of the tail. */
  lemma EndInTail(archive: Bytes, at: nat, tail: Bytes, later: nat)
    requires at <= later && at <= |archive| && archive[at..] == tail
    ensures ConsistentEnd(archive, later) <==> ConsistentEnd(tail, later - at)
  {
    if later + END_RECORD_LENGTH <= |archive| {
      assert archive[later..later + 4] == tail[later - at..later - at + 4];
      assert archive[later + 20] == tail[later - at + 20] && archive[later + 21] == tail[later - at + 21];
    }
  }

  /**
   * The scan judges the end record that was written exactly when that record, with its comment, holds no
   * consistent end record after its first byte; without a comment it never does.
   */
  lemma WrittenEndIsLastExactlyWhen(archive: Bytes, at: nat, record: Bytes)
    requires at <= |archive| && archive[at..] == record && ConsistentEnd(record, 0)
    ensures LastEnd(archive, at) <==> forall k :: 0 < k ==> !ConsistentEnd(record, k)
    ensures |record| == END_RECORD_LENGTH ==> LastEnd(archive, at)
  {
    EndInTail(archive, at, record, at);
    forall later | at < later
      ensures ConsistentEnd(archive, later) <==> ConsistentEnd(record, later - at)
    {
      EndInTail(archive, at, record, later);
    }
    if LastEnd(archive, at) {
      forall k | 0 < k
        ensures !ConsistentEnd(record, k)
      {
        EndInTail(archive, at, record, at + k);
      }
    }
  }

  /** The sizes, offsets and lengths of an end record, where a signature could begin by accident. */
  predicate FieldsHoldNoP(size: nat, offset: nat, comment: Bytes) {
    0x50 !in LittleEndian(size, 4) && 0x50 !in LittleEndian(offset, 4) && 0x50 !in LittleEndian(|comment|, 2)
  }

  /** A later consistent end record begins in the fields from the directory's size on, or in the comment. */
  lemma LaterEndsOfWrittenRecord(size: nat, offset: nat, comment: Bytes, k: nat)
    requires 0 < k && ConsistentEnd(EndRecord(size, offset, comment), k)
    ensures 12 <= k
    ensures k < END_RECORD_LENGTH ==> !FieldsHoldNoP(size, offset, comment)
    ensures k >= END_RECORD_LENGTH ==> ConsistentEnd(comment, k - END_RECORD_LENGTH)
  {
    var record := EndRecord(size, offset, comment);
    assert record[k..k + 4][0] == record[k] == 0x50;
    if k < END_RECORD_LENGTH {
      assert record[12..16] == LittleEndian(size, 4) && record[16..20] == LittleEndian(offset, 4);
      assert record[20..22] == LittleEndian(|comment|, 2);
      assert 12 <= k < 16 ==> record[12..16][k - 12] == record[k];
      assert 16 <= k < 20 ==> record[16..20][k - 16] == record[k];
      assert 20 <= k < 22 ==> record[20..22][k - 20] == record[k];
    } else {
      assert record[END_RECORD_LENGTH..] == comment;
      EndInTail(record, END_RECORD_LENGTH, comment, k);
    }
  }

  /**
   * What a writer can check: the scan judges the written end record exactly when no consistent end record
   * begins in the comment, or by accident in the ten bytes of sizes and offsets before it; none begins in
   * those when they do not hold the first byte of a signature.
   */
  lemma CommentDecidesWhichEndIsLast(archive: Bytes, at: nat, size: nat, offset: nat, comment: Bytes)
    requires size < 0x1_0000_0000 && offset < 0x1_0000_0000 && |comment| <= MAX_COMMENT_LENGTH
    requires at <= |archive| && archive[at..] == EndRecord(size, offset, comment)
    ensures LastEnd(archive, at) <==>
            && (forall k :: !ConsistentEnd(comment, k))
            && (forall k :: 12 <= k < END_RECORD_LENGTH ==> !ConsistentEnd(EndRecord(size, offset, comment), k))
    ensures FieldsHoldNoP(size, offset, comment) ==>
              (LastEnd(archive, at) <==> forall k :: !ConsistentEnd(comment, k))
  {
    var record := EndRecord(size, offset, comment);
    EndRecordFields(size, offset, comment);
    WrittenEndIsLastExactlyWhen(archive, at, record);
    assert record[END_RECORD_LENGTH..] == comment;
    forall k | ConsistentEnd(comment, k)
      ensures ConsistentEnd(record, END_RECORD_LENGTH + k)
    {
      EndInTail(record, END_RECORD_LENGTH, comment, END_RECORD_LENGTH + k);
    }
    forall k | 0 < k && ConsistentEnd(record, k)
      ensures 12 <= k
      ensures k < END_RECORD_LENGTH ==> !FieldsHoldNoP(size, offset, comment)
      ensures k >= END_RECORD_LENGTH ==> ConsistentEnd(comment, k - END_RECORD_LENGTH)
    {
      LaterEndsOfWrittenRecord(size, offset, comment, k);
    }
  }

  /** An archive that was put together counts as one entry if its end record is the last, as without a comment. */
  lemma AssembledArchiveCountsOne(archive: Bytes, data: Bytes, record: Bytes, comment: Bytes)
    requires archive == data + record + EndRecord(|record|, |data|, comment)
    requires CentralRecords(record, 0, |record|) == Some(1)
    requires |data| + |record| < 0x1_0000_0000 && |comment| <= MAX_COMMENT_LENGTH
    ensures (forall k :: 0 < k ==> !ConsistentEnd(EndRecord(|record|, |data|, comment), k)) ==> Count(archive) == Ok(1)
    ensures comment == [] ==> Count(archive) == Ok(1)
  {
    var at := |data| + |record|;
    var end := EndRecord(|record|, |data|, comment);
    Parts(archive, data, record, end);
    EndRecordFields(|record|, |data|, comment);
    AssembledArchiveHasOneEntry(archive, data, record, comment);
    WrittenEndIsLastExactlyWhen(archive, at, end);
    if LastEnd(archive, at) {
      CountJudgesLastEnd(archive, at);
    }
  }

  lemma Parts(whole: Bytes, a: Bytes, b: Bytes, c: Bytes)
    requires whole == a + b + c
    ensures whole[|a|..|a| + |b|] == b && whole[|a| + |b|..] == c
  {
  }
}
