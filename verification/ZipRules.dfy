/** Every verdict on an end record, and archives whose one central record was written field by field. */
module ZipRules {
  import opened Wrappers
  import opened ZipEnd

  /** The directory that the end record tells of ends where that record begins, and starts with a central record. */
  predicate HasDirectory(archive: Bytes, at: nat)
    requires at + 22 <= |archive|
  {
    var size, offset := U32(archive, at + 12), U32(archive, at + 16);
    offset + size == at && size >= 46 && archive[offset..offset + 4] == [0x50, 0x4B, 1, 2]
  }

  /** The entry counts agree, on one disk, below the mark of a larger format. */
  predicate IsPlain(archive: Bytes, at: nat)
    requires at + 22 <= |archive|
  {
    && U16(archive, at + 4) == 0 && U16(archive, at + 6) == 0
    && U16(archive, at + 8) == U16(archive, at + 10) != 0xFFFF
  }

  /** The first central record, with its name, extra field and comment, fills the directory. */
  predicate IsFilledByOneRecord(archive: Bytes, at: nat)
    requires at + 22 <= |archive| && HasDirectory(archive, at)
  {
    var offset := U32(archive, at + 16);
    46 + U16(archive, offset + 28) + U16(archive, offset + 30) + U16(archive, offset + 32) == U32(archive, at + 12)
  }

  /** For every end record: which verdict it gets. */
  lemma JudgedExactlyWhen(archive: Bytes, at: nat)
    requires at + 22 <= |archive|
    ensures var verdict, entries := Judge(archive, at), U16(archive, at + 10);
            && (verdict == Err(NotSingleDisk) <==> !IsPlain(archive, at))
            && (forall count :: verdict == Ok(count) <==>
                  && IsPlain(archive, at) && count == entries
                  && (entries == 1 ==> HasDirectory(archive, at) && IsFilledByOneRecord(archive, at)))
            && (verdict == Err(InconsistentCentralDirectory) <==>
                IsPlain(archive, at) && entries == 1 && !HasDirectory(archive, at))
            && (verdict == Err(NotExactlyOneRecord) <==>
                && IsPlain(archive, at) && entries == 1
                && HasDirectory(archive, at) && !IsFilledByOneRecord(archive, at))
  {
  }

  // ---- A central record, field by field --------------------------------------------------------------------

  /** Signature, twenty-four bytes of fields, the three lengths, twelve more bytes, and the three texts. */
  function CentralRecord(fields: Bytes, more: Bytes, name: Bytes, extra: Bytes, comment: Bytes): (record: Bytes)
    requires |fields| == 24 && |more| == 12
    ensures |record| == 46 + |name| + |extra| + |comment|
  {
    [0x50, 0x4B, 1, 2] + fields + (LittleEndian(|name|, 2) + LittleEndian(|extra|, 2) + LittleEndian(|comment|, 2))
    + (more + (name + extra + comment))
  }

  lemma LengthsOfRecord(fields: Bytes, more: Bytes, name: Bytes, extra: Bytes, comment: Bytes)
    requires |fields| == 24 && |more| == 12 && |name| <= 0xFFFF && |extra| <= 0xFFFF && |comment| <= 0xFFFF
    ensures var record := CentralRecord(fields, more, name, extra, comment);
            && record[0..4] == [0x50, 0x4B, 1, 2]
            && U16(record, 28) == |name| && U16(record, 30) == |extra| && U16(record, 32) == |comment|
  {
    var record := CentralRecord(fields, more, name, extra, comment);
    assert record[28..30] == LittleEndian(|name|, 2);
    assert record[30..32] == LittleEndian(|extra|, 2);
    assert record[32..34] == LittleEndian(|comment|, 2);
    TwoBytes(|name|);
    TwoBytes(|extra|);
    TwoBytes(|comment|);
    EmbeddedU16(record, 28, record[28..30], 0);
    EmbeddedU16(record, 30, record[30..32], 0);
    EmbeddedU16(record, 32, record[32..34], 0);
  }

  /** It reads as exactly one record, whatever its fields and texts hold. */
  lemma WrittenRecordIsOne(fields: Bytes, more: Bytes, name: Bytes, extra: Bytes, comment: Bytes)
    requires |fields| == 24 && |more| == 12 && |name| <= 0xFFFF && |extra| <= 0xFFFF && |comment| <= 0xFFFF
    ensures var record := CentralRecord(fields, more, name, extra, comment);
            CentralRecords(record, 0, |record|) == Some(1)
  {
    LengthsOfRecord(fields, more, name, extra, comment);
    var record := CentralRecord(fields, more, name, extra, comment);
    assert CentralLength(record, 0) == |record|;
    assert CentralRecords(record, |record|, |record|) == Some(0);
  }

  /** So an archive of some data, one such record and an end record without a comment counts as one entry. */
  lemma WrittenArchiveCountsOne(
    archive: Bytes, data: Bytes, fields: Bytes, more: Bytes, name: Bytes, extra: Bytes, comment: Bytes)
    requires |fields| == 24 && |more| == 12 && |name| <= 0xFFFF && |extra| <= 0xFFFF && |comment| <= 0xFFFF
    requires var record := CentralRecord(fields, more, name, extra, comment);
             && |data| + |record| < 0x1_0000_0000
             && archive == data + record + EndRecord(|record|, |data|, [])
    ensures Count(archive) == Ok(1)
  {
    WrittenRecordIsOne(fields, more, name, extra, comment);
    AssembledArchiveCountsOne(archive, data, CentralRecord(fields, more, name, extra, comment), []);
  }
}
