/**
 * The log-record decoder of recovery (LogRecovery::DeserializeLogRecord,
 * src/logging/log_recovery.cpp): reads the fixed 20-byte header of a log
 * record, validates it, and for INSERT and NEWPAGE records reads the
 * payload field that follows.
 *
 * Every field is a native 4-byte int read through a reinterpret_cast;
 * the model fixes that to little-endian two's complement.  The record is
 * an out-parameter that the decoder assigns field by field, so the model
 * takes the record as it was and answers the record as it is after the
 * call together with the boolean result.
 *
 * src/include/logging/log_record.h and src/include/common/config.h are
 * not part of this model; the constants below are their values.
 */
module LogRecovery {
  /** One byte of the log buffer. */
  newtype byte = b: int | 0 <= b < 256

  const INVALID_LSN: int := -1
  const INVALID_TXN_ID: int := -1
  /** LogRecord::HEADER_SIZE: size, lsn, txn id, prev lsn, type. */
  const HEADER_SIZE: nat := 20
  /** sizeof(RID): a page id and a slot number of 4 bytes each. */
  const RID_SIZE: nat := 8

  /** LogRecordType encodings: INVALID is the first enumerator, INSERT the
      second and NEWPAGE the tenth. */
  const INVALID: int := 0
  const INSERT: int := 1
  const NEWPAGE: int := 9

  const TWO_32: int := 0x1_0000_0000
  const TWO_31: int := 0x8000_0000

  predicate IsInt32(v: int)
  {
    -TWO_31 <= v < TWO_31
  }

  /** The four bytes at `offset` as an unsigned little-endian number. */
  function Uint32At(data: seq<byte>, offset: nat): (u: nat)
    requires offset + 4 <= |data|
    ensures u < TWO_32
  {
    var b0, b1, b2, b3 := data[offset] as nat, data[offset + 1] as nat, data[offset + 2] as nat, data[offset + 3] as nat;
    b0 + 256 * (b1 + 256 * (b2 + 256 * b3))
  }

  /** `*reinterpret_cast<const int32_t *>(data + offset)`. */
  function Int32At(data: seq<byte>, offset: nat): (v: int)
    requires offset + 4 <= |data|
    ensures IsInt32(v)
  {
    var u := Uint32At(data, offset);
    if u >= TWO_31 then u - TWO_32 else u
  }

  /** The four bytes that store the 32-bit int `v`, low byte first. */
  function EncodeInt32(v: int): (bs: seq<byte>)
    requires IsInt32(v)
    ensures |bs| == 4
  {
    var u := if v < 0 then v + TWO_32 else v;
    var u1 := u / 256;
    var u2 := u1 / 256;
    [(u % 256) as byte, (u1 % 256) as byte, (u2 % 256) as byte, (u2 / 256) as byte]
  }

  /** A number split into its low byte and the rest. */
  lemma LowByte(lo: nat, hi: nat)
    requires lo < 256
    ensures (lo + 256 * hi) % 256 == lo && (lo + 256 * hi) / 256 == hi
  {
  }

  /** Reading back a stored int gives the int. */
  lemma Int32RoundTrip(v: int)
    requires IsInt32(v)
    ensures Int32At(EncodeInt32(v), 0) == v
  {
    var u := if v < 0 then v + TWO_32 else v;
    var u1 := u / 256;
    var u2 := u1 / 256;
    assert u == u % 256 + 256 * u1;
    assert u1 == u1 % 256 + 256 * u2;
    assert u2 == u2 % 256 + 256 * (u2 / 256);
    assert Uint32At(EncodeInt32(v), 0) == u;
  }

  /** Storing an int read from four bytes reproduces the bytes. */
  lemma Int32Bytes(data: seq<byte>, offset: nat)
    requires offset + 4 <= |data|
    ensures EncodeInt32(Int32At(data, offset)) == data[offset..offset + 4]
  {
    var b0, b1, b2, b3 := data[offset] as nat, data[offset + 1] as nat, data[offset + 2] as nat, data[offset + 3] as nat;
    var u := Uint32At(data, offset);
    LowByte(b0, b1 + 256 * (b2 + 256 * b3));
    LowByte(b1, b2 + 256 * b3);
    LowByte(b2, b3);
    var bs := EncodeInt32(Int32At(data, offset));
    assert bs[0] == data[offset] && bs[1] == data[offset + 1] && bs[2] == data[offset + 2] && bs[3] == data[offset + 3];
  }

  /** An int stored after `before` reads back from offset |before|,
      whatever follows it. */
  lemma Int32AtConcat(before: seq<byte>, v: int, after: seq<byte>)
    requires IsInt32(v)
    ensures Int32At(before + EncodeInt32(v) + after, |before|) == v
  {
    var data := before + EncodeInt32(v) + after;
    var bs := EncodeInt32(v);
    assert data[|before|] == bs[0] && data[|before| + 1] == bs[1];
    assert data[|before| + 2] == bs[2] && data[|before| + 3] == bs[3];
    assert Uint32At(data, |before|) == Uint32At(bs, 0);
    Int32RoundTrip(v);
  }

  /** The fields DeserializeLogRecord assigns.  `insertRid` is the int
      read for the RID; `insertTuple` stands for the tuple
      Tuple::DeserializeFrom builds, as the bytes it decodes from. */
  datatype LogRecord = LogRecord(
    size: int, lsn: int, txnId: int, prevLsn: int, recordType: int,
    insertRid: int, insertTuple: seq<byte>, prevPageId: int)

  /** The header check (cpp:24-27): a record is rejected when its size is
      negative, its lsn or txn id is the invalid one, or its type is
      INVALID. */
  predicate HeaderValid(data: seq<byte>)
    requires |data| >= HEADER_SIZE
  {
    !(Int32At(data, 0) < 0 || Int32At(data, 4) == INVALID_LSN || Int32At(data, 8) == INVALID_TXN_ID ||
      Int32At(data, 16) == INVALID)
  }

  /** The bytes the decoder reads are there: the header, and after a valid
      header the rid and tuple of an INSERT or the page id of a NEWPAGE. */
  predicate Readable(data: seq<byte>)
  {
    && |data| >= HEADER_SIZE
    && (HeaderValid(data) && Int32At(data, 16) == INSERT ==> |data| >= HEADER_SIZE + RID_SIZE)
    && (HeaderValid(data) && Int32At(data, 16) == NEWPAGE ==> |data| >= HEADER_SIZE + 4)
  }

  /** DeserializeLogRecord (cpp:14-51), answering the result and the
      record after the call.  A record that fails the check is left as it
      was.  Otherwise its five header fields are the ints at offsets 0, 4,
      8, 12 and 16; an INSERT also takes the rid at offset 20 and the tuple
      from offset 20 + sizeof(RID); a NEWPAGE takes the previous page id at
      offset HEADER_SIZE; the payload fields of other types stay as they
      were. */
  function DeserializeLogRecord(data: seq<byte>, record: LogRecord): (r: (bool, LogRecord))
    requires Readable(data)
    ensures r.0 <==> HeaderValid(data)
    ensures !r.0 ==> r.1 == record
    ensures r.0 ==>
      && r.1.size == Int32At(data, 0) && r.1.lsn == Int32At(data, 4) && r.1.txnId == Int32At(data, 8)
      && r.1.prevLsn == Int32At(data, 12) && r.1.recordType == Int32At(data, 16)
      && r.1.size >= 0 && r.1.lsn != INVALID_LSN && r.1.txnId != INVALID_TXN_ID && r.1.recordType != INVALID
    ensures r.0 && r.1.recordType == INSERT ==>
      r.1.insertRid == Int32At(data, HEADER_SIZE) && r.1.insertTuple == data[HEADER_SIZE + RID_SIZE..]
      && r.1.prevPageId == record.prevPageId
    ensures r.0 && r.1.recordType == NEWPAGE ==>
      r.1.prevPageId == Int32At(data, HEADER_SIZE)
      && r.1.insertRid == record.insertRid && r.1.insertTuple == record.insertTuple
    ensures r.0 && r.1.recordType != INSERT && r.1.recordType != NEWPAGE ==>
      r.1.insertRid == record.insertRid && r.1.insertTuple == record.insertTuple && r.1.prevPageId == record.prevPageId
  {
    var size := Int32At(data, 0);
    var lsn := Int32At(data, 4);
    var txnId := Int32At(data, 8);
    var prevLsn := Int32At(data, 12);
    var recordType := Int32At(data, 16);
    if size < 0 || lsn == INVALID_LSN || txnId == INVALID_TXN_ID || recordType == INVALID then
      (false, record)
    else
      var header := record.(size := size, lsn := lsn, txnId := txnId, prevLsn := prevLsn, recordType := recordType);
      if recordType == INSERT then
        (true, header.(insertRid := Int32At(data, HEADER_SIZE), insertTuple := data[HEADER_SIZE + RID_SIZE..]))
      else if recordType == NEWPAGE then
        (true, header.(prevPageId := Int32At(data, HEADER_SIZE)))
      else
        (true, header)
  }

  /** The 20 header bytes of a record with the given fields. */
  function EncodeHeader(size: int, lsn: int, txnId: int, prevLsn: int, recordType: int): (bs: seq<byte>)
    requires IsInt32(size) && IsInt32(lsn) && IsInt32(txnId) && IsInt32(prevLsn) && IsInt32(recordType)
    ensures |bs| == HEADER_SIZE
  {
    EncodeInt32(size) + EncodeInt32(lsn) + EncodeInt32(txnId) + EncodeInt32(prevLsn) + EncodeInt32(recordType)
  }

  /** Each header field reads back from its offset. */
  lemma {:induction false} HeaderFields(size: int, lsn: int, txnId: int, prevLsn: int, recordType: int, payload: seq<byte>)
    requires IsInt32(size) && IsInt32(lsn) && IsInt32(txnId) && IsInt32(prevLsn) && IsInt32(recordType)
    ensures var data := EncodeHeader(size, lsn, txnId, prevLsn, recordType) + payload;
      && Int32At(data, 0) == size && Int32At(data, 4) == lsn && Int32At(data, 8) == txnId
      && Int32At(data, 12) == prevLsn && Int32At(data, 16) == recordType
  {
    var e0, e1, e2, e3, e4 := EncodeInt32(size), EncodeInt32(lsn), EncodeInt32(txnId), EncodeInt32(prevLsn), EncodeInt32(recordType);
    var data := EncodeHeader(size, lsn, txnId, prevLsn, recordType) + payload;
    assert data == [] + e0 + (e1 + e2 + e3 + e4 + payload);
    Int32AtConcat([], size, e1 + e2 + e3 + e4 + payload);
    assert data == e0 + e1 + (e2 + e3 + e4 + payload);
    Int32AtConcat(e0, lsn, e2 + e3 + e4 + payload);
    assert data == (e0 + e1) + e2 + (e3 + e4 + payload);
    Int32AtConcat(e0 + e1, txnId, e3 + e4 + payload);
    assert data == (e0 + e1 + e2) + e3 + (e4 + payload);
    Int32AtConcat(e0 + e1 + e2, prevLsn, e4 + payload);
    assert data == (e0 + e1 + e2 + e3) + e4 + payload;
    Int32AtConcat(e0 + e1 + e2 + e3, recordType, payload);
  }

  /** A header written from valid fields decodes back to those fields, and
      a NEWPAGE record's page id after it decodes back too. */
  lemma {:induction false} NewPageRecordRoundTrip(size: int, lsn: int, txnId: int, prevLsn: int, prevPageId: int, record: LogRecord)
    requires IsInt32(size) && IsInt32(lsn) && IsInt32(txnId) && IsInt32(prevLsn) && IsInt32(prevPageId)
    requires size >= 0 && lsn != INVALID_LSN && txnId != INVALID_TXN_ID
    ensures var data := EncodeHeader(size, lsn, txnId, prevLsn, NEWPAGE) + EncodeInt32(prevPageId);
      && Readable(data)
      && DeserializeLogRecord(data, record) ==
           (true, record.(size := size, lsn := lsn, txnId := txnId, prevLsn := prevLsn, recordType := NEWPAGE,
                          prevPageId := prevPageId))
  {
    var header := EncodeHeader(size, lsn, txnId, prevLsn, NEWPAGE);
    var data := header + EncodeInt32(prevPageId);
    HeaderFields(size, lsn, txnId, prevLsn, NEWPAGE, EncodeInt32(prevPageId));
    assert data == header + EncodeInt32(prevPageId) + [];
    Int32AtConcat(header, prevPageId, []);
  }

  /** The same for an INSERT record: the rid and the tuple bytes after the
      header come back as written. */
  lemma {:induction false} InsertRecordRoundTrip(size: int, lsn: int, txnId: int, prevLsn: int, rid: int, pad: seq<byte>, tuple: seq<byte>, record: LogRecord)
    requires IsInt32(size) && IsInt32(lsn) && IsInt32(txnId) && IsInt32(prevLsn) && IsInt32(rid) && |pad| == RID_SIZE - 4
    requires size >= 0 && lsn != INVALID_LSN && txnId != INVALID_TXN_ID
    ensures var data := EncodeHeader(size, lsn, txnId, prevLsn, INSERT) + EncodeInt32(rid) + pad + tuple;
      && Readable(data)
      && DeserializeLogRecord(data, record) ==
           (true, record.(size := size, lsn := lsn, txnId := txnId, prevLsn := prevLsn, recordType := INSERT,
                          insertRid := rid, insertTuple := tuple))
  {
    var header := EncodeHeader(size, lsn, txnId, prevLsn, INSERT);
    var data := header + EncodeInt32(rid) + pad + tuple;
    assert data == header + (EncodeInt32(rid) + pad + tuple);
    HeaderFields(size, lsn, txnId, prevLsn, INSERT, EncodeInt32(rid) + pad + tuple);
    assert data == header + EncodeInt32(rid) + (pad + tuple);
    Int32AtConcat(header, rid, pad + tuple);
    assert data[HEADER_SIZE + RID_SIZE..] == tuple;
  }
}
