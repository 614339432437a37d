/**
 One write-ahead-log record and its byte form: a 25-byte header
 (type, timestamp, transaction id, key length, value length), the key, the value.
 */
module WalRecord {
  import opened Bytes

  // The log's record types. Any other byte is also accepted by the decoder.
  const PUT: byte := 1
  const DELETE: byte := 2
  const COMMIT: byte := 3
  const CHECKPOINT: byte := 4

  const HEADER_SIZE: nat := 25

  datatype WALRecord = WALRecord(
    rtype: byte,
    timestamp: uint64,
    txnId: uint64,
    keyLength: uint32,
    valueLength: uint32,
    key: bytes,
    value: bytes)
  {
    /** `WALRecord::size`: computed from the length fields, not from the strings. */
    function Size(): nat {
      HEADER_SIZE + keyLength + valueLength
    }

    /** The length fields tell the truth about the strings. */
    predicate LengthsTrue() {
      keyLength == |key| && valueLength == |value|
    }
  }

  datatype DecodeError = TooShort | IncompleteData

  datatype DecodeResult = Decoded(record: WALRecord) | Failed(error: DecodeError)

  /** The byte form of a record. */
  function Encode(r: WALRecord): (data: bytes)
    ensures |data| == HEADER_SIZE + |r.key| + |r.value|
  {
    [r.rtype] + LE(r.timestamp, 8) + LE(r.txnId, 8)
    + LE(r.keyLength, 4) + LE(r.valueLength, 4) + r.key + r.value
  }

  /** Reading by offset; bytes behind the value are ignored. */
  function Decode(data: bytes): DecodeResult {
    if |data| < HEADER_SIZE then Failed(TooShort)
    else
      var keyLength, valueLength := U32At(data, 17), U32At(data, 21);
      if |data| < HEADER_SIZE + keyLength + valueLength then Failed(IncompleteData)
      else
        var valueAt := HEADER_SIZE + keyLength;
        Decoded(WALRecord(data[0], U64At(data, 1), U64At(data, 9), keyLength, valueLength,
                          data[HEADER_SIZE..valueAt], data[valueAt..valueAt + valueLength]))
  }

  method Serialize(r: WALRecord) returns (data: bytes)
    ensures data == Encode(r)
  {
    data := [r.rtype];
    data := data + LE(r.timestamp, 8);
    data := data + LE(r.txnId, 8);
    data := data + LE(r.keyLength, 4);
    data := data + LE(r.valueLength, 4);
    data := data + r.key;
    data := data + r.value;
  }

  method Deserialize(data: bytes) returns (result: DecodeResult)
    ensures result == Decode(data)
  {
    if |data| < HEADER_SIZE {
      return Failed(TooShort);
    }
    var offset: nat := 0;
    var rtype := data[offset];
    offset := offset + 1;
    var timestamp := U64At(data, offset);
    offset := offset + 8;
    var txnId := U64At(data, offset);
    offset := offset + 8;
    var keyLength := U32At(data, offset);
    offset := offset + 4;
    var valueLength := U32At(data, offset);
    offset := offset + 4;
    if |data| < offset + keyLength + valueLength {
      return Failed(IncompleteData);
    }
    var key := data[offset..offset + keyLength];
    offset := offset + keyLength;
    var value := data[offset..offset + valueLength];
    result := Decoded(WALRecord(rtype, timestamp, txnId, keyLength, valueLength, key, value));
  }

  /** Where each header field of an encoded record sits, whatever follows the record. */
  lemma HeaderLayout(r: WALRecord, trailing: bytes)
    ensures var data := Encode(r) + trailing;
            && data[0] == r.rtype
            && U64At(data, 1) == r.timestamp
            && U64At(data, 9) == r.txnId
            && U32At(data, 17) == r.keyLength
            && U32At(data, 21) == r.valueLength
            && data[HEADER_SIZE..] == r.key + r.value + trailing
  {
    var data := Encode(r) + trailing;
    assert data[1..9] == LE(r.timestamp, 8);
    assert data[9..17] == LE(r.txnId, 8);
    assert data[17..21] == LE(r.keyLength, 4);
    assert data[21..25] == LE(r.valueLength, 4);
    U64AtOfLE(data, 1, r.timestamp);
    U64AtOfLE(data, 9, r.txnId);
    U32AtOfLE(data, 17, r.keyLength);
    U32AtOfLE(data, 21, r.valueLength);
  }

  /** Decoding undoes encoding, with any trailing bytes. */
  lemma DecodeOfEncode(r: WALRecord, trailing: bytes)
    requires r.LengthsTrue()
    ensures Decode(Encode(r) + trailing) == Decoded(r)
  {
    HeaderLayout(r, trailing);
    var data := Encode(r) + trailing;
    var valueAt := HEADER_SIZE + r.keyLength;
    assert data[HEADER_SIZE..valueAt] == data[HEADER_SIZE..][..r.keyLength] == r.key;
    assert data[valueAt..valueAt + r.valueLength]
        == data[HEADER_SIZE..][r.keyLength..r.keyLength + r.valueLength] == r.value;
  }

  /** A decoded record has true lengths, and its byte form is a prefix of what was decoded. */
  lemma EncodeOfDecode(data: bytes)
    requires Decode(data).Decoded?
    ensures var r := Decode(data).record;
            r.LengthsTrue() && Encode(r) <= data
  {
    var r := Decode(data).record;
    LEOfFromLE(data[1..9]);
    LEOfFromLE(data[9..17]);
    LEOfFromLE(data[17..21]);
    LEOfFromLE(data[21..25]);
    var valueAt := HEADER_SIZE + r.keyLength;
    assert [r.rtype] == data[0..1];
    Adjacent(data, 0, 1, 9);
    Adjacent(data, 0, 9, 17);
    Adjacent(data, 0, 17, 21);
    Adjacent(data, 0, 21, 25);
    Adjacent(data, 0, 25, valueAt);
    Adjacent(data, 0, valueAt, valueAt + r.valueLength);
  }

  /** A record survives the codec exactly when its length fields are true. */
  lemma CodecIsFaithfulIff(r: WALRecord)
    ensures Decode(Encode(r)) == Decoded(r) <==> r.LengthsTrue()
  {
    assert Encode(r) + [] == Encode(r);
    if r.LengthsTrue() {
      DecodeOfEncode(r, []);
    }
    if Decode(Encode(r)) == Decoded(r) {
      EncodeOfDecode(Encode(r));
    }
  }

  /** A proper part of an encoded record never decodes. */
  lemma CutRecordFails(r: WALRecord, cut: bytes)
    requires r.LengthsTrue() && cut < Encode(r)
    ensures Decode(cut).Failed?
  {
    if |cut| >= HEADER_SIZE {
      HeaderLayout(r, []);
      assert Encode(r) + [] == Encode(r);
      assert cut[17..21] == Encode(r)[17..21];
      assert cut[21..25] == Encode(r)[21..25];
    }
  }

  /** What decodes as `r` is what starts with the encoding of `r`. */
  lemma DecodesAsIff(data: bytes, r: WALRecord)
    requires r.LengthsTrue()
    ensures Decode(data) == Decoded(r) <==> Encode(r) <= data
  {
    if Encode(r) <= data {
      var trailing := data[|Encode(r)|..];
      assert data == Encode(r) + trailing;
      DecodeOfEncode(r, trailing);
    }
    if Decode(data) == Decoded(r) {
      EncodeOfDecode(data);
    }
  }

  /** The decoder fails on exactly the data that start with no honest record, and says what is missing. */
  lemma DecodeFailsIff(data: bytes)
    ensures Decode(data).Failed? <==> forall r: WALRecord | r.LengthsTrue() :: !(Encode(r) <= data)
    ensures Decode(data) == Failed(TooShort) <==> |data| < 25
  {
    if Decode(data).Decoded? {
      EncodeOfDecode(data);
    }
    forall r: WALRecord | r.LengthsTrue() && Encode(r) <= data
      ensures Decode(data).Decoded?
    {
      DecodesAsIff(data, r);
    }
  }
}
