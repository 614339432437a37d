/**
 Wire messages: a 13-byte header (type, id, key length, value length), the key, the value,
 framed by a 4-byte length. Both ends refuse frames and fields over fixed sizes.
 */
module Protocol {
  import opened Bytes

  const GET: byte := 1
  const PUT: byte := 2
  const DELETE: byte := 3
  const SCAN: byte := 4
  const PING: byte := 5
  const PONG: byte := 6
  const ERROR: byte := 7
  const SUCCESS: byte := 8

  const MAX_MESSAGE_SIZE: nat := 1024 * 1024
  const MAX_KEY_SIZE: nat := 256
  const MAX_VALUE_SIZE: nat := 1024 * 1024
  const HEADER_SIZE: nat := 13

  datatype Message = Message(
    mtype: byte,
    id: uint32,
    keyLength: uint32,
    valueLength: uint32,
    key: bytes,
    value: bytes)
  {
    predicate LengthsTrue() {
      keyLength == |key| && valueLength == |value|
    }

    /** Accepted by the decoder. */
    predicate WithinFieldLimits() {
      LengthsTrue() && |key| <= MAX_KEY_SIZE && |value| <= MAX_VALUE_SIZE
    }

    /** Accepted by the decoder and by the frame limit. */
    predicate Deliverable() {
      WithinFieldLimits() && HEADER_SIZE + |key| + |value| <= MAX_MESSAGE_SIZE
    }
  }

  datatype MessageError = TooShort | FieldTooLarge | Incomplete

  datatype MessageResult = Parsed(message: Message) | Rejected(error: MessageError)

  function Encode(m: Message): (data: bytes)
    ensures |data| == HEADER_SIZE + |m.key| + |m.value|
  {
    [m.mtype] + LE(m.id, 4) + LE(m.keyLength, 4) + LE(m.valueLength, 4) + m.key + m.value
  }

  function Decode(data: bytes): MessageResult {
    if |data| < HEADER_SIZE then Rejected(TooShort)
    else
      var keyLength, valueLength := U32At(data, 5), U32At(data, 9);
      if keyLength > MAX_KEY_SIZE || valueLength > MAX_VALUE_SIZE then Rejected(FieldTooLarge)
      else if |data| < HEADER_SIZE + keyLength + valueLength then Rejected(Incomplete)
      else
        var valueAt := HEADER_SIZE + keyLength;
        Parsed(Message(data[0], U32At(data, 1), keyLength, valueLength,
                       data[HEADER_SIZE..valueAt], data[valueAt..valueAt + valueLength]))
  }

  method Serialize(m: Message) returns (data: bytes)
    ensures data == Encode(m)
  {
    data := [m.mtype];
    data := data + LE(m.id, 4);
    data := data + LE(m.keyLength, 4);
    data := data + LE(m.valueLength, 4);
    data := data + m.key;
    data := data + m.value;
  }

  method Deserialize(data: bytes) returns (result: MessageResult)
    ensures result == Decode(data)
  {
    if |data| < HEADER_SIZE {
      return Rejected(TooShort);
    }
    var offset: nat := 0;
    var mtype := data[offset];
    offset := offset + 1;
    var id := U32At(data, offset);
    offset := offset + 4;
    var keyLength := U32At(data, offset);
    offset := offset + 4;
    var valueLength := U32At(data, offset);
    offset := offset + 4;
    if keyLength > MAX_KEY_SIZE || valueLength > MAX_VALUE_SIZE {
      return Rejected(FieldTooLarge);
    }
    if |data| < offset + keyLength + valueLength {
      return Rejected(Incomplete);
    }
    var key := data[offset..offset + keyLength];
    offset := offset + keyLength;
    var value := data[offset..offset + valueLength];
    result := Parsed(Message(mtype, id, keyLength, valueLength, key, value));
  }

  /** Where each field of an encoded message sits. */
  lemma MessageLayout(m: Message)
    ensures var data := Encode(m);
            && data[0] == m.mtype
            && U32At(data, 1) == m.id
            && U32At(data, 5) == m.keyLength
            && U32At(data, 9) == m.valueLength
            && data[HEADER_SIZE..] == m.key + m.value
  {
    var data := Encode(m);
    assert data[1..5] == LE(m.id, 4);
    assert data[5..9] == LE(m.keyLength, 4);
    assert data[9..13] == LE(m.valueLength, 4);
    U32AtOfLE(data, 1, m.id);
    U32AtOfLE(data, 5, m.keyLength);
    U32AtOfLE(data, 9, m.valueLength);
  }

  /** What decodes is within the field limits and re-encodes to a prefix of what was decoded. */
  lemma EncodeOfDecode(data: bytes)
    requires Decode(data).Parsed?
    ensures var m := Decode(data).message;
            m.WithinFieldLimits() && Encode(m) <= data
  {
    var m := Decode(data).message;
    LEOfFromLE(data[1..5]);
    LEOfFromLE(data[5..9]);
    LEOfFromLE(data[9..13]);
    var valueAt := HEADER_SIZE + m.keyLength;
    assert [m.mtype] == data[0..1];
    Adjacent(data, 0, 1, 5);
    Adjacent(data, 0, 5, 9);
    Adjacent(data, 0, 9, 13);
    Adjacent(data, 0, 13, valueAt);
    Adjacent(data, 0, valueAt, valueAt + m.valueLength);
  }

  lemma DecodeOfEncode(m: Message)
    requires m.WithinFieldLimits()
    ensures Decode(Encode(m)) == Parsed(m)
  {
    MessageLayout(m);
    var data := Encode(m);
    var valueAt := HEADER_SIZE + m.keyLength;
    assert data[HEADER_SIZE..valueAt] == data[HEADER_SIZE..][..m.keyLength] == m.key;
    assert data[valueAt..valueAt + m.valueLength]
        == data[HEADER_SIZE..][m.keyLength..m.keyLength + m.valueLength] == m.value;
  }

  /** What decodes as `m` is what starts with its encoding, if `m` is within the field limits. */
  lemma DecodesAsIff(data: bytes, m: Message)
    ensures Decode(data) == Parsed(m) <==> m.WithinFieldLimits() && Encode(m) <= data
  {
    if m.WithinFieldLimits() && Encode(m) <= data {
      DecodeOfEncode(m);
      var e := Encode(m);
      SamePart(data, e, 1, 5);
      SamePart(data, e, 5, 9);
      SamePart(data, e, 9, 13);
      SamePart(data, e, HEADER_SIZE, HEADER_SIZE + m.keyLength);
      SamePart(data, e, HEADER_SIZE + m.keyLength, HEADER_SIZE + m.keyLength + m.valueLength);
    }
    if Decode(data) == Parsed(m) {
      EncodeOfDecode(data);
    }
  }

  lemma SamePart(data: bytes, front: bytes, i: nat, j: nat)
    requires front <= data && i <= j <= |front|
    ensures data[i..j] == front[i..j]
  {
    assert data == front + data[|front|..];
  }

  /** The decoder rejects exactly the data that start with no message within the limits, and says why. */
  lemma DecodeRejectsIff(data: bytes)
    ensures Decode(data).Rejected? <==> forall m: Message | m.WithinFieldLimits() :: !(Encode(m) <= data)
    ensures Decode(data) == Rejected(TooShort) <==> |data| < 13
    ensures Decode(data) == Rejected(FieldTooLarge)
            <==> |data| >= 13 && (U32At(data, 5) > 256 || U32At(data, 9) > 1048576)
  {
    if Decode(data).Parsed? {
      EncodeOfDecode(data);
    }
    forall m: Message | m.WithinFieldLimits() && Encode(m) <= data
      ensures Decode(data).Parsed?
    {
      DecodesAsIff(data, m);
    }
  }

  /** A message survives the codec exactly when it is within the field limits. */
  lemma CodecIsFaithfulIff(m: Message)
    ensures Decode(Encode(m)) == Parsed(m) <==> m.WithinFieldLimits()
  {
    if m.WithinFieldLimits() {
      DecodeOfEncode(m);
    }
    if Decode(Encode(m)) == Parsed(m) {
      EncodeOfDecode(Encode(m));
    }
  }

  // ---------------------------------------------------------------- frames on a stream

  /** The receiving end: a message, a refusal, or more bytes needed; `rest` is what was not read. */
  datatype Incoming = Got(message: Message, rest: bytes) | Refused(rest: bytes) | Starved

  function Receive(stream: bytes): Incoming {
    if |stream| < 4 then Starved
    else
      var length := U32At(stream, 0);
      if length > MAX_MESSAGE_SIZE then Refused(stream[4..])
      else if |stream| < 4 + length then Starved
      else
        match Decode(stream[4..4 + length])
        case Rejected(_) => Refused(stream[4 + length..])
        case Parsed(m) => Got(m, stream[4 + length..])
  }

  /** `send_message`, and the two buffers of `write_response`. */
  function Sent(m: Message): bytes {
    FrameOf(Encode(m))
  }

  lemma ReceiveBody(m: Message, body: bytes, rest: bytes)
    requires Decode(body) == Parsed(m) && |body| <= MAX_MESSAGE_SIZE
    ensures Receive(FrameOf(body) + rest) == Got(m, rest)
  {
    FrameParts(body, rest);
  }

  /** What is received is deliverable. */
  lemma ReceivedIsDeliverable(stream: bytes)
    requires Receive(stream).Got?
    ensures Receive(stream).message.Deliverable()
  {
  }

  /**
   A sent message arrives as it was, with what follows it on the stream intact, if and only if it
   is deliverable; longer keys and values are refused, starve, or arrive changed.
   */
  lemma DeliveredIff(m: Message, rest: bytes)
    ensures Receive(Sent(m) + rest) == Got(m, rest) <==> m.Deliverable()
  {
    if m.Deliverable() {
      DecodeOfEncode(m);
      ReceiveBody(m, Encode(m), rest);
    }
    if Receive(Sent(m) + rest) == Got(m, rest) {
      ReceivedIsDeliverable(Sent(m) + rest);
    }
  }

  lemma DeliverableIff(m: Message)
    ensures m.Deliverable()
            <==> && m.keyLength == |m.key| && m.valueLength == |m.value|
                 && |m.key| <= 256 && 13 + |m.key| + |m.value| <= 1048576
  {
  }

  /** A refused frame is read to its end, unless its length alone was too much. */
  lemma ReceiveConsumes(stream: bytes)
    ensures Receive(stream) == Starved
            <==> |stream| < 4 || (U32At(stream, 0) <= 1048576 && |stream| < 4 + U32At(stream, 0))
    ensures match Receive(stream)
            case Starved => true
            case Got(_, rest) => rest == stream[4 + U32At(stream, 0)..]
            case Refused(rest) =>
              rest == if U32At(stream, 0) > 1048576 then stream[4..] else stream[4 + U32At(stream, 0)..]
  {
  }
}
