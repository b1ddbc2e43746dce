/** The trivia wire protocol of protocol.h: the nine message type codes,
    the packed message (1-byte type, 1-byte question id, 2-byte payload
    length, then up to 512 payload bytes), the question record, and
    `build_message`, which fills a message buffer in place.

    The packed struct is sent as its first `4 + payload_len` bytes.  The C
    code stores `payload_len` in host byte order; this model fixes it as
    little-endian (low byte first). */
module Protocol {

  /** A C `char`: one byte, written as a Dafny character below 256. */
  type CChar = c: char | c as int < 256

  /** The contents of a C character buffer or string. */
  type Text = seq<CChar>

  type uint8 = x: int | 0 <= x < 0x100
  type uint16 = x: int | 0 <= x < 0x1_0000

  const Nul: CChar := '\0'

  /** TRV_MAX_PAYLOAD: the size of the payload buffer. */
  const MaxPayload: nat := 512

  /** The packed header: type, question id and a 2-byte length. */
  const HeaderSize: nat := 4

  datatype Option<T> = None | Some(value: T)

  /** The TRV_* message kinds. */
  datatype MsgType =
    | Question    // question broadcast by the server
    | Ack         // client acknowledges a question
    | Answer      // client's answer
    | Keepalive   // liveness signal
    | Winner      // winner announcement
    | AuthCode    // server sends the authentication code
    | AuthReply   // client replies with the code
    | AuthOk      // authentication succeeded
    | AuthFail    // authentication failed

  /** The TRV_* constant of a message kind. */
  function Code(t: MsgType): (c: uint8)
    ensures 1 <= c <= 9
  {
    match t
    case Question => 0x01
    case Ack => 0x02
    case Answer => 0x03
    case Keepalive => 0x04
    case Winner => 0x05
    case AuthCode => 0x06
    case AuthReply => 0x07
    case AuthOk => 0x08
    case AuthFail => 0x09
  }

  /** The message kind a type byte names, if any. */
  function KindOf(c: uint8): (r: Option<MsgType>)
    ensures r.Some? <==> 1 <= c <= 9
    ensures r.Some? ==> Code(r.value) == c
  {
    if c == 0x01 then Some(Question)
    else if c == 0x02 then Some(Ack)
    else if c == 0x03 then Some(Answer)
    else if c == 0x04 then Some(Keepalive)
    else if c == 0x05 then Some(Winner)
    else if c == 0x06 then Some(AuthCode)
    else if c == 0x07 then Some(AuthReply)
    else if c == 0x08 then Some(AuthOk)
    else if c == 0x09 then Some(AuthFail)
    else None
  }

  /** The nine codes are pairwise distinct, so a type byte names at most
      one kind, and every kind is recovered from its code. */
  lemma {:induction false} CodesDistinct(a: MsgType, b: MsgType)
    ensures Code(a) == Code(b) <==> a == b
    ensures KindOf(Code(a)) == Some(a)
  {
    match a
    case Question =>
    case Ack =>
    case Answer =>
    case Keepalive =>
    case Winner =>
    case AuthCode =>
    case AuthReply =>
    case AuthOk =>
    case AuthFail =>
  }

  /** A C string's contents: no NUL before the terminator. */
  predicate IsCString(s: Text) {
    forall k :: 0 <= k < |s| ==> s[k] != Nul
  }

  /** Text that can be held in a NUL-terminated buffer. */
  type CString = s: Text | IsCString(s)

  /** A message as its fields: `payload` holds the `payload_len` valid bytes. */
  datatype Message = Message(msgType: uint8, questionId: uint8, payload: Text)

  /** The wire invariant `payload_len <= TRV_MAX_PAYLOAD`. */
  predicate WellFormed(m: Message) {
    |m.payload| <= MaxPayload
  }

  /** TriviaQuestion: a question, four options and the index of the right one. */
  datatype TriviaQuestion = TriviaQuestion(question: CString, options: seq<CString>, correctIndex: int)

  /** The question fits the record's `char question[256]` and
      `char options[4][128]` buffers, terminator included. */
  predicate Fits(q: TriviaQuestion) {
    |q.question| < 256 && |q.options| == 4 &&
    forall k :: 0 <= k < 4 ==> |q.options[k]| < 128
  }

  function Bytes(s: Text): (b: seq<uint8>)
    ensures |b| == |s|
  {
    seq(|s|, k requires 0 <= k < |s| => s[k] as int)
  }

  function Chars(b: seq<uint8>): (s: Text)
    ensures |s| == |b|
  {
    seq(|b|, k requires 0 <= k < |b| => b[k] as char)
  }

  lemma CharsBytes(s: Text)
    ensures Chars(Bytes(s)) == s
  {
  }

  lemma BytesChars(b: seq<uint8>)
    ensures Bytes(Chars(b)) == b
  {
  }

  /** The 2-byte length field, low byte first. */
  function Le16(n: uint16): seq<uint8> {
    [n % 0x100, n / 0x100]
  }

  function ReadLe16(lo: uint8, hi: uint8): (n: uint16)
    ensures Le16(n) == [lo, hi]
  {
    lo + 0x100 * hi
  }

  /** The bytes sent for a message: the header, then exactly
      `payload_len` payload bytes, with no padding. */
  function Encode(m: Message): (w: seq<uint8>)
    requires WellFormed(m)
    ensures |w| == HeaderSize + |m.payload|
  {
    [m.msgType, m.questionId] + Le16(|m.payload|) + Bytes(m.payload)
  }

  datatype DecodeError = ShortHeader | Oversized | ShortPayload

  datatype Decoded = Ok(msg: Message) | Malformed(error: DecodeError)

  /** Reads one message from the front of a received buffer: the 4-byte
      header, then `payload_len` payload bytes.  Bytes after them are not
      part of the message. */
  function Decode(w: seq<uint8>): (r: Decoded)
    ensures r.Ok? ==> WellFormed(r.msg) && HeaderSize + |r.msg.payload| <= |w|
  {
    if |w| < HeaderSize then Malformed(ShortHeader)
    else
      var len := ReadLe16(w[2], w[3]);
      if len > MaxPayload then Malformed(Oversized)
      else if |w| < HeaderSize + len then Malformed(ShortPayload)
      else Ok(Message(w[0], w[1], Chars(w[HeaderSize..HeaderSize + len])))
  }

  /** Reading back a built message recovers type, question id and payload,
      whatever bytes follow it in the receive buffer. */
  lemma DecodeEncode(m: Message, rest: seq<uint8>)
    requires WellFormed(m)
    ensures Decode(Encode(m) + rest) == Ok(m)
  {
    var w := Encode(m) + rest;
    var n := |m.payload|;
    assert Le16(n) == [w[2], w[3]];
    assert ReadLe16(w[2], w[3]) == n;
    assert w[HeaderSize..HeaderSize + n] == Bytes(m.payload);
    CharsBytes(m.payload);
  }

  /** Conversely, a buffer that decodes starts with the encoding of what
      it decodes to. */
  lemma EncodeDecode(w: seq<uint8>)
    requires Decode(w).Ok?
    ensures Encode(Decode(w).msg) == w[..HeaderSize + |Decode(w).msg.payload|]
  {
    var m := Decode(w).msg;
    var n := |m.payload|;
    BytesChars(w[HeaderSize..HeaderSize + n]);
    assert Le16(n) == [w[2], w[3]];
  }

  /** A TrvMessage buffer, filled in place by `build_message`. */
  class TrvMessage {
    var msgType: uint8
    var questionId: uint8
    var payloadLen: uint16
    const payload: array<CChar>

    ghost predicate Valid()
      reads this
    {
      payload.Length == MaxPayload && payloadLen <= MaxPayload
    }

    /** A zeroed message buffer. */
    constructor ()
      ensures Valid() && fresh(payload)
      ensures msgType == 0 && questionId == 0 && payloadLen == 0
      ensures forall k :: 0 <= k < MaxPayload ==> payload[k] == Nul
    {
      msgType, questionId, payloadLen := 0, 0, 0;
      payload := new CChar[MaxPayload](_ => Nul);
    }

    /** The message the buffer holds: its header fields and the first
        `payload_len` bytes of the payload. */
    function Read(): (m: Message)
      reads this, payload
      requires Valid()
      ensures WellFormed(m) && |m.payload| == payloadLen
    {
      Message(msgType, questionId, payload[..payloadLen])
    }

    /** The first `4 + payload_len` bytes of the packed struct, as
        `send` puts them on the wire. */
    function Wire(): (w: seq<uint8>)
      reads this, payload
      requires Valid()
      ensures |w| == HeaderSize + payloadLen
      ensures Decode(w) == Ok(Read())
    {
      var w := [msgType, questionId, payloadLen % 0x100, payloadLen / 0x100]
               + Bytes(payload[..payloadLen]);
      DecodeEncode(Read(), []);
      assert w == Encode(Read()) + [];
      w
    }

    /** `build_message(msg, type, qid, s)`: sets the header, copies `s` with
        `strncpy(payload, s, 512)` and returns the byte count to send.
        `s` is the string before its terminator; it must fit the payload,
        since a longer one would leave `payload_len` above 512 while only
        512 bytes are copied. */
    method Build(t: uint8, qid: uint8, s: Text) returns (total: int)
      requires Valid()
      requires IsCString(s) && |s| <= MaxPayload
      modifies this, payload
      ensures Valid()
      ensures msgType == t && questionId == qid && payloadLen == |s|
      ensures payload[..|s|] == s
      ensures forall k :: |s| <= k < MaxPayload ==> payload[k] == Nul
      ensures total == HeaderSize + payloadLen
      ensures Read() == Message(t, qid, s)
      ensures Wire() == Encode(Message(t, qid, s))
    {
      msgType := t;
      questionId := qid;
      payloadLen := |s|;
      var k := 0;
      while k < MaxPayload
        modifies payload
        invariant 0 <= k <= MaxPayload
        invariant forall j :: 0 <= j < k ==> payload[j] == if j < |s| then s[j] else Nul
      {
        payload[k] := if k < |s| then s[k] else Nul;
        k := k + 1;
      }
      total := HeaderSize + payloadLen;
      assert payload[..|s|] == s;
    }
  }
}
