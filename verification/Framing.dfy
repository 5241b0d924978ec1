/** The wire form of single-message transports: a four-byte length, the envelope, the payload. */
module Framing {
  import opened Wrappers
  import opened Protocol

  type Bytes = seq<byte>

  const LENGTH_SIZE := 4
  const LENGTH_LIMIT := 0x1_0000_0000

  /** struct.pack("!I", n). */
  function PutLength(n: nat): (b: Bytes)
    requires n < LENGTH_LIMIT
    ensures |b| == LENGTH_SIZE
  {
    [n / 0x100_0000, n / 0x1_0000 % 0x100, n / 0x100 % 0x100, n % 0x100]
  }

  /** struct.unpack_from("!I", b). */
  function GetLength(b: Bytes): (n: nat)
    requires |b| >= LENGTH_SIZE
    ensures n < LENGTH_LIMIT
  {
    b[0] as int * 0x100_0000 + b[1] as int * 0x1_0000 + b[2] as int * 0x100 + b[3] as int
  }

  lemma Digits(n: nat)
    requires n < LENGTH_LIMIT
    ensures n == n / 0x100_0000 * 0x100_0000 + n / 0x1_0000 % 0x100 * 0x1_0000 + n / 0x100 % 0x100 * 0x100 + n % 0x100
    ensures n / 0x100_0000 < 0x100
  {
    var high, low := n / 0x1_0000, n % 0x1_0000;
    assert n / 0x100_0000 == high / 0x100;
    assert n / 0x100 == high * 0x100 + low / 0x100;
    assert low / 0x100 < 0x100 && n % 0x100 == low % 0x100;
  }

  lemma LengthRoundTrip(n: nat, rest: Bytes)
    requires n < LENGTH_LIMIT
    ensures GetLength(PutLength(n) + rest) == n
  {
    Digits(n);
    var b := PutLength(n);
    assert b == [n / 0x100_0000, n / 0x1_0000 % 0x100, n / 0x100 % 0x100, n % 0x100];
    hide PutLength;
    assert forall i :: 0 <= i < LENGTH_SIZE ==> (b + rest)[i] == b[i];
  }

  /** Network order: the first byte weighs most. */
  lemma LengthIsBigEndian(b: Bytes)
    requires |b| >= LENGTH_SIZE
    ensures GetLength(b) == ((b[0] as int * 256 + b[1] as int) * 256 + b[2] as int) * 256 + b[3] as int
    ensures PutLength(1) == [0, 0, 0, 1] && PutLength(0x0102_0304) == [1, 2, 3, 4]
  {
  }

  lemma LengthIsCanonical(b: Bytes)
    requires |b| >= LENGTH_SIZE
    ensures PutLength(GetLength(b)) == b[..LENGTH_SIZE]
  {
    var n := GetLength(b);
    assert n / 0x100 == b[0] as int * 0x1_0000 + b[1] as int * 0x100 + b[2] as int;
    assert n / 0x1_0000 == b[0] as int * 0x100 + b[1] as int;
    assert n / 0x100_0000 == b[0];
  }

  // ----- whole messages

  function Message(envelope: Bytes, payload: Bytes): Bytes
    requires |envelope| < LENGTH_LIMIT
  {
    PutLength(|envelope|) + envelope + payload
  }

  /** _pack_message; a length beyond 32 bits makes struct.pack raise. */
  function PackMessage(lib: Lib, e: Envelope, payload: Bytes, maxEnvelope: nat): Result<Bytes> {
    match EncodeEnvelope(lib, e, maxEnvelope)
    case Err(error) => Err(error)
    case Ok(encoded) =>
      if |encoded| >= LENGTH_LIMIT then Err(ValueError("length does not fit in 32 bits"))
      else Ok(Message(encoded, payload))
  }

  function UnpackMessage(lib: Lib, message: Bytes, maxEnvelope: nat, maxMessage: nat): Result<(Envelope, Bytes)> {
    if |message| < LENGTH_SIZE then Err(ProtocolError("RPC message is missing its envelope length"))
    else
      var size := GetLength(message);
      if size > maxEnvelope then Err(ProtocolError("RPC envelope exceeds the limit"))
      else if LENGTH_SIZE + size > |message| then Err(ProtocolError("RPC message contains a truncated envelope"))
      else
        var payload := message[LENGTH_SIZE + size..];
        if |payload| > maxMessage then Err(ProtocolError("RPC payload exceeds the limit"))
        else
          match DecodeEnvelope(lib, message[LENGTH_SIZE..LENGTH_SIZE + size], maxEnvelope)
          case Err(error) => Err(error)
          case Ok(e) => Ok((e, payload))
  }

  lemma MessageParts(envelope: Bytes, payload: Bytes)
    requires |envelope| < LENGTH_LIMIT
    ensures var m := Message(envelope, payload);
            && |m| == LENGTH_SIZE + |envelope| + |payload|
            && GetLength(m) == |envelope|
            && m[LENGTH_SIZE..LENGTH_SIZE + |envelope|] == envelope
            && m[LENGTH_SIZE + |envelope|..] == payload
  {
    hide GetLength, PutLength;
    assert Message(envelope, payload) == PutLength(|envelope|) + (envelope + payload);
    LengthRoundTrip(|envelope|, envelope + payload);
  }

  /** Unpack after pack: within the limits the envelope arrives in normal form with the payload intact. */
  lemma UnpackAfterPack(lib: Lib, e: Envelope, payload: Bytes, maxEnvelope: nat, maxEnvelope': nat, maxMessage: nat)
    requires Lawful(lib) && PackMessage(lib, e, payload, maxEnvelope).Ok?
    requires |EncodeEnvelope(lib, e, maxEnvelope).value| <= maxEnvelope' && |payload| <= maxMessage
    ensures var r := UnpackMessage(lib, PackMessage(lib, e, payload, maxEnvelope).value, maxEnvelope', maxMessage);
            && (r.Ok? <==> Sendable(lib, e))
            && (r.Ok? ==> r.value == (Normal(e), payload))
  {
    var encoded := EncodeEnvelope(lib, e, maxEnvelope).value;
    hide Sendable, Normal, EncodeEnvelope, DecodeEnvelope, Message, GetLength;
    MessageParts(encoded, payload);
    EnvelopeBytesRoundTrip(lib, e, maxEnvelope, maxEnvelope');
  }

  /** What is packed: the JSON text of the envelope's object, if there is one within the limit and within 32
      bits, behind its length and before the payload; nothing otherwise. */
  lemma PackedExactly(lib: Lib, e: Envelope, payload: Bytes, maxEnvelope: nat)
    ensures var text := lib.dumps(JObject(ObjectOf(e)));
            var r := PackMessage(lib, e, payload, maxEnvelope);
            && (r.Ok? <==> text.Text? && |text.bytes| <= maxEnvelope && |text.bytes| < 0x1_0000_0000)
            && (r.Ok? ==> r.value == PutLength(|text.bytes|) + text.bytes + payload)
  {
    hide ObjectOf, PutLength;
  }

  /** What is accepted: four bytes of length, an envelope of that length, within the limit and in the
      message, that decodes, and a payload within its limit. */
  lemma AcceptedExactly(lib: Lib, message: Bytes, maxEnvelope: nat, maxMessage: nat)
    ensures UnpackMessage(lib, message, maxEnvelope, maxMessage).Ok?
            <==> && 4 <= |message|
                 && var size := GetLength(message);
                    && size <= maxEnvelope && 4 + size <= |message|
                    && |message| - 4 - size <= maxMessage
                    && DecodeEnvelope(lib, message[4..4 + size], maxEnvelope).Ok?
  {
    hide DecodeEnvelope, GetLength;
  }

  /** Nothing is lost: an accepted message is exactly the length, an envelope that decodes to the one
      returned, and the payload returned. */
  lemma AcceptedMessageIsExact(lib: Lib, message: Bytes, maxEnvelope: nat, maxMessage: nat) returns (encoded: Bytes)
    requires UnpackMessage(lib, message, maxEnvelope, maxMessage).Ok?
    ensures var (e, payload) := UnpackMessage(lib, message, maxEnvelope, maxMessage).value;
            && |encoded| < LENGTH_LIMIT && message == Message(encoded, payload)
            && DecodeEnvelope(lib, encoded, maxEnvelope) == Ok(e)
            && |encoded| <= maxEnvelope && |payload| <= maxMessage
  {
    hide DecodeEnvelope, PutLength, GetLength;
    var size := GetLength(message);
    encoded := message[LENGTH_SIZE..LENGTH_SIZE + size];
    LengthIsCanonical(message);
    assert message == message[..LENGTH_SIZE] + encoded + message[LENGTH_SIZE + size..];
  }

  // ----- the same form written and read in place, in shared memory

  datatype Loan = Loan(shared: array<byte>, offset: nat)

  /** _prepare_loan: the loan starts with the length and the envelope; what follows is for the payload. */
  method PrepareLoan(lib: Lib, e: Envelope, payloadSize: nat, maxEnvelope: nat) returns (r: Result<Loan>)
    ensures r.Ok? <==> PackMessage(lib, e, [], maxEnvelope).Ok?
    ensures r.Err? ==> r.error == PackMessage(lib, e, [], maxEnvelope).error
    ensures r.Ok? ==>
              && fresh(r.value.shared)
              && r.value.shared.Length == r.value.offset + payloadSize
              && r.value.shared[..r.value.offset] == PackMessage(lib, e, [], maxEnvelope).value
  {
    var encoding := EncodeEnvelope(lib, e, maxEnvelope);
    if encoding.Err? {
      return Err(encoding.error);
    }
    var encoded := encoding.value;
    var offset := LENGTH_SIZE + |encoded|;
    var shared := new byte[offset + payloadSize];
    if |encoded| >= LENGTH_LIMIT {
      return Err(ValueError("length does not fit in 32 bits"));
    }
    hide PutLength;
    CopyInto(shared, 0, PutLength(|encoded|));
    CopyInto(shared, LENGTH_SIZE, encoded);
    assert shared[..offset] == shared[0..LENGTH_SIZE] + shared[LENGTH_SIZE..offset];
    r := Ok(Loan(shared, offset));
  }

  /** Assignment to a slice of a shared buffer. */
  method CopyInto(shared: array<byte>, at: nat, source: Bytes)
    requires at + |source| <= shared.Length
    modifies shared
    ensures shared[at..at + |source|] == source
    ensures forall i :: 0 <= i < shared.Length && !(at <= i < at + |source|) ==> shared[i] == old(shared[i])
  {
    var i := 0;
    while i < |source|
      invariant 0 <= i <= |source|
      invariant forall k :: 0 <= k < i ==> shared[at + k] == source[k]
      invariant forall k :: 0 <= k < shared.Length && !(at <= k < at + i) ==> shared[k] == old(shared[k])
    {
      shared[at + i] := source[i];
      i := i + 1;
    }
  }

  datatype SendError = TooLarge | Failed(error: Error)

  /** _send_payload: refinement of the plain form. The loan that is sent holds exactly the bytes that
      _pack_message would have built, and it fails exactly when the payload is over the limit or
      _pack_message would have failed, before anything is sent. */
  method SendPayload(lib: Lib, e: Envelope, payload: Bytes, maxEnvelope: nat, maxMessage: nat)
    returns (sent: Option<array<byte>>, failure: Option<SendError>)
    ensures sent.Some? <==> failure.None?
    ensures |payload| > maxMessage ==> failure == Some(TooLarge)
    ensures |payload| <= maxMessage ==>
              match PackMessage(lib, e, payload, maxEnvelope)
              case Ok(message) => sent.Some? && fresh(sent.value) && sent.value[..] == message
              case Err(error) => failure == Some(Failed(error))
  {
    if |payload| > maxMessage {
      return None, Some(TooLarge);
    }
    PackSplits(lib, e, payload, maxEnvelope);
    hide PackMessage, EncodeEnvelope;
    var loan := PrepareLoan(lib, e, |payload|, maxEnvelope);
    if loan.Err? {
      return None, Some(Failed(loan.error));
    }
    var shared, offset := loan.value.shared, loan.value.offset;
    if |payload| > 0 {
      CopyInto(shared, offset, payload);
    }
    assert shared[..offset] == PackMessage(lib, e, [], maxEnvelope).value;
    assert shared[..] == shared[..offset] + shared[offset..offset + |payload|];
    sent, failure := Some(shared), None;
  }

  lemma PackSplits(lib: Lib, e: Envelope, payload: Bytes, maxEnvelope: nat)
    ensures var front, whole := PackMessage(lib, e, [], maxEnvelope), PackMessage(lib, e, payload, maxEnvelope);
            match whole
            case Ok(message) => front.Ok? && message == front.value + payload
            case Err(error) => front == Err(error)
  {
  }

  /** _view_message: the payload stays where it is, from the offset on. */
  method ViewMessage(lib: Lib, shared: array<byte>, maxEnvelope: nat) returns (r: Result<(Envelope, nat)>)
    ensures r == ViewOf(lib, shared[..], maxEnvelope)
  {
    if shared.Length < LENGTH_SIZE {
      return Err(ProtocolError("RPC message is missing its envelope length"));
    }
    hide DecodeEnvelope;
    assert shared[..LENGTH_SIZE] == shared[..][..LENGTH_SIZE];
    var size := GetLength(shared[..LENGTH_SIZE]);
    if size > maxEnvelope {
      return Err(ProtocolError("RPC envelope exceeds the limit"));
    }
    var offset := LENGTH_SIZE + size;
    if offset > shared.Length {
      return Err(ProtocolError("RPC message contains a truncated envelope"));
    }
    assert shared[LENGTH_SIZE..offset] == shared[..][LENGTH_SIZE..offset];
    var decoded := DecodeEnvelope(lib, shared[LENGTH_SIZE..offset], maxEnvelope);
    if decoded.Err? {
      return Err(decoded.error);
    }
    r := Ok((decoded.value, offset));
  }

  function ViewOf(lib: Lib, message: Bytes, maxEnvelope: nat): Result<(Envelope, nat)> {
    if |message| < LENGTH_SIZE then Err(ProtocolError("RPC message is missing its envelope length"))
    else
      var size := GetLength(message);
      if size > maxEnvelope then Err(ProtocolError("RPC envelope exceeds the limit"))
      else if LENGTH_SIZE + size > |message| then Err(ProtocolError("RPC message contains a truncated envelope"))
      else
        match DecodeEnvelope(lib, message[LENGTH_SIZE..LENGTH_SIZE + size], maxEnvelope)
        case Err(error) => Err(error)
        case Ok(e) => Ok((e, LENGTH_SIZE + size))
  }

  /** The two readers accept and split alike up to the payload limit, which only the plain one checks,
      and which it checks before it decodes the envelope. */
  lemma ReadersAgree(lib: Lib, message: Bytes, maxEnvelope: nat, maxMessage: nat)
    ensures var view, whole := ViewOf(lib, message, maxEnvelope), UnpackMessage(lib, message, maxEnvelope, maxMessage);
            && (view.Ok? ==> view.value.1 <= |message|)
            && (whole.Ok? <==> view.Ok? && |message| - view.value.1 <= maxMessage)
            && (whole.Ok? ==> whole.value == (view.value.0, message[view.value.1..]))
            && (whole.Err? && view.Err? ==> whole.error == view.error || whole.error == ProtocolError("RPC payload exceeds the limit"))
            && (view.Err? && |message| <= maxMessage ==> whole == Err(view.error))
  {
    hide DecodeEnvelope, GetLength;
  }
}
