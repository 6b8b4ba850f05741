/** Frames and Data sections of internal/amqp/server.go, and what survives a trip through them. */
module AmqpFraming {
  import opened Outcomes
  import opened ByteStrings
  import opened AmqpEncoder
  import opened AmqpParser
  import opened AmqpRoundTrip

  const PERF_TRANSFER: byte := 0x14

  datatype Frame = Frame(channel: uint16, body: Bytes)

  datatype Received = Received(frame: Frame, rest: Bytes)

  function FrameHeader(channel: uint16, size: nat): (h: Bytes)
    ensures |h| == 8
  {
    U32(size) + [2, 0, channel / 0x100, channel % 0x100]
  }

  /** writeFrame: a doff of 2 words, type 0. */
  function WrittenFrame(f: Frame): Bytes {
    FrameHeader(f.channel, 8 + |f.body|) + f.body
  }

  /** readFrame, on the bytes still to come on the connection. */
  function ReadFrame(stream: Bytes): (r: Outcome<Received>)
    ensures !r.Panic?
    ensures r.Ok? ==> |r.value.rest| + 8 <= |stream|
  {
    if |stream| < 8 then Err
    else
      var size: int, doff: int := ReadU32(stream[..4]), 4 * stream[4] as int;
      if size < 8 || doff < 8 || doff > size || |stream| < size then Err
      else
        var hi: int, lo: int := stream[6], stream[7];
        Ok(Received(Frame(hi * 0x100 + lo, stream[doff..size]), stream[size..]))
  }

  function WriteAll(frames: seq<Frame>): Bytes {
    if frames == [] then [] else WrittenFrame(frames[0]) + WriteAll(frames[1..])
  }

  /** The connection loop: frames until one cannot be read. */
  function ReadAll(stream: Bytes): seq<Frame>
    decreases |stream|
  {
    match ReadFrame(stream)
    case Ok(r) => [r.frame] + ReadAll(r.rest)
    case _ => []
  }

  /** The size field does not wrap. */
  predicate Fits(f: Frame) {
    8 + |f.body| < TWO32
  }

  lemma {:induction false} FrameRoundTrip(f: Frame, tail: Bytes)
    requires Fits(f)
    ensures ReadFrame(WrittenFrame(f) + tail) == Ok(Received(f, tail))
  {
    var size := 8 + |f.body|;
    var s := WrittenFrame(f) + tail;
    assert s[..4] == U32(size);
    assert s[4] == 2 && s[6] == f.channel / 0x100 && s[7] == f.channel % 0x100;
    assert s[8..size] == f.body;
    assert s[size..] == tail;
  }

  /** A frame cut short anywhere is an error, never a shorter frame. */
  lemma {:induction false} TornFrameIsAnError(f: Frame, n: nat)
    requires Fits(f) && n < |WrittenFrame(f)|
    ensures ReadFrame(WrittenFrame(f)[..n]) == Err
  {
    var s := WrittenFrame(f)[..n];
    if n >= 8 {
      assert s[..4] == U32(8 + |f.body|);
    }
  }

  /** Any sequence of written frames reads back as the same frames; with a torn frame at the
      end, as all the others. */
  lemma {:induction false} StreamRoundTrip(frames: seq<Frame>, torn: Bytes)
    requires forall f :: f in frames ==> Fits(f)
    requires !ReadFrame(torn).Ok?
    ensures ReadAll(WriteAll(frames) + torn) == frames
    decreases |frames|
  {
    hide WrittenFrame, ReadFrame;
    if frames == [] {
      assert WriteAll(frames) + torn == torn;
    } else {
      assert frames == [frames[0]] + frames[1..];
      FrameRoundTrip(frames[0], WriteAll(frames[1..]) + torn);
      assert WriteAll(frames) + torn == WrittenFrame(frames[0]) + (WriteAll(frames[1..]) + torn);
      StreamRoundTrip(frames[1..], torn);
    }
  }

  // ---------------------------- Data sections ----------------------------

  function EncodedData(data: Bytes): Bytes {
    [0x00, 0x53, 0x75] + EncodedBinary(data)
  }

  /** The bytes of a parsed string or binary. */
  function Content(p: Outcome<Parsed>): Option<Bytes> {
    if p.Ok? && p.value.value.Binary? then Some(p.value.value.data)
    else if p.Ok? && p.value.value.Text? then Some(p.value.value.s)
    else None
  }

  predicate HasDataDescriptor(payload: Bytes) {
    |payload| >= 3 && payload[0] == 0x00 && payload[1] == 0x53 && payload[2] == 0x75
  }

  /** extractDataSection: a Data section, else a bare string or binary, else the payload itself. */
  function ExtractData(payload: Bytes): Outcome<Bytes> {
    if payload == [] then Ok([])
    else
      var section := if HasDataDescriptor(payload) then ParseValue(payload[3..]) else Err;
      if section.Panic? then Panic
      else if Content(section).Some? then Ok(Content(section).value)
      else
        var bare := ParseValue(payload);
        if bare.Panic? then Panic
        else if Content(bare).Some? then Ok(Content(bare).value)
        else Ok(payload)
  }

  /** What onFrame stores for a Transfer: an empty extraction falls back to the raw payload. */
  function StoredBody(payload: Bytes): Outcome<Bytes> {
    var body :- ExtractData(payload);
    Ok(if body == [] then payload else body)
  }

  lemma {:induction false} DataRoundTrip(data: Bytes)
    requires |data| < TWO32
    ensures ExtractData(EncodedData(data)) == Ok(data)
  {
    var p := EncodedData(data);
    assert p[3..] == EncodedBinary(data) + [];
    VarRoundTrip(false, data, []);
  }

  /** A Data section is stored as its content exactly when the content is not empty. */
  lemma {:induction false} StoredFaithfully(data: Bytes)
    requires |data| < TWO32
    ensures StoredBody(EncodedData(data)) == Ok(data) <==> data != []
  {
    DataRoundTrip(data);
  }

  // ----------------------------- Transfers ------------------------------

  function TransferFields(handle: uint32, id: uint32): seq<Value> {
    [Uint(handle), Uint(id), Binary([1]), Null, Bool(true), Bool(false)]
  }

  /** `wire` is what writeTransfer may put on the connection. */
  ghost predicate IsTransfer(channel: uint16, handle: uint32, id: uint32, data: Bytes, wire: Bytes) {
    exists perf :: IsPerformative(PERF_TRANSFER, TransferFields(handle, id), perf)
                && wire == WrittenFrame(Frame(channel, perf + EncodedData(data)))
  }

  lemma {:induction false} TransferFieldsKept(handle: uint32, id: uint32)
    ensures WidenedAll(TransferFields(handle, id)) == TransferFields(handle, id)
  {
  }

  /** A delivered transfer reads back, whatever follows it on the stream, as one frame on the
      channel whose performative names the handle and delivery id and whose Data section holds
      the identical bytes. */
  lemma {:induction false} TransferFidelity(channel: uint16, handle: uint32, id: uint32, data: Bytes, wire: Bytes,
      tail: Bytes)
    requires IsTransfer(channel, handle, id, data, wire) && |wire| < TWO32
    ensures var r := ReadFrame(wire + tail);
            && r.Ok? && r.value.rest == tail && r.value.frame.channel == channel
            && var d := ParseDescribedList(r.value.frame.body);
               d.Ok? && d.value.code == PERF_TRANSFER && d.value.fields == TransferFields(handle, id)
               && ExtractData(d.value.rest) == Ok(data)
  {
    var perf :| IsPerformative(PERF_TRANSFER, TransferFields(handle, id), perf)
             && wire == WrittenFrame(Frame(channel, perf + EncodedData(data)));
    FrameRoundTrip(Frame(channel, perf + EncodedData(data)), tail);
    CodecRoundTrip(PERF_TRANSFER, TransferFields(handle, id), perf, EncodedData(data));
    TransferFieldsKept(handle, id);
    DataRoundTrip(data);
  }
}
