/**
 * The event-bus message whose body is one Bonaparte object (`BonaPortable`).
 *
 * The body is encoded lazily into a byte cache the first time the message is
 * measured or written, and the body frame on the wire is
 *   [presence: 1 octet][length: 4 octets][payload: length octets]
 * with a lone `0` octet for an absent body. Operations that fill the cache in
 * Java return the updated message here.
 *
 * The body type `B` is a type parameter, and the Bonaparte composer, parser,
 * `was$Frozen` and `ret$MutableClone` are the fields of a `Capabilities<B>` value.
 */
module BonaPortableMessage {
  import opened Wrappers
  import opened Bytes
  import MessageFactory

  /** A Java `byte[]`: at most `Integer.MAX_VALUE` elements. */
  type JavaBytes = s: seq<uint8> | |s| <= MaxInt

  /** The foreign capabilities of the body type. */
  datatype Capabilities<!B> = Capabilities(
    // `ByteArrayComposer.addField(OUTER_BONAPORTABLE, body)` followed by `getBytes()`
    compose: B -> JavaBytes,
    // `ByteArrayParser.readObject(OUTER_BONAPORTABLE, ...)`; `None` when it throws
    parse: seq<uint8> -> Option<B>,
    // `was$Frozen()`
    wasFrozen: B -> bool,
    // `ret$MutableClone(true, true)`; `None` when it throws
    mutableClone: B -> Option<B>)

  /** The parser reads back every object the composer writes. */
  ghost predicate ParsesComposed<B(!new)>(caps: Capabilities<B>) {
    forall b :: caps.parse(caps.compose(b)) == Some(b)
  }

  /** A mutable clone composes to the same bytes as its original. */
  ghost predicate ClonesEncodeAlike<B(!new)>(caps: Capabilities<B>) {
    forall b :: caps.mutableClone(b).Some? ==> caps.compose(caps.mutableClone(b).value) == caps.compose(b)
  }

  /** A message: the transport's `send` flag and `address`, the body, and the `encoded` cache. */
  datatype Msg<B> = Msg(send: bool, address: string, body: Option<B>, encoded: Option<JavaBytes>)

  datatype BodyError =
    | IndexOutOfBounds(pos: int)
    | NegativeLength(length: int)
    | DecodeError(start: int, length: int)

  datatype CopyError = NullBody | CloneError

  /** What a length query returns: the message with its cache, and the length. */
  datatype Measured<B> = Measured(msg: Msg<B>, length: int)

  /** What `writeBody` leaves: the message with its cache, and the extended buffer. */
  datatype Written<B> = Written(msg: Msg<B>, buff: seq<uint8>)

  /** A message built by the sending constructor: nothing is encoded yet. */
  function NewMsg<B>(send: bool, address: string, body: Option<B>): Msg<B> {
    Msg(send, address, body, None)
  }

  /** A cache, once present, holds the encoding of the message's own body. */
  ghost predicate Valid<B>(caps: Capabilities<B>, m: Msg<B>) {
    m.encoded.Some? ==> m.body.Some? && m.encoded.value == caps.compose(m.body.value)
  }

  /** The body frame a message with this body is meant to produce. */
  function BodyFrame<B>(caps: Capabilities<B>, body: Option<B>): seq<uint8> {
    match body
    case None => [0]
    case Some(b) =>
      var p := caps.compose(b);
      [1] + IntBytes(|p|) + p
  }

  /** `ensureEncodeFormAvailable`: encodes the body only when there is no cache yet. */
  function EnsureEncodeFormAvailable<B>(caps: Capabilities<B>, m: Msg<B>): (r: Msg<B>)
    requires m.body.Some?
    ensures r.encoded.Some?
    ensures r.send == m.send && r.address == m.address && r.body == m.body
    ensures m.encoded.Some? ==> r == m
    ensures Valid(caps, m) ==> Valid(caps, r)
  {
    if m.encoded.None? then m.(encoded := Some(caps.compose(m.body.value))) else m
  }

  /** `getBodyLength`: 1 for an absent body, else `1 + 4 + encoded.length` in Java `int`. */
  function GetBodyLength<B>(caps: Capabilities<B>, m: Msg<B>): (r: Measured<B>)
    ensures IsInt32(r.length)
    ensures m.body.None? ==> r == Measured(m, 1)
    ensures m.body.Some? ==> r.msg == EnsureEncodeFormAvailable(caps, m)
    ensures m.body.Some? && |r.msg.encoded.value| <= MaxInt - 5 ==> r.length == 5 + |r.msg.encoded.value|
  {
    if m.body.None? then
      Measured(m, 1)
    else
      var m' := EnsureEncodeFormAvailable(caps, m);
      Measured(m', Wrap32(1 + 4 + |m'.encoded.value|))
  }

  /** `writeBody`: appends the presence octet and, for a present body, the length and the cache. */
  function WriteBody<B>(caps: Capabilities<B>, m: Msg<B>, buff: seq<uint8>): (r: Written<B>)
    ensures |r.buff| >= |buff| && r.buff[..|buff|] == buff
    ensures m.body.None? ==> r.msg == m && r.buff[|buff|..] == [0]
    ensures m.body.Some? ==> r.msg == EnsureEncodeFormAvailable(caps, m)
    ensures m.body.Some? ==>
      r.buff[|buff|..] == [1] + IntBytes(|r.msg.encoded.value|) + r.msg.encoded.value
    ensures Valid(caps, m) ==> r.buff[|buff|..] == BodyFrame(caps, m.body)
  {
    if m.body.None? then
      Written(m, buff + [0])
    else
      var m' := EnsureEncodeFormAvailable(caps, m);
      var enc := m'.encoded.value;
      var r := Written(m', buff + [1] + IntBytes(|enc|) + enc);
      assert r.buff[|buff|..] == [1] + IntBytes(|enc|) + enc;
      r
  }

  /**
   * The framing half of `readBody`: the payload octets handed to the parser, or
   * `None` when the presence octet is `0`. Reading past the end of the buffer and
   * a negative length throw in the transport's buffer.
   */
  function ReadFramedPayload(pos: int, buf: seq<uint8>): (r: Result<Option<JavaBytes>, BodyError>)
    ensures r == Success(None) <==> 0 <= pos < |buf| && buf[pos] == 0
    ensures r.Success? && r.value.Some? ==>
      var p := r.value.value;
      && 0 <= pos && pos + 5 + |p| <= |buf|
      && buf[pos] != 0
      && buf[pos + 1..pos + 5] == IntBytes(|p|)
      && buf[pos + 5..pos + 5 + |p|] == p
  {
    if pos < 0 || pos >= |buf| then
      Failure(IndexOutOfBounds(pos))
    else if buf[pos] == 0 then
      Success(None)
    else if pos + 5 > |buf| then
      Failure(IndexOutOfBounds(pos + 1))
    else
      var strLength := GetInt(buf[pos + 1..pos + 5]);
      if strLength < 0 then
        Failure(NegativeLength(strLength))
      else if pos + 5 + strLength > |buf| then
        Failure(IndexOutOfBounds(pos + 5 + strLength))
      else
        IntBytesOfGetInt(buf[pos + 1..pos + 5]);
        Success(Some(buf[pos + 5..pos + 5 + strLength]))
  }

  /** `readBody`, with a parser failure reported as a `DecodeError` over the payload's octets. */
  function ReadBody<B>(caps: Capabilities<B>, pos: int, buf: seq<uint8>): (r: Result<Option<B>, BodyError>)
    ensures r == Success(None) <==> 0 <= pos < |buf| && buf[pos] == 0
    ensures r.Failure? && r.error.DecodeError? <==>
      ReadFramedPayload(pos, buf).Success? && ReadFramedPayload(pos, buf).value.Some?
      && caps.parse(ReadFramedPayload(pos, buf).value.value).None?
    ensures r.Failure? && r.error.DecodeError? ==>
      r.error == DecodeError(pos + 5, |ReadFramedPayload(pos, buf).value.value|)
    ensures r.Success? && r.value.Some? ==>
      ReadFramedPayload(pos, buf).Success? && ReadFramedPayload(pos, buf).value.Some?
      && caps.parse(ReadFramedPayload(pos, buf).value.value) == r.value
  {
    match ReadFramedPayload(pos, buf)
    case Failure(e) => Failure(e)
    case Success(None) => Success(None)
    case Success(Some(p)) =>
      match caps.parse(p)
      case None => Failure(DecodeError(pos + 5, |p|))
      case Some(b) => Success(Some(b))
  }

  /** `readBody` as the source has it: a parser failure is printed and the body stays `null`. */
  function ReadBodyAsWritten<B>(caps: Capabilities<B>, pos: int, buf: seq<uint8>): (r: Result<Option<B>, BodyError>)
    ensures r.Failure? ==> !r.error.DecodeError?
  {
    match ReadFramedPayload(pos, buf)
    case Failure(e) => Failure(e)
    case Success(None) => Success(None)
    case Success(Some(p)) =>
      match caps.parse(p)
      case None => Success(None)
      case Some(b) => Success(Some(b))
  }

  /**
   * `copy`: a frozen body is shared, so the message itself is returned; a mutable
   * body is cloned into a new message with an empty cache. An absent body has
   * nothing to clone, so the message itself is returned.
   */
  function Copy<B>(caps: Capabilities<B>, m: Msg<B>): (r: Result<Msg<B>, CopyError>)
    ensures m.body.None? ==> r == Success(m)
    ensures m.body.Some? && caps.wasFrozen(m.body.value) ==> r == Success(m)
    ensures m.body.Some? && !caps.wasFrozen(m.body.value) ==>
      (r.Success? <==> caps.mutableClone(m.body.value).Some?)
    ensures m.body.Some? && !caps.wasFrozen(m.body.value) && r.Success? ==>
      r.value == Msg(m.send, m.address, caps.mutableClone(m.body.value), None)
    ensures r.Failure? ==> r.error == CloneError
  {
    match m.body
    case None => Success(m)
    case Some(b) =>
      if caps.wasFrozen(b) then Success(m)
      else
        match caps.mutableClone(b)
        case None => Failure(CloneError)
        case Some(c) => Success(NewMsg(m.send, m.address, Some(c)))
  }

  /**
   * `copy` as the source has it on an absent body: `body.was$Frozen()` is called on
   * `null` and throws. A failing clone is still reported as `CloneError` here,
   * where the source prints the exception and returns `null`.
   */
  function CopyAsWritten<B>(caps: Capabilities<B>, m: Msg<B>): (r: Result<Msg<B>, CopyError>)
    ensures m.body.None? ==> r == Failure(NullBody)
    ensures r.Success? ==> m.body.Some?
  {
    match m.body
    case None => Failure(NullBody)
    case Some(b) =>
      if caps.wasFrozen(b) then Success(m)
      else
        match caps.mutableClone(b)
        case None => Failure(CloneError)
        case Some(c) => Success(NewMsg(m.send, m.address, Some(c)))
  }

  /** `type()`: the built-in tag 80, not the user tag the message type registers. */
  function Type(): (r: int8)
    ensures !MessageFactory.InUserRange(r)
    ensures MessageFactory.BuiltInClass(r) == Some(MessageFactory.BonaPortableMessage)
  {
    MessageFactory.TypeBonaPortableAscii
  }

  // ---------------------------------------------------------------------------
  // A sequence of length queries and writes on one message.

  datatype Call = Measure | Write

  /**
   * The outcome of a sequence of calls: the final message, the lengths returned,
   * the octets each write appended, and how many times the body was encoded
   * (the count `cntSerializations` keeps when statistics are on).
   */
  datatype Trace<B> = Trace(msg: Msg<B>, lengths: seq<int>, chunks: seq<seq<uint8>>, encodes: nat)

  /** One call: the updated message and what it returned or appended. */
  function Step<B>(caps: Capabilities<B>, m: Msg<B>, call: Call): Trace<B> {
    match call
    case Measure =>
      var g := GetBodyLength(caps, m);
      Trace(g.msg, [g.length], [], 0)
    case Write =>
      var w := WriteBody(caps, m, []);
      Trace(w.msg, [], [w.buff], 0)
  }

  /** Performs `calls` in order on one message. */
  function Run<B>(caps: Capabilities<B>, m: Msg<B>, calls: seq<Call>): (r: Trace<B>)
    ensures r.msg.send == m.send && r.msg.address == m.address && r.msg.body == m.body
    ensures r.encodes <= 1
    ensures m.encoded.Some? || m.body.None? ==> r.encodes == 0
    ensures m.encoded.Some? ==> r.msg == m
    ensures |calls| > 0 && m.body.Some? ==> r.msg == EnsureEncodeFormAvailable(caps, m)
    ensures Valid(caps, m) ==> Valid(caps, r.msg)
    decreases |calls|
  {
    if |calls| == 0 then
      Trace(m, [], [], 0)
    else
      var s := Step(caps, m, calls[0]);
      var rest := Run(caps, s.msg, calls[1..]);
      var first := if m.encoded.None? && s.msg.encoded.Some? then 1 else 0;
      Trace(rest.msg, s.lengths + rest.lengths, s.chunks + rest.chunks, first + rest.encodes)
  }

  // ---------------------------------------------------------------------------
  // Properties of the codec.

  /** An absent body is measured as 1 and written as the single octet `0`. */
  lemma AbsentBodyFrame<B>(caps: Capabilities<B>, m: Msg<B>, buff: seq<uint8>)
    requires m.body.None?
    ensures GetBodyLength(caps, m).length == 1
    ensures WriteBody(caps, m, buff).buff == buff + [0]
  {
  }

  /** The cache is filled at most once: once present it is never recomputed or replaced. */
  lemma CacheIsFixed<B>(caps: Capabilities<B>, m: Msg<B>, buff: seq<uint8>)
    requires m.body.Some?
    ensures var c := EnsureEncodeFormAvailable(caps, m);
      && EnsureEncodeFormAvailable(caps, c) == c
      && GetBodyLength(caps, c).msg == c
      && WriteBody(caps, c, buff).msg == c
  {
  }

  /**
   * The length query and the write agree in either order: both leave the same
   * cache, and the length is the number of octets the write appends, reduced to
   * a Java `int`.
   */
  lemma LengthMatchesWrite<B>(caps: Capabilities<B>, m: Msg<B>, buff: seq<uint8>)
    ensures var g := GetBodyLength(caps, m);
      var w := WriteBody(caps, m, buff);
      && g.msg == w.msg
      && g.length == Wrap32(|w.buff| - |buff|)
      && GetBodyLength(caps, w.msg).length == g.length
      && WriteBody(caps, g.msg, buff) == w
      && (|w.buff| - |buff| <= MaxInt ==> g.length == |w.buff| - |buff|)
  {
  }

  /**
   * Whatever the order and number of length queries and writes, the body is
   * encoded at most once, every write appends the same frame, and every length
   * returned is that frame's length.
   */
  lemma {:induction false} RunIsConsistent<B>(caps: Capabilities<B>, m: Msg<B>, calls: seq<Call>)
    requires Valid(caps, m)
    ensures var r := Run(caps, m, calls);
      && (forall i :: 0 <= i < |r.chunks| ==> r.chunks[i] == BodyFrame(caps, m.body))
      && (forall i :: 0 <= i < |r.lengths| ==> r.lengths[i] == Wrap32(|BodyFrame(caps, m.body)|))
      && |r.chunks| + |r.lengths| == |calls|
    decreases |calls|
  {
    if |calls| > 0 {
      var s := Step(caps, m, calls[0]);
      LengthMatchesWrite(caps, m, []);
      assert s.chunks == [] || s.chunks == [BodyFrame(caps, m.body)];
      assert s.lengths == [] || s.lengths == [Wrap32(|BodyFrame(caps, m.body)|)];
      RunIsConsistent(caps, s.msg, calls[1..]);
    }
  }

  /** Reading at the start of what `writeBody` appended recovers the cached payload exactly. */
  lemma {:induction false} ReadFramedPayloadOfWrite<B>(caps: Capabilities<B>, m: Msg<B>, buff: seq<uint8>, rest: seq<uint8>)
    ensures var w := WriteBody(caps, m, buff);
      && (m.body.None? ==> ReadFramedPayload(|buff|, w.buff + rest) == Success(None))
      && (m.body.Some? ==>
            ReadFramedPayload(|buff|, w.buff + rest) == Success(Some(w.msg.encoded.value)))
  {
    var w := WriteBody(caps, m, buff);
    var all := w.buff + rest;
    var pos := |buff|;
    assert all[pos..|w.buff|] == w.buff[pos..];
    if m.body.Some? {
      var enc := w.msg.encoded.value;
      assert w.buff[pos..] == [1] + IntBytes(|enc|) + enc;
      assert all[pos] == 1;
      assert all[pos + 1..pos + 5] == IntBytes(|enc|);
      GetIntOfIntBytes(|enc|);
      assert all[pos + 5..pos + 5 + |enc|] == enc;
    }
  }

  /** Round trip: with a parser that reads back what the composer writes, `readBody` inverts `writeBody`. */
  lemma {:induction false} ReadBodyOfWrite<B(!new)>(caps: Capabilities<B>, m: Msg<B>, buff: seq<uint8>, rest: seq<uint8>)
    requires ParsesComposed(caps)
    requires Valid(caps, m)
    ensures ReadBody(caps, |buff|, WriteBody(caps, m, buff).buff + rest) == Success(m.body)
  {
    ReadFramedPayloadOfWrite(caps, m, buff, rest);
  }

  /** `ReadBody` and the source's `readBody` agree on every frame whose payload parses. */
  lemma ReadBodyAgreesUnlessDecodeFails<B>(caps: Capabilities<B>, pos: int, buf: seq<uint8>)
    ensures ReadBody(caps, pos, buf).Failure? && ReadBody(caps, pos, buf).error.DecodeError?
      <==> ReadBody(caps, pos, buf) != ReadBodyAsWritten(caps, pos, buf)
  {
  }

  /**
   * The source's `readBody` turns a payload its parser rejects into an absent
   * body, indistinguishable from a frame that carried no body at all.
   */
  lemma SwallowedDecodeLooksAbsent<B>(caps: Capabilities<B>, p: JavaBytes)
    requires caps.parse(p).None?
    ensures ReadBodyAsWritten(caps, 0, [1] + IntBytes(|p|) + p) == Success(None)
    ensures ReadBodyAsWritten(caps, 0, [0]) == Success(None)
    ensures ReadBody(caps, 0, [1] + IntBytes(|p|) + p) == Failure(DecodeError(5, |p|))
  {
    ReadFramedPayloadOfWriteRaw(1, p);
  }

  /** Behind any non-zero presence octet, a hand-built length and payload read back to the payload. */
  lemma ReadFramedPayloadOfWriteRaw(k: uint8, p: JavaBytes)
    requires k != 0
    ensures ReadFramedPayload(0, [k] + IntBytes(|p|) + p) == Success(Some(p))
  {
    var buf := [k] + IntBytes(|p|) + p;
    assert buf[1..5] == IntBytes(|p|);
    GetIntOfIntBytes(|p|);
    assert buf[5..5 + |p|] == p;
  }

  /** The source's `copy` throws on every message without a body; `Copy` returns it unchanged. */
  lemma CopyAsWrittenFailsOnAbsentBody<B>(caps: Capabilities<B>, m: Msg<B>)
    requires m.body.None?
    ensures CopyAsWritten(caps, m) == Failure(NullBody)
    ensures Copy(caps, m) == Success(m)
  {
  }

  /** `Copy` and the source's `copy` agree on every message that has a body. */
  lemma CopyAgreesWithSourceOnPresentBody<B>(caps: Capabilities<B>, m: Msg<B>)
    requires m.body.Some?
    ensures Copy(caps, m) == CopyAsWritten(caps, m)
  {
  }

  /**
   * A copy is indistinguishable on the wire: when clones compose like their
   * originals, writing the copy appends the same octets as writing the original.
   */
  lemma CopyWritesSameFrame<B(!new)>(caps: Capabilities<B>, m: Msg<B>, buff: seq<uint8>)
    requires Valid(caps, m)
    requires ClonesEncodeAlike(caps)
    requires Copy(caps, m).Success?
    ensures Valid(caps, Copy(caps, m).value)
    ensures WriteBody(caps, Copy(caps, m).value, buff).buff == WriteBody(caps, m, buff).buff
  {
  }

  /** A five-octet payload behind a present-body frame reaches the parser verbatim. */
  lemma FivePayloadOctetsScenario<B>(caps: Capabilities<B>)
    ensures ReadFramedPayload(1, [41, 1, 0, 0, 0, 5, 1, 2, 3, 4, 5]) == Success(Some([1, 2, 3, 4, 5]))
  {
    var buf: seq<uint8> := [41, 1, 0, 0, 0, 5, 1, 2, 3, 4, 5];
    assert buf[2..6] == [0, 0, 0, 5];
    assert buf[6..11] == [1, 2, 3, 4, 5];
  }
}
