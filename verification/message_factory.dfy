/**
 * The event bus's table of user message types and the dispatch of an inbound
 * buffer on its leading type byte.
 *
 * The process-wide array of twenty registrations is a value of type `Table`;
 * registration returns the new table instead of assigning into a static field.
 * A registration is the `UserMessageType` a provider hands in: its id, the tag
 * it wants, and its factory, which builds a message of type `M` from a buffer.
 */
module MessageFactory {
  import opened Wrappers
  import opened Bytes

  // Tags of the built-in message types.
  const TypePing: int8 := 0
  const TypeBuffer: int8 := 1
  const TypeBoolean: int8 := 2
  const TypeByteArray: int8 := 3
  const TypeByte: int8 := 4
  const TypeCharacter: int8 := 5
  const TypeDouble: int8 := 6
  const TypeFloat: int8 := 7
  const TypeInt: int8 := 8
  const TypeLong: int8 := 9
  const TypeShort: int8 := 10
  const TypeString: int8 := 11
  const TypeJsonObject: int8 := 12
  const TypeJsonArray: int8 := 13
  const TypeReplyFailure: int8 := 100
  const TypeBonaPortableAscii: int8 := 80

  // The window of tags open to user message types.
  const UserMessageTypeFirst: int8 := 40
  const UserMessageTypeNum: int8 := 20

  /** Every tag the static switch of `read` knows. */
  const BuiltInTags: set<int8> := {0, 1, 2, 3, 4, 5, 6, 7, 8, 9, 10, 11, 12, 13, 80, 100}

  /** The classes the static switch of `read` constructs; their contents are not modelled. */
  datatype MessageClass =
    | PingMessage | BufferMessage | BooleanMessage | ByteArrayMessage | ByteMessage
    | CharacterMessage | DoubleMessage | FloatMessage | IntMessage | LongMessage
    | ShortMessage | StringMessage | JsonObjectMessage | BonaPortableMessage
    | JsonArrayMessage | ReplyFailureMessage

  /** A built-in message: which class was constructed, from which buffer. */
  datatype Built = Built(cls: MessageClass, buffer: seq<uint8>)

  /** What `read` hands back: a built-in message, or what a registered factory made. */
  datatype Inbound<M> = Static(built: Built) | Registered(tag: int8, value: M)

  /** A `UserMessageType`: `getId()`, `getDefaultNumericUserMessageType()` and `createMessage`. */
  datatype Registration<M> = Registration(id: string, tag: int8, create: seq<uint8> -> M)

  /** The `userMessageTypes` array: one slot per user tag, `None` where nobody registered. */
  type Table<M> = s: seq<Option<Registration<M>>> | |s| == UserMessageTypeNum as int
    witness EmptyTable()

  datatype FactoryError =
    | OutOfRange(tag: int8)
    | DuplicateAssignment(tag: int8, first: string, now: string)
    | InvalidType(tag: int8)
    | EmptyBuffer

  /** The table at class initialisation: every slot empty. */
  function EmptyTable<M>(): (t: seq<Option<Registration<M>>>)
    ensures |t| == UserMessageTypeNum as int
    ensures forall i :: 0 <= i < |t| ==> t[i].None?
  {
    seq(UserMessageTypeNum as int, _ => None)
  }

  predicate InUserRange(tag: int8) {
    UserMessageTypeFirst <= tag < UserMessageTypeFirst + UserMessageTypeNum
  }

  /** The array index of a user tag. */
  function Slot(tag: int8): (i: nat)
    requires InUserRange(tag)
    ensures i < UserMessageTypeNum as int
  {
    (tag - UserMessageTypeFirst) as int
  }

  /** Each occupied slot holds a registration for that slot's own tag. */
  ghost predicate WellTagged<M>(t: Table<M>) {
    forall i :: 0 <= i < |t| && t[i].Some? ==> t[i].value.tag as int == UserMessageTypeFirst as int + i
  }

  /** `rangeCheck`: passes exactly for the tags of the user window. */
  function RangeCheck(tag: int8): (r: Outcome<FactoryError>)
    ensures r.Pass? <==> 40 <= tag as int < 60
    ensures r.Fail? ==> r.error == OutOfRange(tag)
  {
    if tag < UserMessageTypeFirst || tag >= UserMessageTypeFirst + UserMessageTypeNum then
      Fail(OutOfRange(tag))
    else
      Pass
  }

  /**
   * `registerUserMessageType`: claims an empty slot, accepts a registration whose
   * id is already there without changing anything, and rejects any other id.
   */
  function Register<M>(t: Table<M>, impl: Registration<M>): (r: Result<Table<M>, FactoryError>)
    ensures r.Success? <==>
      InUserRange(impl.tag) && (t[Slot(impl.tag)].None? || t[Slot(impl.tag)].value.id == impl.id)
    ensures !InUserRange(impl.tag) ==> r == Failure(OutOfRange(impl.tag))
    ensures r.Success? ==> r.value[Slot(impl.tag)].Some? && r.value[Slot(impl.tag)].value.id == impl.id
    ensures r.Success? ==> forall i :: 0 <= i < |t| && i != Slot(impl.tag) ==> r.value[i] == t[i]
    ensures r.Success? && t[Slot(impl.tag)].Some? ==> r.value == t
    ensures InUserRange(impl.tag) && t[Slot(impl.tag)].None? ==> r == Success(t[Slot(impl.tag) := Some(impl)])
    ensures r.Failure? && InUserRange(impl.tag) ==>
      r.error == DuplicateAssignment(impl.tag, t[Slot(impl.tag)].value.id, impl.id)
  {
    match RangeCheck(impl.tag)
    case Fail(e) => Failure(e)
    case Pass =>
      var i := Slot(impl.tag);
      match t[i]
      case None => Success(t[i := Some(impl)])
      case Some(previous) =>
        if previous.id == impl.id then Success(t)
        else Failure(DuplicateAssignment(impl.tag, previous.id, impl.id))
  }

  /** `getFactory`: the registration in a user tag's slot, `None` if nobody registered. */
  function GetFactory<M>(t: Table<M>, tag: int8): (r: Result<Option<Registration<M>>, FactoryError>)
    ensures r.Success? <==> InUserRange(tag)
    ensures r.Success? ==> r.value == t[Slot(tag)]
    ensures r.Failure? ==> r.error == OutOfRange(tag)
  {
    match RangeCheck(tag)
    case Fail(e) => Failure(e)
    case Pass => Success(t[Slot(tag)])
  }

  /** The `case` arms of the static switch in `read`, from tag to class. */
  function BuiltInClass(tag: int8): (r: Option<MessageClass>)
    ensures r.Some? <==> tag in BuiltInTags
  {
    match tag
    case 0 => Some(PingMessage)
    case 1 => Some(BufferMessage)
    case 2 => Some(BooleanMessage)
    case 3 => Some(ByteArrayMessage)
    case 4 => Some(ByteMessage)
    case 5 => Some(CharacterMessage)
    case 6 => Some(DoubleMessage)
    case 7 => Some(FloatMessage)
    case 8 => Some(IntMessage)
    case 9 => Some(LongMessage)
    case 10 => Some(ShortMessage)
    case 11 => Some(StringMessage)
    case 12 => Some(JsonObjectMessage)
    case 80 => Some(BonaPortableMessage)
    case 13 => Some(JsonArrayMessage)
    case 100 => Some(ReplyFailureMessage)
    case _ => None
  }

  /** The tag constant each built-in class is listed under. */
  function TagOf(cls: MessageClass): int8 {
    match cls
    case PingMessage => TypePing
    case BufferMessage => TypeBuffer
    case BooleanMessage => TypeBoolean
    case ByteArrayMessage => TypeByteArray
    case ByteMessage => TypeByte
    case CharacterMessage => TypeCharacter
    case DoubleMessage => TypeDouble
    case FloatMessage => TypeFloat
    case IntMessage => TypeInt
    case LongMessage => TypeLong
    case ShortMessage => TypeShort
    case StringMessage => TypeString
    case JsonObjectMessage => TypeJsonObject
    case BonaPortableMessage => TypeBonaPortableAscii
    case JsonArrayMessage => TypeJsonArray
    case ReplyFailureMessage => TypeReplyFailure
  }

  /**
   * `read`: the first octet, as a Java byte, selects the message type. User tags go
   * to the registered factory; every other tag goes through the static switch.
   */
  function Read<M>(t: Table<M>, buff: seq<uint8>): (r: Result<Inbound<M>, FactoryError>)
    ensures |buff| == 0 ==> r == Failure(EmptyBuffer)
    ensures r.Success? && r.value.Registered? ==>
      && |buff| > 0 && r.value.tag == SignedByte(buff[0]) && InUserRange(r.value.tag)
      && t[Slot(r.value.tag)].Some? && r.value.value == t[Slot(r.value.tag)].value.create(buff)
    ensures r.Success? && r.value.Static? ==>
      |buff| > 0 && r.value.built.buffer == buff && TagOf(r.value.built.cls) == SignedByte(buff[0])
  {
    if |buff| == 0 then
      Failure(EmptyBuffer)
    else
      var tag := SignedByte(buff[0]);
      if InUserRange(tag) then
        match t[Slot(tag)]
        case None => Failure(InvalidType(tag))
        case Some(umt) => Success(Registered(tag, umt.create(buff)))
      else
        match BuiltInClass(tag)
        case None => Failure(InvalidType(tag))
        case Some(cls) => Success(Static(Built(cls, buff)))
  }

  // ---------------------------------------------------------------------------
  // Properties of the table and of dispatch.

  /** `TagOf` and `BuiltInClass` are inverse: the switch maps exactly the listed tags. */
  lemma BuiltInTagsRoundTrip(tag: int8, cls: MessageClass)
    ensures BuiltInClass(TagOf(cls)) == Some(cls)
    ensures BuiltInClass(tag) == Some(cls) ==> TagOf(cls) == tag
  {
  }

  /** No built-in tag lies in the user window, so the two arms of `read` never compete. */
  lemma BuiltInTagsOutsideUserWindow(tag: int8)
    ensures tag in BuiltInTags ==> !InUserRange(tag)
    ensures InUserRange(tag) ==> BuiltInClass(tag).None?
  {
  }

  /** Registering into an empty slot stores the registration, and `getFactory` returns it. */
  lemma RegisterThenGetFactory<M>(t: Table<M>, impl: Registration<M>)
    requires InUserRange(impl.tag) && t[Slot(impl.tag)].None?
    ensures Register(t, impl).Success?
    ensures GetFactory(Register(t, impl).value, impl.tag) == Success(Some(impl))
  {
  }

  /** A successful registration is idempotent: doing it again succeeds and changes nothing. */
  lemma ReRegisterIsNoOp<M>(t: Table<M>, impl: Registration<M>)
    requires Register(t, impl).Success?
    ensures Register(Register(t, impl).value, impl) == Success(Register(t, impl).value)
  {
  }

  /**
   * Once a slot is taken, a second registration for the same tag cannot displace the
   * first: with the same id it is a no-op, with another id it fails; either way
   * `getFactory` still returns the first registration.
   */
  lemma FirstRegistrationStays<M>(t: Table<M>, first: Registration<M>, second: Registration<M>)
    requires Register(t, first).Success? && t[Slot(first.tag)].None?
    requires second.tag == first.tag
    ensures var t1 := Register(t, first).value;
      && (Register(t1, second).Success? <==> second.id == first.id)
      && (Register(t1, second).Failure? ==>
            Register(t1, second).error == DuplicateAssignment(first.tag, first.id, second.id))
      && GetFactory(Register(t1, second).GetOr(t1), first.tag) == Success(Some(first))
  {
  }

  /** Out-of-window tags fail in both registration and lookup and never change the table. */
  lemma OutOfRangeRejected<M>(t: Table<M>, impl: Registration<M>, tag: int8)
    requires !InUserRange(impl.tag) && !InUserRange(tag)
    ensures Register(t, impl) == Failure(OutOfRange(impl.tag))
    ensures GetFactory(t, tag) == Failure(OutOfRange(tag))
  {
  }

  /** Registration keeps every slot's tag consistent with its index. */
  lemma RegisterPreservesWellTagged<M>(t: Table<M>, impl: Registration<M>)
    requires WellTagged(t)
    requires Register(t, impl).Success?
    ensures WellTagged(Register(t, impl).value)
  {
  }

  /** Slots only fill up: no registration empties a slot or changes the id in it. */
  lemma RegisterIsMonotone<M>(t: Table<M>, impl: Registration<M>, i: nat)
    requires Register(t, impl).Success?
    requires i < |t| && t[i].Some?
    ensures Register(t, impl).value[i] == t[i]
  {
  }

  /** Registrations for different tags commute. */
  lemma {:induction false} RegisterCommutes<M>(t: Table<M>, a: Registration<M>, b: Registration<M>)
    requires a.tag != b.tag
    requires Register(t, a).Success? && Register(t, b).Success?
    ensures Register(Register(t, a).value, b).Success?
    ensures Register(Register(t, b).value, a).Success?
    ensures Register(Register(t, a).value, b).value == Register(Register(t, b).value, a).value
  {
  }

  /** `read` on a user tag: fails exactly when the slot is empty, else calls the factory. */
  lemma ReadUserTag<M>(t: Table<M>, buff: seq<uint8>)
    requires |buff| > 0 && InUserRange(SignedByte(buff[0]))
    ensures var tag := SignedByte(buff[0]);
      && (t[Slot(tag)].None? ==> Read(t, buff) == Failure(InvalidType(tag)))
      && (t[Slot(tag)].Some? ==> Read(t, buff) == Success(Registered(tag, t[Slot(tag)].value.create(buff))))
  {
  }

  /** `read` on any other tag: the table plays no part; it succeeds exactly for built-in tags. */
  lemma ReadStaticTag<M>(t: Table<M>, t': Table<M>, buff: seq<uint8>)
    requires |buff| > 0 && !InUserRange(SignedByte(buff[0]))
    ensures Read(t, buff).Success? <==> SignedByte(buff[0]) in BuiltInTags
    ensures Read(t, buff).Failure? ==> Read(t, buff) == Failure(InvalidType(SignedByte(buff[0])))
    ensures Read(t, buff).Success? ==>
      Read(t, buff) == Success(Static(Built(BuiltInClass(SignedByte(buff[0])).value, buff)))
    ensures Read(t, buff) == Read(t', buff)
  {
  }

  /** A registration changes how `read` treats its own tag and no other. */
  lemma RegisterOnlyAffectsOwnTag<M>(t: Table<M>, impl: Registration<M>, buff: seq<uint8>)
    requires Register(t, impl).Success?
    requires |buff| > 0 && SignedByte(buff[0]) != impl.tag
    ensures Read(Register(t, impl).value, buff) == Read(t, buff)
  {
  }

  /**
   * The walk-through of a typical start-up: "demo.Order" takes tag 41, takes it
   * again without complaint, and "demo.Invoice" is then refused for tag 41.
   */
  lemma DuplicateAssignmentScenario<M>(order: seq<uint8> -> M, invoice: seq<uint8> -> M)
    ensures var t0: Table<M> := EmptyTable();
      var r1 := Register(t0, Registration("demo.Order", 41, order));
      && r1.Success?
      && Register(r1.value, Registration("demo.Order", 41, order)) == r1
      && Register(r1.value, Registration("demo.Invoice", 41, invoice))
           == Failure(DuplicateAssignment(41, "demo.Order", "demo.Invoice"))
      && GetFactory(r1.value, 41) == Success(Some(Registration("demo.Order", 41, order)))
  {
  }

  /** A tag that is neither built in nor in the user window is refused whatever the table holds. */
  lemma UnknownTagScenario<M>(t: Table<M>, rest: seq<uint8>)
    ensures Read(t, [99] + rest) == Failure(InvalidType(99))
    ensures Read(t, [200] + rest) == Failure(InvalidType(-56))
  {
  }
}
