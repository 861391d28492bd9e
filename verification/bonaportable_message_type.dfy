/**
 * The `UserMessageType` a Bonaparte user registers: id
 * "de.jpaw.bonaparte.core.BonaPortable", user tag 40, and a factory that builds a
 * `BonaPortableMessage` from the buffer.
 *
 * The message itself announces tag 80 (`type()`), which the static switch of
 * `read` also maps to `BonaPortableMessage`. The two routes coexist; frames a
 * `BonaPortableMessage` sends never reach the tag-40 registration.
 */
module BonaPortableMessageType {
  import opened Wrappers
  import opened Bytes
  import MF = MessageFactory
  import BonaPortableMessage

  /** `getId()`: the class name of `BonaPortable`. */
  const Id: string := "de.jpaw.bonaparte.core.BonaPortable"

  /** The registration; its `createMessage` builds a `BonaPortableMessage` from the buffer. */
  function Registration(): (r: MF.Registration<MF.Built>)
    ensures r.id == Id && r.tag == MF.UserMessageTypeFirst
    ensures MF.InUserRange(r.tag) && MF.Slot(r.tag) == 0
    ensures forall buff :: r.create(buff) == MF.Built(MF.BonaPortableMessage, buff)
  {
    MF.Registration(Id, MF.UserMessageTypeFirst, buff => MF.Built(MF.BonaPortableMessage, buff))
  }

  /**
   * With the registration in place both tag 40 and tag 80 lead to a
   * `BonaPortableMessage` built from the whole buffer; without it tag 40 is unknown
   * and tag 80 still works.
   */
  lemma TwoTagsOneClass(t: MF.Table<MF.Built>, rest: seq<uint8>)
    requires t[0].None?
    ensures MF.Register(t, Registration()).Success?
    ensures var t' := MF.Register(t, Registration()).value;
      && MF.Read(t', [40] + rest) == Success(MF.Registered(40, MF.Built(MF.BonaPortableMessage, [40] + rest)))
      && MF.Read(t', [80] + rest) == Success(MF.Static(MF.Built(MF.BonaPortableMessage, [80] + rest)))
    ensures MF.Read(t, [40] + rest) == Failure(MF.InvalidType(40))
    ensures MF.Read(t, [80] + rest) == MF.Read(MF.Register(t, Registration()).value, [80] + rest)
  {
  }

  /**
   * A frame led by the tag a `BonaPortableMessage` announces is read identically
   * whether or not the message type is registered.
   */
  lemma SentTagBypassesRegistration<M>(t: MF.Table<M>, impl: MF.Registration<M>, rest: seq<uint8>)
    requires MF.Register(t, impl).Success?
    ensures var frame := [BonaPortableMessage.Type() as int as uint8] + rest;
      && MF.Read(t, frame) == Success(MF.Static(MF.Built(MF.BonaPortableMessage, frame)))
      && MF.Read(MF.Register(t, impl).value, frame) == MF.Read(t, frame)
  {
  }
}
