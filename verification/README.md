# Vert.x event-bus user message types and the Bonaparte message codec, in Dafny

This project models two pieces of the jpaw fork of the Vert.x event bus:

- **`MessageFactory`**: the table of twenty user message types, which covers tags 40..59. It also models `rangeCheck`, `registerUserMessageType`, `getFactory`, and `read`. `read` turns an inbound buffer into a message by its first octet. A user tag goes to the registered factory. Any other tag goes to the static switch of built-in message classes.
- **`BonaPortableMessage`**: an event-bus message whose body is one Bonaparte object. The body is encoded once into a cached byte array. It is framed on the wire as `[presence:1][length:4][payload:length]`, and an absent body is the single octet `0`. The model covers `ensureEncodeFormAvailable`, `getBodyLength`, `writeBody`, `readBody`, `copy` and `type`.
- **`BonaPortableMessageType`**: the registration for Bonaparte messages, at user tag 40.

Modules:

| file | module | contents |
|---|---|---|
| wrappers.dfy | `Wrappers` | `Option` (for Java `null`), `Result` (a call that returns or throws), `Outcome` |
| bytes.dfy | `Bytes` | Java `byte` and `int`, `int` wrap-around, and the 4-octet integer codec of the buffer |
| message_factory.dfy | `MessageFactory` | tag constants, the registration table, registration, lookup and `read` dispatch |
| bonaportable_message.dfy | `BonaPortableMessage` | the message record with its `encoded` cache, the body codec, `copy`, `type` |
| bonaportable_message_type.dfy | `BonaPortableMessageType` | the tag-40 registration, and how it coexists with tag 80 |

Modelling choices:

- State is immutable. The static array `userMessageTypes` is a value of type `Table<M>`, a sequence of exactly twenty `Option<Registration<M>>`. Registration returns the new table.
- The message's lazily filled `encoded` field is `Option<JavaBytes>`. Length queries and writes return the message together with its, possibly newly filled, cache.
- Exceptions become `Failure` values. `rangeCheck` and `registerUserMessageType` throw `Exception`, and `read` throws `IllegalStateException`. Reads past the end of a `Buffer` and negative array sizes are also failures.
- A buffer is a `seq<uint8>` of octets. A tag is read as a signed Java `byte`, so octets 128..255 are negative tags. `read` refuses them as invalid types.
- The Bonaparte object type is a type parameter `B`. The composer, the parser, `was$Frozen` and `ret$MutableClone` are the four function fields of `Capabilities<B>`. Their properties are explicit predicates that lemmas require where needed:
  - `ParsesComposed`: the parser reads back what the composer writes.
  - `ClonesEncodeAlike`: a clone composes to the same bytes as its original.
- A user factory (`UserMessageType.createMessage`) is a function from the buffer to a message of type `M`. The interface's `getId` and `getDefaultNumericUserMessageType` are the `id` and `tag` fields of `Registration<M>`.
- The buffer's `getInt` and `appendInt` are taken to be big-endian and two's complement (`Bytes.IntBytes`, `Bytes.GetInt`). That is the default byte order of the Netty buffer under Vert.x's `Buffer`. The `Buffer` class is not part of this model, so this is an assumption.
- The presence octet follows the code, not a "0 or 1" reading of the format: any octet other than `0` means a body follows.

## Model

| member | source | states |
|---|---|---|
| MessageFactory.EmptyTable | vertx-core/src/main/java/org/vertx/java/core/eventbus/impl/MessageFactory.java:53 | the table starts with twenty slots, all empty |
| MessageFactory.RangeCheck | vertx-core/src/main/java/org/vertx/java/core/eventbus/impl/MessageFactory.java:55-60 | passes exactly for tags t with 40 <= t < 60; otherwise fails with an out-of-range error for that tag |
| MessageFactory.Register | vertx-core/src/main/java/org/vertx/java/core/eventbus/impl/MessageFactory.java:62-79 | succeeds exactly when the tag is in the window and its slot is empty or holds the same id. An empty in-window slot ends up holding exactly the new registration, factory included; an occupied slot is not rewritten; every other slot is unchanged. Otherwise the error is out-of-range, or a duplicate assignment naming the tag, the first id and the new id |
| MessageFactory.GetFactory | vertx-core/src/main/java/org/vertx/java/core/eventbus/impl/MessageFactory.java:81-84 | succeeds exactly for tags in the window, returning the contents of that tag's slot, which may be empty; out-of-window tags fail with an out-of-range error |
| MessageFactory.BuiltInClass | vertx-core/src/main/java/org/vertx/java/core/eventbus/impl/MessageFactory.java:94-129 | the static switch maps exactly the sixteen built-in tags 0..13, 80 and 100 to a class |
| MessageFactory.Read | vertx-core/src/main/java/org/vertx/java/core/eventbus/impl/MessageFactory.java:86-130 | an empty buffer fails. A factory result carries the signed first octet as its tag, that tag is in the user window, and the value is what the factory in that tag's slot made from the whole buffer. A built-in result was built from the whole buffer by the class whose tag is the first octet |
| MessageFactory.BuiltInTagsRoundTrip | vertx-core/src/main/java/org/vertx/java/core/eventbus/impl/MessageFactory.java:27-43 | the tag constants and the switch are inverse: each class's constant selects that class, and a tag selects only the class listed under it |
| MessageFactory.BuiltInTagsOutsideUserWindow | vertx-core/src/main/java/org/vertx/java/core/eventbus/impl/MessageFactory.java:27-46 | no built-in tag lies in 40..59, and the switch knows no user tag, so dispatch is unambiguous |
| MessageFactory.RegisterThenGetFactory | vertx-core/src/main/java/org/vertx/java/core/eventbus/impl/MessageFactory.java:62-84 | registering into an empty in-window slot succeeds, and a later getFactory returns exactly that registration |
| MessageFactory.ReRegisterIsNoOp | vertx-core/src/main/java/org/vertx/java/core/eventbus/impl/MessageFactory.java:73-75 | registering again what was just registered succeeds and returns the same table |
| MessageFactory.FirstRegistrationStays | vertx-core/src/main/java/org/vertx/java/core/eventbus/impl/MessageFactory.java:67-78 | after a first registration, a second one for the same tag succeeds exactly when the ids are equal, and otherwise fails naming both ids. Either way getFactory still returns the first registration |
| MessageFactory.OutOfRangeRejected | vertx-core/src/main/java/org/vertx/java/core/eventbus/impl/MessageFactory.java:55-84 | an out-of-window tag makes both registration and lookup fail with an out-of-range error, before the table is consulted |
| MessageFactory.RegisterPreservesWellTagged | vertx-core/src/main/java/org/vertx/java/core/eventbus/impl/MessageFactory.java:62-69 | registration keeps the invariant that slot i only holds a registration for tag 40 + i |
| MessageFactory.RegisterIsMonotone | vertx-core/src/main/java/org/vertx/java/core/eventbus/impl/MessageFactory.java:66-78 | a successful registration never empties or changes an occupied slot |
| MessageFactory.RegisterCommutes | vertx-core/src/main/java/org/vertx/java/core/eventbus/impl/MessageFactory.java:62-79 | two registrations for different tags give the same table in either order |
| MessageFactory.ReadUserTag | vertx-core/src/main/java/org/vertx/java/core/eventbus/impl/MessageFactory.java:87-93 | for a user-window tag, read fails with an invalid-type error exactly when the slot is empty, and otherwise returns the registered factory's message for the whole buffer |
| MessageFactory.ReadStaticTag | vertx-core/src/main/java/org/vertx/java/core/eventbus/impl/MessageFactory.java:94-129 | for any other tag the table plays no part: read succeeds exactly for built-in tags, with that tag's class, and fails with an invalid-type error otherwise |
| MessageFactory.RegisterOnlyAffectsOwnTag | vertx-core/src/main/java/org/vertx/java/core/eventbus/impl/MessageFactory.java:86-93 | a registration changes the outcome of read for no tag but its own |
| MessageFactory.DuplicateAssignmentScenario | vertx-core/src/main/java/org/vertx/java/core/eventbus/impl/MessageFactory.java:73-78 | "demo.Order" takes tag 41, takes it again without error, and then "demo.Invoice" is refused for tag 41 with both ids named |
| MessageFactory.UnknownTagScenario | vertx-core/src/main/java/org/vertx/java/core/eventbus/impl/MessageFactory.java:127-128 | tag 99, and octet 200 (byte -56), are refused as invalid types whatever the table holds |
| Bytes.SignedByte | vertx-core/src/main/java/org/vertx/java/core/eventbus/impl/MessageFactory.java:87 | an octet reads as the Java byte congruent to it modulo 256: unchanged below 128, negative from 128 on |
| Bytes.Wrap32 | vertx-core/src/main/java/de/jpaw/bonaparte/vertx/BonaPortableMessage.java:105 | Java int addition: the result is an int congruent to the exact sum modulo 2^32, and equal to it when it fits |
| Bytes.IntBytes | vertx-core/src/main/java/de/jpaw/bonaparte/vertx/BonaPortableMessage.java:94 | appendInt of a length writes exactly four octets; big-endian two's complement is assumed for the buffer |
| Bytes.GetInt | vertx-core/src/main/java/de/jpaw/bonaparte/vertx/BonaPortableMessage.java:72 | getInt of four octets yields a Java int; big-endian two's complement is assumed for the buffer |
| Bytes.GetIntOfIntBytes | vertx-core/src/main/java/de/jpaw/bonaparte/vertx/BonaPortableMessage.java:72-94 | getInt reads back the int that appendInt wrote |
| Bytes.IntBytesOfGetInt | vertx-core/src/main/java/de/jpaw/bonaparte/vertx/BonaPortableMessage.java:72-94 | any four octets are what appendInt writes for the int getInt reads from them, so a length field has one encoding |
| BonaPortableMessage.EnsureEncodeFormAvailable | vertx-core/src/main/java/de/jpaw/bonaparte/vertx/BonaPortableMessage.java:57-65 | afterwards a cache is present. An existing cache is kept and the message is untouched. A valid message (cache equal to its body's encoding) stays valid |
| BonaPortableMessage.GetBodyLength | vertx-core/src/main/java/de/jpaw/bonaparte/vertx/BonaPortableMessage.java:99-107 | an absent body measures 1 and leaves the message alone. A present body fills the cache as ensureEncodeFormAvailable does and measures 5 plus the cache length, as a Java int |
| BonaPortableMessage.WriteBody | vertx-core/src/main/java/de/jpaw/bonaparte/vertx/BonaPortableMessage.java:87-97 | only appends. An absent body appends the single octet 0. A present body appends 1, the 4-octet cache length, then the cache verbatim. For a valid message the appended octets are the body's reference frame |
| BonaPortableMessage.ReadFramedPayload | vertx-core/src/main/java/de/jpaw/bonaparte/vertx/BonaPortableMessage.java:68-75 | a presence octet of 0 yields no payload and reads nothing further. A payload it returns is exactly the octets after a non-zero presence octet and a length field encoding its length |
| BonaPortableMessage.ReadBody | vertx-core/src/main/java/de/jpaw/bonaparte/vertx/BonaPortableMessage.java:68-85 | an absent body exactly for a 0 presence octet. A decode error exactly when the framing yields a payload the parser rejects, naming the payload's offset and length. A present body is the parser's result on the framed payload |
| BonaPortableMessage.ReadBodyAsWritten | vertx-core/src/main/java/de/jpaw/bonaparte/vertx/BonaPortableMessage.java:76-83 | the source's readBody never reports a decode error |
| BonaPortableMessage.Copy | vertx-core/src/main/java/de/jpaw/bonaparte/vertx/BonaPortableMessage.java:109-121 | a frozen body, or an absent one, gives back the message itself. A mutable body gives exactly a new message with the same send flag and address, the clone as body and an empty cache; when the clone fails, a clone error |
| BonaPortableMessage.CopyAsWritten | vertx-core/src/main/java/de/jpaw/bonaparte/vertx/BonaPortableMessage.java:110-112 | the source's copy fails on every message without a body. A failing clone is a clone error here, where the source returns null |
| BonaPortableMessage.Type | vertx-core/src/main/java/de/jpaw/bonaparte/vertx/BonaPortableMessage.java:123-126 | the message's tag lies outside the user window, and the static switch maps it to BonaPortableMessage |
| BonaPortableMessage.Run | vertx-core/src/main/java/de/jpaw/bonaparte/vertx/BonaPortableMessage.java:57-107 | over any sequence of length queries and writes, the body is encoded at most once, and never when a cache exists or the body is absent. The send flag, address and body never change, and the final cache is what the first call produced |
| BonaPortableMessage.AbsentBodyFrame | vertx-core/src/main/java/de/jpaw/bonaparte/vertx/BonaPortableMessage.java:89-102 | with an absent body the length is 1 and the write appends exactly [0] |
| BonaPortableMessage.CacheIsFixed | vertx-core/src/main/java/de/jpaw/bonaparte/vertx/BonaPortableMessage.java:57-65 | once the cache is filled, further ensureEncodeFormAvailable, length and write calls leave it as it is |
| BonaPortableMessage.LengthMatchesWrite | vertx-core/src/main/java/de/jpaw/bonaparte/vertx/BonaPortableMessage.java:88-107 | measure-then-write and write-then-measure leave the same cache. The length equals the number of octets written, reduced to a Java int, so equal whenever it fits |
| BonaPortableMessage.RunIsConsistent | vertx-core/src/main/java/de/jpaw/bonaparte/vertx/BonaPortableMessage.java:57-107 | for a valid message, in any order and number of calls, every write appends the body's reference frame and every length is that frame's length |
| BonaPortableMessage.ReadFramedPayloadOfWrite | vertx-core/src/main/java/de/jpaw/bonaparte/vertx/BonaPortableMessage.java:69-95 | reading at the position where writeBody started, with anything after it, finds no payload for an absent body. For a present body it finds exactly the cached bytes |
| BonaPortableMessage.ReadBodyOfWrite | vertx-core/src/main/java/de/jpaw/bonaparte/vertx/BonaPortableMessage.java:68-96 | round trip: with a parser that reads back what the composer writes, reading what writeBody appended restores the message's body |
| BonaPortableMessage.ReadBodyAgreesUnlessDecodeFails | vertx-core/src/main/java/de/jpaw/bonaparte/vertx/BonaPortableMessage.java:76-83 | ReadBody differs from the source's readBody exactly when it reports a decode error |
| BonaPortableMessage.SwallowedDecodeLooksAbsent | vertx-core/src/main/java/de/jpaw/bonaparte/vertx/BonaPortableMessage.java:76-83 | the source's readBody reads a frame whose payload the parser rejects as an absent body, just like the frame [0]; ReadBody reports the decode error |
| BonaPortableMessage.ReadFramedPayloadOfWriteRaw | vertx-core/src/main/java/de/jpaw/bonaparte/vertx/BonaPortableMessage.java:71-74 | a hand-built frame of any non-zero presence octet, then the length, then the payload, yields that payload when read at offset 0 |
| BonaPortableMessage.CopyAsWrittenFailsOnAbsentBody | vertx-core/src/main/java/de/jpaw/bonaparte/vertx/BonaPortableMessage.java:110-112 | without a body the source's copy fails, while Copy returns the message unchanged |
| BonaPortableMessage.CopyAgreesWithSourceOnPresentBody | vertx-core/src/main/java/de/jpaw/bonaparte/vertx/BonaPortableMessage.java:110-120 | with a body, Copy agrees with the source's copy, which here also reports a failing clone as a clone error instead of returning null |
| BonaPortableMessage.CopyWritesSameFrame | vertx-core/src/main/java/de/jpaw/bonaparte/vertx/BonaPortableMessage.java:109-121 | when clones compose like their originals, a copy of a valid message is valid and writes the same octets as the original |
| BonaPortableMessage.FivePayloadOctetsScenario | vertx-core/src/main/java/de/jpaw/bonaparte/vertx/BonaPortableMessage.java:69-74 | the frame [41, 1, 0,0,0,5, 1,2,3,4,5] read at offset 1 hands exactly [1,2,3,4,5] to the parser |
| BonaPortableMessageType.Registration | vertx-core/src/main/java/de/jpaw/bonaparte/vertx/BonaPortableMessageType.java:12-25 | the Bonaparte registration has id "de.jpaw.bonaparte.core.BonaPortable", tag 40 (slot 0), and a factory that builds a BonaPortableMessage from the whole buffer |
| BonaPortableMessageType.TwoTagsOneClass | vertx-core/src/main/java/org/vertx/java/core/eventbus/impl/MessageFactory.java:86-122 | with the registration in place, tags 40 and 80 both lead to a BonaPortableMessage. Without it tag 40 is an invalid type, and tag 80 reads the same either way |
| BonaPortableMessageType.SentTagBypassesRegistration | vertx-core/src/main/java/de/jpaw/bonaparte/vertx/BonaPortableMessage.java:123-126 | a frame led by the tag a BonaPortableMessage announces is read by the static switch, and no registration changes that |

## Left out

- The `synchronized` block in `registerUserMessageType` is not modelled. Registration is one sequential step from table to table, so the check-then-claim is atomic by construction and concurrent interleavings are out of scope.
- The usage statistics (`doUsageStatistics`, `cntSerializations`, `cntDeserializations`) are not modelled as globals. `BonaPortableMessage.Run` counts encodes per message instead.
- The built-in message classes (`PingMessage`, `StringMessage`, `DoubleMessage`, the JSON messages and the rest) are not modelled. They are named by `MessageClass` and kept opaque as "class X built from this buffer".
- The Bonaparte composer and parser, `was$Frozen` and `ret$MutableClone` are foreign code. They are the fields of `Capabilities<B>`, and their properties are assumed only through the predicates `ParsesComposed` and `ClonesEncodeAlike`.
- The header written and read by `BaseMessage` (send flag, address, reply address) is not modelled. `readBody` takes the position of the body as given, and `writeBody` appends to whatever buffer it is handed.
- The sending message's tag octet is written by `BaseMessage`, which is not part of this model. The frames in the tag lemmas are built by hand.
- The `Buffer` class is not part of this model. Its byte order is assumed (see above), and its capacity limit of `Integer.MAX_VALUE` is not modelled. As a result, the Java `int` overflow of `pos + strLength` is not modelled either. For a buffer that fits in a Java array, that overflow ends in the same exception as an out-of-range read.
- The `printStackTrace` calls and the `null` fallbacks are not reproduced. A failing parse is reported as `DecodeError` (the as-written variant is kept as `ReadBodyAsWritten`). A failing clone is reported as `CloneError` instead of returning `null`.
- `readBody` mutates the message's `body` field. `ReadBody` returns the body instead. A message built from a buffer starts with a `null` body and an empty cache.
- Object identity and aliasing are not modelled. Bodies are values, so "copy returns the same instance" is equality with the original message. "Mutating the clone does not affect the original" has no counterpart, and neither does the mutation of a body after it was cached.
- `UserMessageType` is an interface without behaviour; it is folded into `Registration<M>`.

## Findings

| source | as written | input that shows it | evidently intended | confidence | as-written member | corrected member |
|---|---|---|---|---|---|---|
| vertx-core/src/main/java/de/jpaw/bonaparte/vertx/BonaPortableMessage.java:111 | `copy()` calls `body.was$Frozen()` with no null check, so a message whose body is `null` throws a `NullPointerException` | any BonaPortableMessage with a `null` body, e.g. one read from the frame [0] | an absent body has nothing to clone: return the message itself, as for a frozen body | medium, not executed | BonaPortableMessage.CopyAsWritten (shown by BonaPortableMessage.CopyAsWrittenFailsOnAbsentBody) | BonaPortableMessage.Copy (BonaPortableMessage.CopyWritesSameFrame) |
| vertx-core/src/main/java/de/jpaw/bonaparte/vertx/BonaPortableMessage.java:80-83 | a `MessageParserException` is printed and swallowed, leaving the body `null` | a frame [1, 0,0,0,1, 0xFF] whose one-octet payload the parser rejects reads back like the frame [0] | report the decode failure to the caller (the catch block is marked as an auto-generated TODO) | high, not executed | BonaPortableMessage.ReadBodyAsWritten (shown by BonaPortableMessage.SwallowedDecodeLooksAbsent) | BonaPortableMessage.ReadBody (BonaPortableMessage.ReadBodyOfWrite) |
