# oscit: a verified model

oscit is a C++ library for Open Sound Control (OSC) with a self-describing tree of objects. This project
models its hard core in Dafny and proves what that core is for.

* **The packet writer and reader** (`Bytes`, `Packet`, `Draft`, `OutboundPacketStreams`, `StreamRuns`,
  `StreamCalls`, `ReceivedElements`, `Acceptance`, `PacketListener`, `PacketRoundTrip`, `WireFormat`). The writer is a class over one byte array:
  arguments grow upwards, type tags grow downwards from the end in reverse order, open elements are linked
  through their own size slots. A ghost `Draft` says which packet is under construction, and every operation
  is proved to take the buffer from one draft to the next. The reader validates once and walks unchecked
  afterwards. The format is that of the Open Sound Control 1.0 Specification (sections "OSC Messages",
  "OSC Type Tag String", "OSC Bundles").
* **The value codec** (`Numbers`, `OrderedMap`, `Values`, `ValueCodec`, `TagBalance`, `OscSender`,
  `OscReceiver`, `OscCommand`, `ReceivedValues`): nested values become arguments, and three mutually recursive parsers take
  them back; one scan with a stack of brackets tells how they end on whatever is received.
* **The dictionary and the deep merge** (`THashes`, `DeepMerge`, `HashMerge`): the chained hash table with
  in-table heads is a dictionary that remembers insertion order; merging works in place on shared hashes.
* **The object tree** (`Names`, `ObjectTree`, `ProxyTree`, `ProxyPaths`, `Mirror`): real heap objects with parents,
  children, cached urls and roots, and the index of urls that each root keeps; finding or building a path;
  mirroring a remote tree.
* **Two timing machines** (`Timers`, `ProxyFlow`): the timer loop and the proxy's flow control.

Where a promised property is false of the code, the model keeps the code, and the exact condition is proved:

* A blob whose size word lies is accepted, because two tests build an exception and do not throw it; the
  walk stays inside the message if and only if every blob fits (`AcceptedMessagesWalk`,
  `OverrunBlobIsAccepted`). Init itself reads outside of the message if and only if its check comes to a blob
  with fewer than four bytes left (`InitReadsOutside`).
* Reading a bundle never ends if and only if proper elements lead to a size word 0xFFFFFFFC, for which the
  32-bit sum of the size and its own four bytes is zero (`ScanEnds`); delivering a packet never ends if and
  only if it comes to such a bundle, everything in front of it being whole (`DeliveryEnds`,
  `HangingPacket`).
* Parsing a message's arguments leaves the type tags, or never returns, exactly when the scan of the brackets
  says so: a closing brace in a list is parsed for ever (`ParsesExactly`, `UnbalancedMessages`).
* A value survives the round trip if and only if no hash in it has a key of two or more characters that
  starts with `=` (`ValueRoundTrip`).
* Merging the same argument twice is merging it once if and only if the argument holds no nil at any depth
  (`MergeTwice`): a nil under a new key is stored, under a known key it removes.
* The documented names "name-1", "name-2" come out as "name-1", "nam2" (`AfterOne`). The loop that looks for
  a free name ends if and only if one of the finitely many names it can come to is free, or the names grow
  for ever because a hyphen has come to the front (`LoopEnds`).
* An object proxy adopts what its factory returns without a look at it. Looking up a path calls a null
  pointer if and only if the way to some prefix of it is there or is built, and the factory refuses that
  prefix to an object proxy (`FindOrBuildObjectAt`, `MetaMethodMeetsNull`); mirroring does if and only if the
  factory refuses, below an object proxy, a child that is not there yet (`BuildChildrenFromAttributes`,
  `RefusedRemote`). Root proxies and plain objects pass over what is refused.
* A remote child whose attributes are not a hash is not mirrored (`MirrorsRemote`).
* An early wake keeps the timer on its grid if and only if the step back is the interval, or a multiple of
  it that leads behind the clock; a timer started with a first interval steps back by zero
  (`EarlyWake`, `FreshTimerJumps`).
* The last value a proxy sends is the last one it accepted if and only if that one went out at once and
  nothing that waited was released behind it, or had to wait and was released (`NewestIsOut`); when nothing
  waits any more, the proxy has fallen back to an older value exactly when the newest one went out while
  another was waiting (`LeftOver`, `OlderValueGoesLast`).

Names that appear throughout: in the tree, `S` is the set of objects in play and `plan` gives each its
place (the line of objects above it, its name, url and root); `Consistent(S, plan)` is the invariant that
every operation keeps, and `IndexEqualsTree` says what it means without the plan. `tries` is a number of
renamings after which a name is free. A run starts with a root (`Begins`), new objects join (`Joins`), and
every operation keeps the world consistent.

## Model

| member | source | states |
|---|---|---|
| Bytes.Word32RoundTrip | oscpack/osc/OscReceivedElements.cpp:92-129 | reading the four big-endian bytes of a 32-bit word gives the word back |
| Bytes.Word64RoundTrip | oscpack/osc/OscReceivedElements.cpp:132-178 | the same for 64-bit words |
| Bytes.HostWordRoundTrip | oscpack/osc/OscOutboundPacketStream.cpp:158-203 | a link stored in a size slot in host byte order is read back unchanged, on hosts of either order; its low byte stands first or last |
| Bytes.RoundUp4Forms | oscpack/osc/OscReceivedElements.cpp:82-89 | the writer's mask form and the reader's remainder form are the same rounding up to a multiple of four |
| WireFormat.Word64OnTheWire | oscpack/osc/OscOutboundPacketStream.cpp:109-129 | eight bytes read most significant first are the 64-bit number |
| WireFormat.BeginBundleImmediate | oscpack/osc/OscOutboundPacketStream.cpp:296-312 | on an empty stream it writes these sixteen bytes, "#bundle", NUL and the time tag 1, exactly when they fit |
| WireFormat.FlagsOnTheWire | oscpack/osc/OscOutboundPacketStream.cpp:412-494 | the bytes of a message with all nine tags that carry nothing |
| WireFormat.WordsOnTheWire | oscpack/osc/OscOutboundPacketStream.cpp:496-570 | the bytes of a message with i, f, c, r and m |
| WireFormat.LongsOnTheWire | oscpack/osc/OscOutboundPacketStream.cpp:572-626 | the bytes of a message with h, t and d |
| WireFormat.TextsOnTheWire | oscpack/osc/OscOutboundPacketStream.cpp:628-687 | the bytes of a message with a string, a symbol and a blob |
| WireFormat.ProperOne | oscpack/osc/OscTypes.h:66-87 | the letters of all tags, by what their arguments carry |
| WireFormat.ValuesOnTheWire | src/osc_command.cpp:51-118 | what to_stream writes for every kind of value, by the letters of the tags |
| WireFormat.MidiOnTheWire | src/osc_command.cpp:98-112 | a midi message is "=m" and four floats in brackets and braces |
| Draft.WrittenJoin | oscpack/osc/OscOutboundPacketStream.cpp:179-203 | closing an element appends exactly its encoding, behind its size word when it stands in a bundle |
| Draft.SizeAfterBegin | oscpack/osc/OscOutboundPacketStream.cpp:206-230 | what the two begin checks add up is the size of the packet that the operation leads to |
| Draft.SizeAfterPut | oscpack/osc/OscOutboundPacketStream.cpp:232-240 | the argument check requires exactly the size the packet would have with the argument in it |
| OutboundPacketStreams.OutboundPacketStream.constructor | oscpack/osc/OscOutboundPacketStream.cpp:139-150 | a new stream is the empty draft |
| OutboundPacketStreams.OutboundPacketStream.Clear | oscpack/osc/OscOutboundPacketStream.cpp:243-250 | clearing gives the empty draft again |
| OutboundPacketStreams.OutboundPacketStream.SizeIsDraftSize | oscpack/osc/OscOutboundPacketStream.cpp:259-269 | at every moment Size() is the size of the packet if it were closed now, and at most the capacity |
| OutboundPacketStreams.OutboundPacketStream.ZeroPad | oscpack/osc/OscOutboundPacketStream.cpp:628-645 | the padding loop ends on the next 4-byte boundary, writes zeros up to it and nothing behind it |
| OutboundPacketStreams.OutboundPacketStream.StoreString | oscpack/osc/OscOutboundPacketStream.cpp:628-645 | strcpy and padding store the OSC-string of the characters and nothing behind it |
| OutboundPacketStreams.OutboundPacketStream.BeginElement | oscpack/osc/OscOutboundPacketStream.cpp:158-176 | opening an element stores the enclosing slot's offset in the new slot, and only inside the buffer |
| OutboundPacketStreams.OutboundPacketStream.StoreElementSize | oscpack/osc/OscOutboundPacketStream.cpp:179-203 | the link in the slot is handed back and replaced by the big-endian length of what follows it |
| OutboundPacketStreams.OutboundPacketStream.EndElement | oscpack/osc/OscOutboundPacketStream.cpp:179-203 | closing leaves the bytes of the joined draft, and the innermost slot is the enclosing element's again |
| OutboundPacketStreams.OutboundPacketStream.BeginBundle | oscpack/osc/OscOutboundPacketStream.cpp:296-312 | opens a bundle in the draft, or throws in exactly the two cases and changes nothing |
| OutboundPacketStreams.OutboundPacketStream.EndBundle | oscpack/osc/OscOutboundPacketStream.cpp:315-327 | closes the innermost bundle, or throws in exactly the two cases and changes nothing |
| OutboundPacketStreams.OutboundPacketStream.BeginMessage | oscpack/osc/OscOutboundPacketStream.cpp:330-356 | opens a message in the draft, or throws in exactly the two cases and changes nothing |
| OutboundPacketStreams.OutboundPacketStream.SlideArguments | oscpack/osc/OscOutboundPacketStream.cpp:359-409 | the memmove takes the arguments up unchanged and touches nothing below them |
| OutboundPacketStreams.OutboundPacketStream.CopyTypeTags | oscpack/osc/OscOutboundPacketStream.cpp:359-409 | the loop writes the tags in forward order behind a comma |
| OutboundPacketStreams.OutboundPacketStream.ZeroFill | oscpack/osc/OscOutboundPacketStream.cpp:359-409 | the loop that ends the tag string writes zeros and nothing else |
| OutboundPacketStreams.OutboundPacketStream.StoreTypeTags | oscpack/osc/OscOutboundPacketStream.cpp:359-409 | the reversed tags at the end of the buffer become the padded tag string in front of the arguments |
| OutboundPacketStreams.OutboundPacketStream.EndMessage | oscpack/osc/OscOutboundPacketStream.cpp:359-409 | the buffer holds the message's encoding, Size() does not change, and without an open message it throws and changes nothing |
| OutboundPacketStreams.OutboundPacketStream.ArgumentLength | oscpack/osc/OscOutboundPacketStream.cpp:412-687 | each argument's length is the number of bytes it will take |
| OutboundPacketStreams.OutboundPacketStream.CheckForAvailableArgumentSpace | oscpack/osc/OscOutboundPacketStream.cpp:232-240 | the check holds exactly when the packet with the argument in it, closed, still fits the buffer |
| OutboundPacketStreams.OutboundPacketStream.PutPayload | oscpack/osc/OscOutboundPacketStream.cpp:412-687 | an argument's bytes go behind the arguments and touch nothing else |
| OutboundPacketStreams.OutboundPacketStream.PutBlob | oscpack/osc/OscOutboundPacketStream.cpp:668-687 | a blob is its size word, its bytes and zeros to the boundary |
| OutboundPacketStreams.OutboundPacketStream.Append | oscpack/osc/OscOutboundPacketStream.cpp:412-687 | one more tag in front of the tags, its bytes behind the arguments, everything below unchanged |
| OutboundPacketStreams.OutboundPacketStream.Put | oscpack/osc/OscOutboundPacketStream.cpp:412-687 | every argument writer adds its tag and bytes, or throws exactly when the packet would no longer fit and changes nothing |
| StreamRuns.SizeAligned | oscpack/osc/OscOutboundPacketStream.cpp:259-269 | in every state the predicted size is a multiple of four |
| StreamRuns.SizeIsClosedSize | oscpack/osc/OscOutboundPacketStream.cpp:259-269 | the size counts the innermost open element as if it were already closed |
| StreamRuns.CloseKeepsSize | oscpack/osc/OscOutboundPacketStream.cpp:359-409 | closing turns the prediction into the number of bytes written, without changing it |
| StreamRuns.SizeGrows | oscpack/osc/OscOutboundPacketStream.cpp:212-240 | no operation makes the packet smaller |
| StreamRuns.RunsFit | oscpack/osc/OscOutboundPacketStream.cpp:212-269 | over every run, exceptions caught, the size stays within the capacity and aligned: arguments and tags never meet |
| StreamRuns.LinkedSlots | oscpack/osc/OscOutboundPacketStream.cpp:158-203 | in every state the offsets read from unfinished size slots form a strictly decreasing chain that lists exactly the open elements |
| StreamRuns.CloseWritesLength | oscpack/osc/OscOutboundPacketStream.cpp:179-203 | each close puts that element's exact byte length, a multiple of four, into its slot |
| StreamRuns.CallsReach | oscpack/osc/OscOutboundPacketStream.cpp:296-409 | the matched calls of any element, in any draft, join it to the draft exactly when the result fits |
| StreamRuns.WriteElement | oscpack/osc/OscOutboundPacketStream.cpp:296-409 | from an empty draft the matched calls succeed exactly when the encoding fits, and leave just that encoding with no element open |
| StreamCalls.Perform | oscpack/osc/OscOutboundPacketStream.cpp:296-409 | every call on the real buffer does what it does to the draft, and one that throws changes nothing |
| StreamCalls.StatusOfFields | oscpack/osc/OscOutboundPacketStream.cpp:212-372 | which call throws what, by the stream's own fields, the order of its tests and the room it needs |
| StreamCalls.WriteCalls | oscpack/osc/OscOutboundPacketStream.cpp:296-409 | on an empty stream the matched calls of any element succeed exactly when its encoding fits; the buffer then holds it and the stream is ready |
| StreamCalls.CallsLegal | oscpack/osc/OscOutboundPacketStream.cpp:412-687 | the matched calls never stream an argument outside of a message |
| ReceivedElements.FindStr4EndChecked | oscpack/osc/OscReceivedElements.cpp:61-79 | the checked search reads only inside the message and finds the first boundary behind a string, or nothing |
| ReceivedElements.FindStr4End | oscpack/osc/OscReceivedElements.cpp:45-58 | on a string that the checked search accepted, the unchecked one stops inside the message at the same place |
| ReceivedElements.CheckArgument | oscpack/osc/OscReceivedElements.cpp:585-660 | the validating switch on one tag: where the next argument starts, or rejection, or the read outside |
| ReceivedElements.CheckArguments | oscpack/osc/OscReceivedElements.cpp:585-665 | the validating loop checks each tag up to the first NUL, and stops where the specification of the switch stops |
| ReceivedElements.ReceivedMessage.Init | oscpack/osc/OscReceivedElements.cpp:546-665 | Init accepts, rejects or reads outside exactly as the specification of a message says, and keeps the offsets found |
| ReceivedElements.InitReadsOutside | oscpack/osc/OscReceivedElements.cpp:642-648 | Init reads outside of the message exactly when its check comes to a blob tag with fewer than four bytes left |
| Acceptance.AcceptedExactly | oscpack/osc/OscReceivedElements.cpp:546-665 | a message is accepted exactly when it is an address alone, or an address and tags whose arguments lie end to end inside it |
| Acceptance.StringIs | oscpack/osc/OscReceivedElements.cpp:61-79 | a string ends behind the first of its words that ends with NUL |
| Acceptance.AddressAlone | oscpack/osc/OscReceivedElements.cpp:562-566 | an address alone is accepted |
| Acceptance.KeptExactly | oscpack/osc/OscReceivedElements.cpp:546-665 | of an accepted message it keeps where the tags begin and end, and where the arguments begin |
| ReceivedElements.ReceivedMessageArgumentIterator.Advance | oscpack/osc/OscReceivedElements.cpp:448-516 | one unchecked step of tag and argument; none at the end or on an unknown tag |
| ReceivedElements.ValidatedWalk | oscpack/osc/OscReceivedElements.cpp:448-516 | on accepted tags the unchecked walk takes the validating loop's offsets, and stays inside if and only if every blob fits |
| ReceivedElements.AcceptedMessagesWalk | oscpack/osc/OscReceivedElements.cpp:546-665 | for any accepted byte string, iterating is inside the message if and only if every blob fits; always without blobs |
| ReceivedElements.OverrunBlobIsAccepted | oscpack/osc/OscReceivedElements.cpp:642-648 | a twelve-byte message with a lying blob size is accepted, and its walk leaves it |
| ReceivedElements.VisitArguments | oscpack/osc/OscPrintReceivedElements.cpp:192-193 | the loop from begin to end ends, visits each tag once, at the offset the walk gives it, inside the message |
| PacketListener.InitBundle | oscpack/osc/OscReceivedElements.cpp:683-724 | the bundle loop with its 32-bit sums finds the elements, rejects, or never ends, as specified |
| PacketListener.ScanTiles | oscpack/osc/OscReceivedElements.cpp:683-724 | accepted bundles are exactly those tiled by disjoint aligned elements from the header to the end |
| PacketListener.ScanEnds | oscpack/osc/OscReceivedElements.cpp:683-724 | the loop runs for ever if and only if a tiling leads to a size word 0xFFFFFFFC |
| PacketListener.OscPacketListener.Process | oscpack/osc/OscPacketListener.h:59-67 | a packet, or an element, is delivered as specified; nested elements are strictly smaller, so the recursion ends |
| PacketListener.OscPacketListener.ProcessBundle | oscpack/osc/OscPacketListener.h:41-53 | a bundle delivers its elements' messages in order, up to the first that throws |
| PacketListener.OscPacketListener.ProcessElements | oscpack/osc/OscPacketListener.h:46-52 | the loop visits exactly the elements of the tiling |
| PacketListener.OscPacketListener.ProcessElement | oscpack/osc/OscPacketListener.h:46-52 | one turn delivers the element's messages behind the earlier ones and steps to the next tile, or stops at an exception |
| PacketListener.DeliveryEnds | oscpack/osc/OscPacketListener.h:41-67 | delivery throws, reads outside or never ends if and only if it comes, past elements that are all whole, to a message or bundle that does; it never ends at a bundle in which proper elements lead to a size word 0xFFFFFFFC |
| PacketListener.DeliveryDone | oscpack/osc/OscPacketListener.h:41-67 | a packet is delivered to its end if and only if everything in it validates |
| PacketListener.DeliveredExactly | oscpack/osc/OscPacketListener.h:41-67 | a message is delivered exactly when delivery comes to it and it is accepted |
| PacketListener.HangingPacket | oscpack/osc/OscReceivedElements.cpp:706-719 | twenty bytes that are never delivered to the end |
| PacketRoundTrip.OscStringReads | oscpack/osc/OscReceivedElements.cpp:45-79 | a padded string in a message is found whole, and its end is where the padding ends |
| PacketRoundTrip.ArgumentsRoundTrip | oscpack/osc/OscReceivedElements.cpp:585-665 | written arguments pass the validating switch to their end and read back as they were |
| PacketRoundTrip.MessageRoundTrip | oscpack/osc/OscReceivedElements.cpp:546-665 | every message of NUL-free strings is accepted and reads back with its address, tags and arguments |
| PacketRoundTrip.Delivered | oscpack/osc/OscPacketListener.h:41-67 | every tree of bundles and messages (addresses not starting with `#`) is accepted and delivers exactly its messages, in order |
| PacketRoundTrip.PacketRoundTrip | oscpack/osc/OscOutboundPacketStream.cpp:296-409 | matched calls either run out of buffer or leave a packet that the listener takes apart into the messages written, equal in all parts |
| Numbers.SingleRoundTrip | src/osc_command.cpp:105-108 | a whole number that fits a single-precision float comes back from its bits unchanged |
| Numbers.DenotesWhole | src/midi_message.cpp:46-62 | what is a whole number, as an int32, a char, an IEEE 754 single or double, has that whole part |
| Numbers.SingleCut | src/midi_message.cpp:46-62 | the whole part of a single is the IEEE 754 number, cut toward zero |
| Numbers.DoubleCut | src/midi_message.cpp:46-62 | and that of a double |
| Numbers.SingleDenotes | src/osc_command.cpp:105-108 | the single made of a whole number is that number by IEEE 754 |
| Numbers.SingleExactly | src/osc_command.cpp:105-108 | every number with at most 24 significant bits, in 128, fits a single |
| Values.PushAllOnEmpty | src/value.cpp:169-187 | pushing a list's elements on Empty gives the list back, except that one lone non-list stands alone and none leaves Empty |
| ValueCodec.ParseEmitted | src/osc_command.cpp:230-308 | the value parser takes exactly one emitted value, through its matching bracket, and leaves all that follows |
| ValueCodec.ParseEmittedList | src/osc_command.cpp:313-331 | the array parser takes exactly the emitted elements and stops in front of the bracket |
| ValueCodec.ParseEmittedHash | src/osc_command.cpp:333-381 | the hash parser takes exactly the emitted entries, keeps the key order and stops in front of the brace |
| ValueCodec.ParseEmittedMidi | src/osc_command.cpp:98-112 | a packed midi message comes back as that midi message |
| ValueCodec.UnpackReals | src/midi_message.cpp:46-62 | a list of reals becomes a midi message of their bytes, the last real its length |
| ValueCodec.UnpackStops | src/midi_message.cpp:46-62 | the first element that is no real ends the bytes, and the message has no length |
| TagBalance.ParsesExactly | src/osc_command.cpp:230-392 | on any arguments the parsers find a value, leave the tags or never return exactly as one scan with a stack of open brackets says, and leave the same rest |
| TagBalance.ValueScanned | src/osc_command.cpp:230-308 | the value parser goes as far as the scan does through the matching bracket |
| TagBalance.HashScanned | src/osc_command.cpp:333-381 | the hash parser and the scan agree up to the brace, with missing values and packed keys |
| OscSender.ToStream | src/osc_command.cpp:51-118 | to_stream leaves the stream as if the specified arguments had been put one by one, up to the first that does not fit |
| OscSender.ListToStream | src/osc_command.cpp:66-76 | lists: brackets only below the first level, elements in order |
| OscSender.HashToStream | src/osc_command.cpp:86-96 | hashes: braces, then key and value alternating in key order |
| OscSender.MidiToStream | src/osc_command.cpp:98-112 | midi messages: the packed form with its three bytes and length |
| OscSender.BuildMessage | src/osc_command.cpp:395-398 | build_message is the matched calls of the message with the value's arguments |
| OscSender.Stream | src/osc_command.cpp:51-118 | one argument more, or the exception |
| OscReceiver.ItemsAhead | oscpack/osc/OscReceivedElements.cpp:448-516 | when the walk stays inside, tag pointer and iterator start in step with the message's arguments |
| OscReceiver.StepBoth | src/osc_command.cpp:306-308 | tag pointer and iterator step together, from one argument to the next |
| OscReceiver.EatClosing | src/osc_command.cpp:306-308 | the step over a closing bracket; behind the last tag it leaves the tags |
| OscReceiver.ParseOscValue | src/osc_command.cpp:230-308 | for every message, well-formed or not: the parsed value, both pointers in front of the same argument; or that it leaves the tags or loops |
| OscReceiver.ParseOscArray | src/osc_command.cpp:313-331 | the array loop, the same |
| OscReceiver.ParseOscHash | src/osc_command.cpp:333-381 | the hash loop, with packed and malformed entries, the same; what does not unpack leaves a midi message without length |
| OscReceiver.ValueFromOsc | src/osc_command.cpp:387-392 | the value of an accepted message is the parse of the arguments that decoding finds in it, and how it ends is what the scan of their brackets says |
| ReceivedValues.Int32Arrives | src/osc_command.cpp:273-275 | ",i" and four bytes arrive as the number they are in two's complement |
| ReceivedValues.FloatArrives | src/osc_command.cpp:276-278 | ",f" and four bytes arrive as the whole number they are by IEEE 754 |
| ReceivedValues.CharArrives | src/osc_command.cpp:279-281 | ",c" and four bytes arrive as the last byte, signed |
| ReceivedValues.DoubleArrives | src/osc_command.cpp:282-284 | ",d" and eight bytes arrive as the whole number they are by IEEE 754 |
| ReceivedValues.MidiArrives | src/osc_command.cpp:288-296 | ",m" and four bytes arrive as a midi message of the last three, in their order |
| ReceivedValues.IgnoredArrives | src/osc_command.cpp:297-308 | an argument that the parser has no case for arrives as nothing, and repeats the value in front of it |
| ReceivedValues.IgnoredInBrackets | src/osc_command.cpp:310-331 | alone in brackets it leaves an empty list, whatever came before the list |
| ReceivedValues.MissingValueArrives | src/osc_command.cpp:333-381 | a key without a value holds nil |
| ReceivedValues.SecondValueArrives | src/osc_command.cpp:333-381 | a key that comes twice holds the second value |
| ReceivedValues.PackedArrives | src/osc_command.cpp:345-360 | an unknown packed type is passed over, and "=m" in front of no list is an empty midi message |
| ReceivedValues.PackedReplaces | src/osc_command.cpp:333-381 | a packed midi message takes the place of the entries in front of it |
| ReceivedValues.KeyReplaces | src/osc_command.cpp:333-381 | and a key behind it takes the place of the midi message |
| ReceivedValues.Sixty | src/osc_command.cpp:273-284 | 60 as a double and as a single, in hexadecimal |
| OscCommand.ParsedUnpacked | src/osc_command.cpp:343-362 | whatever is received, no parsed hash holds a key that names a packed type |
| OscCommand.EmitProper | src/osc_command.cpp:51-118 | all that to_stream writes, C strings and the writer can carry |
| OscCommand.ValueRoundTrip | src/osc_command.cpp:51-392 | a sent value comes back, key order included and nothing left over, if and only if no hash in it has a packed key; only top-level lists of one or no element change shape |
| OscCommand.ReturnedItself | src/osc_command.cpp:310-331 | all values come back as they were, except Empty, the empty list, and a list of one element that is no list |
| OscCommand.FullStackRoundTrip | src/osc_command.cpp:51-398 | the same through bytes: if the message fits, writing, validating, decoding and parsing gives the value back |
| OscCommand.UnbalancedMessages | src/osc_command.cpp:230-392 | two accepted messages of eight bytes: parsing the one never returns, parsing the other leaves the tags |
| OrderedMap.SameMap | include/oscit/thash.h:173-186 | equal size and every entry of one found in the other is the same as all lookups being equal |
| OrderedMap.FindWithoutValue | include/oscit/thash.h:378-384 | what is left finds nothing under exactly the keys that held the element |
| THashes.Store | include/oscit/thash.h:217-250 | the chain holds the bucket with the key put in place or at its end |
| THashes.LinkPast | include/oscit/thash.h:351-354 | an element behind the head is linked past |
| THashes.MoveUp | include/oscit/thash.h:356-366 | a head with a tail takes over its successor |
| THashes.EmptyHead | include/oscit/thash.h:367-371 | a head without a tail is emptied |
| THashes.Unlink | include/oscit/thash.h:336-375 | the chain holds the bucket without the entry, compacted into the head where needed; an empty head has no tail |
| THashes.THash.constructor | include/oscit/thash.h:66-68 | a new table is the empty dictionary |
| THashes.THash.Walk | include/oscit/thash.h:252-267 | the lookup loop ends at the key's element, at an empty head or behind the chain |
| THashes.THash.Get | include/oscit/thash.h:252-317 | all lookups agree with the dictionary, for any hash function |
| THashes.THash.SetInTable | include/oscit/thash.h:217-250 | the key's own bucket with the key put, all other chains untouched, and whether the key is new |
| THashes.THash.Set | include/oscit/thash.h:217-250 | the dictionary with the key put: in place, or as the newest key |
| THashes.THash.RemoveKeepingKey | include/oscit/thash.h:336-375 | exactly the key's entry leaves its own bucket, and the answer says whether there was one |
| THashes.THash.EraseKey | include/oscit/thash.h:140-152 | the key list without the key |
| THashes.THash.Remove | include/oscit/thash.h:140-152 | the dictionary without the key, the order of the others kept |
| THashes.THash.GetKey | include/oscit/thash.h:319-333 | the first key, in insertion order, that holds the element |
| THashes.THash.RemoveElement | include/oscit/thash.h:378-384 | ends, and removes exactly the keys that held the element |
| THashes.THash.Clear | include/oscit/thash.h:158-165 | the empty dictionary |
| THashes.THash.Copy | include/oscit/thash.h:95-108 | a fresh table with the same dictionary, keys in the same order |
| THashes.THash.Equals | include/oscit/thash.h:173-186 | true if and only if all lookups are equal |
| THashes.RunsAgree | include/oscit/thash.h:95-186 | after any run of changes the dictionary is the plain map, and the key list has no duplicates and the order of first insertion |
| DeepMerge.MergeLookup | src/value.cpp:208-240 | key by key: kept, merged in depth, removed, or taken over |
| DeepMerge.MergeOrder | src/value.cpp:208-240 | survivors keep their order, new keys follow in the argument's order |
| DeepMerge.MergeTwice | src/value.cpp:208-246 | merging twice is merging once if and only if the argument holds no nil at any depth |
| HashMerge.MergeNested | src/value.cpp:225-227 | hash on hash is merged in place, without disturbing any other key, and all below it is then read from real cells |
| HashMerge.AssignKey | src/value.cpp:231-238 | a key takes the argument's value; a hash is shared, not copied; finished hashes stay as they are |
| HashMerge.DropKey | src/value.cpp:228-230 | a known key set to nil is removed; finished hashes stay as they are |
| HashMerge.SetCell | include/oscit/value.h:727-736 | the hash with the key put, in place |
| HashMerge.SDeepMerge | src/value.cpp:208-240 | an unshared receiver becomes the merge of both, at every depth in its cells; its hashes stay unshared; the argument's hold and mean what they did and are shared at least as much |
| HashMerge.DeepMergeValue | src/value.cpp:242-246 | nothing happens unless both are hashes; then what is read from the receiver's cells, down to the last hash, is the merge of what was read before |
| HashMerge.ReadBack | include/oscit/thash.h:252-267 | what a hash is said to mean is what its cells and those of the hashes below it say |
| HashMerge.Reached | include/oscit/hash.h:54-62 | all that can be reached from an unshared hash is unshared and means what its cells say |
| Names.NextNameSlashFree | include/oscit/object.h:410-422 | a changed name hides no slash if the old one did not |
| Names.AfterOne | include/oscit/object.h:410-422 | a name without hyphen gets "-1"; that name loses its last character and gets "2" |
| Names.AfterNumber | include/oscit/object.h:410-422 | "c-n", with anything behind it, becomes c without its last character and the decimal of n + 1 |
| Names.AfterLeading | include/oscit/object.h:410-422 | "-n" and what is behind it is kept whole, with the decimal of n + 1 at the end |
| Names.SignsAndSpaces | include/oscit/object.h:410-422 | what atoi makes of signs, spaces and what is no digit |
| Names.LoopEnds | src/object.cpp:138-141 | for every name, the rename loop ends if and only if a name it can come to is free or there is no end to those names |
| ObjectTree.Object.constructor | include/oscit/object.h:98-102 | a new object has its name as url, no parent and no root |
| ObjectTree.Object.Root | src/root.cpp:45-47 | a new root has the empty url, which its index maps to itself |
| ObjectTree.Object.SetRoot | src/object.cpp:166-170 | the object leaves the old root's index and enters the new one's |
| ObjectTree.Object.EraseFromVector | src/object.cpp:93-101 | the vector without the first occurrence of the child |
| ObjectTree.Object.UnregisterChild | src/object.cpp:88-102 | the child leaves the dictionary and the vector, the others keep their order |
| ObjectTree.Object.FindFreeName | src/object.cpp:138-141 | the name after the fewest renamings that is not taken; the loop never ends exactly when there is none |
| ObjectTree.Object.AddToVector | src/object.cpp:147-163 | the child goes last, or in front of the first keep_last child |
| ObjectTree.Object.RegisterChild | src/object.cpp:132-164 | both together: a free name, last in the dictionary, and in the vector the last of its kind: a keep_last child at the very end, an ordinary one between the ordinary and the keep_last children |
| ObjectTree.InsertOrdered | src/object.cpp:147-163 | no ordinary child stands behind a keep_last one afterwards |
| ObjectTree.InsertedLast | src/object.cpp:147-163 | among ordered children the child becomes the last of its kind |
| ObjectTree.InsertErases | src/object.cpp:147-163 | taking the child out again gives the old vector: the others never move |
| ObjectTree.TreeUnique | src/object.cpp:104-118 | under one root a url belongs to one object |
| ObjectTree.ReplantedTree | src/object.cpp:172-178 | with a subtree in its new place the links, lines and urls fit together again |
| ObjectTree.Object.Relocate | src/object.cpp:104-118 | the object's url, root and index entry are settled, and nobody else's is unsettled |
| ObjectTree.Object.Resettle | src/object.cpp:104-118 | the first half of moved: by its parent, as a root, or detached, the object is settled |
| ObjectTree.Object.Moved | src/object.cpp:104-130 | the whole subtree is settled, nothing else is unsettled, no index keeps a stale entry |
| ObjectTree.Object.Relink | src/object.cpp:172-176 | the first half of set_parent: the child leaves one parent and joins the other, last, under a free name |
| ObjectTree.Object.SetParent | src/object.cpp:172-178 | adopting, moving between roots, detaching: the invariant holds again, and exactly the promised children, vectors and names result |
| ObjectTree.Object.Adopt | include/oscit/object.h:226-230 | the same from the parent's side |
| ObjectTree.Object.SetName | include/oscit/object.h:173-178 | a new name, changed only as often as it is taken, and the child last among its like; an empty one changes nothing at all |
| ObjectTree.Object.SetKeepLast | include/oscit/object.h:180-185 | a changed flag puts the child in its new place and keeps its name; the same flag again changes nothing |
| ObjectTree.Joins | include/oscit/object.h:66-102 | a new object or root joins a consistent world |
| ObjectTree.Begins | src/root.cpp:45-47 | a fresh root is a consistent world of its own: every run starts from there |
| ObjectTree.IndexEqualsTree | src/root.cpp:103-125 | every url is the parent's with one name more, every index maps exactly the urls of the objects under its root, and the two views of the children agree |
| ObjectTree.UrlSpelled | src/object.cpp:104-110 | a url spells the names along the chain of parents up to the root |
| ProxyTree.BuildChild | src/object_proxy.cpp:121-133 | what the factory built is one new child, an object proxy, under a free name; every index gains exactly its url, under its root |
| ProxyTree.IndexedAbove | include/oscit/root.h:348-355 | with a url the index holds all its prefixes |
| ProxyTree.FindOrBuildObjectAt | include/oscit/root.h:444-470 | finds the object exactly when all that is missing on the way is built; calls a null pointer exactly when an object proxy on the way is refused a child; adds exactly the missing prefixes up to there, keeps all other entries, and changes nothing when there is nothing to add |
| ProxyTree.BuildsOnce | include/oscit/root.h:377-385 | a second call answers the same and adds nothing |
| ProxyTree.BuildLast | include/oscit/root.h:458-459 | a parent that builds creates the last name of the path, and the index gains exactly that url |
| ProxyTree.AskParent | src/object_proxy.cpp:121-133 | the parent builds, declines or calls a null pointer, by its kind and its factory |
| ProxyTree.ReachedOrNull | include/oscit/root.h:444-470 | a path that can be reached meets no null pointer |
| ProxyTree.RefusedBelowProxy | include/oscit/object.h:226-230 | any name refused below a known object proxy leads to the null pointer |
| ProxyTree.MetaMethodMeetsNull | include/oscit/proxy_factory.h:83-85 | so does "/one/.x", with a factory that builds no meta methods |
| ProxyPaths.FindOrBuild | include/oscit/root.h:377-385 | found exactly when the path is known, or its known part ends at a proxy below a root proxy whose factory builds every missing part; a null pointer exactly when a part is refused below an object proxy; else not found; the index gains exactly the parts that can be built |
| ProxyPaths.ReachedExactly | include/oscit/root.h:444-470 | what the lookup reaches is what the factory builds below the known proxies |
| ProxyPaths.NullExactly | src/object_proxy.cpp:121-133 | where the lookup meets the null pointer, by the same terms |
| ProxyPaths.BuildsAll | src/root_proxy.cpp:115-130 | below proxies, with a factory that builds every missing part, every path is found and all its parts are there |
| ProxyPaths.EndsMissing | src/root_proxy.cpp:115-130 | without a factory, below a plain object, or with the root's child refused, a missing path is not found, and no null pointer is met |
| Mirror.ListWithAttributes | src/object.cpp:236-254 | the reply lists names and attributes of all children in their order |
| Mirror.ReplyAt | src/object.cpp:236-254 | the reply entry by entry: the name, with a slash behind it when there are children, and the attributes |
| Mirror.ReplyBehind | src/object.cpp:236-254 | a child without attributes gives only its name |
| Mirror.ListedIs | src/root_proxy.cpp:76-89 | exactly the pairs of a string and a hash are listed, without the slash behind the name |
| Mirror.ReplyLists | src/object.cpp:236-254 | such a reply is read as those children that have an attribute hash, with their attributes, in their order |
| Mirror.BuildChildrenFromAttributes | src/root_proxy.cpp:58-113 | the proxy's child names become the old ones followed by those the factory builds, with the listed attributes; existing children, urls and roots stay; it stops at a null pointer exactly when an object proxy is asked for a missing child that its factory refuses |
| Mirror.MirrorOne | src/root_proxy.cpp:91-111 | one pair: a child that is not there yet is built and adopted under its name, passed over, or the null pointer |
| Mirror.HandleReply | src/root_proxy.cpp:132-147 | the reply reaches the object at its url; anything malformed or unknown changes nothing |
| Mirror.AddNamesTwice | src/root_proxy.cpp:58-113 | mirroring the same reply again adds nothing |
| Mirror.AddedInOrder | src/root_proxy.cpp:58-113 | new names go behind the old ones, in the order of the reply |
| Mirror.MirrorsRemote | src/root_proxy.cpp:58-113 | the names are the union of the old ones and of the remote children with attribute hashes that the factory builds, old ones first; all remote children, when all are such |
| Mirror.RefusedRemote | src/root_proxy.cpp:91-111 | mirroring below an object proxy meets the null pointer exactly when the factory refuses a remote child that is not there yet |
| Timers.Timer.Run | include/oscit/timer.h:99-150 | the loop fires and waits as the specification says, for any clock |
| Timers.Timer.Start | include/oscit/timer.h:49-59 | a start with an interval runs the loop with the interval before as its step back |
| Timers.OneTurn | include/oscit/timer.h:99-150 | one turn stays on the grid and waits between 0 and the interval; the next fire is the next point, or, once the clock is past that, the first point past the clock |
| Timers.KeepsGrid | include/oscit/timer.h:99-150 | all fires are on the grid, never early, strictly increasing, with only reached points left out, and none of them behind a fire in time; all waits are between 0 and the interval |
| Timers.EarlyWake | include/oscit/timer.h:113-124 | exactly when an early wake leaves the next fire alone |
| Timers.NewInterval | include/oscit/timer.h:113-137 | a new interval takes effect at the wake that it causes: steps of the new interval from the last point, and no wait longer than that |
| Timers.NoInterval | include/oscit/timer.h:126-143 | interval 0 waits 0 |
| Timers.FreshTimerJumps | include/oscit/timer.h:42-64 | a timer started with its first interval jumps over a coming fire at an early wake |
| ProxyFlow.ObjectProxy.SetValue | src/object_proxy.cpp:49-74 | what is sent, kept waiting or dropped; an Empty value that waits becomes Nil |
| ProxyFlow.ObjectProxy.HandleValueChange | src/object_proxy.cpp:76-103 | the first reply measures the latency, a later one moves it by a quarter of its lateness, cut toward zero; what waits goes out, and a new wait is one and a half latencies; the clock is read twice |
| ProxyFlow.Estimate | src/object_proxy.cpp:76-103 | the latency and the time to wait for after a notification, by inequalities on what was read |
| ProxyFlow.Rises | src/object_proxy.cpp:88-91 | a known latency rises exactly when the reply is four or more milliseconds past the time to wait for, and falls exactly when it is as early |
| ProxyFlow.WaitingTime | src/object_proxy.cpp:49-74 | when a value goes out, waits or is dropped, and the time that is waited for then |
| ProxyFlow.ObjectProxy.Run | src/object_proxy.cpp:49-103 | any run of calls leaves the state and the messages that the laws below are about |
| ProxyFlow.AtMostOne | src/object_proxy.cpp:49-74 | from a fresh or reset proxy at most one message goes out before the next notification |
| ProxyFlow.ResetStartsOver | include/oscit/object_proxy.h:167-170 | after a reset the next value goes out at once, the others are dropped until the notification that measures the latency anew, and what waited keeps waiting |
| ProxyFlow.StaysKnown | src/object_proxy.cpp:76-103 | over every run a latency that is not negative stays so until a reset |
| ProxyFlow.FreshStaysKnown | src/object_proxy.cpp:76-103 | every run of a fresh proxy is sound, and a latency once known stays known until a reset |
| ProxyFlow.Spaced | src/object_proxy.cpp:49-74 | with a known latency, sends without a notification between them are one and a half latencies apart |
| ProxyFlow.SpacedAfterNotification | src/object_proxy.cpp:76-103 | the same after a send that answers a notification |
| ProxyFlow.LeftOver | src/object_proxy.cpp:49-103 | when nothing waits any more, the last value sent is the last one accepted if and only if that one had to wait, or went out while nothing waited |
| ProxyFlow.NewestIsOut | src/object_proxy.cpp:49-103 | over every run, exactly when the last value sent is the last one accepted |
| ProxyFlow.LedgerTrue | src/object_proxy.cpp:49-103 | over every run, to_send holds the value of the event that waits, and the last message that of the event sent last |
| ProxyFlow.OlderValueGoesLast | src/object_proxy.cpp:49-103 | a run in which the older of two values is the last to be sent |

## Left out

- Sockets, the select loop, name resolution, zeroconf, threads, locks and signals: sending appends to a sequence, the clock and the callbacks are parameters, and every operation is one atomic step.
- Reference counts other than a hash's, object handles, destructors, `Object::clear` and `Root::clear`: memory management. `Hash::detach` copies only shared hashes, and the merge is stated for receivers that share none.
- `THash` assignment to a table that is not empty: it does not clear the key list, so copying is modelled into a fresh table.
- Values are immutable data outside of the merge: what `push_back` and the parsers write through a pointer is returned, and lists that share their storage are not told apart.
- Error and matrix values: an error is flattened into two arguments and a matrix writes nothing, so neither comes back. The reals of values to be sent are single-precision bit patterns; the conversion between double and float is not modelled, nor is the one from a float out of range to an integer.
- OutboundPacketStreams.OutboundPacketStream.Put: stands for the nineteen argument writers, grouped by the width of what they store; the bits of floats and doubles are opaque, and an argument is streamed only into an open message, which the writers do not check.
- The capacity of a buffer and the length of a packet are below 2^31, and `uint32` is 32 bits wide, as the wire format has it.
- The Ragel tables (JSON, urls, mapper files), scripts and file methods: generated automata or I/O.
- Observers, signals on registration and `adopted()`: the callbacks are taken not to edit the tree. A proxy's first request for its type or value, sent from there, is not modelled.
- A Root inside another tree, a parent below its own child, and names with slashes: excluded by preconditions, as the code excludes them by convention.
- ObjectTree.Object.SetParent: like the other operations that register a child, requires that some number of renamings leads to a free name; `FindFreeName` and `LoopEnds` say exactly when that is so, and the code runs for ever otherwise. `atoi` is modelled on numbers that fit an int.
- DeepMerge.MergeTwice: a law of what a merge means; a second merge in place meets hashes that the first one shared with the argument, and copies them first, which is not modelled.
- ProxyTree.FindOrBuildObjectAt: what a factory builds is a function of the parent's url, the name and the attributes, and an object proxy is taken to know the root proxy above it, which the code looks up when the proxy itself is adopted; a `build_child` that builds siblings, or other children than the one asked for, is not modelled.
- Mirror.BuildChildrenFromAttributes: requires slash-free names in the list, as any tree produces; the flag that remembers which proxies still have to ask for their children is left out.
- Mirror.HandleReply: requires the same of the names in the reply's list; names with a slash lie outside of the tree's invariant.
- Attribute replies (`set_attrs`) and the dispatch of values to proxies in `handle_reply`: plain lookups.
- Timers.Timer.Run: the number of skipped intervals is unbounded here; the code keeps it in an int.
- ProxyFlow.ObjectProxy.SetValue: times are exact integers, so the double-precision product of latency and 1.5 is cut as for values below 2^52.
- Mapper, scaling, midi setters, aliases, meta methods: easy members.
