# A verified model of the eMQTT5 MQTT v5 wire codec

This project models, in Dafny, the MQTT v5 codec of the eMQTT5 client
library (`include/Protocol/MQTT/MQTT.hpp`): the part that turns control
packets into bytes and bytes back into packets, following the OASIS MQTT
Version 5.0 standard. It has no I/O of its own: every operation works on a
buffer it is given and reports either the number of bytes it consumed or
one of the three `LocalError` codes (`BadData`, `NotEnoughData`, and
`Shortcut`, which marks a valid abbreviated packet).

One Dafny module per part of the codec:

- `Wire`: bytes, the status codes and their `uint32` encoding, network-order integers, `memcpy`.
- `VarInt`: the Variable Byte Integer (`VBInt`, with its encoder switch, decoder switch and `readFrom` loop) and the allocation-free decoder `MappedVBInt::acceptBuffer`.
- `Primitives`: the length-prefixed strings and binary data, owning (`DynamicString`, `DynamicBinaryData`, `DynamicStringPair`) and zero-copy views into the received buffer.
- `Header`: the fixed header byte, the PUBLISH dup/QoS/retain accessors and the `checkHeader` framing pre-scan.
- `Registry`: which codes name a property, the dense index the registries use, the property names and the table of packet types each property is allowed in.
- `PropertyCodec`: one property, its encoding and reading, and `PropertyRegistry::unserialize`.
- `ListParse`: the reading and writing loops of a property list, stated once for any element reader.
- `PropertyList`: the owning `Properties` list, a class whose methods update its length and its list of properties.
- `PropView`: the `PropertiesView` cursor that walks the properties in place through the visitor registry.
- `Fields`: the fixed variable header of each packet type (`FixedField<type>`).
- `Payloads`: the CONNECT payload with its will message and client identifier check, and the raw data payloads.
- `Topics`: the SUBSCRIBE and UNSUBSCRIBE topic lists and their payloads.
- `Packet`: the `ControlPacket` framing shared by all packet types, as a class over its three parts, and the two-byte PING packets.
- `Acks`: the PUBACK, PUBREC, PUBREL and PUBCOMP packets, framed from the identifier-and-reason field, the owning properties and the empty payload.

Reading operations are functions from the old state and the buffer to the
status and the new state; where the source loops, a method runs the loop
and is proved equal to that function. Every encoder has its reader as
partner, and the round-trip lemmas state that reading back what
`copyInto` wrote gives the value back. Where the code departs from what
it evidently means, the model follows the code, exhibits the input that
shows the gap, and proves the intended behaviour of a corrected
definition beside it (see "Findings").

## Model

| member | source | states |
|---|---|---|
| Wire.Code | include/Protocol/MQTT/MQTT.hpp:54-66 | the `uint32` returned for a status: `isError` holds exactly for the three error codes, `isShortcut` exactly for Shortcut, and a byte count is returned as is |
| Wire.StatusOf | include/Protocol/MQTT/MQTT.hpp:54-66 | a returned `uint32` stands for a byte count exactly when `isError` is false |
| Wire.CodeRoundTrip | include/Protocol/MQTT/MQTT.hpp:54-66 | error codes and statuses correspond one to one |
| Wire.BigEndian | include/Protocol/MQTT/MQTT.hpp:1159 | the network-order encoding of a `w`-byte integer has `w` bytes |
| Wire.FromToBigEndian | include/Protocol/MQTT/MQTT.hpp:1159-1168 | reading back a big-endian integer gives the value written |
| Wire.ToFromBigEndian | include/Protocol/MQTT/MQTT.hpp:1159-1168 | re-encoding the value read gives the bytes back |
| Wire.U16Bytes | include/Protocol/MQTT/MQTT.hpp:283 | the two-byte length prefix is `v` in network order and decodes to `v` |
| Wire.ReadU16 | include/Protocol/MQTT/MQTT.hpp:291 | the 16-bit length read with `ntohs` re-encodes to the two bytes it came from |
| Wire.Peek | include/Protocol/MQTT/MQTT.hpp:2326-2327 | a read at index `i` sees the buffer's byte inside it and whatever follows it beyond it |
| Wire.Splice | include/Protocol/MQTT/MQTT.hpp:283 | a write at `at` keeps the bytes before and after the written range and holds `src` inside it |
| Wire.SpliceTwice | include/Protocol/MQTT/MQTT.hpp:283 | two `memcpy` calls one after the other write the concatenation |
| Wire.CopyBytes | include/Protocol/MQTT/MQTT.hpp:283 | `memcpy` replaces exactly the destination range with the source bytes |
| VarInt.VBInt.Decoded | include/Protocol/MQTT/MQTT.hpp:647-662 | the decode switch gives, for a VBInt that passes `check`, the value of the standard's decoding algorithm, and is always below 2^29 |
| VarInt.VBInt.Bytes | include/Protocol/MQTT/MQTT.hpp:675 | `copyInto` writes `getSize()` bytes |
| VarInt.Digits | include/Protocol/MQTT/MQTT.hpp:608-614 | the standard's encoding algorithm takes 1 to 4 bytes as the thresholds 127 / 16383 / 2097151 / 268435455 say |
| VarInt.DigitsFacts | include/Protocol/MQTT/MQTT.hpp:608-614 | the reference encoding is well formed (continuation bit on all bytes but the last) and decodes back to its value |
| VarInt.Assign | include/Protocol/MQTT/MQTT.hpp:627-644 | the unrolled fall-through switch stores the reference encoding of every value up to 268435455, which then checks and converts back to the value; larger values leave size 0, which fails `check` |
| VarInt.ReadLoop | include/Protocol/MQTT/MQTT.hpp:679-688 | one iteration of the `readFrom` loop: an accepted read is a terminated encoding of at most three bytes taken from the buffer's head |
| VarInt.ReadSpec | include/Protocol/MQTT/MQTT.hpp:679-688 | the recursive reading takes its bytes from the buffer's head; it succeeds with a terminated encoding of at most three bytes that checks, is NotEnoughData exactly when fewer than four bytes all carry the continuation bit, and BadData exactly when the first three do and a fourth is there; never Shortcut |
| VarInt.ReadFrom | include/Protocol/MQTT/MQTT.hpp:679-688 | the loop returns the status and the bytes read that the recursive reading describes |
| VarInt.ReadOfTerminated | include/Protocol/MQTT/MQTT.hpp:679-688 | a terminated encoding of one to three bytes is read back whole, whatever follows it |
| VarInt.ReadOfEncoding | include/Protocol/MQTT/MQTT.hpp:627-688 | `readFrom` reads back what `copyInto` wrote for any value up to 2097151, and the VBInt read decodes to that value |
| VarInt.ReadRejectsFourBytes | include/Protocol/MQTT/MQTT.hpp:687 | every value that needs four bytes is refused with BadData when read back |
| VarInt.ReadFixed | include/Protocol/MQTT/MQTT.hpp:679-688 | the corrected reading accepts exactly a terminated prefix of at most four bytes, and consumes it |
| VarInt.ReadFixedRoundTrip | include/Protocol/MQTT/MQTT.hpp:627-688 | with the corrected reading every value up to 268435455 round-trips through `operator=`, `copyInto` and `readFrom` |
| VarInt.AcceptSpec | include/Protocol/MQTT/MQTT.hpp:707-731 | `acceptBuffer` fails with BadData exactly on an empty buffer and otherwise consumes 1 to 4 bytes without passing the buffer's end |
| VarInt.ScanLength | include/Protocol/MQTT/MQTT.hpp:710-714 | the scan covers the bytes up to and including the first one without continuation bit, capped at four and at the buffer's end |
| VarInt.AcceptBuffer | include/Protocol/MQTT/MQTT.hpp:707-731 | the scanning loop and the decode switch give the status and value the scan describes |
| VarInt.AcceptOfTerminated | include/Protocol/MQTT/MQTT.hpp:707-731 | a terminated encoding of one to four bytes is consumed whole and decoded to its value |
| VarInt.AcceptTakesTruncated | include/Protocol/MQTT/MQTT.hpp:710-714 | a lone continuation byte is taken as a complete encoding of 0 |
| VarInt.AcceptFixed | include/Protocol/MQTT/MQTT.hpp:707-731 | the corrected scan accepts only a terminated prefix and decodes it with the standard's algorithm |
| VarInt.AcceptFixedRoundTrip | include/Protocol/MQTT/MQTT.hpp:707-731 | with the corrected scan every value up to 268435455 is read back from its encoding with its exact size |
| Primitives.Owned.Content | include/Protocol/MQTT/MQTT.hpp:270-283 | the bytes an owning string or blob stands for are exactly `length` long |
| Primitives.Owned.Encode | include/Protocol/MQTT/MQTT.hpp:278-283 | `copyInto` writes `getSize()` bytes: the length in network order, then the data |
| Primitives.OwnedOf | include/Protocol/MQTT/MQTT.hpp:428 | a value built from a block of bytes holds exactly those bytes |
| Primitives.ReadOwned | include/Protocol/MQTT/MQTT.hpp:288-296 | `readFrom` fails only with NotEnoughData and then keeps the old data pointer; on success it consumes `getSize()` bytes and holds a value that re-encodes to exactly the bytes consumed |
| Primitives.ReadOwnedShort | include/Protocol/MQTT/MQTT.hpp:290-292 | `readFrom` fails exactly when fewer than two bytes, or fewer than the declared length plus two, are available |
| Primitives.OwnedRoundTrip | include/Protocol/MQTT/MQTT.hpp:283-296 | reading back what `copyInto` wrote gives the same bytes and consumes `getSize()` bytes, whatever follows |
| Primitives.OwnedPair.Encode | include/Protocol/MQTT/MQTT.hpp:346-351 | a string pair writes `getSize()` bytes, key then value |
| Primitives.ReadOwnedPair | include/Protocol/MQTT/MQTT.hpp:356-363 | a pair read consumes at least four bytes, exactly `getSize()`, and re-encodes to the bytes consumed; the first error is returned as is |
| Primitives.OwnedPairRoundTrip | include/Protocol/MQTT/MQTT.hpp:351-363 | reading back an encoded pair gives the same key and value |
| Primitives.View.Content | include/Protocol/MQTT/MQTT.hpp:444-457 | a view stands for `length` bytes of the buffer it was read from |
| Primitives.View.Encode | include/Protocol/MQTT/MQTT.hpp:452-457 | `copyInto` of a view writes `getSize()` bytes |
| Primitives.ReadView | include/Protocol/MQTT/MQTT.hpp:464-471 | a view read fails only with NotEnoughData; on success it points at the third byte of the buffer and re-encodes to the bytes consumed |
| Primitives.ReadViewShort | include/Protocol/MQTT/MQTT.hpp:466-468 | a view read fails exactly when fewer than two bytes, or fewer than the declared length plus two, are available |
| Primitives.ViewRoundTrip | include/Protocol/MQTT/MQTT.hpp:457-471 | a view read from what an owning value wrote sees the same bytes |
| Primitives.ReadViewOf | include/Protocol/MQTT/MQTT.hpp:464-471 | wherever the encoding sits and whatever room follows it, the view spans exactly the encoding and sees the owning value's content |
| Primitives.EmptyViewFailsCheck | include/Protocol/MQTT/MQTT.hpp:464-475 | a view read from an empty string is accepted by `readFrom` and then fails its own `check` |
| Primitives.ReadViewPassesCheckFixed | include/Protocol/MQTT/MQTT.hpp:464-475 | under the corrected test every view `readFrom` accepts is valid |
| Primitives.ViewPair.Encode | include/Protocol/MQTT/MQTT.hpp:518-523 | a pair of views writes `getSize()` bytes |
| Primitives.ReadViewPair | include/Protocol/MQTT/MQTT.hpp:528-535 | a pair-of-views read consumes `getSize()` bytes, at least four, and re-encodes to them |
| Primitives.ReadViewPairOf | include/Protocol/MQTT/MQTT.hpp:523-535 | a pair of views read from what an owning pair wrote sees the same key and value |
| Header.DeclaredFlags | include/Protocol/MQTT/MQTT.hpp:913-927 | the header typedefs declare the flags 2 exactly for PUBREL, SUBSCRIBE and UNSUBSCRIBE, and 0 for every other type |
| Header.HeaderByte | include/Protocol/MQTT/MQTT.hpp:881 | the byte a `FixedHeaderType` constructor stores holds the type in the high nibble and the declared flags in the low nibble |
| Header.Compose | include/Protocol/MQTT/MQTT.hpp:886-896 | a byte built from a type, dup, QoS and retain reads back those four fields through `getType`, `isDup`, `getQoS` and `isRetain` |
| Header.ComposeFields | include/Protocol/MQTT/MQTT.hpp:886-896 | the four fields determine the header byte |
| Header.StoredQoS | include/Protocol/MQTT/MQTT.hpp:899 | `setQoS` keeps a QoS below 3 and stores 0 for any other |
| Header.PublishHeader.constructor | include/Protocol/MQTT/MQTT.hpp:909 | the PUBLISH header built from dup, QoS and retain has type PUBLISH and those fields, with an out-of-range QoS stored as 0 |
| Header.PublishHeader.SetDup | include/Protocol/MQTT/MQTT.hpp:897 | `setDup` changes the dup bit only: the new value is read back and QoS, retain and type are unchanged |
| Header.PublishHeader.SetRetain | include/Protocol/MQTT/MQTT.hpp:898 | `setRetain` changes the retain bit only |
| Header.PublishHeader.SetQoS | include/Protocol/MQTT/MQTT.hpp:899 | `setQoS` changes the QoS bits only, to the value kept by `setQoS`'s range test |
| Header.PublishHeader.IsDup | include/Protocol/MQTT/MQTT.hpp:893 | `isDup` is bit 3 of the header byte, `typeAndFlags & 0x8` |
| Header.PublishHeader.IsRetain | include/Protocol/MQTT/MQTT.hpp:894 | `isRetain` is bit 0 of the header byte, `typeAndFlags & 0x1` |
| Header.PublishHeader.QoS | include/Protocol/MQTT/MQTT.hpp:895 | `getQoS` is `(typeAndFlags & 0x6) >> 1` |
| Header.QoSMask | include/Protocol/MQTT/MQTT.hpp:895 | the mask-and-shift of `getQoS` gives the same two bits as the arithmetic the rest of the model reads |
| Header.CheckHeader | include/Protocol/MQTT/MQTT.hpp:932-943 | the framing pre-scan: NotEnoughData under two bytes, BadData when a non-PUBLISH type's flags differ from its table entry, the type reported exactly when the flags pass, and otherwise the remaining length's error or 1 + its size + its value |
| Header.CheckHeaderRefusesConnAck | include/Protocol/MQTT/MQTT.hpp:935-936 | the CONNACK header byte 0x20 that `FixedHeaderType<CONNACK, 0>` writes is refused with BadData |
| Header.CheckHeaderSwapsPubRel | include/Protocol/MQTT/MQTT.hpp:935-936 | the PUBREL header byte 0x62 is refused, while a PUBREC byte 0x52 that fails `FixedHeaderType<PUBREC, 0>::check` is accepted |
| Header.CheckHeaderFixedFrames | include/Protocol/MQTT/MQTT.hpp:932-943 | the corrected pre-scan accepts exactly the header bytes whose flags pass `FixedHeaderType::check` (any for PUBLISH) and measures header byte + remaining length + that many bytes |
| Header.CheckHeaderFixed | include/Protocol/MQTT/MQTT.hpp:932-943 | the corrected pre-scan: NotEnoughData under two bytes, the type reported exactly when `FixedHeaderType::check` passes and BadData otherwise, and the same type decision as `checkHeader` for every type where its table and the typedefs agree |
| Registry.PropertyIndex | include/Protocol/MQTT/MQTT.hpp:1104-1109 | the lookup refuses codes at or above `MaxUsedPropertyType` and otherwise gives an index no larger than `PropertiesCount` |
| Registry.AllowedTypes | include/Protocol/MQTT/MQTT.hpp:1616-1643 | every `AllowedMask` names only packet types 0 .. 15 |
| Registry.PropertyIndexBijective | include/Protocol/MQTT/MQTT.hpp:987-1033 | `invPropertyMap` gives an index below `PropertiesCount` exactly to the codes that name a property, and that index maps back to the code: the map is a bijection onto 0 .. 26 |
| Registry.CodeOfIndexInverse | include/Protocol/MQTT/MQTT.hpp:987-1033 | every index 0 .. 26 is reached by the code listed at that index |
| Registry.UnknownCodeIndex | include/Protocol/MQTT/MQTT.hpp:1104-1109 | a code that names no property maps to `PropertiesCount`, the "no visitor" index |
| Registry.PropertyName | include/Protocol/MQTT/MQTT.hpp:1036-1051 | `getPropertyName` is non-null exactly for the codes that name a property, and then gives the name at the code's index |
| Registry.AllowedOnlyKnown | include/Protocol/MQTT/MQTT.hpp:1616-1659 | `isAllowedProperty` holds only for codes that name a property |
| Registry.AllowedNowhere | include/Protocol/MQTT/MQTT.hpp:1656-1657 | code 0, every code from 0x2B up and an unused code such as 0x04 are allowed in no packet |
| Registry.UserPropertyEverywhere | include/Protocol/MQTT/MQTT.hpp:1643 | a User Property is allowed in every packet type |
| Registry.AssignedClientIDOnlyInConnAck | include/Protocol/MQTT/MQTT.hpp:1633 | an Assigned Client Identifier is allowed in CONNACK and nowhere else |
| Registry.WillProperties | include/Protocol/MQTT/MQTT.hpp:1617-1623 | the will properties (bit 0) are exactly the five message properties shared with PUBLISH, the Will Delay Interval and the User Property |
| PropertyCodec.Value.Encode | include/Protocol/MQTT/MQTT.hpp:1159 | a value writes `getSize()` bytes (integers as `sizeof(value)` bytes in network order) |
| PropertyCodec.Value.Normal | include/Protocol/MQTT/MQTT.hpp:1163-1170 | the value a read leaves has the same kind and size as the one written |
| PropertyCodec.NormalEncodes | include/Protocol/MQTT/MQTT.hpp:1159-1170 | the value as it reads back writes the same bytes as the value written |
| PropertyCodec.Property.Encode | include/Protocol/MQTT/MQTT.hpp:1211 | `copyInto` writes `getSize()` bytes, the first being the property's code |
| PropertyCodec.Fresh | include/Protocol/MQTT/MQTT.hpp:1516 | `allocateProp` starts a property of the code's own value kind |
| PropertyCodec.ReadProperty | include/Protocol/MQTT/MQTT.hpp:1163-1170 | `readFrom` keeps the code and kind; BadData only for a code byte with the top bit set or not the property's own (or a bad Variable Byte Integer); on success the bytes consumed are `getSize()`, at least 2, and re-encode the property read |
| PropertyCodec.ReadVarProperty | include/Protocol/MQTT/MQTT.hpp:1455-1462 | the Variable Byte Integer specialisation consumes and re-encodes exactly the bytes of the property read |
| PropertyCodec.ReadOwnedProperty | include/Protocol/MQTT/MQTT.hpp:1215-1222 | the string and binary specialisations never fail with BadData past the code test, and on success consume exactly the re-encoded property |
| PropertyCodec.ReadPairProperty | include/Protocol/MQTT/MQTT.hpp:1294-1301 | the string pair specialisation, likewise |
| PropertyCodec.ReadInteger | include/Protocol/MQTT/MQTT.hpp:1163-1170 | the integer specialisations return NotEnoughData below `sizeof(value) + 1` bytes and otherwise consume exactly that many, re-encoding to them |
| PropertyCodec.Unserialize | include/Protocol/MQTT/MQTT.hpp:1495-1508 | `unserialize`: NotEnoughData on an empty buffer, BadData for a code naming no property, and on success a registered property of the buffer's code whose encoding is exactly the bytes consumed |
| PropertyCodec.ReadPropertyRoundTrip | include/Protocol/MQTT/MQTT.hpp:1159-1462 | `readFrom` reads back what `copyInto` wrote into a property of the same code and kind, consuming exactly `getSize()` bytes, whatever follows |
| PropertyCodec.UnserializeRoundTrip | include/Protocol/MQTT/MQTT.hpp:1495-1508 | `unserialize` reads back every registered property `copyInto` wrote, consuming exactly `getSize()` bytes |
| PropertyCodec.UnserializeUnknown | include/Protocol/MQTT/MQTT.hpp:1498-1501 | a code at or above `MaxUsedPropertyType`, or one with no registered property, is refused with BadData |
| ListParse.FlatAppend | include/Protocol/MQTT/MQTT.hpp:1688-1694 | appending an element to the list appends its bytes to the list's encoding |
| ListParse.WriteAll | include/Protocol/MQTT/MQTT.hpp:1690-1693 | the writing loop puts each element's bytes after the previous ones and returns their total; nothing else in the buffer changes |
| ListParse.ParseFrom | include/Protocol/MQTT/MQTT.hpp:1707-1716 | the reading loop never answers Shortcut, and when it succeeds it has consumed all the bytes it was given |
| ListParse.ParseStepOk | include/Protocol/MQTT/MQTT.hpp:1709-1714 | a read that succeeds consumes at least one byte, appends the element and goes on after it |
| ListParse.ParseStepFails | include/Protocol/MQTT/MQTT.hpp:1710 | a read that fails stops the loop with that error and the elements read so far |
| ListParse.ParseKeepsRead | include/Protocol/MQTT/MQTT.hpp:1707-1716 | the loop only appends: the elements already read are kept, even when a later read fails |
| ListParse.ParsedEncodes | include/Protocol/MQTT/MQTT.hpp:1707-1716 | what a successful loop keeps re-encodes to exactly the bytes it read |
| ListParse.ParseOfEncoding | include/Protocol/MQTT/MQTT.hpp:1707-1716 | the loop reads back the encoding of every list of well-formed elements, each as a read leaves it |
| ListParse.ParseOfEncodingFresh | include/Protocol/MQTT/MQTT.hpp:1703-1716 | from an emptied list the loop gives exactly the elements written |
| ListParse.ReadCounted | include/Protocol/MQTT/MQTT.hpp:1702-1716 | NotEnoughData, keeping the old list, when the buffer holds fewer bytes than announced; on success exactly the announced bytes are consumed |
| ListParse.ReadCountedEncodes | include/Protocol/MQTT/MQTT.hpp:1702-1716 | what a successful counted read keeps re-encodes to the bytes it covered |
| ListParse.ReadCountedReadsBack | include/Protocol/MQTT/MQTT.hpp:1702-1716 | a counted read over the encoding of well-formed elements gives them back |
| ListParse.ReadPrefixed | include/Protocol/MQTT/MQTT.hpp:1698-1717 | `readFrom`: on success the length field was read and the bytes consumed are its size plus its value |
| ListParse.ListAfterLength | include/Protocol/MQTT/MQTT.hpp:1701-1716 | after the length read, an error is passed on and success consumes exactly the announced bytes |
| ListParse.ReadPrefixedEncodes | include/Protocol/MQTT/MQTT.hpp:1698-1717 | a successful `readFrom` consumed exactly the length's bytes followed by the encodings of the elements it keeps |
| ListParse.LengthThenBody | include/Protocol/MQTT/MQTT.hpp:1700-1702 | a length written in at most three bytes reads back and the bytes it announces follow it |
| ListParse.ReadPrefixedReadsBack | include/Protocol/MQTT/MQTT.hpp:1698-1717 | a length followed by the encodings of well-formed elements reads back as that length and those elements |
| PropertyList.ListBytes | include/Protocol/MQTT/MQTT.hpp:1692 | the properties written one after the other take the sum of their `getSize()` bytes |
| PropertyList.Normalised | include/Protocol/MQTT/MQTT.hpp:1709 | a property as it reads back keeps its code and its size |
| PropertyList.NormalisedEncodes | include/Protocol/MQTT/MQTT.hpp:1692-1709 | a property as it reads back writes the same bytes as the one written |
| PropertyList.UnserializeReader | include/Protocol/MQTT/MQTT.hpp:1495-1508 | `unserialize` stays within the bytes it is given, what it reads is the encoding of a property, and it reads back every registered property |
| PropertyList.PropertiesRead | include/Protocol/MQTT/MQTT.hpp:1698-1717 | `Properties::readFrom` never answers Shortcut and fails only with NotEnoughData or BadData |
| PropertyList.PropertiesReadEncodes | include/Protocol/MQTT/MQTT.hpp:1698-1717 | after a successful `readFrom` the properties kept fit, their sizes add up to the length read, and the bytes consumed are the length followed by the properties' encodings |
| PropertyList.PropertiesRoundTrip | include/Protocol/MQTT/MQTT.hpp:1688-1717 | reading back what `copyInto` wrote for a list within a three-byte length gives the same length and the list as it reads back, consuming `getSize()` bytes |
| PropertyList.CheckAsWrittenWeaker | include/Protocol/MQTT/MQTT.hpp:1719 | the written `check` accepts all the intended check accepts, and agrees with it when the length and the last property are valid |
| PropertyList.CheckSkipsLast | include/Protocol/MQTT/MQTT.hpp:1606 | a list whose last (here only) property is invalid passes the written `check` |
| PropertyList.CheckIgnoresLength | include/Protocol/MQTT/MQTT.hpp:1719 | any list behind a length that fails its own `check` passes `Properties::check` |
| PropertyList.AllowedAfterAppend | include/Protocol/MQTT/MQTT.hpp:1733-1739 | appending keeps the list allowed in a packet type exactly when the new code is allowed there; an allowed list holds only codes that name a property |
| PropertyList.OfType | include/Protocol/MQTT/MQTT.hpp:1672-1682 | the properties of a given type are properties of the list with that code, in list order |
| PropertyList.OfTypeCounts | include/Protocol/MQTT/MQTT.hpp:1672-1682 | no property of a type is found exactly when no property of the list has that code |
| PropertyList.Properties.constructor | include/Protocol/MQTT/MQTT.hpp:1765 | an empty list with length 0 is a valid list |
| PropertyList.Properties.Single | include/Protocol/MQTT/MQTT.hpp:1784-1785 | a list of one property whose length is that property's size |
| PropertyList.Properties.Size | include/Protocol/MQTT/MQTT.hpp:1684 | `getSize` of a valid list is the size of the length's encoding plus the properties' total size |
| PropertyList.Properties.GetProperty | include/Protocol/MQTT/MQTT.hpp:1670 | `getProperty(index)` gives the property at that position, or none past the end |
| PropertyList.Properties.GetPropertyOfType | include/Protocol/MQTT/MQTT.hpp:1672-1682 | `getProperty(type, index)` gives the `index`-th property with that code, or none when there are not that many |
| PropertyList.Properties.CopyInto | include/Protocol/MQTT/MQTT.hpp:1688-1694 | `copyInto` writes the length and then each property, returning their total size; nothing else in the buffer changes |
| PropertyList.Properties.ReadFrom | include/Protocol/MQTT/MQTT.hpp:1698-1717 | `readFrom` leaves the status, length and list the read describes |
| PropertyList.Properties.ReadList | include/Protocol/MQTT/MQTT.hpp:1706-1716 | the loop of `readFrom` appends what each `unserialize` reads until the length is used up or a read fails |
| PropertyList.Properties.Check | include/Protocol/MQTT/MQTT.hpp:1719 | `check` returns the written check: the length's validity only selects whether the nodes are walked, and the walk skips the last node |
| PropertyList.Properties.CheckPropertiesFor | include/Protocol/MQTT/MQTT.hpp:1733-1739 | `checkPropertiesFor` holds exactly when the list checks and every code is allowed in the packet type |
| PropertyList.Properties.Append | include/Protocol/MQTT/MQTT.hpp:1744-1752 | `append` succeeds exactly when the new length is encodable; then the length grows by the property's size and the property becomes the last, otherwise nothing changes; a valid list stays valid |
| PropertyList.Properties.Swap | include/Protocol/MQTT/MQTT.hpp:1754-1762 | `swap` exchanges the lists and re-assigns each length from the other's value, keeping both lists valid |
| PropView.VisitorFor | include/Protocol/MQTT/MQTT.hpp:1104-1143 | `getVisitorForProperty` installs, for every code, a visitor of exactly the kind the owning property of that code is declared with, and none for a code that names no property |
| PropView.AcceptInteger | include/Protocol/MQTT/MQTT.hpp:207-243 | the integer visitors answer NotEnoughData below `sizeof(value)` bytes, and otherwise hold the big-endian value of those bytes |
| PropView.Accept | include/Protocol/MQTT/MQTT.hpp:1842 | a visitor never answers Shortcut and, on success, consumes at least one of the bytes it was given and no more |
| PropView.RoundTripsViewable | include/Protocol/MQTT/MQTT.hpp:1104-1143 | every property that reads back through the owning codec is read by the view as well |
| PropView.AcceptOfEncoding | include/Protocol/MQTT/MQTT.hpp:1117-1143 | the visitor of a property's kind, given room for at least the value, accepts exactly the value's bytes and shows the same value |
| PropView.PropView.Encode | include/Protocol/MQTT/MQTT.hpp:1852-1857 | `copyInto` of a view writes `getSize()` bytes |
| PropView.ReadPropView | include/Protocol/MQTT/MQTT.hpp:1861-1868 | `readFrom` keeps the old pointer on error; on success it points just past the length field and the view spans, checks and re-encodes exactly the bytes consumed |
| PropView.ReadPropViewOf | include/Protocol/MQTT/MQTT.hpp:1861-1868 | a view read from a length field followed by that many bytes points at those bytes |
| PropView.GetProperty | include/Protocol/MQTT/MQTT.hpp:1832-1846 | `getProperty` leaves the offset unchanged when it returns nothing, otherwise advances it within the view; the type reported is BadProperty or the code byte at the offset |
| PropView.Walk | include/Protocol/MQTT/MQTT.hpp:1891-1894 | the walk over `getProperty` stays within the view and stops where `getProperty` returns nothing |
| PropView.WalkVisitsKnown | include/Protocol/MQTT/MQTT.hpp:1838-1840 | every code a walk visits names a property |
| PropView.CheckPropertiesFor | include/Protocol/MQTT/MQTT.hpp:1885-1897 | `checkPropertiesFor`'s loop answers exactly whether the length field checks and every visited code is allowed in the packet type |
| PropView.CheckPropertiesForFixed | include/Protocol/MQTT/MQTT.hpp:1885-1897 | the corrected loop answers whether, in addition, the walk reaches the end of the view |
| PropView.UnknownCodePasses | include/Protocol/MQTT/MQTT.hpp:1885-1897 | a view whose first byte names no property passes `checkPropertiesFor` whenever its length checks, and the corrected check refuses it |
| PropView.UnknownCodeExample | include/Protocol/MQTT/MQTT.hpp:1861-1897 | the view read from 0x02 0x04 0x00 consumes the three bytes and holds the length 2; its code 0x04, allowed in no packet, passes `checkPropertiesFor(CONNECT)` and the corrected check refuses it |
| PropView.EmptyViewAllowed | include/Protocol/MQTT/MQTT.hpp:1900 | the default view writes one zero byte, visits nothing and is allowed in every packet type |
| PropView.VisitorOfEncoding | include/Protocol/MQTT/MQTT.hpp:1837-1842 | on the bytes a property wrote, the visitor installed for its code accepts exactly its value and shows it |
| PropView.GetPropertyOfEncoding | include/Protocol/MQTT/MQTT.hpp:1832-1846 | `getProperty` at the bytes a property wrote returns its code, a visitor showing its value, and the offset just past it |
| PropView.WalkOfEncoding | include/Protocol/MQTT/MQTT.hpp:1891-1894 | walking the bytes an owning list wrote visits its properties in order, each visitor showing the property's value, and stops exactly at the end of the view |
| PropView.AllowedOfShows | include/Protocol/MQTT/MQTT.hpp:1885-1897 | a walk that visits a list to the end of the view checks as that list does, as written and corrected alike |
| PropView.ViewOfList | include/Protocol/MQTT/MQTT.hpp:1852-1897 | a view read from what `Properties::copyInto` wrote visits exactly that list and checks in a packet type exactly as the list does |
| Fields.ConnectField.Encode | include/Protocol/MQTT/MQTT.hpp:145-152 | `copyInto` of the CONNECT fixed header writes `sizeof` of the packed structure, ten bytes |
| Fields.DefaultConnectFieldChecks | include/Protocol/MQTT/MQTT.hpp:2230 | the default CONNECT fixed header carries "MQTT", passes `check` and sets neither clean start, will, user name nor password |
| Fields.ConnectFlags | include/Protocol/MQTT/MQTT.hpp:2190-2203 | the flags byte built from the bit-fields reads back every one of them through the bit positions of the little-endian layout, with the reserved bit clear |
| Fields.ConnectFlagsLayout | include/Protocol/MQTT/MQTT.hpp:2168-2205 | the union is exact: every flags byte is the byte its bit-fields build, plus its reserved bit |
| Fields.ConnectCheckMeans | include/Protocol/MQTT/MQTT.hpp:2214 | `check` holds exactly when the protocol name is "MQTT", the will QoS is below 3 and the flags byte is its bit-fields put back together with the reserved bit clear |
| Fields.ReadConnectField | include/Protocol/MQTT/MQTT.hpp:153-159 | `MemoryMapped::readFrom` answers NotEnoughData, leaving the field as it was, below ten bytes, and otherwise consumes ten bytes whose re-encoding they are |
| Fields.ConnectFieldRoundTrip | include/Protocol/MQTT/MQTT.hpp:145-159 | reading back what `copyInto` wrote gives the same CONNECT fixed header, keep alive included |
| Fields.ConnAckCheckIsSessionPresentOnly | include/Protocol/MQTT/MQTT.hpp:2245 | `check` accepts exactly the acknowledge flags 0 and 1 |
| Fields.ReadConnAckField | include/Protocol/MQTT/MQTT.hpp:153-159 | NotEnoughData below two bytes, otherwise two bytes consumed whose re-encoding they are |
| Fields.ConnAckFieldRoundTrip | include/Protocol/MQTT/MQTT.hpp:145-159 | reading back what `copyInto` wrote gives the same CONNACK fixed header |
| Fields.IDField.Encode | include/Protocol/MQTT/MQTT.hpp:2273-2278 | `copyInto` writes the identifier in two bytes |
| Fields.ReadIDField | include/Protocol/MQTT/MQTT.hpp:2279-2285 | NotEnoughData below two bytes; otherwise the identifier is the first two bytes, and the status is Shortcut exactly when the remaining length is 2, otherwise two bytes consumed |
| Fields.IDFieldRoundTrip | include/Protocol/MQTT/MQTT.hpp:2273-2285 | the identifier `copyInto` wrote reads back, with a Shortcut exactly for a remaining length of 2 |
| Fields.IDReasonField.Encode | include/Protocol/MQTT/MQTT.hpp:2315-2321 | `copyInto` writes three bytes |
| Fields.ReadIDReasonField | include/Protocol/MQTT/MQTT.hpp:2322-2330 | NotEnoughData below two bytes; otherwise the identifier is the first two bytes, the reason is kept for a remaining length of 2 and is the third byte otherwise, and the status is Shortcut exactly for remaining lengths 2 and 3 |
| Fields.IDReasonFieldRoundTrip | include/Protocol/MQTT/MQTT.hpp:2315-2330 | with a remaining length of 3 or more, identifier and reason `copyInto` wrote read back |
| Fields.IDReasonFieldShortcut | include/Protocol/MQTT/MQTT.hpp:2326 | with a remaining length of 2 only the identifier is read and the reason stays the constructor's 0 (Success) |
| Fields.IDReasonFieldOverrun | include/Protocol/MQTT/MQTT.hpp:2322-2329 | as written, with a remaining length of 1 and the two bytes 0x12 0x34 given, the reason is taken from the byte past the buffer and 3 bytes are reported |
| Fields.ReadIDReasonFieldFixed | include/Protocol/MQTT/MQTT.hpp:2322-2329 | corrected: never reports more bytes than it was given, agrees with the read as written whenever two bytes are not all it has or the remaining length is 2, and otherwise answers NotEnoughData after reading the identifier, keeping the reason |
| Fields.ReadDisconnectField | include/Protocol/MQTT/MQTT.hpp:2381-2387 | as written: a remaining length of 0 is a Shortcut with reason 0; otherwise the reason is taken from the second byte (or what lies past the buffer), a Shortcut for a remaining length of 1 and one byte consumed otherwise |
| Fields.ReadAuthField | include/Protocol/MQTT/MQTT.hpp:2417-2422 | as written: the same, without the Shortcut for a remaining length of 1 |
| Fields.ReasonFieldMisread | include/Protocol/MQTT/MQTT.hpp:2376-2387 | the reason `copyInto` wrote is not what `readFrom` reads: it reads the byte after it |
| Fields.ReasonFieldMisreadExample | include/Protocol/MQTT/MQTT.hpp:2384 | DISCONNECT 0x8E with empty properties and AUTH 0x18 with empty properties read as reason 0x00 |
| Fields.ReadDisconnectFieldFixed | include/Protocol/MQTT/MQTT.hpp:2381-2387 | corrected: the reason is the first byte, and an empty buffer is NotEnoughData |
| Fields.ReadAuthFieldFixed | include/Protocol/MQTT/MQTT.hpp:2417-2422 | corrected likewise for AUTH |
| Fields.ReasonFieldRoundTrip | include/Protocol/MQTT/MQTT.hpp:2376-2387 | corrected, the reason `copyInto` wrote reads back for DISCONNECT and AUTH |
| Fields.PacketIDIffQoS | include/Protocol/MQTT/MQTT.hpp:2482 | `hasPacketID` holds exactly when the header's QoS is 1 or more |
| Fields.PacketIDMask | include/Protocol/MQTT/MQTT.hpp:2482 | `hasPacketID` holds exactly when the flags pointer is set and `*flags & 6` is not 0 |
| Fields.PublishField.Encode | include/Protocol/MQTT/MQTT.hpp:2449-2458 | `copyInto` writes `getSize()` bytes: the topic, and two identifier bytes only when `hasPacketID` |
| Fields.ReadPublishField | include/Protocol/MQTT/MQTT.hpp:2462-2474 | never BadData or Shortcut; on success it consumes exactly `getSize()` bytes whose re-encoding they are, keeping the identifier when there is none to read |
| Fields.PublishFieldRoundTrip | include/Protocol/MQTT/MQTT.hpp:2449-2474 | reading back what `copyInto` wrote gives the topic and, when `hasPacketID`, the identifier |
| Fields.PublishReadBackChecks | include/Protocol/MQTT/MQTT.hpp:2462-2476 | a PUBLISH fixed header read back from what `copyInto` wrote passes `check` exactly when its topic had at least one byte |
| Payloads.WillSize | include/Protocol/MQTT/MQTT.hpp:2513-2524 | `copyInto` of a will whose properties' length matches its list writes `getSize()` bytes |
| Payloads.ReadWill | include/Protocol/MQTT/MQTT.hpp:2529-2541 | `WillMessage::readFrom` never answers Shortcut and never claims more bytes than it was given |
| Payloads.WillRoundTrip | include/Protocol/MQTT/MQTT.hpp:2518-2541 | reading back what `copyInto` wrote for a consistent will gives `getSize()` bytes consumed and the same properties, topic and payload, whatever follows |
| Payloads.WillCheckParts | include/Protocol/MQTT/MQTT.hpp:2544-2553 | a will whose properties pass the intended list check and are allowed in a will, with a valid topic and payload, passes `check`; one that passes has allowed properties and a valid topic and payload |
| Payloads.PartsOf | include/Protocol/MQTT/MQTT.hpp:2589 | the payload sees the will, user name and password flags of exactly the CONNECT field `setFlags` gave it, and none while the pointer is null |
| Payloads.ReadConnectPayload | include/Protocol/MQTT/MQTT.hpp:2626-2650 | `Payload<CONNECT>::readFrom` never answers Shortcut and never claims more bytes than it was given |
| Payloads.ConnectPayloadRoundTrip | include/Protocol/MQTT/MQTT.hpp:2610-2650 | reading back what `copyInto` wrote under the same CONNECT field consumes `getSize()` bytes and gives the client identifier and every part the flags select; unselected parts keep their values, and without the field only the client identifier is read |
| Payloads.ConnectPayloadSizeMatches | include/Protocol/MQTT/MQTT.hpp:2610-2621 | `copyInto` writes `getSize()` bytes for consistent wills: the client identifier first, then `getFilteredSize()` bytes of the selected parts |
| Payloads.CheckConnectPayloadFlags | include/Protocol/MQTT/MQTT.hpp:2652-2661 | `check` is the client identifier's check without the CONNECT field, and otherwise also each flagged part's check: the will's when the will flag is set, the user name's and the password's when theirs are |
| Payloads.ClientIDCharsAreAlphanumeric | include/Protocol/MQTT/MQTT.hpp:2598 | the characters `checkClientID` accepts are exactly the ASCII digits and letters |
| Payloads.CheckClientID | include/Protocol/MQTT/MQTT.hpp:2594-2601 | the loop answers true exactly when every byte of the identifier is one of those characters (so the empty identifier passes) |
| Payloads.SetExpectedSize | include/Protocol/MQTT/MQTT.hpp:2698-2702 | after `setExpectedPacketSize(n)` the block holds `n` bytes and keeps the bytes it had up to `n` |
| Payloads.ReadData | include/Protocol/MQTT/MQTT.hpp:2716-2721 | NotEnoughData, nothing changed, when fewer than `size` bytes are left; otherwise `size` bytes consumed and copied |
| Payloads.DataRoundTrip | include/Protocol/MQTT/MQTT.hpp:2698-2721 | once the expected size is that of what `copyInto` wrote, reading gives the same data back, whatever follows |
| Payloads.ReadDataView | include/Protocol/MQTT/MQTT.hpp:2757-2762 | the non-owning payload answers NotEnoughData, unchanged, below `size` bytes, and otherwise points at the first `size` bytes given, copying nothing |
| Topics.SubscribeTopic.Encode | include/Protocol/MQTT/MQTT.hpp:1971-1975 | one node writes its topic and its options byte, `getSize()` of the node |
| Topics.OptionFields | include/Protocol/MQTT/MQTT.hpp:1933-1963 | the QoS, No Local, Retain As Published, Retain Handling and reserved bit-fields fill the options byte exactly, each within its width |
| Topics.NewSubscribeTopic | include/Protocol/MQTT/MQTT.hpp:2018-2019 | the full constructor stores the topic and each argument truncated to its bit-field width, reserved bits clear |
| Topics.SubscribeListBytes | include/Protocol/MQTT/MQTT.hpp:1967-1977 | `copyInto` of a chain writes its `getSize()` bytes |
| Topics.ReadSubscribeList | include/Protocol/MQTT/MQTT.hpp:1982-1999 | reading a chain either consumes the whole buffer or fails with NotEnoughData, and always leaves at least the head node |
| Topics.SubscribeListRoundTrip | include/Protocol/MQTT/MQTT.hpp:1967-1999 | reading back the bytes of a non-empty chain consumes them all and gives the same topics and options |
| Topics.SubscribeCheckAsWrittenIgnoresRetain | include/Protocol/MQTT/MQTT.hpp:2001 | as written, the `retainAsPublished != 3` test never fails, so `check` looks only at the reserved bits, the QoS and the topic; the intended check implies it |
| Topics.SubscribeCheckMissesRetainHandling | include/Protocol/MQTT/MQTT.hpp:2001 | a node with options 0x30 (Retain Handling 3) passes `check` as written and fails the intended check |
| Topics.NewSubscribeTopicCheck | include/Protocol/MQTT/MQTT.hpp:2001-2019 | a constructed node passes the intended check exactly when its topic checks and neither Retain Handling nor QoS is 3, and passes the check as written whatever its Retain Handling |
| Topics.UnsubscribeListBytes | include/Protocol/MQTT/MQTT.hpp:2044-2054 | `copyInto` of an UNSUBSCRIBE chain writes its `getSize()` bytes |
| Topics.ReadUnsubscribeList | include/Protocol/MQTT/MQTT.hpp:2058-2073 | reading an UNSUBSCRIBE chain either consumes the whole buffer or fails with NotEnoughData, leaving at least the head node |
| Topics.UnsubscribeListRoundTrip | include/Protocol/MQTT/MQTT.hpp:2044-2073 | reading back the bytes of a non-empty chain consumes them all and gives the same topics |
| Topics.ReadSubscribePayload | include/Protocol/MQTT/MQTT.hpp:2794-2800 | NotEnoughData, nothing changed, below the expected size; otherwise exactly the expected size is consumed or the read fails with NotEnoughData |
| Topics.EmptySubscribeRefused | include/Protocol/MQTT/MQTT.hpp:2796-2799 | a SUBSCRIBE payload with an expected size of 0 (no topic) is refused |
| Topics.SubscribePayloadRoundTrip | include/Protocol/MQTT/MQTT.hpp:2783-2800 | what `copyInto` wrote reads back as the same chain once the expected size is its size, whatever follows |
| Topics.ReadUnsubscribePayload | include/Protocol/MQTT/MQTT.hpp:2839-2845 | as for SUBSCRIBE: NotEnoughData, nothing changed, below the expected size, otherwise exactly that many bytes or NotEnoughData |
| Topics.UnsubscribePayloadRoundTrip | include/Protocol/MQTT/MQTT.hpp:2828-2845 | what `copyInto` wrote reads back as the same chain once the expected size is its size |
| Topics.UnsubscribeCheckSkipsTail | include/Protocol/MQTT/MQTT.hpp:2075 | the intended whole-chain check implies the check as written, and a chain whose second topic has a length and a null pointer passes the check as written only |
| Topics.SubscribeReadBackChecks | include/Protocol/MQTT/MQTT.hpp:2794-2802 | a SUBSCRIBE payload read back from nodes whose topics have at least one byte passes `check` exactly when every options byte has clear reserved bits and a QoS other than 3 |
| Packet.ExpectedPayloadSize | include/Protocol/MQTT/MQTT.hpp:2971 | the size left for the payload is the remaining length less the fixed field's and the properties' sizes, wrapping around modulo 2^32 when they exceed it |
| Packet.ExpectedSize | include/Protocol/MQTT/MQTT.hpp:2971 | `computePacketSize(false)` is a `uint32` |
| Packet.ComputedSizes | include/Protocol/MQTT/MQTT.hpp:2963-2972 | after `computePacketSize(true)` the remaining length counts the three parts, `getSize()` is the header, length field and parts, and `computePacketSize(false)` gives back the payload's size |
| Packet.FrameBytesSize | include/Protocol/MQTT/MQTT.hpp:2974-2986 | once the remaining length is computed, `copyInto` writes `getSize()` bytes, given parts that write as many bytes as they count |
| Packet.ReadBody | include/Protocol/MQTT/MQTT.hpp:3003-3015 | the body read ends Done or, when a part reports more bytes than it was given, Overrun; a Done read never claims more than the body, it is always Done when the three parts are bounded, and it leaves the header byte and remaining length alone |
| Packet.ReadPacket | include/Protocol/MQTT/MQTT.hpp:2990-3016 | `readFrom` answers NotEnoughData, unchanged, below two bytes; a Done read never claims more bytes than it was given, and with bounded parts no read overruns |
| Packet.TruncatedRefused | include/Protocol/MQTT/MQTT.hpp:3000-3001 | a packet whose remaining length announces more bytes than follow is NotEnoughData, with the length stored |
| Packet.ShortcutFrames | include/Protocol/MQTT/MQTT.hpp:3003-3005 | a fixed field answering Shortcut ends the read with the whole remaining length consumed, properties and payload untouched |
| Packet.FixedOverrun | include/Protocol/MQTT/MQTT.hpp:3003-3006 | a fixed field that reports more bytes than the body holds makes the packet read overrun, with the field as it read it, and such a field is not bounded |
| Packet.BodyRoundTrip | include/Protocol/MQTT/MQTT.hpp:3003-3015 | when each part reads back its own bytes, the body reads back whole and consumes the remaining length |
| Packet.FrameRoundTrip | include/Protocol/MQTT/MQTT.hpp:2978-3016 | reading back what `copyInto` wrote after `computePacketSize(true)` consumes `getSize()` bytes and gives the same header and remaining length and the parts' own read-backs |
| Packet.ControlPacket.constructor | include/Protocol/MQTT/MQTT.hpp:3018-3023 | a new packet holds the header byte of its type with the declared flags and a zero remaining length, and passes `check` exactly when its three parts do |
| Packet.ControlPacket.ComputePacketSize | include/Protocol/MQTT/MQTT.hpp:2963-2972 | with the payload: the remaining length becomes the parts' size modulo 2^32, and the packet's size is returned when that size is encodable; without it: the size left for the payload, nothing changed; the parts are never changed |
| Packet.ControlPacket.CopyInto | include/Protocol/MQTT/MQTT.hpp:2978-2986 | the buffer starts with the header byte, the length field and the parts' bytes, and nothing after them changes; their count is returned |
| Packet.ControlPacket.ReadBodyFrom | include/Protocol/MQTT/MQTT.hpp:3003-3015 | the parts are read in turn as `ReadBody` says, overrun included |
| Packet.ControlPacket.ReadFrom | include/Protocol/MQTT/MQTT.hpp:2990-3016 | an overrun is reported exactly when `ReadPacket` on the old fields overruns; otherwise the status returned is the one it gives, and the fields left are its fields in both cases |
| Packet.SizedCheck | include/Protocol/MQTT/MQTT.hpp:3018-3021 | the header byte and an encodable remaining length of a built packet never fail `check`: it holds exactly when the three parts' checks do |
| Packet.CheckedHeaderScans | include/Protocol/MQTT/MQTT.hpp:932-943 | the bytes of a packet whose header passes `check` are framed by the corrected pre-scan as header, length field and remaining length, while the pre-scan as written refuses the CONNACK byte that passes `check` |
| Packet.PingRead | include/Protocol/MQTT/MQTT.hpp:3047-3053 | NotEnoughData exactly below two bytes, with the header unchanged; otherwise the header byte is stored, and the read is BadData exactly when the second byte is not 0, else two bytes |
| Packet.PingRoundTrip | include/Protocol/MQTT/MQTT.hpp:3040-3053 | what a PING packet wrote reads back as its header byte, two bytes consumed, whatever follows |
| Packet.PingReadChecks | include/Protocol/MQTT/MQTT.hpp:3047-3055 | after a read of two bytes or more, `check` holds exactly when the first byte's flags are 0, whatever type its high nibble names; a shorter read keeps the old answer |
| Packet.PingPacket.constructor | include/Protocol/MQTT/MQTT.hpp:3031 | a PINGREQ or PINGRESP packet holds its type's header byte, which passes `check` |
| Packet.PingPacket.ComputePacketSize | include/Protocol/MQTT/MQTT.hpp:3034-3036 | the size is always that of the two bytes written |
| Packet.PingPacket.CopyInto | include/Protocol/MQTT/MQTT.hpp:3040-3043 | the buffer starts with the header byte and a zero, nothing else changes, and 2 is returned |
| Packet.PingPacket.ReadFrom | include/Protocol/MQTT/MQTT.hpp:3047-3053 | the status and the header left are those `PingRead` gives |
| Acks.ReadProps | include/Protocol/MQTT/MQTT.hpp:1698-1717 | `Properties::readFrom` consumes the length field and the length it announces, never more than it was given |
| Acks.PartsBounded | include/Protocol/MQTT/MQTT.hpp:1698-1717 | the properties, the empty payload and the corrected identifier-and-reason field never report more bytes than they are given |
| Acks.PubAckOverrun | include/Protocol/MQTT/MQTT.hpp:2322-2329 | the PUBACK bytes 0x40 0x01 0x12 0x34 overrun as written: the field reads its reason past the buffer and reports 3 bytes of the 2 left, so the field is not bounded |
| Acks.PubAckTruncatedFixed | include/Protocol/MQTT/MQTT.hpp:2322-2329 | with the corrected field the same bytes are NotEnoughData, with the identifier 0x1234 read and the reason code kept |
| Acks.AckRoundTrip | include/Protocol/MQTT/MQTT.hpp:2978-3016 | an acknowledgement written after `computePacketSize(true)` reads back whole with the corrected field: `getSize()` bytes, the same header, identifier and reason code, and the same properties, whatever follows |
| Topics.UnsubscribeReadBackChecks | include/Protocol/MQTT/MQTT.hpp:2058-2075 | under the corrected whole-chain check, every chain read back from topics of at least one byte is valid |

## Left out

- Diagnostic output under `MQTTDumpCommunication` (`dump`, `MQTTStringPrintf`, `MQTTHexDump`): formatting and logging only.
- The client engine (`Network/Clients/MQTT.hpp`) is not part of this model; `test/main/main.cpp` only brings up Wi-Fi, tasks and a broker connection, which is I/O.
- Heap and lifetime machinery: `Platform::malloc`/`safeRealloc` are taken to succeed, and copy/move constructors, destructors, `suicide` and `StackSubscribeTopic` are not modelled.
- Payloads.SetExpectedSize: the allocation failure branch (`size = 0` when `safeRealloc` returns null) is not modelled, because allocation is taken to succeed; and the bytes a growing block gains are zeros in the model, where `safeRealloc` leaves them indeterminate (every reader overwrites them before use).
- Linked lists (`PropertyListNode`, `SubscribeTopic::next`, `UnsubscribeTopic::next`) are sequences, so node sharing and aliasing between lists are not captured; the chains' `append` and `count` are sequence concatenation and length and have no member of their own.
- The static singletons (`MMProp`, `MemMappedPropertyRegistry`, `PropertyRegistry::getInstance`, `registerAllProperties`) are constant functions from code to value kind or visitor; their thread-local storage variant is concurrency and is left out.
- Bit-fields are modelled in their little-endian layout only (`IsBigEndian` unset); `#pragma pack` and `memcpy` into packed structures are written as explicit byte arithmetic.
- `isInArray` is not part of this model: `checkClientID` is taken to test membership among the 62 letters and digits of its table, without the table's terminating zero.
- The configuration macros are fixed: validation compiled in (`MQTTAvoidValidation` unset) and packets holding owning values; the zero-copy variants are modelled at the level of the views and `PropertiesView`, not assembled into packets.
- `ControlPacket<type>` is modelled once, generically, over three parts given as records of their operations (`Part`); it is not instantiated for each packet type, and the parts' `setFlags` wiring is modelled where a part reads it (the PUBLISH field's flags, the CONNECT payload's `PartsOf`).
- Packet.ControlPacket.ReadFrom: the fields are written once, at each return, to what the reading function gives; the intermediate states between two field updates are not modelled.
- Packet.ControlPacket.ComputePacketSize: the value returned with the payload is stated only when the parts' size fits a Variable Byte Integer; beyond that the stored length is stated but the returned size is not.
- Packet.ExpectedSize: only its range is stated; its value is `ExpectedPayloadSize` on the fields' sizes, whose contract gives the wrap-around.
- Packet.FrameRoundTrip: requires a remaining length that fits three bytes, because `VBInt::readFrom` refuses every four-byte length (see Findings).
- Payloads.ReadWill, Payloads.ReadConnectPayload, Packet.ReadBody, Packet.ReadPacket: their own contracts state only the status bounds (and, for the two packet reads, when no overrun can happen); what they read is stated by the round-trip lemmas beside them.
- Payloads.ReadConnectPayload, Payloads.ConnectPayloadRoundTrip, Payloads.CheckConnectPayload (and `FilteredSize`, `ConnectPayloadSize`, `EncodeConnectPayload`): require a will message present whenever the CONNECT field's will flag is set (`WillPresent`). The constructor leaves `willMessage` null (include/Protocol/MQTT/MQTT.hpp:2672), and `readFrom`, `copyInto`, `getFilteredSize` and `checkWillProperties` dereference it without a test once the flag is set (2633, 2618, 2681, 2606; the comment at 2666 expects a correctly constructed object): a null will under a set flag is undefined behaviour, which the model leaves to its callers.
- Packet.ControlPacket.ReadFrom, Packet.ReadPacket: after an overrun (a part reporting more bytes than it was given, see Findings) the source goes on reading past the buffer with a wrapped-around length; the model stops there, reports the overrun and keeps the fields read so far, and the status the source would return is not modelled.

## Findings

| source | as written | input that shows it | evidently intended | confidence | as-written member | corrected member |
|---|---|---|---|---|---|---|
| include/Protocol/MQTT/MQTT.hpp:935-936 | `checkHeader`'s flag table expects 0xF for CONNACK | the CONNACK header byte 0x20 that the library itself writes, followed by a zero length, gives BadData | the flags the header typedefs declare: 0 for CONNACK | not executed | Header.CheckHeaderRefusesConnAck | Header.CheckHeaderFixedFrames |
| include/Protocol/MQTT/MQTT.hpp:935-936 | the flags 2 are expected at PUBREC, PUBCOMP and SUBACK | the PUBREL byte 0x62 gives BadData, while the PUBREC byte 0x52 passes | flags 2 for PUBREL, SUBSCRIBE and UNSUBSCRIBE | not executed | Header.CheckHeaderSwapsPubRel | Header.CheckHeaderFixedFrames |
| include/Protocol/MQTT/MQTT.hpp:687 | `VBInt::readFrom` returns BadData whenever four bytes were read | 0x80 0x80 0x80 0x01, the encoding of 2097152, gives BadData | four-byte encodings up to 268435455 accepted | not executed | VarInt.ReadRejectsFourBytes | VarInt.ReadFixedRoundTrip |
| include/Protocol/MQTT/MQTT.hpp:710-714 | `MappedVBInt::acceptBuffer` stops at the buffer's end without NotEnoughData | the one byte 0x80 is accepted as a complete encoding of 0 | NotEnoughData for an unterminated encoding | not executed | VarInt.AcceptTakesTruncated | VarInt.AcceptFixedRoundTrip |
| include/Protocol/MQTT/MQTT.hpp:2384 | DISCONNECT and AUTH read the reason code from `buffer[1]` | DISCONNECT 0x8E with empty properties reads as reason 0x00 | the reason from `buffer[0]`, where `copyInto` writes it | not executed | Fields.ReasonFieldMisreadExample | Fields.ReasonFieldRoundTrip |
| include/Protocol/MQTT/MQTT.hpp:1606 | `PropertyListNode::check` stops before the last node | a list of one Content Type property with a zero length and a non-null pointer passes | every node checked | not executed | PropertyList.CheckSkipsLast | PropertyList.CheckAsWrittenWeaker |
| include/Protocol/MQTT/MQTT.hpp:1719 | `length.check() && head ? head->check() : true` binds as a conditional | a length whose encoding is empty, which fails its own check, passes with any list | the length and the nodes both checked | not executed | PropertyList.CheckIgnoresLength | PropertyList.CheckAsWrittenWeaker |
| include/Protocol/MQTT/MQTT.hpp:2001 | `SubscribeTopic::check` tests `retainAsPublished != 3`, a one-bit field | options byte 0x30 (Retain Handling 3) passes | Retain Handling 3 refused | not executed | Topics.SubscribeCheckMissesRetainHandling | Topics.NewSubscribeTopicCheck |
| include/Protocol/MQTT/MQTT.hpp:2075 | `UnsubscribeTopic::check` checks its own topic and not the next nodes | a chain whose second topic has length 1 and a null pointer passes | every topic of the chain checked, as `SubscribeTopic::check` does | not executed | Topics.UnsubscribeCheckSkipsTail | Topics.UnsubscribeReadBackChecks |
| include/Protocol/MQTT/MQTT.hpp:469-475 | a view read from an empty string gets a non-null pointer with length 0 | the bytes 0x00 0x00 read as a view that fails its own `check` | every view `readFrom` accepts is valid | not executed | Primitives.EmptyViewFailsCheck | Primitives.ReadViewPassesCheckFixed |
| include/Protocol/MQTT/MQTT.hpp:2326-2329 | `FixedFieldWithIDAndReason::readFrom` reads `buffer[2]` and returns 3 after testing only for two bytes; `ControlPacket::readFrom` then takes 3 off a `bufLength` of 2 | the PUBACK 0x40 0x01 0x12 0x34 (remaining length 1): the reason comes from past the buffer and the packet read overruns | NotEnoughData before the third byte is read | not executed | Acks.PubAckOverrun | Acks.AckRoundTrip |
| include/Protocol/MQTT/MQTT.hpp:1891-1894 | `checkPropertiesFor` ends its walk at a code without a visitor and returns true | the view bytes 0x02 0x04 0x00 (code 0x04, allowed nowhere) pass as CONNECT properties | a walk that stops before the end refused | not executed | PropView.UnknownCodeExample | PropView.CheckPropertiesForFixed |
