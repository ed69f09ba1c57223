/** The acknowledgements of a QoS 1 or 2 publication, PUBACK, PUBREC,
    PUBREL and PUBCOMP (sections 3.4 to 3.7 of the OASIS MQTT Version 5.0
    standard), as `ControlPacket<type>` frames them: the fixed field
    holding the packet identifier and the reason code, the owning
    properties, and an empty payload (`EmptySerializable`). These are the
    three parts `Packet` frames, given here with their own operations. */
module Acks {
  import opened Wire
  import opened VarInt
  import opened Header
  import opened PropertyCodec
  import opened PropertyList
  import opened Fields
  import opened Packet

  /** The fields of a `Properties`: its length and its list. */
  datatype PropsField = PropsField(length: VBInt, list: seq<Property>)

  /** `Properties::getSize`: the length's own size plus its value. */
  function PropsSize(x: PropsField): nat
  {
    x.length.Size() + x.length.Decoded()
  }

  /** `Properties::copyInto`: the length, then each property. */
  function PropsBytes(x: PropsField): seq<byte>
  {
    x.length.Bytes() + ListBytes(x.list)
  }

  /** `Properties::readFrom` with the registry's `unserialize`; the size
      the framing passes to the other parts is not used. */
  function ReadProps(x: PropsField, e: nat, b: seq<byte>): (res: (Status, PropsField))
    ensures res.0.Ok? ==> res.0.n == res.1.length.Size() + res.1.length.Decoded() <= |b|
  {
    UnserializeReader();
    var r := PropertiesRead(Unserialize, x.list, b);
    (r.0, PropsField(r.1, r.2))
  }

  /** `checkPropertiesFor(type)`: the list's `check`, then every code
      allowed in the packet type. */
  predicate PropsCheckFor(x: PropsField, ctype: nat)
  {
    CheckAsWritten(x.length, x.list) && AllAllowed(x.list, ctype)
  }

  /** The properties of a packet of type `ctype`, as a part. */
  function PropsPart(ctype: nat): Part<PropsField>
  {
    Part(PropsSize, PropsBytes, ReadProps, x => PropsCheckFor(x, ctype))
  }

  /** `EmptySerializable`: no byte written, none read, always valid. */
  const EmptyPart: Part<()> := Part(x => 0, x => [], (x, e, b) => (Ok(0), x), x => true)

  /** `FixedFieldWithIDAndReason` as written, told the remaining length by
      `setRemainingLength`; `past` stands for the byte past the buffer. */
  function IDReasonPart(past: byte): Part<IDReasonField>
  {
    Part(x => 3, (x: IDReasonField) => x.Encode(),
         (x: IDReasonField, e: nat, b: seq<byte>) => ReadIDReasonField(x.(remLength := e), b, past), x => true)
  }

  /** The same field with the corrected read. */
  const IDReasonPartFixed: Part<IDReasonField> :=
    Part(x => 3, (x: IDReasonField) => x.Encode(),
         (x: IDReasonField, e: nat, b: seq<byte>) => ReadIDReasonFieldFixed(x.(remLength := e), b), x => true)

  /** The properties and the empty payload never claim more bytes than
      they are given, and neither does the corrected fixed field. */
  lemma PartsBounded(ctype: nat)
    ensures Bounded(PropsPart(ctype)) && Bounded(EmptyPart) && Bounded(IDReasonPartFixed)
  {
    forall x, e, b ensures ReadsWithin(PropsPart(ctype), x, e, b) {
      var r := ReadProps(x, e, b);
    }
    forall x, e, b ensures ReadsWithin(EmptyPart, x, e, b) {
    }
    forall x, e, b ensures ReadsWithin(IDReasonPartFixed, x, e, b) {
      var r := ReadIDReasonFieldFixed(x.(remLength := e), b);
    }
  }

  /** The PUBACK `40 01 12 34`: a remaining length of 1, then two bytes.
      As written, the fixed field reads the identifier 0x1234, then the
      reason from past the buffer, and reports 3 bytes out of the 2 left:
      the packet overruns its buffer, and the field is not bounded. */
  lemma PubAckOverrun(past: byte, s: Frame<IDReasonField, PropsField, ()>)
    ensures ReadPacket(IDReasonPart(past), PropsPart(PUBACK), EmptyPart, s, [0x40, 0x01, 0x12, 0x34])
         == Overrun(Frame(0x40, Assign(1), IDReasonField(0x1234, past, 1), s.props, s.payload))
    ensures !Bounded(IDReasonPart(past))
  {
    var body: seq<byte> := [0x12, 0x34];
    assert Digits(1) == [1];
    assert [0x40 as byte] + Digits(1) + body == [0x40, 0x01, 0x12, 0x34];
    IDReasonFieldOverrun(s.fixed.(remLength := 1), past);
    FixedOverrun(IDReasonPart(past), PropsPart(PUBACK), EmptyPart, s, 0x40, 1, body);
  }

  /** With the corrected field the same bytes are NotEnoughData, the
      identifier read and the reason code kept. */
  lemma PubAckTruncatedFixed(s: Frame<IDReasonField, PropsField, ()>)
    ensures ReadPacket(IDReasonPartFixed, PropsPart(PUBACK), EmptyPart, s, [0x40, 0x01, 0x12, 0x34])
         == Done(NotEnoughData, Frame(0x40, Assign(1), s.fixed.(packetID := 0x1234, remLength := 1), s.props, s.payload))
  {
    var body: seq<byte> := [0x12, 0x34];
    assert Digits(1) == [1];
    var buf := [0x40 as byte] + Digits(1) + body;
    assert buf == [0x40, 0x01, 0x12, 0x34];
    assert buf[1..] == Digits(1) + body && buf[2..] == body;
    ReadOfEncoding(1, body);
    hide ReadSpec, ExpectedSize, ReadIDReasonField;
    var r := ReadIDReasonFieldFixed(s.fixed.(remLength := 1), body);
    assert FromBigEndian(U16Bytes(r.1.packetID)) == FromBigEndian(body) == 0x1234;
  }

  /** An acknowledgement as `computePacketSize(true)` leaves it: the header
      byte `h`, the field `f`, the properties `ps` with their length, and
      the remaining length counting all three. */
  function AckFrame(h: byte, f: IDReasonField, ps: seq<Property>): Frame<IDReasonField, PropsField, ()>
    requires ListSize(ps) <= MaxSizeOn3Bytes
  {
    var props := PropsField(Assign(ListSize(ps)), ps);
    Frame(h, Assign(3 + EncodedSize(ListSize(ps)) + ListSize(ps)), f, props, ())
  }

  /** Helper: the properties of an acknowledgement read back. */
  lemma PropsReadBack(ctype: nat, x: PropsField, ps: seq<Property>, rest: seq<byte>)
    requires AllRoundTrip(ps) && ListSize(ps) <= MaxSizeOn3Bytes
    ensures var p := PropsField(Assign(ListSize(ps)), ps);
      PropsPart(ctype).read(x, 0, PropsBytes(p) + rest) == (Ok(PropsSize(p)), PropsField(p.length, NormalList(ps)))
      && |PropsBytes(p)| == PropsSize(p)
  {
    hide PropertiesRead, ListBytes, NormalList, ListSize, Assign, VBInt.Decoded, VBInt.Bytes, Digits, EncodedSize;
    var p := PropsField(Assign(ListSize(ps)), ps);
    UnserializeReader();
    PropertiesRoundTrip(Unserialize, x.list, ps, rest);
    assert AllFit(ps);
    assert PropsPart(ctype).read(x, 0, PropsBytes(p) + rest) == ReadProps(x, 0, PropsBytes(p) + rest);
  }

  /** Helper: the corrected fixed field, told a remaining length above 3,
      reads back its identifier and reason code. */
  lemma FixedReadBack(x: IDReasonField, f: IDReasonField, v: nat, rest: seq<byte>)
    requires v > 3
    ensures IDReasonPartFixed.read(x, v, f.Encode() + rest) == (Ok(3), f.(remLength := v))
  {
    IDReasonFieldRoundTrip(x.(remLength := v), f, rest, 0);
  }

  /** Reading back what `copyInto` wrote for an acknowledgement of type
      `ctype` whose properties read back, whatever follows: the whole
      packet is consumed, and the identifier, the reason code and the
      properties come back, the field told the remaining length. */
  lemma AckRoundTrip(ctype: nat, prev: Frame<IDReasonField, PropsField, ()>, h: byte, f: IDReasonField,
                     ps: seq<Property>, rest: seq<byte>)
    requires AllRoundTrip(ps) && 3 + EncodedSize(ListSize(ps)) + ListSize(ps) <= MaxSizeOn3Bytes
    ensures var s := AckFrame(h, f, ps);
      ReadPacket(IDReasonPartFixed, PropsPart(ctype), EmptyPart, prev, FrameBytes(IDReasonPartFixed, PropsPart(ctype), EmptyPart, s) + rest)
      == Done(Ok(FrameSize(s)), Frame(h, s.remLength, f.(remLength := s.remLength.Decoded()),
                                      PropsField(Assign(ListSize(ps)), NormalList(ps)), ()))
  {
    hide ReadPacket, FrameBytes, ReadBody;
    var fp, pp, qp := IDReasonPartFixed, PropsPart(ctype), EmptyPart;
    var s := AckFrame(h, f, ps);
    var v := PartsSize(fp, pp, qp, s);
    assert v == 3 + EncodedSize(ListSize(ps)) + ListSize(ps) == s.remLength.Decoded();
    var fb, pb, qb: seq<byte> := f.Encode(), PropsBytes(s.props), [];
    var p2 := PropsField(s.props.length, NormalList(ps));
    PropsReadBack(ctype, prev.props, ps, qb + rest);
    FixedReadBack(prev.fixed, f, v, pb + (qb + rest));
    assert qp.read(prev.payload, |qb|, qb + rest) == (Ok(|qb|), prev.payload);
    FrameRoundTrip(fp, pp, qp, prev, s, f.(remLength := v), p2, prev.payload, rest);
    assert prev.payload == ();
  }
}
