/** The fixed part of each variable header (`FixedField<type>`): what
    follows the fixed header and its remaining length, before the
    properties. CONNECT and CONNACK are copied as packed structures; the
    acknowledgement, DISCONNECT and AUTH fields accept a shortened packet
    (a `Shortcut`) according to the remaining length they are told; the
    PUBLISH field holds the topic name and a packet identifier present only
    for a QoS above 0. */
module Fields {
  import opened Wire
  import opened Primitives
  import opened Header

  /** A `uint16` packet identifier. */
  type PacketID = x: nat | x < 65536

  // CONNECT (section 3.1.2 of the OASIS MQTT Version 5.0 standard)

  /** `expectedProtocolName`: the string "MQTT" with its 2-byte length. */
  const ProtocolName: seq<byte> := [0, 4, 0x4D, 0x51, 0x54, 0x54]

  /** The number of bytes of the packed CONNECT field. */
  const ConnectFieldSize: nat := 10

  /** Bit `i` of `x`, bit 0 the least significant. */
  function Bit(x: nat, i: nat): (b: nat)
    ensures b < 2
  {
    if i == 0 then x % 2 else Bit(x / 2, i - 1)
  }

  /** `FixedField<CONNECT>`: the protocol name, the version, the connect
      flags byte and the keep alive in seconds. */
  datatype ConnectField = ConnectField(protocolName: seq<byte>, protocolVersion: byte, flags: byte, keepAlive: nat) {

    /** The bit-fields of `flags`, bit 0 first: reserved, clean start,
        will, will QoS (two bits), will retain, password, user name. */
    function ReservedBit(): nat { Bit(flags as nat, 0) }
    function CleanStart(): bool { Bit(flags as nat, 1) == 1 }
    function WillFlag(): bool { Bit(flags as nat, 2) == 1 }
    function WillQoS(): nat { Bit(flags as nat, 3) + 2 * Bit(flags as nat, 4) }
    function WillRetain(): bool { Bit(flags as nat, 5) == 1 }
    function PasswordFlag(): bool { Bit(flags as nat, 6) == 1 }
    function UsernameFlag(): bool { Bit(flags as nat, 7) == 1 }

    /** A value the packed structure can hold. */
    predicate Storable() { |protocolName| == 6 && keepAlive < 65536 }

    /** `copyInto`: the structure's bytes, the keep alive in network order. */
    function Encode(): (r: seq<byte>)
      requires Storable()
      ensures |r| == ConnectFieldSize
    {
      protocolName + [protocolVersion, flags] + U16Bytes(keepAlive)
    }

    /** `check`: reserved bit clear, will QoS below 3, protocol name "MQTT". */
    predicate Check() { ReservedBit() == 0 && WillQoS() < 3 && protocolName == ProtocolName }
  }

  /** The default constructor: protocol "MQTT", version 5, no flag, no
      keep alive. */
  const DefaultConnectField: ConnectField := ConnectField(ProtocolName, 5, 0, 0)

  /** The default field passes `check` and sets no flag. */
  lemma DefaultConnectFieldChecks()
    ensures DefaultConnectField.Check() && DefaultConnectField.Storable()
    ensures !DefaultConnectField.CleanStart() && !DefaultConnectField.WillFlag()
    ensures !DefaultConnectField.UsernameFlag() && !DefaultConnectField.PasswordFlag()
  {
  }

  function BitOf(b: bool): nat { if b then 1 else 0 }

  /** The flags byte with the given bit-fields and the reserved bit clear,
      as the bit-field assignments build it. */
  function ConnectFlags(cleanStart: bool, will: bool, willQoS: nat, willRetain: bool,
                        password: bool, username: bool): (b: byte)
    requires willQoS < 4
    ensures var f := ConnectField(ProtocolName, 5, b, 0);
      f.ReservedBit() == 0 && f.CleanStart() == cleanStart && f.WillFlag() == will
      && f.WillQoS() == willQoS && f.WillRetain() == willRetain
      && f.PasswordFlag() == password && f.UsernameFlag() == username
  {
    var x7 := BitOf(username);
    var x6 := BitOf(password) + 2 * x7;
    var x5 := BitOf(willRetain) + 2 * x6;
    var x4 := willQoS / 2 + 2 * x5;
    var x3 := willQoS % 2 + 2 * x4;
    var x2 := BitOf(will) + 2 * x3;
    var x1 := BitOf(cleanStart) + 2 * x2;
    var x0 := 2 * x1;
    BitsOfByte(x0, x1, x2, x3, x4, x5, x6, x7);
    x0 as byte
  }

  /** Helper: a number written bit by bit, each `x(i)` being bit `i` plus
      twice `x(i+1)`, has those bits. */
  lemma BitsOfByte(x0: nat, x1: nat, x2: nat, x3: nat, x4: nat, x5: nat, x6: nat, x7: nat)
    requires x7 < 2 && x0 / 2 == x1 && x1 / 2 == x2 && x2 / 2 == x3 && x3 / 2 == x4
    requires x4 / 2 == x5 && x5 / 2 == x6 && x6 / 2 == x7
    ensures x0 < 256
    ensures Bit(x0, 0) == x0 % 2 && Bit(x0, 1) == x1 % 2 && Bit(x0, 2) == x2 % 2 && Bit(x0, 3) == x3 % 2
    ensures Bit(x0, 4) == x4 % 2 && Bit(x0, 5) == x5 % 2 && Bit(x0, 6) == x6 % 2 && Bit(x0, 7) == x7
  {
    HighBits(x0, x1, x2, x3, x4, x5, x6, x7);
    assert Bit(x0, 3) == Bit(x1, 2) == Bit(x2, 1) == Bit(x3, 0);
    assert Bit(x0, 2) == Bit(x1, 1) == Bit(x2, 0);
    assert Bit(x0, 1) == Bit(x1, 0);
  }

  /** Helper: the top four bits of `BitsOfByte`. */
  lemma HighBits(x0: nat, x1: nat, x2: nat, x3: nat, x4: nat, x5: nat, x6: nat, x7: nat)
    requires x7 < 2 && x0 / 2 == x1 && x1 / 2 == x2 && x2 / 2 == x3 && x3 / 2 == x4
    requires x4 / 2 == x5 && x5 / 2 == x6 && x6 / 2 == x7
    ensures Bit(x0, 4) == x4 % 2 && Bit(x0, 5) == x5 % 2 && Bit(x0, 6) == x6 % 2 && Bit(x0, 7) == x7
  {
    assert Bit(x0, 7) == Bit(x1, 6) == Bit(x2, 5) == Bit(x3, 4) == Bit(x4, 3) == Bit(x5, 2) == Bit(x6, 1) == Bit(x7, 0);
    assert Bit(x0, 6) == Bit(x1, 5) == Bit(x2, 4) == Bit(x3, 3) == Bit(x4, 2) == Bit(x5, 1) == Bit(x6, 0);
    assert Bit(x0, 5) == Bit(x1, 4) == Bit(x2, 3) == Bit(x3, 2) == Bit(x4, 1) == Bit(x5, 0);
    assert Bit(x0, 4) == Bit(x1, 3) == Bit(x2, 2) == Bit(x3, 1) == Bit(x4, 0);
  }

  /** Every flags byte is its bit-fields put back together. */
  lemma ConnectFlagsLayout(f: ConnectField)
    ensures f.flags as nat
         == ConnectFlags(f.CleanStart(), f.WillFlag(), f.WillQoS(), f.WillRetain(),
                         f.PasswordFlag(), f.UsernameFlag()) as nat + f.ReservedBit()
  {
    var x0 := f.flags as nat;
    var x1, x2, x3, x4 := x0 / 2, x0 / 2 / 2, x0 / 2 / 2 / 2, x0 / 2 / 2 / 2 / 2;
    var x5, x6, x7 := x4 / 2, x4 / 2 / 2, x4 / 2 / 2 / 2;
    BitsOfByte(x0, x1, x2, x3, x4, x5, x6, x7);
    assert x7 == BitOf(f.UsernameFlag());
    assert x6 == BitOf(f.PasswordFlag()) + 2 * x7;
    assert x5 == BitOf(f.WillRetain()) + 2 * x6;
    assert x4 == f.WillQoS() / 2 + 2 * x5;
    assert x3 == f.WillQoS() % 2 + 2 * x4;
    assert x2 == BitOf(f.WillFlag()) + 2 * x3;
    assert x1 == BitOf(f.CleanStart()) + 2 * x2;
    assert x0 == 2 * x1 + f.ReservedBit();
  }

  /** `check` holds exactly when the protocol name is "MQTT", the will QoS
      is below 3 and the flags byte is its bit-fields put back together with
      the reserved bit clear. */
  lemma ConnectCheckMeans(f: ConnectField)
    ensures f.Check()
        <==> f.protocolName == ProtocolName && f.WillQoS() < 3
             && f.flags == ConnectFlags(f.CleanStart(), f.WillFlag(), f.WillQoS(), f.WillRetain(),
                                        f.PasswordFlag(), f.UsernameFlag())
  {
    ConnectFlagsLayout(f);
  }

  /** `MemoryMapped<FixedField<CONNECT>>::readFrom`: NotEnoughData before
      ten bytes, otherwise the ten bytes are the new field. */
  function ReadConnectField(prev: ConnectField, buf: seq<byte>): (res: (Status, ConnectField))
    ensures |buf| < ConnectFieldSize ==> res.0 == NotEnoughData && res.1 == prev
    ensures |buf| >= ConnectFieldSize ==>
      res.0 == Ok(ConnectFieldSize) && res.1.Storable() && res.1.Encode() == buf[..ConnectFieldSize]
  {
    if |buf| < ConnectFieldSize then (NotEnoughData, prev)
    else
      var f := ConnectField(buf[..6], buf[6], buf[7], ReadU16(buf, 8));
      assert buf[..ConnectFieldSize] == buf[..6] + [buf[6], buf[7]] + buf[8..10];
      (Ok(ConnectFieldSize), f)
  }

  /** Reading back what `copyInto` wrote gives the same field. */
  lemma ConnectFieldRoundTrip(prev: ConnectField, f: ConnectField, rest: seq<byte>)
    requires f.Storable()
    ensures var r := ReadConnectField(prev, f.Encode() + rest);
      r.0 == Ok(ConnectFieldSize) && r.1 == f
  {
    var b := f.Encode() + rest;
    var g := ReadConnectField(prev, b).1;
    assert b[..6] == f.protocolName && b[6] == f.protocolVersion && b[7] == f.flags;
    assert b[8..10] == U16Bytes(f.keepAlive);
    assert g.keepAlive == f.keepAlive;
  }

  // CONNACK (section 3.2.2)

  /** `FixedField<CONNACK>`: the acknowledge flags and the reason code. */
  datatype ConnAckField = ConnAckField(acknowledgeFlag: byte, reasonCode: byte) {

    /** `copyInto`: the two bytes as they are. */
    function Encode(): seq<byte> { [acknowledgeFlag, reasonCode] }

    /** `check`: `(acknowledgeFlag & 0xFE) == 0`, no bit but bit 0 set. */
    predicate Check() { acknowledgeFlag as nat / 2 == 0 }
  }

  /** Only the session present bit may be set: the flags are 0 or 1. */
  lemma ConnAckCheckIsSessionPresentOnly(f: ConnAckField)
    ensures f.Check() <==> f.acknowledgeFlag == 0 || f.acknowledgeFlag == 1
  {
  }

  /** `MemoryMapped<FixedField<CONNACK>>::readFrom`. */
  function ReadConnAckField(prev: ConnAckField, buf: seq<byte>): (res: (Status, ConnAckField))
    ensures |buf| < 2 ==> res.0 == NotEnoughData && res.1 == prev
    ensures |buf| >= 2 ==> res.0 == Ok(2) && res.1.Encode() == buf[..2]
  {
    if |buf| < 2 then (NotEnoughData, prev) else (Ok(2), ConnAckField(buf[0], buf[1]))
  }

  /** Reading back what `copyInto` wrote gives the same field. */
  lemma ConnAckFieldRoundTrip(prev: ConnAckField, f: ConnAckField, rest: seq<byte>)
    ensures ReadConnAckField(prev, f.Encode() + rest) == (Ok(2), f)
  {
  }

  // Packet identifier (sections 2.2.1 and 3.8.2)

  /** `FixedFieldWithID`: the packet identifier, and the remaining length
      `setRemainingLength` stored (2 by default). */
  datatype IDField = IDField(packetID: PacketID, remLength: nat) {

    /** `copyInto`: the identifier in network order. */
    function Encode(): (r: seq<byte>)
      ensures |r| == 2
    {
      U16Bytes(packetID)
    }
  }

  const DefaultIDField: IDField := IDField(0, 2)

  /** `FixedFieldWithID::readFrom`: NotEnoughData before two bytes;
      otherwise the identifier is read, and a remaining length of exactly
      2 (nothing after the identifier) is reported as a Shortcut. */
  function ReadIDField(prev: IDField, buf: seq<byte>): (res: (Status, IDField))
    ensures |buf| < 2 ==> res.0 == NotEnoughData && res.1 == prev
    ensures |buf| >= 2 ==>
      res.1.remLength == prev.remLength
      && res.1.Encode() == buf[..2]
      && (res.0 == Shortcut <==> prev.remLength == 2) && (res.0 != Shortcut ==> res.0 == Ok(2))
  {
    if |buf| < 2 then (NotEnoughData, prev)
    else
      var f := prev.(packetID := ReadU16(buf, 0));
      if prev.remLength == 2 then (Shortcut, f) else (Ok(2), f)
  }

  /** The identifier reads back, whether a Shortcut ends the packet there
      or properties follow. */
  lemma IDFieldRoundTrip(prev: IDField, f: IDField, rest: seq<byte>)
    ensures var r := ReadIDField(prev, f.Encode() + rest);
      r.1.packetID == f.packetID && r.0 == (if prev.remLength == 2 then Shortcut else Ok(2))
  {
    var b := f.Encode() + rest;
    assert b[..2] == f.Encode();
    assert FromBigEndian(U16Bytes(ReadIDField(prev, b).1.packetID)) == FromBigEndian(U16Bytes(f.packetID));
  }

  // Packet identifier and reason code (section 3.4.2)

  /** `FixedFieldWithIDAndReason`: identifier, reason code, and the
      remaining length told (3 by default). */
  datatype IDReasonField = IDReasonField(packetID: PacketID, reasonCode: byte, remLength: nat) {

    /** `copyInto`: the identifier in network order, then the reason. */
    function Encode(): (r: seq<byte>)
      ensures |r| == 3
    {
      U16Bytes(packetID) + [reasonCode]
    }
  }

  const DefaultIDReasonField: IDReasonField := IDReasonField(0, 0, 3)

  /** `FixedFieldWithIDAndReason::readFrom`: NotEnoughData before two
      bytes; a remaining length of 2 is a Shortcut without reason code
      (which keeps its value); otherwise the reason is the third byte (read
      past a 2-byte buffer: `past`), and a remaining length of 3 is a
      Shortcut without properties. */
  function ReadIDReasonField(prev: IDReasonField, buf: seq<byte>, past: byte): (res: (Status, IDReasonField))
    ensures |buf| < 2 ==> res.0 == NotEnoughData && res.1 == prev
    ensures |buf| >= 2 ==>
      res.1.remLength == prev.remLength
      && U16Bytes(res.1.packetID) == buf[..2]
      && (res.0 == Shortcut <==> prev.remLength == 2 || prev.remLength == 3)
      && (res.0 != Shortcut ==> res.0 == Ok(3))
      && (prev.remLength == 2 ==> res.1.reasonCode == prev.reasonCode)
      && (prev.remLength != 2 ==> res.1.reasonCode == Peek(buf, 2, past))
  {
    if |buf| < 2 then (NotEnoughData, prev)
    else
      var f := prev.(packetID := ReadU16(buf, 0));
      if prev.remLength == 2 then (Shortcut, f)
      else
        var g := f.(reasonCode := Peek(buf, 2, past));
        if prev.remLength == 3 then (Shortcut, g) else (Ok(3), g)
  }

  /** Identifier and reason read back from a field followed by its
      properties (remaining length above 3) or by nothing (exactly 3). */
  lemma IDReasonFieldRoundTrip(prev: IDReasonField, f: IDReasonField, rest: seq<byte>, past: byte)
    requires prev.remLength >= 3
    ensures var r := ReadIDReasonField(prev, f.Encode() + rest, past);
      r.1.packetID == f.packetID && r.1.reasonCode == f.reasonCode
      && r.0 == (if prev.remLength == 3 then Shortcut else Ok(3))
  {
    var b := f.Encode() + rest;
    assert b[..2] == U16Bytes(f.packetID) && b[2] == f.reasonCode;
    assert FromBigEndian(U16Bytes(ReadIDReasonField(prev, b, past).1.packetID)) == FromBigEndian(U16Bytes(f.packetID));
  }

  /** With a remaining length of 2 only the identifier is read: the
      reason code is the one the field held (0 from the constructor),
      the "Success" section 3.4.2.1 says an absent code means. */
  lemma IDReasonFieldShortcut(f: IDReasonField, rest: seq<byte>, past: byte)
    ensures var r := ReadIDReasonField(DefaultIDReasonField.(remLength := 2), f.Encode()[..2] + rest, past);
      r.0 == Shortcut && r.1.packetID == f.packetID && r.1.reasonCode == 0
  {
    var b := f.Encode()[..2] + rest;
    assert b[..2] == U16Bytes(f.packetID);
    var g := ReadIDReasonField(DefaultIDReasonField.(remLength := 2), b, past).1;
    assert FromBigEndian(U16Bytes(g.packetID)) == FromBigEndian(U16Bytes(f.packetID));
  }

  /** As written, a remaining length other than 2 or 3 over a two-byte
      buffer reads the reason code past the end and reports 3 bytes read
      out of the 2 given. */
  lemma IDReasonFieldOverrun(prev: IDReasonField, past: byte)
    requires prev.remLength == 1
    ensures ReadIDReasonField(prev, [0x12, 0x34], past) == (Ok(3), IDReasonField(0x1234, past, 1))
  {
    assert U16Bytes(0x1234) == [0x12, 0x34];
    FromToBigEndian(0x1234, 2);
  }

  /** The read the layout of section 3.4.2 calls for: the reason code is
      read only when a third byte is there, and otherwise the field is
      NotEnoughData. It never reports more bytes than it was given, and
      agrees with the read as written wherever that one stays inside the
      buffer. */
  function ReadIDReasonFieldFixed(prev: IDReasonField, buf: seq<byte>): (res: (Status, IDReasonField))
    ensures res.0.Ok? ==> res.0.n <= |buf|
    ensures forall past: byte :: |buf| != 2 || prev.remLength == 2 ==> res == ReadIDReasonField(prev, buf, past)
    ensures |buf| == 2 && prev.remLength != 2 ==>
      res.0 == NotEnoughData && U16Bytes(res.1.packetID) == buf && res.1.reasonCode == prev.reasonCode
      && res.1.remLength == prev.remLength
  {
    if |buf| < 2 then (NotEnoughData, prev)
    else
      var f := prev.(packetID := ReadU16(buf, 0));
      if prev.remLength == 2 then (Shortcut, f)
      else if |buf| < 3 then (NotEnoughData, f)
      else
        var g := f.(reasonCode := buf[2]);
        if prev.remLength == 3 then (Shortcut, g) else (Ok(3), g)
  }

  // DISCONNECT and AUTH (sections 3.14.2 and 3.15.2)

  /** `FixedField<DISCONNECT>` and `FixedField<AUTH>`: the reason code and
      the remaining length told (1 by default). */
  datatype ReasonField = ReasonField(reasonCode: byte, remLength: nat) {

    /** `copyInto`: the reason code. */
    function Encode(): seq<byte> { [reasonCode] }
  }

  const DefaultReasonField: ReasonField := ReasonField(0, 1)

  /** `FixedField<DISCONNECT>::readFrom`, as written: a remaining length of
      0 is a Shortcut with reason 0; otherwise the reason code is taken
      from the SECOND byte (`past` when the buffer holds one byte); a
      remaining length of 1 is a Shortcut, anything longer reports one
      byte read. The buffer's length is never consulted. */
  function ReadDisconnectField(prev: ReasonField, buf: seq<byte>, past: byte): (res: (Status, ReasonField))
    ensures res.1.remLength == prev.remLength
    ensures prev.remLength == 0 ==> res.0 == Shortcut && res.1.reasonCode == 0
    ensures prev.remLength > 0 ==>
      res.1.reasonCode == Peek(buf, 1, past) && res.0 == (if prev.remLength == 1 then Shortcut else Ok(1))
  {
    if prev.remLength == 0 then (Shortcut, prev.(reasonCode := 0))
    else
      var f := prev.(reasonCode := Peek(buf, 1, past));
      if prev.remLength == 1 then (Shortcut, f) else (Ok(1), f)
  }

  /** `FixedField<AUTH>::readFrom`, as written: the same, without the
      Shortcut for a remaining length of 1. */
  function ReadAuthField(prev: ReasonField, buf: seq<byte>, past: byte): (res: (Status, ReasonField))
    ensures res.1.remLength == prev.remLength
    ensures prev.remLength == 0 ==> res.0 == Shortcut && res.1.reasonCode == 0
    ensures prev.remLength > 0 ==> res.1.reasonCode == Peek(buf, 1, past) && res.0 == Ok(1)
  {
    if prev.remLength == 0 then (Shortcut, prev.(reasonCode := 0))
    else (Ok(1), prev.(reasonCode := Peek(buf, 1, past)))
  }

  /** As written, what `copyInto` wrote does not read back: the byte after
      the reason code is taken for it. */
  lemma ReasonFieldMisread(f: ReasonField, rest: seq<byte>, past: byte)
    requires f.remLength >= 1
    ensures ReadDisconnectField(f, f.Encode() + rest, past).1.reasonCode == Peek(rest, 0, past)
    ensures ReadAuthField(f, f.Encode() + rest, past).1.reasonCode == Peek(rest, 0, past)
  {
  }

  /** A DISCONNECT with reason 0x8E (session taken over) and an empty
      property list, `E0 02 8E 00`, is read as reason 0x00 (normal
      disconnection); an AUTH with reason 0x18 (continue authentication),
      `F0 02 18 00`, as reason 0x00 (success). */
  lemma ReasonFieldMisreadExample(past: byte)
    ensures ReadDisconnectField(DefaultReasonField.(remLength := 2), [0x8E, 0x00], past) == (Ok(1), ReasonField(0x00, 2))
    ensures ReadAuthField(DefaultReasonField.(remLength := 2), [0x18, 0x00], past) == (Ok(1), ReasonField(0x00, 2))
  {
  }

  /** `FixedField<DISCONNECT>::readFrom` corrected: the reason code is the
      first byte, and a buffer without it is NotEnoughData. */
  function ReadDisconnectFieldFixed(prev: ReasonField, buf: seq<byte>): (res: (Status, ReasonField))
    ensures res.1.remLength == prev.remLength
    ensures prev.remLength == 0 ==> res.0 == Shortcut && res.1.reasonCode == 0
    ensures prev.remLength > 0 && |buf| == 0 ==> res.0 == NotEnoughData && res.1 == prev
    ensures prev.remLength > 0 && |buf| > 0 ==>
      res.1.reasonCode == buf[0] && res.0 == (if prev.remLength == 1 then Shortcut else Ok(1))
  {
    if prev.remLength == 0 then (Shortcut, prev.(reasonCode := 0))
    else if |buf| == 0 then (NotEnoughData, prev)
    else
      var f := prev.(reasonCode := buf[0]);
      if prev.remLength == 1 then (Shortcut, f) else (Ok(1), f)
  }

  /** `FixedField<AUTH>::readFrom` corrected likewise. */
  function ReadAuthFieldFixed(prev: ReasonField, buf: seq<byte>): (res: (Status, ReasonField))
    ensures res.1.remLength == prev.remLength
    ensures prev.remLength == 0 ==> res.0 == Shortcut && res.1.reasonCode == 0
    ensures prev.remLength > 0 && |buf| == 0 ==> res.0 == NotEnoughData && res.1 == prev
    ensures prev.remLength > 0 && |buf| > 0 ==> res.1.reasonCode == buf[0] && res.0 == Ok(1)
  {
    if prev.remLength == 0 then (Shortcut, prev.(reasonCode := 0))
    else if |buf| == 0 then (NotEnoughData, prev)
    else (Ok(1), prev.(reasonCode := buf[0]))
  }

  /** Corrected, the reason code reads back, and a packet with no
      remaining length reads as reason 0 (section 3.14.2.1). */
  lemma ReasonFieldRoundTrip(prev: ReasonField, f: ReasonField, rest: seq<byte>)
    requires prev.remLength >= 1
    ensures var r := ReadDisconnectFieldFixed(prev, f.Encode() + rest);
      r.1.reasonCode == f.reasonCode && r.0 == (if prev.remLength == 1 then Shortcut else Ok(1))
    ensures var r := ReadAuthFieldFixed(prev, f.Encode() + rest);
      r.1.reasonCode == f.reasonCode && r.0 == Ok(1)
  {
  }

  // PUBLISH (section 3.3.2)

  /** `hasPacketID`: the flags pointer is set and `*flags & 6` is not 0,
      that is bit 1 or bit 2 of the header byte is set. */
  predicate HasPacketID(flags: Option<byte>)
  {
    flags.Some? && flags.value as nat % 8 >= 2
  }

  /** A packet identifier is present exactly when the header's QoS is 1 or
      more (section 3.3.2.2). */
  lemma PacketIDIffQoS(x: byte)
    ensures HasPacketID(Some(x)) <==> QoSBits(x) > 0
  {
  }

  /** `hasPacketID` as the source tests it: `(*flags & 6) > 0`. */
  lemma PacketIDMask(flags: Option<byte>)
    ensures HasPacketID(flags) <==> flags.Some? && flags.value as bv8 & 0x6 != 0
  {
    if flags.Some? {
      var b := flags.value as bv8;
      QoSMask(flags.value);
      MaskShiftZero(b);
    }
  }

  /** Helper: bit 0 of `b & 6` is clear, so shifting it right by one loses
      nothing. */
  lemma MaskShiftZero(b: bv8)
    ensures (b & 0x6 == 0) <==> ((b & 0x6) >> 1 == 0)
  {
  }

  /** `FixedField<PUBLISH>`: the topic name and the packet identifier. */
  datatype PublishField = PublishField(topicName: Owned, packetID: PacketID) {

    /** `getSize`: the topic, and two bytes when an identifier is present. */
    function Size(flags: Option<byte>): nat { topicName.Size() + (if HasPacketID(flags) then 2 else 0) }

    /** What `copyInto` may read. */
    predicate Storable() { topicName.Readable() }

    /** `copyInto`: the topic, then the identifier if present. */
    function Encode(flags: Option<byte>): (r: seq<byte>)
      requires Storable()
      ensures |r| == Size(flags)
    {
      topicName.Encode() + (if HasPacketID(flags) then U16Bytes(packetID) else [])
    }

    /** `check`: the topic's. */
    predicate Check() { topicName.Check() }
  }

  /** `FixedField<PUBLISH>::readFrom`: the topic; its error as is; then,
      when an identifier is present, NotEnoughData before two more bytes,
      otherwise the identifier. */
  function ReadPublishField(prev: PublishField, flags: Option<byte>, buf: seq<byte>): (res: (Status, PublishField))
    ensures res.0 != BadData && res.0 != Shortcut
    ensures res.0.Ok? ==>
      res.1.Storable() && res.0.n == res.1.Size(flags) <= |buf| && res.1.Encode(flags) == Front(buf, res.0.n)
      && (!HasPacketID(flags) ==> res.1.packetID == prev.packetID)
  {
    var rt := ReadOwned(prev.topicName, buf);
    if rt.0.IsError() then (rt.0, prev.(topicName := rt.1))
    else
      var o := rt.0.n;
      if !HasPacketID(flags) then (rt.0, prev.(topicName := rt.1))
      else if |buf| - o < 2 then (NotEnoughData, prev.(topicName := rt.1))
      else
        var f := PublishField(rt.1, ReadU16(buf, o));
        assert buf[..o + 2] == buf[..o] + buf[o..o + 2];
        (Ok(o + 2), f)
  }

  /** Reading back what `copyInto` wrote gives the topic and, when the
      flags call for one, the identifier. */
  lemma PublishFieldRoundTrip(prev: PublishField, flags: Option<byte>, f: PublishField, rest: seq<byte>)
    requires f.Storable()
    ensures var r := ReadPublishField(prev, flags, f.Encode(flags) + rest);
      r.0 == Ok(f.Size(flags)) && r.1.topicName == OwnedOf(f.topicName.Content())
      && (HasPacketID(flags) ==> r.1.packetID == f.packetID)
  {
    var id := if HasPacketID(flags) then U16Bytes(f.packetID) else [];
    var b := f.Encode(flags) + rest;
    assert b == f.topicName.Encode() + (id + rest);
    OwnedRoundTrip(prev.topicName, f.topicName, id + rest);
    if HasPacketID(flags) {
      var o := f.topicName.Size();
      assert b[o..o + 2] == U16Bytes(f.packetID);
      var g := ReadPublishField(prev, flags, b).1;
      assert FromBigEndian(U16Bytes(g.packetID)) == FromBigEndian(U16Bytes(f.packetID));
    }
  }

  /** A field read back from what `copyInto` wrote passes `check` exactly
      when the topic written had at least one byte: the bytes are copied
      into a block, so an empty topic comes back as a zero length with a
      non-null pointer. */
  lemma PublishReadBackChecks(prev: PublishField, flags: Option<byte>, f: PublishField, rest: seq<byte>)
    requires f.Storable()
    ensures ReadPublishField(prev, flags, f.Encode(flags) + rest).1.Check() <==> f.topicName.length > 0
  {
    PublishFieldRoundTrip(prev, flags, f, rest);
  }
}
