/** The fixed header of an MQTT v5 control packet (sections 2.1.1 to 2.1.4
    of the OASIS MQTT Version 5.0 standard): one byte holding the packet
    type in its high nibble and the flags in its low nibble, then the
    remaining length as a Variable Byte Integer. */
module Header {
  import opened Wire
  import opened VarInt

  /** `ControlPacketType`. */
  const RESERVED: nat := 0
  const CONNECT: nat := 1
  const CONNACK: nat := 2
  const PUBLISH: nat := 3
  const PUBACK: nat := 4
  const PUBREC: nat := 5
  const PUBREL: nat := 6
  const PUBCOMP: nat := 7
  const SUBSCRIBE: nat := 8
  const SUBACK: nat := 9
  const UNSUBSCRIBE: nat := 10
  const UNSUBACK: nat := 11
  const PINGREQ: nat := 12
  const PINGRESP: nat := 13
  const DISCONNECT: nat := 14
  const AUTH: nat := 15

  /** The `flags` template argument of each header typedef: 2 for PUBREL,
      SUBSCRIBE and UNSUBSCRIBE, 0 for every other type (PUBLISH's flags
      are variable and start at 0). */
  function DeclaredFlags(t: nat): (f: nat)
    ensures f == 0 || f == 2
    ensures f == 2 <==> t == PUBREL || t == SUBSCRIBE || t == UNSUBSCRIBE
  {
    if t == PUBREL || t == SUBSCRIBE || t == UNSUBSCRIBE then 2 else 0
  }

  /** The byte the `FixedHeaderType` constructor stores: type, then flags. */
  function HeaderByte(t: nat): (b: byte)
    requires t < 16
    ensures b as nat / 16 == t && b as nat % 16 == DeclaredFlags(t)
  {
    (t * 16 + DeclaredFlags(t)) as byte
  }

  /** `FixedHeaderType<type, flags>::check`: the low nibble equals the
      declared flags; the PUBLISH specialisation accepts anything. */
  predicate HeaderCheck(t: nat, typeAndFlags: byte)
  {
    t == PUBLISH || typeAndFlags as nat % 16 == DeclaredFlags(t)
  }

  /** The PUBLISH fields of a header byte: bit 3 is dup, bits 1-2 are the
      QoS, bit 0 is retain. */
  function DupBit(x: byte): bool { x as nat % 16 >= 8 }
  function RetainBit(x: byte): bool { x as nat % 2 == 1 }
  function QoSBits(x: byte): (q: nat) ensures q < 4 { x as nat % 8 / 2 }
  function TypeNibble(x: byte): (t: nat) ensures t < 16 { x as nat / 16 }

  /** Helper: the QoS bits selected by a mask are those the arithmetic
      reads. */
  lemma QoSMask(x: byte)
    ensures QoSBits(x) as bv8 == (x as bv8 & 0x6) >> 1
  {
    var n := x as nat;
    BitOne(x);
    BitTwo(x);
    LowThreeBits(n);
    MaskedPair(QoSBits(x), n / 2 % 2, n / 4 % 2, x as bv8);
  }

  /** Helper: bits 1-2 of `n` as a number are bit 1 plus twice bit 2. */
  lemma LowThreeBits(n: nat)
    ensures n % 8 / 2 == n / 2 % 2 + 2 * (n / 4 % 2)
  {
    var a, r := n / 8, n % 8;
    assert n == 8 * a + r;
    assert n / 2 == 4 * a + r / 2;
    assert n / 4 == 2 * a + r / 4;
    assert n / 2 % 2 == r / 2 % 2;
    assert n / 4 % 2 == r / 4;
    assert r / 2 == r / 2 % 2 + 2 * (r / 4) by {
      assert r < 8;
    }
  }

  /** Helpers: bits 1 and 2 of a byte, read with arithmetic and with a
      mask, and the two bits the mask 0x6 keeps, shifted down. */
  lemma BitOne(x: byte)
    ensures (x as nat / 2 % 2 == 1) == (x as bv8 & 0x2 != 0)
  {
  }

  lemma BitTwo(x: byte)
    ensures (x as nat / 4 % 2 == 1) == (x as bv8 & 0x4 != 0)
  {
  }

  lemma MaskCases(b: bv8)
    ensures (b & 0x6) >> 1 == (if b & 0x2 != 0 then 1 else 0) + (if b & 0x4 != 0 then 2 else 0)
  {
  }

  /** Helper: a two-bit number whose bits are bits 1 and 2 of `b` is
      what the mask 0x6 and the shift leave of `b`. */
  lemma MaskedPair(q: nat, lo: nat, hi: nat, b: bv8)
    requires lo < 2 && hi < 2 && q == lo + 2 * hi
    requires (lo == 1) == (b & 0x2 != 0) && (hi == 1) == (b & 0x4 != 0)
    ensures q as bv8 == (b & 0x6) >> 1
  {
    MaskCases(b);
    if lo == 0 && hi == 0 {
      assert q == 0;
    } else if lo == 1 && hi == 0 {
      assert q == 1;
    } else if lo == 0 {
      assert q == 2;
    } else {
      assert q == 3;
    }
  }

  /** A byte rebuilt from its four fields: every header byte is one. */
  function Compose(t: nat, dup: bool, q: nat, retain: bool): (x: byte)
    requires t < 16 && q < 4
    ensures TypeNibble(x) == t && DupBit(x) == dup && QoSBits(x) == q && RetainBit(x) == retain
  {
    (t * 16 + (if dup then 8 else 0) + q * 2 + (if retain then 1 else 0)) as byte
  }

  /** The four fields determine the byte. */
  lemma ComposeFields(x: byte)
    ensures Compose(TypeNibble(x), DupBit(x), QoSBits(x), RetainBit(x)) == x
  {
    var v := x as nat;
    assert v == v / 16 * 16 + v % 16;
    assert v % 16 == (if v % 16 >= 8 then 8 else 0) + v % 8;
    assert v % 8 == v % 8 / 2 * 2 + v % 2;
  }

  /** `setQoS` keeps only a QoS below 3 and stores 0 otherwise. */
  function StoredQoS(e: byte): (q: nat)
    ensures q < 3 && (e < 3 ==> q == e as nat) && (e >= 3 ==> q == 0)
  {
    if e < 3 then e as nat else 0
  }

  /** `FixedHeaderType<PUBLISH, 0>`: the only header whose flags change. */
  class PublishHeader {
    var typeAndFlags: byte

    /** `FixedHeaderType(dup, QoS, retain)`. */
    constructor (dup: bool, qos: byte, retain: bool)
      ensures typeAndFlags == Compose(PUBLISH, dup, StoredQoS(qos), retain)
    {
      typeAndFlags := Compose(PUBLISH, dup, StoredQoS(qos), retain);
    }

    function Flags(): (f: nat)
      reads this
      ensures f < 16
    {
      typeAndFlags as nat % 16
    }

    /** `isDup`: the bit the mask 0x8 selects. */
    function IsDup(): (d: bool)
      reads this
      ensures d == (typeAndFlags as bv8 & 0x8 != 0)
    {
      DupBit(typeAndFlags)
    }

    /** `isRetain`: the bit the mask 0x1 selects. */
    function IsRetain(): (r: bool)
      reads this
      ensures r == (typeAndFlags as bv8 & 0x1 != 0)
    {
      RetainBit(typeAndFlags)
    }

    /** `getQoS`: the two bits the mask 0x6 selects, shifted down. */
    function QoS(): (q: nat)
      reads this
      ensures q < 4 && q as bv8 == (typeAndFlags as bv8 & 0x6) >> 1
    {
      QoSMask(typeAndFlags);
      QoSBits(typeAndFlags)
    }

    /** `setDup`: only bit 3 changes. */
    method SetDup(e: bool)
      modifies this
      ensures typeAndFlags == Compose(TypeNibble(old(typeAndFlags)), e,
                                      QoSBits(old(typeAndFlags)), RetainBit(old(typeAndFlags)))
      ensures IsDup() == e && QoS() == old(QoS()) && IsRetain() == old(IsRetain())
    {
      ComposeFields(typeAndFlags);
      typeAndFlags := Compose(TypeNibble(typeAndFlags), e, QoSBits(typeAndFlags), RetainBit(typeAndFlags));
    }

    /** `setRetain`: only bit 0 changes. */
    method SetRetain(e: bool)
      modifies this
      ensures typeAndFlags == Compose(TypeNibble(old(typeAndFlags)), DupBit(old(typeAndFlags)),
                                      QoSBits(old(typeAndFlags)), e)
      ensures IsRetain() == e && QoS() == old(QoS()) && IsDup() == old(IsDup())
    {
      typeAndFlags := Compose(TypeNibble(typeAndFlags), DupBit(typeAndFlags), QoSBits(typeAndFlags), e);
    }

    /** `setQoS`: bits 1-2 take the QoS when it is below 3, and 0 otherwise. */
    method SetQoS(e: byte)
      modifies this
      ensures typeAndFlags == Compose(TypeNibble(old(typeAndFlags)), DupBit(old(typeAndFlags)),
                                      StoredQoS(e), RetainBit(old(typeAndFlags)))
      ensures QoS() == StoredQoS(e) && IsDup() == old(IsDup()) && IsRetain() == old(IsRetain())
    {
      typeAndFlags := Compose(TypeNibble(typeAndFlags), DupBit(typeAndFlags), StoredQoS(e), RetainBit(typeAndFlags));
    }
  }

  /** The flag table `checkHeader` uses, as written: it holds 0xF at
      RESERVED and CONNACK and 2 at PUBREC, PUBCOMP and SUBACK. */
  function CheckHeaderTable(t: nat): nat
    requires t < 16
  {
    [0xF, 0, 0xF, 0, 0, 2, 0, 2, 0, 2, 0, 0, 0, 0, 0, 0][t]
  }

  /** `checkHeader`: the framing pre-scan. Fewer than two bytes is
      NotEnoughData; a non-PUBLISH type whose low nibble differs from the
      table is BadData; otherwise the remaining length is read and the
      packet size returned is 1 + its byte count + its value. The second
      result is the type it reports through `type`, set once the flags
      pass. */
  function CheckHeader(buf: seq<byte>): (res: (Status, Option<nat>))
    ensures |buf| < 2 ==> res.0 == NotEnoughData
    ensures (|buf| >= 2 && TypeNibble(buf[0]) != PUBLISH
             && buf[0] as nat % 16 != CheckHeaderTable(TypeNibble(buf[0]))) ==> res.0 == BadData
    ensures res.1.Some? <==> (|buf| >= 2 && (TypeNibble(buf[0]) == PUBLISH
                              || buf[0] as nat % 16 == CheckHeaderTable(TypeNibble(buf[0]))))
    ensures res.1.Some? ==> res.1.value == TypeNibble(buf[0])
    ensures res.1.Some? && ReadSpec(buf[1..]).0.IsError() ==> res.0 == ReadSpec(buf[1..]).0
    ensures res.1.Some? && ReadSpec(buf[1..]).0.Ok? ==>
              res.0 == Ok(1 + ReadSpec(buf[1..]).0.n + ReadSpec(buf[1..]).1.Decoded())
  {
    if |buf| < 2 then (NotEnoughData, None)
    else
      var t := TypeNibble(buf[0]);
      if t != PUBLISH && buf[0] as nat % 16 != CheckHeaderTable(t) then (BadData, None)
      else
        var (s, len) := ReadSpec(buf[1..]);
        if s.IsError() then (s, Some(t)) else (Ok(len.Decoded() + s.n + 1), Some(t))
  }

  /** The table disagrees with the typedefs: a CONNACK header as
      `FixedHeaderType<CONNACK, 0>` writes it is refused, ... */
  lemma CheckHeaderRefusesConnAck(rest: seq<byte>)
    ensures HeaderByte(CONNACK) == 0x20
    ensures CheckHeader([HeaderByte(CONNACK), 0] + rest).0 == BadData
  {
  }

  /** ... and so is a PUBREL header, while a PUBREC header carrying the
      flags 2 that only PUBREL may carry is accepted. */
  lemma CheckHeaderSwapsPubRel(rest: seq<byte>)
    ensures CheckHeader([HeaderByte(PUBREL), 0] + rest).0 == BadData
    ensures CheckHeader([0x52, 0] + rest).0 == Ok(2) && !HeaderCheck(PUBREC, 0x52)
  {
    assert ([0x52 as byte, 0] + rest)[1..] == [0] + rest;
    ReadOfEncoding(0, rest);
    assert Digits(0) == [0];
  }

  /** The pre-scan the typedefs call for: the flag check is
      `FixedHeaderType::check`, and the remaining length is read with the
      corrected Variable Byte Integer reading. */
  function CheckHeaderFixed(buf: seq<byte>): (res: (Status, Option<nat>))
    ensures |buf| < 2 ==> res.0 == NotEnoughData
    ensures res.1.Some? <==> |buf| >= 2 && HeaderCheck(TypeNibble(buf[0]), buf[0])
    ensures res.1.Some? ==> res.1.value == TypeNibble(buf[0])
    ensures |buf| >= 2 && res.1.None? ==> res.0 == BadData
    ensures |buf| >= 2 && (TypeNibble(buf[0]) == PUBLISH
                           || CheckHeaderTable(TypeNibble(buf[0])) == DeclaredFlags(TypeNibble(buf[0])))
            ==> res.1 == CheckHeader(buf).1
  {
    if |buf| < 2 then (NotEnoughData, None)
    else
      var t := TypeNibble(buf[0]);
      if !HeaderCheck(t, buf[0]) then (BadData, None)
      else
        var (s, len) := ReadFixed(buf[1..]);
        if s.IsError() then (s, Some(t)) else (Ok(len.Decoded() + s.n + 1), Some(t))
  }

  /** The corrected pre-scan accepts exactly the header bytes the
      `FixedHeaderType` constructors produce (any flags for PUBLISH), and
      measures the packet: header byte, remaining length, then that many
      bytes. */
  lemma CheckHeaderFixedFrames(h: byte, remaining: nat, rest: seq<byte>)
    requires remaining <= MaxPossibleSize
    ensures CheckHeaderFixed([h] + Assign(remaining).Bytes() + rest).0 ==
      (if TypeNibble(h) == PUBLISH || h as nat % 16 == DeclaredFlags(TypeNibble(h))
       then Ok(1 + EncodedSize(remaining) + remaining) else BadData)
  {
    var tail := Assign(remaining).Bytes() + rest;
    assert [h] + Assign(remaining).Bytes() + rest == [h] + tail;
    ReadFixedRoundTrip(remaining, rest);
    CheckHeaderFixedSplit(h, tail);
  }

  /** Helper: the corrected pre-scan of a header byte followed by a
      non-empty tail. */
  lemma CheckHeaderFixedSplit(h: byte, tail: seq<byte>)
    requires |tail| >= 1
    ensures CheckHeaderFixed([h] + tail).0 ==
      (if !HeaderCheck(TypeNibble(h), h) then BadData
       else if ReadFixed(tail).0.IsError() then ReadFixed(tail).0
       else Ok(ReadFixed(tail).1.Decoded() + ReadFixed(tail).0.n + 1))
  {
    assert ([h] + tail)[1..] == tail;
  }
}
