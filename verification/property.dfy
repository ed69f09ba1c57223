/** One property of MQTT v5 (section 2.2.2.2 of the OASIS MQTT Version 5.0
    standard) as the owning codec holds it: a one-byte code followed by a
    value whose encoding depends on the code. `Property<T>` and its
    specialisations, and `PropertyRegistry::unserialize`. */
module PropertyCodec {
  import opened Wire
  import opened VarInt
  import opened Primitives
  import opened Registry

  /** The `value` member of each `Property<T>` specialisation used by the
      registered typedefs: `uint8`, `uint16`, `uint32`, `VBInt`,
      `DynamicString`, `DynamicBinaryData` and `DynamicStringPair`. */
  datatype Value =
    | Int8(b: nat)
    | Int16(w: nat)
    | Int32(d: nat)
    | Var(vb: VBInt)
    | Text(s: Owned)
    | Binary(bin: Owned)
    | Pair(pair: OwnedPair)
  {
    function Kind(): Kind
    {
      match this
      case Int8(_) => U8Kind
      case Int16(_) => U16Kind
      case Int32(_) => U32Kind
      case Var(_) => VarKind
      case Text(_) => TextKind
      case Binary(_) => BinaryKind
      case Pair(_) => PairKind
    }

    /** The value fits its C type, and the strings hold the bytes their
        length announces. */
    predicate Fits()
    {
      match this
      case Int8(b) => b < 0x100
      case Int16(w) => w < 0x1_0000
      case Int32(d) => d < U32
      case Var(_) => true
      case Text(s) => s.Readable()
      case Binary(bin) => bin.Readable()
      case Pair(pair) => pair.Readable()
    }

    /** `value.getSize()`, or `sizeof(value)` for the integers. */
    function Size(): nat
    {
      match this
      case Int8(_) => 1
      case Int16(_) => 2
      case Int32(_) => 4
      case Var(vb) => vb.Size()
      case Text(s) => s.Size()
      case Binary(bin) => bin.Size()
      case Pair(pair) => pair.Size()
    }

    /** `value.check()`; the integers have none. */
    predicate Check()
    {
      match this
      case Var(vb) => vb.Check()
      case Text(s) => s.Check()
      case Binary(bin) => bin.Check()
      case Pair(pair) => pair.Check()
      case _ => true
    }

    /** The bytes the value's `copyInto` writes: integers in network order. */
    function Encode(): (r: seq<byte>)
      requires Fits()
      ensures |r| == Size()
    {
      match this
      case Int8(b) => BigEndian(b, 1)
      case Int16(w) => BigEndian(w, 2)
      case Int32(d) => BigEndian(d, 4)
      case Var(vb) => vb.Bytes()
      case Text(s) => s.Encode()
      case Binary(bin) => bin.Encode()
      case Pair(pair) => pair.Encode()
    }

    /** The value a read of `Encode()` produces: an owning string comes back
        holding exactly its content. */
    function Normal(): (v: Value)
      requires Fits()
      ensures v.Fits() && v.Kind() == Kind() && v.Size() == Size()
    {
      match this
      case Text(s) => Text(OwnedOf(s.Content()))
      case Binary(bin) => Binary(OwnedOf(bin.Content()))
      case Pair(pair) => Pair(OwnedPair(OwnedOf(pair.key.Content()), OwnedOf(pair.value.Content())))
      case _ => this
    }
  }

  /** The value as it reads back writes the same bytes. */
  lemma NormalEncodes(v: Value)
    requires v.Fits()
    ensures v.Normal().Encode() == v.Encode()
  {
  }

  /** `Property<T>`: the `type` byte and the value. */
  datatype Property = Property(code: nat, value: Value) {

    /** `getSize`: the code byte plus the value. */
    function Size(): nat { 1 + value.Size() }

    /** `check`: a code below 0x80 and a valid value. */
    predicate Check() { code < 0x80 && value.Check() }

    predicate Fits() { code < 0x100 && value.Fits() }

    /** The code names a property of this value's kind. */
    predicate Registered() { KindOf(code) == Some(value.Kind()) }

    /** `copyInto`: the code, then the value. */
    function Encode(): (r: seq<byte>)
      requires Fits()
      ensures |r| == Size() && r[0] as nat == code
    {
      [code as byte] + value.Encode()
    }
  }

  /** The value `allocateProp` starts a property of each kind with: zero,
      or empty strings. */
  function Fresh(k: Kind): (v: Value)
    ensures v.Kind() == k
  {
    match k
    case U8Kind => Int8(0)
    case U16Kind => Int16(0)
    case U32Kind => Int32(0)
    case VarKind => Var(Assign(0))
    case TextKind => Text(Owned(0, None))
    case BinaryKind => Binary(Owned(0, None))
    case PairKind => Pair(OwnedPair(Owned(0, None), Owned(0, None)))
  }

  /** `Property<T>::readFrom` on `buf` (at least one byte long): a code byte
      with its top bit set or different from the property's own is
      BadData; then each kind asks for a minimum length (the integer's
      size + 1, 3 for strings and binary data, 5 for pairs, 2 for a
      Variable Byte Integer) and reads the value after the code byte. */
  function ReadProperty(prev: Property, buf: seq<byte>): (res: (Status, Property))
    requires |buf| >= 1
    ensures res.1.code == prev.code && res.1.value.Kind() == prev.value.Kind()
    ensures res.0 != Shortcut
    ensures res.0 == BadData ==> buf[0] >= 0x80 || buf[0] as nat != prev.code || prev.value.Var?
    ensures res.0.Ok? ==> (2 <= res.0.n <= |buf| && res.0.n == res.1.Size() && res.1.Fits()
       && res.1.Encode() == Front(buf, res.0.n))
  {
    if buf[0] >= 0x80 || buf[0] as nat != prev.code then (BadData, prev)
    else match prev.value
      case Int8(_) => ReadInteger(prev, buf, 1)
      case Int16(_) => ReadInteger(prev, buf, 2)
      case Int32(_) => ReadInteger(prev, buf, 4)
      case Var(vb) => ReadVarProperty(prev.code, vb, buf)
      case Text(_) => ReadOwnedProperty(prev, buf)
      case Binary(_) => ReadOwnedProperty(prev, buf)
      case Pair(pair) => ReadPairProperty(prev.code, pair, buf)
  }

  /** The Variable Byte Integer specialisation of the property `code`
      holding `prev`: at least 2 bytes, then `VBInt::readFrom` after the
      code byte. */
  function ReadVarProperty(code: nat, prev: VBInt, buf: seq<byte>): (res: (Status, Property))
    requires |buf| >= 1 && buf[0] as nat == code
    ensures res.1.code == code && res.1.value.Var?
    ensures res.0 != Shortcut
    ensures res.0.Ok? ==> (2 <= res.0.n <= |buf| && res.0.n == res.1.Size() && res.1.Fits()
       && res.1.Encode() == Front(buf, res.0.n))
  {
    if |buf| < 2 then (NotEnoughData, Property(code, Var(prev)))
    else
      var r := ReadSpec(buf[1..]);
      if r.0.IsError() then (r.0, Property(code, Var(r.1)))
      else
        AfterCode(buf, r.0.n);
        (Ok(r.0.n + 1), Property(code, Var(r.1)))
  }

  /** The string and binary data specialisations: at least 3 bytes, then
      the owning value's `readFrom` after the code byte. */
  function ReadOwnedProperty(prev: Property, buf: seq<byte>): (res: (Status, Property))
    requires |buf| >= 1 && buf[0] as nat == prev.code && (prev.value.Text? || prev.value.Binary?)
    ensures res.1.code == prev.code && res.1.value.Kind() == prev.value.Kind()
    ensures res.0 != Shortcut && res.0 != BadData
    ensures res.0.Ok? ==> (2 <= res.0.n <= |buf| && res.0.n == res.1.Size() && res.1.Fits()
       && res.1.Encode() == Front(buf, res.0.n))
  {
    var s := if prev.value.Text? then prev.value.s else prev.value.bin;
    if |buf| < 3 then (NotEnoughData, prev)
    else
      var r := ReadOwned(s, buf[1..]);
      var v := if prev.value.Text? then Text(r.1) else Binary(r.1);
      if r.0.IsError() then (r.0, Property(prev.code, v))
      else
        AfterCode(buf, r.0.n);
        (Ok(r.0.n + 1), Property(prev.code, v))
  }

  /** The string pair specialisation of the property `code` holding
      `prev`: at least 5 bytes, then the pair's `readFrom` after the code
      byte. */
  function ReadPairProperty(code: nat, prev: OwnedPair, buf: seq<byte>): (res: (Status, Property))
    requires |buf| >= 1 && buf[0] as nat == code
    ensures res.1.code == code && res.1.value.Pair?
    ensures res.0 != Shortcut && res.0 != BadData
    ensures res.0.Ok? ==> (5 <= res.0.n <= |buf| && res.0.n == res.1.Size() && res.1.Fits()
       && res.1.Encode() == Front(buf, res.0.n))
  {
    if |buf| < 5 then (NotEnoughData, Property(code, Pair(prev)))
    else
      var r := ReadOwnedPair(prev, buf[1..]);
      if r.0.IsError() then (r.0, Property(code, Pair(r.1)))
      else
        AfterCode(buf, r.0.n);
        (Ok(r.0.n + 1), Property(code, Pair(r.1)))
  }

  /** Helper: the code byte followed by the `n` bytes after it. */
  lemma AfterCode(buf: seq<byte>, n: nat)
    requires 1 <= |buf| && n < |buf|
    ensures buf[..n + 1] == [buf[0]] + buf[1..][..n]
  {
  }

  /** The integer specialisations: `w` bytes in network order after the
      code byte, NotEnoughData when fewer than `w + 1` bytes are given. */
  function ReadInteger(prev: Property, buf: seq<byte>, w: nat): (res: (Status, Property))
    requires |buf| >= 1 && buf[0] as nat == prev.code
    requires w == prev.value.Size() && (prev.value.Int8? || prev.value.Int16? || prev.value.Int32?)
    ensures res.1.code == prev.code && res.1.value.Kind() == prev.value.Kind()
    ensures res.0 == (if |buf| < w + 1 then NotEnoughData else Ok(w + 1))
    ensures res.0.Ok? ==> (res.1.Size() == w + 1 && res.1.Fits() && res.1.Encode() == buf[..w + 1])
  {
    if |buf| < w + 1 then (NotEnoughData, prev)
    else
      var bytes := buf[1..w + 1];
      var v := FromBigEndian(bytes);
      ToFromBigEndian(bytes);
      assert Pow256(1) == 0x100 && Pow256(2) == 0x1_0000 && Pow256(4) == U32;
      assert buf[..w + 1] == [buf[0]] + bytes;
      var value := if prev.value.Int8? then Int8(v) else if prev.value.Int16? then Int16(v) else Int32(v);
      assert value.Encode() == bytes;
      (Ok(w + 1), Property(prev.code, value))
  }

  /** `PropertyRegistry::unserialize`: an empty buffer is NotEnoughData; a
      code at or above `MaxUsedPropertyType`, or one without a registered
      property, is BadData; otherwise a fresh property of the code's kind
      reads the buffer. What it reads re-encodes to the bytes consumed. */
  function Unserialize(buf: seq<byte>): (res: (Status, Property))
    ensures res.0 != Shortcut
    ensures |buf| == 0 ==> res.0 == NotEnoughData
    ensures |buf| > 0 && KindOf(buf[0] as nat).None? ==> res.0 == BadData
    ensures res.0.Ok? ==> (2 <= res.0.n <= |buf| && res.1.code == buf[0] as nat
       && res.1.Registered() && res.1.Fits()
       && res.0.n == res.1.Size() && res.1.Encode() == Front(buf, res.0.n))
  {
    if |buf| < 1 then (NotEnoughData, Property(BadProperty, Int8(0)))
    else
      var code := buf[0] as nat;
      if code >= MaxUsedPropertyType then (BadData, Property(code, Int8(0)))
      else match KindOf(code)
        case None => (BadData, Property(code, Int8(0)))
        case Some(k) => ReadProperty(Property(code, Fresh(k)), buf)
  }

  /** A property that reads back as written: its code names a property of
      its kind, and a Variable Byte Integer value is a terminated encoding
      of at most three bytes (the reading of `VBInt::readFrom` rejects
      every four-byte encoding). */
  predicate RoundTrips(p: Property)
  {
    p.Fits() && p.Registered()
    && (p.value.Var? ==> Terminated(p.value.vb.value) && p.value.vb.Size() <= 3)
  }

  /** `Property<T>::readFrom` reads back what `copyInto` wrote into a
      property of the same code and kind, whatever follows it, and
      consumes exactly `getSize()` bytes. */
  lemma ReadPropertyRoundTrip(prev: Property, p: Property, rest: seq<byte>)
    requires RoundTrips(p) && p.code < 0x80
    requires prev.code == p.code && prev.value.Kind() == p.value.Kind()
    ensures ReadProperty(prev, p.Encode() + rest) == (Ok(p.Size()), Property(p.code, p.value.Normal()))
  {
    match p.value
    case Int8(x) => IntegerRoundTrip(prev, p, rest, 1);
    case Int16(x) => IntegerRoundTrip(prev, p, rest, 2);
    case Int32(x) => IntegerRoundTrip(prev, p, rest, 4);
    case Var(vb) => VarRoundTrip(prev, p, rest);
    case Text(s) => OwnedValueRoundTrip(prev, p, rest);
    case Binary(bin) => OwnedValueRoundTrip(prev, p, rest);
    case Pair(pair) => PairRoundTrip(prev, p, rest);
  }

  /** Helper: the Variable Byte Integer case of the round trip. */
  lemma VarRoundTrip(prev: Property, p: Property, rest: seq<byte>)
    requires RoundTrips(p) && p.code < 0x80 && p.value.Var?
    requires prev.code == p.code && prev.value.Kind() == p.value.Kind()
    ensures ReadProperty(prev, p.Encode() + rest) == (Ok(p.Size()), Property(p.code, p.value.Normal()))
  {
    var b := p.Encode() + rest;
    assert b[1..] == p.value.Encode() + rest;
    ReadOfTerminated(p.value.vb.value, rest);
  }

  /** Helper: the string and binary data cases of the round trip. */
  lemma OwnedValueRoundTrip(prev: Property, p: Property, rest: seq<byte>)
    requires RoundTrips(p) && p.code < 0x80 && (p.value.Text? || p.value.Binary?)
    requires prev.code == p.code && prev.value.Kind() == p.value.Kind()
    ensures ReadProperty(prev, p.Encode() + rest) == (Ok(p.Size()), Property(p.code, p.value.Normal()))
  {
    var b := p.Encode() + rest;
    assert b[1..] == p.value.Encode() + rest;
    if p.value.Text? {
      OwnedRoundTrip(prev.value.s, p.value.s, rest);
    } else {
      OwnedRoundTrip(prev.value.bin, p.value.bin, rest);
    }
  }

  /** Helper: the string pair case of the round trip. */
  lemma PairRoundTrip(prev: Property, p: Property, rest: seq<byte>)
    requires RoundTrips(p) && p.code < 0x80 && p.value.Pair?
    requires prev.code == p.code && prev.value.Kind() == p.value.Kind()
    ensures ReadProperty(prev, p.Encode() + rest) == (Ok(p.Size()), Property(p.code, p.value.Normal()))
  {
    var b := p.Encode() + rest;
    assert b[1..] == p.value.Encode() + rest;
    OwnedPairRoundTrip(prev.value.pair, p.value.pair, rest);
  }

  /** Helper: the integer case of the round trip. */
  lemma IntegerRoundTrip(prev: Property, p: Property, rest: seq<byte>, w: nat)
    requires p.Fits() && p.code < 0x80 && (p.value.Int8? || p.value.Int16? || p.value.Int32?)
    requires prev.code == p.code && prev.value.Kind() == p.value.Kind() && w == p.value.Size()
    ensures ReadProperty(prev, p.Encode() + rest) == (Ok(p.Size()), p)
  {
    var b := p.Encode() + rest;
    var x := match p.value case Int8(x) => x case Int16(x) => x case Int32(x) => x case _ => 0;
    assert p.value.Encode() == BigEndian(x, w);
    assert b[1..w + 1] == BigEndian(x, w);
    FromToBigEndian(x, w);
  }

  /** `unserialize` reads back what `copyInto` wrote, whatever follows it,
      and consumes exactly `getSize()` bytes. */
  lemma UnserializeRoundTrip(p: Property, rest: seq<byte>)
    requires RoundTrips(p)
    ensures Unserialize(p.Encode() + rest) == (Ok(p.Size()), Property(p.code, p.value.Normal()))
  {
    var b := p.Encode() + rest;
    assert p.code < MaxUsedPropertyType by { AllowedOnlyKnownCode(p.code); }
    ReadPropertyRoundTrip(Property(p.code, Fresh(p.value.Kind())), p, rest);
  }

  /** Helper: every code that names a property is below `MaxUsedPropertyType`. */
  lemma AllowedOnlyKnownCode(code: nat)
    requires KindOf(code).Some?
    ensures code < MaxUsedPropertyType
  {
  }

  /** A code that names no property is refused before any value is read. */
  lemma UnserializeUnknown(buf: seq<byte>)
    requires |buf| > 0 && (buf[0] == 0x04 || buf[0] as nat >= MaxUsedPropertyType)
    ensures Unserialize(buf).0 == BadData
  {
    hide ReadProperty;
  }
}
