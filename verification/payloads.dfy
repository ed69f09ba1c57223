/** The payloads of CONNECT (section 3.1.3 of the OASIS MQTT Version 5.0
    standard), with its will message, and the application data payloads of
    PUBLISH, SUBACK and UNSUBACK. The CONNECT payload's optional parts are
    present as the CONNECT field's flags say; the data payloads take the
    size the packet's remaining length leaves for them. */
module Payloads {
  import opened Wire
  import opened VarInt
  import opened Primitives
  import opened Header
  import opened PropertyCodec
  import opened PropertyList
  import opened Fields

  /** `WillMessage`: its properties (the length field and the list a
      `Properties` holds), the will topic and the will payload. */
  datatype WillMessage = WillMessage(propsLength: VBInt, props: seq<Property>, topic: Owned, payload: Owned) {

    /** `getSize`: the properties' `getSize`, then the two strings'. */
    function Size(): nat { propsLength.Size() + propsLength.Decoded() + topic.Size() + payload.Size() }

    /** What `copyInto` may read. */
    predicate Storable() { AllFit(props) && topic.Readable() && payload.Readable() }

    /** `copyInto`: the properties (length, then each one), the topic, the
        payload. */
    function Encode(): seq<byte>
      requires Storable()
    {
      propsLength.Bytes() + ListBytes(props) + topic.Encode() + payload.Encode()
    }

    /** `check`: the properties' `check`, every property allowed in a will
        (packet type 0), and both strings valid. */
    predicate Check() { CheckAsWritten(propsLength, props) && AllAllowed(props, RESERVED) && topic.Check() && payload.Check() }
  }

  /** What the will's `check` accepts: a will whose properties pass the
      intended list check and are all allowed in a will, and whose topic
      and payload are valid, passes; one that passes has properties
      allowed in a will and a valid topic and payload, and its properties
      pass the intended check once their length and last node are valid. */
  lemma WillCheckParts(w: WillMessage)
    ensures CheckFixed(w.propsLength, w.props) && AllAllowed(w.props, RESERVED) && w.topic.Check() && w.payload.Check()
            ==> w.Check()
    ensures w.Check() ==> AllAllowed(w.props, RESERVED) && w.topic.Check() && w.payload.Check()
    ensures w.Check() && w.propsLength.Check() && (w.props != [] ==> w.props[|w.props| - 1].Check())
            ==> CheckFixed(w.propsLength, w.props)
  {
    CheckAsWrittenWeaker(w.propsLength, w.props);
  }

  /** The properties' length field matches the list, as `append` keeps it,
      and fits the three bytes the properties read back through. */
  predicate Consistent(w: WillMessage)
  {
    w.Storable() && ListSize(w.props) <= MaxSizeOn3Bytes && w.propsLength == Assign(ListSize(w.props))
  }

  /** A consistent will writes `getSize()` bytes. */
  lemma WillSize(w: WillMessage)
    requires Consistent(w)
    ensures |w.Encode()| == w.Size()
  {
  }

  /** The will as a read of its bytes leaves it: strings and properties
      holding exactly their content. */
  function NormalWill(w: WillMessage): WillMessage
    requires w.Storable()
  {
    WillMessage(w.propsLength, NormalList(w.props), OwnedOf(w.topic.Content()), OwnedOf(w.payload.Content()))
  }

  /** `WillMessage::readFrom`: the properties, the topic, the payload, each
      from where the previous one ended; the first error is returned, with
      the parts read so far updated. */
  function ReadWill(prev: WillMessage, buf: seq<byte>): (res: (Status, WillMessage))
    ensures res.0 != Shortcut
    ensures res.0.Ok? ==> res.0.n <= |buf|
  {
    UnserializeReader();
    var rp := PropertiesRead(Unserialize, prev.props, buf);
    var w := prev.(propsLength := rp.1, props := rp.2);
    if rp.0.IsError() then (rp.0, w) else ReadWillTopic(w, buf, rp.0.n)
  }

  /** The will topic, from offset `o`. */
  function ReadWillTopic(w: WillMessage, buf: seq<byte>, o: nat): (res: (Status, WillMessage))
    requires o <= |buf|
    ensures res.0 != Shortcut
    ensures res.0.Ok? ==> o <= res.0.n <= |buf|
  {
    var rt := ReadOwned(w.topic, buf[o..]);
    if rt.0.IsError() then (rt.0, w.(topic := rt.1))
    else ReadWillPayload(w.(topic := rt.1), buf, o + rt.0.n)
  }

  /** The will payload, from offset `o`; the total read. */
  function ReadWillPayload(w: WillMessage, buf: seq<byte>, o: nat): (res: (Status, WillMessage))
    requires o <= |buf|
    ensures res.0 != Shortcut
    ensures res.0.Ok? ==> o <= res.0.n <= |buf|
  {
    var rd := ReadOwned(w.payload, buf[o..]);
    if rd.0.IsError() then (rd.0, w.(payload := rd.1)) else (Ok(o + rd.0.n), w.(payload := rd.1))
  }

  /** Helper: a written payload string reads back from offset `o`. */
  lemma WillPayloadOf(w: WillMessage, x: Owned, buf: seq<byte>, o: nat, rest: seq<byte>)
    requires x.Readable() && o <= |buf| && buf[o..] == x.Encode() + rest
    ensures ReadWillPayload(w, buf, o).0 == Ok(o + x.Size())
    ensures ReadWillPayload(w, buf, o).1 == w.(payload := OwnedOf(x.Content()))
  {
    hide ReadOwned;
    OwnedRoundTrip(w.payload, x, rest);
  }

  /** Helper: a written topic and payload read back from offset `o`. */
  lemma WillStringsOf(w: WillMessage, t: Owned, x: Owned, buf: seq<byte>, o: nat, rest: seq<byte>)
    requires t.Readable() && x.Readable() && o <= |buf| && buf[o..] == t.Encode() + (x.Encode() + rest)
    ensures ReadWillTopic(w, buf, o).0 == Ok(o + t.Size() + x.Size())
    ensures ReadWillTopic(w, buf, o).1 == w.(topic := OwnedOf(t.Content()), payload := OwnedOf(x.Content()))
  {
    hide ReadOwned, ReadWillPayload;
    OwnedRoundTrip(w.topic, t, x.Encode() + rest);
    Skip(buf, o, t.Encode(), x.Encode() + rest);
    WillPayloadOf(w.(topic := OwnedOf(t.Content())), x, buf, o + t.Size(), rest);
  }

  /** Helper: `readFrom` goes on to the topic once the properties are read. */
  lemma WillStep(prev: WillMessage, buf: seq<byte>, n: nat, len: VBInt, ps: seq<Property>)
    requires Unserializer(Unserialize)
    requires var rp := PropertiesRead(Unserialize, prev.props, buf);
      rp.0 == Ok(n) && rp.1 == len && rp.2 == ps
    ensures n <= |buf|
    ensures ReadWill(prev, buf) == ReadWillTopic(prev.(propsLength := len, props := ps), buf, n)
  {
    hide PropertiesRead, ReadWillTopic;
  }

  /** Helper: the bytes of a will, split where its properties end. */
  lemma WillBytes(w: WillMessage, rest: seq<byte>)
    requires w.Storable()
    ensures var o := w.propsLength.Size() + |ListBytes(w.props)|;
      var tail := w.topic.Encode() + (w.payload.Encode() + rest);
      w.Encode() + rest == w.propsLength.Bytes() + ListBytes(w.props) + tail
      && o <= |w.Encode() + rest| && (w.Encode() + rest)[o..] == tail
  {
    var tail := w.topic.Encode() + (w.payload.Encode() + rest);
    var head := w.propsLength.Bytes() + ListBytes(w.props);
    Assoc(head + w.topic.Encode(), w.payload.Encode(), rest);
    Assoc(head, w.topic.Encode(), w.payload.Encode() + rest);
    DropPrefix(head, tail);
  }

  /** Reading back what `copyInto` wrote for a consistent will whose
      properties read back gives that will, whatever follows. */
  lemma WillRoundTrip(prev: WillMessage, w: WillMessage, rest: seq<byte>)
    requires Consistent(w) && AllRoundTrip(w.props)
    ensures ReadWill(prev, w.Encode() + rest).0 == Ok(w.Size())
    ensures ReadWill(prev, w.Encode() + rest).1 == NormalWill(w)
  {
    hide ReadWill, ReadWillTopic, ReadWillPayload, PropertiesRead, ReadOwned, ListBytes, NormalList, WillMessage.Encode, Owned.Encode, VBInt.Bytes;
    UnserializeReader();
    var len := Assign(ListSize(w.props));
    var tail := w.topic.Encode() + (w.payload.Encode() + rest);
    var b := w.Encode() + rest;
    WillBytes(w, rest);
    PropertiesRoundTrip(Unserialize, prev.props, w.props, tail);
    var o := len.Size() + ListSize(w.props);
    WillStep(prev, b, o, len, NormalList(w.props));
    WillStringsOf(prev.(propsLength := len, props := NormalList(w.props)), w.topic, w.payload, b, o, rest);
  }

  /** `Payload<CONNECT>`: the client identifier, the will message (a
      pointer, `None` when null), the user name and the password. */
  datatype ConnectPayload = ConnectPayload(clientID: Owned, will: Option<WillMessage>, username: Owned, password: Owned)

  /** The three flags of the CONNECT field that the payload reads through
      its `fixedHeader` pointer. */
  datatype Parts = Parts(will: bool, username: bool, password: bool)

  /** `setFlags`: the payload's view of the CONNECT field, `None` while
      the pointer is null. */
  function PartsOf(hdr: Option<ConnectField>): (sel: Option<Parts>)
    ensures sel.Some? <==> hdr.Some?
    ensures sel.Some? ==>
      sel.value.will == hdr.value.WillFlag() && sel.value.username == hdr.value.UsernameFlag()
      && sel.value.password == hdr.value.PasswordFlag()
  {
    if hdr.None? then None
    else Some(Parts(hdr.value.WillFlag(), hdr.value.UsernameFlag(), hdr.value.PasswordFlag()))
  }

  /** The will pointer is dereferenced whenever the will flag is set. */
  predicate WillPresent(p: ConnectPayload, sel: Option<Parts>)
  {
    sel.Some? && sel.value.will ==> p.will.Some?
  }

  /** A string's size when its flag is set, else nothing. */
  function FlaggedSize(on: bool, x: Owned): nat
  {
    if on then x.Size() else 0
  }

  /** `getFilteredSize`: nothing without the CONNECT field, otherwise the
      sizes of the parts its flags select. */
  function FilteredSize(p: ConnectPayload, sel: Option<Parts>): nat
    requires WillPresent(p, sel)
  {
    if sel.None? then 0
    else
      (if sel.value.will then p.will.value.Size() else 0)
      + FlaggedSize(sel.value.username, p.username) + FlaggedSize(sel.value.password, p.password)
  }

  /** `getSize`: the client identifier and the selected parts. */
  function ConnectPayloadSize(p: ConnectPayload, sel: Option<Parts>): nat
    requires WillPresent(p, sel)
  {
    p.clientID.Size() + FilteredSize(p, sel)
  }

  /** What `copyInto` may read: each part the flags select. */
  predicate ConnectStorable(p: ConnectPayload, sel: Option<Parts>)
  {
    WillPresent(p, sel) && p.clientID.Readable()
    && (sel.Some? ==> (sel.value.will ==> p.will.value.Storable())
                      && (sel.value.username ==> p.username.Readable())
                      && (sel.value.password ==> p.password.Readable()))
  }

  /** `copyInto`: the client identifier; then, with the CONNECT field, the
      will, the user name and the password, each if its flag is set. */
  function EncodeConnectPayload(p: ConnectPayload, sel: Option<Parts>): seq<byte>
    requires ConnectStorable(p, sel)
  {
    if sel.None? then p.clientID.Encode() else p.clientID.Encode() + EncodeFlagged(p, sel.value)
  }

  /** The parts after the client identifier. */
  function EncodeFlagged(p: ConnectPayload, s: Parts): seq<byte>
    requires ConnectStorable(p, Some(s))
  {
    var u := UserBytes(s, p.username, p.password);
    if s.will then p.will.value.Encode() + u else u
  }

  /** What `copyInto` writes for consistent wills is `getSize()` bytes: the
      client identifier first, then `getFilteredSize()` bytes of the
      selected parts. */
  lemma ConnectPayloadSizeMatches(p: ConnectPayload, sel: Option<Parts>)
    requires ConnectStorable(p, sel) && (sel.Some? && sel.value.will ==> Consistent(p.will.value))
    ensures |EncodeConnectPayload(p, sel)| == ConnectPayloadSize(p, sel)
    ensures EncodeConnectPayload(p, sel)[..p.clientID.Size()] == p.clientID.Encode()
    ensures |EncodeConnectPayload(p, sel)[p.clientID.Size()..]| == FilteredSize(p, sel)
  {
    if sel.Some? && sel.value.will {
      WillSize(p.will.value);
    }
  }

  /** A string's bytes when its flag is set, else nothing. */
  function FlaggedBytes(on: bool, x: Owned): (r: seq<byte>)
    requires on ==> x.Readable()
    ensures |r| == FlaggedSize(on, x)
  {
    if on then x.Encode() else []
  }

  /** The user name and password bytes, as flagged. */
  function UserBytes(s: Parts, username: Owned, password: Owned): seq<byte>
    requires (s.username ==> username.Readable()) && (s.password ==> password.Readable())
  {
    FlaggedBytes(s.username, username) + FlaggedBytes(s.password, password)
  }

  /** `Payload<CONNECT>::readFrom`: the client identifier; without the
      CONNECT field, its result; otherwise the will, the user name and
      the password as the flags select, the first error returned as is. */
  function ReadConnectPayload(prev: ConnectPayload, sel: Option<Parts>, buf: seq<byte>): (res: (Status, ConnectPayload))
    requires WillPresent(prev, sel)
    ensures res.0 != Shortcut
    ensures res.0.Ok? ==> res.0.n <= |buf|
  {
    var rc := ReadOwned(prev.clientID, buf);
    var p := prev.(clientID := rc.1);
    if rc.0.IsError() || sel.None? then (rc.0, p)
    else ReadWillPart(p, sel.value, buf, rc.0.n)
  }

  /** The will, when flagged, from offset `o`. */
  function ReadWillPart(p: ConnectPayload, s: Parts, buf: seq<byte>, o: nat): (res: (Status, ConnectPayload))
    requires o <= |buf| && WillPresent(p, Some(s))
    ensures res.0 != Shortcut
    ensures res.0.Ok? ==> o <= res.0.n <= |buf|
  {
    if s.will then
      var rw := ReadWill(p.will.value, buf[o..]);
      var q := p.(will := Some(rw.1));
      if rw.0.IsError() then (rw.0, q) else ReadUserPart(q, s, buf, o + rw.0.n)
    else ReadUserPart(p, s, buf, o)
  }

  /** A string, when its flag is set, from offset `o`: the offset past it,
      or the error of its read. */
  function ReadFlaggedString(on: bool, prev: Owned, buf: seq<byte>, o: nat): (res: (Status, Owned))
    requires o <= |buf|
    ensures res.0 != Shortcut
    ensures res.0.Ok? ==> o <= res.0.n <= |buf|
  {
    if on then
      var r := ReadOwned(prev, buf[o..]);
      if r.0.IsError() then r else (Ok(o + r.0.n), r.1)
    else (Ok(o), prev)
  }

  /** The user name, then the password, each when flagged, from offset
      `o`; the total read. */
  function ReadUserPart(p: ConnectPayload, s: Parts, buf: seq<byte>, o: nat): (res: (Status, ConnectPayload))
    requires o <= |buf|
    ensures res.0 != Shortcut
    ensures res.0.Ok? ==> o <= res.0.n <= |buf|
  {
    var ru := ReadFlaggedString(s.username, p.username, buf, o);
    if ru.0.IsError() then (ru.0, p.(username := ru.1))
    else
      var rp := ReadFlaggedString(s.password, p.password, buf, ru.0.n);
      (rp.0, p.(username := ru.1, password := rp.1))
  }

  /** A string a read leaves: as written when its flag is set, else as
      it was. */
  function StringRead(on: bool, x: Owned, prev: Owned): Owned
    requires on ==> x.Readable()
  {
    if on then OwnedOf(x.Content()) else prev
  }

  /** The will a read leaves. */
  function WillRead(on: bool, w: Option<WillMessage>, prev: Option<WillMessage>): Option<WillMessage>
    requires on ==> w.Some? && w.value.Storable()
  {
    if on then Some(NormalWill(w.value)) else prev
  }

  /** The parts of a CONNECT payload whose wills are consistent and whose
      will properties read back. */
  predicate ConnectReadable(p: ConnectPayload, sel: Option<Parts>)
  {
    ConnectStorable(p, sel)
    && (sel.Some? && sel.value.will ==> Consistent(p.will.value) && AllRoundTrip(p.will.value.props))
  }

  /** Reading back what `copyInto` wrote under the same CONNECT field gives
      the client identifier and every part the flags select; the parts not
      selected keep their values, and without the field nothing but the
      client identifier is read. */
  lemma ConnectPayloadRoundTrip(prev: ConnectPayload, sel: Option<Parts>, p: ConnectPayload, rest: seq<byte>)
    requires ConnectReadable(p, sel) && WillPresent(prev, sel)
    ensures var r := ReadConnectPayload(prev, sel, EncodeConnectPayload(p, sel) + rest);
      r.0 == Ok(ConnectPayloadSize(p, sel)) && r.1.clientID == OwnedOf(p.clientID.Content())
      && (sel.None? ==> r.1.will == prev.will && r.1.username == prev.username && r.1.password == prev.password)
      && (sel.Some? ==>
            r.1.will == WillRead(sel.value.will, p.will, prev.will)
            && r.1.username == StringRead(sel.value.username, p.username, prev.username)
            && r.1.password == StringRead(sel.value.password, p.password, prev.password))
  {
    hide ReadWillPart, ReadWill, ReadUserPart, ReadOwned;
    var b := EncodeConnectPayload(p, sel) + rest;
    if sel.None? {
      OwnedRoundTrip(prev.clientID, p.clientID, rest);
    } else {
      var tail := EncodeFlagged(p, sel.value) + rest;
      Assoc(p.clientID.Encode(), EncodeFlagged(p, sel.value), rest);
      OwnedRoundTrip(prev.clientID, p.clientID, tail);
      Skip(b, 0, p.clientID.Encode(), tail);
      WillPartOf(prev.(clientID := OwnedOf(p.clientID.Content())), sel.value, p, b, p.clientID.Size(), rest);
    }
  }

  /** Helper: the flagged parts read back from offset `o`. */
  lemma WillPartOf(q: ConnectPayload, s: Parts, p: ConnectPayload, b: seq<byte>, o: nat, rest: seq<byte>)
    requires ConnectReadable(p, Some(s)) && WillPresent(q, Some(s))
    requires o <= |b| && b[o..] == EncodeFlagged(p, s) + rest
    ensures ReadWillPart(q, s, b, o).0 == Ok(o + FilteredSize(p, Some(s)))
    ensures ReadWillPart(q, s, b, o).1.clientID == q.clientID
    ensures ReadWillPart(q, s, b, o).1.will == WillRead(s.will, p.will, q.will)
    ensures ReadWillPart(q, s, b, o).1.username == StringRead(s.username, p.username, q.username)
    ensures ReadWillPart(q, s, b, o).1.password == StringRead(s.password, p.password, q.password)
  {
    hide ReadWill, ReadUserPart, ReadFlaggedString, ReadOwned;
    if s.will {
      var w := p.will.value;
      WillSize(w);
      WillPartWith(q, s, w, p.username, p.password, b, o, rest);
    } else {
      UserPartOf(q, s, p.username, p.password, b, o, rest);
    }
  }

  /** Helper: the flagged parts, a will among them, read back from offset `o`. */
  lemma WillPartWith(q: ConnectPayload, s: Parts, w: WillMessage, username: Owned, password: Owned,
                     b: seq<byte>, o: nat, rest: seq<byte>)
    requires s.will && q.will.Some? && Consistent(w) && AllRoundTrip(w.props)
    requires (s.username ==> username.Readable()) && (s.password ==> password.Readable())
    requires o <= |b| && b[o..] == w.Encode() + UserBytes(s, username, password) + rest
    ensures ReadWillPart(q, s, b, o).0 == Ok(o + w.Size() + FlaggedSize(s.username, username) + FlaggedSize(s.password, password))
    ensures ReadWillPart(q, s, b, o).1.clientID == q.clientID
    ensures ReadWillPart(q, s, b, o).1.will == Some(NormalWill(w))
    ensures ReadWillPart(q, s, b, o).1.username == StringRead(s.username, username, q.username)
    ensures ReadWillPart(q, s, b, o).1.password == StringRead(s.password, password, q.password)
  {
    hide ReadWillPart, ReadWill, ReadUserPart, ReadFlaggedString, ReadOwned;
    var u := UserBytes(s, username, password);
    WillSize(w);
    WillPartBytes(w, u, b, o, rest);
    WillAt(q.will.value, w, b, o, u + rest);
    WillPartOn(q, s, username, password, b, o, w.Size(), NormalWill(w), rest);
  }

  /** Helper: a will reads back from offset `o`. */
  lemma WillAt(prev: WillMessage, w: WillMessage, b: seq<byte>, o: nat, rest: seq<byte>)
    requires Consistent(w) && AllRoundTrip(w.props)
    requires o <= |b| && b[o..] == w.Encode() + rest
    ensures ReadWill(prev, b[o..]).0 == Ok(w.Size()) && ReadWill(prev, b[o..]).1 == NormalWill(w)
  {
    WillRoundTrip(prev, w, rest);
  }

  /** Helper: the flagged parts once the will has been read. */
  lemma WillPartOn(q: ConnectPayload, s: Parts, username: Owned, password: Owned, b: seq<byte>, o: nat, n: nat,
                   w: WillMessage, rest: seq<byte>)
    requires s.will && q.will.Some? && o + n <= |b|
    requires ReadWill(q.will.value, b[o..]).0 == Ok(n) && ReadWill(q.will.value, b[o..]).1 == w
    requires (s.username ==> username.Readable()) && (s.password ==> password.Readable())
    requires b[o + n..] == UserBytes(s, username, password) + rest
    ensures ReadWillPart(q, s, b, o).0 == Ok(o + n + FlaggedSize(s.username, username) + FlaggedSize(s.password, password))
    ensures ReadWillPart(q, s, b, o).1.clientID == q.clientID
    ensures ReadWillPart(q, s, b, o).1.will == Some(w)
    ensures ReadWillPart(q, s, b, o).1.username == StringRead(s.username, username, q.username)
    ensures ReadWillPart(q, s, b, o).1.password == StringRead(s.password, password, q.password)
  {
    hide ReadWill, ReadFlaggedString, ReadOwned;
    UserPartOf(q.(will := Some(w)), s, username, password, b, o + n, rest);
  }

  /** Helper: the bytes after the client identifier, split after the will. */
  lemma WillPartBytes(w: WillMessage, u: seq<byte>, b: seq<byte>, o: nat, rest: seq<byte>)
    requires w.Storable() && o <= |b| && b[o..] == w.Encode() + u + rest
    ensures b[o..] == w.Encode() + (u + rest)
    ensures o + |w.Encode()| <= |b| && b[o + |w.Encode()|..] == u + rest
  {
    Assoc(w.Encode(), u, rest);
    Skip(b, o, w.Encode(), u + rest);
  }

  /** Helper: the user name and password read back from offset `o`. */
  lemma UserPartOf(q: ConnectPayload, s: Parts, username: Owned, password: Owned, b: seq<byte>, o: nat, rest: seq<byte>)
    requires (s.username ==> username.Readable()) && (s.password ==> password.Readable())
    requires o <= |b| && b[o..] == UserBytes(s, username, password) + rest
    ensures ReadUserPart(q, s, b, o).0 == Ok(o + FlaggedSize(s.username, username) + FlaggedSize(s.password, password))
    ensures ReadUserPart(q, s, b, o).1.clientID == q.clientID && ReadUserPart(q, s, b, o).1.will == q.will
    ensures ReadUserPart(q, s, b, o).1.username == StringRead(s.username, username, q.username)
    ensures ReadUserPart(q, s, b, o).1.password == StringRead(s.password, password, q.password)
  {
    hide ReadUserPart, ReadFlaggedString, ReadOwned;
    var n1 := o + FlaggedSize(s.username, username);
    UserStringsRead(q, s, username, password, b, o, rest);
    UserPartSeq(q, s, b, o, n1, StringRead(s.username, username, q.username),
                n1 + FlaggedSize(s.password, password), StringRead(s.password, password, q.password));
  }

  /** Helper: both flagged strings read back, one after the other. */
  lemma UserStringsRead(q: ConnectPayload, s: Parts, username: Owned, password: Owned, b: seq<byte>, o: nat, rest: seq<byte>)
    requires (s.username ==> username.Readable()) && (s.password ==> password.Readable())
    requires o <= |b| && b[o..] == UserBytes(s, username, password) + rest
    ensures var n1 := o + FlaggedSize(s.username, username);
      n1 <= |b| && ReadFlaggedString(s.username, q.username, b, o) == (Ok(n1), StringRead(s.username, username, q.username))
      && ReadFlaggedString(s.password, q.password, b, n1)
         == (Ok(n1 + FlaggedSize(s.password, password)), StringRead(s.password, password, q.password))
  {
    hide ReadFlaggedString, ReadOwned;
    var f1, f2 := FlaggedBytes(s.username, username), FlaggedBytes(s.password, password);
    Assoc(f1, f2, rest);
    FlaggedStringOf(s.username, q.username, username, b, o, f2 + rest);
    Skip(b, o, f1, f2 + rest);
    FlaggedStringOf(s.password, q.password, password, b, o + |f1|, rest);
  }

  /** Helper: `ReadUserPart` is the two reads in sequence. */
  lemma UserPartSeq(q: ConnectPayload, s: Parts, b: seq<byte>, o: nat, n1: nat, x1: Owned, n2: nat, x2: Owned)
    requires o <= |b| && n1 <= |b|
    requires ReadFlaggedString(s.username, q.username, b, o) == (Ok(n1), x1)
    requires ReadFlaggedString(s.password, q.password, b, n1) == (Ok(n2), x2)
    ensures ReadUserPart(q, s, b, o).0 == Ok(n2)
    ensures ReadUserPart(q, s, b, o).1.clientID == q.clientID && ReadUserPart(q, s, b, o).1.will == q.will
    ensures ReadUserPart(q, s, b, o).1.username == x1 && ReadUserPart(q, s, b, o).1.password == x2
  {
  }

  /** Helper: a flagged string reads back from offset `o`. */
  lemma FlaggedStringOf(on: bool, prev: Owned, x: Owned, b: seq<byte>, o: nat, rest: seq<byte>)
    requires (on ==> x.Readable()) && o <= |b| && b[o..] == FlaggedBytes(on, x) + rest
    ensures ReadFlaggedString(on, prev, b, o).0 == Ok(o + FlaggedSize(on, x))
    ensures ReadFlaggedString(on, prev, b, o).1 == StringRead(on, x, prev)
  {
    if on {
      StringOf(prev, x, b, o, rest);
    }
  }

  /** Helper: a string reads back from offset `o`. */
  lemma StringOf(prev: Owned, x: Owned, b: seq<byte>, o: nat, rest: seq<byte>)
    requires x.Readable() && o <= |b| && b[o..] == x.Encode() + rest
    ensures ReadFlaggedString(true, prev, b, o).0 == Ok(o + x.Size())
    ensures ReadFlaggedString(true, prev, b, o).1 == OwnedOf(x.Content())
  {
    hide ReadOwned;
    OwnedRoundTrip(prev, x, rest);
  }

  /** `Payload<CONNECT>::check`: the client identifier; without the
      CONNECT field nothing else; otherwise each flagged part (the will by
      `checkWillProperties`, which is the will's `check` once the flag is
      set). */
  predicate CheckConnectPayload(p: ConnectPayload, sel: Option<Parts>)
    requires WillPresent(p, sel)
  {
    p.clientID.Check()
    && (sel.Some? ==>
          (sel.value.will ==> p.will.value.Check())
          && (sel.value.username ==> p.username.Check())
          && (sel.value.password ==> p.password.Check()))
  }

  /** What `Payload<CONNECT>::check` accepts, by the CONNECT field its
      flags come from: without that field, exactly a valid client
      identifier; with it, a valid client identifier together with the
      will, the user name and the password its flags select, and nothing
      about the parts it does not select. */
  lemma CheckConnectPayloadFlags(p: ConnectPayload, hdr: Option<ConnectField>)
    requires WillPresent(p, PartsOf(hdr))
    ensures hdr.None? ==> (CheckConnectPayload(p, PartsOf(hdr)) <==> p.clientID.Check())
    ensures hdr.Some? ==>
      (CheckConnectPayload(p, PartsOf(hdr)) <==>
         p.clientID.Check() && (hdr.value.WillFlag() ==> p.will.value.Check())
         && (hdr.value.UsernameFlag() ==> p.username.Check()) && (hdr.value.PasswordFlag() ==> p.password.Check()))
    ensures hdr.Some? && !hdr.value.WillFlag() && !hdr.value.UsernameFlag() && !hdr.value.PasswordFlag() ==>
      (CheckConnectPayload(p, PartsOf(hdr)) <==> p.clientID.Check())
  {
  }

  /** `count` consecutive byte values from `lo`. */
  function Run(lo: nat, count: nat): (r: seq<byte>)
    requires lo + count <= 256
    ensures |r| == count && forall i :: 0 <= i < count ==> r[i] as nat == lo + i
  {
    if count == 0 then [] else Run(lo, count - 1) + [(lo + count - 1) as byte]
  }

  /** The characters `checkClientID` accepts, in its order: digits, then
      lower-case and upper-case ASCII letters. */
  const ClientIDChars: seq<byte> := Run(0x30, 10) + Run(0x61, 26) + Run(0x41, 26)

  /** One of those characters. */
  predicate IdChar(c: byte)
  {
    c in ClientIDChars
  }

  /** Every byte of the identifier is one of them. */
  predicate ClientIDAllowed(id: seq<byte>)
  {
    forall i :: 0 <= i < |id| ==> IdChar(id[i])
  }

  /** The characters are exactly the ASCII digits and letters, the set the
      standard obliges a server to accept (section 3.1.3.1). */
  lemma ClientIDCharsAreAlphanumeric(c: byte)
    ensures IdChar(c) <==> (0x30 <= c <= 0x39 || 0x61 <= c <= 0x7A || 0x41 <= c <= 0x5A)
  {
    hide Run;
    var d, l, u := Run(0x30, 10), Run(0x61, 26), Run(0x41, 26);
    assert ClientIDChars == d + l + u;
    if c in d + l + u {
      var k :| 0 <= k < |d + l + u| && (d + l + u)[k] == c;
      assert k < 10 ==> d[k] == c;
      assert 10 <= k < 36 ==> l[k - 10] == c;
      assert 36 <= k ==> u[k - 36] == c;
    }
    if 0x30 <= c <= 0x39 {
      assert d[c as int - 0x30] == c;
    } else if 0x61 <= c <= 0x7A {
      assert l[c as int - 0x61] == c;
    } else if 0x41 <= c <= 0x5A {
      assert u[c as int - 0x41] == c;
    }
  }

  /** `checkClientID`: an empty identifier passes; otherwise the loop
      over its bytes stops at the first one outside the characters. */
  method CheckClientID(p: ConnectPayload) returns (ok: bool)
    requires p.clientID.Readable()
    ensures ok == ClientIDAllowed(p.clientID.Content())
  {
    hide IdChar;
    if p.clientID.length == 0 {
      return true;
    }
    var id := p.clientID.Content();
    var i := 0;
    while i < p.clientID.length
      invariant 0 <= i <= |id|
      invariant ClientIDAllowed(id[..i])
    {
      if !IdChar(id[i]) {
        assert !ClientIDAllowed(id);
        return false;
      }
      assert id[..i + 1] == id[..i] + [id[i]];
      i := i + 1;
    }
    assert id[..i] == id;
    return true;
  }

  // Application data (`PayloadWithData`)

  /** `PayloadWithData<true>`: an owned block of `size` bytes. */
  datatype DataPayload = DataPayload(data: seq<byte>) {
    function Size(): nat { |data| }
  }

  /** `count` zero bytes. */
  function Zeros(count: nat): (r: seq<byte>)
    ensures |r| == count && forall i :: 0 <= i < count ==> r[i] == 0
  {
    if count == 0 then [] else Zeros(count - 1) + [0]
  }

  /** `setExpectedPacketSize`: the block is reallocated to `n` bytes, the
      bytes it held kept up to `n` (the new bytes are taken as zeros). */
  function SetExpectedSize(p: DataPayload, n: nat): (q: DataPayload)
    ensures q.Size() == n
    ensures n <= p.Size() ==> q.data == p.data[..n]
    ensures n > p.Size() ==> q.data[..p.Size()] == p.data
  {
    if n <= |p.data| then DataPayload(p.data[..n]) else DataPayload(p.data + Zeros(n - |p.data|))
  }

  /** `readFrom`: NotEnoughData when fewer than `size` bytes are left,
      otherwise the block is filled with the first `size` bytes. */
  function ReadData(p: DataPayload, buf: seq<byte>): (res: (Status, DataPayload))
    ensures |buf| < p.Size() ==> res == (NotEnoughData, p)
    ensures |buf| >= p.Size() ==> res.0 == Ok(p.Size()) && res.1.data == buf[..p.Size()]
  {
    if |buf| < |p.data| then (NotEnoughData, p) else (Ok(|p.data|), DataPayload(buf[..|p.data|]))
  }

  /** Once the expected size is set to what was written, the data reads
      back, whatever follows. */
  lemma DataRoundTrip(prev: DataPayload, d: DataPayload, rest: seq<byte>)
    ensures var r := ReadData(SetExpectedSize(prev, d.Size()), d.data + rest);
      r.0 == Ok(d.Size()) && r.1 == d
  {
    assert (d.data + rest)[..|d.data|] == d.data;
  }

  /** `PayloadWithData<false>`: a size and a pointer into the buffer the
      packet was read from (`None` when null). */
  datatype DataView = DataView(size: nat, data: Option<nat>)

  /** `readFrom`: NotEnoughData when fewer than `size` bytes are left,
      otherwise the pointer is set to them, nothing copied. */
  function ReadDataView(p: DataView, src: seq<byte>, at: nat, n: nat): (res: (Status, DataView))
    requires at + n <= |src|
    ensures n < p.size ==> res == (NotEnoughData, p)
    ensures n >= p.size ==>
      res.0 == Ok(p.size) && res.1.size == p.size && res.1.data == Some(at)
      && src[at..at + res.1.size] == src[at..at + n][..p.size]
  {
    if n < p.size then (NotEnoughData, p) else (Ok(p.size), p.(data := Some(at)))
  }
}
