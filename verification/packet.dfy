/** The framing every control packet shares (section 2.1 of the OASIS MQTT
    Version 5.0 standard): the header byte, the remaining length as a
    Variable Byte Integer, then the fixed variable header, the properties
    and the payload. `ControlPacket<type>` assembles three parts whose
    types depend on the packet type; here the three are type parameters,
    each given with the operations the framing calls on it. The two PING
    packets have their own, shorter framing. */
module Packet {
  import opened Wire
  import opened VarInt
  import opened Header

  /** The operations of one part of a packet: `getSize`, `copyInto`,
      `readFrom` and `check`. `read` takes the part's previous value, the
      size it has been told to expect (the remaining length for the fixed
      field, the expected payload size for the payload; the properties
      ignore it) and the bytes left in the buffer. */
  datatype Part<!T> = Part(size: T -> nat, encode: T -> seq<byte>,
                          read: (T, nat, seq<byte>) -> (Status, T), check: T -> bool)

  /** One read of a part consumes no more than the bytes it is given, ... */
  ghost predicate ReadsWithin<T>(c: Part<T>, x: T, e: nat, b: seq<byte>)
  {
    c.read(x, e, b).0.Ok? ==> c.read(x, e, b).0.n <= |b|
  }

  /** ... whatever it reads: the framing advances its offset by what each
      part reports. */
  ghost predicate Bounded<T(!new)>(c: Part<T>)
  {
    forall x, e, b {:trigger ReadsWithin(c, x, e, b)} :: ReadsWithin(c, x, e, b)
  }

  /** The fields of a `ControlPacket`, as a value. */
  datatype Frame<F, P, Q> = Frame(typeAndFlags: byte, remLength: VBInt, fixed: F, props: P, payload: Q)

  /** What the remaining length counts: the fixed field, the properties
      and the payload. */
  function PartsSize<F(!new), P(!new), Q(!new)>(fp: Part<F>, pp: Part<P>, qp: Part<Q>, s: Frame<F, P, Q>): nat
  {
    fp.size(s.fixed) + pp.size(s.props) + qp.size(s.payload)
  }

  /** `getSize`: the header byte, the remaining length field and the bytes
      it counts. */
  function FrameSize<F(!new), P(!new), Q(!new)>(s: Frame<F, P, Q>): nat
  {
    1 + s.remLength.Size() + s.remLength.Decoded()
  }

  /** `copyInto`: the header byte, the remaining length, the fixed field,
      the properties and the payload, in that order. */
  function FrameBytes<F(!new), P(!new), Q(!new)>(fp: Part<F>, pp: Part<P>, qp: Part<Q>, s: Frame<F, P, Q>): seq<byte>
  {
    [s.typeAndFlags] + s.remLength.Bytes() + fp.encode(s.fixed) + pp.encode(s.props) + qp.encode(s.payload)
  }

  /** `computePacketSize(false)`: the remaining length less the sizes of
      the fixed field and of the properties, in `uint32` arithmetic, which
      wraps around below zero. */
  function ExpectedPayloadSize(remaining: nat, fixedSize: nat, propsSize: nat): (r: nat)
    ensures r < U32
    ensures fixedSize + propsSize <= remaining < U32 ==> r == remaining - fixedSize - propsSize
    ensures remaining < fixedSize + propsSize <= remaining + U32 ==> r == remaining + U32 - fixedSize - propsSize
  {
    (remaining - fixedSize - propsSize) % U32
  }

  /** An encodable length and the packet it frames stay below 2^32. */
  lemma NoWrap(v: nat)
    ensures v <= MaxPossibleSize ==> v % U32 == v && (v + 1 + EncodedSize(v)) % U32 == v + 1 + EncodedSize(v)
  {
  }

  /** What `computePacketSize(false)` returns on the fields `s`: the size
      left for the payload. */
  function ExpectedSize<F(!new), P(!new), Q(!new)>(fp: Part<F>, pp: Part<P>, s: Frame<F, P, Q>): (r: nat)
    ensures r < U32
  {
    ExpectedPayloadSize(s.remLength.Decoded(), fp.size(s.fixed), pp.size(s.props))
  }

  /** `computePacketSize(true)` stores the parts' size as the remaining
      length; when that size is encodable, the size returned is `getSize()`
      and a later `computePacketSize(false)` gives back the payload's size. */
  lemma ComputedSizes<F(!new), P(!new), Q(!new)>(fp: Part<F>, pp: Part<P>, qp: Part<Q>, s: Frame<F, P, Q>)
    requires PartsSize(fp, pp, qp, s) <= MaxPossibleSize
    ensures var t := s.(remLength := Assign(PartsSize(fp, pp, qp, s)));
      FrameSize(t) == 1 + EncodedSize(PartsSize(fp, pp, qp, s)) + PartsSize(fp, pp, qp, s)
      && ExpectedPayloadSize(t.remLength.Decoded(), fp.size(t.fixed), pp.size(t.props)) == qp.size(t.payload)
  {
  }

  /** Once `computePacketSize(true)` has run, `copyInto` writes `getSize()`
      bytes, given parts that write as many bytes as they count. */
  lemma FrameBytesSize<F(!new), P(!new), Q(!new)>(fp: Part<F>, pp: Part<P>, qp: Part<Q>, s: Frame<F, P, Q>)
    requires PartsSize(fp, pp, qp, s) <= MaxPossibleSize && s.remLength == Assign(PartsSize(fp, pp, qp, s))
    requires |fp.encode(s.fixed)| == fp.size(s.fixed) && |pp.encode(s.props)| == pp.size(s.props)
    requires |qp.encode(s.payload)| == qp.size(s.payload)
    ensures |FrameBytes(fp, pp, qp, s)| == FrameSize(s)
  {
  }

  /** What reading a packet's parts comes to: a status and the fields as
      the reads left them, or an overrun. A part overruns when it reports
      more bytes than it was given: `readFrom` then subtracts that count
      from `bufLength`, which wraps around, and the next part reads past the
      end of the buffer, so that nothing further is defined. */
  datatype Outcome<F, P, Q> = Done(status: Status, frame: Frame<F, P, Q>) | Overrun(frame: Frame<F, P, Q>)

  /** The fixed field, the properties and the payload read from `body`, the
      bytes past the remaining length field, of which the remaining length
      `expLength` are available. The fixed field is told the remaining
      length and given all of `body`: its Shortcut ends the packet,
      reported as the whole remaining length consumed. Then come the
      properties, and the payload, told the size `computePacketSize(false)`
      gives once the fixed field and the properties are read. Each field
      keeps what its read left, failed or not; the count is relative to
      `body`. Parts that never overrun never give an overrun. */
  function ReadBody<F(!new), P(!new), Q(!new)>(fp: Part<F>, pp: Part<P>, qp: Part<Q>, s: Frame<F, P, Q>,
                                                body: seq<byte>, expLength: nat)
    : (res: Outcome<F, P, Q>)
    requires expLength <= |body|
    ensures res.Done? && res.status.Ok? ==> res.status.n <= |body|
    ensures Bounded(fp) && Bounded(pp) && Bounded(qp) ==> res.Done?
    ensures res.frame.typeAndFlags == s.typeAndFlags && res.frame.remLength == s.remLength
  {
    var rf := fp.read(s.fixed, expLength, body);
    var s3 := s.(fixed := rf.1);
    if rf.0.IsError() then Done(if rf.0 == Shortcut then Ok(expLength) else rf.0, s3)
    else if rf.0.n > |body| then
      assert !ReadsWithin(fp, s.fixed, expLength, body);
      Overrun(s3)
    else
      var o2 := rf.0.n;
      var rp := pp.read(s.props, 0, body[o2..]);
      var s4 := s3.(props := rp.1);
      if rp.0.IsError() then Done(rp.0, s4)
      else if rp.0.n > |body| - o2 then
        assert !ReadsWithin(pp, s.props, 0, body[o2..]);
        Overrun(s4)
      else
        var o3 := o2 + rp.0.n;
        var exp := ExpectedSize(fp, pp, s4);
        var rq := qp.read(s.payload, exp, body[o3..]);
        var s5 := s4.(payload := rq.1);
        if rq.0.IsError() then Done(rq.0, s5)
        else if rq.0.n > |body| - o3 then
          assert !ReadsWithin(qp, s.payload, exp, body[o3..]);
          Overrun(s5)
        else Done(Ok(o3 + rq.0.n), s5)
  }

  /** `ControlPacket::readFrom` on the fields `s`: fewer than two bytes is
      NotEnoughData; the header byte is stored, then the remaining length
      read (its errors returned); fewer bytes left than it announces is
      NotEnoughData; otherwise the parts are read as `ReadBody` says, past
      the header and the length field. */
  function ReadPacket<F(!new), P(!new), Q(!new)>(fp: Part<F>, pp: Part<P>, qp: Part<Q>, s: Frame<F, P, Q>, buf: seq<byte>)
    : (res: Outcome<F, P, Q>)
    ensures res.Done? && res.status.Ok? ==> res.status.n <= |buf|
    ensures Bounded(fp) && Bounded(pp) && Bounded(qp) ==> res.Done?
    ensures |buf| < 2 ==> res == Done(NotEnoughData, s)
  {
    if |buf| < 2 then Done(NotEnoughData, s)
    else
      var rv := VarInt.ReadSpec(buf[1..]);
      var s2 := s.(typeAndFlags := buf[0], remLength := rv.1);
      if rv.0.IsError() then Done(rv.0, s2)
      else
        var o := 1 + rv.0.n;
        var expLength := rv.1.Decoded();
        if |buf| - o < expLength then Done(NotEnoughData, s2)
        else
          var rb := ReadBody(fp, pp, qp, s2, buf[o..], expLength);
          if rb.Done? && rb.status.Ok? then Done(Ok(o + rb.status.n), rb.frame) else rb
  }

  /** A packet whose remaining length announces more bytes than follow it
      is NotEnoughData, with only the header byte and the length stored,
      whatever its parts. */
  lemma TruncatedRefused<F(!new), P(!new), Q(!new)>(fp: Part<F>, pp: Part<P>, qp: Part<Q>, s: Frame<F, P, Q>, h: byte, v: nat,
                                  body: seq<byte>)
    requires v <= MaxSizeOn3Bytes && |body| < v
    ensures ReadPacket(fp, pp, qp, s, [h] + Digits(v) + body) == Done(NotEnoughData, s.(typeAndFlags := h, remLength := Assign(v)))
  {
    hide ReadSpec, VBInt.Decoded, ReadBody;
    var buf := [h] + Digits(v) + body;
    assert buf[1..] == Digits(v) + body;
    ReadOfEncoding(v, body);
  }

  /** A fixed field that answers Shortcut ends the read: the packet is
      reported as its header, its length field and its remaining length
      consumed, with only the header, the length and the fixed field
      updated. */
  lemma ShortcutFrames<F(!new), P(!new), Q(!new)>(fp: Part<F>, pp: Part<P>, qp: Part<Q>, s: Frame<F, P, Q>, h: byte, v: nat,
                                body: seq<byte>)
    requires v <= MaxSizeOn3Bytes && v <= |body| && fp.read(s.fixed, v, body).0 == Shortcut
    ensures ReadPacket(fp, pp, qp, s, [h] + Digits(v) + body)
         == Done(Ok(1 + |Digits(v)| + v), Frame(h, Assign(v), fp.read(s.fixed, v, body).1, s.props, s.payload))
  {
    hide ReadPacket, ReadBody, Digits, Assign;
    var t := s.(typeAndFlags := h, remLength := Assign(v));
    FramedRead(fp, pp, qp, s, h, v, body);
    BodyShortcut(fp, pp, qp, t, body, v);
  }

  /** Helper: a fixed field's Shortcut is the whole body read. */
  lemma BodyShortcut<F(!new), P(!new), Q(!new)>(fp: Part<F>, pp: Part<P>, qp: Part<Q>, t: Frame<F, P, Q>,
                                body: seq<byte>, v: nat)
    requires v <= |body| && fp.read(t.fixed, v, body).0 == Shortcut
    ensures ReadBody(fp, pp, qp, t, body, v) == Done(Ok(v), t.(fixed := fp.read(t.fixed, v, body).1))
  {
  }

  /** Helper: past a header byte and the encoding of a length `v` that
      fits three bytes, with at least `v` bytes behind it, the packet read
      is the body read, its count moved past the length field. */
  lemma FramedRead<F(!new), P(!new), Q(!new)>(fp: Part<F>, pp: Part<P>, qp: Part<Q>, s: Frame<F, P, Q>, h: byte, v: nat,
                              body: seq<byte>)
    requires v <= MaxSizeOn3Bytes && v <= |body|
    ensures var rb := ReadBody(fp, pp, qp, s.(typeAndFlags := h, remLength := Assign(v)), body, v);
      ReadPacket(fp, pp, qp, s, [h] + Digits(v) + body)
      == if rb.Done? && rb.status.Ok? then Done(Ok(1 + |Digits(v)| + rb.status.n), rb.frame) else rb
  {
    hide ReadSpec, VBInt.Decoded, ReadBody;
    FramedBody(h, Digits(v), body);
    ReadOfEncoding(v, body);
  }

  /** A fixed field that reports more bytes than follow the length field
      overruns the buffer, with the header, the length and the fixed field
      as that read left them. */
  lemma FixedOverrun<F(!new), P(!new), Q(!new)>(fp: Part<F>, pp: Part<P>, qp: Part<Q>, s: Frame<F, P, Q>, h: byte, v: nat,
                                body: seq<byte>)
    requires v <= MaxSizeOn3Bytes && v <= |body|
    requires fp.read(s.fixed, v, body).0.Ok? && fp.read(s.fixed, v, body).0.n > |body|
    ensures ReadPacket(fp, pp, qp, s, [h] + Digits(v) + body)
         == Overrun(Frame(h, Assign(v), fp.read(s.fixed, v, body).1, s.props, s.payload))
    ensures !Bounded(fp)
  {
    FramedRead(fp, pp, qp, s, h, v, body);
    assert !ReadsWithin(fp, s.fixed, v, body);
  }

  /** The parts read back from their own bytes: when the fixed field, told
      the remaining length, reads back `f2` from its `fb`, the properties
      `p2` from their `pb` and the payload, told the size left, `q2` from
      its `qb`, the whole remaining length is consumed. */
  lemma BodyRoundTrip<F(!new), P(!new), Q(!new)>(fp: Part<F>, pp: Part<P>, qp: Part<Q>, t: Frame<F, P, Q>,
                                                 fb: seq<byte>, pb: seq<byte>, qb: seq<byte>, rest: seq<byte>,
                                                 f2: F, p2: P, q2: Q)
    requires t.remLength.Decoded() == |fb| + |pb| + |qb| && fp.size(f2) == |fb| && pp.size(p2) == |pb|
    requires fp.read(t.fixed, |fb| + |pb| + |qb|, fb + (pb + (qb + rest))) == (Ok(|fb|), f2)
    requires pp.read(t.props, 0, pb + (qb + rest)) == (Ok(|pb|), p2)
    requires qp.read(t.payload, |qb|, qb + rest) == (Ok(|qb|), q2)
    ensures ReadBody(fp, pp, qp, t, fb + (pb + (qb + rest)), |fb| + |pb| + |qb|)
         == Done(Ok(|fb| + |pb| + |qb|), t.(fixed := f2, props := p2, payload := q2))
  {
    DropPrefix(fb, pb + (qb + rest));
    DropPrefix(fb + pb, qb + rest);
    assert (fb + (pb + (qb + rest)))[|fb| + |pb|..] == qb + rest;
  }

  /** What `copyInto` wrote, followed by `rest`: the header byte, the
      encoded length and the parts' bytes, then `rest`. */
  lemma FrameBytesSplit<F(!new), P(!new), Q(!new)>(fp: Part<F>, pp: Part<P>, qp: Part<Q>, s: Frame<F, P, Q>, rest: seq<byte>)
    requires PartsSize(fp, pp, qp, s) <= MaxPossibleSize && s.remLength == Assign(PartsSize(fp, pp, qp, s))
    ensures FrameBytes(fp, pp, qp, s) + rest
         == [s.typeAndFlags] + Digits(PartsSize(fp, pp, qp, s))
            + (fp.encode(s.fixed) + (pp.encode(s.props) + (qp.encode(s.payload) + rest)))
  {
  }

  /** Past the header byte and the length field of a framed `body`. */
  lemma FramedBody(h: byte, d: seq<byte>, body: seq<byte>)
    ensures ([h] + d + body)[1..] == d + body && ([h] + d + body)[1 + |d|..] == body
  {
    assert ([h] + d + body)[1..] == d + body;
  }

  /** Reading back what `copyInto` wrote after `computePacketSize(true)`:
      when each part reads back its own bytes (`f2`, `p2` and `q2`, of the
      same sizes as what was written), the packet reads back whole, with
      the same header and remaining length. The length must fit in three
      bytes, because `VBInt::readFrom` refuses every four-byte length. */
  lemma FrameRoundTrip<F(!new), P(!new), Q(!new)>(fp: Part<F>, pp: Part<P>, qp: Part<Q>, prev: Frame<F, P, Q>, s: Frame<F, P, Q>,
                                f2: F, p2: P, q2: Q, rest: seq<byte>)
    requires PartsSize(fp, pp, qp, s) <= MaxSizeOn3Bytes && s.remLength == Assign(PartsSize(fp, pp, qp, s))
    requires var fb, pb, qb := fp.encode(s.fixed), pp.encode(s.props), qp.encode(s.payload);
      |fb| == fp.size(s.fixed) == fp.size(f2) && |pb| == pp.size(s.props) == pp.size(p2) && |qb| == qp.size(s.payload)
      && fp.read(prev.fixed, PartsSize(fp, pp, qp, s), fb + (pb + (qb + rest))) == (Ok(|fb|), f2)
      && pp.read(prev.props, 0, pb + (qb + rest)) == (Ok(|pb|), p2)
      && qp.read(prev.payload, |qb|, qb + rest) == (Ok(|qb|), q2)
    ensures ReadPacket(fp, pp, qp, prev, FrameBytes(fp, pp, qp, s) + rest)
         == Done(Ok(FrameSize(s)), Frame(s.typeAndFlags, s.remLength, f2, p2, q2))
  {
    hide ReadBody, ReadSpec, VBInt.Decoded, Assign, FrameBytes, Digits;
    var v := PartsSize(fp, pp, qp, s);
    var fb, pb, qb := fp.encode(s.fixed), pp.encode(s.props), qp.encode(s.payload);
    var body := fb + (pb + (qb + rest));
    FrameBytesSplit(fp, pp, qp, s, rest);
    FramedBody(s.typeAndFlags, Digits(v), body);
    ReadOfEncoding(v, body);
    BodyRoundTrip(fp, pp, qp, prev.(typeAndFlags := s.typeAndFlags, remLength := s.remLength), fb, pb, qb, rest, f2, p2, q2);
  }

  /** `ControlPacket<type>`: the header byte, the remaining length and the
      three parts, which `computePacketSize` and `readFrom` update in
      place. `ctype` is the packet type and the three `Part`s are the
      operations of its fixed field, properties and payload. */
  class ControlPacket<F(!new), P(!new), Q(!new)> {
    const ctype: nat
    const fixedPart: Part<F>
    const propsPart: Part<P>
    const payloadPart: Part<Q>
    var typeAndFlags: byte
    var remLength: VBInt
    var fixed: F
    var props: P
    var payload: Q

    /** The fields as a value. */
    function State(): Frame<F, P, Q>
      reads this
    {
      Frame(typeAndFlags, remLength, fixed, props, payload)
    }

    /** The bytes `copyInto` writes. */
    function Bytes(): seq<byte>
      reads this
    {
      FrameBytes(fixedPart, propsPart, payloadPart, State())
    }

    /** The constructor: the header byte of the type with its declared
        flags, a remaining length of 0 and the parts as given. */
    constructor (t: nat, fp: Part<F>, pp: Part<P>, qp: Part<Q>, f: F, p: P, q: Q)
      requires t < 16
      ensures ctype == t && fixedPart == fp && propsPart == pp && payloadPart == qp
      ensures State() == Frame(HeaderByte(t), Assign(0), f, p, q)
      ensures Check() <==> fp.check(f) && pp.check(p) && qp.check(q)
    {
      ctype := t;
      fixedPart, propsPart, payloadPart := fp, pp, qp;
      typeAndFlags := HeaderByte(t);
      remLength := Assign(0);
      fixed, props, payload := f, p, q;
      SizedCheck(t, fp, pp, qp, Frame(HeaderByte(t), Assign(0), f, p, q), 0);
    }

    /** `computePacketSize`: with the payload, store the parts' size (as a
        `uint32`) as the remaining length and return the packet's size;
        without it, return the size left for the payload. */
    method ComputePacketSize(includePayload: bool) returns (r: nat)
      modifies this
      ensures includePayload ==> remLength == Assign(PartsSize(fixedPart, propsPart, payloadPart, old(State())) % U32)
      ensures includePayload && PartsSize(fixedPart, propsPart, payloadPart, old(State())) <= MaxPossibleSize ==>
        (r == FrameSize(State()) && remLength.Decoded() == PartsSize(fixedPart, propsPart, payloadPart, old(State())))
      ensures !includePayload ==> (remLength == old(remLength) && r == ExpectedSize(fixedPart, propsPart, old(State())))
      ensures typeAndFlags == old(typeAndFlags) && fixed == old(fixed) && props == old(props) && payload == old(payload)
    {
      hide VBInt.Decoded, Digits, EncodedSize, PartsSize, ExpectedSize;
      if includePayload {
        var v := PartsSize(fixedPart, propsPart, payloadPart, State());
        var o := v % U32;
        remLength := Assign(o);
        r := (o + 1 + remLength.Size()) % U32;
        NoWrap(v);
        return;
      }
      r := ExpectedSize(fixedPart, propsPart, State());
    }

    /** `getSize`. */
    function Size(): nat
      reads this
    {
      FrameSize(State())
    }

    /** `copyInto`: the bytes of `Bytes()` at the start of `buf`, nothing
        else changed. The source has each part write its own bytes after
        the previous ones; here their concatenation is written at once. */
    method CopyInto(buf: array<byte>) returns (o: nat)
      requires |Bytes()| <= buf.Length
      modifies buf
      ensures o == |old(Bytes())|
      ensures buf[..] == Splice(old(buf[..]), 0, old(Bytes()))
    {
      hide VBInt.Decoded, Assign, Digits;
      var h, rb, fb, pb, qb := [typeAndFlags], remLength.Bytes(), fixedPart.encode(fixed), propsPart.encode(props),
        payloadPart.encode(payload);
      CopyBytes(buf, 0, h + rb + fb + pb + qb);
      o := 1 + |rb| + |fb| + |pb| + |qb|;
    }

    /** Sets every field at once. */
    method SetState(st: Frame<F, P, Q>)
      modifies this
      ensures State() == st
    {
      typeAndFlags, remLength, fixed, props, payload := st.typeAndFlags, st.remLength, st.fixed, st.props, st.payload;
    }

    /** The second half of `readFrom`: the parts read from `body` into the
        copy `st` of the fields. */
    method ReadBodyFrom(body: seq<byte>, expLength: nat, st: Frame<F, P, Q>) returns (out: Outcome<F, P, Q>)
      requires expLength <= |body|
      ensures out == ReadBody(fixedPart, propsPart, payloadPart, st, body, expLength)
    {
      hide ExpectedSize;
      var o: nat := 0;
      var rf := fixedPart.read(st.fixed, expLength, body);
      var st' := st.(fixed := rf.1);
      if rf.0.IsError() {
        return Done(if rf.0 == Shortcut then Ok(expLength) else rf.0, st');
      }
      if rf.0.n > |body| {
        return Overrun(st');
      }
      o := o + rf.0.n;
      var rp := propsPart.read(st.props, 0, body[o..]);
      st' := st'.(props := rp.1);
      if rp.0.IsError() {
        return Done(rp.0, st');
      }
      if rp.0.n > |body| - o {
        return Overrun(st');
      }
      o := o + rp.0.n;
      var exp := ExpectedSize(fixedPart, propsPart, st');
      var rq := payloadPart.read(st.payload, exp, body[o..]);
      st' := st'.(payload := rq.1);
      if rq.0.IsError() {
        return Done(rq.0, st');
      }
      if rq.0.n > |body| - o {
        return Overrun(st');
      }
      out := Done(Ok(o + rq.0.n), st');
    }

    /** `readFrom`: the steps of `ReadPacket`. The fields are updated on a
        copy `st` and written back on every return, which leaves them as the
        source's updates in place do. `overrun` reports a part that claimed
        more bytes than it was given; the status is then not modelled. */
    method ReadFrom(buf: seq<byte>) returns (r: Status, overrun: bool)
      modifies this
      ensures overrun == ReadPacket(fixedPart, propsPart, payloadPart, old(State()), buf).Overrun?
      ensures !overrun ==> r == ReadPacket(fixedPart, propsPart, payloadPart, old(State()), buf).status
      ensures State() == ReadPacket(fixedPart, propsPart, payloadPart, old(State()), buf).frame
    {
      hide ReadLoop, Assign, Digits, ReadBody;
      overrun := false;
      if |buf| < 2 {
        return NotEnoughData, false;
      }
      var st := State().(typeAndFlags := buf[0]);
      var o: nat := 1;
      var s, len := VarInt.ReadFrom(buf[1..]);
      st := st.(remLength := len);
      if s.IsError() {
        SetState(st);
        return s, false;
      }
      o := o + s.n;
      var expLength := len.Decoded();
      if |buf| - o < expLength {
        SetState(st);
        return NotEnoughData, false;
      }
      var out := ReadBodyFrom(buf[o..], expLength, st);
      SetState(out.frame);
      if out.Overrun? {
        return BadData, true;
      }
      r := if out.status.Ok? then Ok(o + out.status.n) else out.status;
    }

    /** `check`. */
    predicate Check()
      reads this
    {
      FrameCheck(ctype, fixedPart, propsPart, payloadPart, State())
    }
  }

  /** `ControlPacket::check` on the fields `s` of a packet of type `ctype`:
      the header's flags, the remaining length, and each part's check (the
      properties' being `checkPropertiesFor` the type). */
  predicate FrameCheck<F(!new), P(!new), Q(!new)>(ctype: nat, fp: Part<F>, pp: Part<P>, qp: Part<Q>, s: Frame<F, P, Q>)
  {
    HeaderCheck(ctype, s.typeAndFlags) && s.remLength.Check() && fp.check(s.fixed) && pp.check(s.props)
    && qp.check(s.payload)
  }

  /** The header byte and the remaining length a packet holds once built
      and sized never fail `check`: a packet of type `t` with header byte
      `HeaderByte(t)` and an encodable remaining length checks exactly when
      its parts check. */
  lemma SizedCheck<F(!new), P(!new), Q(!new)>(t: nat, fp: Part<F>, pp: Part<P>, qp: Part<Q>, s: Frame<F, P, Q>, v: nat)
    requires t < 16 && s.typeAndFlags == HeaderByte(t) && v <= MaxPossibleSize && s.remLength == Assign(v)
    ensures FrameCheck(t, fp, pp, qp, s) <==> fp.check(s.fixed) && pp.check(s.props) && qp.check(s.payload)
  {
    assert HeaderByte(t) as nat % 16 == DeclaredFlags(t);
  }

  /** The pre-scan of a received packet, against what `check` accepts: the
      bytes of a packet of type `t` whose header `check` passes are framed
      by the corrected pre-scan as header byte, length field and remaining
      length; as written, the pre-scan refuses the CONNACK header byte that
      the constructor writes and `check` accepts. */
  lemma CheckedHeaderScans(t: nat, h: byte, remaining: nat, rest: seq<byte>)
    requires t < 16 && TypeNibble(h) == t && HeaderCheck(t, h) && remaining <= MaxPossibleSize
    ensures CheckHeaderFixed([h] + Assign(remaining).Bytes() + rest).0 == Ok(1 + EncodedSize(remaining) + remaining)
    ensures t == CONNACK ==> HeaderCheck(t, HeaderByte(t)) && CheckHeader([HeaderByte(t), 0] + rest).0 == BadData
  {
    CheckHeaderFixedFrames(h, remaining, rest);
    if t == CONNACK {
      CheckHeaderRefusesConnAck(rest);
    }
  }

  /** The bytes a PING packet writes: its header byte, then a zero. */
  function PingBytes(h: byte): seq<byte>
  {
    [h, 0]
  }

  /** `PingTemplate::readFrom` from the header byte `prev`: fewer than two
      bytes is NotEnoughData and changes nothing; otherwise the header byte
      is stored, and a non-zero second byte is BadData. */
  function PingRead(prev: byte, buf: seq<byte>): (res: (Status, byte))
    ensures res.0 == NotEnoughData <==> |buf| < 2
    ensures res.0 == BadData <==> |buf| >= 2 && buf[1] != 0
    ensures res.0 == Ok(2) <==> |buf| >= 2 && buf[1] == 0
    ensures res.1 == if |buf| < 2 then prev else buf[0]
  {
    if |buf| < 2 then (NotEnoughData, prev)
    else if buf[1] != 0 then (BadData, buf[0])
    else (Ok(2), buf[0])
  }

  /** What a PING packet wrote, whatever follows it, reads back as its
      header byte, two bytes consumed. */
  lemma PingRoundTrip(prev: byte, h: byte, rest: seq<byte>)
    ensures PingRead(prev, PingBytes(h) + rest) == (Ok(2), h)
  {
    assert (PingBytes(h) + rest)[1] == 0;
  }

  /** `check` after a read looks only at the low nibble of the byte stored:
      a PING packet that read two bytes or more passes exactly when the
      first byte's flags are 0, whatever type its high nibble names, and a
      shorter read keeps the old answer. */
  lemma PingReadChecks(t: nat, prev: byte, buf: seq<byte>)
    requires t == PINGREQ || t == PINGRESP
    ensures |buf| >= 2 ==> (HeaderCheck(t, PingRead(prev, buf).1) <==> buf[0] as nat % 16 == 0)
    ensures |buf| < 2 ==> (HeaderCheck(t, PingRead(prev, buf).1) <==> HeaderCheck(t, prev))
    ensures HeaderCheck(PINGREQ, HeaderByte(PINGRESP)) && HeaderCheck(PINGRESP, HeaderByte(PINGREQ))
  {
  }

  /** `PingTemplate<type>` for PINGREQ and PINGRESP: only the header. */
  class PingPacket {
    const ctype: nat
    var typeAndFlags: byte

    /** The header byte of the type with no flags. */
    constructor (t: nat)
      requires t == PINGREQ || t == PINGRESP
      ensures ctype == t && typeAndFlags == HeaderByte(t) && Check()
    {
      ctype := t;
      typeAndFlags := HeaderByte(t);
    }

    /** `getSize` and `computePacketSize`: always 2. */
    method ComputePacketSize(includePayload: bool) returns (r: nat)
      ensures r == |PingBytes(typeAndFlags)|
    {
      r := 2;
    }

    /** `copyInto`: the header byte and a zero. */
    method CopyInto(buf: array<byte>) returns (o: nat)
      requires 2 <= buf.Length
      modifies buf
      ensures o == 2 && buf[..] == Splice(old(buf[..]), 0, PingBytes(typeAndFlags))
    {
      CopyBytes(buf, 0, PingBytes(typeAndFlags));
      o := 2;
    }

    /** `readFrom`. */
    method ReadFrom(buf: seq<byte>) returns (r: Status)
      modifies this
      ensures (r, typeAndFlags) == PingRead(old(typeAndFlags), buf)
    {
      if |buf| < 2 {
        return NotEnoughData;
      }
      typeAndFlags := buf[0];
      if buf[1] != 0 {
        return BadData;
      }
      return Ok(2);
    }

    /** `check`: the header's flags are those of the type. */
    predicate Check()
      reads this
    {
      HeaderCheck(ctype, typeAndFlags)
    }
  }
}
