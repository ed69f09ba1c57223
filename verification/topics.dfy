/** The topic lists of the SUBSCRIBE and UNSUBSCRIBE payloads (sections
    3.8.3 and 3.10.3 of the OASIS MQTT Version 5.0 standard) and the two
    payloads that hold them. The source keeps a list as a chain of heap
    nodes linked by `next`, each node reading the next one recursively;
    here a list is the sequence of its nodes, head first. */
module Topics {
  import opened Wire
  import opened Primitives
  import opened Fields

  /** A topic that was never read: `DynamicString`'s default constructor
      leaves a zero length and a null pointer. */
  const EmptyTopic: Owned := Owned(0, None)

  /** A `SubscribeTopic` node: the topic filter and its subscription
      options byte (section 3.8.3.1). The byte's bit-fields are read with
      arithmetic: Maximum QoS in bits 0-1, No Local in bit 2, Retain As
      Published in bit 3, Retain Handling in bits 4-5 and two reserved
      bits on top. */
  datatype SubscribeTopic = SubscribeTopic(topic: Owned, option: byte) {
    function QoS(): nat { option as nat % 4 }
    function NonLocal(): nat { option as nat / 4 % 2 }
    function RetainAsPublished(): nat { option as nat / 8 % 2 }
    function RetainHandling(): nat { option as nat / 16 % 4 }
    function Reserved(): nat { option as nat / 64 }

    /** `getSize` of one node: the topic and the options byte. */
    function Size(): nat { topic.Size() + 1 }

    /** `copyInto` of one node: the topic, then the options byte. */
    function Encode(): (r: seq<byte>)
      requires topic.Readable()
      ensures |r| == Size()
    {
      topic.Encode() + [option]
    }

    /** `SubscribeTopic::check` of one node as written: reserved bits
        clear, `retainAsPublished != 3`, a QoS other than 3 and a valid
        topic. */
    predicate CheckAsWritten()
    {
      Reserved() == 0 && RetainAsPublished() != 3 && QoS() != 3 && topic.Check()
    }

    /** The check section 3.8.3.1 asks for: the Retain Handling value 3 is
        a protocol error, like the QoS value 3 and a reserved bit set. */
    predicate CheckFixed()
    {
      Reserved() == 0 && RetainHandling() != 3 && QoS() != 3 && topic.Check()
    }
  }

  /** The node `new SubscribeTopic()` makes: an empty topic and options 0. */
  const FreshSubscribeTopic: SubscribeTopic := SubscribeTopic(EmptyTopic, 0)

  /** The five fields fill the options byte exactly, each within its width. */
  lemma OptionFields(t: SubscribeTopic)
    ensures t.option as nat == t.QoS() + 4 * t.NonLocal() + 8 * t.RetainAsPublished()
                               + 16 * t.RetainHandling() + 64 * t.Reserved()
    ensures t.QoS() < 4 && t.NonLocal() < 2 && t.RetainAsPublished() < 2
    ensures t.RetainHandling() < 4 && t.Reserved() < 4
  {
    var x := t.option as nat;
    assert x == x % 4 + 4 * (x / 4);
    assert x / 4 == x / 4 % 2 + 2 * (x / 8);
    assert x / 8 == x / 8 % 2 + 2 * (x / 16);
    assert x / 16 == x / 16 % 4 + 4 * (x / 64);
  }

  /** The full constructor: each argument stored into its bit-field, which
      keeps the low bits of what it is given; the reserved bits are 0. */
  function NewSubscribeTopic(topic: Owned, retainHandling: nat, retainAsPublished: bool, nonLocal: bool,
                             qos: nat): (t: SubscribeTopic)
    ensures t.topic == topic && t.Reserved() == 0
    ensures t.RetainHandling() == retainHandling % 4 && t.QoS() == qos % 4
    ensures t.RetainAsPublished() == BitOf(retainAsPublished) && t.NonLocal() == BitOf(nonLocal)
  {
    var x := qos % 4 + 4 * BitOf(nonLocal) + 8 * BitOf(retainAsPublished) + 16 * (retainHandling % 4);
    OptionOf(qos % 4, BitOf(nonLocal), BitOf(retainAsPublished), retainHandling % 4);
    SubscribeTopic(topic, x as byte)
  }

  /** Helper: the fields of an options byte put together from its parts. */
  lemma OptionOf(q: nat, n: nat, r: nat, h: nat)
    requires q < 4 && n < 2 && r < 2 && h < 4
    ensures var x := q + 4 * n + 8 * r + 16 * h;
      x < 64 && x % 4 == q && x / 4 % 2 == n && x / 8 % 2 == r && x / 16 % 4 == h
  {
  }

  /** The bytes of a chain are those of its nodes, so its topics must be
      readable. */
  predicate SubscribeReadable(ts: seq<SubscribeTopic>)
  {
    forall i :: 0 <= i < |ts| ==> ts[i].topic.Readable()
  }

  /** `SubscribeTopic::getSize` of a chain. */
  function SubscribeListSize(ts: seq<SubscribeTopic>): nat
  {
    if ts == [] then 0 else ts[0].Size() + SubscribeListSize(ts[1..])
  }

  /** `SubscribeTopic::copyInto` of a chain: the nodes one after another. */
  function SubscribeListBytes(ts: seq<SubscribeTopic>): (r: seq<byte>)
    requires SubscribeReadable(ts)
    ensures |r| == SubscribeListSize(ts)
  {
    if ts == [] then [] else ts[0].Encode() + SubscribeListBytes(ts[1..])
  }

  /** `SubscribeTopic::readFrom` on the node `prev`: the topic, then the
      options byte (none left is NotEnoughData); any byte left after it
      starts a fresh node, read the same way. A list reaches the end of its
      buffer, so a read that succeeds consumes all of it, and the only
      failure is NotEnoughData. On a failure the nodes read so far stay,
      the last one as the failed read left it. */
  function ReadSubscribeList(prev: SubscribeTopic, buf: seq<byte>): (res: (Status, seq<SubscribeTopic>))
    ensures res.0 == NotEnoughData || res.0 == Ok(|buf|)
    ensures |res.1| >= 1
    decreases |buf|
  {
    var rt := ReadOwned(prev.topic, buf);
    if rt.0.IsError() then (rt.0, [prev.(topic := rt.1)])
    else if rt.0.n == |buf| then (NotEnoughData, [prev.(topic := rt.1)])
    else
      var head := SubscribeTopic(rt.1, buf[rt.0.n]);
      var o := rt.0.n + 1;
      if o == |buf| then (Ok(o), [head])
      else
        var rn := ReadSubscribeList(FreshSubscribeTopic, buf[o..]);
        (if rn.0.IsError() then rn.0 else Ok(o + rn.0.n), [head] + rn.1)
  }

  /** A chain as reading it back leaves it: each topic holding exactly its
      bytes. */
  function NormalSubscribeList(ts: seq<SubscribeTopic>): (r: seq<SubscribeTopic>)
    requires SubscribeReadable(ts)
    ensures |r| == |ts|
  {
    if ts == [] then []
    else [SubscribeTopic(OwnedOf(ts[0].topic.Content()), ts[0].option)] + NormalSubscribeList(ts[1..])
  }

  /** Reading back the bytes of a non-empty chain gives the same topics and
      options and consumes them all. */
  lemma {:induction false} SubscribeListRoundTrip(prev: SubscribeTopic, ts: seq<SubscribeTopic>)
    requires ts != [] && SubscribeReadable(ts)
    ensures ReadSubscribeList(prev, SubscribeListBytes(ts)).0 == Ok(SubscribeListSize(ts))
    ensures ReadSubscribeList(prev, SubscribeListBytes(ts)).1 == NormalSubscribeList(ts)
    decreases |ts|
  {
    SubscribeHeadRoundTrip(prev, ts);
    if ts[1..] != [] {
      SubscribeListRoundTrip(FreshSubscribeTopic, ts[1..]);
    }
  }

  /** Helper: the first node's topic reads back, its options byte follows,
      and the other nodes' bytes come after that. */
  lemma SubscribeHeadRoundTrip(prev: SubscribeTopic, ts: seq<SubscribeTopic>)
    requires ts != [] && SubscribeReadable(ts)
    ensures var b, t := SubscribeListBytes(ts), ts[0];
      ReadOwned(prev.topic, b) == (Ok(t.topic.Size()), OwnedOf(t.topic.Content()))
      && t.topic.Size() < |b| && b[t.topic.Size()] == t.option
      && b[t.topic.Size() + 1..] == SubscribeListBytes(ts[1..])
  {
    var t := ts[0];
    var tail := SubscribeListBytes(ts[1..]);
    var b := SubscribeListBytes(ts);
    Assoc(t.topic.Encode(), [t.option], tail);
    OwnedRoundTrip(prev.topic, t.topic, [t.option] + tail);
    Skip(b, 0, t.topic.Encode(), [t.option] + tail);
    Skip(b, t.topic.Size(), [t.option], tail);
  }

  /** `SubscribeTopic::check` as written, on every node of the chain. */
  predicate SubscribeCheckAsWritten(ts: seq<SubscribeTopic>)
  {
    forall i :: 0 <= i < |ts| ==> ts[i].CheckAsWritten()
  }

  /** The chain check with the Retain Handling test section 3.8.3.1 asks for. */
  predicate SubscribeCheckFixed(ts: seq<SubscribeTopic>)
  {
    forall i :: 0 <= i < |ts| ==> ts[i].CheckFixed()
  }

  /** As written, the test on the one-bit Retain As Published field never
      fails, so the check only looks at the reserved bits, the QoS and the
      topic; the intended check refuses strictly more. */
  lemma SubscribeCheckAsWrittenIgnoresRetain(ts: seq<SubscribeTopic>)
    ensures SubscribeCheckAsWritten(ts) <==>
      forall i :: 0 <= i < |ts| ==> ts[i].Reserved() == 0 && ts[i].QoS() != 3 && ts[i].topic.Check()
    ensures SubscribeCheckFixed(ts) ==> SubscribeCheckAsWritten(ts)
  {
    forall i | 0 <= i < |ts|
      ensures ts[i].RetainAsPublished() < 2
    {
      OptionFields(ts[i]);
    }
  }

  /** A node with Retain Handling 3 (options byte 0x30) passes the check
      as written, though section 3.8.3.1 makes it a protocol error. */
  lemma SubscribeCheckMissesRetainHandling()
    ensures var t := SubscribeTopic(OwnedOf([0x61]), 0x30);
      t.RetainHandling() == 3 && SubscribeCheckAsWritten([t]) && !SubscribeCheckFixed([t])
  {
    var t := SubscribeTopic(OwnedOf([0x61]), 0x30);
    assert t.CheckAsWritten();
    assert ![t][0].CheckFixed();
  }

  /** A node built by the full constructor passes the intended check
      exactly when its topic is valid and neither Retain Handling nor QoS
      is 3 (after truncation to two bits). */
  lemma NewSubscribeTopicCheck(topic: Owned, retainHandling: nat, retainAsPublished: bool, nonLocal: bool, qos: nat)
    ensures var t := NewSubscribeTopic(topic, retainHandling, retainAsPublished, nonLocal, qos);
      (SubscribeCheckFixed([t]) <==> topic.Check() && retainHandling % 4 != 3 && qos % 4 != 3)
      && (SubscribeCheckAsWritten([t]) <==> topic.Check() && qos % 4 != 3)
  {
    var t := NewSubscribeTopic(topic, retainHandling, retainAsPublished, nonLocal, qos);
    assert [t][0] == t;
    assert SubscribeCheckFixed([t]) <==> [t][0].CheckFixed();
    assert SubscribeCheckAsWritten([t]) <==> [t][0].CheckAsWritten();
  }

  /** The bytes of an UNSUBSCRIBE chain are those of its topics. */
  predicate UnsubscribeReadable(ts: seq<Owned>)
  {
    forall i :: 0 <= i < |ts| ==> ts[i].Readable()
  }

  /** `UnsubscribeTopic::getSize` of a chain. */
  function UnsubscribeListSize(ts: seq<Owned>): nat
  {
    if ts == [] then 0 else ts[0].Size() + UnsubscribeListSize(ts[1..])
  }

  /** `UnsubscribeTopic::copyInto` of a chain: the topics one after another. */
  function UnsubscribeListBytes(ts: seq<Owned>): (r: seq<byte>)
    requires UnsubscribeReadable(ts)
    ensures |r| == UnsubscribeListSize(ts)
  {
    if ts == [] then [] else ts[0].Encode() + UnsubscribeListBytes(ts[1..])
  }

  /** `UnsubscribeTopic::readFrom` on the node whose topic is `prev`: the
      topic, then, if any byte is left, a fresh node read the same way. As
      for SUBSCRIBE, success consumes the whole buffer and the only failure
      is NotEnoughData. */
  function ReadUnsubscribeList(prev: Owned, buf: seq<byte>): (res: (Status, seq<Owned>))
    ensures res.0 == NotEnoughData || res.0 == Ok(|buf|)
    ensures |res.1| >= 1
    decreases |buf|
  {
    var rt := ReadOwned(prev, buf);
    if rt.0.IsError() then (rt.0, [rt.1])
    else if rt.0.n == |buf| then (Ok(rt.0.n), [rt.1])
    else
      var rn := ReadUnsubscribeList(EmptyTopic, buf[rt.0.n..]);
      (if rn.0.IsError() then rn.0 else Ok(rt.0.n + rn.0.n), [rt.1] + rn.1)
  }

  /** An UNSUBSCRIBE chain as reading it back leaves it. */
  function NormalUnsubscribeList(ts: seq<Owned>): (r: seq<Owned>)
    requires UnsubscribeReadable(ts)
    ensures |r| == |ts|
  {
    if ts == [] then [] else [OwnedOf(ts[0].Content())] + NormalUnsubscribeList(ts[1..])
  }

  /** Reading back the bytes of a non-empty chain gives the same topics and
      consumes them all. */
  lemma {:induction false} UnsubscribeListRoundTrip(prev: Owned, ts: seq<Owned>)
    requires ts != [] && UnsubscribeReadable(ts)
    ensures ReadUnsubscribeList(prev, UnsubscribeListBytes(ts)).0 == Ok(UnsubscribeListSize(ts))
    ensures ReadUnsubscribeList(prev, UnsubscribeListBytes(ts)).1 == NormalUnsubscribeList(ts)
    decreases |ts|
  {
    var tail := UnsubscribeListBytes(ts[1..]);
    var b := UnsubscribeListBytes(ts);
    OwnedRoundTrip(prev, ts[0], tail);
    Skip(b, 0, ts[0].Encode(), tail);
    if ts[1..] != [] {
      UnsubscribeListRoundTrip(EmptyTopic, ts[1..]);
    }
  }

  /** `Payload<SUBSCRIBE>`: the chain (empty for a null `topics`) and the
      expected size the packet sets before reading. */
  datatype SubscribePayload = SubscribePayload(topics: seq<SubscribeTopic>, expSize: nat)

  /** `Payload<SUBSCRIBE>::readFrom`: a buffer shorter than the expected
      size is NotEnoughData and changes nothing; otherwise a fresh chain is
      read from exactly the expected size, so success consumes exactly that
      many bytes. */
  function ReadSubscribePayload(p: SubscribePayload, buf: seq<byte>): (res: (Status, SubscribePayload))
    ensures res.0 == NotEnoughData || res.0 == Ok(p.expSize)
    ensures res.1.expSize == p.expSize
    ensures |buf| < p.expSize ==> res == (NotEnoughData, p)
  {
    if |buf| < p.expSize then (NotEnoughData, p)
    else
      var r := ReadSubscribeList(FreshSubscribeTopic, buf[..p.expSize]);
      (r.0, p.(topics := r.1))
  }

  /** A SUBSCRIBE payload with no topic is refused: an empty expected size
      reads as NotEnoughData (section 3.8.3 asks for at least one topic). */
  lemma EmptySubscribeRefused(p: SubscribePayload, buf: seq<byte>)
    requires p.expSize == 0
    ensures ReadSubscribePayload(p, buf).0 == NotEnoughData
  {
    assert buf[..0] == [];
  }

  /** What `Payload<SUBSCRIBE>::copyInto` wrote, with whatever follows it,
      reads back as the same chain when the expected size is its size. */
  lemma SubscribePayloadRoundTrip(p: SubscribePayload, ts: seq<SubscribeTopic>, rest: seq<byte>)
    requires ts != [] && SubscribeReadable(ts) && p.expSize == SubscribeListSize(ts)
    ensures ReadSubscribePayload(p, SubscribeListBytes(ts) + rest).0 == Ok(SubscribeListSize(ts))
    ensures ReadSubscribePayload(p, SubscribeListBytes(ts) + rest).1.topics == NormalSubscribeList(ts)
  {
    var b := SubscribeListBytes(ts);
    assert (b + rest)[..p.expSize] == b;
    SubscribeListRoundTrip(FreshSubscribeTopic, ts);
  }

  /** `Payload<SUBSCRIBE>::check`: true for a null chain, otherwise the
      chain check as written. */
  predicate CheckSubscribePayload(p: SubscribePayload)
  {
    SubscribeCheckAsWritten(p.topics)
  }

  /** A SUBSCRIBE chain read back holds each node with its options byte and
      exactly its topic's bytes. */
  lemma {:induction false} NormalSubscribeListAt(ts: seq<SubscribeTopic>, i: nat)
    requires SubscribeReadable(ts) && i < |ts|
    ensures NormalSubscribeList(ts)[i] == SubscribeTopic(OwnedOf(ts[i].topic.Content()), ts[i].option)
    decreases i
  {
    if i > 0 {
      NormalSubscribeListAt(ts[1..], i - 1);
    }
  }

  /** Helper: a chain as read back from topics of at least one byte passes
      the chain check as written exactly when every node's options byte
      does. */
  lemma NormalSubscribeChecks(ts: seq<SubscribeTopic>)
    requires SubscribeReadable(ts)
    requires forall i :: 0 <= i < |ts| ==> ts[i].topic.length > 0
    ensures SubscribeCheckAsWritten(NormalSubscribeList(ts))
        <==> forall i :: 0 <= i < |ts| ==> ts[i].Reserved() == 0 && ts[i].QoS() != 3
  {
    var n := NormalSubscribeList(ts);
    SubscribeCheckAsWrittenIgnoresRetain(n);
    forall i | 0 <= i < |ts|
      ensures n[i].topic.Check() && n[i].option == ts[i].option
    {
      NormalSubscribeListAt(ts, i);
    }
  }

  /** A payload read back from nodes whose topics have at least one byte
      passes `Payload<SUBSCRIBE>::check` exactly when every node's options
      byte has its reserved bits clear and a QoS other than 3. */
  lemma SubscribeReadBackChecks(p: SubscribePayload, ts: seq<SubscribeTopic>, rest: seq<byte>)
    requires ts != [] && SubscribeReadable(ts) && p.expSize == SubscribeListSize(ts)
    requires forall i :: 0 <= i < |ts| ==> ts[i].topic.length > 0
    ensures CheckSubscribePayload(ReadSubscribePayload(p, SubscribeListBytes(ts) + rest).1)
        <==> forall i :: 0 <= i < |ts| ==> ts[i].Reserved() == 0 && ts[i].QoS() != 3
  {
    SubscribePayloadRoundTrip(p, ts, rest);
    NormalSubscribeChecks(ts);
  }

  /** `Payload<UNSUBSCRIBE>`: the chain and the expected size. */
  datatype UnsubscribePayload = UnsubscribePayload(topics: seq<Owned>, expSize: nat)

  /** `Payload<UNSUBSCRIBE>::readFrom`, as for SUBSCRIBE. */
  function ReadUnsubscribePayload(p: UnsubscribePayload, buf: seq<byte>): (res: (Status, UnsubscribePayload))
    ensures res.0 == NotEnoughData || res.0 == Ok(p.expSize)
    ensures res.1.expSize == p.expSize
    ensures |buf| < p.expSize ==> res == (NotEnoughData, p)
  {
    if |buf| < p.expSize then (NotEnoughData, p)
    else
      var r := ReadUnsubscribeList(EmptyTopic, buf[..p.expSize]);
      (r.0, p.(topics := r.1))
  }

  /** What `Payload<UNSUBSCRIBE>::copyInto` wrote reads back as the same
      chain when the expected size is its size. */
  lemma UnsubscribePayloadRoundTrip(p: UnsubscribePayload, ts: seq<Owned>, rest: seq<byte>)
    requires ts != [] && UnsubscribeReadable(ts) && p.expSize == UnsubscribeListSize(ts)
    ensures ReadUnsubscribePayload(p, UnsubscribeListBytes(ts) + rest).0 == Ok(UnsubscribeListSize(ts))
    ensures ReadUnsubscribePayload(p, UnsubscribeListBytes(ts) + rest).1.topics == NormalUnsubscribeList(ts)
  {
    var b := UnsubscribeListBytes(ts);
    assert (b + rest)[..p.expSize] == b;
    UnsubscribeListRoundTrip(EmptyTopic, ts);
  }

  /** `Payload<UNSUBSCRIBE>::check` as written: true for a null chain,
      otherwise `UnsubscribeTopic::check` of the head node, which checks its
      own topic and not those of the nodes after it. */
  predicate CheckUnsubscribePayloadAsWritten(p: UnsubscribePayload)
  {
    p.topics != [] ==> p.topics[0].Check()
  }

  /** The check that every topic of the chain is valid, as the SUBSCRIBE
      chain check does for its nodes. */
  predicate CheckUnsubscribePayloadFixed(p: UnsubscribePayload)
  {
    forall i :: 0 <= i < |p.topics| ==> p.topics[i].Check()
  }

  /** A chain read back holds each topic with exactly its bytes. */
  lemma {:induction false} NormalUnsubscribeListAt(ts: seq<Owned>, i: nat)
    requires UnsubscribeReadable(ts) && i < |ts|
    ensures NormalUnsubscribeList(ts)[i] == OwnedOf(ts[i].Content())
    decreases i
  {
    if i > 0 {
      NormalUnsubscribeListAt(ts[1..], i - 1);
    }
  }

  /** Under the intended check, every chain read back from topics of at
      least one byte (section 4.7.3) is valid. */
  lemma UnsubscribeReadBackChecks(p: UnsubscribePayload, ts: seq<Owned>, rest: seq<byte>)
    requires ts != [] && UnsubscribeReadable(ts) && p.expSize == UnsubscribeListSize(ts)
    requires forall i :: 0 <= i < |ts| ==> ts[i].length > 0
    ensures CheckUnsubscribePayloadFixed(ReadUnsubscribePayload(p, UnsubscribeListBytes(ts) + rest).1)
  {
    UnsubscribePayloadRoundTrip(p, ts, rest);
    var q := ReadUnsubscribePayload(p, UnsubscribeListBytes(ts) + rest).1;
    forall i | 0 <= i < |q.topics|
      ensures q.topics[i].Check()
    {
      NormalUnsubscribeListAt(ts, i);
    }
  }

  /** The intended check implies the check as written, and a chain whose
      second topic has a length but a null pointer passes the one as
      written only. */
  lemma UnsubscribeCheckSkipsTail()
    ensures forall p: UnsubscribePayload :: CheckUnsubscribePayloadFixed(p) ==> CheckUnsubscribePayloadAsWritten(p)
    ensures var p := UnsubscribePayload([OwnedOf([0x61]), Owned(1, None)], 0);
      CheckUnsubscribePayloadAsWritten(p) && !CheckUnsubscribePayloadFixed(p)
  {
    var p := UnsubscribePayload([OwnedOf([0x61]), Owned(1, None)], 0);
    assert !p.topics[1].Check();
  }
}
