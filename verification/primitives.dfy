/** The length-prefixed primitives of MQTT v5 (sections 1.5.4, 1.5.6 and
    1.5.7 of the OASIS MQTT Version 5.0 standard): a 16-bit big-endian
    length followed by that many bytes. `DynamicString` and
    `DynamicBinaryData` share one implementation and are modelled by one
    datatype, `Owned`; `DynamicStringView` and `DynamicBinDataView` share
    another, modelled by `View`, which points into the buffer it was read
    from instead of copying it. */
module Primitives {
  import opened Wire

  /** An owning string or binary blob: the `length` field and the `data`
      pointer, `None` when null. The two are updated separately by
      `readFrom`, so nothing ties `length` to the size of `data`. */
  datatype Owned = Owned(length: nat, data: Option<seq<byte>>) {

    /** `getSize`: the length field plus the bytes. */
    function Size(): nat { length + 2 }

    /** `data ? length : length == 0`: a non-null pointer with a non-zero
        length, or a null pointer with a zero length. */
    predicate Check() { if data.Some? then length != 0 else length == 0 }

    /** What `copyInto` may read: `length` bytes behind `data`. */
    predicate Readable() {
      length < 65536 && (if data.Some? then length <= |data.value| else length == 0)
    }

    /** The bytes the value stands for. */
    function Content(): (c: seq<byte>)
      requires Readable()
      ensures |c| == length
    {
      if data.Some? then data.value[..length] else []
    }

    /** `copyInto`: the length in network order, then the bytes. */
    function Encode(): (r: seq<byte>)
      requires Readable()
      ensures |r| == Size()
    {
      U16Bytes(length) + Content()
    }
  }

  /** An owning value holding exactly `c`, as the source's constructors
      build it from a block of bytes. */
  function OwnedOf(c: seq<byte>): (o: Owned)
    requires |c| < 65536
    ensures o.Readable() && o.Content() == c
  {
    Owned(|c|, Some(c))
  }

  /** `DynamicString::readFrom` / `DynamicBinaryData::readFrom` on `buf`,
      from the value `prev`. The length field is updated before the second
      size test, so a truncated buffer leaves the new length beside the old
      data. `Platform::safeRealloc` is taken to return a block. */
  function ReadOwned(prev: Owned, buf: seq<byte>): (res: (Status, Owned))
    ensures res.0 != BadData && res.0 != Shortcut
    ensures |buf| < 2 ==> res == (NotEnoughData, prev)
    ensures res.0.IsError() ==> res.0 == NotEnoughData && res.1.data == prev.data
    ensures res.0.Ok? ==> (2 <= res.0.n <= |buf| && res.1.Readable()
       && res.0.n == res.1.Size() && res.1.Encode() == Front(buf, res.0.n))
  {
    if |buf| < 2 then (NotEnoughData, prev)
    else
      var len := ReadU16(buf, 0);
      if len + 2 > |buf| then (NotEnoughData, Owned(len, prev.data))
      else
        assert buf[..len + 2] == buf[..2] + buf[2..len + 2];
        (Ok(len + 2), Owned(len, Some(buf[2..len + 2])))
  }

  /** The only failure is a buffer shorter than the two length bytes or
      than the length they declare. */
  lemma ReadOwnedShort(prev: Owned, buf: seq<byte>)
    ensures ReadOwned(prev, buf).0 == NotEnoughData <==> |buf| < 2 || ReadU16(buf, 0) + 2 > |buf|
  {
  }

  /** Reading back what `copyInto` wrote gives the same bytes and consumes
      exactly `getSize()` bytes, whatever follows. */
  lemma OwnedRoundTrip(prev: Owned, x: Owned, rest: seq<byte>)
    requires x.Readable()
    ensures ReadOwned(prev, x.Encode() + rest) == (Ok(x.Size()), OwnedOf(x.Content()))
  {
    var b := x.Encode() + rest;
    assert b[..2] == U16Bytes(x.length);
    assert b[2..x.length + 2] == x.Content();
  }

  /** `DynamicStringPair`: a key string followed by a value string. */
  datatype OwnedPair = OwnedPair(key: Owned, value: Owned) {
    function Size(): nat { key.Size() + value.Size() }
    predicate Check() { key.Check() && value.Check() }
    predicate Readable() { key.Readable() && value.Readable() }

    /** `copyInto`: the key, then the value. */
    function Encode(): (r: seq<byte>)
      requires Readable()
      ensures |r| == Size()
    {
      key.Encode() + value.Encode()
    }
  }

  /** `DynamicStringPair::readFrom`: the key, then the value from where the
      key ended; the first error is returned as is. */
  function ReadOwnedPair(prev: OwnedPair, buf: seq<byte>): (res: (Status, OwnedPair))
    ensures res.0 != BadData && res.0 != Shortcut
    ensures res.0.Ok? ==> (4 <= res.0.n <= |buf| && res.1.Readable()
       && res.0.n == res.1.Size() && res.1.Encode() == Front(buf, res.0.n))
  {
    var rk := ReadOwned(prev.key, buf);
    if rk.0.IsError() then (rk.0, OwnedPair(rk.1, prev.value))
    else
      var rv := ReadOwned(prev.value, buf[rk.0.n..]);
      if rv.0.IsError() then (rv.0, OwnedPair(rk.1, rv.1))
      else
        JoinFronts(buf, rk.0.n, rv.0.n);
        (Ok(rk.0.n + rv.0.n), OwnedPair(rk.1, rv.1))
  }

  /** Helper: the first `a` bytes of `buf`, then the first `b` bytes after
      them, are its first `a + b` bytes. */
  lemma JoinFronts(buf: seq<byte>, a: nat, b: nat)
    requires a + b <= |buf|
    ensures Front(buf, a) + Front(buf[a..], b) == Front(buf, a + b)
  {
    assert Front(buf, a + b) == buf[..a] + buf[a..a + b];
  }

  /** Helper: a range of `src` holding `a + b` holds `a`, then `b`. */
  lemma SplitRanges(src: seq<byte>, at: nat, a: seq<byte>, b: seq<byte>)
    requires at + |a| + |b| <= |src| && src[at..at + |a| + |b|] == a + b
    ensures src[at..at + |a|] == a && src[at + |a|..at + |a| + |b|] == b
  {
    assert src[at..at + |a|] == src[at..at + |a| + |b|][..|a|];
    assert src[at + |a|..at + |a| + |b|] == src[at..at + |a| + |b|][|a|..];
  }

  /** Helper: two adjacent ranges of a buffer make the range they span. */
  lemma JoinRanges(src: seq<byte>, at: nat, a: nat, b: nat, x: seq<byte>, y: seq<byte>)
    requires at + a + b <= |src|
    requires x == src[at..at + a] && y == src[at + a..at + a + b]
    ensures x + y == src[at..at + a + b]
  {
  }

  /** Reading back an encoded pair gives the same key and value. */
  lemma OwnedPairRoundTrip(prev: OwnedPair, x: OwnedPair, rest: seq<byte>)
    requires x.Readable()
    ensures ReadOwnedPair(prev, x.Encode() + rest)
         == (Ok(x.Size()), OwnedPair(OwnedOf(x.key.Content()), OwnedOf(x.value.Content())))
  {
    var b := x.Encode() + rest;
    assert b == x.key.Encode() + (x.value.Encode() + rest);
    OwnedRoundTrip(prev.key, x.key, x.value.Encode() + rest);
    assert b[x.key.Size()..] == x.value.Encode() + rest;
    OwnedRoundTrip(prev.value, x.value, rest);
  }

  /** A zero-copy view: the `length` field and the `data` pointer, given
      as an index into the buffer `src` the view was read from (`None`
      when null). */
  datatype View = View(length: nat, data: Option<nat>) {

    function Size(): nat { length + 2 }

    /** The same test as the owning types: `data ? length : length == 0`. */
    predicate Check() { if data.Some? then length != 0 else length == 0 }

    /** The test the standard calls for: a zero-length string is valid
        (section 1.5.4), so only a null pointer with a length is wrong. */
    predicate CheckFixed() { data.Some? || length == 0 }

    /** The view points at `length` bytes of `src`. */
    predicate Within(src: seq<byte>) {
      length < 65536 && (if data.Some? then data.value + length <= |src| else length == 0)
    }

    function Content(src: seq<byte>): (c: seq<byte>)
      requires Within(src)
      ensures |c| == length
    {
      if data.Some? then src[data.value..data.value + length] else []
    }

    /** `copyInto`: the length in network order, then the viewed bytes. */
    function Encode(src: seq<byte>): (r: seq<byte>)
      requires Within(src)
      ensures |r| == Size()
    {
      U16Bytes(length) + Content(src)
    }
  }

  /** `DynamicStringView::readFrom` / `DynamicBinDataView::readFrom` on the
      `n` bytes of `src` starting at `at`: same checks as the owning
      types, then `data` points at the third byte of the buffer. */
  function ReadView(prev: View, src: seq<byte>, at: nat, n: nat): (res: (Status, View))
    requires at + n <= |src|
    ensures res.0 != BadData && res.0 != Shortcut
    ensures n < 2 ==> res == (NotEnoughData, prev)
    ensures res.0.IsError() ==> res.0 == NotEnoughData && res.1.data == prev.data
    ensures res.0.Ok? ==> (2 <= res.0.n <= n && res.1.Within(src) && res.1.data == Some(at + 2)
       && res.0.n == res.1.Size() && res.1.Encode(src) == src[at..at + res.0.n])
  {
    if n < 2 then (NotEnoughData, prev)
    else
      var len := ReadU16(src, at);
      if len + 2 > n then (NotEnoughData, View(len, prev.data))
      else
        assert src[at..at + len + 2] == src[at..at + 2] + src[at + 2..at + 2 + len];
        (Ok(len + 2), View(len, Some(at + 2)))
  }

  /** The only failure is a buffer shorter than the two length bytes or
      than the length they declare. */
  lemma ReadViewShort(prev: View, src: seq<byte>, at: nat, n: nat)
    requires at + n <= |src|
    ensures ReadView(prev, src, at, n).0 == NotEnoughData <==> n < 2 || ReadU16(src, at) + 2 > n
  {
  }

  /** A view read from what an owning value wrote sees the same bytes. */
  lemma ViewRoundTrip(prev: View, x: Owned, pre: seq<byte>, rest: seq<byte>)
    requires x.Readable()
    ensures var src := pre + x.Encode() + rest;
      var (s, v) := ReadView(prev, src, |pre|, |src| - |pre|);
      s == Ok(x.Size()) && v.Content(src) == x.Content()
  {
    var e := x.Encode();
    var src := pre + e + rest;
    assert src[|pre|..|pre| + x.Size()] == e;
    assert src[|pre|..|pre| + 2] == e[..2] == U16Bytes(x.length);
    assert src[|pre| + 2..|pre| + 2 + x.length] == e[2..] == x.Content();
  }

  /** The same, wherever in `src` the encoding sits and whatever room is
      given after it: the view spans exactly the encoding and sees the
      owning value's content. */
  lemma ReadViewOf(prev: View, x: Owned, src: seq<byte>, at: nat, n: nat)
    requires x.Readable() && x.Size() <= n && at + n <= |src|
    requires src[at..at + x.Size()] == x.Encode()
    ensures var r := ReadView(prev, src, at, n);
      r.0 == Ok(x.Size()) && r.1.Within(src) && r.1.Content(src) == x.Content()
  {
    var e := x.Encode();
    assert src[at..at + 2] == e[..2] == U16Bytes(x.length);
    assert src[at + 2..at + 2 + x.length] == e[2..] == x.Content();
  }

  /** A view read from an empty string fails its own `check`: `data` is
      set, `length` is zero. */
  lemma EmptyViewFailsCheck(prev: View, rest: seq<byte>)
    ensures var (s, v) := ReadView(prev, [0, 0] + rest, 0, 2 + |rest|);
      s == Ok(2) && v.length == 0 && !v.Check()
  {
    assert ReadU16([0, 0] + rest, 0) == 0 by {
      assert ([0, 0] + rest)[0..2] == [0, 0] == U16Bytes(0);
    }
  }

  /** With the corrected test, every view `readFrom` accepts is valid. */
  lemma ReadViewPassesCheckFixed(prev: View, src: seq<byte>, at: nat, n: nat)
    requires at + n <= |src|
    ensures ReadView(prev, src, at, n).0.Ok? ==> ReadView(prev, src, at, n).1.CheckFixed()
  {
  }

  /** `DynamicStringPairView`: two views, key then value. */
  datatype ViewPair = ViewPair(key: View, value: View) {
    function Size(): nat { key.Size() + value.Size() }
    predicate Check() { key.Check() && value.Check() }
    predicate Within(src: seq<byte>) { key.Within(src) && value.Within(src) }

    function Encode(src: seq<byte>): (r: seq<byte>)
      requires Within(src)
      ensures |r| == Size()
    {
      key.Encode(src) + value.Encode(src)
    }
  }

  /** `DynamicStringPairView::readFrom`: the key view, then the value view
      from where the key ended. */
  function ReadViewPair(prev: ViewPair, src: seq<byte>, at: nat, n: nat): (res: (Status, ViewPair))
    requires at + n <= |src|
    ensures res.0 != BadData && res.0 != Shortcut
    ensures res.0.Ok? ==> (4 <= res.0.n <= n && res.1.Within(src)
       && res.0.n == res.1.Size() && res.1.Encode(src) == src[at..at + res.0.n])
  {
    var rk := ReadView(prev.key, src, at, n);
    if rk.0.IsError() then (rk.0, ViewPair(rk.1, prev.value))
    else
      var rv := ReadView(prev.value, src, at + rk.0.n, n - rk.0.n);
      if rv.0.IsError() then (rv.0, ViewPair(rk.1, rv.1))
      else
        var pair := ViewPair(rk.1, rv.1);
        JoinRanges(src, at, rk.0.n, rv.0.n, rk.1.Encode(src), rv.1.Encode(src));
        assert pair.Encode(src) == src[at..at + pair.Size()];
        (Ok(pair.Size()), pair)
  }

  /** A pair of views read from what an owning pair wrote sees the same
      key and value. */
  lemma ReadViewPairOf(prev: ViewPair, x: OwnedPair, src: seq<byte>, at: nat, n: nat)
    requires x.Readable() && x.Size() <= n && at + n <= |src|
    requires src[at..at + x.Size()] == x.Encode()
    ensures var r := ReadViewPair(prev, src, at, n);
      r.0 == Ok(x.Size()) && r.1.Within(src)
      && r.1.key.Content(src) == x.key.Content() && r.1.value.Content(src) == x.value.Content()
  {
    hide ReadView, ReadU16, U16Bytes;
    var k := x.key.Size();
    var ek, ev := x.key.Encode(), x.value.Encode();
    SplitRanges(src, at, ek, ev);
    ReadViewOf(prev.key, x.key, src, at, n);
    ReadViewOf(prev.value, x.value, src, at + k, n - k);
    var rk := ReadView(prev.key, src, at, n);
    var rv := ReadView(prev.value, src, at + k, n - k);
    assert ReadViewPair(prev, src, at, n).1 == ViewPair(rk.1, rv.1);
  }
}
