/** The Variable Byte Integer of MQTT v5 (section 1.5.5 of the OASIS MQTT
    Version 5.0 standard): base-128 digits, least significant first, the top
    bit of each byte set when another byte follows. `VBInt` is the codec
    object the source embeds by value in every length field; `MappedVBInt`
    is the allocation-free decoder used by the property view. */
module VarInt {
  import opened Wire

  const MaxSizeOn1Byte: nat := 127
  const MaxSizeOn2Bytes: nat := 16383
  const MaxSizeOn3Bytes: nat := 2097151
  const MaxPossibleSize: nat := 268435455

  /** The bytes of `value[]` a VBInt uses: the first `size` of its four. */
  type VBBytes = s: seq<byte> | |s| <= 4

  /** A VBInt: `value` holds the `size` encoded bytes in use. The bytes of the
      union beyond `size` are never read by any member, so they are not part
      of the model. */
  datatype VBInt = VBInt(value: VBBytes) {

    /** `getSize`: the number of bytes `copyInto` writes. */
    function Size(): nat { |value| }

    /** `check`: one to four bytes, the last one without continuation bit. */
    predicate Check() { 0 < |value| < 5 && value[|value| - 1] < 128 }

    /** `operator uint32`: the decode switch. Size 0 reads as 0; the fourth
        byte is shifted in without masking its top bit. A checked VBInt
        decodes to what the standard's decoding algorithm gives. */
    function Decoded(): (v: nat)
      ensures Check() ==> v == DigitsValue(value)
      ensures v < 0x2000_0000
    {
      DigitsValueUnrolled(value);
      var n := |value|;
      if n == 0 then 0
      else
        (if n == 4 then value[3] as nat * 0x20_0000 else 0)
        + (if n >= 3 then (value[2] as nat % 128) * 0x4000 else 0)
        + (if n >= 2 then (value[1] as nat % 128) * 0x80 else 0)
        + value[0] as nat % 128
    }

    /** `copyInto`: the first `size` bytes of the union. */
    function Bytes(): (b: seq<byte>)
      ensures |b| == Size()
    {
      value
    }
  }

  /** The standard's encoding algorithm: digits least significant first,
      continuation bit on every byte but the last. This is the reference the
      source's unrolled switch is proved against. */
  function Digits(v: nat): (d: seq<byte>)
    ensures |d| >= 1
    ensures v <= MaxPossibleSize ==> |d| == EncodedSize(v)
    decreases v
  {
    if v < 128 then [v as byte] else [(v % 128 + 128) as byte] + Digits(v / 128)
  }

  /** The standard's decoding algorithm: the sum of each digit's low seven
      bits times 128 to the power of its position. */
  function DigitsValue(d: seq<byte>): nat
  {
    if d == [] then 0 else d[0] as nat % 128 + 128 * DigitsValue(d[1..])
  }

  /** A well-formed digit string: continuation bit set on every byte but the
      last, and clear on the last. */
  predicate Terminated(d: seq<byte>)
  {
    |d| > 0 && d[|d| - 1] < 128 && forall i :: 0 <= i < |d| - 1 ==> d[i] >= 128
  }

  /** How many bytes the encoding of `v` takes (0: not encodable). */
  function EncodedSize(v: nat): nat
  {
    if v <= MaxSizeOn1Byte then 1
    else if v <= MaxSizeOn2Bytes then 2
    else if v <= MaxSizeOn3Bytes then 3
    else if v <= MaxPossibleSize then 4
    else 0
  }

  /** The reference encoding is well formed, decodes back to `v`, and has the
      size given by the thresholds 127 / 16383 / 2097151. */
  lemma {:induction false} DigitsFacts(v: nat)
    ensures DigitsValue(Digits(v)) == v
    ensures Terminated(Digits(v))
    decreases v
  {
    if v >= 128 {
      DigitsFacts(v / 128);
      var d := Digits(v);
      assert d[1..] == Digits(v / 128);
    }
  }

  /** `operator=` on a `uint32`: the source's fall-through switch, unrolled.
      Values above 268,435,455 leave a VBInt of size 0, which fails `check`.
      Every encodable value is stored as its reference encoding, so the
      result checks and converts back to `v`. */
  function Assign(v: nat): (r: VBInt)
    requires v < U32
    ensures r.Size() == EncodedSize(v)
    ensures v <= MaxPossibleSize ==> r.value == Digits(v) && r.Check() && r.Decoded() == v
    ensures v > MaxPossibleSize ==> r.value == [] && !r.Check()
  {
    DigitsFacts(v);
    DigitsUnrolled(v);
    if v <= MaxSizeOn1Byte then
      VBInt([v as byte])
    else if v <= MaxSizeOn2Bytes then
      VBInt([(v % 128 + 128) as byte, (v / 128) as byte])
    else if v <= MaxSizeOn3Bytes then
      VBInt([(v % 128 + 128) as byte, (v / 128 % 128 + 128) as byte, (v / 0x4000) as byte])
    else if v <= MaxPossibleSize then
      VBInt([(v % 128 + 128) as byte, (v / 128 % 128 + 128) as byte,
             (v / 0x4000 % 128 + 128) as byte, (v / 0x20_0000) as byte])
    else
      VBInt([])
  }

  /** Helper: dividing by 128 twice or thrice is dividing by 128^2 or 128^3. */
  lemma DivBy128Twice(v: nat)
    ensures v / 128 / 128 == v / 0x4000
    ensures v / 0x4000 / 128 == v / 0x20_0000
  {
  }

  /** Helper: the reference encoding of an encodable value, digit by digit. */
  lemma DigitsUnrolled(v: nat)
    ensures 128 <= v <= MaxSizeOn2Bytes ==> Digits(v) == [(v % 128 + 128) as byte, (v / 128) as byte]
    ensures MaxSizeOn2Bytes < v <= MaxSizeOn3Bytes ==>
      Digits(v) == [(v % 128 + 128) as byte, (v / 128 % 128 + 128) as byte, (v / 0x4000) as byte]
    ensures MaxSizeOn3Bytes < v <= MaxPossibleSize ==>
      Digits(v) == [(v % 128 + 128) as byte, (v / 128 % 128 + 128) as byte,
                    (v / 0x4000 % 128 + 128) as byte, (v / 0x20_0000) as byte]
  {
    DivBy128Twice(v);
    if 128 <= v <= MaxPossibleSize {
      var w := v / 128;
      assert Digits(v) == [(v % 128 + 128) as byte] + Digits(w);
      if w >= 128 {
        var u := w / 128;
        assert u == v / 0x4000;
        assert Digits(w) == [(w % 128 + 128) as byte] + Digits(u);
        if u >= 128 {
          var t := u / 128;
          assert t == v / 0x20_0000 < 128;
          assert Digits(u) == [(u % 128 + 128) as byte] + [t as byte];
        }
      }
    }
  }

  /** Helper: the standard's decoding of at most four digits, written out. */
  lemma DigitsValueUnrolled(d: seq<byte>)
    requires |d| <= 4
    ensures DigitsValue(d) ==
      (if |d| >= 4 then (d[3] as nat % 128) * 0x20_0000 else 0)
      + (if |d| >= 3 then (d[2] as nat % 128) * 0x4000 else 0)
      + (if |d| >= 2 then (d[1] as nat % 128) * 0x80 else 0)
      + (if |d| >= 1 then d[0] as nat % 128 else 0)
  {
    if |d| > 0 {
      var e := d[1..];
      if |e| > 0 {
        var f := e[1..];
        if |f| > 0 {
          var g := f[1..];
          if |g| > 0 {
            assert g[1..] == [];
          }
        }
      }
    }
  }

  /** `VBInt::readFrom`, one loop iteration per call: `size` bytes, all with
      continuation bit, have been read. The outcome as the source computes
      it: a terminated encoding of one to three bytes is accepted; a fourth
      byte is always rejected with BadData, terminated or not; a buffer that
      ends before a terminating byte gives NotEnoughData. The VBInt returned
      holds the bytes read, as the loop leaves `value[]` and `size`. */
  function ReadLoop(buf: seq<byte>, size: nat): (res: (Status, VBInt))
    requires size <= 4 && size <= |buf|
    requires forall j :: 0 <= j < size ==> buf[j] >= 128
    ensures |res.1.value| <= |buf| && res.1.value == buf[..|res.1.value|]
    ensures res.0.Ok? ==> res.0.n == |res.1.value| <= 3 && Terminated(res.1.value)
    ensures res.0 == NotEnoughData <==> (|buf| < 4 && forall j :: size <= j < |buf| ==> buf[j] >= 128)
    ensures res.0 == BadData <==> (|buf| >= 4 && forall j :: size <= j < 3 ==> buf[j] >= 128)
    ensures res.0 != Shortcut
    decreases 4 - size
  {
    if size == 4 then (BadData, VBInt(buf[..4]))
    else if size + 1 > |buf| then (NotEnoughData, VBInt(buf[..size]))
    else if buf[size] < 128 then
      (if size + 1 < 4 then Ok(size + 1) else BadData, VBInt(buf[..size + 1]))
    else ReadLoop(buf, size + 1)
  }

  /** The outcome of `VBInt::readFrom` on `buf` and the VBInt it leaves:
      the bytes read from the start of `buf`; a terminated encoding of one
      to three bytes, all of it read; NotEnoughData exactly when fewer than
      four bytes, all with continuation bit, are there; BadData exactly when
      the first three of four or more bytes have it. */
  function ReadSpec(buf: seq<byte>): (res: (Status, VBInt))
    ensures |res.1.value| <= |buf| && res.1.value == buf[..|res.1.value|]
    ensures res.0.Ok? ==> res.0.n == res.1.Size() <= 3 && Terminated(res.1.value) && res.1.Check()
    ensures res.0 == NotEnoughData <==> (|buf| < 4 && forall j :: 0 <= j < |buf| ==> buf[j] >= 128)
    ensures res.0 == BadData <==> (|buf| >= 4 && forall j :: 0 <= j < 3 ==> buf[j] >= 128)
    ensures res.0 != Shortcut
  {
    ReadLoop(buf, 0)
  }

  /** `VBInt::readFrom`: the source's loop filling `value[]` and `size`. */
  method ReadFrom(buf: seq<byte>) returns (r: Status, x: VBInt)
    ensures (r, x) == ReadSpec(buf)
  {
    var size: nat := 0;
    var value: seq<byte> := [];
    while size < 4
      invariant size <= 4 && size <= |buf| && value == buf[..size]
      invariant forall j :: 0 <= j < size ==> buf[j] >= 128
      invariant ReadLoop(buf, size) == ReadSpec(buf)
      decreases 4 - size
    {
      if size + 1 > |buf| {
        return NotEnoughData, VBInt(value);
      }
      value := value + [buf[size]];
      size := size + 1;
      if buf[size - 1] < 128 {
        assert value == buf[..size];
        r := if size < 4 then Ok(size) else BadData;
        x := VBInt(value);
        return;
      }
    }
    r := BadData;
    x := VBInt(value);
  }

  /** A terminated encoding of one to three bytes is read back whole,
      whatever follows it. */
  lemma ReadOfTerminated(d: seq<byte>, rest: seq<byte>)
    requires Terminated(d) && |d| <= 3
    ensures ReadSpec(d + rest) == (Ok(|d|), VBInt(d))
  {
    var b := d + rest;
    assert b[..|d|] == d;
    ReadLoopStopsAt(b, 0, |d| - 1);
  }

  /** What `readFrom` of the source makes of the bytes `copyInto` wrote for
      an encodable value: the round trip holds up to 2,097,151, ... */
  lemma ReadOfEncoding(v: nat, rest: seq<byte>)
    requires v <= MaxSizeOn3Bytes
    ensures ReadSpec(Digits(v) + rest) == (Ok(|Digits(v)|), VBInt(Digits(v)))
    ensures VBInt(Digits(v)).Decoded() == v
  {
    DigitsFacts(v);
    ReadOfTerminated(Digits(v), rest);
  }

  /** ... and every value that needs four bytes is rejected. */
  lemma ReadRejectsFourBytes(v: nat, rest: seq<byte>)
    requires MaxSizeOn3Bytes < v <= MaxPossibleSize
    ensures ReadSpec(Digits(v) + rest).0 == BadData
  {
    DigitsFacts(v);
    var b := Digits(v) + rest;
    assert |b| >= 4 && b[..4] == Digits(v);
    assert forall j :: 0 <= j < 3 ==> b[j] >= 128;
  }

  /** Helper: the loop stops at the first byte without continuation bit. */
  lemma {:induction false} ReadLoopStopsAt(b: seq<byte>, size: nat, k: nat)
    requires size <= k < |b| && k < 3
    requires forall j :: 0 <= j < k ==> b[j] >= 128
    requires b[k] < 128
    ensures ReadLoop(b, size) == (Ok(k + 1), VBInt(b[..k + 1]))
    decreases k - size
  {
    if size < k {
      ReadLoopStopsAt(b, size + 1, k);
    }
  }

  /** The reading the standard asks for: a fourth byte is accepted when it
      terminates the encoding; BadData only when a fifth byte would be
      needed. */
  function ReadFixed(buf: seq<byte>): (res: (Status, VBInt))
    ensures res.0.Ok? ==> res.0.n == |res.1.value| <= |buf| && Terminated(res.1.value) && res.1.value == Front(buf, res.0.n)
    ensures res.0 != Shortcut
  {
    var (s, x) := ReadSpec(buf);
    if s == BadData && buf[3] < 128 then (Ok(4), VBInt(buf[..4])) else (s, x)
  }

  /** With the corrected reading, every encodable value round-trips. */
  lemma ReadFixedRoundTrip(v: nat, rest: seq<byte>)
    requires v <= MaxPossibleSize
    ensures ReadFixed(Assign(v).Bytes() + rest) == (Ok(EncodedSize(v)), Assign(v))
    ensures ReadFixed(Assign(v).Bytes() + rest).1.Decoded() == v
  {
    DigitsFacts(v);
    if v <= MaxSizeOn3Bytes {
      ReadOfEncoding(v, rest);
    } else {
      ReadRejectsFourBytes(v, rest);
      var b := Digits(v) + rest;
      assert b[..4] == Digits(v);
    }
  }

  /** `MappedVBInt::acceptBuffer`: scans at most four bytes and never past
      the buffer, then decodes whatever it scanned. An empty buffer is
      BadData; a buffer that ends, or four bytes that all carry the
      continuation bit, are accepted as they are. */
  function AcceptSpec(buf: seq<byte>): (res: (Status, nat))
    ensures res.0 == BadData <==> |buf| == 0
    ensures res.0 != BadData ==> res.0.Ok? && 1 <= res.0.n <= 4 && res.0.n <= |buf|
    ensures res.0.Ok? ==> res.1 == VBInt(Front(buf, res.0.n)).Decoded()
  {
    if |buf| == 0 then (BadData, 0)
    else
      var n := ScanLength(buf, 0);
      (Ok(n), VBInt(buf[..n]).Decoded())
  }

  /** The number of bytes the scan of `acceptBuffer` covers from `size` on:
      up to and including the first byte without continuation bit, capped
      at four bytes and at the end of the buffer. */
  function ScanLength(buf: seq<byte>, size: nat): (n: nat)
    requires size < 4 && size < |buf|
    ensures size < n <= 4 && n <= |buf|
    ensures forall j :: size <= j < n - 1 ==> buf[j] >= 128
    ensures buf[n - 1] < 128 || n == 4 || n == |buf|
    decreases 4 - size
  {
    if buf[size] < 128 || size + 1 == 4 || size + 1 == |buf| then size + 1
    else ScanLength(buf, size + 1)
  }

  /** `MappedVBInt::acceptBuffer`: the scanning loop and the decode switch. */
  method AcceptBuffer(buf: seq<byte>) returns (r: Status, o: nat)
    ensures (r, o) == AcceptSpec(buf)
  {
    o := 0;
    var size: nat := 0;
    while size < 4 && size < |buf|
      invariant size <= 4 && size <= |buf|
      invariant forall j :: 0 <= j < size ==> buf[j] >= 128
      invariant 0 < size < 4 && size < |buf| ==> ScanLength(buf, size) == ScanLength(buf, 0)
      decreases 4 - size
    {
      size := size + 1;
      if buf[size - 1] < 128 {
        break;
      }
    }
    if size == 0 {
      return BadData, o;
    }
    o := VBInt(buf[..size]).Decoded();
    r := Ok(size);
  }

  /** A terminated encoding of one to four bytes is scanned whole and
      decoded to its value, whatever follows it. */
  lemma AcceptOfTerminated(d: seq<byte>, rest: seq<byte>)
    requires Terminated(d) && |d| <= 4
    ensures var r := AcceptSpec(d + rest); r.0 == Ok(|d|) && r.1 == DigitsValue(d)
  {
    var b := d + rest;
    assert b[..|d|] == d;
    ScanLengthStopsAt(b, 0, |d| - 1);
  }

  /** Helper: the scan stops at the first byte without continuation bit. */
  lemma {:induction false} ScanLengthStopsAt(b: seq<byte>, size: nat, k: nat)
    requires size <= k < |b| && k < 4
    requires forall j :: 0 <= j < k ==> b[j] >= 128
    requires b[k] < 128
    ensures ScanLength(b, size) == k + 1
    decreases k - size
  {
    if size < k {
      ScanLengthStopsAt(b, size + 1, k);
    }
  }

  /** The view decoder takes a truncated encoding for a complete one: a lone
      continuation byte is accepted as the value 0 instead of NotEnoughData. */
  lemma AcceptTakesTruncated()
    ensures AcceptSpec([0x80]) == (Ok(1), 0)
  {
  }

  /** The decoder the standard asks for: NotEnoughData when the buffer ends
      before a terminating byte, BadData when four bytes all carry the
      continuation bit. */
  function AcceptFixed(buf: seq<byte>): (res: (Status, nat))
    ensures res.0.Ok? ==> 1 <= res.0.n <= |buf| && Terminated(Front(buf, res.0.n))
    ensures res.0.Ok? ==> res.1 == DigitsValue(Front(buf, res.0.n))
  {
    var (s, x) := ReadFixed(buf);
    (s, x.Decoded())
  }

  /** With the corrected decoder every encodable value round-trips, and a
      terminated prefix is never mistaken for a longer one. */
  lemma AcceptFixedRoundTrip(v: nat, rest: seq<byte>)
    requires v <= MaxPossibleSize
    ensures AcceptFixed(Digits(v) + rest) == (Ok(EncodedSize(v)), v)
  {
    DigitsFacts(v);
    ReadFixedRoundTrip(v, rest);
  }
}
