/** The zero-copy property view of MQTT v5 (section 2.2.2 of the OASIS MQTT
    Version 5.0 standard): `PropertiesView` keeps the Variable Byte Integer
    length and a pointer into the received packet, and walks the properties
    in place through the visitors of `MemMappedPropertyRegistry`. The
    pointer is an index into the received bytes `src`. */
module PropView {
  import opened Wire
  import opened VarInt
  import opened Primitives
  import opened Header
  import opened Registry
  import opened PropertyCodec
  import opened ListParse
  import opened PropertyList

  /** What the visitor of a property holds once it accepted the value:
      the integer of a `PODVisitor` / `LittleEndianPODVisitor`, the value
      of a `MappedVBInt`, or a string, binary or pair view. */
  datatype Visited =
    | Byte8(b: nat)
    | Word16(w: nat)
    | Word32(d: nat)
    | VarValue(v: nat)
    | TextView(s: View)
    | BinaryView(bin: View)
    | PairView(pair: ViewPair)

  /** One step of a walk: the property code and what its visitor holds. */
  datatype Visit = Visit(code: nat, value: Visited)

  /** The visitor kinds the registry constructor installs, in index order. */
  const VisitorKinds: seq<Kind> :=
    [U8Kind, U32Kind, TextKind, TextKind, BinaryKind, VarKind, U32Kind, TextKind, U16Kind,
     TextKind, BinaryKind, U8Kind, U32Kind, U8Kind, TextKind, TextKind, TextKind, U16Kind,
     U16Kind, U16Kind, U8Kind, U8Kind, PairKind, U32Kind, U8Kind, U8Kind, U8Kind]

  /** `getVisitorForProperty`: nothing for a code at or above
      `MaxUsedPropertyType` or without an index, otherwise the visitor
      installed at the code's index. The registry of visitors agrees with
      the kinds the owning properties are declared with. */
  function VisitorFor(t: nat): (k: Option<Kind>)
    ensures k == KindOf(t)
  {
    PropertyIndexBijective(t);
    if t >= MaxUsedPropertyType then None
    else
      var index := InvPropertyMap[t];
      if index == PropertiesCount then None
      else
        VisitorKindsByIndex(index);
        Some(VisitorKinds[index])
  }

  /** Helper: the visitor at each index reads the kind of the code that
      index stands for. */
  lemma VisitorKindsByIndex(i: nat)
    requires i < PropertiesCount
    ensures KindOf(CodeOfIndex[i]) == Some(VisitorKinds[i])
  {
    if i < 14 {
      assert i in {0, 1, 2, 3, 4, 5, 6, 7, 8, 9, 10, 11, 12, 13};
    } else {
      assert i in {14, 15, 16, 17, 18, 19, 20, 21, 22, 23, 24, 25, 26};
    }
  }

  /** `PODVisitor::acceptBuffer` and `LittleEndianPODVisitor::acceptBuffer`
      on the `n` bytes of `src` from `at`: NotEnoughData when fewer than
      `w` bytes are given, otherwise the `w` bytes in network order (for a
      single byte the plain copy of `PODVisitor<uint8>` reads the same). */
  function AcceptInteger(src: seq<byte>, at: nat, n: nat, w: nat): (res: (Status, nat))
    requires at + n <= |src|
    ensures res.0 == (if n < w then NotEnoughData else Ok(w))
    ensures res.0.Ok? ==> res.1 < Pow256(w) && BigEndian(res.1, w) == src[at..at + w]
  {
    if n < w then (NotEnoughData, 0)
    else
      ToFromBigEndian(src[at..at + w]);
      (Ok(w), FromBigEndian(src[at..at + w]))
  }

  /** `acceptBuffer` of the visitor installed for kind `k`, on the `n`
      bytes of `src` starting at `at`. The strings, binary data and pairs
      are read by the views' `readFrom`, the Variable Byte Integer by
      `MappedVBInt`. */
  function Accept(k: Kind, src: seq<byte>, at: nat, n: nat): (res: (Status, Visited))
    requires at + n <= |src|
    ensures res.0 != Shortcut
    ensures res.0.Ok? ==> 1 <= res.0.n <= n
  {
    match k
    case U8Kind => var r := AcceptInteger(src, at, n, 1); (r.0, Byte8(r.1))
    case U16Kind => var r := AcceptInteger(src, at, n, 2); (r.0, Word16(r.1))
    case U32Kind => var r := AcceptInteger(src, at, n, 4); (r.0, Word32(r.1))
    case VarKind => var r := AcceptSpec(src[at..at + n]); (r.0, VarValue(r.1))
    case TextKind => var r := ReadView(View(0, None), src, at, n); (r.0, TextView(r.1))
    case BinaryKind => var r := ReadView(View(0, None), src, at, n); (r.0, BinaryView(r.1))
    case PairKind =>
      var r := ReadViewPair(ViewPair(View(0, None), View(0, None)), src, at, n); (r.0, PairView(r.1))
  }

  /** What a visitor holds shows the owning value `val`: the same integer,
      the value of the Variable Byte Integer, views of the same bytes. */
  predicate Shows(vis: Visited, val: Value, src: seq<byte>)
  {
    match val
    case Int8(x) => vis == Byte8(x)
    case Int16(x) => vis == Word16(x)
    case Int32(x) => vis == Word32(x)
    case Var(vb) => vis == VarValue(vb.Decoded())
    case Text(s) => vis.TextView? && vis.s.Within(src) && s.Readable() && vis.s.Content(src) == s.Content()
    case Binary(b) => vis.BinaryView? && vis.bin.Within(src) && b.Readable() && vis.bin.Content(src) == b.Content()
    case Pair(p) =>
      vis.PairView? && vis.pair.Within(src) && p.Readable()
      && vis.pair.key.Content(src) == p.key.Content() && vis.pair.value.Content(src) == p.value.Content()
  }

  /** A property the view reads as written: it fits its C types, its code
      names a property of its kind, and a Variable Byte Integer value is a
      terminated encoding (`MappedVBInt` takes four bytes as well). */
  predicate Viewable(p: Property)
  {
    p.Fits() && p.Registered() && (p.value.Var? ==> Terminated(p.value.vb.value))
  }

  /** Every property that reads back through the owning codec is read by
      the view as well. */
  lemma RoundTripsViewable(p: Property)
    requires RoundTrips(p)
    ensures Viewable(p)
  {
  }

  /** The visitor of a property's kind, given room for at least the value,
      accepts exactly the value's bytes and shows the value. */
  lemma AcceptOfEncoding(p: Property, src: seq<byte>, at: nat, n: nat)
    requires Viewable(p) && p.value.Size() <= n && at + n <= |src|
    requires src[at..at + p.value.Size()] == p.value.Encode()
    ensures var r := Accept(p.value.Kind(), src, at, n);
      r.0 == Ok(p.value.Size()) && Shows(r.1, p.value, src)
  {
    match p.value
    case Int8(x) => AcceptIntegerOf(x, 1, src, at, n);
    case Int16(x) => AcceptIntegerOf(x, 2, src, at, n);
    case Int32(x) => AcceptIntegerOf(x, 4, src, at, n);
    case Var(vb) => AcceptVarOf(vb, src, at, n);
    case Text(s) => AcceptTextOf(s, src, at, n);
    case Binary(b) => AcceptBinaryOf(b, src, at, n);
    case Pair(x) => AcceptPairOf(x, src, at, n);
  }

  /** Helper: the integer visitors. */
  lemma AcceptIntegerOf(x: nat, w: nat, src: seq<byte>, at: nat, n: nat)
    requires x < Pow256(w) && w <= n && at + n <= |src| && src[at..at + w] == BigEndian(x, w)
    ensures var r := AcceptInteger(src, at, n, w); r.0 == Ok(w) && r.1 == x
  {
    FromToBigEndian(x, w);
  }

  /** Helper: the `MappedVBInt` visitor. */
  lemma AcceptVarOf(vb: VBInt, src: seq<byte>, at: nat, n: nat)
    requires Terminated(vb.value) && vb.Size() <= n && at + n <= |src|
    requires src[at..at + vb.Size()] == vb.Bytes()
    ensures var r := Accept(VarKind, src, at, n); r.0 == Ok(vb.Size()) && r.1 == VarValue(vb.Decoded())
  {
    var d := vb.value;
    assert src[at..at + n] == d + src[at + |d|..at + n];
    AcceptOfTerminated(d, src[at + |d|..at + n]);
  }

  /** Helper: the string view visitor. */
  lemma AcceptTextOf(x: Owned, src: seq<byte>, at: nat, n: nat)
    requires x.Readable() && x.Size() <= n && at + n <= |src| && src[at..at + x.Size()] == x.Encode()
    ensures var r := Accept(TextKind, src, at, n);
      r.0 == Ok(x.Size()) && r.1.TextView? && r.1.s.Within(src) && r.1.s.Content(src) == x.Content()
  {
    hide ReadView, ReadViewPair, AcceptInteger, AcceptSpec;
    ReadViewOf(View(0, None), x, src, at, n);
  }

  /** Helper: the binary data view visitor. */
  lemma AcceptBinaryOf(x: Owned, src: seq<byte>, at: nat, n: nat)
    requires x.Readable() && x.Size() <= n && at + n <= |src| && src[at..at + x.Size()] == x.Encode()
    ensures var r := Accept(BinaryKind, src, at, n);
      r.0 == Ok(x.Size()) && r.1.BinaryView? && r.1.bin.Within(src) && r.1.bin.Content(src) == x.Content()
  {
    hide ReadView, ReadViewPair, AcceptInteger, AcceptSpec;
    ReadViewOf(View(0, None), x, src, at, n);
  }

  /** Helper: the string pair view visitor. */
  lemma AcceptPairOf(x: OwnedPair, src: seq<byte>, at: nat, n: nat)
    requires x.Readable() && x.Size() <= n && at + n <= |src| && src[at..at + x.Size()] == x.Encode()
    ensures var r := Accept(PairKind, src, at, n);
      r.0 == Ok(x.Size()) && r.1.PairView? && r.1.pair.Within(src)
      && r.1.pair.key.Content(src) == x.key.Content() && r.1.pair.value.Content(src) == x.value.Content()
  {
    hide ReadView, ReadViewPair, AcceptInteger, AcceptSpec;
    ReadViewPairOf(ViewPair(View(0, None), View(0, None)), x, src, at, n);
  }

  /** `PropertiesView`: the length and the index of the first property
      byte in `src` (`None` for the null pointer). */
  datatype PropView = PropView(length: VBInt, buffer: Option<nat>) {

    /** `getSize`: the length field plus the bytes it counts. */
    function Size(): nat { length.Size() + length.Decoded() }

    /** `check`: only the length field is checked. */
    predicate Check() { length.Check() }

    /** The viewed bytes lie inside `src`. */
    predicate Within(src: seq<byte>) { buffer.Some? ==> buffer.value + length.Decoded() <= |src| }

    /** `copyInto`: the length field, then the viewed bytes (none for the
        null pointer, which `copyInto` is only given with a zero length). */
    function Encode(src: seq<byte>): (r: seq<byte>)
      requires Within(src) && (buffer.Some? || length.Decoded() == 0)
      ensures |r| == Size()
    {
      length.Bytes() + (if buffer.Some? then src[buffer.value..buffer.value + length.Decoded()] else [])
    }
  }

  /** The default `PropertiesView()`: a zero length and a null pointer. */
  const EmptyView: PropView := PropView(Assign(0), None)

  /** `PropertiesView::readFrom` on the `n` bytes of `src` from `at`: the
      length field's `readFrom`, NotEnoughData when the bytes it counts do
      not follow, and the pointer set to the byte after the length field.
      What it accepts is a checked view spanning exactly the bytes read. */
  function ReadPropView(prev: PropView, src: seq<byte>, at: nat, n: nat): (res: (Status, PropView))
    requires at + n <= |src|
    ensures res.0 != Shortcut
    ensures res.0.IsError() ==> res.1.buffer == prev.buffer
    ensures res.0.Ok? ==> (res.0.n == res.1.Size() <= n && res.1.buffer == Some(at + res.1.length.Size())
       && res.1.Within(src) && res.1.Check() && res.1.Encode(src) == src[at..at + res.0.n])
  {
    var r := ReadSpec(src[at..at + n]);
    if r.0.IsError() then (r.0, PropView(r.1, prev.buffer))
    else if r.1.Decoded() > n - r.0.n then (NotEnoughData, PropView(r.1, prev.buffer))
    else
      var s, l := r.0.n, r.1.Decoded();
      assert r.1.value == src[at..at + s];
      assert src[at..at + s + l] == src[at..at + s] + src[at + s..at + s + l];
      (Ok(s + l), PropView(r.1, Some(at + s)))
  }

  /** A view read from a length field followed by that many bytes points
      at those bytes, wherever they sit in `src`. */
  lemma ReadPropViewOf(prev: PropView, body: seq<byte>, src: seq<byte>, at: nat, n: nat)
    requires |body| <= MaxSizeOn3Bytes && at + n <= |src|
    requires Assign(|body|).Size() + |body| <= n
    requires src[at..at + Assign(|body|).Size() + |body|] == Assign(|body|).Bytes() + body
    ensures var r := ReadPropView(prev, src, at, n);
      var s := Assign(|body|).Size();
      r.0 == Ok(s + |body|) && r.1.length == Assign(|body|) && r.1.buffer == Some(at + s)
      && r.1.length.Decoded() == |body| && r.1.Within(src)
      && src[r.1.buffer.value..r.1.buffer.value + r.1.length.Decoded()] == body
  {
    LengthFieldOf(body, src, at, n);
  }

  /** Helper: the length field in front of `body` reads back, and `body`
      follows it. */
  lemma LengthFieldOf(body: seq<byte>, src: seq<byte>, at: nat, n: nat)
    requires |body| <= MaxSizeOn3Bytes && at + n <= |src|
    requires Assign(|body|).Size() + |body| <= n
    requires src[at..at + Assign(|body|).Size() + |body|] == Assign(|body|).Bytes() + body
    ensures var len := Assign(|body|);
      ReadSpec(src[at..at + n]) == (Ok(len.Size()), len) && len.Decoded() == |body|
      && src[at + len.Size()..at + len.Size() + |body|] == body
  {
    var len := Assign(|body|);
    var s := len.Size();
    var buf := src[at..at + n];
    assert buf == len.Bytes() + body + buf[s + |body|..] by {
      assert buf[..s + |body|] == len.Bytes() + body;
    }
    LengthThenBody(|body|, body, buf[s + |body|..]);
    assert src[at + s..at + s + |body|] == (len.Bytes() + body)[s..];
  }

  /** `getProperty` from `offset`: nothing (and the offset unchanged) at or
      past the end, with a null pointer, for a code without a visitor or
      when the visitor refuses the bytes left; otherwise the visitor and
      the offset of the next property. The type is the code read once a
      visitor exists, `BadProperty` before. */
  function GetProperty(v: PropView, src: seq<byte>, offset: nat): (res: (Option<Visited>, nat, nat))
    requires v.Within(src)
    ensures res.0.None? ==> res.2 == offset
    ensures res.0.Some? ==> offset < res.2 <= v.length.Decoded()
    ensures res.1 == BadProperty || (offset < v.length.Decoded() && v.buffer.Some?
       && res.1 == src[v.buffer.value + offset] as nat)
    ensures res.0.Some? ==> res.1 != BadProperty
  {
    if offset >= v.length.Decoded() || v.buffer.None? then (None, BadProperty, offset)
    else
      var at := v.buffer.value + offset;
      var t := src[at] as nat;
      match VisitorFor(t)
      case None => (None, BadProperty, offset)
      case Some(k) =>
        var r := Accept(k, src, at + 1, v.length.Decoded() - offset - 1);
        if r.0.IsError() then (None, t, offset) else (Some(r.1), t, offset + r.0.n + 1)
  }

  /** The properties `getProperty` visits from `offset` on, until it
      returns nothing, and the offset where it stops, within the view. */
  function Walk(v: PropView, src: seq<byte>, offset: nat): (w: (seq<Visit>, nat))
    requires v.Within(src)
    ensures offset <= w.1 && (offset <= v.length.Decoded() ==> w.1 <= v.length.Decoded())
    ensures GetProperty(v, src, w.1).0.None?
    decreases v.length.Decoded() - offset
  {
    var g := GetProperty(v, src, offset);
    if g.0.None? then ([], offset)
    else
      var rest := Walk(v, src, g.2);
      ([Visit(g.1, g.0.value)] + rest.0, rest.1)
  }

  /** Every code a walk visits names a property. */
  lemma {:induction false} WalkVisitsKnown(v: PropView, src: seq<byte>, offset: nat)
    requires v.Within(src)
    ensures forall i :: 0 <= i < |Walk(v, src, offset).0| ==> KindOf(Walk(v, src, offset).0[i].code).Some?
    decreases v.length.Decoded() - offset
  {
    var g := GetProperty(v, src, offset);
    if g.0.Some? {
      WalkVisitsKnown(v, src, g.2);
      var w, rest := Walk(v, src, offset), Walk(v, src, g.2);
      assert w.0 == [Visit(g.1, g.0.value)] + rest.0;
      forall i | 0 <= i < |w.0| ensures KindOf(w.0[i].code).Some? {
        if i > 0 {
          assert w.0[i] == rest.0[i - 1];
        }
      }
    }
  }

  /** Every visited code is allowed in packet type `ctype`. */
  predicate VisitsAllowed(vs: seq<Visit>, ctype: nat)
  {
    forall i :: 0 <= i < |vs| ==> IsAllowed(vs[i].code, ctype)
  }

  /** What `checkPropertiesFor` answers: the length field checks, and the
      codes the walk visits are allowed. */
  predicate AllowedFor(v: PropView, src: seq<byte>, ctype: nat)
    requires v.Within(src)
  {
    v.Check() && VisitsAllowed(Walk(v, src, 0).0, ctype)
  }

  /** `PropertiesView::checkPropertiesFor`: the source's loop over
      `getProperty`, stopping at the first code not allowed. */
  method CheckPropertiesFor(v: PropView, src: seq<byte>, ctype: nat) returns (ok: bool)
    requires v.Within(src)
    ensures ok == AllowedFor(v, src, ctype)
  {
    hide GetProperty, VisitorFor, Accept;
    if !v.Check() {
      return false;
    }
    var o: nat := 0;
    ghost var seen: seq<Visit> := [];
    while true
      invariant o <= v.length.Decoded()
      invariant Walk(v, src, 0).0 == seen + Walk(v, src, o).0
      invariant VisitsAllowed(seen, ctype)
      decreases v.length.Decoded() - o
    {
      var g := GetProperty(v, src, o);
      if g.0.None? {
        assert Walk(v, src, o).0 == [];
        assert seen == Walk(v, src, 0).0;
        return true;
      }
      if !IsAllowed(g.1, ctype) {
        assert Walk(v, src, 0).0[|seen|] == Visit(g.1, g.0.value);
        return false;
      }
      assert Walk(v, src, o).0 == [Visit(g.1, g.0.value)] + Walk(v, src, g.2).0;
      seen := seen + [Visit(g.1, g.0.value)];
      o := g.2;
    }
  }

  /** The check the standard calls for: in addition, the walk must reach
      the end of the view, so that a code without a visitor or a value
      running past the end is a malformed property list. */
  predicate AllowedForFixed(v: PropView, src: seq<byte>, ctype: nat)
    requires v.Within(src)
  {
    AllowedFor(v, src, ctype) && Walk(v, src, 0).1 == v.length.Decoded()
  }

  /** `checkPropertiesFor` with the corrected stop condition. */
  method CheckPropertiesForFixed(v: PropView, src: seq<byte>, ctype: nat) returns (ok: bool)
    requires v.Within(src)
    ensures ok == AllowedForFixed(v, src, ctype)
  {
    hide GetProperty, VisitorFor, Accept;
    if !v.Check() {
      return false;
    }
    var o: nat := 0;
    ghost var seen: seq<Visit> := [];
    while true
      invariant o <= v.length.Decoded()
      invariant Walk(v, src, 0).0 == seen + Walk(v, src, o).0
      invariant Walk(v, src, 0).1 == Walk(v, src, o).1
      invariant VisitsAllowed(seen, ctype)
      decreases v.length.Decoded() - o
    {
      var g := GetProperty(v, src, o);
      if g.0.None? {
        assert Walk(v, src, o) == ([], o);
        assert seen == Walk(v, src, 0).0;
        return o == v.length.Decoded();
      }
      if !IsAllowed(g.1, ctype) {
        assert Walk(v, src, 0).0[|seen|] == Visit(g.1, g.0.value);
        return false;
      }
      assert Walk(v, src, o).0 == [Visit(g.1, g.0.value)] + Walk(v, src, g.2).0;
      seen := seen + [Visit(g.1, g.0.value)];
      o := g.2;
    }
  }

  /** As written, a view whose first byte is a code without a visitor
      passes `checkPropertiesFor` whenever its length field checks: the walk
      stops at once and reports no disallowed code. The corrected check
      refuses it. */
  lemma UnknownCodePasses(v: PropView, src: seq<byte>, ctype: nat)
    requires v.Within(src) && v.buffer.Some? && 0 < v.length.Decoded()
    requires KindOf(src[v.buffer.value] as nat).None?
    ensures AllowedFor(v, src, ctype) == v.Check()
    ensures !AllowedForFixed(v, src, ctype)
  {
    assert Walk(v, src, 0) == ([], 0);
  }

  /** For instance the view read from the bytes 0x02 0x04 0x00, a length
      of 2 then the undefined code 0x04, which no packet type allows,
      passes as a CONNECT property list. */
  lemma UnknownCodeExample(prev: PropView)
    ensures var src: seq<byte> := [0x02, 0x04, 0x00];
      var r := ReadPropView(prev, src, 0, 3);
      r.0 == Ok(3) && r.1 == PropView(VBInt([2]), Some(1))
      && AllowedFor(r.1, src, CONNECT) && !IsAllowed(0x04, CONNECT) && !AllowedForFixed(r.1, src, CONNECT)
  {
    var src: seq<byte> := [0x02, 0x04, 0x00];
    var body: seq<byte> := [0x04, 0x00];
    assert Assign(2).Bytes() == [2];
    assert src[0..3] == Assign(|body|).Bytes() + body;
    ReadPropViewOf(prev, body, src, 0, 3);
    var v := PropView(VBInt([2]), Some(1));
    assert v.length.Decoded() == 2;
    UnknownCodePasses(v, src, CONNECT);
  }

  /** The default view is empty: one length byte, nothing to visit, and
      allowed in every packet type. */
  lemma EmptyViewAllowed(src: seq<byte>, ctype: nat)
    ensures EmptyView.Within(src) && EmptyView.Size() == 1 && EmptyView.Encode(src) == [0]
    ensures Walk(EmptyView, src, 0).0 == [] && AllowedForFixed(EmptyView, src, ctype)
  {
    assert EmptyView.length.value == [0];
  }

  /** On the bytes a property wrote, the visitor installed for its code
      accepts exactly its value and shows it. */
  lemma VisitorOfEncoding(src: seq<byte>, at: nat, n: nat, p: Property)
    requires Viewable(p) && p.value.Size() <= n && at + 1 + n <= |src|
    requires src[at..at + p.Size()] == p.Encode()
    ensures VisitorFor(src[at] as nat) == Some(p.value.Kind())
    ensures Accept(p.value.Kind(), src, at + 1, n).0 == Ok(p.value.Size())
    ensures Shows(Accept(p.value.Kind(), src, at + 1, n).1, p.value, src)
  {
    var e := p.Encode();
    SplitSlice(src, at, at + p.Size(), e[..1], e[1..]);
    assert src[at] as nat == p.code;
    AcceptOfEncoding(p, src, at + 1, n);
  }

  /** Helper: `getProperty` where a visitor exists and accepts `m` bytes. */
  lemma GetPropertyStep(v: PropView, src: seq<byte>, offset: nat, k: Kind, m: nat)
    requires v.Within(src) && v.buffer.Some? && offset < v.length.Decoded()
    requires VisitorFor(src[v.buffer.value + offset] as nat) == Some(k)
    requires Accept(k, src, v.buffer.value + offset + 1, v.length.Decoded() - offset - 1).0 == Ok(m)
    ensures var g := GetProperty(v, src, offset);
      g.0 == Some(Accept(k, src, v.buffer.value + offset + 1, v.length.Decoded() - offset - 1).1)
      && g.1 == src[v.buffer.value + offset] as nat && g.2 == offset + m + 1
  {
    hide VisitorFor, Accept;
  }

  /** `getProperty` at the bytes a property wrote returns that property's
      code, a visitor showing its value, and the offset just past it. */
  lemma GetPropertyOfEncoding(v: PropView, src: seq<byte>, offset: nat, p: Property)
    requires v.Within(src) && v.buffer.Some? && Viewable(p)
    requires offset + p.Size() <= v.length.Decoded()
    requires src[v.buffer.value + offset..v.buffer.value + offset + p.Size()] == p.Encode()
    ensures var g := GetProperty(v, src, offset);
      g.0.Some? && g.1 == p.code && g.2 == offset + p.Size() && Shows(g.0.value, p.value, src)
  {
    hide GetProperty, VisitorFor, Accept, Shows;
    VisitorOfEncoding(src, v.buffer.value + offset, v.length.Decoded() - offset - 1, p);
    GetPropertyStep(v, src, offset, p.value.Kind(), p.value.Size());
  }

  /** Helper: a slice that is the concatenation of two parts splits into
      them. */
  lemma SplitSlice(src: seq<byte>, start: nat, end: nat, a: seq<byte>, b: seq<byte>)
    requires start + |a| + |b| == end <= |src| && src[start..end] == a + b
    ensures src[start..start + |a|] == a && src[start + |a|..end] == b
  {
    assert src[start..start + |a|] == src[start..end][..|a|];
    assert src[start + |a|..end] == src[start..end][|a|..];
  }

  /** The visits `vs` are, one for one, the codes of `ps` with visitors
      showing their values. */
  predicate ShowsEach(vs: seq<Visit>, ps: seq<Property>, src: seq<byte>)
  {
    |vs| == |ps|
    && forall i :: 0 <= i < |ps| ==> vs[i].code == ps[i].code && Shows(vs[i].value, ps[i].value, src)
  }

  /** Helper: one more visit in front. */
  lemma ShowsEachCons(vis: Visit, vs: seq<Visit>, p: Property, ps: seq<Property>, src: seq<byte>)
    requires vis.code == p.code && Shows(vis.value, p.value, src) && ShowsEach(vs, ps, src)
    ensures ShowsEach([vis] + vs, [p] + ps, src)
  {
    forall i | 0 <= i < |ps| + 1
      ensures ([vis] + vs)[i].code == ([p] + ps)[i].code && Shows(([vis] + vs)[i].value, ([p] + ps)[i].value, src)
    {
      if i > 0 {
        assert ([vis] + vs)[i] == vs[i - 1] && ([p] + ps)[i] == ps[i - 1];
      }
    }
  }

  /** Walking the bytes an owning list wrote visits its properties in
      order, each visitor showing the property's value, and stops exactly
      at the end of the view. */
  lemma {:induction false} WalkOfEncoding(v: PropView, src: seq<byte>, offset: nat, ps: seq<Property>)
    requires v.Within(src) && v.buffer.Some?
    requires forall i :: 0 <= i < |ps| ==> Viewable(ps[i])
    requires offset + |Flat(Bytes, ps)| == v.length.Decoded()
    requires src[v.buffer.value + offset..v.buffer.value + v.length.Decoded()] == Flat(Bytes, ps)
    ensures var w := Walk(v, src, offset);
      w.1 == v.length.Decoded() && ShowsEach(w.0, ps, src)
    decreases |ps|
  {
    hide GetProperty, VisitorFor, Accept, Shows;
    var start, end := v.buffer.value + offset, v.buffer.value + v.length.Decoded();
    if ps == [] {
      assert Walk(v, src, offset) == ([], offset);
    } else {
      var p := ps[0];
      var tail := Flat(Bytes, ps[1..]);
      var e := p.Encode();
      assert Flat(Bytes, ps) == e + tail;
      SplitSlice(src, start, end, e, tail);
      GetPropertyOfEncoding(v, src, offset, p);
      var g := GetProperty(v, src, offset);
      WalkOfEncoding(v, src, g.2, ps[1..]);
      var w, rest := Walk(v, src, offset), Walk(v, src, g.2);
      assert w.0 == [Visit(p.code, g.0.value)] + rest.0 && w.1 == rest.1;
      ShowsEachCons(Visit(p.code, g.0.value), rest.0, p, ps[1..], src);
      assert ps == [p] + ps[1..];
    }
  }

  /** Helper: `WalkOfEncoding` from the start of the view. */
  lemma WalkOfBody(v: PropView, src: seq<byte>, ps: seq<Property>)
    requires v.Within(src) && v.buffer.Some?
    requires forall i :: 0 <= i < |ps| ==> Viewable(ps[i])
    requires |Flat(Bytes, ps)| == v.length.Decoded()
    requires src[v.buffer.value..v.buffer.value + v.length.Decoded()] == Flat(Bytes, ps)
    ensures var w := Walk(v, src, 0); w.1 == v.length.Decoded() && ShowsEach(w.0, ps, src)
  {
    assert v.buffer.value + 0 == v.buffer.value;
    WalkOfEncoding(v, src, 0, ps);
  }

  /** A walk that visits a list to the end of the view checks as the list
      does, as written and corrected alike. */
  lemma AllowedOfShows(v: PropView, src: seq<byte>, ps: seq<Property>, ctype: nat)
    requires v.Within(src)
    requires var w := Walk(v, src, 0); w.1 == v.length.Decoded() && ShowsEach(w.0, ps, src)
    ensures AllowedFor(v, src, ctype) <==> v.Check() && AllAllowed(ps, ctype)
    ensures AllowedForFixed(v, src, ctype) <==> v.Check() && AllAllowed(ps, ctype)
  {
  }

  /** A view read from what `Properties::copyInto` wrote for a list of
      properties the view can read visits exactly that list, and checks the
      same as the list does, as written and corrected alike. */
  lemma ViewOfList(prev: PropView, ps: seq<Property>, src: seq<byte>, at: nat, n: nat, ctype: nat)
    requires forall i :: 0 <= i < |ps| ==> Viewable(ps[i])
    requires ListSize(ps) <= MaxSizeOn3Bytes && at + n <= |src|
    requires Assign(ListSize(ps)).Size() + ListSize(ps) <= n
    requires src[at..at + Assign(ListSize(ps)).Size() + ListSize(ps)] == Assign(ListSize(ps)).Bytes() + ListBytes(ps)
    ensures var r := ReadPropView(prev, src, at, n);
      r.0 == Ok(Assign(ListSize(ps)).Size() + ListSize(ps)) && r.1.Within(src)
      && (var w := Walk(r.1, src, 0);
          w.1 == ListSize(ps) && ShowsEach(w.0, ps, src)
          && (AllowedFor(r.1, src, ctype) <==> AllAllowed(ps, ctype))
          && (AllowedForFixed(r.1, src, ctype) <==> AllAllowed(ps, ctype)))
  {
    hide ReadPropView, Walk, GetProperty, VisitorFor, Accept;
    assert AllFit(ps);
    var body := ListBytes(ps);
    ReadPropViewOf(prev, body, src, at, n);
    var r := ReadPropView(prev, src, at, n);
    WalkOfBody(r.1, src, ps);
    AllowedOfShows(r.1, src, ps, ctype);
  }
}
