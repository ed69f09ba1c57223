/** The owning property list of MQTT v5 (section 2.2.2 of the OASIS MQTT
    Version 5.0 standard): a Variable Byte Integer holding the byte length
    of the properties, then the properties one after the other.
    `Properties` keeps them in a linked list of `PropertyListNode`s; here
    the list is the sequence `list`, in node order. */
module PropertyList {
  import opened Wire
  import opened VarInt
  import opened Registry
  import opened PropertyCodec
  import opened ListParse

  /** The bytes the properties take: the sum of their `getSize()`. */
  function ListSize(ps: seq<Property>): nat
  {
    if ps == [] then 0 else ListSize(ps[..|ps| - 1]) + ps[|ps| - 1].Size()
  }

  /** Every property holds what its C types can hold. */
  predicate AllFit(ps: seq<Property>)
  {
    forall i :: 0 <= i < |ps| ==> ps[i].Fits()
  }

  /** `Fits`, as a function value. */
  predicate Fitting(p: Property)
  {
    p.Fits()
  }

  /** The bytes one property writes (nothing for one that does not fit). */
  function Bytes(p: Property): (r: seq<byte>)
    ensures p.Fits() ==> r == p.Encode()
  {
    if p.Fits() then p.Encode() else []
  }

  /** The bytes the properties write, one after the other: `ListSize`
      bytes when they all fit. */
  function ListBytes(ps: seq<Property>): (r: seq<byte>)
    ensures AllFit(ps) ==> |r| == ListSize(ps)
  {
    FlatSize(ps);
    Flat(Bytes, ps)
  }

  /** Helper: the length of the bytes is the sum of the sizes. */
  lemma {:induction false} FlatSize(ps: seq<Property>)
    ensures AllFit(ps) ==> |Flat(Bytes, ps)| == ListSize(ps)
    decreases |ps|
  {
    if ps != [] && AllFit(ps) {
      var init, last := ps[..|ps| - 1], ps[|ps| - 1];
      assert ps == init + [last];
      FlatAppend(Bytes, init, last);
      FlatSize(init);
    }
  }

  /** A property as it reads back: strings come back holding exactly
      their content. */
  function Normalised(p: Property): (q: Property)
    ensures q.code == p.code && q.Size() == p.Size()
    ensures p.Fits() ==> q.Fits()
  {
    if p.Fits() then Property(p.code, p.value.Normal()) else p
  }

  /** ... and writes the same bytes. */
  lemma NormalisedEncodes(p: Property)
    requires p.Fits()
    ensures Normalised(p).Encode() == p.Encode()
  {
    NormalEncodes(p.value);
  }

  /** The properties `readFrom` keeps from a written list: each one as it
      reads back. */
  function NormalList(ps: seq<Property>): seq<Property>
  {
    Map(Normalised, ps)
  }

  /** Every property reads back as written. */
  predicate AllRoundTrip(ps: seq<Property>)
  {
    forall i :: 0 <= i < |ps| ==> RoundTrips(ps[i])
  }

  /** A reader the loop of `readFrom` can rely on: it stays within its
      bytes, what it reads is the encoding of a property that fits, and it
      reads back every property that round-trips. */
  ghost predicate Unserializer(read: Reader<Property>)
  {
    WellBehaved(read) && ReadsEncoding(read, Bytes, Fitting) && ReadsBack(read, Bytes, Normalised, RoundTrips)
  }

  /** `PropertyRegistry::unserialize` is one. */
  lemma UnserializeReader()
    ensures Unserializer(Unserialize)
  {
    forall b ensures ReadsWithin(Unserialize, b) && ReadsEncodingOf(Unserialize, Bytes, Fitting, b) {
    }
    forall p, rest ensures ReadsBackOn(Unserialize, Bytes, Normalised, RoundTrips, p, rest) {
      if RoundTrips(p) {
        UnserializeRoundTrip(p, rest);
      }
    }
  }

  /** `Properties::readFrom` from the list `prev`, reading each property
      with `unserialize`: the length is read first and kept even when it
      fails; a length larger than the bytes after it is NotEnoughData and
      leaves the list as it was; otherwise the list is emptied and refilled
      by the loop over exactly that many bytes. The result is the VBInt's
      size plus the length. */
  function PropertiesRead(unserialize: Reader<Property>, prev: seq<Property>, buf: seq<byte>)
    : (res: (Status, VBInt, seq<Property>))
    requires Unserializer(unserialize)
    ensures res.0 != Shortcut
    ensures res.0.IsError() && res.0 != NotEnoughData ==> res.0 == BadData
    ensures res.0.Ok? ==> res.0.n == res.1.Size() + res.1.Decoded() <= |buf|
  {
    ReadPrefixed(unserialize, prev, buf)
  }

  /** The properties a successful read keeps all fit, their sizes add up
      to the length read, and the bytes read are the encoding of the
      length and of those properties. */
  lemma PropertiesReadEncodes(unserialize: Reader<Property>, prev: seq<Property>, buf: seq<byte>)
    requires Unserializer(unserialize)
    ensures var res := PropertiesRead(unserialize, prev, buf);
      res.0.Ok? ==> (AllFit(res.2) && res.1.Decoded() == ListSize(res.2)
                     && res.1.Bytes() + ListBytes(res.2) == buf[..res.0.n])
  {
    var res := PropertiesRead(unserialize, prev, buf);
    ReadPrefixedEncodes(unserialize, Bytes, Fitting, prev, buf);
    if res.0.Ok? {
      assert AllFit(res.2);
      assert |ListBytes(res.2)| == ListSize(res.2);
    }
  }

  /** Reading back the length and bytes of a list that fits in a
      three-byte length gives the list back (strings as they read back),
      whatever follows. */
  lemma PropertiesRoundTrip(unserialize: Reader<Property>, prev: seq<Property>, ps: seq<Property>, rest: seq<byte>)
    requires Unserializer(unserialize)
    requires AllRoundTrip(ps) && ListSize(ps) <= MaxSizeOn3Bytes
    ensures var len := Assign(ListSize(ps));
      var r := PropertiesRead(unserialize, prev, len.Bytes() + ListBytes(ps) + rest);
      r.0 == Ok(len.Size() + ListSize(ps)) && r.1 == len && r.2 == NormalList(ps)
  {
    assert AllFit(ps);
    var len := Assign(ListSize(ps));
    var body := ListBytes(ps);
    assert body == Flat(Bytes, ps) && |body| == ListSize(ps);
    LengthThenBody(ListSize(ps), body, rest);
    var buf := len.Bytes() + body + rest;
    ReadPrefixedReadsBack(unserialize, Bytes, Normalised, RoundTrips, prev, ps, buf, len);

  }

  /** `PropertyListNode::check` as written: it checks a node only while a
      next node exists, so the last property is never checked. */
  predicate NodesCheck(ps: seq<Property>)
  {
    forall i :: 0 <= i < |ps| - 1 ==> ps[i].Check()
  }

  /** `Properties::check` as written: `length.check() && head ? ... : true`
      binds as `(length.check() && head) ? head->check() : true`, so an
      invalid length passes. */
  predicate CheckAsWritten(length: VBInt, ps: seq<Property>)
  {
    if length.Check() && ps != [] then NodesCheck(ps) else true
  }

  /** The check intended: a valid length and every property valid. */
  predicate CheckFixed(length: VBInt, ps: seq<Property>)
  {
    length.Check() && forall i :: 0 <= i < |ps| ==> ps[i].Check()
  }

  /** The written check accepts everything the intended one accepts, and
      agrees with it when the length is valid and the last property is. */
  lemma CheckAsWrittenWeaker(length: VBInt, ps: seq<Property>)
    ensures CheckFixed(length, ps) ==> CheckAsWritten(length, ps)
    ensures CheckAsWritten(length, ps) && length.Check() && (ps != [] ==> ps[|ps| - 1].Check())
            ==> CheckFixed(length, ps)
  {
  }

  /** An invalid last property passes the written check, ... */
  lemma CheckSkipsLast()
    ensures var p := Property(ContentType, Text(Primitives.Owned(0, Some([]))));
      !p.Check() && CheckAsWritten(Assign(p.Size()), [p]) && !CheckFixed(Assign(p.Size()), [p])
  {
    var p := Property(ContentType, Text(Primitives.Owned(0, Some([]))));
    assert [p][0] == p;
  }

  /** ... and so does any list behind a length that fails its check. */
  lemma CheckIgnoresLength(ps: seq<Property>)
    ensures !VBInt([]).Check() && CheckAsWritten(VBInt([]), ps) && !CheckFixed(VBInt([]), ps)
  {
  }

  /** Every property code is allowed in the packet type `ctype`. */
  predicate AllAllowed(ps: seq<Property>, ctype: nat)
  {
    forall i :: 0 <= i < |ps| ==> IsAllowed(ps[i].code, ctype)
  }

  /** Appending keeps the list allowed exactly when the new code is allowed,
      and an allowed list holds only codes that name a property. */
  lemma AllowedAfterAppend(ps: seq<Property>, p: Property, ctype: nat)
    ensures AllAllowed(ps + [p], ctype) <==> AllAllowed(ps, ctype) && IsAllowed(p.code, ctype)
    ensures AllAllowed(ps, ctype) ==> forall i :: 0 <= i < |ps| ==> KindOf(ps[i].code).Some?
  {
    if AllAllowed(ps, ctype) {
      forall i | 0 <= i < |ps| ensures KindOf(ps[i].code).Some? {
        AllowedOnlyKnown(ps[i].code, ctype);
      }
    }
    if AllAllowed(ps, ctype) && IsAllowed(p.code, ctype) {
      forall i | 0 <= i < |ps + [p]| ensures IsAllowed((ps + [p])[i].code, ctype) {
        if i < |ps| { assert (ps + [p])[i] == ps[i]; }
      }
    }
    if AllAllowed(ps + [p], ctype) {
      forall i | 0 <= i < |ps| ensures IsAllowed(ps[i].code, ctype) {
        assert (ps + [p])[i] == ps[i];
      }
      assert (ps + [p])[|ps|] == p;
    }
  }

  /** The properties of `ps` whose code is `code`, in list order. */
  function OfType(ps: seq<Property>, code: nat): (r: seq<Property>)
    ensures |r| <= |ps|
    ensures forall i :: 0 <= i < |r| ==> r[i].code == code && r[i] in ps
  {
    if ps == [] then []
    else (if ps[0].code == code then [ps[0]] else []) + OfType(ps[1..], code)
  }

  /** A list has no property of type `code` exactly when none of its
      properties has that code. */
  lemma {:induction false} OfTypeCounts(ps: seq<Property>, code: nat)
    ensures OfType(ps, code) == [] <==> forall i :: 0 <= i < |ps| ==> ps[i].code != code
    decreases |ps|
  {
    if ps != [] {
      OfTypeCounts(ps[1..], code);
      assert forall i :: 0 < i < |ps| ==> ps[1..][i - 1] == ps[i];
    }
  }

  /** `Properties`: the length field and the list of nodes. */
  class Properties {
    var length: VBInt
    var list: seq<Property>

    /** A list as `append` builds it: the length is the encoding of the
        properties' total size, which stays encodable. */
    predicate Valid()
      reads this
    {
      AllFit(list) && ListSize(list) <= MaxPossibleSize && length == Assign(ListSize(list))
    }

    /** `Properties()`: no property, length 0. */
    constructor ()
      ensures length == Assign(0) && list == []
      ensures Valid()
    {
      length := Assign(0);
      list := [];
    }

    /** `Properties(firstProperty)`: one property, length its size. */
    constructor Single(p: Property)
      requires p.Fits()
      ensures length == Assign(p.Size()) && list == [p]
      ensures p.Size() <= MaxPossibleSize ==> Valid()
    {
      length := Assign(p.Size());
      list := [p];
      assert [p][..0] == [];
    }

    /** `getSize`: the length's own size plus its value. */
    function Size(): (n: nat)
      reads this
      ensures Valid() ==> n == EncodedSize(ListSize(list)) + ListSize(list)
    {
      length.Size() + length.Decoded()
    }

    /** `getProperty(index)`: the node `index` steps from the head, or
        none when the list is shorter. */
    method GetProperty(index: nat) returns (r: Option<Property>)
      ensures index < |list| ==> r == Some(list[index])
      ensures index >= |list| ==> r == None
    {
      var u := list;
      var k: nat := index;
      while u != [] && k > 0
        invariant k <= index && index - k <= |list| && u == list[index - k..]
        decreases k
      {
        u := u[1..];
        k := k - 1;
      }
      assert u != [] ==> u[0] == list[index];
      r := if u != [] then Some(u[0]) else None;
    }

    /** `getProperty(type, index)`: the `index`-th property (from 0) whose
        code is `code`, or none when there are not that many. */
    method GetPropertyOfType(code: nat, index: nat) returns (r: Option<Property>)
      ensures index < |OfType(list, code)| ==> r == Some(OfType(list, code)[index])
      ensures index >= |OfType(list, code)| ==> r == None
    {
      var u := list;
      var k: nat := index;
      ghost var skipped: seq<Property> := [];
      while u != []
        invariant OfType(list, code) == skipped + OfType(u, code)
        invariant |skipped| + k == index
        decreases |u|
      {
        ghost var tail := OfType(u[1..], code);
        if u[0].code == code {
          assert OfType(list, code) == skipped + [u[0]] + tail;
          if k == 0 {
            assert OfType(list, code)[index] == u[0];
            return Some(u[0]);
          }
          k := k - 1;
          skipped := skipped + [u[0]];
        } else {
          assert OfType(u, code) == tail;
        }
        u := u[1..];
      }
      r := None;
    }

    /** `copyInto`: the length, then each property in node order (the
        walk over the nodes is `WriteAll`). */
    method CopyInto(buf: array<byte>, at: nat) returns (o: nat)
      requires AllFit(list) && at + length.Size() + ListSize(list) <= buf.Length
      modifies buf
      ensures o == length.Size() + ListSize(list)
      ensures buf[..] == Splice(old(buf[..]), at, length.Bytes() + ListBytes(list))
    {
      CopyBytes(buf, at, length.Bytes());
      o := length.Size();
      assert ListBytes(list) == Flat(Bytes, list);
      SpliceTwice(old(buf[..]), at, length.Bytes(), ListBytes(list));
      var n := WriteAll(buf, at + o, Bytes, list);
      o := o + n;
    }

    /** `readFrom`: the length, then the loop over the properties, each
        read by the registry's `unserialize`. */
    method ReadFrom(buf: seq<byte>) returns (r: Status)
      modifies this
      ensures Unserializer(Unserialize)
      ensures (r, length, list) == PropertiesRead(Unserialize, old(list), buf)
    {
      UnserializeReader();
      var o, len := VarInt.ReadFrom(buf);
      length := len;
      if o.IsError() {
        return o;
      }
      if len.Decoded() > |buf| - len.Size() {
        return NotEnoughData;
      }
      list := [];
      r := ReadList(Unserialize, buf[o.n..o.n + len.Decoded()], o.n);
    }

    /** The loop of `readFrom` from offset `start`: unserialize a property
        from the bytes left, append it, advance past it, until the length is
        used up or a property fails. `unserialize` is the registry's
        (`PropertyRegistry::unserialize` when `readFrom` calls it). */
    method ReadList(unserialize: Reader<Property>, region: seq<byte>, start: nat) returns (r: Status)
      requires WellBehaved(unserialize) && list == []
      modifies this
      ensures (r, list) == ParseFrom(unserialize, region, start, [])
      ensures length == old(length)
    {
      var buffer := region;
      var o: nat := start;
      ghost var goal := ParseFrom(unserialize, region, start, []);
      while |buffer| > 0
        invariant ParseFrom(unserialize, buffer, o, list) == goal
        invariant length == old(length)
        decreases |buffer|
      {
        var (s, property) := unserialize(buffer);
        if s.IsError() {
          ParseStepFails(unserialize, buffer, o, list, s, property);
          return s;
        }
        ParseStepOk(unserialize, buffer, o, list, s.n, property);
        list := list + [property];
        buffer := buffer[s.n..];
        o := o + s.n;
      }
      r := Ok(o);
    }

    /** `check`, as written. */
    method Check() returns (ok: bool)
      ensures ok == CheckAsWritten(length, list)
    {
      if !(length.Check() && list != []) {
        return true;
      }
      ok := true;
      var i := 0;
      while i + 1 < |list|
        invariant 0 <= i < |list|
        invariant forall j :: 0 <= j < i ==> list[j].Check()
      {
        if !list[i].Check() {
          return false;
        }
        i := i + 1;
      }
    }

    /** `checkPropertiesFor`: the list checks, then every code is allowed
        in the packet type. */
    method CheckPropertiesFor(ctype: nat) returns (ok: bool)
      ensures ok == (CheckAsWritten(length, list) && AllAllowed(list, ctype))
    {
      ok := Check();
      if !ok {
        return false;
      }
      var i := 0;
      while i < |list|
        invariant 0 <= i <= |list|
        invariant forall j :: 0 <= j < i ==> IsAllowed(list[j].code, ctype)
      {
        if !IsAllowed(list[i].code, ctype) {
          return false;
        }
        i := i + 1;
      }
    }

    /** `append`: the new length is built first; if it is not a valid
        VBInt nothing changes and the result is false, otherwise the length
        grows by the property's size and the property becomes the last. */
    method Append(p: Property) returns (ok: bool)
      requires p.Fits()
      modifies this
      ensures ok <==> old(length.Decoded()) + p.Size() <= MaxPossibleSize
      ensures ok ==> length == Assign(old(length.Decoded()) + p.Size()) && list == old(list) + [p]
      ensures !ok ==> length == old(length) && list == old(list)
      ensures old(Valid()) ==> (ok <==> ListSize(old(list)) + p.Size() <= MaxPossibleSize)
      ensures old(Valid()) && ok ==> Valid()
    {
      var total := length.Decoded() + p.Size();
      var l := if total < U32 then Assign(total) else VBInt([]);
      if !l.Check() {
        return false;
      }
      assert (list + [p])[..|list|] == list;
      ghost var wasValid := Valid();
      length := l;
      list := list + [p];
      ok := true;
      assert wasValid ==> AllFit(list);
    }

    /** `swap`: the lists are exchanged, and each length is re-assigned
        from the other's value, so it comes back in its shortest encoding. */
    method Swap(other: Properties)
      modifies this, other
      ensures list == old(other.list) && other.list == old(list)
      ensures length == Assign(old(other.length.Decoded()))
      ensures other.length == Assign(old(length.Decoded()))
      ensures old(Valid()) && old(other.Valid()) ==> Valid() && other.Valid()
    {
      var n := list;
      list := other.list;
      other.list := n;
      var v := length.Decoded();
      length := Assign(other.length.Decoded());
      other.length := Assign(v);
    }
  }
}
