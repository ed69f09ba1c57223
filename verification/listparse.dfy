/** The reading loop of `Properties::readFrom`, apart from what it reads:
    the loop calls the registry's `unserialize` on the bytes left, appends
    what it gets and advances by what it consumed, until the bytes run out
    or a read fails. Here the reader, the element type and the encoding are
    parameters, so that the loop's properties are stated once for every
    reader that behaves like `unserialize`. */
module ListParse {
  import opened Wire
  import opened VarInt

  /** Reads one element from the front of the bytes: a status (the bytes
      consumed, or an error) and the element. */
  type Reader<T> = seq<byte> -> (Status, T)

  /** The bytes of the elements, one after the other. */
  function Flat<T>(enc: T -> seq<byte>, ps: seq<T>): (r: seq<byte>)
  {
    if ps == [] then [] else enc(ps[0]) + Flat(enc, ps[1..])
  }

  /** Appending an element appends its bytes. */
  lemma {:induction false} FlatAppend<T>(enc: T -> seq<byte>, ps: seq<T>, p: T)
    ensures Flat(enc, ps + [p]) == Flat(enc, ps) + enc(p)
    decreases |ps|
  {
    if ps == [] {
      assert [p][1..] == [];
    } else {
      assert (ps + [p])[1..] == ps[1..] + [p];
      FlatAppend(enc, ps[1..], p);
    }
  }

  /** The writing loop of `Properties::copyInto`: each element's bytes
      after the previous ones, from `at`; nothing else in `buf` changes. */
  method WriteAll<T>(buf: array<byte>, at: nat, enc: T -> seq<byte>, ps: seq<T>) returns (o: nat)
    requires at + |Flat(enc, ps)| <= buf.Length
    modifies buf
    ensures o == |Flat(enc, ps)|
    ensures buf[..] == Splice(old(buf[..]), at, Flat(enc, ps))
  {
    o := 0;
    var c := ps;
    ghost var written: seq<byte> := [];
    while c != []
      invariant Flat(enc, ps) == written + Flat(enc, c)
      invariant o == |written|
      invariant buf[..] == Splice(old(buf[..]), at, written)
      decreases |c|
    {
      var e := enc(c[0]);
      assert written + Flat(enc, c) == (written + e) + Flat(enc, c[1..]);
      SpliceTwice(old(buf[..]), at, written, e);
      CopyBytes(buf, at + o, e);
      o := o + |e|;
      written := written + e;
      c := c[1..];
    }
  }

  /** Each element mapped by `norm`. */
  function Map<T>(norm: T -> T, ps: seq<T>): (r: seq<T>)
    ensures |r| == |ps|
    ensures forall i :: 0 <= i < |ps| ==> r[i] == norm(ps[i])
  {
    if ps == [] then [] else [norm(ps[0])] + Map(norm, ps[1..])
  }

  /** One read of `b` never answers Shortcut and, on success, consumes at
      least one and at most the given bytes, ... */
  ghost predicate ReadsWithin<T>(read: Reader<T>, b: seq<byte>)
  {
    read(b).0 != Shortcut && (read(b).0.Ok? ==> 1 <= read(b).0.n <= |b|)
  }

  /** ... which are exactly the encoding of an element that fits. */
  ghost predicate ReadsEncodingOf<T>(read: Reader<T>, enc: T -> seq<byte>, fits: T -> bool, b: seq<byte>)
  {
    read(b).0.Ok? && read(b).0.n <= |b| ==> fits(read(b).1) && enc(read(b).1) == b[..read(b).0.n]
  }

  /** A reader whose every read stays within its bytes. */
  ghost predicate WellBehaved<T>(read: Reader<T>)
  {
    forall b {:trigger ReadsWithin(read, b)} :: ReadsWithin(read, b)
  }

  /** A reader whose every successful read is the encoding of what it
      returns. */
  ghost predicate ReadsEncoding<T>(read: Reader<T>, enc: T -> seq<byte>, fits: T -> bool)
  {
    forall b {:trigger ReadsEncodingOf(read, enc, fits, b)} :: ReadsEncodingOf(read, enc, fits, b)
  }

  /** A read of a `good` element with `rest` after it consumes exactly its
      bytes and gives it back as `norm` makes it. */
  ghost predicate ReadsBackOn<T>(read: Reader<T>, enc: T -> seq<byte>, norm: T -> T, good: T -> bool,
                                 p: T, rest: seq<byte>)
  {
    good(p) ==> read(enc(p) + rest) == (Ok(|enc(p)|), norm(p))
  }

  /** A reader that reads back every good element, whatever follows it. */
  ghost predicate ReadsBack<T(!new)>(read: Reader<T>, enc: T -> seq<byte>, norm: T -> T, good: T -> bool)
  {
    forall p, rest {:trigger ReadsBackOn(read, enc, norm, good, p, rest)} ::
      ReadsBackOn(read, enc, norm, good, p, rest)
  }

  /** The loop over the bytes `rest` still to read, with `done` the offset
      reached so far, appending to `acc`: the first error is returned with
      the elements read before it; running out of bytes is success, at the
      offset where the elements end. */
  function ParseFrom<T>(read: Reader<T>, rest: seq<byte>, done: nat, acc: seq<T>): (res: (Status, seq<T>))
    requires WellBehaved(read)
    ensures res.0 != Shortcut
    ensures res.0.Ok? ==> res.0.n == done + |rest|
    decreases |rest|
  {
    if |rest| == 0 then (Ok(done), acc)
    else
      assert ReadsWithin(read, rest);
      var (s, p) := read(rest);
      if s.IsError() then (s, acc) else ParseFrom(read, rest[s.n..], done + s.n, acc + [p])
  }

  /** A step that reads an element goes on after it, ... */
  lemma ParseStepOk<T>(read: Reader<T>, rest: seq<byte>, done: nat, acc: seq<T>, n: nat, p: T)
    requires WellBehaved(read) && |rest| > 0 && read(rest) == (Ok(n), p)
    ensures 0 < n <= |rest|
    ensures ParseFrom(read, rest, done, acc) == ParseFrom(read, rest[n..], done + n, acc + [p])
  {
    assert ReadsWithin(read, rest);
  }

  /** ... and a step that fails stops with the elements read so far. */
  lemma ParseStepFails<T>(read: Reader<T>, rest: seq<byte>, done: nat, acc: seq<T>, s: Status, p: T)
    requires WellBehaved(read) && |rest| > 0 && read(rest) == (s, p) && s.IsError()
    ensures ParseFrom(read, rest, done, acc) == (s, acc)
  {
  }

  /** The loop only ever appends: what was read before is kept, even when
      a later read fails. */
  lemma {:induction false} ParseKeepsRead<T>(read: Reader<T>, rest: seq<byte>, done: nat, acc: seq<T>)
    requires WellBehaved(read)
    ensures |acc| <= |ParseFrom(read, rest, done, acc).1|
    ensures ParseFrom(read, rest, done, acc).1[..|acc|] == acc
    decreases |rest|
  {
    if |rest| > 0 {
      var (s, p) := read(rest);
      if s.IsError() {
        ParseStepFails(read, rest, done, acc, s, p);
      } else {
        ParseStepOk(read, rest, done, acc, s.n, p);
        ParseKeepsRead(read, rest[s.n..], done + s.n, acc + [p]);
        var r := ParseFrom(read, rest, done, acc).1;
        assert r[..|acc|] == r[..|acc| + 1][..|acc|];
      }
    }
  }

  /** What a successful loop keeps fits and re-encodes to the bytes it read. */
  lemma {:induction false} ParsedEncodes<T>(read: Reader<T>, enc: T -> seq<byte>, fits: T -> bool,
                                            rest: seq<byte>, done: nat, acc: seq<T>)
    requires WellBehaved(read) && ReadsEncoding(read, enc, fits)
    requires forall i :: 0 <= i < |acc| ==> fits(acc[i])
    ensures var r := ParseFrom(read, rest, done, acc);
      r.0.Ok? ==> (forall i :: 0 <= i < |r.1| ==> fits(r.1[i])) && Flat(enc, r.1) == Flat(enc, acc) + rest
    decreases |rest|
  {
    if |rest| > 0 {
      var (s, p) := read(rest);
      if s.IsError() {
        ParseStepFails(read, rest, done, acc, s, p);
      } else {
        ParseStepOk(read, rest, done, acc, s.n, p);
        assert ReadsEncodingOf(read, enc, fits, rest);
        FlatAppend(enc, acc, p);
        ParsedEncodes(read, enc, fits, rest[s.n..], done + s.n, acc + [p]);
        assert rest == rest[..s.n] + rest[s.n..];
      }
    } else {
      assert Flat(enc, acc) + rest == Flat(enc, acc);
    }
  }

  /** The loop reads back the bytes of every list of good elements, each
      as `norm` makes it. */
  lemma {:induction false} ParseOfEncoding<T(!new)>(read: Reader<T>, enc: T -> seq<byte>, norm: T -> T,
                                                    good: T -> bool, ps: seq<T>, done: nat, acc: seq<T>)
    requires WellBehaved(read) && ReadsBack(read, enc, norm, good)
    requires forall i :: 0 <= i < |ps| ==> good(ps[i])
    ensures ParseFrom(read, Flat(enc, ps), done, acc) == (Ok(done + |Flat(enc, ps)|), acc + Map(norm, ps))
    decreases |ps|
  {
    if ps == [] {
      assert acc + Map(norm, ps) == acc;
    } else {
      var p, tail := ps[0], ps[1..];
      var bytes := Flat(enc, ps);
      assert bytes == enc(p) + Flat(enc, tail);
      assert ReadsBackOn(read, enc, norm, good, p, Flat(enc, tail));
      assert ReadsWithin(read, bytes);
      ParseStepOk(read, bytes, done, acc, |enc(p)|, norm(p));
      assert bytes[|enc(p)|..] == Flat(enc, tail);
      ParseOfEncoding(read, enc, norm, good, tail, done + |enc(p)|, acc + [norm(p)]);
      assert acc + [norm(p)] + Map(norm, tail) == acc + Map(norm, ps);
    }
  }

  /** ... and, from an empty list, gives exactly those elements. */
  lemma ParseOfEncodingFresh<T(!new)>(read: Reader<T>, enc: T -> seq<byte>, norm: T -> T,
                                      good: T -> bool, ps: seq<T>, done: nat)
    requires WellBehaved(read) && ReadsBack(read, enc, norm, good)
    requires forall i :: 0 <= i < |ps| ==> good(ps[i])
    ensures ParseFrom(read, Flat(enc, ps), done, []) == (Ok(done + |Flat(enc, ps)|), Map(norm, ps))
  {
    ParseOfEncoding(read, enc, norm, good, ps, done, []);
    assert [] + Map(norm, ps) == Map(norm, ps);
  }

  /** The loop run over the `count` bytes from `start`, when the buffer
      holds them; NotEnoughData, keeping `prev`, when it does not. */
  function ReadCounted<T>(read: Reader<T>, prev: seq<T>, buf: seq<byte>, start: nat, count: nat)
    : (res: (Status, seq<T>))
    requires WellBehaved(read) && start <= |buf|
    ensures res.0 != Shortcut
    ensures count > |buf| - start ==> res == (NotEnoughData, prev)
    ensures res.0.Ok? ==> res.0.n == start + count <= |buf|
  {
    if count > |buf| - start then (NotEnoughData, prev)
    else ParseFrom(read, buf[start..start + count], start, [])
  }

  /** What a successful counted read keeps fits and re-encodes to the
      bytes it read. */
  lemma ReadCountedEncodes<T>(read: Reader<T>, enc: T -> seq<byte>, fits: T -> bool,
                              prev: seq<T>, buf: seq<byte>, start: nat, count: nat)
    requires WellBehaved(read) && ReadsEncoding(read, enc, fits) && start <= |buf|
    ensures var res := ReadCounted(read, prev, buf, start, count);
      res.0.Ok? ==> (forall i :: 0 <= i < |res.1| ==> fits(res.1[i])) && Flat(enc, res.1) == buf[start..res.0.n]
  {
    if count <= |buf| - start {
      ParsedEncodes(read, enc, fits, buf[start..start + count], start, []);
    }
  }

  /** A counted read over the encoding of good elements gives them back,
      each as `norm` makes it. */
  lemma ReadCountedReadsBack<T(!new)>(read: Reader<T>, enc: T -> seq<byte>, norm: T -> T, good: T -> bool,
                                      prev: seq<T>, buf: seq<byte>, start: nat, ps: seq<T>)
    requires WellBehaved(read) && ReadsBack(read, enc, norm, good)
    requires forall i :: 0 <= i < |ps| ==> good(ps[i])
    requires start + |Flat(enc, ps)| <= |buf| && buf[start..start + |Flat(enc, ps)|] == Flat(enc, ps)
    ensures ReadCounted(read, prev, buf, start, |Flat(enc, ps)|) == (Ok(start + |Flat(enc, ps)|), Map(norm, ps))
  {
    ParseOfEncodingFresh(read, enc, norm, good, ps, start);
  }

  /** A list preceded by its byte length as a Variable Byte Integer: the
      length is read first and kept even when it fails, then the elements
      are read over exactly that many bytes after it (a counted read). */
  function ReadPrefixed<T>(read: Reader<T>, prev: seq<T>, buf: seq<byte>): (res: (Status, VBInt, seq<T>))
    requires WellBehaved(read)
    ensures res.0 != Shortcut
    ensures res.0.Ok? ==> (ReadSpec(buf) == (Ok(res.1.Size()), res.1)
                           && res.0.n == res.1.Size() + res.1.Decoded() <= |buf|)
  {
    var (o, len) := ReadSpec(buf);
    var r := ListAfterLength(read, prev, buf, o, len.Size(), len.Decoded());
    (r.0, len, r.1)
  }

  /** The prefixed read once the length read has answered `o`: an error
      is passed on with `prev`, otherwise the counted read of the `count`
      bytes from `start`. */
  function ListAfterLength<T>(read: Reader<T>, prev: seq<T>, buf: seq<byte>, o: Status, start: nat, count: nat)
    : (res: (Status, seq<T>))
    requires WellBehaved(read) && o != Shortcut && start <= |buf|
    ensures res.0 != Shortcut
    ensures res.0.Ok? ==> o.Ok? && res.0.n == start + count <= |buf|
  {
    if o.IsError() then (o, prev) else ReadCounted(read, prev, buf, start, count)
  }

  /** What a successful prefixed read keeps fits, and the length's bytes
      followed by the elements' encodings are the bytes it read. */
  lemma ReadPrefixedEncodes<T>(read: Reader<T>, enc: T -> seq<byte>, fits: T -> bool, prev: seq<T>, buf: seq<byte>)
    requires WellBehaved(read) && ReadsEncoding(read, enc, fits)
    ensures var res := ReadPrefixed(read, prev, buf);
      res.0.Ok? ==> ((forall i :: 0 <= i < |res.2| ==> fits(res.2[i]))
                     && res.1.Bytes() + Flat(enc, res.2) == buf[..res.0.n])
  {
    var (o, len) := ReadSpec(buf);
    if o.Ok? {
      var res := ReadPrefixed(read, prev, buf);
      ReadCountedEncodes(read, enc, fits, prev, buf, len.Size(), len.Decoded());
      if res.0.Ok? {
        assert buf[..res.0.n] == buf[..len.Size()] + buf[len.Size()..res.0.n];
      }
    }
  }

  /** A length written in at most three bytes reads back, and the bytes it
      announces follow it. */
  lemma LengthThenBody(n: nat, body: seq<byte>, rest: seq<byte>)
    requires n <= MaxSizeOn3Bytes && |body| == n
    ensures var len := Assign(n); var buf := len.Bytes() + body + rest;
      ReadSpec(buf) == (Ok(len.Size()), len) && len.Decoded() == n
      && len.Size() + n <= |buf| && buf[len.Size()..len.Size() + n] == body
  {
    var len := Assign(n);
    var buf := len.Bytes() + body + rest;
    assert buf == len.value + (body + rest);
    ReadOfEncoding(n, body + rest);
    assert buf[len.Size()..len.Size() + n] == body;
  }

  /** A length that reads, followed by the encodings of good elements,
      reads back as that length and the elements as `norm` makes them. */
  lemma ReadPrefixedReadsBack<T(!new)>(read: Reader<T>, enc: T -> seq<byte>, norm: T -> T, good: T -> bool,
                                       prev: seq<T>, ps: seq<T>, buf: seq<byte>, len: VBInt)
    requires WellBehaved(read) && ReadsBack(read, enc, norm, good)
    requires forall i :: 0 <= i < |ps| ==> good(ps[i])
    requires ReadSpec(buf) == (Ok(len.Size()), len) && len.Decoded() == |Flat(enc, ps)|
    requires len.Size() + |Flat(enc, ps)| <= |buf| && buf[len.Size()..len.Size() + |Flat(enc, ps)|] == Flat(enc, ps)
    ensures var r := ReadPrefixed(read, prev, buf);
      r.0 == Ok(len.Size() + |Flat(enc, ps)|) && r.1 == len && r.2 == Map(norm, ps)
  {
    ReadPrefixedAfterLength(read, prev, buf, len, |Flat(enc, ps)|);
    ListAfterLengthReadsBack(read, enc, norm, good, prev, buf, len.Size(), ps);
  }

  /** Helper: once the length reads, a prefixed read is the read of the
      bytes it announces. */
  lemma ReadPrefixedAfterLength<T>(read: Reader<T>, prev: seq<T>, buf: seq<byte>, len: VBInt, n: nat)
    requires WellBehaved(read) && ReadSpec(buf) == (Ok(len.Size()), len) && len.Decoded() == n
    requires len.Size() <= |buf|
    ensures var r := ListAfterLength(read, prev, buf, Ok(len.Size()), len.Size(), n);
      ReadPrefixed(read, prev, buf) == (r.0, len, r.1)
  {
  }

  /** Helper: the read after a length that read, over the encoding of good
      elements, gives them back. */
  lemma ListAfterLengthReadsBack<T(!new)>(read: Reader<T>, enc: T -> seq<byte>, norm: T -> T, good: T -> bool,
                                          prev: seq<T>, buf: seq<byte>, start: nat, ps: seq<T>)
    requires WellBehaved(read) && ReadsBack(read, enc, norm, good)
    requires forall i :: 0 <= i < |ps| ==> good(ps[i])
    requires start + |Flat(enc, ps)| <= |buf| && buf[start..start + |Flat(enc, ps)|] == Flat(enc, ps)
    ensures ListAfterLength(read, prev, buf, Ok(start), start, |Flat(enc, ps)|) == (Ok(start + |Flat(enc, ps)|), Map(norm, ps))
  {
    ReadCountedReadsBack(read, enc, norm, good, prev, buf, start, ps);
  }
}
