/** The wire-level vocabulary shared by every part of the MQTT v5 codec:
    bytes, the status a `readFrom` returns (bytes consumed or one of the
    three LocalError codes), and big-endian fixed-width integers. */
module Wire {

  /** One octet of a network buffer. */
  newtype byte = x: int | 0 <= x < 256

  /** 2^32: every count the source returns is a `uint32`. */
  const U32: int := 0x1_0000_0000

  /** What a `readFrom` (or `acceptBuffer`) reports: the number of bytes it
      consumed, or one of the LocalError codes. `Shortcut` is not a failure:
      it signals a valid abbreviated encoding. */
  datatype Status = Ok(n: nat) | BadData | NotEnoughData | Shortcut {
    predicate IsError() { !Ok? }
  }

  /** A pointer that may be null. */
  datatype Option<T> = None | Some(value: T)

  /** The LocalError enumeration of the source, as `uint32` values. */
  const BadDataCode: nat := 0xFFFF_FFFF
  const NotEnoughDataCode: nat := 0xFFFF_FFFE
  const ShortcutCode: nat := 0xFFFF_FFFD
  const MinErrorCode: nat := 0xFFFF_FFFD

  /** `isError`: every value at or above the smallest error code is an error. */
  predicate IsErrorCode(c: nat) { c >= MinErrorCode }

  /** `isShortcut`: only the Shortcut code is a shortcut. */
  predicate IsShortcutCode(c: nat) { c == ShortcutCode }

  /** The `uint32` the source returns for a status. A byte count never
      reaches the error range, so the two predicates above classify every
      returned code exactly as the status it stands for. */
  function Code(s: Status): (c: nat)
    requires s.Ok? ==> s.n < MinErrorCode
    ensures c < U32
    ensures IsErrorCode(c) <==> s.IsError()
    ensures IsShortcutCode(c) <==> s == Shortcut
    ensures s.Ok? ==> c == s.n
  {
    match s
    case Ok(n) => n
    case BadData => BadDataCode
    case NotEnoughData => NotEnoughDataCode
    case Shortcut => ShortcutCode
  }

  /** The status a returned `uint32` stands for. */
  function StatusOf(c: nat): (s: Status)
    requires c < U32
    ensures s.Ok? <==> !IsErrorCode(c)
  {
    if c == BadDataCode then BadData
    else if c == NotEnoughDataCode then NotEnoughData
    else if c == ShortcutCode then Shortcut
    else Ok(c)
  }

  /** Codes and statuses are in one-to-one correspondence. */
  lemma CodeRoundTrip(s: Status)
    requires s.Ok? ==> s.n < MinErrorCode
    ensures StatusOf(Code(s)) == s
  {
  }

  /** 256^w: the number of values a `w`-byte field holds. */
  function Pow256(w: nat): (r: nat)
    ensures r >= 1
  {
    if w == 0 then 1 else 256 * Pow256(w - 1)
  }

  /** The `w`-byte big-endian (network order) encoding of `v`, as
      `htons`/`htonl`/`BigEndian` followed by `memcpy` produce it. */
  function BigEndian(v: nat, w: nat): (r: seq<byte>)
    requires v < Pow256(w)
    ensures |r| == w
  {
    if w == 0 then [] else BigEndian(v / 256, w - 1) + [(v % 256) as byte]
  }

  /** The value of a big-endian byte string, as `ntohs`/`ntohl` compute it. */
  function FromBigEndian(b: seq<byte>): (v: nat)
    ensures v < Pow256(|b|)
  {
    if b == [] then 0 else FromBigEndian(b[..|b| - 1]) * 256 + b[|b| - 1] as nat
  }

  /** Decoding what was encoded gives the value back. */
  lemma {:induction false} FromToBigEndian(v: nat, w: nat)
    requires v < Pow256(w)
    ensures FromBigEndian(BigEndian(v, w)) == v
  {
    if w > 0 {
      var r := BigEndian(v, w);
      assert r[..|r| - 1] == BigEndian(v / 256, w - 1);
      FromToBigEndian(v / 256, w - 1);
    }
  }

  /** Encoding what was decoded gives the bytes back. */
  lemma {:induction false} ToFromBigEndian(b: seq<byte>)
    ensures BigEndian(FromBigEndian(b), |b|) == b
  {
    if b != [] {
      var p := b[..|b| - 1];
      ToFromBigEndian(p);
      var v := FromBigEndian(b);
      assert v / 256 == FromBigEndian(p);
      assert v % 256 == b[|b| - 1] as nat;
      assert b == p + [b[|b| - 1]];
    }
  }

  /** Two bytes in network order. */
  function U16Bytes(v: nat): (r: seq<byte>)
    requires v < 65536
    ensures |r| == 2 && FromBigEndian(r) == v
    ensures r == [(v / 256) as byte, (v % 256) as byte]
  {
    FromToBigEndian(v, 2);
    BigEndian(v, 2)
  }

  /** The 16-bit big-endian number held by the two bytes at `at`. */
  function ReadU16(b: seq<byte>, at: nat): (v: nat)
    requires at + 2 <= |b|
    ensures v < 65536
    ensures U16Bytes(v) == b[at..at + 2]
  {
    ToFromBigEndian(b[at..at + 2]);
    FromBigEndian(b[at..at + 2])
  }

  /** The byte at index `i` of `b` when the source reads inside the buffer it
      was handed, and `past` (whatever memory follows the buffer) when it
      reads beyond it. */
  function Peek(b: seq<byte>, i: nat, past: byte): (r: byte)
    ensures i < |b| ==> r == b[i]
    ensures i >= |b| ==> r == past
  {
    if i < |b| then b[i] else past
  }

  /** The first `n` bytes of `buf`. */
  function Front(buf: seq<byte>, n: nat): seq<byte>
    requires n <= |buf|
  {
    buf[..n]
  }

  /** `b` with the bytes from `at` on replaced by `src`. */
  function Splice(b: seq<byte>, at: nat, src: seq<byte>): (r: seq<byte>)
    requires at + |src| <= |b|
    ensures |r| == |b|
    ensures r[..at] == b[..at] && r[at..at + |src|] == src && r[at + |src|..] == b[at + |src|..]
  {
    b[..at] + src + b[at + |src|..]
  }

  /** Concatenation regroups. */
  lemma Assoc(x: seq<byte>, y: seq<byte>, z: seq<byte>)
    ensures x + y + z == x + (y + z)
  {
  }

  /** Dropping a prefix leaves what followed it. */
  lemma DropPrefix(x: seq<byte>, y: seq<byte>)
    ensures (x + y)[|x|..] == y
  {
  }

  /** Past a prefix `a` read at `o`, what follows it. */
  lemma Skip(buf: seq<byte>, o: nat, a: seq<byte>, b: seq<byte>)
    requires o <= |buf| && buf[o..] == a + b
    ensures o + |a| <= |buf| && buf[o + |a|..] == b
  {
    assert buf[o + |a|..] == (a + b)[|a|..];
  }

  /** Two writes one after the other are one write of both. */
  lemma SpliceTwice(b: seq<byte>, at: nat, x: seq<byte>, y: seq<byte>)
    requires at + |x| + |y| <= |b|
    ensures Splice(Splice(b, at, x), at + |x|, y) == Splice(b, at, x + y)
  {
    var s := Splice(b, at, x);
    assert s[..at + |x|] == b[..at] + x;
    assert s[at + |x| + |y|..] == b[at + |x| + |y|..];
  }

  /** `memcpy(dst + at, src, |src|)`: the bytes of `src` replace those at
      `at`, and nothing else in `dst` changes. */
  method CopyBytes(dst: array<byte>, at: nat, src: seq<byte>)
    requires at + |src| <= dst.Length
    modifies dst
    ensures dst[..] == Splice(old(dst[..]), at, src)
  {
    var i := 0;
    while i < |src|
      invariant 0 <= i <= |src|
      invariant dst[..] == Splice(old(dst[..]), at, src[..i])
    {
      dst[at + i] := src[i];
      i := i + 1;
      assert src[..i] == src[..i - 1] + [src[i - 1]];
    }
    assert src[..i] == src;
  }
}
