/** Bytes, byte order, and the representation of unsigned words in memory and on the wire. */
module Bytes {
  type byte = x: int | 0 <= x < 256
  type Bytes = seq<byte>

  const TWO_32: int := 0x1_0000_0000
  const TWO_64: int := 0x1_0000_0000_0000_0000

  datatype Option<+T> = None | Some(value: T)

  /** The byte order of a processor: both kinds must interoperate. */
  datatype ByteOrder = Little | Big

  function Pow256(w: nat): (p: nat)
    ensures p >= 1
  {
    if w == 0 then 1 else 256 * Pow256(w - 1)
  }

  /** The low `w` bytes of `v`, most significant byte first. */
  function BigEndian(w: nat, v: nat): (b: Bytes)
    ensures |b| == w
  {
    if w == 0 then [] else BigEndian(w - 1, v / 256) + [v % 256]
  }

  function FromBig(b: Bytes): (v: nat)
    ensures v < Pow256(|b|)
  {
    if b == [] then 0 else FromBig(b[..|b| - 1]) * 256 + b[|b| - 1]
  }

  function Reverse(b: Bytes): (r: Bytes)
    ensures |r| == |b|
    ensures forall i :: 0 <= i < |b| ==> r[i] == b[|b| - 1 - i]
  {
    if b == [] then [] else [b[|b| - 1]] + Reverse(b[..|b| - 1])
  }

  lemma ReverseTwice(b: Bytes)
    ensures Reverse(Reverse(b)) == b
  {
  }

  lemma {:induction false} BigRoundTrip(w: nat, v: nat)
    requires v < Pow256(w)
    ensures FromBig(BigEndian(w, v)) == v
  {
    if w > 0 {
      BigRoundTrip(w - 1, v / 256);
      assert BigEndian(w, v)[..w - 1] == BigEndian(w - 1, v / 256);
    }
  }

  lemma {:induction false} BigOfBytes(b: Bytes)
    ensures BigEndian(|b|, FromBig(b)) == b
  {
    if b != [] {
      var init, last := b[..|b| - 1], b[|b| - 1];
      BigOfBytes(init);
      assert FromBig(b) / 256 == FromBig(init) && FromBig(b) % 256 == last;
      assert b == init + [last];
    }
  }

  /** How a `w`-byte unsigned value lies in memory. */
  function Memory(o: ByteOrder, w: nat, v: nat): (b: Bytes)
    ensures |b| == w
  {
    if o.Big? then BigEndian(w, v) else Reverse(BigEndian(w, v))
  }

  /** The value a processor loads from `b`, the inverse of `Memory`. */
  function Load(o: ByteOrder, b: Bytes): (v: nat)
    ensures v < Pow256(|b|)
  {
    if o.Big? then FromBig(b) else FromBig(Reverse(b))
  }

  /** `htons`/`htonl` and `ntohs`/`ntohl`: a byte reversal on a little-endian machine, else nothing. */
  function HostToNetwork(o: ByteOrder, w: nat, v: nat): (r: nat)
    requires v < Pow256(w)
    ensures r < Pow256(w)
  {
    if o.Big? then v else FromBig(Reverse(BigEndian(w, v)))
  }

  lemma MemoryRoundTrip(o: ByteOrder, w: nat, v: nat)
    requires v < Pow256(w)
    ensures Load(o, Memory(o, w, v)) == v
  {
    BigRoundTrip(w, v);
    ReverseTwice(BigEndian(w, v));
  }

  lemma ConversionIsInvolution(o: ByteOrder, w: nat, v: nat)
    requires v < Pow256(w)
    ensures HostToNetwork(o, w, HostToNetwork(o, w, v)) == v
  {
    BigOfBytes(Reverse(BigEndian(w, v)));
    ReverseTwice(BigEndian(w, v));
    BigRoundTrip(w, v);
  }

  /** A converted value stored to memory is big-endian on every machine. */
  lemma NetworkImage(o: ByteOrder, w: nat, v: nat)
    requires v < Pow256(w)
    ensures Memory(o, w, HostToNetwork(o, w, v)) == BigEndian(w, v)
  {
    BigOfBytes(Reverse(BigEndian(w, v)));
    ReverseTwice(BigEndian(w, v));
  }

  /** A word loaded from the wire and converted is its big-endian reading on every machine. */
  lemma NetworkLoad(o: ByteOrder, b: Bytes)
    ensures HostToNetwork(o, |b|, Load(o, b)) == FromBig(b)
  {
    BigOfBytes(Reverse(b));
    ReverseTwice(b);
  }

  lemma WordWidths()
    ensures Pow256(1) == 256 && Pow256(2) == 0x1_0000 && Pow256(4) == TWO_32
  {
    assert Pow256(3) == 0x100_0000;
  }

  /** The number four bytes stand for, the first counting most. */
  function Word(b0: int, b1: int, b2: int, b3: int): int {
    b0 * 0x100_0000 + b1 * 0x1_0000 + b2 * 0x100 + b3
  }

  lemma WordOfBytes(b: Bytes)
    requires |b| == 4
    ensures FromBig(b) == Word(b[0], b[1], b[2], b[3])
  {
    var b3, b2, b1 := b[..3], b[..2], b[..1];
    assert b[..3][..2] == b2 && b2[..1] == b1 && b1[..0] == [];
    assert FromBig(b) == FromBig(b3) * 256 + b[3];
    assert FromBig(b3) == FromBig(b2) * 256 + b[2];
    assert FromBig(b2) == FromBig(b1) * 256 + b[1];
    assert FromBig(b1) == FromBig([]) * 256 + b[0];
  }

  /** The bytes of a word, on the wire and in the memory of either kind of machine. */
  lemma BytesOfWord(v: nat)
    requires v < TWO_32
    ensures var b := BigEndian(4, v);
      && Word(b[0], b[1], b[2], b[3]) == v
      && Memory(Big, 4, v) == b && Memory(Little, 4, v) == [b[3], b[2], b[1], b[0]]
  {
    hide BigEndian, FromBig;
    WordWidths();
    BigRoundTrip(4, v);
    WordOfBytes(BigEndian(4, v));
  }

  /** Conversion to network order does nothing on a big-endian machine and reverses the bytes on the other. */
  lemma NetworkOrder(w: nat, v: nat)
    requires v < Pow256(w)
    ensures HostToNetwork(Big, w, v) == v
    ensures BigEndian(w, HostToNetwork(Little, w, v)) == Memory(Little, w, v)
    ensures forall i :: 0 <= i < w ==> Memory(Little, w, v)[i] == BigEndian(w, v)[w - 1 - i]
  {
    BigOfBytes(Reverse(BigEndian(w, v)));
  }

  lemma SliceOfAppend(d: Bytes, e: Bytes, i: nat, j: nat)
    requires i <= j <= |d|
    ensures (d + e)[i..j] == d[i..j]
  {
    assert forall k :: 0 <= k < j - i ==> (d + e)[i..j][k] == d[i..j][k];
  }

  lemma SliceAfterFirst(d: Bytes, b: byte, i: nat, j: nat)
    requires 1 <= i <= j <= |d|
    ensures ([b] + d[1..])[i..j] == d[i..j]
  {
    assert forall k :: 0 <= k < j - i ==> ([b] + d[1..])[i..j][k] == d[i..j][k];
  }

  lemma SliceOfTake(d: Bytes, n: nat, i: nat, j: nat)
    requires i <= j <= n <= |d|
    ensures d[..n][i..j] == d[i..j]
  {
    assert forall k :: 0 <= k < j - i ==> d[..n][i..j][k] == d[i..j][k];
  }

  lemma Middle(a: Bytes, b: Bytes, c: Bytes)
    ensures (a + b + c)[|a|..|a| + |b|] == b
  {
    assert forall k :: 0 <= k < |b| ==> (a + b + c)[|a|..|a| + |b|][k] == b[k];
  }

  /** The bytes of all sequences in order. */
  function Flatten(chunks: seq<Bytes>): (b: Bytes)
  {
    if chunks == [] then [] else chunks[0] + Flatten(chunks[1..])
  }

  lemma Associative(a: Bytes, b: Bytes, c: Bytes)
    ensures (a + b) + c == a + (b + c)
  {
  }

  lemma {:induction false} FlattenAppend(a: seq<Bytes>, b: seq<Bytes>)
    ensures Flatten(a + b) == Flatten(a) + Flatten(b)
  {
    if a == [] {
      assert a + b == b;
    } else {
      FlattenAppend(a[1..], b);
      assert (a + b)[0] == a[0] && (a + b)[1..] == a[1..] + b;
      Associative(a[0], Flatten(a[1..]), Flatten(b));
    }
  }

  lemma FlattenSnoc(a: seq<Bytes>, x: Bytes)
    ensures Flatten(a + [x]) == Flatten(a) + x
  {
    FlattenAppend(a, [x]);
    assert Flatten([x]) == x + Flatten([]);
  }

  /** `memcpy` into a fixed buffer. */
  method CopyTo(target: array<byte>, at: nat, source: Bytes)
    requires at + |source| <= target.Length
    modifies target
    ensures target[..] == old(target[..at]) + source + old(target[at + |source|..])
    ensures target[..at + |source|] == old(target[..at]) + source
  {
    ghost var was := target[..];
    for i := 0 to |source|
      invariant target[..at] == was[..at] && target[at + i..] == was[at + i..]
      invariant target[at..at + i] == source[..i]
    {
      target[at + i] := source[i];
      assert target[at + i + 1..] == was[at + i + 1..];
      assert target[at..at + i + 1] == target[at..at + i] + [source[i]];
    }
    assert target[..] == target[..at] + target[at..at + |source|] + target[at + |source|..];
    assert source[..|source|] == source;
  }
}
