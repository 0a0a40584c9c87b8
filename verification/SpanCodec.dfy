/**
 * The span codecs of messages/utility.hpp and messages/start_device.hpp. A span is a byte
 * store together with the offset at which it begins; every codec returns the offset of the
 * remaining span.
 */
module SpanCodec {
  import opened Bytes

  // ---------- scalars ----------

  /** The bytes `write` leaves: the converted value, most significant byte first. */
  function SpanImage(o: ByteOrder, w: nat, value: nat): (b: Bytes)
    requires value < Pow256(w)
    ensures |b| == w
  {
    BigEndian(w, HostToNetwork(o, w, value))
  }

  /** The value `read` extracts from a span's first bytes. */
  function SpanValue(o: ByteOrder, b: Bytes): (v: nat)
    ensures v < Pow256(|b|)
  {
    HostToNetwork(o, |b|, FromBig(b))
  }

  method WriteScalar(o: ByteOrder, buffer: array<byte>, start: nat, w: nat, value: nat) returns (next: nat)
    requires start + w <= buffer.Length
    requires value < Pow256(w)
    modifies buffer
    ensures next == start + w
    ensures buffer[..] == old(buffer[..start]) + SpanImage(o, w, value) + old(buffer[start + w..])
  {
    hide FromBig, Reverse, HostToNetwork, Pow256;
    var v: nat := HostToNetwork(o, w, value);
    ghost var image, was := BigEndian(w, v), buffer[..];
    ghost var low: Bytes := [];
    for i := 0 to w
      invariant |low| == i && image == BigEndian(w - i, v) + low
      invariant buffer[..] == was[..start + w - i] + low + was[start + w..]
    {
      assert BigEndian(w - i, v) == BigEndian(w - i - 1, v / 256) + [v % 256];
      Associative(BigEndian(w - i - 1, v / 256), [v % 256], low);
      buffer[start + w - 1 - i] := v % 256;
      low := [v % 256] + low;
      v := v / 256;
    }
    assert image == low;
    next := start + w;
  }

  lemma {:induction false} BigEndianDropsTop(w: nat, v: nat)
    requires w > 0
    ensures BigEndian(w, v)[1..] == BigEndian(w - 1, v)
  {
    if w > 1 {
      BigEndianDropsTop(w - 1, v / 256);
      assert BigEndian(w, v)[1..] == BigEndian(w - 1, v / 256)[1..] + [v % 256];
    }
  }

  lemma {:induction false} BigEndianTruncates(w: nat, v: nat, k: nat)
    ensures BigEndian(w, v + k * Pow256(w)) == BigEndian(w, v)
  {
    if w > 0 {
      BigEndianTruncates(w - 1, v / 256, k);
      var p := Pow256(w - 1);
      assert k * Pow256(w) == 256 * (k * p);
      assert (v + 256 * (k * p)) / 256 == v / 256 + k * p;
    }
  }

  /** One turn of the read loop shifts the digits of the variable left by one byte. */
  lemma ShiftIn(w: nat, v: nat, b: byte)
    requires w > 0
    ensures (v * 256) % Pow256(w) + b < Pow256(w)
    ensures BigEndian(w, (v * 256) % Pow256(w) + b) == BigEndian(w, v)[1..] + [b]
  {
    var p := Pow256(w - 1);
    var q, r := v / p, v % p;
    assert v == r + q * p;
    assert v * 256 == r * 256 + q * (256 * p);
    ModUnique(v * 256, 256 * p, q, r * 256);
    assert (v * 256) % Pow256(w) == r * 256;
    assert (r * 256 + b) / 256 == r && (r * 256 + b) % 256 == b;
    BigEndianTruncates(w - 1, r, q);
    BigEndianDropsTop(w, v);
  }

  lemma ModUnique(x: int, m: int, q: int, r: int)
    requires m > 0 && 0 <= r < m && x == r + q * m
    ensures x % m == r
  {
    var e := x / m - q;
    assert x == m * (x / m) + x % m;
    assert r - x % m == m * e;
    assert e != 0 ==> m * e >= m || m * e <= -m;
  }

  method ReadScalar(o: ByteOrder, buffer: Bytes, start: nat, w: nat, prior: nat) returns (value: nat, next: nat)
    requires start + w <= |buffer|
    requires prior < Pow256(w)
    ensures next == start + w
    ensures value == SpanValue(o, buffer[start..start + w])
  {
    value := prior;
    for i := 0 to w
      invariant value < Pow256(w)
      invariant BigEndian(w, value) == BigEndian(w, prior)[i..] + buffer[start..start + i]
    {
      ShiftIn(w, value, buffer[start + i]);
      assert buffer[start..start + i + 1] == buffer[start..start + i] + [buffer[start + i]];
      value := (value * 256) % Pow256(w) + buffer[start + i];
    }
    BigRoundTrip(w, value);
    assert BigEndian(w, value) == buffer[start..start + w];
    value := HostToNetwork(o, w, value);
    next := start + w;
  }

  /** Reading back on the machine that wrote, or on one of the same byte order, is exact. */
  lemma ScalarRoundTrip(o: ByteOrder, w: nat, value: nat)
    requires value < Pow256(w)
    ensures SpanValue(o, SpanImage(o, w, value)) == value
  {
    BigRoundTrip(w, HostToNetwork(o, w, value));
    ConversionIsInvolution(o, w, value);
  }

  /** Converting and then storing from the top byte leaves the value as the machine's own memory holds it. */
  lemma SpanImageIsMemory(o: ByteOrder, w: nat, value: nat)
    requires value < Pow256(w)
    ensures SpanImage(o, w, value) == Memory(o, w, value)
  {
    NetworkOrder(w, value);
  }

  /** The bytes of `value` read the same in both directions. */
  predicate IsPalindrome(w: nat, value: nat) {
    Reverse(BigEndian(w, value)) == BigEndian(w, value)
  }

  /**
   * The scalar codec converts to network order and then also stores byte by byte from the top,
   * so what it writes is host-ordered. Two machines agree on a value exactly when their byte
   * orders agree or its bytes form a palindrome, as any single byte does.
   */
  lemma ScalarsCrossMachines(writer: ByteOrder, reader: ByteOrder, w: nat, value: nat)
    requires value < Pow256(w)
    ensures SpanValue(reader, SpanImage(writer, w, value)) == value
        <==> writer == reader || IsPalindrome(w, value)
  {
    ScalarRoundTrip(writer, w, value);
    if writer != reader {
      var swapped := FromBig(Reverse(BigEndian(w, value)));
      BigOfBytes(Reverse(BigEndian(w, value)));
      BigRoundTrip(w, value);
      BigRoundTrip(w, HostToNetwork(writer, w, value));
      assert SpanValue(reader, SpanImage(writer, w, value)) == swapped;
    }
  }

  /** A 16-bit 1 is read as 256 by a machine of the other byte order. */
  lemma OneBecomes256()
    ensures 1 < 256 < Pow256(2)
    ensures SpanValue(Big, SpanImage(Little, 2, 1)) == 256 == SpanValue(Little, SpanImage(Big, 2, 1))
  {
    WordWidths();
    assert BigEndian(1, 0) == BigEndian(0, 0) + [0] == [0];
    assert BigEndian(1, 1) == BigEndian(0, 0) + [1] == [1];
    var one: Bytes := [0, 1];
    var swapped: Bytes := [1, 0];
    assert BigEndian(2, 1) == [0] + [1] == one && BigEndian(2, 256) == [1] + [0] == swapped;
    assert Reverse(one) == swapped && Reverse(swapped) == one;
    BigRoundTrip(2, 1);
    BigRoundTrip(2, 256);
  }

  // ---------- arrays ----------

  predicate AllFit(w: nat, values: seq<nat>) {
    forall i :: 0 <= i < |values| ==> values[i] < Pow256(w)
  }

  /** `n * w`, kept as a sum so that offsets stay linear. */
  function Extent(n: nat, w: nat): nat {
    if n == 0 then 0 else Extent(n - 1, w) + w
  }

  lemma ExtentIsProduct(n: nat, w: nat)
    ensures Extent(n, w) == n * w
  {
  }

  lemma ExtentMonotone(m: nat, n: nat, w: nat)
    requires m <= n
    ensures Extent(m, w) <= Extent(n, w)
  {
  }

  function ArrayImage(o: ByteOrder, w: nat, values: seq<nat>): (b: Bytes)
    requires AllFit(w, values)
    ensures |b| == Extent(|values|, w)
  {
    if values == [] then []
    else ArrayImage(o, w, values[..|values| - 1]) + SpanImage(o, w, values[|values| - 1])
  }

  /** Two adjacent writes are one write of the joined images. */
  lemma Splice(was: Bytes, before: Bytes, after: Bytes, start: nat, here: nat, next: nat, image: Bytes, more: Bytes)
    requires start + |image| == here && here + |more| == next <= |was|
    requires before == was[..start] + image + was[here..]
    requires after == before[..here] + more + before[next..]
    ensures after == was[..start] + (image + more) + was[next..]
  {
    assert before[..here] == was[..start] + image;
    assert before[next..] == was[next..];
  }

  method WriteArray(o: ByteOrder, buffer: array<byte>, start: nat, w: nat, values: seq<nat>) returns (next: nat)
    requires start + Extent(|values|, w) <= buffer.Length
    requires AllFit(w, values)
    modifies buffer
    ensures next == start + Extent(|values|, w)
    ensures buffer[..] == old(buffer[..start]) + ArrayImage(o, w, values) + old(buffer[next..])
  {
    hide Pow256, BigEndian, FromBig, Reverse, HostToNetwork, SpanImage, SpanValue;
    next := start;
    ghost var was := buffer[..];
    for i := 0 to |values|
      invariant next == start + Extent(i, w) <= buffer.Length
      invariant buffer[..] == was[..start] + ArrayImage(o, w, values[..i]) + was[next..]
    {
      ExtentMonotone(i + 1, |values|, w);
      ghost var before, here, image := buffer[..], next, ArrayImage(o, w, values[..i]);
      next := WriteScalar(o, buffer, next, w, values[i]);
      Splice(was, before, buffer[..], start, here, next, image, SpanImage(o, w, values[i]));
      assert values[..i + 1] == values[..i] + [values[i]];
      ImageSnoc(o, w, values[..i], values[i]);
    }
    assert values[..|values|] == values;
  }

  method ReadArray(o: ByteOrder, buffer: Bytes, start: nat, w: nat, prior: seq<nat>)
    returns (values: seq<nat>, next: nat)
    requires start + Extent(|prior|, w) <= |buffer|
    requires AllFit(w, prior)
    ensures next == start + Extent(|prior|, w)
    ensures |values| == |prior|
    ensures AllFit(w, values)
    ensures ArrayImage(o, w, values) == buffer[start..next]
  {
    hide Pow256, BigEndian, FromBig, Reverse, HostToNetwork, SpanImage, SpanValue, ArrayImage;
    values, next := [], start;
    for i := 0 to |prior|
      invariant |values| == i
      invariant next == start + Extent(i, w) <= |buffer|
      invariant AllFit(w, values)
      invariant ArrayImage(o, w, values) == buffer[start..next]
    {
      ExtentMonotone(i + 1, |prior|, w);
      var v;
      ghost var here := next;
      v, next := ReadScalar(o, buffer, next, w, prior[i]);
      ImageOfValue(o, buffer[here..next]);
      ImageSnoc(o, w, values, v);
      assert buffer[start..next] == buffer[start..here] + buffer[here..next];
      values := values + [v];
    }
  }

  lemma ImageSnoc(o: ByteOrder, w: nat, values: seq<nat>, v: nat)
    requires AllFit(w, values) && v < Pow256(w)
    ensures AllFit(w, values + [v]) && ArrayImage(o, w, values + [v]) == ArrayImage(o, w, values) + SpanImage(o, w, v)
  {
    hide Pow256, SpanImage;
    assert (values + [v])[..|values|] == values;
  }

  /** Element `i` is at `i` times the width. */
  lemma {:induction false} ArrayElementAt(o: ByteOrder, w: nat, values: seq<nat>, i: nat)
    requires AllFit(w, values) && i < |values|
    ensures Extent(i, w) + w == Extent(i + 1, w) <= |ArrayImage(o, w, values)|
    ensures ArrayImage(o, w, values)[Extent(i, w)..Extent(i + 1, w)] == SpanImage(o, w, values[i])
  {
    hide Pow256, SpanImage, AllFit;
    var n := |values| - 1;
    assert AllFit(w, values[..n]) && values[n] < Pow256(w) by { FitPrefix(w, values); }
    var init, last := ArrayImage(o, w, values[..n]), SpanImage(o, w, values[n]);
    assert ArrayImage(o, w, values) == init + last;
    ExtentMonotone(i + 1, |values|, w);
    if i < n {
      assert values[..n][i] == values[i];
      ArrayElementAt(o, w, values[..n], i);
      SliceOfAppend(init, last, Extent(i, w), Extent(i + 1, w));
    } else {
      assert (init + last)[|init|..] == last;
    }
  }

  lemma FitPrefix(w: nat, values: seq<nat>)
    requires AllFit(w, values) && values != []
    ensures AllFit(w, values[..|values| - 1]) && values[|values| - 1] < Pow256(w)
  {
  }

  /** Writing what was read restores the bytes. */
  lemma ImageOfValue(o: ByteOrder, b: Bytes)
    ensures SpanImage(o, |b|, SpanValue(o, b)) == b
  {
    ConversionIsInvolution(o, |b|, FromBig(b));
    BigOfBytes(b);
  }

  /** An image determines its values, so `ReadArray` after `WriteArray` returns what was written. */
  lemma {:induction false} ArrayImageInjective(o: ByteOrder, w: nat, a: seq<nat>, b: seq<nat>)
    requires AllFit(w, a)
    requires AllFit(w, b)
    requires |a| == |b| && ArrayImage(o, w, a) == ArrayImage(o, w, b)
    ensures a == b
  {
    hide Pow256, BigEndian, FromBig, Reverse, HostToNetwork, SpanImage, SpanValue;
    if a != [] {
      var n := |a| - 1;
      var ia, ib := ArrayImage(o, w, a[..n]), ArrayImage(o, w, b[..n]);
      assert ia == ArrayImage(o, w, a)[..Extent(n, w)] && ib == ArrayImage(o, w, b)[..Extent(n, w)];
      assert SpanImage(o, w, a[n]) == ArrayImage(o, w, a)[Extent(n, w)..];
      assert SpanImage(o, w, b[n]) == ArrayImage(o, w, b)[Extent(n, w)..];
      ArrayImageInjective(o, w, a[..n], b[..n]);
      ScalarRoundTrip(o, w, a[n]);
      ScalarRoundTrip(o, w, b[n]);
      assert a == a[..n] + [a[n]] && b == b[..n] + [b[n]];
    }
  }

  /** An array written and read back is unchanged, whatever the variables held. */
  method WriteThenReadArray(o: ByteOrder, buffer: array<byte>, start: nat, w: nat, values: seq<nat>, prior: seq<nat>)
    returns (got: seq<nat>, next: nat)
    requires start + Extent(|values|, w) <= buffer.Length
    requires AllFit(w, values)
    requires AllFit(w, prior) && |prior| == |values|
    modifies buffer
    ensures got == values && next == start + Extent(|values|, w)
  {
    hide ArrayImage, AllFit, Extent;
    next := WriteArray(o, buffer, start, w, values);
    assert buffer[..][start..next] == ArrayImage(o, w, values);
    got, next := ReadArray(o, buffer[..], start, w, prior);
    ArrayImageInjective(o, w, got, values);
  }

  /** Arrays of single bytes are copied unchanged on every machine. */
  lemma {:induction false} ByteArrayImage(o: ByteOrder, values: Bytes)
    ensures AllFit(1, values) && ArrayImage(o, 1, values) == values
  {
    hide Pow256, BigEndian, FromBig, Reverse, HostToNetwork, SpanImage, SpanValue;
    if values != [] {
      var n := |values| - 1;
      ByteArrayImage(o, values[..n]);
      ByteImage(o, values[n]);
      assert values == values[..n] + [values[n]];
    }
  }

  lemma ByteImage(o: ByteOrder, v: byte)
    ensures v < Pow256(1) && SpanImage(o, 1, v) == [v] && SpanValue(o, [v]) == v
  {
    WordWidths();
    var b := BigEndian(1, v);
    assert b == BigEndian(0, v / 256) + [v % 256] == [v];
    assert Reverse(b) == b;
    assert FromBig([v]) == FromBig([]) * 256 + v by { assert [v][..0] == []; }
  }
}
