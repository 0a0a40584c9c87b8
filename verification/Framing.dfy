/**
 * Reassembly of frames from a byte stream that arrives in arbitrary pieces. Both ends of the
 * serial link run the same loop around a dispatcher; the dispatchers differ only in how they
 * delimit frames, which is the parameter `f` here.
 */
module Framing {
  import opened Bytes

  /**
   * What a dispatcher answers about the bytes buffered so far: wait for more, a frame of `n`
   * bytes is complete, or the first byte identifies no message and the buffer is discarded.
   */
  datatype Outcome = Need | Take(n: nat) | Junk

  type Framer = Bytes -> Outcome

  /** The frames found and the bytes still buffered. */
  datatype Parsed = Parsed(frames: seq<Bytes>, rest: Bytes) {
    function Before(p: Parsed): Parsed {
      Parsed(frames + p.frames, p.rest)
    }
  }

  /** `f` answers for the frame that begins `d`, without looking beyond it. */
  ghost predicate DelimitsAt(f: Framer, d: Bytes, e: Bytes) {
    d != [] ==>
      && (f(d).Take? ==> 1 <= f(d).n <= |d| && f(d + e) == f(d) && f(d[..f(d).n]) == f(d))
      && (f(d).Junk? <==> f([d[0]]).Junk?)
  }

  ghost predicate Delimits(f: Framer) {
    forall d, e :: DelimitsAt(f, d, e)
  }

  /** The loop of both receivers over a fixed buffer: the reference parser. */
  function Parse(f: Framer, d: Bytes): (p: Parsed)
    ensures |p.rest| <= |d|
    decreases |d|
  {
    if d == [] then Parsed([], [])
    else match f(d)
      case Need => Parsed([], d)
      case Junk => Parsed([], [])
      case Take(n) =>
        if 1 <= n <= |d| then Parsed([d[..n]], []).Before(Parse(f, d[n..])) else Parsed([], d)
  }

  /** Everything after the first byte at a frame boundary that identifies no message. */
  function AfterJunk(f: Framer, d: Bytes): Bytes
    decreases |d|
  {
    if d == [] then []
    else match f(d)
      case Need => []
      case Junk => d[1..]
      case Take(n) => if 1 <= n <= |d| then AfterJunk(f, d[n..]) else []
  }

  /** No frame boundary of `d` carries an unknown identifier. */
  predicate Clean(f: Framer, d: Bytes)
    decreases |d|
  {
    d == [] ||
    match f(d)
    case Need => true
    case Junk => false
    case Take(n) => if 1 <= n <= |d| then Clean(f, d[n..]) else true
  }

  predicate AllJunk(f: Framer, d: Bytes) {
    forall i :: 0 <= i < |d| ==> f([d[i]]).Junk?
  }

  /** The stream as the receivers see it: one buffer per read, the undelivered rest carried over. */
  function Feed(f: Framer, rest: Bytes, chunks: seq<Bytes>): Parsed
    decreases |chunks|
  {
    if chunks == [] then Parsed([], rest)
    else var p := Parse(f, rest + chunks[0]);
         Parsed(p.frames, []).Before(Feed(f, p.rest, chunks[1..]))
  }

  // ---------- one more read ----------

  /** A clean beginning can be parsed first and its rest joined to what follows. */
  lemma {:induction false} ParseAppend(f: Framer, a: Bytes, b: Bytes)
    requires Delimits(f) && Clean(f, a)
    ensures Parse(f, a + b) == Parsed(Parse(f, a).frames, []).Before(Parse(f, Parse(f, a).rest + b))
    ensures AfterJunk(f, a + b) == AfterJunk(f, Parse(f, a).rest + b)
    ensures Clean(f, a + b) <==> Clean(f, Parse(f, a).rest + b)
    decreases |a|
  {
    assert DelimitsAt(f, a, b);
    if a == [] {
      assert a + b == b == Parse(f, a).rest + b;
    } else if f(a).Take? {
      var n := f(a).n;
      ParseAppend(f, a[n..], b);
      assert (a + b)[..n] == a[..n] && (a + b)[n..] == a[n..] + b;
      var p := Parse(f, a[n..]);
      BeforeAssociates(Parsed([a[..n]], []), Parsed(p.frames, []), Parse(f, p.rest + b));
    } else {
      assert Parse(f, a).rest + b == a + b;
    }
  }

  lemma BeforeAssociates(p: Parsed, q: Parsed, r: Parsed)
    ensures p.Before(q.Before(r)) == p.Before(q).Before(r)
  {
    assert p.frames + (q.frames + r.frames) == (p.frames + q.frames) + r.frames;
  }

  /** Once an unknown identifier was met the rest of that buffer is dropped, whatever it holds. */
  lemma {:induction false} JunkAbsorbs(f: Framer, a: Bytes, b: Bytes)
    requires Delimits(f) && !Clean(f, a)
    ensures Parse(f, a).rest == []
    ensures Parse(f, a + b) == Parse(f, a)
    ensures !Clean(f, a + b) && AfterJunk(f, a + b) == AfterJunk(f, a) + b
    decreases |a|
  {
    assert DelimitsAt(f, a, b);
    if f(a).Junk? {
      assert DelimitsAt(f, a + b, []) && (a + b)[0] == a[0];
      assert (a + b)[1..] == a[1..] + b;
    } else {
      var n := f(a).n;
      JunkAbsorbs(f, a[n..], b);
      assert (a + b)[..n] == a[..n] && (a + b)[n..] == a[n..] + b;
    }
  }

  /** What stays buffered is never a frame: parsing it again finds nothing. */
  lemma {:induction false} RestIsSettled(f: Framer, d: Bytes)
    ensures Parse(f, Parse(f, d).rest) == Parsed([], Parse(f, d).rest)
    ensures Clean(f, Parse(f, d).rest)
    decreases |d|
  {
    if d != [] && f(d).Take? && 1 <= f(d).n <= |d| {
      RestIsSettled(f, d[f(d).n..]);
    }
  }

  lemma AllJunkParses(f: Framer, d: Bytes)
    requires Delimits(f) && AllJunk(f, d)
    ensures Parse(f, d) == Parsed([], [])
  {
    assert DelimitsAt(f, d, []);
  }

  // ---------- chunk independence ----------

  lemma {:induction false} FeedJunk(f: Framer, chunks: seq<Bytes>)
    requires Delimits(f) && AllJunk(f, Flatten(chunks))
    ensures Feed(f, [], chunks) == Parsed([], [])
  {
    if chunks != [] {
      var tail := Flatten(chunks[1..]);
      assert Flatten(chunks)[..|chunks[0]|] == chunks[0] && Flatten(chunks)[|chunks[0]|..] == tail;
      AllJunkParses(f, [] + chunks[0]);
      FeedJunk(f, chunks[1..]);
    }
  }

  lemma {:induction false} FeedIsParse(f: Framer, rest: Bytes, chunks: seq<Bytes>)
    requires Delimits(f) && Parse(f, rest) == Parsed([], rest)
    requires AllJunk(f, AfterJunk(f, rest + Flatten(chunks)))
    ensures Feed(f, rest, chunks) == Parse(f, rest + Flatten(chunks))
    decreases |chunks|
  {
    if chunks == [] {
      assert rest + Flatten(chunks) == rest;
    } else {
      var now, tail := rest + chunks[0], Flatten(chunks[1..]);
      assert rest + Flatten(chunks) == now + tail;
      var p := Parse(f, now);
      if Clean(f, now) {
        ParseAppend(f, now, tail);
        RestIsSettled(f, now);
        FeedIsParse(f, p.rest, chunks[1..]);
      } else {
        JunkAbsorbs(f, now, tail);
        var after := AfterJunk(f, now);
        assert forall i :: 0 <= i < |tail| ==> tail[i] == (after + tail)[|after| + i];
        FeedJunk(f, chunks[1..]);
      }
    }
  }

  /** Cutting just before a known identifier that one buffer would have dropped shows it. */
  lemma {:induction false} CutRevealsMessage(f: Framer, d: Bytes, i: nat) returns (chunks: seq<Bytes>)
    requires Delimits(f) && i < |AfterJunk(f, d)| && !f([AfterJunk(f, d)[i]]).Junk?
    ensures Flatten(chunks) == d && Feed(f, [], chunks) != Parse(f, d)
  {
    var k := JunkEnd(f, d, i);
    chunks := [d[..k], d[k..]];
    assert Flatten(chunks) == d by {
      FlattenSnoc([d[..k]], d[k..]);
      FlattenSnoc([], d[..k]);
      assert [d[..k]] + [d[k..]] == chunks && [] + [d[..k]] == [d[..k]];
    }
    var p, q := Parse(f, d[..k]), Parse(f, d[k..]);
    JunkAbsorbs(f, d[..k], d[k..]);
    assert d[..k] + d[k..] == d;
    assert DelimitsAt(f, d[k..], []);
    assert q.frames != [] || q.rest != [];
    assert [] + d[..k] == d[..k] && [] + d[k..] == d[k..];
    assert Feed(f, [], chunks[1..]) == Parsed(q.frames, []).Before(Feed(f, q.rest, chunks[1..][1..]));
    assert Feed(f, [], chunks).frames == p.frames + (q.frames + []);
  }

  /** The offset of the `i`-th byte after the first unknown identifier. */
  lemma {:induction false} JunkEnd(f: Framer, d: Bytes, i: nat) returns (k: nat)
    requires Delimits(f) && i < |AfterJunk(f, d)|
    ensures k < |d| && d[k] == AfterJunk(f, d)[i] && !Clean(f, d[..k])
    decreases |d|
  {
    if f(d).Junk? {
      k := i + 1;
      assert DelimitsAt(f, d, []) && DelimitsAt(f, d[..k], []) && d[..k][0] == d[0];
    } else {
      var n := f(d).n;
      k := JunkEnd(f, d[n..], i);
      assert DelimitsAt(f, d, []) && DelimitsAt(f, d[..n], d[n..n + k]);
      k := n + k;
      assert d[..k] == d[..n] + d[n..k] && d[..k][n..] == d[n..][..k - n];
    }
  }

  /**
   * Decoding does not depend on how reads cut the stream exactly when no known identifier
   * follows the first unknown one: in particular when no unknown identifier is ever met.
   */
  lemma ChunkIndependence(f: Framer, d: Bytes)
    requires Delimits(f)
    ensures (forall chunks | Flatten(chunks) == d :: Feed(f, [], chunks) == Parse(f, d))
        <==> AllJunk(f, AfterJunk(f, d))
    ensures Clean(f, d) ==> AfterJunk(f, d) == []
  {
    if AllJunk(f, AfterJunk(f, d)) {
      forall chunks | Flatten(chunks) == d ensures Feed(f, [], chunks) == Parse(f, d) {
        assert [] + d == d;
        FeedIsParse(f, [], chunks);
      }
    } else {
      var i :| 0 <= i < |AfterJunk(f, d)| && !f([AfterJunk(f, d)[i]]).Junk?;
      var chunks := CutRevealsMessage(f, d, i);
    }
    CleanHasNoJunk(f, d);
  }

  lemma {:induction false} CleanHasNoJunk(f: Framer, d: Bytes)
    ensures Clean(f, d) ==> AfterJunk(f, d) == []
    decreases |d|
  {
    if d != [] && f(d).Take? && 1 <= f(d).n <= |d| {
      CleanHasNoJunk(f, d[f(d).n..]);
    }
  }

  // ---------- streams made of frames ----------

  /** `x` is exactly one frame. */
  predicate IsFrame(f: Framer, x: Bytes) {
    x != [] && f(x) == Take(|x|)
  }

  /** Frames written one after another, followed by an incomplete one, are found again. */
  lemma {:induction false} ParseFrames(f: Framer, xs: seq<Bytes>, tail: Bytes)
    requires Delimits(f)
    requires forall i :: 0 <= i < |xs| ==> IsFrame(f, xs[i])
    requires Parse(f, tail) == Parsed([], tail) && Clean(f, tail)
    ensures Parse(f, Flatten(xs) + tail) == Parsed(xs, tail)
    ensures Clean(f, Flatten(xs) + tail)
  {
    if xs == [] {
      assert Flatten(xs) + tail == tail;
    } else {
      var x, more := xs[0], Flatten(xs[1..]) + tail;
      var d := Flatten(xs) + tail;
      assert IsFrame(f, x);
      assert d == x + more by { Associative(x, Flatten(xs[1..]), tail); }
      assert DelimitsAt(f, x, more);
      assert d[..|x|] == x && d[|x|..] == more;
      ParseFrames(f, xs[1..], tail);
      assert xs == [x] + xs[1..];
    }
  }

  /** Parsing loses and reorders nothing: frames and rest make up a clean stream again. */
  lemma {:induction false} ParseIsLossless(f: Framer, d: Bytes)
    requires Delimits(f) && Clean(f, d)
    ensures Flatten(Parse(f, d).frames) + Parse(f, d).rest == d
    ensures forall i :: 0 <= i < |Parse(f, d).frames| ==> IsFrame(f, Parse(f, d).frames[i])
    decreases |d|
  {
    if d != [] && f(d).Take? {
      assert DelimitsAt(f, d, []);
      var n := f(d).n;
      ParseIsLossless(f, d[n..]);
      var p := Parse(f, d[n..]);
      assert Parse(f, d).frames == [d[..n]] + p.frames;
      assert Flatten([d[..n]] + p.frames) == d[..n] + Flatten(p.frames) by {
        assert ([d[..n]] + p.frames)[1..] == p.frames;
      }
      Associative(d[..n], Flatten(p.frames), p.rest);
      assert d == d[..n] + d[n..];
    }
  }

  /** A proper beginning of a frame waits for the remainder of it. */
  lemma BeginningWaits(f: Framer, x: Bytes, k: nat)
    requires Delimits(f) && IsFrame(f, x) && k < |x| && (k > 0 ==> !f([x[0]]).Junk?)
    ensures Parse(f, x[..k]) == Parsed([], x[..k]) && Clean(f, x[..k])
  {
    var b := x[..k];
    assert x == b + x[k..];
    assert DelimitsAt(f, b, x[k..]);
  }

  /** Every beginning of a stream of frames has as its rest a proper beginning of one of them. */
  lemma {:induction false} RestIsShort(f: Framer, xs: seq<Bytes>, a: Bytes, limit: nat)
    requires Delimits(f) && limit > 0
    requires forall i :: 0 <= i < |xs| ==> IsFrame(f, xs[i]) && !f([xs[i][0]]).Junk? && |xs[i]| <= limit
    requires a <= Flatten(xs)
    ensures |Parse(f, a).rest| < limit && Clean(f, a)
  {
    if xs != [] {
      var x := xs[0];
      assert IsFrame(f, x);
      if |a| < |x| {
        assert a == x[..|a|];
        BeginningWaits(f, x, |a|);
      } else {
        var more := a[|x|..];
        assert a == x + more && more <= Flatten(xs[1..]);
        RestIsShort(f, xs[1..], more, limit);
        assert DelimitsAt(f, x, more);
        assert a[..|x|] == x;
      }
    }
  }

  // ---------- hypotheses about frame boundaries ----------

  /** `ok` holds of the buffer at every frame boundary the parse of `d` reaches. */
  predicate AtBoundaries(f: Framer, ok: Bytes -> bool, d: Bytes)
    decreases |d|
  {
    d != [] ==>
      && ok(d)
      && (f(d).Take? && 1 <= f(d).n <= |d| ==> AtBoundaries(f, ok, d[f(d).n..]))
  }

  /** A hypothesis kept by shorter buffers may be made about the whole stream once and for all. */
  lemma {:induction false} BoundariesAppend(f: Framer, ok: Bytes -> bool, a: Bytes, b: Bytes)
    requires Delimits(f) && AtBoundaries(f, ok, a + b)
    requires forall x, y :: x != [] && ok(x + y) ==> ok(x)
    ensures AtBoundaries(f, ok, a)
    ensures Clean(f, a) ==> AtBoundaries(f, ok, Parse(f, a).rest + b)
    decreases |a|
  {
    assert DelimitsAt(f, a, b);
    if a == [] {
      assert a + b == b == Parse(f, a).rest + b;
    } else if f(a).Take? {
      var n := f(a).n;
      assert (a + b)[n..] == a[n..] + b;
      BoundariesAppend(f, ok, a[n..], b);
    }
  }

  /** A stream of frames meets a hypothesis that every buffer beginning with one of them meets. */
  lemma {:induction false} BoundariesOfFrames(f: Framer, ok: Bytes -> bool, xs: seq<Bytes>)
    requires Delimits(f)
    requires forall i :: 0 <= i < |xs| ==> IsFrame(f, xs[i])
    requires forall i, e :: 0 <= i < |xs| ==> ok(xs[i] + e)
    ensures AtBoundaries(f, ok, Flatten(xs))
  {
    if xs != [] {
      var x, more := xs[0], Flatten(xs[1..]);
      assert IsFrame(f, x);
      assert DelimitsAt(f, x, more);
      assert ok(xs[0] + more);
      assert (x + more)[|x|..] == more;
      forall i, e | 0 <= i < |xs[1..]| ensures ok(xs[1..][i] + e) {
        assert xs[1..][i] == xs[i + 1];
      }
      BoundariesOfFrames(f, ok, xs[1..]);
    }
  }
}
