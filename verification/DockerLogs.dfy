/**
 Docker's multiplexed log framing as `proxy/docker_client.py` reads it, twice: over a whole
 body, with a fallback to the body itself, and over a stream, one chunk a frame. Decoding
 the bytes as UTF-8 is not part of this model.
 */
module DockerLogs {
  import opened Bytes

  /** An 8-byte header, stream byte, three ignored bytes and big-endian size, and the payload. */
  datatype Frame = Frame(stream: byte, ignored: seq<byte>, payload: seq<byte>)

  /** The highest stream byte of the engine: stdin, stdout and stderr. */
  const STANDARD_ERROR: byte := 2
  const ANY_STREAM: byte := 255

  predicate WellFormed(f: Frame, top: byte) {
    f.stream <= top && |f.ignored| == 3 && |f.payload| < Pow256(4)
  }

  function FrameBytes(f: Frame): seq<byte> {
    [f.stream] + f.ignored + Digits(|f.payload|, 4) + f.payload
  }

  /** The stream byte, three bytes, the size of the payload with its most significant byte first, and the payload. */
  lemma FrameLayout(f: Frame)
    requires WellFormed(f, ANY_STREAM)
    ensures var b := FrameBytes(f);
            && |b| == 8 + |f.payload| && b[0] == f.stream && b[1..4] == f.ignored && b[8..] == f.payload
            && b[4] as nat * 0x100_0000 + b[5] as nat * 0x1_0000 + b[6] as nat * 0x100 + b[7] as nat == |f.payload|
  {
    var size := Digits(|f.payload|, 4);
    FromDigits(|f.payload|, 4);
    FourBytes(size);
    assert FrameBytes(f)[4..8] == size && FrameBytes(f)[8..] == f.payload && FrameBytes(f)[1..4] == f.ignored;
  }

  lemma FourBytes(s: seq<byte>)
    requires |s| == 4
    ensures FromBigEndian(s) == s[0] as nat * 0x100_0000 + s[1] as nat * 0x1_0000 + s[2] as nat * 0x100 + s[3] as nat
  {
    assert s[..3][..2] == s[..2] && s[..2][..1] == s[..1] && s[..1][..0] == [];
    assert FromBigEndian(s[..1]) == s[0];
    assert FromBigEndian(s[..2]) == s[0] as nat * 0x100 + s[1] as nat;
    assert FromBigEndian(s[..3]) == s[0] as nat * 0x1_0000 + s[1] as nat * 0x100 + s[2] as nat;
  }

  ghost predicate AllFrames(frames: seq<Frame>, top: byte) {
    forall f :: f in frames ==> WellFormed(f, top)
  }

  function Framed(frames: seq<Frame>): seq<byte> {
    if frames == [] then [] else FrameBytes(frames[0]) + Framed(frames[1..])
  }

  function Payloads(frames: seq<Frame>): seq<seq<byte>> {
    if frames == [] then [] else [frames[0].payload] + Payloads(frames[1..])
  }

  function Joined(chunks: seq<seq<byte>>): seq<byte> {
    if chunks == [] then [] else chunks[0] + Joined(chunks[1..])
  }

  // ---------------------------------------------------------------------------
  // Cutting frames off the front

  function Size(body: seq<byte>): nat
    requires |body| >= 8
  {
    FromBigEndian(body[4..8])
  }

  predicate StartsWithFrame(body: seq<byte>, top: byte) {
    |body| >= 8 && body[0] <= top && 8 + Size(body) <= |body|
  }

  function FirstFrame(body: seq<byte>): Frame
    requires |body| >= 8 && 8 + Size(body) <= |body|
  {
    Frame(body[0], body[1..4], body[8..8 + Size(body)])
  }

  function AfterFrame(body: seq<byte>): (rest: seq<byte>)
    requires |body| >= 8 && 8 + Size(body) <= |body|
    ensures |rest| < |body|
  {
    body[8 + Size(body)..]
  }

  /** The frames at the front of a body, as many as there are, and the bytes that remain. */
  function Frames(body: seq<byte>, top: byte): seq<Frame> {
    if StartsWithFrame(body, top) then [FirstFrame(body)] + Frames(AfterFrame(body), top) else []
  }

  function Remainder(body: seq<byte>, top: byte): seq<byte> {
    if StartsWithFrame(body, top) then Remainder(AfterFrame(body), top) else body
  }

  lemma FrontOfFrame(f: Frame, top: byte, rest: seq<byte>)
    requires WellFormed(f, top)
    ensures StartsWithFrame(FrameBytes(f) + rest, top)
    ensures FirstFrame(FrameBytes(f) + rest) == f && AfterFrame(FrameBytes(f) + rest) == rest
  {
    var body := FrameBytes(f) + rest;
    var size := Digits(|f.payload|, 4);
    assert body[4..8] == size;
    FromDigits(|f.payload|, 4);
    assert body[1..4] == f.ignored;
    assert body[8..8 + |f.payload|] == f.payload;
    assert body[8 + |f.payload|..] == rest;
  }

  lemma FrameAtFront(body: seq<byte>, top: byte)
    requires StartsWithFrame(body, top)
    ensures WellFormed(FirstFrame(body), top) && FrameBytes(FirstFrame(body)) + AfterFrame(body) == body
  {
    var size := body[4..8];
    DigitsFrom(size);
    assert |size| == 4 && |body[8..8 + Size(body)]| == Size(body);
    assert [body[0]] + body[1..4] + size == body[..8];
    assert body[..8] + body[8..8 + Size(body)] == body[..8 + Size(body)];
  }

  lemma {:induction false} FramesSound(body: seq<byte>, top: byte)
    ensures AllFrames(Frames(body, top), top)
    ensures Framed(Frames(body, top)) + Remainder(body, top) == body
    ensures !StartsWithFrame(Remainder(body, top), top)
  {
    if StartsWithFrame(body, top) {
      var f, rest := FirstFrame(body), AfterFrame(body);
      FrameAtFront(body, top);
      FramesSound(rest, top);
      var frames := [f] + Frames(rest, top);
      assert frames[1..] == Frames(rest, top);
      Regroup(FrameBytes(f), Framed(frames[1..]), Remainder(rest, top));
    } else {
      assert Framed([]) + body == body;
    }
  }

  lemma Regroup(p: seq<byte>, q: seq<byte>, r: seq<byte>)
    ensures (p + q) + r == p + (q + r)
  {
  }

  lemma {:induction false} FramesUnique(frames: seq<Frame>, rest: seq<byte>, top: byte)
    requires AllFrames(frames, top) && !StartsWithFrame(rest, top)
    ensures Frames(Framed(frames) + rest, top) == frames && Remainder(Framed(frames) + rest, top) == rest
  {
    if frames == [] {
      assert Framed(frames) + rest == rest;
    } else {
      var f, tail := frames[0], frames[1..];
      assert f in frames && forall g :: g in tail ==> g in frames;
      FramesUnique(tail, rest, top);
      FrontOfFrame(f, top, Framed(tail) + rest);
      Regroup(FrameBytes(f), Framed(tail), rest);
      assert [f] + tail == frames;
    }
  }

  /**
   A body splits in exactly one way into frames and a remainder that starts with none, so
   framing is injective.
   */
  lemma SplitsOnce(body: seq<byte>, top: byte, frames: seq<Frame>, rest: seq<byte>)
    requires AllFrames(frames, top) && !StartsWithFrame(rest, top)
    ensures Framed(frames) + rest == body <==> frames == Frames(body, top) && rest == Remainder(body, top)
  {
    FramesSound(body, top);
    FramesUnique(frames, rest, top);
  }

  /** The body is exactly a list of frames. */
  ghost predicate IsFramed(body: seq<byte>, top: byte) {
    exists frames :: AllFrames(frames, top) && Framed(frames) == body
  }

  lemma FramedWhenNothingRemains(body: seq<byte>, top: byte)
    ensures IsFramed(body, top) <==> Remainder(body, top) == []
    ensures IsFramed(body, top) ==> Framed(Frames(body, top)) == body
  {
    FramesSound(body, top);
    if Remainder(body, top) == [] {
      assert Framed(Frames(body, top)) + [] == Framed(Frames(body, top));
    }
    if IsFramed(body, top) {
      var frames :| AllFrames(frames, top) && Framed(frames) == body;
      assert Framed(frames) + [] == body;
      SplitsOnce(body, top, frames, []);
    }
  }

  // ---------------------------------------------------------------------------
  // The two readers

  /** The join of the payloads when the body is framed, else the body. */
  function Demuxed(body: seq<byte>): seq<byte> {
    if Remainder(body, STANDARD_ERROR) == [] then Joined(Payloads(Frames(body, STANDARD_ERROR))) else body
  }

  lemma {:induction false} JoinedAppend(chunks: seq<seq<byte>>, c: seq<byte>)
    ensures Joined(chunks + [c]) == Joined(chunks) + c
  {
    if chunks == [] {
      assert [] + [c] == [c] && [c][1..] == [];
    } else {
      assert (chunks + [c])[1..] == chunks[1..] + [c];
      JoinedAppend(chunks[1..], c);
    }
  }

  lemma {:induction false} PayloadsConcat(p: seq<Frame>, q: seq<Frame>)
    ensures Payloads(p + q) == Payloads(p) + Payloads(q)
  {
    if p == [] {
      assert p + q == q;
    } else {
      assert (p + q)[1..] == p[1..] + q;
      PayloadsConcat(p[1..], q);
    }
  }

  lemma OneMore(seen: seq<Frame>, f: Frame, rest: seq<Frame>)
    ensures seen + ([f] + rest) == (seen + [f]) + rest
    ensures Payloads(seen + [f]) == Payloads(seen) + [f.payload]
  {
    PayloadsConcat(seen, [f]);
    assert [f][1..] == [];
  }

  /** What the loop of _demux_docker_stream looks at, in terms of the bytes from i on. */
  lemma FrameAt(body: seq<byte>, i: nat)
    requires i + 8 <= |body|
    ensures var size := FromBigEndian(body[i + 4..i + 8]);
            && (StartsWithFrame(body[i..], STANDARD_ERROR) <==> body[i] <= 2 && i + 8 + size <= |body|)
            && (StartsWithFrame(body[i..], STANDARD_ERROR) ==>
                  && FirstFrame(body[i..]).payload == body[i + 8..i + 8 + size]
                  && AfterFrame(body[i..]) == body[i + 8 + size..])
  {
    assert body[i..][4..8] == body[i + 4..i + 8];
  }

  /** _demux_docker_stream: index i runs over the whole body. */
  method Demux(body: seq<byte>) returns (text: seq<byte>)
    ensures text == Demuxed(body)
  {
    var out, i, n := [], 0, |body|;
    ghost var seen := [];
    while i + 8 <= n
      invariant i <= n
      invariant out == Payloads(seen) && seen + Frames(body[i..], STANDARD_ERROR) == Frames(body, STANDARD_ERROR)
      invariant Remainder(body[i..], STANDARD_ERROR) == Remainder(body, STANDARD_ERROR)
    {
      var stream := body[i];
      var size := FromBigEndian(body[i + 4..i + 8]);
      FrameAt(body, i);
      if (stream != 0 && stream != 1 && stream != 2) || i + 8 + size > n {
        return body;
      }
      OneMore(seen, FirstFrame(body[i..]), Frames(body[i + 8 + size..], STANDARD_ERROR));
      seen := seen + [FirstFrame(body[i..])];
      out := out + [body[i + 8..i + 8 + size]];
      i := i + 8 + size;
    }
    if i != n {
      return body;
    }
    assert body[n..] == [] && seen + [] == seen;
    text := Joined(out);
  }

  /** Headers are stripped from a body that is exactly a list of frames, and from no other. */
  lemma DemuxedMeaning(body: seq<byte>)
    ensures forall frames :: AllFrames(frames, STANDARD_ERROR) && Framed(frames) == body
              ==> Demuxed(body) == Joined(Payloads(frames))
    ensures !IsFramed(body, STANDARD_ERROR) ==> Demuxed(body) == body
  {
    FramedWhenNothingRemains(body, STANDARD_ERROR);
    forall frames | AllFrames(frames, STANDARD_ERROR) && Framed(frames) == body
      ensures Demuxed(body) == Joined(Payloads(frames))
    {
      assert Framed(frames) + [] == body;
      SplitsOnce(body, STANDARD_ERROR, frames, []);
    }
  }

  /** The response body that stream_logs reads from. */
  class StreamReader {
    var unread: seq<byte>

    constructor (body: seq<byte>)
      ensures unread == body
    {
      unread := body;
    }

    /** readexactly: when the stream ends first, IncompleteReadError with what there was. */
    method ReadExactly(n: nat) returns (data: seq<byte>, complete: bool)
      modifies this
      ensures complete == (n <= |old(unread)|)
      ensures complete ==> data == old(unread)[..n] && unread == old(unread)[n..]
      ensures !complete ==> data == old(unread) && unread == []
    {
      if n <= |unread| {
        data, unread, complete := unread[..n], unread[n..], true;
      } else {
        data, unread, complete := unread, [], false;
      }
    }
  }

  /**
   The framing loop of stream_logs. It looks at no stream byte; it ends when the stream ends
   at a frame boundary and raises IncompleteReadError anywhere else, having yielded the
   payload of every complete frame before that.
   */
  method StreamLogs(body: seq<byte>) returns (chunks: seq<seq<byte>>, raised: bool)
    ensures chunks == Payloads(Frames(body, ANY_STREAM))
    ensures raised <==> !IsFramed(body, ANY_STREAM)
  {
    FramedWhenNothingRemains(body, ANY_STREAM);
    var content := new StreamReader(body);
    chunks := [];
    ghost var seen := [];
    while true
      invariant chunks == Payloads(seen) && seen + Frames(content.unread, ANY_STREAM) == Frames(body, ANY_STREAM)
      invariant Remainder(content.unread, ANY_STREAM) == Remainder(body, ANY_STREAM)
      decreases |content.unread|
    {
      ghost var rest := content.unread;
      var header, whole := content.ReadExactly(8);
      if !whole {
        assert !StartsWithFrame(rest, ANY_STREAM) && seen + [] == seen;
        return chunks, header != [];
      }
      var size := FromBigEndian(header[4..8]);
      assert header[4..8] == rest[4..8];
      var data, all := content.ReadExactly(size);
      if !all {
        assert !StartsWithFrame(rest, ANY_STREAM) && seen + [] == seen;
        return chunks, true;
      }
      OneMore(seen, FirstFrame(rest), Frames(AfterFrame(rest), ANY_STREAM));
      assert FirstFrame(rest).payload == data && AfterFrame(rest) == content.unread;
      seen := seen + [FirstFrame(rest)];
      chunks := chunks + [data];
    }
  }

  lemma {:induction false} JoinedShorter(frames: seq<Frame>, top: byte)
    requires AllFrames(frames, top)
    ensures |Framed(frames)| == 8 * |frames| + |Joined(Payloads(frames))|
  {
    if frames != [] {
      assert frames[0] in frames && forall g :: g in frames[1..] ==> g in frames;
      JoinedShorter(frames[1..], top);
      var chunks := Payloads(frames);
      assert chunks[1..] == Payloads(frames[1..]);
    }
  }

  /**
   The streaming reader ends without an error and its chunks join to what the buffered reader
   returns, exactly when the body is a list of frames with stream bytes 0 to 2.
   */
  lemma ReadersAgree(body: seq<byte>)
    ensures IsFramed(body, STANDARD_ERROR)
            <==> IsFramed(body, ANY_STREAM) && Joined(Payloads(Frames(body, ANY_STREAM))) == Demuxed(body)
  {
    FramedWhenNothingRemains(body, STANDARD_ERROR);
    FramedWhenNothingRemains(body, ANY_STREAM);
    FramesSound(body, STANDARD_ERROR);
    FramesSound(body, ANY_STREAM);
    if IsFramed(body, STANDARD_ERROR) {
      var frames := Frames(body, STANDARD_ERROR);
      assert AllFrames(frames, ANY_STREAM) && Framed(frames) + [] == body;
      SplitsOnce(body, ANY_STREAM, frames, []);
    } else if IsFramed(body, ANY_STREAM) {
      JoinedShorter(Frames(body, ANY_STREAM), ANY_STREAM);
      var none: seq<Frame> := [];
      assert AllFrames(none, STANDARD_ERROR) && Framed(none) == [];
    }
  }
}
