/** Request framing of src/server/server.cpp: length-prefixed frames cut out of a byte stream. */
module Framing {
  import opened Base
  import opened Codec
  import Wire

  datatype Cut = Incomplete | Oversized | Whole(body: Bytes, rest: Bytes)

  /** What try_one_request finds at the front of the incoming buffer. */
  function NextFrame(inc: Bytes): Cut {
    if |inc| < 4 then Incomplete
    else
      var len := ReadU32(inc);
      if len > Wire.MAX_MSG then Oversized
      else if |inc| < 4 + len then Incomplete
      else Whole(inc[4..4 + len], inc[4 + len..])
  }

  /** What is left of a stream once every frame at its front has been executed. */
  datatype Drained = Drained(frames: seq<Bytes>, rest: Bytes, oversized: bool)

  function Drain(inc: Bytes): Drained
    decreases |inc|
  {
    match NextFrame(inc)
    case Incomplete => Drained([], inc, false)
    case Oversized => Drained([], inc, true)
    case Whole(body, rest) => var d := Drain(rest); Drained([body] + d.frames, d.rest, d.oversized)
  }

  /** A frame as the client sends it. */
  function Frame(body: Bytes): Bytes { U32(|body|) + body }

  function FrameAll(bodies: seq<Bytes>): Bytes {
    if bodies == [] then [] else Frame(bodies[0]) + FrameAll(bodies[1..])
  }

  ghost predicate Bounded(bodies: seq<Bytes>) {
    forall i :: 0 <= i < |bodies| ==> |bodies[i]| <= Wire.MAX_MSG
  }

  lemma {:induction false} FrameCut(body: Bytes, rest: Bytes)
    requires |body| <= Wire.MAX_MSG
    ensures NextFrame(Frame(body) + rest) == Whole(body, rest)
  {
    var s := Frame(body) + rest;
    assert s == U32(|body|) + (body + rest);
    U32RoundTrip(|body|, body + rest);
    assert s[4..4 + |body|] == body && s[4 + |body|..] == rest;
  }

  lemma {:induction false} CutFrame(inc: Bytes)
    requires NextFrame(inc).Whole?
    ensures var c := NextFrame(inc); |c.body| <= Wire.MAX_MSG && inc == Frame(c.body) + c.rest
  {
    var len := ReadU32(inc);
    U32Back(inc);
    assert inc == inc[..4] + inc[4..4 + len] + inc[4 + len..];
  }

  /** One frame at the front of the stream. */
  lemma {:induction false} DrainOne(body: Bytes, rest: Bytes)
    requires |body| <= Wire.MAX_MSG
    ensures Drain(Frame(body) + rest) == Drained([body] + Drain(rest).frames, Drain(rest).rest, Drain(rest).oversized)
  {
    FrameCut(body, rest);
  }

  lemma {:induction false} FrameAllCons(body: Bytes, bodies: seq<Bytes>)
    ensures FrameAll([body] + bodies) == Frame(body) + FrameAll(bodies)
  {
    assert ([body] + bodies)[1..] == bodies;
  }

  lemma {:induction false} DrainFrames(frames: seq<Bytes>, rest: Bytes)
    requires Bounded(frames)
    ensures var d := Drain(rest); Drain(FrameAll(frames) + rest) == Drained(frames + d.frames, d.rest, d.oversized)
    decreases |frames|
  {
    if frames == [] {
      assert FrameAll(frames) + rest == rest && frames + Drain(rest).frames == Drain(rest).frames;
    } else {
      var head, tail := frames[0], frames[1..];
      DrainFrames(tail, rest);
      DrainOne(head, FrameAll(tail) + rest);
      Reassociate(Frame(head), FrameAll(tail), rest);
      Reassociate([head], tail, Drain(rest).frames);
      assert frames == [head] + tail;
    }
  }

  lemma {:induction false} BoundedCons(body: Bytes, bodies: seq<Bytes>)
    requires |body| <= Wire.MAX_MSG && Bounded(bodies)
    ensures Bounded([body] + bodies)
  {}

  lemma {:induction false} DrainSound(inc: Bytes)
    ensures Bounded(Drain(inc).frames) && inc == FrameAll(Drain(inc).frames) + Drain(inc).rest
    ensures NextFrame(Drain(inc).rest) == if Drain(inc).oversized then Oversized else Incomplete
    decreases |inc|
  {
    if NextFrame(inc).Whole? {
      var c := NextFrame(inc);
      CutFrame(inc);
      DrainSound(c.rest);
      var d := Drain(c.rest);
      DrainOne(c.body, c.rest);
      BoundedCons(c.body, d.frames);
      FrameAllCons(c.body, d.frames);
      Reassociate(Frame(c.body), FrameAll(d.frames), d.rest);
    } else {
      assert inc == FrameAll([]) + inc;
    }
  }

  /** The stream is frames within the size limit, followed by something that does not start with one. */
  ghost predicate Reads(inc: Bytes, d: Drained) {
    && Bounded(d.frames) && inc == FrameAll(d.frames) + d.rest
    && NextFrame(d.rest) == if d.oversized then Oversized else Incomplete
  }

  /** Draining is unique decoding: frames and rest are the only way to read the stream as frames within the size
      limit followed by something that does not start with one. */
  lemma {:induction false} DrainIff(inc: Bytes, d: Drained)
    ensures Drain(inc) == d <==> Reads(inc, d)
  {
    DrainSound(inc);
    if Reads(inc, d) {
      DrainFrames(d.frames, d.rest);
      assert d.frames + [] == d.frames;
    }
  }

  /** Frames cut off already, then whatever the remaining bytes drain to. */
  function Resume(frames: seq<Bytes>, inc: Bytes): Drained {
    var d := Drain(inc);
    Drained(frames + d.frames, d.rest, d.oversized)
  }

  lemma {:induction false} ResumeOne(frames: seq<Bytes>, inc: Bytes)
    requires NextFrame(inc).Whole?
    ensures Resume(frames, inc) == Resume(frames + [NextFrame(inc).body], NextFrame(inc).rest)
    ensures |NextFrame(inc).rest| + 4 <= |inc|
  {
    CutFrame(inc);
    var c := NextFrame(inc);
    DrainOne(c.body, c.rest);
    Reassociate(frames, [c.body], Drain(c.rest).frames);
  }

  lemma {:induction false} FrameAllAppend(bodies: seq<Bytes>, body: Bytes)
    ensures FrameAll(bodies + [body]) == FrameAll(bodies) + Frame(body)
    decreases |bodies|
  {
    if bodies == [] {
      assert [] + [body] == [body];
      FrameAllCons(body, []);
    } else {
      var head, tail := bodies[0], bodies[1..];
      assert bodies + [body] == [head] + (tail + [body]);
      FrameAllCons(head, tail + [body]);
      FrameAllAppend(tail, body);
      Reassociate(Frame(head), FrameAll(tail), Frame(body));
    }
  }

  // ---- a stream that arrives in chunks ----

  function Concat(chunks: seq<Bytes>): Bytes {
    if chunks == [] then [] else chunks[0] + Concat(chunks[1..])
  }

  /** Reads one after the other: each appends its chunk and drains; an oversized header ends the connection. */
  function Feed(inc: Bytes, chunks: seq<Bytes>): Drained
    decreases |chunks|
  {
    if chunks == [] then Drained([], inc, false)
    else
      var d := Drain(inc + chunks[0]);
      if d.oversized then d
      else
        var e := Feed(d.rest, chunks[1..]);
        Drained(d.frames + e.frames, e.rest, e.oversized)
  }

  /** More bytes never change what has been cut off, and an oversized header stays one. */
  lemma {:induction false} DrainMore(a: Bytes, b: Bytes)
    ensures var d := Drain(a);
      if d.oversized then Drain(a + b) == Drained(d.frames, d.rest + b, true)
      else var e := Drain(d.rest + b); Drain(a + b) == Drained(d.frames + e.frames, e.rest, e.oversized)
  {
    var d := Drain(a);
    DrainSound(a);
    Reassociate(FrameAll(d.frames), d.rest, b);
    DrainFrames(d.frames, d.rest + b);
    if d.oversized {
      StaysOversized(d.rest, b);
      assert d.frames + [] == d.frames;
    }
  }

  lemma {:induction false} StaysOversized(a: Bytes, b: Bytes)
    requires NextFrame(a) == Oversized
    ensures NextFrame(a + b) == Oversized
  {
    U32Back(a);
    assert a + b == U32(ReadU32(a)) + (a[4..] + b);
    U32RoundTrip(ReadU32(a), a[4..] + b);
  }

  /** Framing does not depend on chunking: for every split of a stream, the frames executed and whether the
      connection is dropped are those of the whole stream, up to its first oversized header. */
  lemma {:induction false} ChunkingInvisible(inc: Bytes, chunks: seq<Bytes>)
    requires NextFrame(inc) == Incomplete
    ensures var f, d := Feed(inc, chunks), Drain(inc + Concat(chunks));
      f.frames == d.frames && f.oversized == d.oversized && f.rest <= d.rest && (!d.oversized ==> f.rest == d.rest)
    decreases |chunks|
  {
    if chunks == [] {
      assert inc + [] == inc;
    } else {
      var a, b := inc + chunks[0], Concat(chunks[1..]);
      assert inc + Concat(chunks) == a + b;
      DrainMore(a, b);
      DrainSound(a);
      if !Drain(a).oversized {
        ChunkingInvisible(Drain(a).rest, chunks[1..]);
      }
    }
  }
}
