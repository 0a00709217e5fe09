/** The receive half of send_command in client/client.cpp: which replies reach the user. */
module Client {
  import opened Base
  import opened Codec
  import opened Framing
  import Wire

  /** The end of one command: the client stops, because of "bad reply" or a short read, or goes on with the bytes behind
      the frame, having printed the whole value or given up in the middle of it. */
  datatype Receipt = Stopped | Printed(v: Value, rest: Bytes) | Garbled(rest: Bytes)

  /** The header, the check of its length, the body and print_value, whose result is not looked at. */
  function Receive(stream: Bytes, doubles: Bytes -> int): (r: Receipt)
    ensures !r.Stopped? ==> |r.rest| < |stream|
  {
    if |stream| < 4 then Stopped
    else
      var total := ReadU32(stream);
      if total < 1 || total > Wire.MAX_MSG || |stream| < 4 + total then Stopped
      else
        match Decode(stream[4..4 + total], doubles)
        case None => Garbled(stream[4 + total..])
        case Some((v, _)) => Printed(v, stream[4 + total..])
  }

  /** One command after the other until the client stops; None is a reply that it gave up on. */
  function ReceiveAll(stream: Bytes, doubles: Bytes -> int): seq<Option<Value>>
    decreases |stream|
  {
    match Receive(stream, doubles)
    case Stopped => []
    case Printed(v, rest) => [Some(v)] + ReceiveAll(rest, doubles)
    case Garbled(rest) => [None] + ReceiveAll(rest, doubles)
  }

  /** Every reply printed whole. */
  function Whole(vs: seq<Value>): seq<Option<Value>> { seq(|vs|, i requires 0 <= i < |vs| => Some(vs[i])) }

  /** The numbers in a value are ones their types can hold; lengths are left open. */
  ghost predicate Numbers(v: Value, doubles: Bytes -> int) {
    match v
    case Err(code, _) => 0 <= code < TWO32
    case Int(n) => -0x8000_0000_0000_0000 <= n < 0x8000_0000_0000_0000
    case Dbl(x) => |x.bits| == 8 && x.ord == doubles(x.bits)
    case Arr(vs) => forall i :: 0 <= i < |vs| ==> Numbers(vs[i], doubles)
    case _ => true
  }

  predicate Short(v: Value) { |Encode(v)| <= Wire.MAX_MSG }

  lemma {:induction false} EncodeAllAt(vs: seq<Value>, i: nat)
    requires i < |vs|
    ensures |vs| <= |EncodeAll(vs)| && |Encode(vs[i])| <= |EncodeAll(vs)|
  {
    if |vs| > 1 {
      EncodeAllAt(vs[1..], if i == 0 then 0 else i - 1);
    }
  }

  /** An encoding shorter than 2^32 bytes holds no length that does not fit. */
  lemma {:induction false} NumbersFit(v: Value, doubles: Bytes -> int)
    requires Numbers(v, doubles) && |Encode(v)| < TWO32
    ensures Fits(v, doubles)
  {
    match v
    case Arr(vs) =>
      forall i | 0 <= i < |vs| ensures Fits(vs[i], doubles) {
        EncodeAllAt(vs, i);
        NumbersFit(vs[i], doubles);
      }
      if vs != [] { EncodeAllAt(vs, 0); }
    case _ =>
  }

  /** What the header says of a body that is too long: its length modulo 2^32. */
  lemma {:induction false} Header(body: Bytes, rest: Bytes)
    ensures ReadU32(Frame(body) + rest) == |body| % TWO32
    ensures |body| < TWO32 ==> ReadU32(Frame(body) + rest) == |body|
    ensures (Frame(body) + rest)[4..] == body + rest
  {
    assert Frame(body) + rest == U32(|body|) + (body + rest);
    assert U32(|body|) == U32(|body| % TWO32);
    U32RoundTrip(|body| % TWO32, body + rest);
  }

  lemma {:induction false} FrameParts(body: Bytes, rest: Bytes)
    ensures var s, n := Frame(body) + rest, 4 + |body|; |s| >= n && s[4..n] == body && s[n..] == rest
  {}

  lemma {:induction false} ReceiveBody(stream: Bytes, body: Bytes, rest: Bytes, v: Value, n: nat, doubles: Bytes -> int)
    requires |stream| >= 4 + |body| && ReadU32(stream) == |body| && 1 <= |body| <= Wire.MAX_MSG
    requires stream[4..4 + |body|] == body && stream[4 + |body|..] == rest && Decode(body, doubles) == Some((v, n))
    ensures Receive(stream, doubles) == Printed(v, rest)
  {}

  lemma {:induction false} ReceiveShort(v: Value, rest: Bytes, doubles: Bytes -> int)
    requires Numbers(v, doubles) && Short(v)
    ensures Receive(Frame(Encode(v)) + rest, doubles) == Printed(v, rest)
  {
    var e := Encode(v);
    NumbersFit(v, doubles);
    RoundTripIff(v, doubles);
    Header(e, rest);
    FrameParts(e, rest);
    ReceiveBody(Frame(e) + rest, e, rest, v, |e|, doubles);
  }

  /** A value that is too long is never what the client prints, even where the header has wrapped around. */
  lemma {:induction false} ReceiveLong(v: Value, rest: Bytes, doubles: Bytes -> int)
    requires !Short(v)
    ensures var r := Receive(Frame(Encode(v)) + rest, doubles); r.Printed? ==> r.v != v
  {
    var e := Encode(v);
    Header(e, rest);
    var s := Frame(e) + rest;
    var r := Receive(s, doubles);
    if r.Printed? {
      var total := ReadU32(s);
      EncodeDecode(s[4..4 + total], doubles);
    }
  }

  /** The client prints the reply, and goes on behind it, exactly when its encoding is at most 32 KiB. */
  lemma {:induction false} ReceiveIff(v: Value, rest: Bytes, doubles: Bytes -> int)
    requires Numbers(v, doubles)
    ensures Receive(Frame(Encode(v)) + rest, doubles) == Printed(v, rest) <==> Short(v)
  {
    if Short(v) { ReceiveShort(v, rest, doubles); } else { ReceiveLong(v, rest, doubles); }
  }

  function Payloads(vs: seq<Value>): seq<Bytes> {
    seq(|vs|, i requires 0 <= i < |vs| => Encode(vs[i]))
  }

  /** Out of a stream of framed replies the client prints exactly these replies if and only if all are short. */
  lemma {:induction false} ReceiveAllIff(vs: seq<Value>, doubles: Bytes -> int)
    requires forall i :: 0 <= i < |vs| ==> Numbers(vs[i], doubles)
    ensures ReceiveAll(FrameAll(Payloads(vs)), doubles) == Whole(vs) <==> forall i :: 0 <= i < |vs| ==> Short(vs[i])
    decreases |vs|
  {
    if vs != [] {
      var v, tail := vs[0], vs[1..];
      var rest := FrameAll(Payloads(tail));
      assert Payloads(vs)[1..] == Payloads(tail);
      if Short(v) {
        ReceiveShort(v, rest, doubles);
        ReceiveAllIff(tail, doubles);
        Tails(Some(v), ReceiveAll(rest, doubles), Whole(tail));
        assert Whole(vs) == [Some(v)] + Whole(tail);
      } else {
        ReceiveLong(v, rest, doubles);
        assert Whole(vs)[0] == Some(v);
      }
    }
  }

  lemma {:induction false} Tails<T>(x: T, a: seq<T>, b: seq<T>)
    ensures [x] + a == [x] + b <==> a == b
  {
    assert ([x] + a)[1..] == a && ([x] + b)[1..] == b;
  }
}
