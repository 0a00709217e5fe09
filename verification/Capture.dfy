/** Messages as bytes on the wire, with every number written out: the layout of words, frames and replies, and the
    exchange that README.md of the program gives byte by byte. */
module Capture {
  import opened Base
  import opened Store
  import opened Commands
  import opened Requests
  import opened History
  import opened Laws
  import Client
  import Codec
  import Framing
  import Wire

  // ---- layout ----

  /** The number that four bytes stand for, lowest first. */
  function Word(b: Bytes): int
    requires |b| >= 4
  {
    (b[0] as int) + 256 * (b[1] as int) + 65536 * (b[2] as int) + 16777216 * (b[3] as int)
  }

  lemma {:induction false} ReadIsWord(b: Bytes)
    requires |b| >= 4
    ensures Codec.ReadU32(b) == Word(b)
  {
    assert b[1..][1..] == b[2..] && b[2..][1..] == b[3..] && b[3..][1..] == b[4..];
    assert Codec.ReadLE(b, 4) == b[0] + 256 * Codec.ReadLE(b[1..], 3);
    assert Codec.ReadLE(b[1..], 3) == b[1] + 256 * Codec.ReadLE(b[2..], 2);
    assert Codec.ReadLE(b[2..], 2) == b[2] + 256 * Codec.ReadLE(b[3..], 1);
    assert Codec.ReadLE(b[3..], 1) == b[3] + 256 * Codec.ReadLE(b[4..], 0);
  }

  /** A length is written as the four bytes that stand for it, up to 2^32. */
  lemma {:induction false} WordIs(n: nat)
    ensures |Codec.U32(n)| == 4 && Word(Codec.U32(n)) == n % 0x1_0000_0000
  {
    ReadIsWord(Codec.U32(n));
    Codec.U32RoundTrip(n % TWO32, []);
    assert Codec.U32(n) + [] == Codec.U32(n);
  }

  /** An integer is written as eight bytes in two's complement. */
  lemma {:induction false} LongIs(n: int)
    requires -0x8000_0000_0000_0000 <= n < 0x8000_0000_0000_0000
    ensures var b := Codec.I64(n);
      |b| == 8 && Word(b) + 0x1_0000_0000 * Word(b[4..]) == if n < 0 then n + 0x1_0000_0000_0000_0000 else n
  {
    var b, u := Codec.I64(n), n % (TWO32 * TWO32);
    Codec.Widths();
    Codec.LERead(u, 8, []);
    assert b + [] == b;
    ReadIsWord(b);
    ReadIsWord(b[4..]);
    SplitRead(b);
  }

  lemma {:induction false} SplitRead(b: Bytes)
    requires |b| == 8
    ensures Codec.ReadLE(b, 8) == Codec.ReadU32(b) + 0x1_0000_0000 * Codec.ReadU32(b[4..])
  {
    assert b[1..][1..] == b[2..] && b[2..][1..] == b[3..] && b[3..][1..] == b[4..];
    assert Codec.ReadLE(b, 8) == b[0] + 256 * Codec.ReadLE(b[1..], 7);
    assert Codec.ReadLE(b[1..], 7) == b[1] + 256 * Codec.ReadLE(b[2..], 6);
    assert Codec.ReadLE(b[2..], 6) == b[2] + 256 * Codec.ReadLE(b[3..], 5);
    assert Codec.ReadLE(b[3..], 5) == b[3] + 256 * Codec.ReadLE(b[4..], 4);
    ReadIsWord(b);
  }

  /** The tag in front of each kind of value. */
  lemma {:induction false} TagsAre(code: int, s: Bytes, n: int, x: Score, vs: seq<Codec.Value>)
    ensures Codec.Encode(Codec.Nil) == [0]
    ensures Codec.Encode(Codec.Err(code, s)) == [1] + Codec.U32(code) + Codec.U32(|s|) + s
    ensures Codec.Encode(Codec.Str(s)) == [2] + Codec.U32(|s|) + s
    ensures Codec.Encode(Codec.Int(n)) == [3] + Codec.I64(n)
    ensures Codec.Encode(Codec.Dbl(x)) == [4] + x.bits
    ensures Codec.Encode(Codec.Arr(vs)) == [5] + Codec.U32(|vs|) + Codec.EncodeAll(vs)
  {}

  /** What the server makes of a header and the bytes behind it: up to 32768 is a frame, more is the end. */
  lemma {:induction false} HeaderIs(h: Bytes, x: Bytes)
    requires |h| == 4
    ensures Framing.NextFrame(h + x) ==
      if Word(h) > 32768 then Framing.Oversized
      else if |x| < Word(h) then Framing.Incomplete
      else Framing.Whole(x[..Word(h)], x[Word(h)..])
  {
    ReadIsWord(h + x);
    if Word(h) <= |x| { assert (h + x)[4..4 + Word(h)] == x[..Word(h)] && (h + x)[4 + Word(h)..] == x[Word(h)..]; }
  }

  /** The client stops at a header of 0 or of more than 32768, or when bytes are missing. */
  lemma {:induction false} ReceiptIs(h: Bytes, x: Bytes, doubles: Bytes -> int)
    requires |h| == 4
    ensures Client.Receive(h + x, doubles).Stopped? <==> Word(h) == 0 || Word(h) > 32768 || |x| < Word(h)
  {
    ReadIsWord(h + x);
  }

  // ---- the captured exchange ----

  const SET_REQUEST: Bytes :=
    [0x1e, 0, 0, 0] + ([3, 0, 0, 0] +
    ([3, 0, 0, 0] + [0x53, 0x45, 0x54] +
    ([6, 0, 0, 0] + [0x75, 0x73, 0x65, 0x72, 0x3a, 0x31] +
    ([5, 0, 0, 0] + [0x61, 0x6c, 0x69, 0x63, 0x65]))))

  const SET_REPLY: Bytes := [1, 0, 0, 0] + [0]

  const GET_REPLY: Bytes := [0x0a, 0, 0, 0] + ([2] + [5, 0, 0, 0] + [0x61, 0x6c, 0x69, 0x63, 0x65])

  const FOO_REPLY: Bytes := [0x18, 0, 0, 0] + ([1] + [1, 0, 0, 0] + [0x0f, 0, 0, 0] +
    [0x75, 0x6e, 0x6b, 0x6e, 0x6f, 0x77, 0x6e, 0x20, 0x63, 0x6f, 0x6d, 0x6d, 0x61, 0x6e, 0x64])

  lemma {:induction false} SmallWord(n: nat)
    requires n < 256
    ensures Codec.U32(n) == [n, 0, 0, 0]
  {
    assert Codec.LE(0, 0) == [] && Codec.LE(0, 1) == [0] && Codec.LE(0, 2) == [0, 0] && Codec.LE(0, 3) == [0, 0, 0];
    assert n % TWO32 == n && n % 256 == n && n / 256 == 0;
  }

  lemma {:induction false} Texts()
    ensures Text("SET") == [0x53, 0x45, 0x54] && Text("GET") == [0x47, 0x45, 0x54] && Text("FOO") == [0x46, 0x4f, 0x4f]
    ensures Text("user:1") == [0x75, 0x73, 0x65, 0x72, 0x3a, 0x31] && Text("alice") == [0x61, 0x6c, 0x69, 0x63, 0x65]
    ensures Text("unknown command") ==
      [0x75, 0x6e, 0x6b, 0x6e, 0x6f, 0x77, 0x6e, 0x20, 0x63, 0x6f, 0x6d, 0x6d, 0x61, 0x6e, 0x64]
  {}

  lemma {:induction false} ThreeArgs(x: Bytes, y: Bytes, z: Bytes)
    ensures Wire.EncodeReq([x, y, z]) ==
      Codec.U32(3) + (Codec.U32(|x|) + x + (Codec.U32(|y|) + y + (Codec.U32(|z|) + z)))
  {
    var one, two, three: seq<Bytes> := [z], [y, z], [x, y, z];
    assert three[1..] == two && two[1..] == one && one[1..] == [];
    assert Wire.EncodeArgs(one) == Codec.U32(|z|) + z + [];
    assert Wire.EncodeArgs(two) == Codec.U32(|y|) + y + Wire.EncodeArgs(one);
    assert Wire.EncodeArgs(three) == Codec.U32(|x|) + x + Wire.EncodeArgs(two);
  }

  /** The bytes that the client sends for SET user:1 alice. */
  lemma {:induction false} RequestBytes()
    ensures Framing.Frame(Wire.EncodeReq([Text("SET"), Text("user:1"), Text("alice")])) == SET_REQUEST
  {
    Texts();
    SmallWord(30); SmallWord(3); SmallWord(6); SmallWord(5);
    ThreeArgs(Text("SET"), Text("user:1"), Text("alice"));
  }

  lemma {:induction false} ReplyBytes()
    ensures Framing.Frame(Codec.Encode(Codec.Nil)) == SET_REPLY
    ensures Framing.Frame(Codec.Encode(Codec.Str(Text("alice")))) == GET_REPLY
    ensures Framing.Frame(Codec.Encode(Codec.Err(1, Text("unknown command")))) == FOO_REPLY
  {
    Texts();
    SmallWord(1); SmallWord(10); SmallWord(5); SmallWord(24); SmallWord(15);
  }

  lemma {:induction false} FirstReply(lib: Lib, q: Served, st: Store)
    requires Asked(lib, q, [Text("SET"), Text("user:1"), Text("alice")], map[], st)
    ensures q.reply == Codec.Nil && st == map[Text("user:1") := Rec(Str(Text("alice")), None)]
  {
    Texts();
    DoesThree(lib, q, [Text("SET"), Text("user:1"), Text("alice")], map[], st);
  }

  lemma {:induction false} SecondReply(lib: Lib, q: Served, st: Store, st': Store)
    requires Asked(lib, q, [Text("GET"), Text("user:1")], st, st')
    requires st == map[Text("user:1") := Rec(Str(Text("alice")), None)]
    ensures q.reply == Codec.Str(Text("alice"))
  {
    Texts();
    DoesTwo(lib, q, [Text("GET"), Text("user:1")], st, st');
  }

  lemma {:induction false} ThirdReply(lib: Lib, q: Served, st: Store, st': Store)
    requires Asked(lib, q, [Text("FOO")], st, st')
    ensures q.reply == Codec.Err(1, Text("unknown command"))
  {
    UnknownIs(lib, q, [Text("FOO")], st, st');
  }

  /** SET user:1 alice, GET user:1 and FOO on an empty store come back as those bytes. */
  lemma {:induction false} Exchange(lib: Lib, q1: Served, q2: Served, q3: Served, st1: Store, st2: Store, st3: Store)
    requires Asked(lib, q1, [Text("SET"), Text("user:1"), Text("alice")], map[], st1)
    requires Asked(lib, q2, [Text("GET"), Text("user:1")], st1, st2) && Asked(lib, q3, [Text("FOO")], st2, st3)
    ensures Answer([q1, q2, q3]) == SET_REPLY + GET_REPLY + FOO_REPLY
  {
    FirstReply(lib, q1, st1);
    SecondReply(lib, q2, st1, st2);
    ThirdReply(lib, q3, st2, st3);
    ReplyBytes();
    AnswerMore([], q1); AnswerMore([q1], q2); AnswerMore([q1, q2], q3);
    assert [] + [q1] == [q1] && [q1] + [q2] == [q1, q2] && [q1, q2] + [q3] == [q1, q2, q3];
    assert Answer([]) + SET_REPLY == SET_REPLY;
  }
}
