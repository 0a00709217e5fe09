/** src/protocol/wire.cpp and the request encoder in client/client.cpp: argument lists as request bodies. */
module Wire {
  import opened Base
  import opened Codec

  const MAX_ARGS: nat := 200 * 1000
  const MAX_MSG: nat := 32 * 1024

  // ---- send_command's body ----

  function EncodeArgs(args: seq<Bytes>): Bytes {
    if args == [] then [] else U32(|args[0]|) + args[0] + EncodeArgs(args[1..])
  }

  function EncodeReq(args: seq<Bytes>): Bytes { U32(|args|) + EncodeArgs(args) }

  /** send_command: [u32 nstr] then [u32 len][bytes] for each argument. */
  method BuildBody(args: seq<Bytes>) returns (body: Bytes)
    ensures body == EncodeReq(args)
  {
    body := U32(|args|);
    for i := 0 to |args|
      invariant body + EncodeArgs(args[i..]) == EncodeReq(args)
    {
      assert args[i..][1..] == args[i + 1..];
      body := body + U32(|args[i]|);
      body := body + args[i];
    }
    assert args[|args|..] == [];
  }

  // ---- parse_req ----

  /** n length-prefixed strings and nothing after them. */
  function ParseArgs(b: Bytes, n: nat): Option<seq<Bytes>>
    decreases n
  {
    if n == 0 then if b == [] then Some([]) else None
    else if |b| < 4 then None
    else
      var len := ReadU32(b);
      if |b| < 4 + len then None else
      match ParseArgs(b[4 + len..], n - 1)
      case None => None
      case Some(rest) => Some([b[4..4 + len]] + rest)
  }

  function Parse(body: Bytes): Option<seq<Bytes>> {
    if |body| < 4 then None
    else if ReadU32(body) > MAX_ARGS then None
    else ParseArgs(body[4..], ReadU32(body))
  }

  function Prepend(out: seq<Bytes>, r: Option<seq<Bytes>>): Option<seq<Bytes>> {
    match r case None => None case Some(rest) => Some(out + rest)
  }

  lemma {:induction false} PrependNone(r: Option<seq<Bytes>>)
    ensures Prepend([], r) == r
  {
    if r.Some? { assert [] + r.value == r.value; }
  }

  /** The arguments found so far, then those in the bytes from pos on. */
  ghost function Parsed(out: seq<Bytes>, data: Bytes, pos: nat, nstr: nat): Option<seq<Bytes>>
    requires pos <= |data| && |out| <= nstr
  {
    Prepend(out, ParseArgs(data[pos..], nstr - |out|))
  }

  /** Taking one argument off the front of the remaining bytes. */
  lemma {:induction false} ParseOne(data: Bytes, pos: nat, nstr: nat, out: seq<Bytes>)
    requires pos <= |data| && |out| < nstr
    ensures pos + 4 > |data| || pos + 4 + ReadU32(data[pos..]) > |data| ==> Parsed(out, data, pos, nstr) == None
    ensures pos + 4 <= |data| ==> var len := ReadU32(data[pos..]); pos + 4 + len <= |data| ==>
      Parsed(out, data, pos, nstr) == Parsed(out + [data[pos + 4..pos + 4 + len]], data, pos + 4 + len, nstr)
  {
    var b := data[pos..];
    if pos + 4 <= |data| && pos + 4 + ReadU32(b) <= |data| {
      var len := ReadU32(b);
      var a, rest := data[pos + 4..pos + 4 + len], data[pos + 4 + len..];
      assert b[4..4 + len] == a && b[4 + len..] == rest;
      var r := ParseArgs(rest, nstr - |out| - 1);
      if r.Some? { Reassociate(out, [a], r.value); }
    }
  }

  lemma {:induction false} ParsedAll(out: seq<Bytes>, data: Bytes, pos: nat)
    requires pos <= |data|
    ensures Parsed(out, data, pos, |out|) == if pos == |data| then Some(out) else None
  {
    assert out + [] == out;
  }

  /** parse_req on an empty out vector: 0 and the arguments, or -1. */
  method ParseReq(data: Bytes) returns (rc: int, out: seq<Bytes>)
    ensures rc == 0 || rc == -1
    ensures rc == 0 ==> Parse(data) == Some(out)
    ensures rc == -1 ==> Parse(data) == None
  {
    out := [];
    if |data| < 4 { return -1, out; }
    var nstr := ReadU32(data);
    var pos := 4;
    if nstr > MAX_ARGS { return -1, out; }
    PrependNone(ParseArgs(data[pos..], nstr));
    while |out| < nstr
      invariant 4 <= pos <= |data| && |out| <= nstr
      invariant Parse(data) == Parsed(out, data, pos, nstr)
    {
      ParseOne(data, pos, nstr, out);
      if pos + 4 > |data| { return -1, out; }
      var len := ReadU32(data[pos..]);
      pos := pos + 4;
      if pos + len > |data| { return -1, out; }
      out := out + [data[pos..pos + len]];
      pos := pos + len;
    }
    ParsedAll(out, data, pos);
    if pos != |data| { return -1, out; }
    rc := 0;
  }

  /** Requests whose counts and lengths the format can carry. */
  predicate Sendable(args: seq<Bytes>) { |args| <= MAX_ARGS && forall i :: 0 <= i < |args| ==> |args[i]| < TWO32 }

  lemma {:induction false} ArgFront(a: Bytes, e: Bytes)
    requires |a| < TWO32
    ensures var b := U32(|a|) + a + e; ReadU32(b) == |a| && b[4..4 + |a|] == a && b[4 + |a|..] == e
  {
    assert U32(|a|) + a + e == U32(|a|) + (a + e);
    U32RoundTrip(|a|, a + e);
  }

  lemma {:induction false} ParseArgsEncode(args: seq<Bytes>)
    requires forall i :: 0 <= i < |args| ==> |args[i]| < TWO32
    ensures ParseArgs(EncodeArgs(args), |args|) == Some(args)
  {
    if args != [] {
      ArgFront(args[0], EncodeArgs(args[1..]));
      ParseArgsEncode(args[1..]);
      assert [args[0]] + args[1..] == args;
    }
  }

  /** One argument off the front of the bytes is one argument in front of the list. */
  lemma {:induction false} ArgBack(b: Bytes, len: nat, rest: seq<Bytes>)
    requires |b| >= 4 + len && U32(len) == b[..4] && EncodeArgs(rest) == b[4 + len..]
    ensures EncodeArgs([b[4..4 + len]] + rest) == b
  {
    assert ([b[4..4 + len]] + rest)[1..] == rest;
    assert b == b[..4] + b[4..4 + len] + b[4 + len..];
  }

  lemma {:induction false} EncodeParseArgs(b: Bytes, n: nat)
    ensures var r := ParseArgs(b, n);
      r.Some? ==> |r.value| == n && EncodeArgs(r.value) == b && forall i :: 0 <= i < n ==> |r.value[i]| < TWO32
    decreases n
  {
    var r := ParseArgs(b, n);
    if r.Some? && n > 0 {
      var len := ReadU32(b);
      U32Back(b);
      EncodeParseArgs(b[4 + len..], n - 1);
      ArgBack(b, len, ParseArgs(b[4 + len..], n - 1).value);
    }
  }

  /** The parser accepts exactly the encodings of sendable argument lists, and returns the list encoded. */
  lemma {:induction false} ParseIff(body: Bytes, args: seq<Bytes>)
    ensures Parse(body) == Some(args) <==> Sendable(args) && body == EncodeReq(args)
  {
    if Sendable(args) && body == EncodeReq(args) {
      U32RoundTrip(|args|, EncodeArgs(args));
      assert body[4..] == EncodeArgs(args);
      ParseArgsEncode(args);
    }
    if Parse(body) == Some(args) {
      U32Back(body);
      EncodeParseArgs(body[4..], ReadU32(body));
      assert body == body[..4] + body[4..];
    }
  }

  lemma {:induction false} ArgsLength(args: seq<Bytes>)
    ensures |EncodeArgs(args)| >= 4 * |args| && forall i :: 0 <= i < |args| ==> |args[i]| <= |EncodeArgs(args)|
  {
    if args != [] {
      ArgsLength(args[1..]);
      forall i | 0 < i < |args| ensures |args[i]| <= |EncodeArgs(args)| { assert args[i] == args[1..][i - 1]; }
    }
  }

  /** An encoded list is read back exactly if it has at most 200000 arguments, each of a length that fits in 32 bits. */
  lemma {:induction false} ReadBackIff(args: seq<Bytes>)
    ensures Parse(EncodeReq(args)) == Some(args) <==>
      |args| <= 200_000 && forall i :: 0 <= i < |args| ==> |args[i]| < 0x1_0000_0000
  {
    ParseIff(EncodeReq(args), args);
  }

  /** Whatever fits in a frame is read back, so the limit on arguments never refuses a request that a frame carries. */
  lemma {:induction false} FrameReadBack(args: seq<Bytes>)
    requires |EncodeReq(args)| <= 32 * 1024
    ensures Parse(EncodeReq(args)) == Some(args)
  {
    ArgsLength(args);
    ReadBackIff(args);
  }
}
