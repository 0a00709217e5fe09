/** src/protocol/serialize.cpp and the decoder in client/client.cpp: typed reply values as bytes. */
module Codec {
  import opened Base

  datatype Value =
    | Nil
    | Err(code: int, msg: Bytes)
    | Str(s: Bytes)
    | Int(n: int)
    | Dbl(x: Score)
    | Arr(vs: seq<Value>)

  const SER_NIL: Byte := 0
  const SER_ERR: Byte := 1
  const SER_STR: Byte := 2
  const SER_INT: Byte := 3
  const SER_DBL: Byte := 4
  const SER_ARR: Byte := 5

  // ---- little-endian words ----

  function Pow256(k: nat): (p: nat)
    ensures p > 0
  {
    if k == 0 then 1 else 256 * Pow256(k - 1)
  }

  /** The k low bytes of n, least significant first. */
  function LE(n: nat, k: nat): (b: Bytes)
    ensures |b| == k
    decreases k, n
  {
    if k == 0 then [] else [n % 256] + LE(n / 256, k - 1)
  }

  function ReadLE(b: Bytes, k: nat): (n: nat)
    requires |b| >= k
    ensures n < Pow256(k)
    decreases k, b
  {
    if k == 0 then 0 else (b[0] as int) + 256 * ReadLE(b[1..], k - 1)
  }

  lemma {:induction false} LERead(n: nat, k: nat, rest: Bytes)
    requires n < Pow256(k)
    ensures ReadLE(LE(n, k) + rest, k) == n
    decreases k
  {
    if k > 0 {
      assert (LE(n, k) + rest)[1..] == LE(n / 256, k - 1) + rest;
      LERead(n / 256, k - 1, rest);
    }
  }

  lemma {:induction false} ReadLEBack(b: Bytes, k: nat)
    requires |b| >= k
    ensures LE(ReadLE(b, k), k) == b[..k]
    decreases k
  {
    if k > 0 {
      ReadLEBack(b[1..], k - 1);
      var n := ReadLE(b[1..], k - 1);
      assert ((b[0] as int) + 256 * n) / 256 == n && ((b[0] as int) + 256 * n) % 256 == b[0];
      assert b[..k] == [b[0]] + b[1..][..k - 1];
    }
  }

  lemma Widths()
    ensures Pow256(4) == TWO32 && Pow256(8) == TWO32 * TWO32
  {
    assert Pow256(1) == 256 && Pow256(2) == 65536 && Pow256(3) == 16777216;
    assert Pow256(5) == 256 * TWO32 && Pow256(6) == 65536 * TWO32 && Pow256(7) == 16777216 * TWO32;
  }

  /** memcpy of a uint32_t; the cast keeps the low 32 bits. */
  function U32(n: int): (b: Bytes)
    ensures |b| == 4
  {
    LE(n % TWO32, 4)
  }

  function ReadU32(b: Bytes): (n: nat)
    requires |b| >= 4
    ensures n < TWO32
  {
    Widths();
    ReadLE(b, 4)
  }

  /** memcpy of an int64_t in two's complement. */
  function I64(n: int): (b: Bytes)
    ensures |b| == 8
  {
    LE(n % (TWO32 * TWO32), 8)
  }

  function ReadI64(b: Bytes): (n: int)
    requires |b| >= 8
    ensures -0x8000_0000_0000_0000 <= n < 0x8000_0000_0000_0000
  {
    Widths();
    var u := ReadLE(b, 8);
    if u < 0x8000_0000_0000_0000 then u else u - TWO32 * TWO32
  }

  // ---- the encoder ----

  function Encode(v: Value): (b: Bytes)
    ensures |b| >= 1
    decreases v, 1
  {
    match v
    case Nil => [SER_NIL]
    case Err(code, msg) => [SER_ERR] + U32(code) + U32(|msg|) + msg
    case Str(s) => [SER_STR] + U32(|s|) + s
    case Int(n) => [SER_INT] + I64(n)
    case Dbl(x) => [SER_DBL] + x.bits
    case Arr(vs) => [SER_ARR] + U32(|vs|) + EncodeAll(vs)
  }

  function EncodeAll(vs: seq<Value>): Bytes
    decreases vs, 0
  {
    if vs == [] then [] else Encode(vs[0]) + EncodeAll(vs[1..])
  }

  // ---- the client's decoder ----

  /** print_value: the value at the front of b and the bytes it takes; None where print_value returns -1.
      A double decodes to its eight bytes; doubles(bytes) is the number they denote. */
  function Decode(b: Bytes, doubles: Bytes -> int): (r: Option<(Value, nat)>)
    ensures r.Some? ==> 1 <= r.value.1 <= |b|
    decreases |b|, 0, 1
  {
    if |b| < 1 then None
    else if b[0] == SER_NIL then Some((Nil, 1))
    else if b[0] == SER_INT then if |b| < 9 then None else Some((Int(ReadI64(b[1..])), 9))
    else if b[0] == SER_DBL then if |b| < 9 then None else Some((Dbl(Score(doubles(b[1..9]), b[1..9])), 9))
    else if b[0] == SER_STR then
      if |b| < 5 then None else
      var len := ReadU32(b[1..]);
      if |b| < 5 + len then None else Some((Str(b[5..5 + len]), 5 + len))
    else if b[0] == SER_ERR then
      if |b| < 9 then None else
      var code, len := ReadU32(b[1..]), ReadU32(b[5..]);
      if |b| < 9 + len then None else Some((Err(code, b[9..9 + len]), 9 + len))
    else if b[0] == SER_ARR then
      if |b| < 5 then None else
      match DecodeAll(b[5..], ReadU32(b[1..]), doubles)
      case None => None
      case Some((vs, used)) => Some((Arr(vs), 5 + used))
    else None
  }

  /** The array loop of print_value: n values in a row. */
  function DecodeAll(b: Bytes, n: nat, doubles: Bytes -> int): (r: Option<(seq<Value>, nat)>)
    ensures r.Some? ==> r.value.1 <= |b| && |r.value.0| == n
    decreases |b|, n, 0
  {
    if n == 0 then Some(([], 0)) else
    match Decode(b, doubles)
    case None => None
    case Some((v, c)) =>
      match DecodeAll(b[c..], n - 1, doubles)
      case None => None
      case Some((vs, used)) => Some(([v] + vs, c + used))
  }

  // ---- decode undoes encode, and only encodings decode ----

  /** Every length and number fits the width the format gives it. */
  ghost predicate Fits(v: Value, doubles: Bytes -> int) {
    match v
    case Nil => true
    case Err(code, msg) => 0 <= code < TWO32 && |msg| < TWO32
    case Str(s) => |s| < TWO32
    case Int(n) => -0x8000_0000_0000_0000 <= n < 0x8000_0000_0000_0000
    case Dbl(x) => |x.bits| == 8 && x.ord == doubles(x.bits)
    case Arr(vs) => |vs| < TWO32 && forall i :: 0 <= i < |vs| ==> Fits(vs[i], doubles)
  }

  lemma {:induction false} U32RoundTrip(n: nat, rest: Bytes)
    requires n < TWO32
    ensures ReadU32(U32(n) + rest) == n
  {
    Widths();
    WordRead(n, U32(n), 4, rest);
  }

  /** Reading a word of k bytes back. */
  lemma {:induction false} WordRead(n: nat, word: Bytes, k: nat, rest: Bytes)
    requires n < Pow256(k) && word == LE(n, k)
    ensures |word + rest| >= k && ReadLE(word + rest, k) == n
  {
    LERead(n, k, rest);
  }

  lemma {:induction false} I64RoundTrip(n: int, rest: Bytes)
    requires -0x8000_0000_0000_0000 <= n < 0x8000_0000_0000_0000
    ensures ReadI64(I64(n) + rest) == n
  {
    Widths();
    LERead(n % (TWO32 * TWO32), 8, rest);
  }

  lemma {:induction false} U32Back(b: Bytes)
    requires |b| >= 4
    ensures U32(ReadU32(b)) == b[..4]
  {
    Widths();
    ReadLEBack(b, 4);
  }

  lemma {:induction false} I64Back(b: Bytes)
    requires |b| >= 8
    ensures I64(ReadI64(b)) == b[..8]
  {
    Widths();
    ReadLEBack(b, 8);
    var u := ReadLE(b, 8);
    Wraps(u, TWO32 * TWO32);
  }

  lemma Wraps(u: nat, n: nat)
    requires u < n
    ensures (u - n) % n == u && u % n == u
  {}

  lemma {:induction false} DecodeErr(code: int, msg: Bytes, rest: Bytes, doubles: Bytes -> int)
    requires 0 <= code < TWO32 && |msg| < TWO32
    ensures Decode([SER_ERR] + U32(code) + U32(|msg|) + msg + rest, doubles) == Some((Err(code, msg), 9 + |msg|))
  {
    var b := [SER_ERR] + U32(code) + U32(|msg|) + msg + rest;
    assert b[1..] == U32(code) + (U32(|msg|) + msg + rest);
    assert b[5..] == U32(|msg|) + (msg + rest);
    U32RoundTrip(code, U32(|msg|) + msg + rest);
    U32RoundTrip(|msg|, msg + rest);
    assert b[9..9 + |msg|] == msg;
  }

  lemma {:induction false} DecodeStr(s: Bytes, rest: Bytes, doubles: Bytes -> int)
    requires |s| < TWO32
    ensures Decode([SER_STR] + U32(|s|) + s + rest, doubles) == Some((Str(s), 5 + |s|))
  {
    var b := [SER_STR] + U32(|s|) + s + rest;
    assert b[1..] == U32(|s|) + (s + rest);
    U32RoundTrip(|s|, s + rest);
    assert b[5..5 + |s|] == s;
  }

  lemma {:induction false} DecodeNum(n: int, x: Score, rest: Bytes, doubles: Bytes -> int)
    requires -0x8000_0000_0000_0000 <= n < 0x8000_0000_0000_0000 && |x.bits| == 8 && x.ord == doubles(x.bits)
    ensures Decode([SER_INT] + I64(n) + rest, doubles) == Some((Int(n), 9))
    ensures Decode([SER_DBL] + x.bits + rest, doubles) == Some((Dbl(x), 9))
  {
    var b, d := [SER_INT] + I64(n) + rest, [SER_DBL] + x.bits + rest;
    assert b[1..] == I64(n) + rest;
    I64RoundTrip(n, rest);
    assert d[1..9] == x.bits;
  }

  lemma {:induction false} DecodeArr(n: nat, body: Bytes, doubles: Bytes -> int)
    requires n < TWO32
    ensures Decode([SER_ARR] + U32(n) + body, doubles) ==
      match DecodeAll(body, n, doubles) case None => None case Some((vs, used)) => Some((Arr(vs), 5 + used))
  {
    var b := [SER_ARR] + U32(n) + body;
    assert b[1..] == U32(n) + body;
    U32RoundTrip(n, body);
    assert b[5..] == body;
  }

  lemma {:induction false} DecodeEncode(v: Value, rest: Bytes, doubles: Bytes -> int)
    requires Fits(v, doubles)
    ensures Decode(Encode(v) + rest, doubles) == Some((v, |Encode(v)|))
    decreases v, 1
  {
    match v
    case Nil =>
    case Err(code, msg) => DecodeErr(code, msg, rest, doubles);
    case Str(s) => DecodeStr(s, rest, doubles);
    case Int(n) => DecodeNum(n, Score(doubles(LE(0, 8)), LE(0, 8)), rest, doubles);
    case Dbl(x) => DecodeNum(0, x, rest, doubles);
    case Arr(vs) =>
      DecodeEncodeAll(vs, rest, doubles);
      DecodeWhole(vs, rest, doubles);
  }

  lemma {:induction false} DecodeWhole(vs: seq<Value>, rest: Bytes, doubles: Bytes -> int)
    requires |vs| < TWO32 && DecodeAll(EncodeAll(vs) + rest, |vs|, doubles) == Some((vs, |EncodeAll(vs)|))
    ensures Decode(Encode(Arr(vs)) + rest, doubles) == Some((Arr(vs), |Encode(Arr(vs))|))
  {
    var e := EncodeAll(vs);
    DecodeArr(|vs|, e + rest, doubles);
    assert [SER_ARR] + U32(|vs|) + e + rest == [SER_ARR] + U32(|vs|) + (e + rest);
  }

  lemma {:induction false} DecodeEncodeAll(vs: seq<Value>, rest: Bytes, doubles: Bytes -> int)
    requires forall i :: 0 <= i < |vs| ==> Fits(vs[i], doubles)
    ensures DecodeAll(EncodeAll(vs) + rest, |vs|, doubles) == Some((vs, |EncodeAll(vs)|))
    decreases vs, 0
  {
    if vs != [] {
      DecodeEncode(vs[0], EncodeAll(vs[1..]) + rest, doubles);
      DecodeEncodeAll(vs[1..], rest, doubles);
      var e, es := Encode(vs[0]), EncodeAll(vs[1..]);
      Reassociate(e, es, rest);
      DecodeOne(e + (es + rest), es + rest, vs[0], |e|, vs[1..], |es|, doubles);
      assert [vs[0]] + vs[1..] == vs;
    }
  }

  lemma Reassociate<T>(a: seq<T>, b: seq<T>, c: seq<T>)
    ensures (a + b) + c == a + (b + c) && (a + (b + c))[|a|..] == b + c
  {}

  /** One value, then the rest of the array. */
  lemma {:induction false} DecodeOne(b: Bytes, b': Bytes, v: Value, c: nat, vs: seq<Value>, used: nat,
      doubles: Bytes -> int)
    requires Decode(b, doubles) == Some((v, c)) && b[c..] == b' && DecodeAll(b', |vs|, doubles) == Some((vs, used))
    ensures DecodeAll(b, |vs| + 1, doubles) == Some(([v] + vs, c + used))
  {}

  lemma {:induction false} EncodeDecode(b: Bytes, doubles: Bytes -> int)
    ensures var r := Decode(b, doubles);
      r.Some? ==> Fits(r.value.0, doubles) && Encode(r.value.0) == b[..r.value.1]
    decreases |b|, 0, 1
  {
    var r := Decode(b, doubles);
    if r.Some? {
      var (v, k) := r.value;
      match v
      case Nil =>
      case Err(code, msg) =>
        U32Back(b[1..]);
        U32Back(b[5..]);
        assert b[..k] == [b[0]] + b[1..][..4] + b[5..][..4] + msg;
      case Str(s) =>
        U32Back(b[1..]);
        assert b[..k] == [b[0]] + b[1..][..4] + s;
      case Int(n) =>
        I64Back(b[1..]);
        assert b[..k] == [b[0]] + b[1..][..8];
      case Dbl(x) =>
        assert b[..k] == [b[0]] + x.bits;
      case Arr(vs) =>
        EncodeDecodeAll(b[5..], |vs|, doubles);
        ArrBack(b, vs, k);
    }
  }

  lemma {:induction false} ArrBack(b: Bytes, vs: seq<Value>, k: nat)
    requires 5 <= k <= |b| && b[0] == SER_ARR && |vs| == ReadU32(b[1..]) && EncodeAll(vs) == b[5..][..k - 5]
    ensures Encode(Arr(vs)) == b[..k]
  {
    U32Back(b[1..]);
    assert b[..k] == [b[0]] + b[1..][..4] + b[5..][..k - 5];
  }

  lemma {:induction false} EncodeDecodeAll(b: Bytes, n: nat, doubles: Bytes -> int)
    ensures var r := DecodeAll(b, n, doubles);
      r.Some? ==> (forall i :: 0 <= i < n ==> Fits(r.value.0[i], doubles)) && EncodeAll(r.value.0) == b[..r.value.1]
    decreases |b|, n, 0
  {
    if n > 0 && DecodeAll(b, n, doubles).Some? {
      EncodeDecode(b, doubles);
      var (v, c) := Decode(b, doubles).value;
      EncodeDecodeAll(b[c..], n - 1, doubles);
      var (vs, used) := DecodeAll(b[c..], n - 1, doubles).value;
      AllBack(b, v, c, vs, used);
    }
  }

  lemma {:induction false} AllBack(b: Bytes, v: Value, c: nat, vs: seq<Value>, used: nat)
    requires c + used <= |b| && Encode(v) == b[..c] && EncodeAll(vs) == b[c..][..used]
    ensures EncodeAll([v] + vs) == b[..c + used]
  {
    assert ([v] + vs)[1..] == vs;
    assert b[..c + used] == b[..c] + b[c..][..used];
  }

  /** The client reads back exactly what was sent if and only if everything fits its width. */
  lemma {:induction false} RoundTripIff(v: Value, doubles: Bytes -> int)
    ensures Decode(Encode(v), doubles) == Some((v, |Encode(v)|)) <==> Fits(v, doubles)
  {
    assert Encode(v) + [] == Encode(v);
    if Fits(v, doubles) { DecodeEncode(v, [], doubles); }
    EncodeDecode(Encode(v), doubles);
  }

  /** A reply cut short anywhere is reported as truncated, never misread. */
  lemma {:induction false} TruncatedRejected(v: Value, k: nat, doubles: Bytes -> int)
    requires Fits(v, doubles) && k < |Encode(v)|
    ensures Decode(Encode(v)[..k], doubles) == None
  {
    var b := Encode(v)[..k];
    EncodeDecode(b, doubles);
    if Decode(b, doubles).Some? {
      var (w, c) := Decode(b, doubles).value;
      DecodeEncode(w, Encode(v)[c..], doubles);
      assert Encode(w) + Encode(v)[c..] == Encode(v);
      RoundTripIff(v, doubles);
    }
  }

  lemma {:induction false} EncodeAllConcat(vs: seq<Value>, ws: seq<Value>)
    ensures EncodeAll(vs + ws) == EncodeAll(vs) + EncodeAll(ws)
    decreases |vs|
  {
    if vs == [] {
      assert vs + ws == ws;
    } else {
      assert (vs + ws)[1..] == vs[1..] + ws;
      EncodeAllConcat(vs[1..], ws);
    }
  }

  lemma {:induction false} EncodeOne(v: Value)
    ensures EncodeAll([v]) == Encode(v)
  {
    assert [v][1..] == [];
  }

  lemma {:induction false} EncodeTwo(v: Value, w: Value)
    ensures EncodeAll([v, w]) == Encode(v) + Encode(w)
  {
    assert [v, w][1..] == [w];
    EncodeOne(w);
  }

  // ---- the emitters ----

  /** The response buffer that the out_* functions append to. */
  class Out {
    var buf: Bytes

    constructor ()
      ensures buf == []
    {
      buf := [];
    }

    method OutNil()
      modifies this
      ensures buf == old(buf) + Encode(Nil)
    {
      buf := buf + [SER_NIL];
    }

    method OutStr(s: Bytes)
      modifies this
      ensures buf == old(buf) + Encode(Str(s))
    {
      buf := buf + [SER_STR];
      buf := buf + U32(|s|);
      buf := buf + s;
      assert buf == old(buf) + ([SER_STR] + U32(|s|) + s);
    }

    method OutInt(x: int)
      modifies this
      ensures buf == old(buf) + Encode(Int(x))
    {
      buf := buf + [SER_INT];
      buf := buf + I64(x);
      assert buf == old(buf) + ([SER_INT] + I64(x));
    }

    method OutDbl(x: Score)
      modifies this
      ensures buf == old(buf) + Encode(Dbl(x))
    {
      buf := buf + [SER_DBL];
      buf := buf + x.bits;
      assert buf == old(buf) + ([SER_DBL] + x.bits);
    }

    method OutErr(code: int, msg: Bytes)
      modifies this
      ensures buf == old(buf) + Encode(Err(code, msg))
    {
      buf := buf + [SER_ERR];
      buf := buf + U32(code);
      buf := buf + U32(|msg|);
      buf := buf + msg;
      assert buf == old(buf) + ([SER_ERR] + U32(code) + U32(|msg|) + msg);
    }

    /** Header only: with n values appended after it, one array. */
    method OutArr(n: nat)
      modifies this
      ensures buf == old(buf) + [SER_ARR] + U32(n)
    {
      buf := buf + [SER_ARR];
      buf := buf + U32(n);
    }

    /** Header with a placeholder count; ctx is the placeholder's offset. */
    method BeginArr() returns (ctx: nat)
      modifies this
      ensures buf == old(buf) + [SER_ARR] + U32(0) && ctx == |old(buf)| + 1
    {
      buf := buf + [SER_ARR];
      buf := buf + U32(0);
      ctx := |buf| - 4;
    }

    /** Patching the placeholder with the number of values appended since makes the whole one array value. */
    method EndArr(ctx: nat, n: nat, ghost pre: Bytes, ghost vs: seq<Value>)
      requires buf == pre + [SER_ARR] + U32(0) + EncodeAll(vs) && ctx == |pre| + 1 && n == |vs|
      modifies this
      ensures buf == pre + Encode(Arr(vs))
    {
      assert buf[..ctx] == pre + [SER_ARR] && buf[ctx + 4..] == EncodeAll(vs);
      buf := buf[..ctx] + U32(n) + buf[ctx + 4..];
      assert buf == pre + ([SER_ARR] + U32(|vs|) + EncodeAll(vs));
    }
  }
}
