/** Byte strings, scores and the (score, name) order shared by the whole model. */
module Base {

  type Byte = b: int | 0 <= b < 256
  type Bytes = seq<Byte>

  datatype Option<+T> = None | Some(value: T)

  /** A node address; nodes live in sequences of records, and 0 is null. */
  type Ptr = nat
  const NULL: Ptr := 0

  newtype Int64 = x: int | -0x8000_0000_0000_0000 <= x < 0x8000_0000_0000_0000

  /** Clock readings stay below this. */
  const TWO63: nat := 0x8000_0000_0000_0000
  const TWO31: nat := 0x8000_0000
  const TWO32: nat := 0x1_0000_0000
  const TWO64: nat := 0x1_0000_0000_0000_0000

  /** The value of an expression in uint32_t arithmetic. */
  function Wrap32(n: nat): nat { if n < TWO32 then n else Wrap32(n - TWO32) }

  lemma {:induction false} Wrap32IsMod(n: nat)
    ensures Wrap32(n) == n % TWO32
  {
    if n >= TWO32 { Wrap32IsMod(n - TWO32); }
  }

  lemma {:induction false} Wrap32Small(n: nat)
    ensures Wrap32(n) < TWO32 && Wrap32(n) <= n && (n < TWO32 <==> Wrap32(n) == n)
  {
    Wrap32IsMod(n);
  }

  lemma {:induction false} Wrap32Sum(a: nat, b: nat)
    ensures Wrap32(1 + Wrap32(a) + Wrap32(b)) == Wrap32(1 + a + b)
  {
    if a >= TWO32 {
      Wrap32Sum(a - TWO32, b);
    } else if b >= TWO32 {
      Wrap32Sum(a, b - TWO32);
    }
  }

  /** A count that goes past a left part, and then on to the end of the right one, goes at least as far as their sum. */
  lemma {:induction false} Wrap32Parts(a: nat, b: nat)
    ensures Wrap32(Wrap32(a) + 1) <= Wrap32(a) + 1 && Wrap32(Wrap32(a) + 1) <= TWO32
    ensures Wrap32(1 + a + b) <= Wrap32(Wrap32(a) + 1) + Wrap32(b)
    ensures a + 1 < TWO32 ==> Wrap32(Wrap32(a) + 1) == a + 1
  {
    Wrap32IsMod(a); Wrap32IsMod(b);
    Wrap32IsMod(1 + a + b); Wrap32IsMod(Wrap32(a) + 1);
  }

  function Min(a: int, b: int): int { if a <= b then a else b }

  function Max(a: int, b: int): int { if a >= b then a else b }

  ghost predicate NoDup<T>(s: seq<T>) {
    forall i, j :: 0 <= i < j < |s| ==> s[i] != s[j]
  }

  /** A non-NaN IEEE double as the program uses it: scores are compared through a total
      preorder (`ord`) and copied as eight bytes (`bits`). Two doubles that compare equal
      may still differ in their bytes (0.0 and -0.0). */
  datatype Score = Score(ord: int, bits: Bytes)

  /** Sign of memcmp over two byte strings of equal length. */
  function Memcmp(a: Bytes, b: Bytes): int
    requires |a| == |b|
  {
    if a == [] then 0
    else if a[0] != b[0] then a[0] - b[0]
    else Memcmp(a[1..], b[1..])
  }

  /** The name half of zless: memcmp over the common length, then the shorter name first. */
  predicate NameLess(a: Bytes, b: Bytes) {
    var n := Min(|a|, |b|);
    var rv := Memcmp(a[..n], b[..n]);
    if rv != 0 then rv < 0 else |a| < |b|
  }

  /** Tuple order on (score, name). */
  predicate PairLess(s1: Score, n1: Bytes, s2: Score, n2: Bytes) {
    if s1.ord != s2.ord then s1.ord < s2.ord else NameLess(n1, n2)
  }

  lemma {:induction false} NameLessStep(a: Bytes, b: Bytes)
    requires a != [] && b != [] && a[0] == b[0]
    ensures NameLess(a, b) == NameLess(a[1..], b[1..])
  {
    var n := Min(|a|, |b|);
    assert a[..n][1..] == a[1..][..n - 1];
    assert b[..n][1..] == b[1..][..n - 1];
  }

  /** Exactly one of <, =, > holds between two names. */
  lemma {:induction false} NameTrichotomy(a: Bytes, b: Bytes)
    ensures a == b ==> !NameLess(a, b)
    ensures a != b ==> NameLess(a, b) != NameLess(b, a)
    decreases |a|
  {
    if a != [] && b != [] && a[0] == b[0] {
      NameLessStep(a, b);
      NameLessStep(b, a);
      NameTrichotomy(a[1..], b[1..]);
      assert a == [a[0]] + a[1..] && b == [b[0]] + b[1..];
    }
  }

  lemma {:induction false} NameTransitive(a: Bytes, b: Bytes, c: Bytes)
    requires NameLess(a, b) && NameLess(b, c)
    ensures NameLess(a, c)
    decreases |a|
  {
    if a != [] && b != [] && c != [] && a[0] == b[0] && b[0] == c[0] {
      NameLessStep(a, b);
      NameLessStep(b, c);
      NameLessStep(a, c);
      NameTransitive(a[1..], b[1..], c[1..]);
    }
  }

  /** zless is a strict total order on pairs with distinct names. */
  lemma PairTrichotomy(s1: Score, n1: Bytes, s2: Score, n2: Bytes)
    ensures !PairLess(s1, n1, s1, n1)
    ensures n1 != n2 || s1.ord != s2.ord ==> PairLess(s1, n1, s2, n2) != PairLess(s2, n2, s1, n1)
  {
    NameTrichotomy(n1, n2);
    NameTrichotomy(n1, n1);
  }

  lemma PairTransitive(s1: Score, n1: Bytes, s2: Score, n2: Bytes, s3: Score, n3: Bytes)
    requires PairLess(s1, n1, s2, n2) && PairLess(s2, n2, s3, n3)
    ensures PairLess(s1, n1, s3, n3)
  {
    if s1.ord == s2.ord && s2.ord == s3.ord {
      NameTransitive(n1, n2, n3);
    }
  }

  // ---- the order in plain words ----

  /** Names a and b agree up to place i, and there a ends or has the smaller byte. */
  ghost predicate Splits(a: Bytes, b: Bytes, i: nat) {
    i <= |a| && i < |b| && a[..i] == b[..i] && (i < |a| ==> a[i] < b[i])
  }

  /** Lexicographic order. */
  ghost predicate Lex(a: Bytes, b: Bytes) { exists i: nat :: Splits(a, b, i) }

  /** Lower scores first, and names of equal scores in lexicographic order. */
  ghost predicate Precedes(s1: Score, n1: Bytes, s2: Score, n2: Bytes) {
    s1.ord < s2.ord || (s1.ord == s2.ord && Lex(n1, n2))
  }

  lemma {:induction false} LexStep(a: Bytes, b: Bytes)
    requires a != [] && b != [] && a[0] == b[0]
    ensures Lex(a, b) <==> Lex(a[1..], b[1..])
  {
    if Lex(a, b) {
      var i: nat :| Splits(a, b, i);
      assert i > 0;
      assert a[1..][..i - 1] == a[..i][1..] && b[1..][..i - 1] == b[..i][1..];
      assert Splits(a[1..], b[1..], i - 1);
    }
    if Lex(a[1..], b[1..]) {
      var i: nat :| Splits(a[1..], b[1..], i);
      assert a[..i + 1] == [a[0]] + a[1..][..i] && b[..i + 1] == [b[0]] + b[1..][..i];
      assert Splits(a, b, i + 1);
    }
  }

  lemma {:induction false} SplitsHead(a: Bytes, b: Bytes, i: nat)
    requires Splits(a, b, i)
    ensures i > 0 ==> a != [] && a[0] == b[0]
  {
    if i > 0 { assert a[..i][0] == a[0] && b[..i][0] == b[0]; }
  }

  lemma {:induction false} NameLessIs(a: Bytes, b: Bytes)
    ensures NameLess(a, b) <==> Lex(a, b)
    decreases |a|
  {
    if a != [] && b != [] && a[0] == b[0] {
      NameLessStep(a, b);
      LexStep(a, b);
      NameLessIs(a[1..], b[1..]);
    } else if Lex(a, b) {
      var i: nat :| Splits(a, b, i);
      SplitsHead(a, b, i);
    } else {
      assert !Splits(a, b, 0);
    }
  }

  /** zless is that order. */
  lemma {:induction false} PairLessIs(s1: Score, n1: Bytes, s2: Score, n2: Bytes)
    ensures PairLess(s1, n1, s2, n2) <==> Precedes(s1, n1, s2, n2)
  {
    NameLessIs(n1, n2);
  }
}
