/** Bytes and the decimal numbers written in them. */
module Decimals {

  type Byte = b: int | 0 <= b < 256

  const COLON: Byte := 58
  const NEWLINE: Byte := 10
  const SPACE: Byte := 32

  predicate IsDigit(b: Byte) {
    48 <= b <= 57
  }

  /** The decimal numeral of `n`, without leading zeros. */
  function Decimal(n: nat): (s: seq<Byte>)
    ensures s != [] && forall i :: 0 <= i < |s| ==> IsDigit(s[i])
  {
    if n < 10 then [48 + n] else Decimal(n / 10) + [48 + n % 10]
  }

  /** The value of a digit string. */
  function Value(s: seq<Byte>): nat
    requires forall i :: 0 <= i < |s| ==> IsDigit(s[i])
  {
    if s == [] then 0
    else
      assert IsDigit(s[|s| - 1]);
      var digit: int := s[|s| - 1];
      10 * Value(s[..|s| - 1]) + (digit - 48)
  }

  lemma {:induction false} ValueOfDecimal(n: nat)
    ensures Value(Decimal(n)) == n
  {
    var s := Decimal(n);
    if n < 10 {
      assert s[..0] == [];
    } else {
      ValueOfDecimal(n / 10);
      assert s[..|s| - 1] == Decimal(n / 10);
    }
  }

  /** The position of the first `b` at or after `from`, or the end. */
  function FirstIndex(s: seq<Byte>, b: Byte, from: nat): (i: nat)
    requires from <= |s|
    ensures from <= i <= |s|
    ensures i < |s| ==> s[i] == b
    ensures forall j :: from <= j < i ==> s[j] != b
    decreases |s| - from
  {
    if from == |s| || s[from] == b then from else FirstIndex(s, b, from + 1)
  }

  /** The first `b` in `s` is the one right after a prefix free of it. */
  lemma IndexAfter(s: seq<Byte>, b: Byte, from: nat, i: nat)
    requires from <= i < |s| && s[i] == b && forall j :: from <= j < i ==> s[j] != b
    ensures FirstIndex(s, b, from) == i
  {
  }

  lemma {:induction false} IndexOfNone(s: seq<Byte>, b: Byte, from: nat)
    requires from <= |s| && b !in s
    ensures FirstIndex(s, b, from) == |s|
    decreases |s| - from
  {
    if from < |s| {
      assert s[from] in s;
      IndexOfNone(s, b, from + 1);
    }
  }

  lemma SplitEqual(a: seq<Byte>, x: seq<Byte>, b: seq<Byte>, y: seq<Byte>)
    requires a + x == b + y && |a| == |b|
    ensures a == b && x == y
  {
    assert (a + x)[..|a|] == a && (b + y)[..|b|] == b;
    assert (a + x)[|a|..] == x && (b + y)[|b|..] == y;
  }
}
