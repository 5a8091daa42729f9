/** Text helpers shared by the message formats: substring containment and the decimal
    rendering that Python's f-strings apply to an `int`. */
module Text {
  import opened Wrappers

  /** `part` occurs somewhere inside `whole` (Python's `part in whole`). */
  predicate IsInfix(part: string, whole: string)
    decreases |whole|
  {
    part <= whole || (|whole| > 0 && IsInfix(part, whole[1..]))
  }

  lemma {:induction false} InfixOfConcat(before: string, part: string, after: string)
    ensures IsInfix(part, before + part + after)
    decreases |before|
  {
    if before == [] {
      assert before + part + after == part + after;
    } else {
      assert (before + part + after)[1..] == before[1..] + part + after;
      InfixOfConcat(before[1..], part, after);
    }
  }

  /** What occurs in a text still occurs once more text is put in front of it. */
  lemma {:induction false} InfixExtendLeft(part: string, before: string, whole: string)
    requires IsInfix(part, whole)
    ensures IsInfix(part, before + whole)
    decreases |before|
  {
    if before == [] {
      assert before + whole == whole;
    } else {
      assert (before + whole)[1..] == before[1..] + whole;
      InfixExtendLeft(part, before[1..], whole);
    }
  }

  /** Both inserted pieces occur in a text built as `a + x + b + y`. */
  lemma InfixOfFour(a: string, x: string, b: string, y: string)
    ensures IsInfix(x, a + x + b + y) && IsInfix(y, a + x + b + y)
  {
    InfixOfConcat(a, x, b + y);
    Associative(a + x, b, y);
    InfixOfConcat(a + x + b, y, []);
    assert a + x + b + y + [] == a + x + b + y;
  }

  /** Both outer pieces occur in a text built as `x + b + y`. */
  lemma InfixOfThree(x: string, b: string, y: string)
    ensures IsInfix(x, x + b + y) && IsInfix(y, x + b + y)
  {
    InfixOfFour([], x, b, y);
    assert [] + x == x;
  }

  /** Both inserted pieces occur in a text built as `a + x + b + y + c`. */
  lemma InfixOfFive(a: string, x: string, b: string, y: string, c: string)
    ensures IsInfix(x, a + x + b + y + c) && IsInfix(y, a + x + b + y + c)
  {
    InfixOfConcat(a, x, b + y + c);
    Associative(a + x, b + y, c);
    Associative(a + x, b, y);
    InfixOfConcat(a + x + b, y, c);
  }

  predicate IsDigit(c: char) {
    '0' <= c <= '9'
  }

  predicate AllDigits(s: string) {
    forall i :: 0 <= i < |s| ==> IsDigit(s[i])
  }

  function DigitChar(d: nat): (c: char)
    requires d < 10
    ensures IsDigit(c)
  {
    (48 + d) as char
  }

  function DigitValue(c: char): (d: nat)
    requires IsDigit(c)
    ensures d < 10
  {
    c as int - 48
  }

  /** Decimal digits of `n`, most significant first, without leading zeros. */
  function NatToString(n: nat): (s: string)
    ensures |s| > 0 && AllDigits(s)
    ensures |s| > 1 ==> s[0] != '0'
  {
    if n < 10 then [DigitChar(n)] else NatToString(n / 10) + [DigitChar(n % 10)]
  }

  /** The value of a string of decimal digits. */
  function ParseNat(s: string): nat
    requires AllDigits(s)
  {
    if s == [] then 0 else ParseNat(s[..|s| - 1]) * 10 + DigitValue(s[|s| - 1])
  }

  lemma {:induction false} ParseNatToString(n: nat)
    ensures ParseNat(NatToString(n)) == n
  {
    if n >= 10 {
      var s := NatToString(n / 10);
      var t := s + [DigitChar(n % 10)];
      assert t[..|t| - 1] == s;
      ParseNatToString(n / 10);
    }
  }

  /** `str(i)` for a Python `int`: a minus sign before the digits of a negative value, and no
      leading zero in those digits. */
  function IntToString(i: int): (s: string)
    ensures IsIntString(s)
    ensures (s[0] == '-') <==> i < 0
    ensures var d := if i < 0 then s[1..] else s; |d| > 1 ==> d[0] != '0'
    ensures ' ' !in s
  {
    if i < 0 then
      var d := NatToString(-i);
      assert ("-" + d)[1..] == d;
      "-" + d
    else
      NatToString(i)
  }

  predicate IsIntString(s: string) {
    (|s| > 0 && AllDigits(s)) || (|s| > 1 && s[0] == '-' && AllDigits(s[1..]))
  }

  function ParseInt(s: string): int
    requires IsIntString(s)
  {
    if s[0] == '-' then -(ParseNat(s[1..]) as int) else ParseNat(s)
  }

  /** The rendering of an integer is read back as the same integer. */
  lemma IntToStringRoundTrip(i: int)
    ensures ParseInt(IntToString(i)) == i
  {
    if i < 0 {
      var s := IntToString(i);
      assert s[1..] == NatToString(-i);
      ParseNatToString(-i);
    } else {
      ParseNatToString(i);
    }
  }

  /** The index of the first `c` in `s`, or `|s|` when there is none. */
  function IndexOf(s: string, c: char): (i: nat)
    ensures i <= |s|
    ensures i < |s| ==> s[i] == c
    ensures forall j :: 0 <= j < i ==> s[j] != c
  {
    if s == [] then 0 else if s[0] == c then 0 else 1 + IndexOf(s[1..], c)
  }

  /** Splits `s` at the first occurrence of `c` (Python's `s.partition(c)`): the text before it
      and, when `c` occurs, the text after it. */
  function SplitFirst(s: string, c: char): (string, Option<string>) {
    var i := IndexOf(s, c);
    if i == |s| then (s, None) else (s[..i], Some(s[i + 1..]))
  }

  /** The two sides of a split, with `c` put back between them when it was found. */
  function Unsplit(r: (string, Option<string>), c: char): string {
    r.0 + (if r.1.Some? then [c] + r.1.value else [])
  }

  /** A split loses nothing, and the text before the split holds no `c`. */
  lemma SplitFirstJoins(s: string, c: char)
    ensures Unsplit(SplitFirst(s, c), c) == s
    ensures c !in SplitFirst(s, c).0
  {
    var i := IndexOf(s, c);
    if i < |s| {
      assert s == s[..i] + ([c] + s[i + 1..]);
    }
  }

  lemma SplitFirstAbsent(s: string, c: char)
    requires c !in s
    ensures SplitFirst(s, c) == (s, None)
  {
    assert forall j :: 0 <= j < |s| ==> s[j] in s;
  }

  /** Text before the first `c` does not change where the first `c` after it is. */
  lemma IndexOfPrefix(s: string, t: string, c: char)
    requires c !in s
    ensures IndexOf(s + t, c) == |s| + IndexOf(t, c)
  {
    var u := s + t;
    var i, k := IndexOf(u, c), IndexOf(t, c);
    assert forall j :: 0 <= j < |s| ==> u[j] == s[j] && s[j] in s;
    assert i >= |s|;
    var d := i - |s|;
    assert d < |t| ==> t[d] == u[i];
    assert forall j :: 0 <= j < d ==> t[j] == u[|s| + j];
  }

  lemma Associative(a: string, b: string, c: string)
    ensures a + (b + c) == a + b + c
  {
  }

  lemma DropPrefix(p: string, t: string)
    ensures (p + t)[..|p|] == p && (p + t)[|p|..] == t
  {
  }

  lemma SliceOfConcat(s: string, t: string, k: nat)
    requires k <= |t|
    ensures (s + t)[..|s| + k] == s + t[..k]
    ensures (s + t)[|s| + k..] == t[k..]
  {
  }

  /** A split at the first `c` only looks at the text up to that `c`. */
  lemma SplitFirstPrefix(s: string, t: string, c: char)
    requires c !in s
    ensures SplitFirst(s + t, c) == (s + SplitFirst(t, c).0, SplitFirst(t, c).1)
  {
    IndexOfPrefix(s, t, c);
    var k := IndexOf(t, c);
    SliceOfConcat(s, t, k);
    if k < |t| {
      SliceOfConcat(s, t, k + 1);
    }
  }
}
