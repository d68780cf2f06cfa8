/** The string primitives the Elasticsearch plugin relies on: number
    rendering, `slice`, `replace`, and `indexOf`, over `seq<char>`. */
module Strings {

  predicate IsDigit(c: char) {
    '0' <= c <= '9'
  }

  predicate AllDigits(s: string) {
    forall k :: 0 <= k < |s| ==> IsDigit(s[k])
  }

  function DigitChar(n: nat): (c: char)
    requires n < 10
    ensures IsDigit(c)
  {
    ('0' as int + n) as char
  }

  function DigitValue(c: char): (n: nat)
    requires IsDigit(c)
    ensures n < 10 && DigitChar(n) == c
  {
    c as int - '0' as int
  }

  /** Decimal rendering of a natural number without leading zeros, as
      JavaScript renders a non-negative integer when it is joined to a string. */
  function NatToString(n: nat): (s: string)
    ensures 1 <= |s| && AllDigits(s)
    ensures (n < 10) == (|s| == 1)
  {
    if n < 10 then [DigitChar(n)] else NatToString(n / 10) + [DigitChar(n % 10)]
  }

  /** The value of a string of decimal digits (leading zeros allowed). */
  function DecimalValue(s: string): nat
    requires AllDigits(s)
  {
    if s == [] then 0 else DecimalValue(s[..|s| - 1]) * 10 + DigitValue(s[|s| - 1])
  }

  /** Reading a rendered number back gives the number. */
  lemma {:induction false} DecimalValueOfNatToString(n: nat)
    ensures DecimalValue(NatToString(n)) == n
  {
    if n >= 10 {
      DecimalValueOfNatToString(n / 10);
      var s := NatToString(n);
      assert s[..|s| - 1] == NatToString(n / 10);
    }
  }

  /** Numbers from 1000 to 9999 render with exactly four digits. */
  lemma NatToStringFourDigits(n: nat)
    requires 1000 <= n < 10000
    ensures |NatToString(n)| == 4
  {
    assert |NatToString(n / 1000)| == 1;
    assert |NatToString(n / 100)| == 2;
    assert |NatToString(n / 10)| == 3;
  }

  /** JavaScript's `s.slice(k)` for a non-negative `k`: what is left of `s`
      once its first `k` characters are cut off, nothing when `k` is past
      the end. */
  function SliceFrom(s: string, k: nat): (r: string)
    ensures |r| == if k <= |s| then |s| - k else 0
    ensures k <= |s| ==> s[..k] + r == s
  {
    if k <= |s| then s[k..] else []
  }

  /** `s.replace(/from/g, to)` for a one-character pattern: the string keeps
      its length, no `from` is left (unless `to` is `from` itself), and
      every other character stays where it was. */
  function ReplaceAll(s: string, from: char, to: char): (r: string)
    ensures |r| == |s|
    ensures from != to ==> forall k :: 0 <= k < |r| ==> r[k] != from
    ensures forall k :: 0 <= k < |s| && s[k] != from ==> r[k] == s[k]
  {
    seq(|s|, k requires 0 <= k < |s| => if s[k] == from then to else s[k])
  }

  /** Replacing works a character at a time: nothing for the empty string,
      `to` for `from` and the character itself otherwise, and the pieces of
      a concatenation are replaced separately. */
  lemma ReplaceAllHomomorphic(a: string, b: string, c: char, from: char, to: char)
    ensures ReplaceAll([], from, to) == []
    ensures ReplaceAll([c], from, to) == [if c == from then to else c]
    ensures ReplaceAll(a + b, from, to) == ReplaceAll(a, from, to) + ReplaceAll(b, from, to)
  {
  }

  /** Three digit strings joined by `from` keep their digits and get `to`
      as their joints. */
  lemma ReplaceAllJoints(a: string, b: string, c: string, from: char, to: char)
    requires AllDigits(a) && AllDigits(b) && AllDigits(c) && !IsDigit(from)
    ensures ReplaceAll(a + [from] + b + [from] + c, from, to) == a + [to] + b + [to] + c
  {
    var t, e := a + [from] + b + [from] + c, a + [to] + b + [to] + c;
    var r := ReplaceAll(t, from, to);
    forall k | 0 <= k < |t|
      ensures r[k] == e[k]
    {
      if k < |a| {
        assert t[k] == a[k] && e[k] == a[k];
      } else if k == |a| {
        assert t[k] == from && e[k] == to;
      } else if k < |a| + 1 + |b| {
        assert t[k] == b[k - |a| - 1] && e[k] == b[k - |a| - 1];
      } else if k == |a| + 1 + |b| {
        assert t[k] == from && e[k] == to;
      } else {
        assert t[k] == c[k - |a| - |b| - 2] && e[k] == c[k - |a| - |b| - 2];
      }
    }
  }

  /** `sub` occurs in `s` at position `i`. */
  predicate OccursAt(s: string, sub: string, i: int) {
    0 <= i && i + |sub| <= |s| && s[i..i + |sub|] == sub
  }

  /** `s.indexOf(sub) !== -1`. */
  predicate Contains(s: string, sub: string) {
    exists i :: 0 <= i <= |s| - |sub| && OccursAt(s, sub, i)
  }

  lemma OccursAtTail(s: string, sub: string)
    requires 1 <= |s|
    ensures forall j :: 1 <= j ==> (OccursAt(s, sub, j) <==> OccursAt(s[1..], sub, j - 1))
  {
    forall j | 1 <= j
      ensures OccursAt(s, sub, j) <==> OccursAt(s[1..], sub, j - 1)
    {
      if j + |sub| <= |s| {
        var here, there := s[j..j + |sub|], s[1..][j - 1..j - 1 + |sub|];
        assert |here| == |there|;
        forall k | 0 <= k < |here| ensures here[k] == there[k] {
          assert there[k] == s[1..][j - 1 + k];
        }
        assert here == there;
      }
    }
  }

  /** JavaScript's `s.indexOf(sub)`: the first position where `sub` occurs,
      or -1 when it occurs nowhere. */
  function IndexOf(s: string, sub: string): (r: int)
    ensures -1 <= r
    ensures r == -1 ==> !Contains(s, sub)
    ensures 0 <= r ==> OccursAt(s, sub, r) && forall j :: 0 <= j < r ==> !OccursAt(s, sub, j)
    decreases |s|
  {
    if |s| < |sub| then -1
    else if s[..|sub|] == sub then 0
    else
      OccursAtTail(s, sub);
      var k := IndexOf(s[1..], sub);
      if k == -1 then -1 else k + 1
  }

  lemma IndexOfFindsContained(s: string, sub: string)
    ensures Contains(s, sub) <==> IndexOf(s, sub) != -1
  {
  }

  /** `s.replace(pattern, with)` for a string pattern: only the first
      occurrence is replaced; without one, `s` is returned unchanged. */
  function ReplaceFirst(s: string, pattern: string, with: string): (r: string)
    ensures !Contains(s, pattern) ==> r == s
    ensures Contains(s, pattern) ==>
      exists i :: OccursAt(s, pattern, i) && (forall j :: 0 <= j < i ==> !OccursAt(s, pattern, j))
                  && r == s[..i] + with + s[i + |pattern|..]
  {
    var i := IndexOf(s, pattern);
    if i == -1 then s else s[..i] + with + s[i + |pattern|..]
  }
}
