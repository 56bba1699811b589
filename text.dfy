/**
  Characters, character classes and decimal numbers, as the regular
  expressions and conversions of camctrl.rb see them.
*/
module Text {
  import opened Options

  /** `\s` of a Ruby regular expression: space, tab, line feed, vertical tab, form feed, carriage return. */
  predicate IsSpace(c: char) {
    c == ' ' || c == '\t' || c == '\n' || c == '\r' || c as int == 11 || c as int == 12
  }

  /** `\d` and `[0-9]`. */
  predicate IsDigit(c: char) {
    '0' <= c <= '9'
  }

  /** `\w`: ASCII letters, digits and the underscore. */
  predicate IsWordChar(c: char) {
    'a' <= c <= 'z' || 'A' <= c <= 'Z' || IsDigit(c) || c == '_'
  }

  /** The character classes a greedy run in the patterns repeats. */
  datatype CharClass = Space | Digit | Word | NonSpace

  predicate InClass(c: char, k: CharClass) {
    match k
    case Space => IsSpace(c)
    case Digit => IsDigit(c)
    case Word => IsWordChar(c)
    case NonSpace => !IsSpace(c)
  }

  predicate AllIn(s: string, k: CharClass) {
    forall i :: 0 <= i < |s| ==> InClass(s[i], k)
  }

  /** Length of the longest prefix of `s` made of class `k`: what a greedy `k*` consumes. */
  function Span(s: string, k: CharClass): (n: nat)
    ensures n <= |s|
    ensures AllIn(s[..n], k)
    ensures n < |s| ==> !InClass(s[n], k)
  {
    if |s| > 0 && InClass(s[0], k) then 1 + Span(s[1..], k) else 0
  }

  /** A greedy run never stops inside a prefix of its class, and stops at the first character outside it. */
  lemma {:induction false} SpanConcat(p: string, q: string, k: CharClass)
    requires AllIn(p, k)
    ensures Span(p + q, k) == |p| + Span(q, k)
  {
    if |p| > 0 {
      assert (p + q)[1..] == p[1..] + q;
      assert AllIn(p[1..], k) by {
        forall i | 0 <= i < |p[1..]| ensures InClass(p[1..][i], k) {
          assert p[1..][i] == p[i + 1];
        }
      }
      SpanConcat(p[1..], q, k);
    } else {
      assert p + q == q;
    }
  }

  /** `s` with its leading `\s` run removed. */
  function StripLeading(s: string): string {
    s[Span(s, Space)..]
  }

  /** What stripping leaves: a suffix of `s` that starts with a non-blank, behind a run of blanks. */
  lemma StripLeadingSuffix(s: string)
    ensures var r := StripLeading(s);
            && |r| <= |s| && r == s[|s| - |r|..]
            && (r != [] ==> !IsSpace(r[0]))
            && AllIn(s[..|s| - |r|], Space)
  {
  }

  /** A blank in front changes nothing once leading blanks are stripped. */
  lemma StripBlank(x: string)
    ensures StripLeading(" " + x) == StripLeading(x)
  {
    assert (" " + x)[1..] == x;
  }

  predicate StartsWith(s: string, p: string) {
    |p| <= |s| && s[..|p|] == p
  }

  /** A string starting with a non-empty prefix starts with the prefix's first character. */
  lemma StartsWithFirst(s: string, p: string)
    ensures StartsWith(s, p) && p != [] ==> s != [] && s[0] == p[0]
  {
    if StartsWith(s, p) && p != [] {
      assert s[..|p|][0] == s[0];
    }
  }

  predicate OccursAt(s: string, p: string, i: nat) {
    i + |p| <= |s| && s[i..i + |p|] == p
  }

  /** An occurrence starts with the pattern's first character. */
  lemma OccursAtFirst(s: string, p: string, i: nat)
    ensures OccursAt(s, p, i) && p != [] ==> s[i] == p[0]
  {
    if OccursAt(s, p, i) && p != [] {
      assert s[i..i + |p|][0] == s[i];
    }
  }

  /** The first position at or after `i` where `p` occurs in `s`. */
  function FindFrom(s: string, p: string, i: nat): (r: Option<nat>)
    requires i <= |s|
    ensures r.Some? ==> i <= r.value && OccursAt(s, p, r.value)
    ensures r.Some? ==> forall j :: i <= j < r.value ==> !OccursAt(s, p, j)
    ensures r.None? ==> forall j :: i <= j ==> !OccursAt(s, p, j)
    decreases |s| - i
  {
    if OccursAt(s, p, i) then Some(i)
    else if i == |s| then None
    else FindFrom(s, p, i + 1)
  }

  /** Ruby's `s =~ /p/` for a pattern `p` without metacharacters. */
  predicate Contains(s: string, p: string)
    ensures Contains(s, p) <==> exists j :: OccursAt(s, p, j)
  {
    FindFrom(s, p, 0).Some?
  }

  // ---------- Decimal numbers

  function DigitChar(d: nat): (c: char)
    requires d < 10
    ensures IsDigit(c)
  {
    ('0' as int + d) as char
  }

  function DigitValue(c: char): (d: nat)
    requires IsDigit(c)
    ensures d < 10 && DigitChar(d) == c
  {
    (c as int - '0' as int) as nat
  }

  /** The value of a run of decimal digits, most significant first. */
  function DigitsValue(d: string): nat
    requires AllIn(d, Digit)
  {
    if d == [] then 0 else DigitsValue(d[..|d| - 1]) * 10 + DigitValue(d[|d| - 1])
  }

  /** Ruby's `Integer#to_s` on a non-negative integer. */
  function NatToString(n: nat): (d: string)
    ensures d != [] && AllIn(d, Digit)
    ensures DigitsValue(d) == n
    ensures (d[0] == '0') <==> n == 0
  {
    if n < 10 then [DigitChar(n)]
    else
      var d := NatToString(n / 10) + [DigitChar(n % 10)];
      assert d[..|d| - 1] == NatToString(n / 10);
      d
  }

  /** Ruby's `Integer#to_s`, which is also what string interpolation of an integer gives. */
  function IntToString(i: int): (d: string)
    ensures d != []
    ensures i < 0 <==> d[0] == '-'
  {
    if i < 0 then "-" + NatToString(-i) else NatToString(i)
  }

  /**
    The number a token starts with: an optional sign and a run of digits, 0
    when there are none. This is the integral part of what Ruby's `to_f`
    reads from the same token.
  */
  function LeadingInt(s: string): int {
    var signed := |s| > 0 && (s[0] == '-' || s[0] == '+');
    var body := if signed then s[1..] else s;
    var magnitude: int := DigitsValue(body[..Span(body, Digit)]);
    if signed && s[0] == '-' then -magnitude else magnitude
  }

  /** Reading back a printed integer gives that integer. */
  lemma LeadingIntOfIntToString(i: int)
    ensures LeadingInt(IntToString(i)) == i
  {
    var s := IntToString(i);
    var n: nat := if i < 0 then -i else i;
    var d := NatToString(n);
    var body := if i < 0 then s[1..] else s;
    assert body == d;
    SpanConcat(d, [], Digit);
    assert d + [] == d;
    assert body[..Span(body, Digit)] == d;
  }
}
