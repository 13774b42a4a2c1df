/** The optional value used for Java's `null` strings and for parse failures. */
module Wrappers {
  datatype Option<T> = None | Some(value: T)
}

/** The few `java.lang.String` and `java.lang.Integer` operations the game's text handling
    uses: `trim`, `toLowerCase` (over ASCII), `indexOf`, `split` on one character,
    `Integer.toString` and `Integer.parseInt` (over ASCII digits). */
module JavaText {
  import opened Wrappers
  import opened JavaInt

  // ---------------------------------------------------------------- trim

  /** The characters `String.trim` strips: every code up to and including the space. */
  predicate IsTrimmable(c: char) {
    c <= ' '
  }

  predicate AllTrimmable(s: string) {
    forall k | 0 <= k < |s| :: IsTrimmable(s[k])
  }

  /** A string with nothing for `trim` to strip. */
  predicate IsTrimmed(s: string) {
    s == [] || (!IsTrimmable(s[0]) && !IsTrimmable(s[|s| - 1]))
  }

  /** Index of the first character `trim` keeps (|s| when it keeps none). */
  function TrimStart(s: string): (i: nat)
    ensures i <= |s|
    ensures AllTrimmable(s[..i])
    ensures i < |s| ==> !IsTrimmable(s[i])
  {
    if |s| > 0 && IsTrimmable(s[0]) then
      var i := 1 + TrimStart(s[1..]);
      assert s[..i] == [s[0]] + s[1..][..i - 1];
      i
    else 0
  }

  /** Index just past the last character `trim` keeps (0 when it keeps none). */
  function TrimEnd(s: string): (j: nat)
    ensures j <= |s|
    ensures AllTrimmable(s[j..])
    ensures j > 0 ==> !IsTrimmable(s[j - 1])
  {
    if |s| > 0 && IsTrimmable(s[|s| - 1]) then
      var j := TrimEnd(s[..|s| - 1]);
      assert s[j..] == s[..|s| - 1][j..] + [s[|s| - 1]];
      j
    else |s|
  }

  /** `String.trim`: the text between the leading and the trailing run of control
      characters and spaces. */
  function Trim(s: string): (t: string)
    ensures IsTrimmed(t)
    ensures |t| <= |s|
    ensures t == [] <==> AllTrimmable(s)
    ensures t != [] ==> TrimStart(s) + |t| <= |s| && t == s[TrimStart(s)..TrimStart(s) + |t|]
    ensures t != [] ==> AllTrimmable(s[..TrimStart(s)]) && AllTrimmable(s[TrimStart(s) + |t|..])
    ensures IsTrimmed(s) ==> t == s
  {
    var i, j := TrimStart(s), TrimEnd(s);
    if i < j then s[i..j]
    else
      assert AllTrimmable(s) by {
        forall k | 0 <= k < |s| ensures IsTrimmable(s[k]) {
          assert s[..i][k] == s[k];
        }
      }
      []
  }

  // ---------------------------------------------------------------- toLowerCase

  predicate IsUpper(c: char) {
    'A' <= c <= 'Z'
  }

  /** `Character.toLowerCase` restricted to ASCII: only 'A'..'Z' change. */
  function LowerChar(c: char): (l: char)
    ensures !IsUpper(l)
    ensures IsTrimmable(l) <==> IsTrimmable(c)
    ensures !IsUpper(c) ==> l == c
  {
    if IsUpper(c) then (c as int + 32) as char else c
  }

  /** `String.toLowerCase` over ASCII. */
  function ToLower(s: string): (t: string)
    ensures |t| == |s|
    ensures forall k | 0 <= k < |s| :: t[k] == LowerChar(s[k])
  {
    if s == [] then [] else [LowerChar(s[0])] + ToLower(s[1..])
  }

  // ---------------------------------------------------------------- indexOf

  predicate OccursAt(s: string, pat: string, i: int) {
    0 <= i && i + |pat| <= |s| && s[i..i + |pat|] == pat
  }

  /** `s.indexOf(pat, from)`: the first occurrence at or after `from`, or -1. */
  function IndexOfFrom(s: string, pat: string, from: nat): (r: int)
    ensures r == -1 || (from <= r && OccursAt(s, pat, r))
    ensures r == -1 ==> forall k | from <= k :: !OccursAt(s, pat, k)
    ensures r >= 0 ==> forall k | from <= k < r :: !OccursAt(s, pat, k)
    decreases |s| - from
  {
    if from + |pat| > |s| then -1
    else if s[from..from + |pat|] == pat then from
    else IndexOfFrom(s, pat, from + 1)
  }

  /** `s.indexOf(pat)`. */
  function IndexOf(s: string, pat: string): (r: int)
    ensures r == -1 || OccursAt(s, pat, r)
    ensures r == -1 ==> forall k :: !OccursAt(s, pat, k)
    ensures r >= 0 ==> forall k | 0 <= k < r :: !OccursAt(s, pat, k)
  {
    IndexOfFrom(s, pat, 0)
  }

  // ---------------------------------------------------------------- split on one character

  /** Every piece of `s` between occurrences of `d`, empty pieces included. */
  function SplitAll(s: string, d: char): (parts: seq<string>)
    ensures |parts| >= 1
    ensures forall k | 0 <= k < |parts| :: d !in parts[k]
    ensures d !in s ==> parts == [s]
  {
    if |s| == 0 then [""]
    else
      var rest := SplitAll(s[1..], d);
      assert d !in s ==> d !in s[1..] && s == [s[0]] + s[1..];
      if s[0] == d then [""] + rest else [[s[0]] + rest[0]] + rest[1..]
  }

  /** The pieces glued back together with `d` between them. */
  function Join(parts: seq<string>, d: char): string
    requires |parts| >= 1
  {
    if |parts| == 1 then parts[0] else parts[0] + [d] + Join(parts[1..], d)
  }

  lemma {:induction false} JoinSplitAll(s: string, d: char)
    ensures Join(SplitAll(s, d), d) == s
  {
    if |s| > 0 {
      var rest := SplitAll(s[1..], d);
      JoinSplitAll(s[1..], d);
      if s[0] == d {
        assert s == [d] + s[1..];
      } else if |rest| == 1 {
        assert s == [s[0]] + s[1..];
      } else {
        assert rest == [rest[0]] + rest[1..];
        assert s == [s[0]] + s[1..];
      }
    }
  }

  /** Two pieces without the separator split back into themselves. */
  lemma {:induction false} SplitAllPair(a: string, b: string, d: char)
    requires d !in a && d !in b
    ensures SplitAll(a + [d] + b, d) == [a, b]
  {
    if a == [] {
      assert (a + [d] + b)[1..] == b;
    } else {
      SplitAllPair(a[1..], b, d);
      assert (a + [d] + b)[1..] == a[1..] + [d] + b;
      assert [a[0]] + a[1..] == a;
    }
  }

  /** Strips the empty strings at the end of a list of pieces. */
  function DropTrailingEmpty(parts: seq<string>): (r: seq<string>)
    ensures |r| <= |parts| && r == parts[..|r|]
    ensures r == [] || r[|r| - 1] != ""
    ensures forall k | |r| <= k < |parts| :: parts[k] == ""
  {
    if |parts| > 0 && parts[|parts| - 1] == "" then DropTrailingEmpty(parts[..|parts| - 1]) else parts
  }

  /** `s.split(String.valueOf(d))` for a character that is not special in a regular
      expression: no occurrence gives `[s]`; otherwise every piece, with the trailing
      empty ones removed. */
  function Split(s: string, d: char): (parts: seq<string>)
    ensures forall k | 0 <= k < |parts| :: d !in parts[k]
    ensures d !in s ==> parts == [s]
  {
    if d !in s then [s] else DropTrailingEmpty(SplitAll(s, d))
  }

  // ---------------------------------------------------------------- int <-> decimal text

  predicate IsDigit(c: char) {
    '0' <= c <= '9'
  }

  predicate AllDigits(s: string) {
    forall k | 0 <= k < |s| :: IsDigit(s[k])
  }

  function DigitChar(v: nat): (c: char)
    requires v < 10
    ensures IsDigit(c) && c as int - '0' as int == v
  {
    ('0' as int + v) as char
  }

  /** The decimal digits of `n`, most significant first, without leading zeros. */
  function NatDigits(n: nat): (s: string)
    ensures |s| >= 1 && AllDigits(s)
    ensures n > 0 ==> s[0] != '0'
  {
    if n < 10 then [DigitChar(n)] else NatDigits(n / 10) + [DigitChar(n % 10)]
  }

  /** The number a string of decimal digits denotes. */
  function DigitsValue(s: string): nat
    requires AllDigits(s)
  {
    if s == [] then 0 else DigitsValue(s[..|s| - 1]) * 10 + (s[|s| - 1] as int - '0' as int)
  }

  lemma {:induction false} DigitsValueOfNatDigits(n: nat)
    ensures DigitsValue(NatDigits(n)) == n
  {
    if n >= 10 {
      var s := NatDigits(n);
      assert s[..|s| - 1] == NatDigits(n / 10);
      DigitsValueOfNatDigits(n / 10);
    }
  }

  /** `Integer.toString(n)`. */
  function IntToString(n: int): (s: string)
    ensures |s| >= 1
    ensures n >= 0 ==> AllDigits(s)
    ensures n < 0 ==> s[0] == '-' && AllDigits(s[1..])
  {
    if n < 0 then "-" + NatDigits(-n) else NatDigits(n)
  }

  /** A decimal numeral: an optional '+' or '-' followed by at least one digit. */
  predicate IsNumeral(s: string) {
    |s| >= 1 && if s[0] == '-' || s[0] == '+' then |s| >= 2 && AllDigits(s[1..]) else AllDigits(s)
  }

  /** The number a numeral denotes: its digits' value, negated after a '-'. */
  function NumeralValue(s: string): int
    requires IsNumeral(s)
  {
    if s[0] == '-' then -(DigitsValue(s[1..]) as int)
    else if s[0] == '+' then DigitsValue(s[1..])
    else DigitsValue(s)
  }

  /** `Integer.parseInt(s)` over ASCII digits: an optional sign, at least one digit, and
      a value an int can hold; anything else is the `NumberFormatException`, here None. */
  function ParseInt(s: string): (r: Option<int>)
    ensures r.Some? <==> IsNumeral(s) && IsInt32(NumeralValue(s))
    ensures r.Some? ==> r.value == NumeralValue(s)
    ensures r.Some? ==> IsInt32(r.value)
    ensures r.Some? ==> |s| >= 1 && AllDigits(s[1..]) && (IsDigit(s[0]) || s[0] == '-' || s[0] == '+')
    ensures r.Some? && r.value < 0 ==> s[0] == '-'
  {
    if |s| == 0 then None
    else
      var signed := s[0] == '-' || s[0] == '+';
      var body := if signed then s[1..] else s;
      if |body| == 0 || !AllDigits(body) then None
      else
        var v: int := if s[0] == '-' then -(DigitsValue(body) as int) else DigitsValue(body);
        if IsInt32(v) then
          assert !signed ==> AllDigits(s[1..]) by {
            if !signed { assert forall k | 0 <= k < |s| - 1 :: s[1..][k] == body[k + 1]; }
          }
          Some(v)
        else None
  }

  /** Every int prints to text that parses back to it. */
  lemma ParseIntToString(n: int)
    requires IsInt32(n)
    ensures ParseInt(IntToString(n)) == Some(n)
  {
    var s := IntToString(n);
    if n < 0 {
      var digits := NatDigits(-n);
      DigitsValueOfNatDigits(-n);
      assert s == "-" + digits && s[0] == '-' && s[1..] == digits;
      assert ParseInt(s) == Some(-(DigitsValue(digits) as int));
    } else {
      DigitsValueOfNatDigits(n);
      assert IsDigit(s[0]);
      assert ParseInt(s) == Some(DigitsValue(s));
    }
  }
}
