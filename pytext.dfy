/**
 * The Python string operations the validator and the sanitiser rely on:
 * `str.isspace`, `str.lower`, `str.strip`, `str.split`, `str(int)` and
 * `int(digits)`, written out over `string` (a sequence of Unicode scalar
 * values).
 */
module PyText {

  /** The characters `str.isspace` accepts; `str.strip()` removes them and `\s` matches them. */
  predicate IsSpace(c: char) {
    ('\t' <= c <= '\r') || ('\U{1C}' <= c <= ' ') || c == '\U{85}' || c == '\U{A0}'
    || c == '\U{1680}' || ('\U{2000}' <= c <= '\U{200A}') || c == '\U{2028}' || c == '\U{2029}'
    || c == '\U{202F}' || c == '\U{205F}' || c == '\U{3000}'
  }

  predicate IsDigit(c: char) {
    '0' <= c <= '9'
  }

  predicate IsHexDigit(c: char) {
    IsDigit(c) || 'a' <= c <= 'f' || 'A' <= c <= 'F'
  }

  predicate AllDigits(s: string) {
    forall i :: 0 <= i < |s| ==> IsDigit(s[i])
  }

  predicate AllSpace(s: string) {
    forall i :: 0 <= i < |s| ==> IsSpace(s[i])
  }

  // ---------------------------------------------------------------------------
  // Case folding

  /** The upper-case letters whose lower-case form `str.lower` gives here: ASCII and Latin-1. */
  predicate IsUpper(c: char) {
    'A' <= c <= 'Z' || ('\U{C0}' <= c <= '\U{DE}' && c != '\U{D7}')
  }

  function LowerChar(c: char): (r: char)
    ensures !IsUpper(r)
    ensures IsSpace(r) <==> IsSpace(c)
    ensures !IsUpper(c) ==> r == c
  {
    if IsUpper(c) then (c as int + 32) as char else c
  }

  /** `str.lower`: every letter mapped to its lower-case form, length kept. */
  function Lower(s: string): (r: string)
    ensures |r| == |s|
    ensures forall i :: 0 <= i < |s| ==> r[i] == LowerChar(s[i])
  {
    seq(|s|, i requires 0 <= i < |s| => LowerChar(s[i]))
  }

  predicate NoUpper(s: string) {
    forall i :: 0 <= i < |s| ==> !IsUpper(s[i])
  }

  lemma LowerOfLowered(s: string)
    requires NoUpper(s)
    ensures Lower(s) == s
  {
  }

  // ---------------------------------------------------------------------------
  // Stripping surrounding whitespace

  /** The first index at or after `i` that does not hold whitespace (`|s|` if there is none). */
  function SkipSpaces(s: string, i: nat): (j: nat)
    requires i <= |s|
    ensures i <= j <= |s| && (j == |s| || !IsSpace(s[j]))
    ensures forall k :: i <= k < j ==> IsSpace(s[k])
    decreases |s| - i
  {
    if i < |s| && IsSpace(s[i]) then SkipSpaces(s, i + 1) else i
  }

  /** Moving back from `j`, but not below `lo`: the index just past the last non-whitespace character. */
  function BackSpaces(s: string, lo: nat, j: nat): (e: nat)
    requires lo <= j <= |s|
    ensures lo <= e <= j && (e == lo || !IsSpace(s[e - 1]))
    ensures forall k :: e <= k < j ==> IsSpace(s[k])
    decreases j
  {
    if j > lo && IsSpace(s[j - 1]) then BackSpaces(s, lo, j - 1) else j
  }

  /** `str.strip()`: neither end of the result is whitespace. */
  function Strip(s: string): (r: string)
    ensures r == [] || (!IsSpace(r[0]) && !IsSpace(r[|r| - 1]))
  {
    var i := SkipSpaces(s, 0);
    s[i..BackSpaces(s, i, |s|)]
  }

  /**
   * What `str.strip()` removes is whitespace, from the two ends only: the
   * result is the slice of `s` that starts where the leading whitespace ends.
   */
  lemma StripIsSlice(s: string)
    ensures var i, r := SkipSpaces(s, 0), Strip(s);
      i + |r| <= |s| && r == s[i..i + |r|] && AllSpace(s[..i]) && AllSpace(s[i + |r|..])
  {
    var i := SkipSpaces(s, 0);
    var e := BackSpaces(s, i, |s|);
    assert forall k :: 0 <= k < |s[..i]| ==> s[..i][k] == s[k];
    assert forall k :: 0 <= k < |s[e..]| ==> s[e..][k] == s[e + k];
  }

  lemma StripKeepsNoUpper(s: string)
    requires NoUpper(s)
    ensures NoUpper(Strip(s))
  {
    var i := SkipSpaces(s, 0);
    var r := Strip(s);
    assert forall k :: 0 <= k < |r| ==> r[k] == s[i + k];
  }

  lemma StripOfStripped(s: string)
    requires s == [] || (!IsSpace(s[0]) && !IsSpace(s[|s| - 1]))
    ensures Strip(s) == s
  {
    assert SkipSpaces(s, 0) == 0;
    assert BackSpaces(s, 0, |s|) == |s|;
    assert s[0..|s|] == s;
  }

  // ---------------------------------------------------------------------------
  // Decimal and hexadecimal text of numbers

  function DigitChar(d: nat): (c: char)
    requires d < 10
    ensures IsDigit(c) && c as int - '0' as int == d && DigitValue(c) == d
  {
    ('0' as int + d) as char
  }

  /** The value of a digit; any other character counts as 0. */
  function DigitValue(c: char): (d: nat)
    ensures d < 10
  {
    if IsDigit(c) then c as int - '0' as int else 0
  }

  /**
   * `int(s, 10)` for a string of ASCII digits; the empty string gives 0 and a
   * character that is not a digit counts as a 0 digit.
   */
  function DigitsValue(s: string): (v: nat)
  {
    if s == [] then 0 else DigitsValue(s[..|s| - 1]) * 10 + DigitValue(s[|s| - 1])
  }

  function Pow10(n: nat): (p: nat)
    ensures p >= 1
  {
    if n == 0 then 1 else 10 * Pow10(n - 1)
  }

  lemma {:induction false} DigitsValueBound(s: string)
    ensures DigitsValue(s) < Pow10(|s|)
  {
    if s != [] {
      DigitsValueBound(s[..|s| - 1]);
    }
  }

  /** `str(n)` for a natural number: decimal digits with no leading zero. */
  function NatText(n: nat): (r: string)
    ensures |r| >= 1 && AllDigits(r)
    ensures DigitsValue(r) == n
    ensures r[0] == '0' ==> r == "0"
    ensures n < 10 ==> |r| == 1
    ensures n < 100 ==> |r| <= 2
    ensures n < 1000 ==> |r| <= 3
    decreases n
  {
    if n < 10 then [DigitChar(n)]
    else
      var p := NatText(n / 10);
      var r := p + [DigitChar(n % 10)];
      assert r[..|r| - 1] == p;
      r
  }

  /** `str(i)` for a Python int. */
  function IntText(i: int): (r: string)
    ensures forall k :: 0 <= k < |r| ==> IsDigit(r[k]) || (k == 0 && r[k] == '-')
  {
    if i < 0 then "-" + NatText(-i) else NatText(i)
  }

  /** Every digit string without a leading zero is the text of its value. */
  lemma {:induction false} CanonicalDigits(s: string)
    requires AllDigits(s) && s != [] && (s[0] == '0' ==> s == "0")
    ensures NatText(DigitsValue(s)) == s
    decreases |s|
  {
    var p := s[..|s| - 1];
    var d := DigitValue(s[|s| - 1]);
    if |s| == 1 {
      assert DigitsValue(s) == d;
    } else {
      assert p[0] == s[0];
      CanonicalDigits(p);
      var v := DigitsValue(s);
      assert v == DigitsValue(p) * 10 + d;
      assert NatText(0) == "0" && p != "0";
      assert DigitsValue(p) >= 1;
      assert v / 10 == DigitsValue(p) && v % 10 == d;
      assert s == p + [DigitChar(d)];
    }
  }

  /** `'%x' % n`: lower-case hexadecimal digits with no leading zero. */
  function HexText(n: nat): (r: string)
    ensures 1 <= |r| && forall i :: 0 <= i < |r| ==> IsHexDigit(r[i])
    ensures n < 0x10 ==> |r| == 1
    ensures n < 0x100 ==> |r| <= 2
    ensures n < 0x1000 ==> |r| <= 3
    ensures n < 0x10000 ==> |r| <= 4
    decreases n
  {
    if n < 16 then [HexChar(n)] else HexText(n / 16) + [HexChar(n % 16)]
  }

  function HexChar(d: nat): (c: char)
    requires d < 16
    ensures IsHexDigit(c)
  {
    if d < 10 then DigitChar(d) else ('a' as int + d - 10) as char
  }

  /** Regrouping a concatenation of three pieces (a step Dafny does not take on its own inside longer terms). */
  lemma ConcatAssoc<T>(a: seq<T>, b: seq<T>, c: seq<T>)
    ensures a + (b + c) == (a + b) + c
  {
  }

  // ---------------------------------------------------------------------------
  // Splitting on a separator

  /** The index of the first occurrence of `c` in `s`. */
  function IndexOf(s: string, c: char): (i: nat)
    requires c in s
    ensures i < |s| && s[i] == c && c !in s[..i]
  {
    if s[0] == c then 0 else 1 + IndexOf(s[1..], c)
  }

  /** The first `c` is the one right after a stretch without it. */
  lemma {:induction false} IndexOfAfter(p: string, c: char, q: string)
    requires c !in p
    ensures c in p + [c] + q && IndexOf(p + [c] + q, c) == |p|
    decreases |p|
  {
    var s := p + [c] + q;
    assert s[|p|] == c;
    if p != [] {
      assert s[1..] == p[1..] + [c] + q;
      IndexOfAfter(p[1..], c, q);
    }
  }

  /** `s.split(sep)`: the pieces between the separators, at least one. */
  function Split(s: string, sep: char): (parts: seq<string>)
    ensures |parts| >= 1
    decreases |s|
  {
    if sep !in s then [s]
    else
      var i := IndexOf(s, sep);
      [s[..i]] + Split(s[i + 1..], sep)
  }

  /** No piece of a split holds the separator. */
  lemma {:induction false} SplitPiecesExclude(s: string, sep: char)
    ensures forall k :: 0 <= k < |Split(s, sep)| ==> sep !in Split(s, sep)[k]
    decreases |s|
  {
    if sep in s {
      var i := IndexOf(s, sep);
      SplitPiecesExclude(s[i + 1..], sep);
      var rest := Split(s[i + 1..], sep);
      assert Split(s, sep) == [s[..i]] + rest;
      assert forall k :: 1 <= k < |Split(s, sep)| ==> Split(s, sep)[k] == rest[k - 1];
    }
  }

  /** `sep.join(parts)`. */
  function Join(parts: seq<string>, sep: char): string
  {
    if |parts| <= 1 then (if parts == [] then "" else parts[0])
    else parts[0] + [sep] + Join(parts[1..], sep)
  }

  /** Splitting and joining on the same separator give back the string. */
  lemma {:induction false} JoinSplit(s: string, sep: char)
    ensures Join(Split(s, sep), sep) == s
    decreases |s|
  {
    if sep in s {
      var i := IndexOf(s, sep);
      JoinSplit(s[i + 1..], sep);
      assert s == s[..i] + [sep] + s[i + 1..];
    }
  }

  /** A character that is not the separator and occurs in no piece does not occur in their join. */
  lemma {:induction false} JoinExcludes(parts: seq<string>, sep: char, c: char)
    requires c != sep
    requires forall k :: 0 <= k < |parts| ==> c !in parts[k]
    ensures c !in Join(parts, sep)
    decreases |parts|
  {
    if |parts| > 1 {
      JoinExcludes(parts[1..], sep, c);
    }
  }

  /** Joining pieces that hold no separator and splitting again gives back the pieces. */
  lemma {:induction false} SplitJoin(parts: seq<string>, sep: char)
    requires |parts| >= 1
    requires forall k :: 0 <= k < |parts| ==> sep !in parts[k]
    ensures Split(Join(parts, sep), sep) == parts
    decreases |parts|
  {
    if |parts| > 1 {
      var s := Join(parts, sep);
      var rest := Join(parts[1..], sep);
      assert s == parts[0] + [sep] + rest;
      IndexOfAfter(parts[0], sep, rest);
      assert s[..|parts[0]|] == parts[0];
      assert s[|parts[0]| + 1..] == rest;
      SplitJoin(parts[1..], sep);
    }
  }
}
