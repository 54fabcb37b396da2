/**
 * The JavaScript string primitives the chat helpers rely on, over `string`
 * (a sequence of Unicode scalar values): `trim`, the regular-expression class
 * `\s`, `includes`, `toLowerCase`, `split` on a one-character separator,
 * `Array.prototype.join`, and the decimal text of an integer.
 */
module Strings {

  datatype Option<+T> = None | Some(value: T)

  /** ECMAScript WhiteSpace and LineTerminator: what `trim` strips and `\s` matches. */
  predicate IsSpace(c: char) {
    || c == '\t' || c == '\n' || c == '\U{B}' || c == '\U{C}' || c == '\r' || c == ' '
    || c == '\U{A0}' || c == '\U{1680}' || ('\U{2000}' <= c <= '\U{200A}')
    || c == '\U{2028}' || c == '\U{2029}' || c == '\U{202F}' || c == '\U{205F}'
    || c == '\U{3000}' || c == '\U{FEFF}'
  }

  /** The characters the regular-expression wildcard `.` refuses to match. */
  predicate IsLineTerminator(c: char) {
    c == '\n' || c == '\r' || c == '\U{2028}' || c == '\U{2029}'
  }

  predicate AllSpaces(s: string) {
    forall i :: 0 <= i < |s| ==> IsSpace(s[i])
  }

  /** Neither end of `s` is white space. */
  predicate IsTrimmed(s: string) {
    s == [] || (!IsSpace(s[0]) && !IsSpace(s[|s| - 1]))
  }

  /** The number of white-space characters at the start of `s`. */
  function LeadingSpaces(s: string): (k: nat)
    ensures k <= |s| && AllSpaces(s[..k]) && (k < |s| ==> !IsSpace(s[k]))
    decreases |s|
  {
    if s != [] && IsSpace(s[0]) then
      var k := LeadingSpaces(s[1..]);
      SpacePrefixCons(s, k);
      k + 1
    else 0
  }

  /** A space followed by a white-space prefix is a white-space prefix. */
  lemma SpacePrefixCons(s: string, k: nat)
    requires s != [] && IsSpace(s[0]) && k < |s| && AllSpaces(s[1..][..k])
    ensures AllSpaces(s[..k + 1])
  {
    var p, t := s[..k + 1], s[1..][..k];
    forall i | 0 < i < |p| ensures IsSpace(p[i]) {
      assert p[i] == t[i - 1];
    }
  }

  /** The length of `s` without the white space at its end. */
  function KeptLength(s: string): (k: nat)
    ensures k <= |s| && AllSpaces(s[k..]) && (k > 0 ==> !IsSpace(s[k - 1]))
    decreases |s|
  {
    if s != [] && IsSpace(s[|s| - 1]) then
      var k := KeptLength(s[..|s| - 1]);
      assert forall i :: k <= i < |s| - 1 ==> s[i] == s[..|s| - 1][i];
      k
    else |s|
  }

  function TrimStart(s: string): (r: string)
    ensures |r| <= |s| && r == s[|s| - |r|..]
    ensures AllSpaces(s[..|s| - |r|])
    ensures r == [] || !IsSpace(r[0])
  {
    s[LeadingSpaces(s)..]
  }

  function TrimEnd(s: string): (r: string)
    ensures |r| <= |s| && r == s[..|r|]
    ensures AllSpaces(s[|r|..])
    ensures r == [] || !IsSpace(r[|r| - 1])
  {
    s[..KeptLength(s)]
  }

  /** The number of leading white-space characters that `Trim` drops. */
  function TrimOffset(s: string): nat {
    LeadingSpaces(s)
  }

  /** `String.prototype.trim`: `s` with its white space removed at both ends. */
  function Trim(s: string): (r: string)
    ensures IsTrimmed(r)
    ensures TrimOffset(s) + |r| <= |s| && r == s[TrimOffset(s)..TrimOffset(s) + |r|]
    ensures AllSpaces(s[..TrimOffset(s)]) && AllSpaces(s[TrimOffset(s) + |r|..])
  {
    var o := LeadingSpaces(s);
    var k := KeptLength(s[o..]);
    assert s[o..][..k] == s[o..o + k];
    assert s[o + k..] == s[o..][k..];
    s[o..o + k]
  }

  /** `trim` removes the white space at the start, then at the end. */
  lemma TrimIsTrimStartThenEnd(s: string)
    ensures Trim(s) == TrimEnd(TrimStart(s))
  {
  }

  /** Trimming a trimmed string changes nothing. */
  lemma TrimOfTrimmed(s: string)
    requires IsTrimmed(s)
    ensures Trim(s) == s
  {
  }

  /** Every character of a white-space prefix is white space. */
  lemma AllSpacesPrefix(s: string, k: nat)
    requires k <= |s| && AllSpaces(s[..k])
    ensures forall i :: 0 <= i < k ==> IsSpace(s[i])
  {
    forall i | 0 <= i < k ensures IsSpace(s[i]) {
      assert s[..k][i] == s[i];
    }
  }

  /** Every character of a white-space suffix is white space. */
  lemma AllSpacesSuffix(s: string, k: nat)
    requires k <= |s| && AllSpaces(s[k..])
    ensures forall i :: k <= i < |s| ==> IsSpace(s[i])
  {
    forall i | k <= i < |s| ensures IsSpace(s[i]) {
      assert s[k..][i - k] == s[i];
    }
  }

  /** Every character of a white-space slice is white space. */
  lemma AllSpacesBetween(s: string, lo: nat, hi: nat)
    requires lo <= hi <= |s| && AllSpaces(s[lo..hi])
    ensures forall i :: lo <= i < hi ==> IsSpace(s[i])
  {
    forall i | lo <= i < hi ensures IsSpace(s[i]) {
      assert s[lo..hi][i - lo] == s[i];
    }
  }

  /** `LeadingSpaces` is the one count whose prefix is white space and is
      followed by a character that is not. */
  lemma LeadingSpacesUnique(s: string, k: nat)
    requires k <= |s| && AllSpaces(s[..k]) && (k < |s| ==> !IsSpace(s[k]))
    ensures LeadingSpaces(s) == k
  {
    AllSpacesPrefix(s, k);
    AllSpacesPrefix(s, LeadingSpaces(s));
  }

  /** `KeptLength` is the one length whose suffix is white space and is
      preceded by a character that is not. */
  lemma KeptLengthUnique(s: string, k: nat)
    requires k <= |s| && AllSpaces(s[k..]) && (k > 0 ==> !IsSpace(s[k - 1]))
    ensures KeptLength(s) == k
  {
    AllSpacesSuffix(s, k);
    AllSpacesSuffix(s, KeptLength(s));
  }

  lemma TrimStartOfSpaces(a: string, m: string)
    requires AllSpaces(a)
    ensures TrimStart(a + m) == TrimStart(m)
  {
    var l := LeadingSpaces(m);
    var am := a + m;
    var p, q := am[..|a| + l], m[..l];
    forall i | 0 <= i < |p| ensures IsSpace(p[i]) {
      if i < |a| { assert p[i] == a[i]; } else { assert p[i] == q[i - |a|]; }
    }
    assert |a| + l < |am| ==> am[|a| + l] == m[l];
    LeadingSpacesUnique(am, |a| + l);
    assert am[|a| + l..] == m[l..];
  }

  lemma TrimEndOfSpaces(m: string, b: string)
    requires AllSpaces(b)
    ensures TrimEnd(m + b) == TrimEnd(m)
  {
    var k := KeptLength(m);
    var mb := m + b;
    forall i | 0 <= i < |mb| - k ensures IsSpace(mb[k..][i]) {
      if k + i < |m| { assert mb[k..][i] == m[k..][i]; } else { assert mb[k..][i] == b[k + i - |m|]; }
    }
    assert k > 0 ==> mb[k - 1] == m[k - 1];
    KeptLengthUnique(mb, k);
    assert mb[..k] == m[..k];
  }

  lemma TrimStartOfTrailingSpaces(m: string, b: string)
    requires AllSpaces(b)
    ensures TrimStart(m + b) == TrimStart(m) + b || (TrimStart(m) == [] && TrimStart(m + b) == [])
  {
    var l := LeadingSpaces(m);
    var mb := m + b;
    if l < |m| {
      assert mb[..l] == m[..l] && mb[l] == m[l];
      LeadingSpacesUnique(mb, l);
      assert mb[l..] == m[l..] + b;
    } else {
      forall i | 0 <= i < |mb| ensures IsSpace(mb[..|mb|][i]) {
        if i < |m| { assert mb[..|mb|][i] == m[..l][i]; } else { assert mb[..|mb|][i] == b[i - |m|]; }
      }
      LeadingSpacesUnique(mb, |mb|);
    }
  }

  lemma AllSpacesTrimStart(b: string)
    requires AllSpaces(b)
    ensures TrimStart(b) == []
  {
    assert b[..|b|] == b;
    LeadingSpacesUnique(b, |b|);
  }

  lemma AllSpacesTrimEnd(b: string)
    requires AllSpaces(b)
    ensures TrimEnd(b) == []
  {
    assert b[0..] == b;
    KeptLengthUnique(b, 0);
  }

  /** White space around a string does not change its trimmed form. */
  lemma TrimOfPadded(a: string, m: string, b: string)
    requires AllSpaces(a) && AllSpaces(b)
    ensures Trim(a + m + b) == Trim(m)
  {
    TrimIsTrimStartThenEnd(a + m + b);
    TrimIsTrimStartThenEnd(m);
    assert a + m + b == a + (m + b);
    TrimStartOfSpaces(a, m + b);
    TrimStartOfTrailingSpaces(m, b);
    if TrimStart(m) == [] && TrimStart(m + b) == [] {
    } else {
      TrimEndOfSpaces(TrimStart(m), b);
    }
  }

  lemma TrimStartEmptyIffAllSpaces(s: string)
    ensures TrimStart(s) == [] <==> AllSpaces(s)
  {
    assert s[..|s|] == s;
    if AllSpaces(s) {
      LeadingSpacesUnique(s, |s|);
    }
  }

  /** `trim` gives the empty string exactly when the text is all white space. */
  lemma TrimEmptyIffAllSpaces(s: string)
    ensures Trim(s) == [] <==> AllSpaces(s)
  {
    TrimStartEmptyIffAllSpaces(s);
  }

  /** `s` holds `w` starting at index `i`. */
  predicate OccursAt(s: string, w: string, i: int) {
    0 <= i && i + |w| <= |s| && s[i..i + |w|] == w
  }

  predicate StartsWith(s: string, w: string) {
    |w| <= |s| && s[..|w|] == w
  }

  /** `String.prototype.includes`: scan for `w` from left to right. */
  predicate Contains(s: string, w: string)
    decreases |s|
  {
    StartsWith(s, w) || (s != [] && Contains(s[1..], w))
  }

  /** `includes` holds exactly when `w` occurs at some index of `s`. */
  lemma {:induction false} ContainsIff(s: string, w: string)
    ensures Contains(s, w) <==> exists i :: OccursAt(s, w, i)
    decreases |s|
  {
    if StartsWith(s, w) {
      assert OccursAt(s, w, 0);
    } else if s == [] {
    } else {
      ContainsIff(s[1..], w);
      if Contains(s[1..], w) {
        var i :| OccursAt(s[1..], w, i);
        assert s[i + 1..i + 1 + |w|] == s[1..][i..i + |w|];
        assert OccursAt(s, w, i + 1);
      }
      if i :| OccursAt(s, w, i) {
        assert i != 0;
        assert s[1..][i - 1..i - 1 + |w|] == s[i..i + |w|];
        assert OccursAt(s[1..], w, i - 1);
      }
    }
  }

  /** A one-character needle is found exactly when that character is in the text. */
  lemma ContainsChar(s: string, c: char)
    ensures Contains(s, [c]) <==> c in s
  {
    ContainsIff(s, [c]);
    if c in s {
      var i :| 0 <= i < |s| && s[i] == c;
      assert OccursAt(s, [c], i);
    }
    if i :| OccursAt(s, [c], i) {
      assert s[i] == c;
    }
  }

  /** `indexOf`: the first index where `w` occurs in `s`. */
  function FindFirst(s: string, w: string): (r: Option<nat>)
    ensures r.Some? ==> OccursAt(s, w, r.value)
    ensures r.Some? ==> forall j :: 0 <= j < r.value ==> !OccursAt(s, w, j)
    ensures r.None? ==> forall j :: !OccursAt(s, w, j)
    decreases |s|
  {
    if StartsWith(s, w) then Some(0)
    else if s == [] then None
    else
      var r := FindFirst(s[1..], w);
      OccursShift(s, w);
      assert !OccursAt(s, w, 0);
      match r
      case Some(k) =>
        assert forall j :: 0 < j < k + 1 ==> !OccursAt(s, w, j) by {
          forall j | 0 < j < k + 1 ensures !OccursAt(s, w, j) {
            assert !OccursAt(s[1..], w, j - 1);
          }
        }
        Some(k + 1)
      case None =>
        assert forall j :: 0 < j ==> !OccursAt(s, w, j) by {
          forall j | 0 < j ensures !OccursAt(s, w, j) {
            assert !OccursAt(s[1..], w, j - 1);
          }
        }
        None
  }

  lemma OccursShift(s: string, w: string)
    requires s != []
    ensures forall j :: 0 <= j ==> (OccursAt(s[1..], w, j) <==> OccursAt(s, w, j + 1))
  {
    forall j | 0 <= j && OccursAt(s, w, j + 1) ensures OccursAt(s[1..], w, j) {
      assert s[1..][j..j + |w|] == s[j + 1..j + 1 + |w|];
    }
    forall j | OccursAt(s[1..], w, j) ensures OccursAt(s, w, j + 1) {
      assert s[1..][j..j + |w|] == s[j + 1..j + 1 + |w|];
    }
  }

  /** When the first character of `w` is not in `a`, the first `w` in
      `a + w + b` is the one right after `a`. */
  lemma FindFirstAfter(a: string, w: string, b: string)
    requires w != [] && w[0] !in a
    ensures FindFirst(a + w + b, w) == Some(|a|)
  {
    var s := a + w + b;
    assert s[|a|..|a| + |w|] == w;
    assert OccursAt(s, w, |a|);
    forall j | 0 <= j < |a| ensures !OccursAt(s, w, j) {
      assert s[j] == a[j];
    }
  }

  /** The one-character lower-case mapping of `toLowerCase`, for ASCII and Latin-1. */
  function LowerChar(c: char): char {
    if 'A' <= c <= 'Z' || ('\U{C0}' <= c <= '\U{DE}' && c != '\U{D7}') then (c as int + 32) as char else c
  }

  function Lower(s: string): (r: string)
    ensures |r| == |s|
  {
    seq(|s|, i requires 0 <= i < |s| => LowerChar(s[i]))
  }

  /** Lower-casing twice is lower-casing once. */
  lemma LowerIdempotent(s: string)
    ensures Lower(Lower(s)) == Lower(s)
  {
    assert forall i :: 0 <= i < |s| ==> Lower(Lower(s))[i] == Lower(s)[i];
  }

  /** `Array.prototype.join` with separator `sep`. */
  function Join(parts: seq<string>, sep: string): string
    decreases |parts|
  {
    if parts == [] then ""
    else if |parts| == 1 then parts[0]
    else parts[0] + sep + Join(parts[1..], sep)
  }

  /** `String.prototype.split` on the one-character separator `sep`. */
  function Split(s: string, sep: char): (parts: seq<string>)
    ensures |parts| >= 1
    ensures forall k :: 0 <= k < |parts| ==> sep !in parts[k]
    ensures |parts[0]| <= |s| && parts[0] == s[..|parts[0]|]
    decreases |s|
  {
    if s == [] then [""]
    else
      var rest := Split(s[1..], sep);
      if s[0] == sep then [""] + rest else [[s[0]] + rest[0]] + rest[1..]
  }

  /** Splitting and joining back with the same separator gives the text back. */
  lemma {:induction false} JoinSplit(s: string, sep: char)
    ensures Join(Split(s, sep), [sep]) == s
    decreases |s|
  {
    if s != [] {
      var rest := Split(s[1..], sep);
      JoinSplit(s[1..], sep);
      if s[0] != sep {
        if |rest| > 1 {
          assert Join(rest, [sep]) == rest[0] + [sep] + Join(rest[1..], [sep]);
          assert ([[s[0]] + rest[0]] + rest[1..])[1..] == rest[1..];
        }
        assert [s[0]] + s[1..] == s;
      }
    }
  }

  /** A text without the separator is one piece. */
  lemma {:induction false} SplitWithoutSeparator(s: string, sep: char)
    requires sep !in s
    ensures Split(s, sep) == [s]
    decreases |s|
  {
    if s != [] {
      SplitWithoutSeparator(s[1..], sep);
      assert [s[0]] + s[1..] == s;
    }
  }

  /** A separator in the middle cuts the pieces in two groups. */
  lemma {:induction false} SplitAround(a: string, sep: char, b: string)
    ensures Split(a + [sep] + b, sep) == Split(a, sep) + Split(b, sep)
    decreases |a|
  {
    if a == [] {
      assert a + [sep] + b == [sep] + b;
      assert ([sep] + b)[1..] == b;
    } else {
      assert (a + [sep] + b)[1..] == a[1..] + [sep] + b;
      SplitAround(a[1..], sep, b);
    }
  }

  /** Joining pieces free of the separator and splitting again gives the pieces back. */
  lemma {:induction false} SplitJoin(parts: seq<string>, sep: char)
    requires parts != []
    requires forall k :: 0 <= k < |parts| ==> sep !in parts[k]
    ensures Split(Join(parts, [sep]), sep) == parts
    decreases |parts|
  {
    if |parts| == 1 {
      SplitWithoutSeparator(parts[0], sep);
    } else {
      SplitJoin(parts[1..], sep);
      SplitAround(parts[0], sep, Join(parts[1..], [sep]));
      SplitWithoutSeparator(parts[0], sep);
      assert [parts[0]] + parts[1..] == parts;
    }
  }

  /** Joining with a separator: the structure of one more piece in front. */
  lemma JoinCons(x: string, parts: seq<string>, sep: string)
    requires parts != []
    ensures Join([x] + parts, sep) == x + sep + Join(parts, sep)
  {
    assert ([x] + parts)[1..] == parts;
  }

  predicate IsDigit(c: char) {
    '0' <= c <= '9'
  }

  function DigitChar(d: nat): (c: char)
    requires d < 10
    ensures IsDigit(c) && c as int - '0' as int == d
  {
    (d + '0' as int) as char
  }

  /** The decimal text of a natural number, as JavaScript writes a safe integer. */
  function NatToString(n: nat): (r: string)
    ensures r != []
    ensures forall i :: 0 <= i < |r| ==> IsDigit(r[i])
    decreases n
  {
    if n < 10 then [DigitChar(n)] else NatToString(n / 10) + [DigitChar(n % 10)]
  }

  /** The number a string of decimal digits denotes. */
  function DigitsValue(s: string): nat
    requires forall i :: 0 <= i < |s| ==> IsDigit(s[i])
    decreases |s|
  {
    if s == [] then 0 else 10 * DigitsValue(s[..|s| - 1]) + DigitValue(s[|s| - 1])
  }

  function DigitValue(c: char): (d: nat)
    requires IsDigit(c)
    ensures d < 10
  {
    c as int - '0' as int
  }

  /** Reading the decimal text back gives the number. */
  lemma {:induction false} NatToStringValue(n: nat)
    ensures DigitsValue(NatToString(n)) == n
    decreases n
  {
    if n >= 10 {
      NatToStringValue(n / 10);
      var r := NatToString(n);
      assert r[..|r| - 1] == NatToString(n / 10);
    }
  }

  /** The decimal text of an integer, with a leading '-' when negative. */
  function IntToString(i: int): (r: string)
    ensures r != [] && (r[0] == '-' <==> i < 0)
  {
    if i < 0 then "-" + NatToString(-i) else NatToString(i)
  }

  predicate AllDigits(s: string) {
    forall i :: 0 <= i < |s| ==> IsDigit(s[i])
  }

  /** Reads an optional '-' and at least one decimal digit, and nothing else. */
  function ParseInt(s: string): Option<int> {
    if s != [] && s[0] == '-' then
      if |s| > 1 && AllDigits(s[1..]) then Some(0 - DigitsValue(s[1..])) else None
    else if s != [] && AllDigits(s) then Some(DigitsValue(s))
    else None
  }

  /** Reading the decimal text of an integer back gives the integer. */
  lemma ParseIntToString(i: int)
    ensures ParseInt(IntToString(i)) == Some(i)
  {
    if i < 0 {
      NatToStringValue(-i);
      assert IntToString(i)[1..] == NatToString(-i);
    } else {
      NatToStringValue(i);
    }
  }

  /** `Lines(s)`: the text cut at its line breaks. */
  function Lines(s: string): seq<string> {
    Split(s, '\n')
  }

  lemma NoBreakInDigits(s: string)
    requires forall i :: 0 <= i < |s| ==> IsDigit(s[i])
    ensures '\n' !in s
  {
  }

  lemma NoBreakInIntText(i: int)
    ensures '\n' !in IntToString(i)
  {
    if i >= 0 {
      NoBreakInDigits(NatToString(i));
    } else {
      NoBreakInDigits(NatToString(-i));
    }
  }

  /** No line break in the join of pieces without one, with a separator without one. */
  lemma {:induction false} NoBreakInJoin(parts: seq<string>, sep: string)
    requires '\n' !in sep
    requires forall k :: 0 <= k < |parts| ==> '\n' !in parts[k]
    ensures '\n' !in Join(parts, sep)
    decreases |parts|
  {
    if |parts| > 1 {
      NoBreakInJoin(parts[1..], sep);
    }
  }

  /** Splitting `a + "\n" + b` at line breaks, when `a` has none. */
  lemma LinesCons(a: string, b: string)
    requires '\n' !in a
    ensures Lines(a + "\n" + b) == [a] + Lines(b)
  {
    SplitAround(a, '\n', b);
    SplitWithoutSeparator(a, '\n');
  }

  /** A blank line between two blocks of lines. */
  lemma LinesAroundBlank(a: string, b: string)
    ensures Lines(a + "\n\n" + b) == Lines(a) + [""] + Lines(b)
  {
    assert a + "\n\n" + b == a + ['\n'] + ([] + ['\n'] + b);
    SplitAround(a, '\n', [] + ['\n'] + b);
    SplitAround([], '\n', b);
  }
}
