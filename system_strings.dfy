/**
 * The few .NET string operations the generator relies on, over `seq<char>`:
 * `Split`, `StartsWith`, `EndsWith`, ASCII `ToUpper`, `Char.IsWhiteSpace`,
 * and joining a list of strings with a separator.
 */
module SystemStrings {

  /** `s.StartsWith(p)`, modelled as an ordinal comparison (.NET compares by the current culture). */
  predicate StartsWith(s: string, p: string) {
    |p| <= |s| && s[..|p|] == p
  }

  /** `s.EndsWith(p)`, modelled as an ordinal comparison (.NET compares by the current culture). */
  predicate EndsWith(s: string, p: string) {
    |p| <= |s| && s[|s| - |p|..] == p
  }

  /** `Char.ToUpper` restricted to ASCII: only 'a'..'z' change. */
  function AsciiToUpper(c: char): (u: char)
    ensures 'a' <= c <= 'z' ==> u as int == c as int - 32
    ensures !('a' <= c <= 'z') ==> u == c
  {
    if 'a' <= c <= 'z' then (c as int - 32) as char else c
  }

  /** `Char.IsWhiteSpace`: the Unicode space, line and paragraph separators and U+0009..U+000D, U+0085. */
  predicate IsWhiteSpace(c: char) {
    || ('\U{0009}' <= c <= '\U{000D}')
    || c == ' ' || c == '\U{0085}' || c == '\U{00A0}' || c == '\U{1680}'
    || ('\U{2000}' <= c <= '\U{200A}')
    || c == '\U{2028}' || c == '\U{2029}' || c == '\U{202F}' || c == '\U{205F}' || c == '\U{3000}'
  }

  /** `string.IsNullOrWhiteSpace` for a non-null string, checked from the front: empty, or white space followed by white space only. */
  predicate IsEmptyOrWhiteSpace(s: string) {
    s == [] || (IsWhiteSpace(s[0]) && IsEmptyOrWhiteSpace(s[1..]))
  }

  /** The check from the front agrees with the definition: every character is white space. */
  lemma {:induction false} EmptyOrWhiteSpaceEverywhere(s: string)
    ensures IsEmptyOrWhiteSpace(s) <==> forall i :: 0 <= i < |s| ==> IsWhiteSpace(s[i])
  {
    if s != [] {
      EmptyOrWhiteSpaceEverywhere(s[1..]);
      assert forall i :: 1 <= i < |s| ==> s[i] == s[1..][i - 1];
    }
  }

  /** `s.Split(sep)`: the pieces between separators, empty pieces included. */
  function Split(s: string, sep: char): (parts: seq<string>)
    ensures |parts| >= 1
  {
    if s == [] then [[]]
    else
      var init := Split(s[..|s| - 1], sep);
      var c := s[|s| - 1];
      if c == sep then init + [[]]
      else init[..|init| - 1] + [init[|init| - 1] + [c]]
  }

  /**
   * No piece of `Split(s, sep)` holds the separator; the last piece is empty
   * exactly when `s` is empty or ends in the separator; there is a single
   * piece exactly when `s` holds no separator.
   */
  lemma {:induction false} SplitProperties(s: string, sep: char)
    ensures var parts := Split(s, sep);
      && (forall k :: 0 <= k < |parts| ==> sep !in parts[k])
      && (parts[|parts| - 1] == [] <==> (s == [] || s[|s| - 1] == sep))
      && (|parts| == 1 <==> sep !in s)
  {
    if s != [] {
      var init := Split(s[..|s| - 1], sep);
      var c := s[|s| - 1];
      SplitProperties(s[..|s| - 1], sep);
      assert s == s[..|s| - 1] + [c];
      var parts := Split(s, sep);
      if c == sep {
        assert parts == init + [[]];
        assert forall k :: 0 <= k < |init| ==> parts[k] == init[k];
      } else {
        var last := init[|init| - 1] + [c];
        assert parts == init[..|init| - 1] + [last];
        assert forall k :: 0 <= k < |init| - 1 ==> parts[k] == init[k];
        assert sep !in last;
      }
    }
  }

  /** Concatenation of `parts` with `sep` between consecutive parts (`string.Join`). */
  function Join(parts: seq<string>, sep: string): string {
    if |parts| == 0 then []
    else if |parts| == 1 then parts[0]
    else Join(parts[..|parts| - 1], sep) + sep + parts[|parts| - 1]
  }

  /** Joining one more part appends the separator and the part, unless it is the first. */
  lemma JoinSnoc(parts: seq<string>, x: string, sep: string)
    ensures Join(parts + [x], sep) == if parts == [] then x else Join(parts, sep) + sep + x
  {
    assert (parts + [x])[..|parts|] == parts;
  }

  /** `n` copies of the character `c`. */
  function Repeat(c: char, n: nat): (r: string)
    ensures |r| == n
    ensures forall i :: 0 <= i < n ==> r[i] == c
  {
    if n == 0 then [] else Repeat(c, n - 1) + [c]
  }

  /** The number a string of decimal digits denotes, most significant digit first. */
  function DigitsValue(s: string): nat {
    if s == [] then 0
    else
      var c := s[|s| - 1];
      DigitsValue(s[..|s| - 1]) * 10 + (if '0' <= c <= '9' then c as int - '0' as int else 0)
  }

  /**
   * Decimal rendering of a natural number, as string interpolation of a `ulong`
   * prints it: digits denoting `n`, with no leading zero.
   */
  function DecimalText(n: nat): (r: string)
    ensures |r| >= 1
    ensures forall i :: 0 <= i < |r| ==> '0' <= r[i] <= '9'
    ensures DigitsValue(r) == n
    ensures r[0] == '0' ==> r == "0"
  {
    var d := ['0' + (n % 10) as char];
    if n < 10 then d
    else
      var r := DecimalText(n / 10) + d;
      assert r[..|r| - 1] == DecimalText(n / 10);
      r
  }
}
