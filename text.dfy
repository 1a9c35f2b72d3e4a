/** The handful of .NET string operations the module relies on, over `string`
    (a sequence of Unicode scalar values). */
module Text {

  /** `char.IsWhiteSpace`: the Unicode space separators, the line and paragraph
      separators, U+0009..U+000D and U+0085. */
  function IsWhiteSpace(c: char): (b: bool)
    ensures b ==> UpperChar(c) == c
  {
    || c == ' ' || ('\t' <= c <= '\r') || c == '\U{85}' || c == '\U{A0}' || c == '\U{1680}'
    || ('\U{2000}' <= c <= '\U{200A}') || c == '\U{2028}' || c == '\U{2029}'
    || c == '\U{202F}' || c == '\U{205F}' || c == '\U{3000}'
  }

  /** `char.ToUpperInvariant`, restricted to the ASCII letters; every other
      character is left as it is. */
  function UpperChar(c: char): char {
    if 'a' <= c <= 'z' then (c as int - 32) as char else c
  }

  /** `string.ToUpperInvariant`, character by character. */
  function Upper(s: string): (r: string)
    ensures |r| == |s|
    ensures forall i :: 0 <= i < |r| ==> !('a' <= r[i] <= 'z')
    ensures forall i :: 0 <= i < |s| && !('a' <= s[i] <= 'z') ==> r[i] == s[i]
    ensures forall i :: 0 <= i < |s| && 'a' <= s[i] <= 'z' ==> r[i] as int == s[i] as int - 32
  {
    seq(|s|, i requires 0 <= i < |s| => UpperChar(s[i]))
  }

  /** The UTF-16 code units .NET stores for a character: the character itself
      inside the Basic Multilingual Plane, a surrogate pair outside it. */
  function CodeUnits(c: char): (u: seq<int>)
    ensures c as int <= 0xFFFF ==> u == [c as int]
    ensures c as int > 0xFFFF ==> |u| == 2 && 0xD800 <= u[0] < 0xDC00 && 0xDC00 <= u[1] < 0xE000
  {
    if c as int <= 0xFFFF then [c as int]
    else
      var v := c as int - 0x10000;
      [0xD800 + v / 0x400, 0xDC00 + v % 0x400]
  }

  /** A .NET `string` as it is stored: the code units of its characters.
      `s.Length` is `|Utf16(s)|` and `s.Substring(0, n)` is `Utf16(s)[..n]`. */
  function Utf16(s: string): (u: seq<int>)
    ensures |s| <= |u| <= 2 * |s|
  {
    if s == [] then [] else CodeUnits(s[0]) + Utf16(s[1..])
  }

  /** Every character of `s` lies in the Basic Multilingual Plane. */
  predicate IsBmp(s: string) {
    forall i :: 0 <= i < |s| ==> s[i] as int <= 0xFFFF
  }

  /** A string of the Basic Multilingual Plane is stored one code unit per
      character. */
  lemma {:induction false} BmpUtf16(s: string)
    requires IsBmp(s)
    ensures |Utf16(s)| == |s| && forall i :: 0 <= i < |s| ==> Utf16(s)[i] == s[i] as int
  {
    if s != [] {
      BmpUtf16(s[1..]);
    }
  }

  /** `s` starts with `p`, character by character. */
  predicate StartsWith(s: string, p: string) {
    |p| <= |s| && s[..|p|] == p
  }

  /** `s.Substring(0, |p|) == p` for a prefix `p` of the Basic Multilingual
      Plane: it holds exactly when `s` starts with `p`, because a surrogate
      code unit is never a character. */
  lemma {:induction false} SubstringIsPrefix(s: string, p: string)
    requires IsBmp(p) && |p| <= |Utf16(s)|
    ensures Utf16(s)[..|p|] == Utf16(p) <==> StartsWith(s, p)
  {
    if p != [] {
      assert s != [];
      BmpUtf16(p);
      BmpUtf16(p[1..]);
      var u := Utf16(s);
      var rest := Utf16(s[1..]);
      assert Utf16(p) == [p[0] as int] + Utf16(p[1..]);
      if s[0] as int <= 0xFFFF {
        assert u == [s[0] as int] + rest;
        SubstringIsPrefix(s[1..], p[1..]);
        assert u[..|p|] == [s[0] as int] + rest[..|p| - 1];
        if StartsWith(s, p) {
          assert s[0] == p[0] && s[1..][..|p| - 1] == p[1..];
        } else if s[0] == p[0] && |p| <= |s| {
          assert s[..|p|] == [s[0]] + s[1..][..|p| - 1];
          assert p == [p[0]] + p[1..];
        }
      } else {
        assert u[0] == CodeUnits(s[0])[0];
        assert u[..|p|][0] != Utf16(p)[0];
      }
    }
  }

  /** Removes leading white space: what goes is white space, what stays is
      the rest of `s` and starts with something else. */
  function TrimStart(s: string): (r: string)
    ensures |r| <= |s| && r == s[|s| - |r|..]
    ensures forall i :: 0 <= i < |s| - |r| ==> IsWhiteSpace(s[i])
    ensures r == [] || !IsWhiteSpace(r[0])
  {
    if |s| > 0 && IsWhiteSpace(s[0]) then
      var r := TrimStart(s[1..]);
      assert forall i :: 1 <= i < |s| - |r| ==> s[i] == s[1..][i - 1];
      r
    else s
  }

  /** Removes trailing white space: what goes is white space, what stays is
      the start of `s` and ends with something else. */
  function TrimEnd(s: string): (r: string)
    ensures |r| <= |s| && r == s[..|r|]
    ensures forall i :: |r| <= i < |s| ==> IsWhiteSpace(s[i])
    ensures r == [] || !IsWhiteSpace(r[|r| - 1])
  {
    if |s| > 0 && IsWhiteSpace(s[|s| - 1]) then
      var r := TrimEnd(s[..|s| - 1]);
      assert forall i :: |r| <= i < |s| - 1 ==> s[i] == s[..|s| - 1][i];
      r
    else s
  }

  /** `string.Trim()`: the middle part `s[a..b]` of `s` that is left once the
      white space at both ends is removed; it neither starts nor ends with
      white space. */
  function Trim(s: string): (r: string)
    ensures |r| <= |s|
    ensures r == [] || (!IsWhiteSpace(r[0]) && !IsWhiteSpace(r[|r| - 1]))
    ensures exists a, b ::
      && 0 <= a <= b <= |s| && r == s[a..b]
      && (forall i :: 0 <= i < a ==> IsWhiteSpace(s[i]))
      && (forall i :: b <= i < |s| ==> IsWhiteSpace(s[i]))
  {
    var t := TrimStart(s);
    var r := TrimEnd(t);
    TrimIsSlice(s, t, r);
    r
  }

  /** Trimming: a prefix `r` of a suffix `t` of `s`, where only white space
      was cut off at either end, is the slice of `s` between that white space. */
  lemma TrimIsSlice(s: string, t: string, r: string)
    requires |t| <= |s| && t == s[|s| - |t|..]
    requires forall i :: 0 <= i < |s| - |t| ==> IsWhiteSpace(s[i])
    requires |r| <= |t| && r == t[..|r|]
    requires forall i :: |r| <= i < |t| ==> IsWhiteSpace(t[i])
    ensures var a := |s| - |t|;
      && 0 <= a <= a + |r| <= |s| && r == s[a..a + |r|]
      && (forall i :: 0 <= i < a ==> IsWhiteSpace(s[i]))
      && (forall i :: a + |r| <= i < |s| ==> IsWhiteSpace(s[i]))
  {
    var a := |s| - |t|;
    forall i | a + |r| <= i < |s|
      ensures IsWhiteSpace(s[i])
    {
      assert s[i] == t[i - a];
    }
  }

  /** `char.IsLetter`, for the Latin letters of U+0000..U+024F (ASCII, Latin-1,
      Latin Extended-A and -B); other scripts are not recognised. */
  function IsLetter(c: char): (b: bool)
    ensures b ==> !IsWhiteSpace(c)
  {
    || ('A' <= c <= 'Z') || ('a' <= c <= 'z')
    || c == '\U{AA}' || c == '\U{B5}' || c == '\U{BA}'
    || ('\U{C0}' <= c <= '\U{D6}') || ('\U{D8}' <= c <= '\U{F6}') || ('\U{F8}' <= c <= '\U{24F}')
  }

  /** `s.Count(char.IsLetter)`. */
  function CountLetters(s: string): (n: nat)
    ensures n <= |s|
    ensures n == 0 <==> forall i :: 0 <= i < |s| ==> !IsLetter(s[i])
  {
    if s == [] then 0
    else
      assert forall i :: 1 <= i < |s| ==> s[i] == s[1..][i - 1];
      (if IsLetter(s[0]) then 1 else 0) + CountLetters(s[1..])
  }

  /** Counting letters distributes over concatenation. */
  lemma {:induction false} CountLettersAppend(a: string, b: string)
    ensures CountLetters(a + b) == CountLetters(a) + CountLetters(b)
  {
    if a != [] {
      assert (a + b)[1..] == a[1..] + b;
      CountLettersAppend(a[1..], b);
    } else {
      assert a + b == b;
    }
  }

  /** The indices of `s` that hold a letter. */
  ghost function LetterIndices(s: string): set<nat> {
    set i: nat | i < |s| && IsLetter(s[i])
  }

  /** The letter indices of `s` are those of `s` without its last character,
      plus that character's index if it is a letter. */
  lemma LetterIndicesSnoc(s: string)
    requires s != []
    ensures var n := |s| - 1;
      LetterIndices(s) == LetterIndices(s[..n]) + (if IsLetter(s[n]) then {n} else {})
  {
    var n := |s| - 1;
    forall i: nat | i < n ensures s[..n][i] == s[i] {}
  }

  /** `s.Count(char.IsLetter)`: `CountLetters` is the number of indices of `s`
      holding a letter. */
  lemma {:induction false} CountLettersCounts(s: string)
    ensures CountLetters(s) == |LetterIndices(s)|
  {
    if s != [] {
      var n := |s| - 1;
      var t := s[..n];
      assert s == t + [s[n]];
      CountLettersCounts(t);
      CountLettersAppend(t, [s[n]]);
      assert CountLetters([s[n]]) == if IsLetter(s[n]) then 1 else 0 by {
        assert [s[n]][1..] == [];
      }
      LetterIndicesSnoc(s);
      assert n !in LetterIndices(t);
    }
  }

  /** Ordinal (code point by code point) lexicographic order on strings. */
  predicate StrLess(a: string, b: string)
    decreases |a|
  {
    if |a| == 0 then |b| > 0
    else if |b| == 0 then false
    else a[0] < b[0] || (a[0] == b[0] && StrLess(a[1..], b[1..]))
  }

  lemma {:induction false} StrLessIrreflexive(a: string)
    ensures !StrLess(a, a)
  {
    if |a| > 0 {
      StrLessIrreflexive(a[1..]);
    }
  }

  lemma {:induction false} StrLessTransitive(a: string, b: string, c: string)
    requires StrLess(a, b) && StrLess(b, c)
    ensures StrLess(a, c)
  {
    if |a| > 0 && |b| > 0 && |c| > 0 && a[0] == b[0] && b[0] == c[0] {
      StrLessTransitive(a[1..], b[1..], c[1..]);
    }
  }

  lemma {:induction false} StrLessTotal(a: string, b: string)
    requires a != b
    ensures StrLess(a, b) || StrLess(b, a)
  {
    if |a| > 0 && |b| > 0 && a[0] == b[0] {
      assert a == [a[0]] + a[1..] && b == [b[0]] + b[1..];
      StrLessTotal(a[1..], b[1..]);
    }
  }
}
