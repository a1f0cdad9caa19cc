/**
 * The Go standard-library string operations that main.go uses to build names:
 * strings.Replace with a one-character pattern, strings.Split on one character,
 * strconv.Itoa on a non-negative index, and the text before a delimiter.
 * Strings are sequences of characters; every delimiter involved ('/', ' ', '-')
 * is a single ASCII byte, so the byte and the character view agree.
 */
module Text {

  // ---------------------------------------------------------------------------
  // strings.Replace(s, from, to, -1) for one-character from and to
  // ---------------------------------------------------------------------------

  /** Every occurrence of `from` replaced by `to`, everything else kept in place. */
  function ReplaceAll(s: string, from: char, to: char): (r: string)
    ensures |r| == |s|
    ensures forall i :: 0 <= i < |s| ==> r[i] == (if s[i] == from then to else s[i])
  {
    if s == [] then []
    else [if s[0] == from then to else s[0]] + ReplaceAll(s[1..], from, to)
  }

  // ---------------------------------------------------------------------------
  // strings.Split(s, sep) for a one-character separator, and its inverse Join
  // ---------------------------------------------------------------------------

  /** The pieces of `s` between occurrences of `sep`; never empty, like Go's Split. */
  function Split(s: string, sep: char): (parts: seq<string>)
    ensures |parts| >= 1
    ensures forall i :: 0 <= i < |parts| ==> sep !in parts[i]
    decreases |s|
  {
    if s == [] then [""]
    else
      var init := Split(s[..|s| - 1], sep);
      var c := s[|s| - 1];
      if c == sep then init + [""]
      else init[..|init| - 1] + [init[|init| - 1] + [c]]
  }

  /** The pieces glued back together with `sep` between neighbours. */
  function Join(parts: seq<string>, sep: char): string
  {
    if parts == [] then ""
    else if |parts| == 1 then parts[0]
    else Join(parts[..|parts| - 1], sep) + [sep] + parts[|parts| - 1]
  }

  /** Splitting loses nothing: joining the pieces gives the string back. */
  lemma {:induction false} JoinSplit(s: string, sep: char)
    ensures Join(Split(s, sep), sep) == s
    decreases |s|
  {
    if s != [] {
      var t, c := s[..|s| - 1], s[|s| - 1];
      assert s == t + [c];
      JoinSplit(t, sep);
      var init := Split(t, sep);
      if c == sep {
        assert (init + [""])[..|init|] == init;
      } else {
        var parts := init[..|init| - 1] + [init[|init| - 1] + [c]];
        if |init| > 1 {
          assert parts[..|parts| - 1] == init[..|init| - 1];
        }
      }
    }
  }

  /** The text after the last separator: s ends with it, it holds no separator,
      and it is either all of s or preceded by a separator. */
  predicate IsLastSegment(s: string, sep: char, b: string)
  {
    |b| <= |s| && s[|s| - |b|..] == b && sep !in b &&
    (|b| == |s| || s[|s| - |b| - 1] == sep)
  }

  /** The last piece Split returns is the text after the last separator. */
  lemma {:induction false} LastPieceAfterLastSep(s: string, sep: char)
    ensures var parts := Split(s, sep); IsLastSegment(s, sep, parts[|parts| - 1])
    decreases |s|
  {
    if s != [] {
      var t, c := s[..|s| - 1], s[|s| - 1];
      assert s == t + [c];
      LastPieceAfterLastSep(t, sep);
      var init := Split(t, sep);
      var b := init[|init| - 1];
      if c != sep {
        var parts := Split(s, sep);
        assert parts[|parts| - 1] == b + [c];
        assert s[|s| - |b + [c]|..] == t[|t| - |b|..] + [c];
      }
    }
  }

  /** The last piece of Split(s, sep), as `paths[len(paths)-1]`. */
  function LastSegment(s: string, sep: char): (b: string)
    ensures IsLastSegment(s, sep, b)
  {
    LastPieceAfterLastSep(s, sep);
    var parts := Split(s, sep);
    parts[|parts| - 1]
  }

  /** At most one string is the text after the last separator. */
  lemma LastSegmentUnique(s: string, sep: char, b1: string, b2: string)
    requires IsLastSegment(s, sep, b1) && IsLastSegment(s, sep, b2)
    ensures b1 == b2
  {
  }

  /** A separator-free name after the last separator is the last segment. */
  lemma LastSegmentAfterSep(dir: string, sep: char, file: string)
    requires sep !in file
    ensures LastSegment(dir + [sep] + file, sep) == file
  {
    var path := dir + [sep] + file;
    assert path[|path| - |file|..] == file;
    assert path[|path| - |file| - 1] == sep;
    LastSegmentUnique(path, sep, file, LastSegment(path, sep));
  }

  // ---------------------------------------------------------------------------
  // strconv.Itoa on a non-negative int, and its inverse
  // ---------------------------------------------------------------------------

  predicate IsDigit(c: char) { '0' <= c <= '9' }

  predicate AllDigits(s: string) { forall i :: 0 <= i < |s| ==> IsDigit(s[i]) }

  function DigitChar(d: nat): (c: char)
    requires d < 10
    ensures IsDigit(c)
  {
    ('0' as int + d) as char
  }

  function DigitValue(c: char): (d: nat)
    requires IsDigit(c)
    ensures d < 10
  {
    c as int - '0' as int
  }

  /** Decimal notation of n, most significant digit first, no leading zero. */
  function Itoa(n: nat): (s: string)
    ensures |s| >= 1 && AllDigits(s)
    ensures s[0] == '0' ==> s == "0"
  {
    if n < 10 then [DigitChar(n)]
    else Itoa(n / 10) + [DigitChar(n % 10)]
  }

  /** The number a string of decimal digits denotes. */
  function Atoi(s: string): nat
    requires AllDigits(s)
  {
    if s == [] then 0
    else Atoi(s[..|s| - 1]) * 10 + DigitValue(s[|s| - 1])
  }

  /** Reading back the decimal notation of n gives n. */
  lemma {:induction false} AtoiItoa(n: nat)
    ensures Atoi(Itoa(n)) == n
  {
    if n >= 10 {
      var s := Itoa(n);
      assert s[..|s| - 1] == Itoa(n / 10);
      AtoiItoa(n / 10);
    }
  }

  /** Distinct numbers have distinct decimal notations. */
  lemma ItoaInjective(a: nat, b: nat)
    requires a != b
    ensures Itoa(a) != Itoa(b)
  {
    AtoiItoa(a);
    AtoiItoa(b);
  }

  // ---------------------------------------------------------------------------
  // The text before the first occurrence of a delimiter
  // ---------------------------------------------------------------------------

  /** The longest prefix of s without `delim` (all of s if delim does not occur). */
  function BeforeFirst(s: string, delim: char): (p: string)
    ensures |p| <= |s| && p == s[..|p|] && delim !in p
    ensures |p| < |s| ==> s[|p|] == delim
  {
    if s == [] || s[0] == delim then []
    else [s[0]] + BeforeFirst(s[1..], delim)
  }

  /** A delimiter-free head followed by the delimiter is exactly what BeforeFirst returns. */
  lemma {:induction false} BeforeFirstOfConcat(a: string, delim: char, b: string)
    requires delim !in a
    ensures BeforeFirst(a + [delim] + b, delim) == a
  {
    if a != [] {
      assert (a + [delim] + b)[1..] == a[1..] + [delim] + b;
      BeforeFirstOfConcat(a[1..], delim, b);
    }
  }
}
