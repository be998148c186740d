/**
 * The .NET library behaviours that the controller and the report parser rely on,
 * written out so that their edge cases are explicit: C#'s truncating `%`,
 * `String.Trim` and `String.IsNullOrWhiteSpace`, ordinal case-insensitive
 * equality, `StartsWith`, `Split` with trimmed and non-empty entries, and the
 * decimal rendering of an `int`.
 */
module DotNet {

  /** C#'s `a % b`: division truncates toward zero, so the remainder has the sign of `a`. */
  function CsRem(a: int, b: int): (r: int)
    requires b > 0
    ensures -b < r < b
    ensures a >= 0 ==> r >= 0
    ensures a <= 0 ==> r <= 0
  {
    if a >= 0 then a % b else -((-a) % b)
  }

  /**
   * The C# remainder is congruent to its dividend, and wrapping a negative one
   * forward by one modulus gives Dafny's (Euclidean) remainder.
   */
  lemma CsRemWrapsToEuclidean(a: int, b: int)
    requires b > 0
    ensures CsRem(a, b) >= 0 ==> CsRem(a, b) == a % b
    ensures CsRem(a, b) < 0 ==> CsRem(a, b) + b == a % b
    ensures CsRem(a, b) % b == a % b
  {
    if a < 0 {
      var x := -a;
      var qx, rx := x / b, x % b;
      assert x == qx * b + rx;
      if rx == 0 {
        EuclideanUnique(a, b, -qx, 0);
      } else {
        assert a == (-qx - 1) * b + (b - rx);
        EuclideanUnique(a, b, -qx - 1, b - rx);
        EuclideanUnique(-rx, b, -1, b - rx);
      }
    }
  }

  /** Any decomposition `a == q * b + r` with `0 <= r < b` is Dafny's Euclidean one. */
  lemma EuclideanUnique(a: int, b: int, q: int, r: int)
    requires b > 0 && 0 <= r < b && a == q * b + r
    ensures a % b == r && a / b == q
  {
    var q0, r0 := a / b, a % b;
    assert a == q0 * b + r0;
    var d := q - q0;
    assert d * b == r0 - r by {
      assert q * b - q0 * b == (q - q0) * b;
    }
    if d >= 1 {
      MulAtLeast(d, b);
    } else if d <= -1 {
      MulAtLeast(-d, b);
    }
  }

  lemma MulAtLeast(d: int, b: int)
    requires d >= 1 && b > 0
    ensures d * b >= b
  {
    assert d * b == (d - 1) * b + b;
  }

  /** What `Char.IsWhiteSpace` accepts: the Unicode space, line and paragraph separators and U+0009..U+000D, U+0085. */
  const WhiteSpaceChars: set<char> := {
    ' ', '\t', '\n', '\U{000B}', '\U{000C}', '\r', '\U{0085}', '\U{00A0}', '\U{1680}',
    '\U{2000}', '\U{2001}', '\U{2002}', '\U{2003}', '\U{2004}', '\U{2005}', '\U{2006}', '\U{2007}',
    '\U{2008}', '\U{2009}', '\U{200A}',
    '\U{2028}', '\U{2029}', '\U{202F}', '\U{205F}', '\U{3000}'
  }

  /** `Char.IsWhiteSpace`. */
  predicate IsWhiteSpace(c: char) {
    c in WhiteSpaceChars
  }

  /** `String.IsNullOrWhiteSpace` (a null string is modelled as the empty one). */
  predicate IsBlank(s: string) {
    forall i :: 0 <= i < |s| ==> IsWhiteSpace(s[i])
  }

  /** How many characters at the front of `s` pass `p`. */
  function CountLeading(s: string, p: char -> bool): (n: nat)
    ensures n <= |s|
    ensures forall i :: 0 <= i < n ==> p(s[i])
    ensures n == |s| || !p(s[n])
  {
    if s != [] && p(s[0]) then 1 + CountLeading(s[1..], p) else 0
  }

  /** How many characters at the back of `s` pass `p`. */
  function CountTrailing(s: string, p: char -> bool): (n: nat)
    ensures n <= |s|
    ensures forall i :: |s| - n <= i < |s| ==> p(s[i])
    ensures n == |s| || !p(s[|s| - n - 1])
  {
    if s != [] && p(s[|s| - 1]) then 1 + CountTrailing(s[..|s| - 1], p) else 0
  }

  /** How many white-space characters `s` starts with. */
  function LeadingWhiteSpace(s: string): (n: nat)
    ensures n <= |s|
    ensures forall i :: 0 <= i < n ==> IsWhiteSpace(s[i])
    ensures n == |s| || !IsWhiteSpace(s[n])
  {
    CountLeading(s, IsWhiteSpace)
  }

  /** How many white-space characters `s` ends with. */
  function TrailingWhiteSpace(s: string): (n: nat)
    ensures n <= |s|
    ensures forall i :: |s| - n <= i < |s| ==> IsWhiteSpace(s[i])
    ensures n == |s| || !IsWhiteSpace(s[|s| - n - 1])
  {
    CountTrailing(s, IsWhiteSpace)
  }

  /** `String.Trim`: the input without its leading and trailing white space. */
  function Trim(s: string): (r: string)
    ensures r == [] <==> IsBlank(s)
    ensures IsTrimmed(r)
    ensures |r| <= |s|
  {
    var a := LeadingWhiteSpace(s);
    var t := s[a..];
    var r := t[..|t| - TrailingWhiteSpace(t)];
    assert r != [] ==> r[0] == t[0] && r[|r| - 1] == t[|t| - TrailingWhiteSpace(t) - 1];
    assert r == [] <==> IsBlank(s) by {
      if a < |s| {
        assert !IsWhiteSpace(t[0]);
        assert !IsBlank(s) by { assert !IsWhiteSpace(s[a]); }
      }
    }
    r
  }

  /**
   * `Trim` removes white space at both ends and nothing else: the result is the
   * input's characters from position `LeadingWhiteSpace(s)` on, and everything
   * after them is white space.
   */
  lemma TrimRemovesOnlyOuterWhiteSpace(s: string)
    ensures LeadingWhiteSpace(s) + |Trim(s)| <= |s|
    ensures forall i :: 0 <= i < |Trim(s)| ==> Trim(s)[i] == s[LeadingWhiteSpace(s) + i]
    ensures forall i :: LeadingWhiteSpace(s) + |Trim(s)| <= i < |s| ==> IsWhiteSpace(s[i])
  {
    var a := LeadingWhiteSpace(s);
    var t := s[a..];
    forall i | a + |Trim(s)| <= i < |s|
      ensures IsWhiteSpace(s[i])
    {
      assert s[i] == t[i - a];
    }
  }

  /** Neither end is white space: what `Trim` leaves behind. */
  predicate IsTrimmed(s: string) {
    s == [] || (!IsWhiteSpace(s[0]) && !IsWhiteSpace(s[|s| - 1]))
  }

  /** Trimming twice is trimming once. */
  lemma TrimIdempotent(s: string)
    ensures Trim(Trim(s)) == Trim(s)
  {
    TrimTrimmed(Trim(s));
  }

  /** Trimming a string that is already trimmed leaves it alone. */
  lemma TrimTrimmed(s: string)
    requires IsTrimmed(s)
    ensures Trim(s) == s
  {
    assert LeadingWhiteSpace(s) == 0;
    assert s[0..] == s;
    assert TrailingWhiteSpace(s) == 0;
  }

  function ToUpperAscii(c: char): char {
    if 'a' <= c <= 'z' then (c as int - 32) as char else c
  }

  /** `String.Equals(a, b, StringComparison.OrdinalIgnoreCase)` over the ASCII letters. */
  predicate EqualsIgnoreCase(a: string, b: string) {
    |a| == |b| && forall i :: 0 <= i < |a| ==> ToUpperAscii(a[i]) == ToUpperAscii(b[i])
  }

  /** Ordinal `StartsWith`. */
  predicate StartsWith(s: string, prefix: string) {
    |prefix| <= |s| && s[..|prefix|] == prefix
  }

  function DigitChar(d: nat): (c: char)
    requires d < 10
    ensures '0' <= c <= '9'
  {
    ('0' as int + d) as char
  }

  function NatToString(n: nat): (s: string)
    ensures |s| >= 1
    ensures forall i :: 0 <= i < |s| ==> '0' <= s[i] <= '9'
  {
    if n < 10 then [DigitChar(n)] else NatToString(n / 10) + [DigitChar(n % 10)]
  }

  /** `int.ToString()`: an optional minus sign followed by decimal digits. */
  function IntToString(n: int): (s: string)
    ensures |s| >= 1 && ':' !in s
  {
    if n < 0 then "-" + NatToString(-n) else NatToString(n)
  }

  /** Distinct numbers have distinct decimal texts. */
  lemma {:induction false} NatToStringInjective(n: nat, m: nat)
    requires NatToString(n) == NatToString(m)
    ensures n == m
  {
    var s := NatToString(n);
    if n < 10 && m < 10 {
      assert s[0] == DigitChar(n) == DigitChar(m);
    } else if n >= 10 && m >= 10 {
      var p, q := NatToString(n / 10), NatToString(m / 10);
      assert s == p + [DigitChar(n % 10)] == q + [DigitChar(m % 10)];
      assert DigitChar(n % 10) == s[|s| - 1] == DigitChar(m % 10);
      assert p == s[..|s| - 1] == q;
      NatToStringInjective(n / 10, m / 10);
    }
  }

  /** `int.ToString()` is one-to-one. */
  lemma IntToStringInjective(n: int, m: int)
    requires IntToString(n) == IntToString(m)
    ensures n == m
  {
    var s := IntToString(n);
    assert s[0] == '-' <==> n < 0;
    assert IntToString(m)[0] == '-' <==> m < 0;
    if n < 0 && m < 0 {
      assert NatToString(-n) == s[1..] == NatToString(-m);
      NatToStringInjective(-n, -m);
    } else if n >= 0 && m >= 0 {
      NatToStringInjective(n, m);
    }
  }

  /** `s.Split(sep)`: the pieces between separators, empty pieces included. */
  function SplitOn(s: string, sep: char): (parts: seq<string>)
    ensures |parts| >= 1
    ensures forall i :: 0 <= i < |parts| ==> sep !in parts[i]
  {
    if s == [] then [""]
    else
      var rest := SplitOn(s[1..], sep);
      if s[0] == sep then [""] + rest else [[s[0]] + rest[0]] + rest[1..]
  }

  /** `String.Join(sep, parts)`. */
  function Join(parts: seq<string>, sep: char): string
    requires |parts| >= 1
  {
    if |parts| == 1 then parts[0] else parts[0] + [sep] + Join(parts[1..], sep)
  }

  /** Splitting loses nothing: joining the pieces with the separator gives the input back. */
  lemma {:induction false} SplitJoin(s: string, sep: char)
    ensures Join(SplitOn(s, sep), sep) == s
  {
    if s != [] {
      var rest := SplitOn(s[1..], sep);
      SplitJoin(s[1..], sep);
      if s[0] == sep {
        assert SplitOn(s, sep)[1..] == rest;
      } else {
        var parts := SplitOn(s, sep);
        if |rest| == 1 {
          assert parts == [[s[0]] + rest[0]];
        } else {
          assert parts[1..] == rest[1..];
          assert Join(rest, sep) == rest[0] + [sep] + Join(rest[1..], sep);
        }
      }
    }
  }

  /** What a split-and-trim entry looks like: not empty, no separator, no outer white space. */
  predicate IsEntry(e: string, sep: char) {
    e != [] && sep !in e && IsTrimmed(e)
  }

  /** The trimmed pieces that are not empty, in order. */
  function TrimmedNonEmpty(parts: seq<string>, sep: char): (entries: seq<string>)
    requires forall j :: 0 <= j < |parts| ==> sep !in parts[j]
    ensures |entries| <= |parts|
    ensures forall i :: 0 <= i < |entries| ==> IsEntry(entries[i], sep)
  {
    if parts == [] then []
    else
      var rest := TrimmedNonEmpty(parts[1..], sep);
      var t := Trim(parts[0]);
      assert sep !in t by {
        if sep in t { TrimKeepsCharacters(parts[0], sep); }
      }
      if t == [] then rest else [t] + rest
  }

  /** `s.Split(sep, RemoveEmptyEntries | TrimEntries)`. */
  function SplitTrimmed(s: string, sep: char): (entries: seq<string>)
    ensures forall i :: 0 <= i < |entries| ==> IsEntry(entries[i], sep)
    ensures forall e :: e in entries <==> e != [] && exists p :: p in SplitOn(s, sep) && Trim(p) == e
  {
    TrimmedNonEmptyMembers(SplitOn(s, sep), sep);
    TrimmedNonEmpty(SplitOn(s, sep), sep)
  }

  /** An entry is present exactly when it is the non-empty trimmed text of some piece. */
  lemma {:induction false} TrimmedNonEmptyMembers(parts: seq<string>, sep: char)
    requires forall j :: 0 <= j < |parts| ==> sep !in parts[j]
    ensures forall e :: e in TrimmedNonEmpty(parts, sep) <==> e != [] && exists p :: p in parts && Trim(p) == e
  {
    if parts != [] {
      TrimmedNonEmptyMembers(parts[1..], sep);
      forall e | e != [] && (exists p :: p in parts && Trim(p) == e)
        ensures e in TrimmedNonEmpty(parts, sep)
      {
        var p :| p in parts && Trim(p) == e;
        if p != parts[0] {
          assert p in parts[1..];
        }
      }
    }
  }

  /**
   * Filtering keeps the order of the pieces: the entries of two runs of pieces are
   * the entries of the first run followed by those of the second.
   */
  lemma {:induction false} TrimmedNonEmptyAppend(a: seq<string>, b: seq<string>, sep: char)
    requires forall j :: 0 <= j < |a| ==> sep !in a[j]
    requires forall j :: 0 <= j < |b| ==> sep !in b[j]
    ensures forall j :: 0 <= j < |a + b| ==> sep !in (a + b)[j]
    ensures TrimmedNonEmpty(a + b, sep) == TrimmedNonEmpty(a, sep) + TrimmedNonEmpty(b, sep)
    decreases |a|
  {
    assert forall j :: 0 <= j < |a + b| ==> sep !in (a + b)[j] by {
      forall j | 0 <= j < |a + b| ensures sep !in (a + b)[j] {
        if j < |a| { assert (a + b)[j] == a[j]; } else { assert (a + b)[j] == b[j - |a|]; }
      }
    }
    if a == [] {
      assert a + b == b;
    } else {
      var ab := a + b;
      assert ab[0] == a[0];
      assert ab[1..] == a[1..] + b;
      TrimmedNonEmptyAppend(a[1..], b, sep);
      assert TrimmedNonEmpty(ab, sep)
          == (if Trim(a[0]) == [] then [] else [Trim(a[0])]) + TrimmedNonEmpty(a[1..] + b, sep);
    }
  }

  /** A single piece yields its trimmed text, or nothing when that is empty. */
  lemma TrimmedNonEmptySingle(p: string, sep: char)
    requires sep !in p
    ensures TrimmedNonEmpty([p], sep) == if IsBlank(p) then [] else [Trim(p)]
  {
    assert [p][1..] == [];
  }

  /** Every character of a trimmed string comes from the untrimmed one. */
  lemma TrimKeepsCharacters(s: string, c: char)
    requires c in Trim(s)
    ensures c in s
  {
    TrimRemovesOnlyOuterWhiteSpace(s);
    var r := Trim(s);
    var i :| 0 <= i < |r| && r[i] == c;
    assert s[LeadingWhiteSpace(s) + i] == c;
  }
}
