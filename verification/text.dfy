/**
 * Text helpers shared by the Python and JavaScript parts of the model:
 * Python's `str.strip()` and JavaScript's `String.prototype.trim()` (which
 * differ in the characters they treat as white space), ASCII case folding,
 * prefix and substring tests, and the decimal conversions behind Python's
 * `str(int)` and `int(str)`.
 */
module Text {
  import opened Wrappers

  // ---------------------------------------------------------------- white space

  /** The characters for which Python's `str.isspace()` holds. */
  predicate IsPyWhitespace(c: char)
  {
    ('\t' <= c <= '\r') || ('\U{1C}' <= c <= ' ') || c == '\U{85}' || c == '\U{A0}' ||
    c == '\U{1680}' || ('\U{2000}' <= c <= '\U{200A}') || c == '\U{2028}' || c == '\U{2029}' ||
    c == '\U{202F}' || c == '\U{205F}' || c == '\U{3000}'
  }

  /** The white space and line terminators removed by JavaScript's `trim()`. */
  predicate IsJsWhitespace(c: char)
  {
    ('\t' <= c <= '\r') || c == ' ' || c == '\U{A0}' || c == '\U{1680}' ||
    ('\U{2000}' <= c <= '\U{200A}') || c == '\U{2028}' || c == '\U{2029}' ||
    c == '\U{202F}' || c == '\U{205F}' || c == '\U{3000}' || c == '\U{FEFF}'
  }

  function DropLeading(s: string, ws: char -> bool): (r: string)
    ensures |r| <= |s| && r == s[|s| - |r|..]
    ensures r != [] ==> !ws(r[0])
    ensures forall i :: 0 <= i < |s| - |r| ==> ws(s[i])
  {
    if s != [] && ws(s[0]) then DropLeading(s[1..], ws) else s
  }

  function DropTrailing(s: string, ws: char -> bool): (r: string)
    ensures |r| <= |s| && r == s[..|r|]
    ensures r != [] ==> !ws(r[|r| - 1])
    ensures forall i :: |r| <= i < |s| ==> ws(s[i])
  {
    if s != [] && ws(s[|s| - 1]) then DropTrailing(s[..|s| - 1], ws) else s
  }

  /**
   * Removes the characters `ws` accepts from both ends. The result starts
   * and ends outside `ws`, and it is empty exactly when every character of
   * `s` is in `ws`.
   */
  function Trim(s: string, ws: char -> bool): (r: string)
    ensures |r| <= |s|
    ensures r != [] ==> !ws(r[0]) && !ws(r[|r| - 1])
    ensures r == [] <==> forall i :: 0 <= i < |s| ==> ws(s[i])
  {
    var left := DropLeading(s, ws);
    var r := DropTrailing(left, ws);
    assert r == s[|s| - |left|..][..|r|];
    assert r == [] ==> forall i :: 0 <= i < |s| ==> ws(s[i]) by {
      if r == [] {
        forall i | 0 <= i < |s| ensures ws(s[i]) {
          if i >= |s| - |left| {
            assert s[i] == left[i - (|s| - |left|)];
          }
        }
      }
    }
    r
  }

  /** Python's `str.strip()` with no argument. */
  function PyStrip(s: string): string
  {
    Trim(s, IsPyWhitespace)
  }

  /** JavaScript's `String.prototype.trim()`. */
  function JsTrim(s: string): string
  {
    Trim(s, IsJsWhitespace)
  }

  lemma {:induction false} TrimUnchanged(s: string, ws: char -> bool)
    requires s != [] && !ws(s[0]) && !ws(s[|s| - 1])
    ensures Trim(s, ws) == s
  {
    assert DropLeading(s, ws) == s;
  }

  /** Trimming is idempotent. */
  lemma {:induction false} TrimTwice(s: string, ws: char -> bool)
    ensures Trim(Trim(s, ws), ws) == Trim(s, ws)
  {
    TrimFixed(Trim(s, ws), ws);
  }

  /** A text that starts and ends outside `ws`, or is empty, is its own trim. */
  lemma {:induction false} TrimFixed(r: string, ws: char -> bool)
    requires r != [] ==> !ws(r[0]) && !ws(r[|r| - 1])
    ensures Trim(r, ws) == r
  {
    if r != [] {
      TrimUnchanged(r, ws);
    } else {
      assert Trim(r, ws) == [];
    }
  }

  // ---------------------------------------------------------------- case, prefixes

  /** Lower-cases the ASCII letters and leaves every other character alone. */
  function AsciiLower(s: string): (r: string)
    ensures |r| == |s|
    ensures forall i :: 0 <= i < |s| ==> r[i] == (if 'A' <= s[i] <= 'Z' then (s[i] as int + 32) as char else s[i])
  {
    if s == [] then []
    else [if 'A' <= s[0] <= 'Z' then (s[0] as int + 32) as char else s[0]] + AsciiLower(s[1..])
  }

  predicate StartsWith(s: string, prefix: string)
  {
    |prefix| <= |s| && s[..|prefix|] == prefix
  }

  /** Python's `sub in s` on strings. */
  predicate Contains(s: string, sub: string)
  {
    StartsWith(s, sub) || (s != [] && Contains(s[1..], sub))
  }

  // ---------------------------------------------------------------- ordering

  /** Python's `a <= b` on strings: code point by code point, a prefix first. */
  predicate LexLe(a: string, b: string)
  {
    a == [] || (b != [] && (a[0] < b[0] || (a[0] == b[0] && LexLe(a[1..], b[1..]))))
  }

  lemma {:induction false} LexLeReflexive(a: string)
    ensures LexLe(a, a)
  {
    if a != [] {
      LexLeReflexive(a[1..]);
    }
  }

  lemma {:induction false} LexLeTotal(a: string, b: string)
    ensures LexLe(a, b) || LexLe(b, a)
  {
    if a != [] && b != [] && a[0] == b[0] {
      LexLeTotal(a[1..], b[1..]);
    }
  }

  lemma {:induction false} LexLeTransitive(a: string, b: string, c: string)
    requires LexLe(a, b) && LexLe(b, c)
    ensures LexLe(a, c)
  {
    if a != [] && a[0] == b[0] && b[0] == c[0] {
      LexLeTransitive(a[1..], b[1..], c[1..]);
    }
  }

  predicate SortedText(s: seq<string>)
  {
    forall i, j :: 0 <= i < j < |s| ==> LexLe(s[i], s[j])
  }

  /** `x` placed before the first string it does not follow. */
  function InsertText(x: string, s: seq<string>): (r: seq<string>)
    ensures |r| == |s| + 1
    ensures multiset(r) == multiset(s) + multiset{x}
  {
    if s == [] then [x]
    else if LexLe(x, s[0]) then [x] + s
    else
      assert s == [s[0]] + s[1..];
      [s[0]] + InsertText(x, s[1..])
  }

  /** Python's `list.sort()` on a list of strings. */
  function SortText(s: seq<string>): (r: seq<string>)
    ensures multiset(r) == multiset(s)
  {
    if s == [] then []
    else
      assert s == [s[0]] + s[1..];
      InsertText(s[0], SortText(s[1..]))
  }

  /** Every string of `s` follows `y`. */
  predicate AllFollow(y: string, s: seq<string>)
  {
    forall i :: 0 <= i < |s| ==> LexLe(y, s[i])
  }

  /** A lower bound of `x` and of every string of `s` bounds their insertion too. */
  lemma {:induction false} InsertTextFollows(y: string, x: string, s: seq<string>)
    requires LexLe(y, x) && AllFollow(y, s)
    ensures AllFollow(y, InsertText(x, s))
  {
    var r := InsertText(x, s);
    forall i | 0 <= i < |r|
      ensures LexLe(y, r[i])
    {
      assert r[i] in multiset(r);
      if r[i] != x {
        assert r[i] in multiset(s);
        var k :| 0 <= k < |s| && s[k] == r[i];
      }
    }
  }

  /** A sorted sequence after a string every one of its strings follows. */
  lemma {:induction false} SortedCons(y: string, t: seq<string>)
    requires SortedText(t) && AllFollow(y, t)
    ensures SortedText([y] + t)
  {
    var r := [y] + t;
    forall i, j | 0 <= i < j < |r|
      ensures LexLe(r[i], r[j])
    {
      if i > 0 {
        assert r[i] == t[i - 1] && r[j] == t[j - 1];
      } else {
        assert r[j] == t[j - 1];
      }
    }
  }

  lemma {:induction false} InsertTextSorted(x: string, s: seq<string>)
    requires SortedText(s)
    ensures SortedText(InsertText(x, s))
  {
    if s == [] {
    } else if LexLe(x, s[0]) {
      forall j | 0 <= j < |s|
        ensures LexLe(x, s[j])
      {
        if j > 0 {
          LexLeTransitive(x, s[0], s[j]);
        }
      }
      SortedCons(x, s);
    } else {
      var rest := s[1..];
      LexLeTotal(x, s[0]);
      assert SortedText(rest) by {
        forall i, j | 0 <= i < j < |rest|
          ensures LexLe(rest[i], rest[j])
        {
          assert rest[i] == s[i + 1] && rest[j] == s[j + 1];
        }
      }
      assert AllFollow(s[0], rest) by {
        forall i | 0 <= i < |rest|
          ensures LexLe(s[0], rest[i])
        {
          assert rest[i] == s[i + 1];
        }
      }
      InsertTextSorted(x, rest);
      InsertTextFollows(s[0], x, rest);
      SortedCons(s[0], InsertText(x, rest));
    }
  }

  /** The sort leaves its strings in ascending order. */
  lemma {:induction false} SortTextSorted(s: seq<string>)
    ensures SortedText(SortText(s))
  {
    if s != [] {
      SortTextSorted(s[1..]);
      InsertTextSorted(s[0], SortText(s[1..]));
    }
  }

  /** The first string of a sorted sequence comes before all of them. */
  lemma {:induction false} SortedLeast(t: seq<string>)
    requires SortedText(t) && t != []
    ensures forall k :: k in t ==> LexLe(t[0], k)
  {
    forall k | k in t
      ensures LexLe(t[0], k)
    {
      var j :| 0 <= j < |t| && t[j] == k;
      if j == 0 {
        LexLeReflexive(k);
      }
    }
  }

  /**
   * The first two strings of the sorted list are the smallest string and
   * the smallest of the rest.
   */
  lemma {:induction false} SortTextFirstTwo(s: seq<string>)
    requires |s| >= 2
    ensures var t := SortText(s);
      && |t| == |s|
      && t[0] in s
      && t[1] in multiset(s) - multiset{t[0]}
      && (forall k :: k in s ==> LexLe(t[0], k))
      && (forall k :: k in multiset(s) - multiset{t[0]} ==> LexLe(t[1], k))
  {
    var t := SortText(s);
    SortTextSorted(s);
    assert |t| == |s| by {
      assert |multiset(t)| == |multiset(s)|;
    }
    var rest := t[1..];
    assert t == [t[0]] + rest;
    assert multiset(rest) == multiset(s) - multiset{t[0]};
    assert t[0] in multiset(t);
    assert t[1] == rest[0];
    assert SortedText(rest) by {
      forall i, j | 0 <= i < j < |rest|
        ensures LexLe(rest[i], rest[j])
      {
        assert rest[i] == t[i + 1] && rest[j] == t[j + 1];
      }
    }
    SortedLeast(t);
    SortedLeast(rest);
    forall k | k in s
      ensures LexLe(t[0], k)
    {
      assert k in multiset(t);
      assert k in t;
    }
    forall k | k in multiset(s) - multiset{t[0]}
      ensures LexLe(t[1], k)
    {
      assert k in multiset(rest);
      assert k in rest;
    }
  }

  // ---------------------------------------------------------------- decimal integers

  predicate IsDigit(c: char)
  {
    '0' <= c <= '9'
  }

  function DigitChar(d: nat): (c: char)
    requires d < 10
    ensures IsDigit(c)
  {
    (d + '0' as int) as char
  }

  function DigitValue(c: char): (d: nat)
    requires IsDigit(c)
    ensures d < 10 && DigitChar(d) == c
  {
    c as int - '0' as int
  }

  /** Python's `str(n)` for a non-negative integer. */
  function NatToString(n: nat): (s: string)
    ensures s != [] && forall i :: 0 <= i < |s| ==> IsDigit(s[i])
  {
    if n < 10 then [DigitChar(n)] else NatToString(n / 10) + [DigitChar(n % 10)]
  }

  /** Python's `str(n)` for an integer: a minus sign, then the digits. */
  function IntToString(n: int): (s: string)
    ensures s != [] && IsDigit(s[|s| - 1])
  {
    if n < 0 then "-" + NatToString(-n) else NatToString(n)
  }

  /**
   * The digit strings `int()` accepts after the sign: ASCII digits, with
   * single underscores allowed between two digits (the first and last
   * characters are digits and no two underscores are adjacent).
   */
  predicate DigitGroups(t: string)
  {
    && t != []
    && IsDigit(t[0]) && IsDigit(t[|t| - 1])
    && (forall i :: 0 <= i < |t| ==> IsDigit(t[i]) || t[i] == '_')
    && (forall i, j {:trigger t[i], t[j]} :: 0 <= i < |t| && 0 <= j < |t| && j == i + 1 ==> t[i] != '_' || t[j] != '_')
  }

  /** The value of a digit string, underscores ignored. */
  function DigitsValue(t: string): nat
    requires forall i :: 0 <= i < |t| ==> IsDigit(t[i]) || t[i] == '_'
  {
    if t == [] then 0
    else if t[|t| - 1] == '_' then DigitsValue(t[..|t| - 1])
    else 10 * DigitsValue(t[..|t| - 1]) + DigitValue(t[|t| - 1])
  }

  /**
   * Python's `int(text)` on a string: surrounding white space is ignored, an
   * optional sign comes first, and anything else makes `int` raise
   * `ValueError` (here `None`).
   */
  function ParseInt(text: string): Option<int>
  {
    var t := PyStrip(text);
    if t != [] && (t[0] == '+' || t[0] == '-') then
      var body := t[1..];
      if DigitGroups(body) then
        var v: int := DigitsValue(body);
        Some(if t[0] == '-' then -v else v)
      else None
    else if DigitGroups(t) then Some(DigitsValue(t))
    else None
  }

  lemma {:induction false} NatToStringValue(n: nat)
    ensures DigitsValue(NatToString(n)) == n
  {
    var s := NatToString(n);
    if n >= 10 {
      NatToStringValue(n / 10);
      assert s[..|s| - 1] == NatToString(n / 10);
    }
  }

  /** The digits of `str(n)` form a digit string `int()` accepts. */
  lemma {:induction false} NatToStringGroups(n: nat)
    ensures DigitGroups(NatToString(n))
  {
    var s := NatToString(n);
    assert forall i :: 0 <= i < |s| ==> IsDigit(s[i]);
  }

  /** `int()` on an unsigned digit string with no white space around it. */
  lemma {:induction false} ParseUnsigned(t: string)
    requires DigitGroups(t)
    ensures ParseInt(t) == Some(DigitsValue(t))
  {
    TrimUnchanged(t, IsPyWhitespace);
    assert PyStrip(t) == t;
  }

  /** `int()` on a minus sign followed by a digit string. */
  lemma {:induction false} ParseNegative(s: string, t: string)
    requires DigitGroups(t) && s == "-" + t
    ensures ParseInt(s) == Some(-(DigitsValue(t) as int))
  {
    assert s[|s| - 1] == t[|t| - 1];
    TrimUnchanged(s, IsPyWhitespace);
    assert PyStrip(s) == s;
    assert s[1..] == t;
  }

  /** `int(str(n)) == n` for a non-negative `n`. */
  lemma {:induction false} NatToStringParses(n: int)
    requires n >= 0
    ensures ParseInt(IntToString(n)) == Some(n)
  {
    var t := NatToString(n);
    assert IntToString(n) == t;
    NatToStringGroups(n);
    NatToStringValue(n);
    ParseUnsigned(t);
  }

  /** `int(str(n)) == n` for a negative `n`: the minus sign, then the digits of `-n`. */
  lemma {:induction false} NegativeToStringParses(n: int)
    requires n < 0
    ensures ParseInt(IntToString(n)) == Some(n)
  {
    var m: nat := -n;
    IntToStringNegative(n);
    NatToStringGroups(m);
    NatToStringValue(m);
    ParseNegative(IntToString(n), NatToString(m));
  }

  /** `str(n)` of a negative `n` is a minus sign followed by `str(-n)`. */
  lemma {:induction false} IntToStringNegative(n: int)
    requires n < 0
    ensures IntToString(n) == "-" + NatToString(-n)
  {
  }

  /** `int(str(n)) == n` for every integer `n`. */
  lemma {:induction false} ParseIntToString(n: int)
    ensures ParseInt(IntToString(n)) == Some(n)
  {
    if n < 0 {
      NegativeToStringParses(n);
    } else {
      NatToStringParses(n);
    }
  }

  // ---------------------------------------------------------------- splitting

  /** JavaScript's `s.split(sep)` for a one-character separator. */
  function Split(s: string, sep: char): (r: seq<string>)
    ensures |r| >= 1
    ensures forall k, i :: 0 <= k < |r| && 0 <= i < |r[k]| ==> r[k][i] != sep
  {
    if s == [] then [""]
    else
      var rest := Split(s[1..], sep);
      if s[0] == sep then [""] + rest else [[s[0]] + rest[0]] + rest[1..]
  }

  /** The parts joined back with the separator between them. */
  function Join(parts: seq<string>, sep: char): string
  {
    if parts == [] then "" else if |parts| == 1 then parts[0] else parts[0] + [sep] + Join(parts[1..], sep)
  }

  /** Splitting loses nothing: joining the parts gives back the text. */
  lemma {:induction false} JoinSplit(s: string, sep: char)
    ensures Join(Split(s, sep), sep) == s
  {
    if s != [] {
      JoinSplit(s[1..], sep);
      var rest := Split(s[1..], sep);
      if s[0] != sep {
        var parts := [[s[0]] + rest[0]] + rest[1..];
        if |rest| == 1 {
          assert parts == [[s[0]] + rest[0]];
        } else {
          assert parts[1..] == rest[1..];
          assert Join(rest, sep) == rest[0] + [sep] + Join(rest[1..], sep);
        }
      } else {
        assert ([""] + rest)[1..] == rest;
      }
    }
  }

  // ---------------------------------------------------------------- searching and replacing

  /** Python's `s.rfind(c)`: the last index holding `c`, or -1. */
  function RFind(s: string, c: char): (i: int)
    ensures -1 <= i < |s|
    ensures i >= 0 ==> s[i] == c
    ensures forall j :: i < j < |s| ==> s[j] != c
  {
    if s == [] then -1
    else if s[|s| - 1] == c then |s| - 1
    else RFind(s[..|s| - 1], c)
  }

  /**
   * Python's `s.replace(pat, rep)`: scanning from the left, every occurrence
   * of `pat` that does not overlap an earlier one becomes `rep`.
   */
  function ReplaceAll(s: string, pat: string, rep: string): string
    requires pat != []
    decreases |s|
  {
    if |s| < |pat| then s
    else if s[..|pat|] == pat then rep + ReplaceAll(s[|pat|..], pat, rep)
    else [s[0]] + ReplaceAll(s[1..], pat, rep)
  }

  /** Text without the first character of the pattern passes through unchanged. */
  lemma {:induction false} ReplaceAllSkips(a: string, b: string, pat: string, rep: string)
    requires pat != [] && pat[0] !in a
    ensures ReplaceAll(a + b, pat, rep) == a + ReplaceAll(b, pat, rep)
    decreases |a|
  {
    if a != [] {
      var s := a + b;
      if |s| >= |pat| {
        assert s[..|pat|][0] == a[0] != pat[0];
        assert s[1..] == a[1..] + b;
        ReplaceAllSkips(a[1..], b, pat, rep);
        assert [a[0]] + (a[1..] + ReplaceAll(b, pat, rep)) == a + ReplaceAll(b, pat, rep);
      } else {
        ReplaceAllShort(s, pat, rep);
        ReplaceAllShort(b, pat, rep);
      }
    } else {
      assert a + b == b;
    }
  }

  lemma {:induction false} ReplaceAllShort(s: string, pat: string, rep: string)
    requires pat != [] && |s| < |pat|
    ensures ReplaceAll(s, pat, rep) == s
  {
  }

  /** The pattern itself becomes the replacement. */
  lemma {:induction false} ReplaceAllWhole(pat: string, rep: string)
    requires pat != []
    ensures ReplaceAll(pat, pat, rep) == rep
  {
    assert pat[..|pat|] == pat;
    assert pat[|pat|..] == [];
  }
}
