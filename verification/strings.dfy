/** The handful of Python string operations the pipeline relies on:
    `str.split` with a one-character separator, `sep.join`, `strip`,
    substring tests, lexicographic comparison and decimal formatting of
    integers. Strings are `seq<char>`; only ASCII case folding is
    modelled. */
module Strings {

  /** Python's `s.split(sep)` for a one-character separator: the pieces
      between consecutive separators, always at least one piece. */
  function Split(s: string, sep: char): (parts: seq<string>)
    ensures |parts| >= 1
    ensures forall i :: 0 <= i < |parts| ==> sep !in parts[i]
    ensures |parts| == 1 <==> sep !in s
  {
    if |s| == 0 then [""]
    else
      var rest := Split(s[1..], sep);
      if s[0] == sep then [""] + rest
      else [[s[0]] + rest[0]] + rest[1..]
  }

  /** Python's `sep.join(parts)`. */
  function Join(parts: seq<string>, sep: char): string
  {
    if |parts| == 0 then ""
    else if |parts| == 1 then parts[0]
    else parts[0] + [sep] + Join(parts[1..], sep)
  }

  /** Joining two pieces puts the separator between them. */
  lemma JoinTwo(a: string, b: string, sep: char)
    ensures Join([a, b], sep) == a + [sep] + b
  {
    assert [a, b][1..] == [b];
  }

  /** Joining four pieces puts the separator between each two. */
  lemma JoinFour(a: string, b: string, c: string, d: string, sep: char)
    ensures Join([a, b, c, d], sep) == a + [sep] + b + [sep] + c + [sep] + d
  {
    assert [c, d][1..] == [d];
    assert Join([c, d], sep) == c + [sep] + d;
    assert [b, c, d][1..] == [c, d];
    assert Join([b, c, d], sep) == b + [sep] + (c + [sep] + d);
    assert [a, b, c, d][1..] == [b, c, d];
    assert Join([a, b, c, d], sep) == a + [sep] + (b + [sep] + (c + [sep] + d));
    assert a + [sep] + (b + [sep] + (c + [sep] + d)) == a + [sep] + b + [sep] + c + [sep] + d;
  }

  /** Splitting a string that starts with a known character. */
  lemma SplitCons(c: char, t: string, sep: char)
    ensures Split([c] + t, sep) == if c == sep then [""] + Split(t, sep) else [[c] + Split(t, sep)[0]] + Split(t, sep)[1..]
  {
    assert ([c] + t)[1..] == t;
  }

  /** The list algebra behind `SplitAround`: extending the first piece
      commutes with appending further pieces. */
  lemma ExtendFirstPiece(x: string, left: seq<string>, right: seq<string>)
    requires |left| >= 1
    ensures [x + (left + right)[0]] + (left + right)[1..] == ([x + left[0]] + left[1..]) + right
  {
    assert (left + right)[0] == left[0];
    assert (left + right)[1..] == left[1..] + right;
  }

  /** Splitting at a separator splits the two sides independently. */
  lemma {:induction false} SplitAround(a: string, b: string, sep: char)
    ensures Split(a + [sep] + b, sep) == Split(a, sep) + Split(b, sep)
    decreases |a|
  {
    if |a| == 0 {
      assert a + [sep] + b == [sep] + b;
      SplitCons(sep, b, sep);
    } else {
      SplitAround(a[1..], b, sep);
      SplitAroundStep(a, b, sep);
    }
  }

  /** The inductive step of `SplitAround`: one more leading character. */
  lemma SplitAroundStep(a: string, b: string, sep: char)
    requires |a| > 0
    requires Split(a[1..] + [sep] + b, sep) == Split(a[1..], sep) + Split(b, sep)
    ensures Split(a + [sep] + b, sep) == Split(a, sep) + Split(b, sep)
  {
    var t := a[1..] + [sep] + b;
    assert a + [sep] + b == [a[0]] + t;
    assert a == [a[0]] + a[1..];
    SplitConsAppend(a[0], a[1..], t, Split(b, sep), sep);
  }

  /** Prepending one character to two strings whose splits differ by a
      common tail keeps that difference. */
  lemma SplitConsAppend(c: char, x: string, y: string, right: seq<string>, sep: char)
    requires Split(y, sep) == Split(x, sep) + right
    ensures Split([c] + y, sep) == Split([c] + x, sep) + right
  {
    var left := Split(x, sep);
    SplitCons(c, y, sep);
    SplitCons(c, x, sep);
    if c == sep {
      assert [""] + (left + right) == ([""] + left) + right;
    } else {
      ExtendFirstPiece([c], left, right);
    }
  }

  /** Prepending to the first piece prepends to the joined string. */
  lemma JoinConsFirst(x: string, ps: seq<string>, sep: char)
    requires |ps| >= 1
    ensures Join([x + ps[0]] + ps[1..], sep) == x + Join(ps, sep)
  {
    if |ps| > 1 {
      assert ([x + ps[0]] + ps[1..])[1..] == ps[1..];
    }
  }

  /** Joining the pieces of a split gives the original string back. */
  lemma {:induction false} JoinSplit(s: string, sep: char)
    ensures Join(Split(s, sep), sep) == s
    decreases |s|
  {
    if |s| > 0 {
      var rest := Split(s[1..], sep);
      JoinSplit(s[1..], sep);
      assert s == [s[0]] + s[1..];
      if s[0] == sep {
        assert Split(s, sep) == [""] + rest;
        assert ([""] + rest)[1..] == rest;
      } else {
        assert Split(s, sep) == [[s[0]] + rest[0]] + rest[1..];
        JoinConsFirst([s[0]], rest, sep);
      }
    }
  }

  /** A string without the separator splits into itself alone. */
  lemma SplitNoSeparator(s: string, sep: char)
    requires sep !in s
    ensures Split(s, sep) == [s]
  {
    JoinSplit(s, sep);
  }

  /** Splitting a join of separator-free pieces gives the pieces back. */
  lemma {:induction false} SplitJoin(parts: seq<string>, sep: char)
    requires |parts| >= 1
    requires forall i :: 0 <= i < |parts| ==> sep !in parts[i]
    ensures Split(Join(parts, sep), sep) == parts
    decreases |parts|
  {
    if |parts| == 1 {
      SplitNoSeparator(parts[0], sep);
    } else {
      SplitJoin(parts[1..], sep);
      SplitNoSeparator(parts[0], sep);
      SplitAround(parts[0], Join(parts[1..], sep), sep);
      assert parts == [parts[0]] + parts[1..];
    }
  }

  /** The first piece of `s.split(sep)`, i.e. `s.split(sep)[0]`. */
  function FirstPiece(s: string, sep: char): (r: string)
    ensures sep !in r
    ensures r <= s
    ensures r == s || (|r| < |s| && s[|r|] == sep)
  {
    FirstPieceIsPrefix(s, sep);
    Split(s, sep)[0]
  }

  lemma {:induction false} FirstPieceIsPrefix(s: string, sep: char)
    ensures Split(s, sep)[0] <= s
    ensures Split(s, sep)[0] == s || (|Split(s, sep)[0]| < |s| && s[|Split(s, sep)[0]|] == sep)
    decreases |s|
  {
    if |s| > 0 && s[0] != sep {
      FirstPieceIsPrefix(s[1..], sep);
    }
  }

  /** The last piece of `s.split(sep)`, i.e. `s.split(sep).pop()`. */
  function LastPiece(s: string, sep: char): (r: string)
    ensures sep !in r
    ensures |r| <= |s| && s[|s| - |r|..] == r
    ensures r == s || s[|s| - |r| - 1] == sep
  {
    LastPieceIsSuffix(s, sep);
    var parts := Split(s, sep);
    parts[|parts| - 1]
  }

  /** The position of the last separator of a string that has one. */
  lemma {:induction false} LastSeparator(s: string, sep: char) returns (k: nat)
    requires sep in s
    ensures k < |s| && s[k] == sep && sep !in s[k + 1..]
    decreases |s|
  {
    if s[|s| - 1] == sep {
      k := |s| - 1;
    } else {
      var init := s[..|s| - 1];
      assert sep in init by {
        var j :| 0 <= j < |s| && s[j] == sep;
        assert init[j] == sep;
      }
      k := LastSeparator(init, sep);
      assert s[k + 1..] == init[k + 1..] + [s[|s| - 1]];
    }
  }

  lemma LastPieceIsSuffix(s: string, sep: char)
    ensures var p := Split(s, sep); var r := p[|p| - 1];
      |r| <= |s| && s[|s| - |r|..] == r && (r == s || s[|s| - |r| - 1] == sep)
  {
    if sep !in s {
      SplitNoSeparator(s, sep);
    } else {
      var k := LastSeparator(s, sep);
      var a, b := s[..k], s[k + 1..];
      assert s == a + [sep] + b;
      SplitAround(a, b, sep);
      SplitNoSeparator(b, sep);
      var p := Split(s, sep);
      assert p == Split(a, sep) + [b];
      assert p[|p| - 1] == b;
    }
  }

  /** The piece after the last separator is whatever follows it. */
  lemma LastPieceAfter(prefix: string, x: string, sep: char)
    requires sep !in x
    ensures LastPiece(prefix + [sep] + x, sep) == x
  {
    SplitAround(prefix, x, sep);
    SplitNoSeparator(x, sep);
  }

  /** The piece before the first separator is whatever precedes it. */
  lemma FirstPieceBefore(x: string, suffix: string, sep: char)
    requires sep !in x
    ensures FirstPiece(x + [sep] + suffix, sep) == x
  {
    SplitAround(x, suffix, sep);
    SplitNoSeparator(x, sep);
  }

  /** Python's `s.lstrip(chars)`. */
  function LStrip(s: string, chars: set<char>): (r: string)
    ensures |r| <= |s| && s[|s| - |r|..] == r
    ensures |r| == 0 || r[0] !in chars
    ensures forall i :: 0 <= i < |s| - |r| ==> s[i] in chars
  {
    if |s| > 0 && s[0] in chars then LStrip(s[1..], chars) else s
  }

  /** Python's `s.rstrip(chars)`. */
  function RStrip(s: string, chars: set<char>): (r: string)
    ensures r <= s
    ensures |r| == 0 || r[|r| - 1] !in chars
    ensures forall i :: |r| <= i < |s| ==> s[i] in chars
  {
    if |s| > 0 && s[|s| - 1] in chars then RStrip(s[..|s| - 1], chars) else s
  }

  /** Python's `s.strip(chars)`. */
  function StripChars(s: string, chars: set<char>): string
  {
    RStrip(LStrip(s, chars), chars)
  }

  /** Leading characters drawn from `chars` are removed by `lstrip`. */
  lemma {:induction false} LStripPrefix(p: string, t: string, chars: set<char>)
    requires forall i :: 0 <= i < |p| ==> p[i] in chars
    ensures LStrip(p + t, chars) == LStrip(t, chars)
    decreases |p|
  {
    if |p| == 0 {
      assert p + t == t;
    } else {
      assert (p + t)[0] == p[0] && p[0] in chars;
      assert (p + t)[1..] == p[1..] + t;
      calc {
        LStrip(p + t, chars);
        LStrip((p + t)[1..], chars);
        { LStripPrefix(p[1..], t, chars); }
        LStrip(t, chars);
      }
    }
  }

  /** Trailing characters drawn from `chars` are removed by `rstrip`. */
  lemma {:induction false} RStripSuffix(t: string, q: string, chars: set<char>)
    requires forall i :: 0 <= i < |q| ==> q[i] in chars
    ensures RStrip(t + q, chars) == RStrip(t, chars)
    decreases |q|
  {
    if |q| == 0 {
      assert t + q == t;
    } else {
      assert (t + q)[|t + q| - 1] == q[|q| - 1] && q[|q| - 1] in chars;
      assert (t + q)[..|t + q| - 1] == t + q[..|q| - 1];
      calc {
        RStrip(t + q, chars);
        RStrip((t + q)[..|t + q| - 1], chars);
        { RStripSuffix(t, q[..|q| - 1], chars); }
        RStrip(t, chars);
      }
    }
  }

  /** The characters Python's argument-less `strip()` removes: those
      `str.isspace` accepts, the ASCII spaces and separators, NEL, the
      no-break space and the Unicode space separators and line breaks. */
  const Whitespace: set<char> := {
    '\t', '\n', '\U{000B}', '\U{000C}', '\r', '\U{001C}', '\U{001D}', '\U{001E}', '\U{001F}', ' ',
    '\U{0085}', '\U{00A0}', '\U{1680}',
    '\U{2000}', '\U{2001}', '\U{2002}', '\U{2003}', '\U{2004}', '\U{2005}', '\U{2006}',
    '\U{2007}', '\U{2008}', '\U{2009}', '\U{200A}',
    '\U{2028}', '\U{2029}', '\U{202F}', '\U{205F}', '\U{3000}'}

  /** Python's `s.strip()`. */
  function Strip(s: string): string
  {
    StripChars(s, Whitespace)
  }

  /** Python's `t in s` for strings: `t` occurs as a contiguous substring. */
  predicate HasSubstring(s: string, t: string)
    decreases |s|
  {
    t <= s || (|s| > 0 && HasSubstring(s[1..], t))
  }

  /** Python's `a <= b` on strings: lexicographic order by code point. */
  predicate LexLe(a: string, b: string)
    decreases |a|
  {
    |a| == 0 || (|b| > 0 && (a[0] < b[0] || (a[0] == b[0] && LexLe(a[1..], b[1..]))))
  }

  /** Python's `a < b` on strings. */
  predicate LexLess(a: string, b: string)
  {
    LexLe(a, b) && a != b
  }

  lemma LexLeReflexive(a: string)
    ensures LexLe(a, a)
  {
  }

  lemma {:induction false} LexLeTotal(a: string, b: string)
    ensures LexLe(a, b) || LexLe(b, a)
    decreases |a|
  {
    if |a| > 0 && |b| > 0 && a[0] == b[0] {
      LexLeTotal(a[1..], b[1..]);
    }
  }

  lemma {:induction false} LexLeAntisymmetric(a: string, b: string)
    requires LexLe(a, b) && LexLe(b, a)
    ensures a == b
    decreases |a|
  {
    if |a| > 0 {
      LexLeAntisymmetric(a[1..], b[1..]);
      assert a == [a[0]] + a[1..] && b == [b[0]] + b[1..];
    }
  }

  lemma {:induction false} LexLeTransitive(a: string, b: string, c: string)
    requires LexLe(a, b) && LexLe(b, c)
    ensures LexLe(a, c)
    decreases |a|
  {
    if |a| > 0 && a[0] == b[0] && b[0] == c[0] {
      LexLeTransitive(a[1..], b[1..], c[1..]);
    }
  }

  /** Python's `c.upper()` on ASCII letters; other characters are unchanged. */
  function Upper(c: char): char
  {
    if 'a' <= c <= 'z' then (c as int - 32) as char else c
  }

  predicate IsDigit(c: char)
  {
    '0' <= c <= '9'
  }

  function DigitChar(d: nat): (c: char)
    requires d < 10
    ensures IsDigit(c)
  {
    ('0' as int + d) as char
  }

  /** Decimal text of a natural number, as Python's `str(n)`. */
  function NatToString(n: nat): (r: string)
    ensures |r| >= 1
    ensures forall i :: 0 <= i < |r| ==> IsDigit(r[i])
  {
    if n < 10 then [DigitChar(n)] else NatToString(n / 10) + [DigitChar(n % 10)]
  }

  /** Decimal text of an integer, as Python's `str(n)` or `"{}".format(n)`. */
  function IntToString(n: int): (r: string)
    ensures |r| >= 1
    ensures forall i :: 0 <= i < |r| ==> IsDigit(r[i]) || r[i] == '-'
  {
    if n < 0 then "-" + NatToString(-n) else NatToString(n)
  }
}
