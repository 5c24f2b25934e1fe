/**
 The string primitives the server relies on, stated with the semantics of the
 JavaScript built-ins it calls: `split` with a one-character separator,
 `join`, `trim`, `toLowerCase` (on ASCII letters) and the rendering of an
 integer in a template literal.
 */
module Text {

  /** `s` starts with `prefix`. */
  predicate StartsWith(s: string, prefix: string) {
    |prefix| <= |s| && s[..|prefix|] == prefix
  }

  // ---------------------------------------------------------------------------
  // split and join
  // ---------------------------------------------------------------------------

  /** `Array.prototype.join`: the pieces with `sep` between neighbours; "" for no pieces. */
  function Join(pieces: seq<string>, sep: string): string
  {
    if |pieces| == 0 then ""
    else if |pieces| == 1 then pieces[0]
    else pieces[0] + sep + Join(pieces[1..], sep)
  }

  /**
   `String.prototype.split` with a one-character separator: the maximal
   separator-free runs of `s`, in order. There is always at least one piece,
   and putting the separator back between the pieces gives `s` again.
   */
  function Split(s: string, sep: char): (pieces: seq<string>)
    ensures |pieces| > 0
    ensures forall i :: 0 <= i < |pieces| ==> sep !in pieces[i]
    ensures Join(pieces, [sep]) == s
  {
    if |s| == 0 then [""]
    else
      var rest := Split(s[1..], sep);
      if s[0] == sep then
        assert [sep] + Join(rest, [sep]) == s;
        [""] + rest
      else
        var pieces := [[s[0]] + rest[0]] + rest[1..];
        assert pieces[1..] == rest[1..];
        assert |rest| > 1 ==> Join(rest, [sep]) == rest[0] + [sep] + Join(rest[1..], [sep]);
        assert [s[0]] + s[1..] == s;
        pieces
  }

  /** Splitting `a + t` where `a` holds no separator glues `a` onto the first piece of `t`. */
  lemma {:induction false} SplitPrefix(a: string, t: string, sep: char)
    requires sep !in a
    ensures Split(a + t, sep) == [a + Split(t, sep)[0]] + Split(t, sep)[1..]
    decreases |a|
  {
    if |a| == 0 {
      assert a + t == t;
      assert a + Split(t, sep)[0] == Split(t, sep)[0];
      assert [Split(t, sep)[0]] + Split(t, sep)[1..] == Split(t, sep);
    } else {
      assert (a + t)[1..] == a[1..] + t;
      assert (a + t)[0] == a[0];
      SplitPrefix(a[1..], t, sep);
      assert [a[0]] + (a[1..] + Split(t, sep)[0]) == a + Split(t, sep)[0];
    }
  }

  /**
   Split is the inverse of Join: pieces that hold no separator are recovered
   exactly from their join.
   */
  lemma {:induction false} SplitJoin(pieces: seq<string>, sep: char)
    requires |pieces| > 0
    requires forall i :: 0 <= i < |pieces| ==> sep !in pieces[i]
    ensures Split(Join(pieces, [sep]), sep) == pieces
    decreases |pieces|
  {
    if |pieces| == 1 {
      SplitPrefix(pieces[0], "", sep);
      assert pieces[0] + "" == pieces[0];
    } else {
      var tail := Join(pieces[1..], [sep]);
      SplitJoin(pieces[1..], sep);
      SplitSeparatorFirst(tail, sep);
      var rest := Split([sep] + tail, sep);
      assert rest == [""] + pieces[1..];
      SplitPrefix(pieces[0], [sep] + tail, sep);
      assert pieces[0] + ([sep] + tail) == Join(pieces, [sep]);
      assert rest[0] == "" && rest[1..] == pieces[1..];
      assert pieces[0] + "" == pieces[0];
      assert [pieces[0]] + pieces[1..] == pieces;
    }
  }

  /** A leading separator opens an empty first piece. */
  lemma SplitSeparatorFirst(tail: string, sep: char)
    ensures Split([sep] + tail, sep) == [""] + Split(tail, sep)
  {
    assert ([sep] + tail)[1..] == tail;
  }

  /** Joining `head` before a non-empty list is the same as prepending it with the separator. */
  lemma JoinCons(head: string, pieces: seq<string>, sep: string)
    requires |pieces| > 0
    ensures Join([head] + pieces, sep) == head + sep + Join(pieces, sep)
  {
    assert ([head] + pieces)[1..] == pieces;
  }

  // ---------------------------------------------------------------------------
  // trim
  // ---------------------------------------------------------------------------

  /**
   The characters `String.prototype.trim` removes: the WhiteSpace and
   LineTerminator code points of ECMAScript (tab, vertical tab, form feed,
   space, no-break space, the byte order mark, the space separators of
   Unicode category Zs, line feed, carriage return, line and paragraph separator).
   */
  predicate IsWhitespace(c: char) {
    || c == '\t' || c == '\n' || c == '\U{000B}' || c == '\U{000C}' || c == '\r'
    || c == ' ' || c == '\U{00A0}' || c == '\U{1680}'
    || ('\U{2000}' <= c <= '\U{200A}')
    || c == '\U{2028}' || c == '\U{2029}' || c == '\U{202F}' || c == '\U{205F}'
    || c == '\U{3000}' || c == '\U{FEFF}'
  }

  predicate AllWhitespace(s: string) {
    forall i :: 0 <= i < |s| ==> IsWhitespace(s[i])
  }

  /** The number of whitespace characters at the start of `s`. */
  function LeadingWhitespace(s: string): (n: nat)
    ensures n <= |s|
    ensures AllWhitespace(s[..n])
    ensures n < |s| ==> !IsWhitespace(s[n])
  {
    if |s| > 0 && IsWhitespace(s[0]) then
      var n := 1 + LeadingWhitespace(s[1..]);
      assert forall i :: 1 <= i < n ==> s[i] == s[1..][i - 1];
      n
    else 0
  }

  /** `s` without its trailing whitespace: a prefix of `s` followed only by whitespace. */
  function TrimEnd(s: string): (r: string)
    ensures |r| <= |s| && r == s[..|r|]
    ensures AllWhitespace(s[|r|..])
    ensures |r| > 0 ==> !IsWhitespace(r[|r| - 1])
  {
    if |s| > 0 && IsWhitespace(s[|s| - 1]) then
      var r := TrimEnd(s[..|s| - 1]);
      assert s[|r|..] == s[..|s| - 1][|r|..] + [s[|s| - 1]];
      r
    else s
  }

  /**
   `String.prototype.trim`: the infix of `s` that remains once whitespace is
   stripped from both ends. It starts right after the leading whitespace, only
   whitespace follows it, and it neither starts nor ends with whitespace.
   */
  function Trim(s: string): (r: string)
    ensures LeadingWhitespace(s) + |r| <= |s|
    ensures r == s[LeadingWhitespace(s)..LeadingWhitespace(s) + |r|]
    ensures AllWhitespace(s[LeadingWhitespace(s) + |r|..])
    ensures |r| > 0 ==> !IsWhitespace(r[0]) && !IsWhitespace(r[|r| - 1])
    ensures |r| == 0 <==> AllWhitespace(s)
  {
    var n := LeadingWhitespace(s);
    var r := TrimEnd(s[n..]);
    assert s[n + |r|..] == s[n..][|r|..];
    assert |r| == 0 ==> s == s[..n] + s[n..];
    r
  }

  /** Leading whitespace of `p + m` is exactly `p` when `p` is whitespace and `m` does not start with it. */
  lemma LeadingWhitespaceOf(p: string, m: string)
    requires AllWhitespace(p)
    requires |m| > 0 && !IsWhitespace(m[0])
    ensures LeadingWhitespace(p + m) == |p|
  {
    var s := p + m;
    assert s[|p|] == m[0];
    assert forall i :: 0 <= i < |p| ==> s[i] == p[i];
  }

  /** A prefix followed only by whitespace, and not itself ending in whitespace, is what TrimEnd keeps. */
  lemma TrimEndOf(m: string, q: string)
    requires AllWhitespace(q)
    requires |m| > 0 && !IsWhitespace(m[|m| - 1])
    ensures TrimEnd(m + q) == m
  {
    var s := m + q;
    assert s[..|m|] == m;
    assert s[|m| - 1] == m[|m| - 1];
    assert forall i :: |m| <= i < |s| ==> s[i] == q[i - |m|];
  }

  /**
   Trim is characterised by its result: whenever `s` is whitespace, then `m`,
   then whitespace, and `m` is empty or neither starts nor ends with
   whitespace, trimming `s` yields `m`.
   */
  lemma {:induction false} TrimUnique(p: string, m: string, q: string)
    requires AllWhitespace(p) && AllWhitespace(q)
    requires |m| > 0 ==> !IsWhitespace(m[0]) && !IsWhitespace(m[|m| - 1])
    ensures Trim(p + m + q) == m
  {
    var s := p + m + q;
    if |m| == 0 {
      assert AllWhitespace(s) by {
        forall i | 0 <= i < |s| ensures IsWhitespace(s[i]) {
          if i < |p| { assert s[i] == p[i]; } else { assert s[i] == q[i - |p|]; }
        }
      }
    } else {
      assert s == p + (m + q);
      LeadingWhitespaceOf(p, m + q);
      assert s[|p|..] == m + q;
      TrimEndOf(m, q);
    }
  }

  /** Trimming twice is trimming once. */
  lemma TrimIdempotent(s: string)
    ensures Trim(Trim(s)) == Trim(s)
  {
    var r := Trim(s);
    TrimUnique("", r, "");
    assert "" + r + "" == r;
  }

  // ---------------------------------------------------------------------------
  // toLowerCase
  // ---------------------------------------------------------------------------

  /** Lower-cases an ASCII capital letter and leaves every other character alone. */
  function LowerChar(c: char): char {
    if 'A' <= c <= 'Z' then (c as int + 32) as char else c
  }

  /** `String.prototype.toLowerCase`, restricted to ASCII letters. */
  function AsciiLower(s: string): string {
    seq(|s|, i requires 0 <= i < |s| => LowerChar(s[i]))
  }

  /**
   Lower-casing keeps the length and is idempotent. It leaves every character
   other than `A`-`Z` alone, and turns a capital into the lower-case letter at
   the same position in the alphabet, so no capital is left behind.
   */
  lemma AsciiLowerProperties(s: string)
    ensures |AsciiLower(s)| == |s|
    ensures forall i :: 0 <= i < |s| ==> !('A' <= AsciiLower(s)[i] <= 'Z')
    ensures forall i :: 0 <= i < |s| && !('A' <= s[i] <= 'Z') ==> AsciiLower(s)[i] == s[i]
    ensures forall i :: 0 <= i < |s| && 'A' <= s[i] <= 'Z' ==>
              'a' <= AsciiLower(s)[i] <= 'z' && AsciiLower(s)[i] as int - 'a' as int == s[i] as int - 'A' as int
    ensures AsciiLower(AsciiLower(s)) == AsciiLower(s)
  {
  }

  /** Two characters are the same letter up to ASCII case, or the same character. */
  predicate SameIgnoringAsciiCase(a: char, b: char) {
    || a == b
    || ('A' <= a <= 'Z' && b as int == a as int - 'A' as int + 'a' as int)
    || ('A' <= b <= 'Z' && a as int == b as int - 'A' as int + 'a' as int)
  }

  /** Two strings that differ at most in the case of their ASCII letters. */
  predicate EqualIgnoringAsciiCase(a: string, b: string) {
    |a| == |b| && forall i :: 0 <= i < |a| ==> SameIgnoringAsciiCase(a[i], b[i])
  }

  /** Lower-casing identifies exactly the strings that differ only in ASCII letter case. */
  lemma {:induction false} AsciiLowerEqualIff(a: string, b: string)
    ensures AsciiLower(a) == AsciiLower(b) <==> EqualIgnoringAsciiCase(a, b)
  {
    if AsciiLower(a) == AsciiLower(b) {
      forall i | 0 <= i < |a| ensures SameIgnoringAsciiCase(a[i], b[i]) {
        assert LowerChar(a[i]) == AsciiLower(a)[i] == AsciiLower(b)[i] == LowerChar(b[i]);
      }
    }
    if EqualIgnoringAsciiCase(a, b) {
      forall i | 0 <= i < |a| ensures AsciiLower(a)[i] == AsciiLower(b)[i] {
        assert SameIgnoringAsciiCase(a[i], b[i]);
      }
    }
  }

  // ---------------------------------------------------------------------------
  // integer rendering
  // ---------------------------------------------------------------------------

  predicate IsDigit(c: char) {
    '0' <= c <= '9'
  }

  function DigitChar(d: nat): char
    requires d < 10
  {
    ('0' as int + d) as char
  }

  /** The decimal digits of `n`, most significant first, without leading zeros. */
  function Digits(n: nat): (r: string)
    ensures |r| > 0
    ensures forall i :: 0 <= i < |r| ==> IsDigit(r[i])
    ensures |r| > 1 ==> r[0] != '0'
    decreases n
  {
    if n < 10 then [DigitChar(n)]
    else Digits(n / 10) + [DigitChar(n % 10)]
  }

  /** The number a string of decimal digits denotes. */
  function DigitsValue(s: string): nat
    requires forall i :: 0 <= i < |s| ==> IsDigit(s[i])
  {
    if |s| == 0 then 0
    else
      assert IsDigit(s[|s| - 1]);
      10 * DigitsValue(s[..|s| - 1]) + (s[|s| - 1] as int - '0' as int)
  }

  /** Reading back the digits of `n` gives `n`. */
  lemma {:induction false} DigitsRoundTrip(n: nat)
    ensures DigitsValue(Digits(n)) == n
    decreases n
  {
    if n >= 10 {
      DigitsRoundTrip(n / 10);
      var d := Digits(n);
      assert d[..|d| - 1] == Digits(n / 10);
    }
  }

  /** An integer in a template literal: its decimal digits, with a leading '-' when negative. */
  function DecimalString(n: int): (r: string)
    ensures |r| > 0
    ensures n < 0 <==> r[0] == '-'
    ensures n >= 0 ==> r == Digits(n)
    ensures n < 0 ==> r[1..] == Digits(-n)
  {
    if n < 0 then "-" + Digits(-n) else Digits(n)
  }

  /** Different integers render differently. */
  lemma DecimalStringInjective(a: int, b: int)
    requires DecimalString(a) == DecimalString(b)
    ensures a == b
  {
    if a < 0 {
      DigitsRoundTrip(-a);
      DigitsRoundTrip(-b);
    } else {
      DigitsRoundTrip(a);
      DigitsRoundTrip(b);
    }
  }
}
