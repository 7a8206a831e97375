/** Character and string helpers shared by the model: JavaScript's notion of
    white space (the set `\s` matches and `trim` removes), `trim`,
    `split`/`join` on a one-character separator, decimal numerals as
    `String(n)` and `Number(s)` treat them, and `padStart(2, '0')`.
    Strings are sequences of Unicode scalar values. */
module Text {

  /** ECMAScript WhiteSpace and LineTerminator code points. */
  predicate IsWhitespace(c: char)
  {
    || c == '\t' || c == '\n' || c == '\U{B}' || c == '\U{C}' || c == '\r' || c == ' '
    || c == '\U{A0}' || c == '\U{1680}' || ('\U{2000}' <= c <= '\U{200A}')
    || c == '\U{2028}' || c == '\U{2029}' || c == '\U{202F}' || c == '\U{205F}'
    || c == '\U{3000}' || c == '\U{FEFF}'
  }

  predicate AllWhitespace(s: string)
  {
    forall i :: 0 <= i < |s| ==> IsWhitespace(s[i])
  }

  predicate NoWhitespace(s: string)
  {
    forall i :: 0 <= i < |s| ==> !IsWhitespace(s[i])
  }

  /** `trimStart`: drops the leading run of white space and nothing else. */
  function TrimStart(s: string): (r: string)
    ensures |r| <= |s| && r == s[|s| - |r|..]
    ensures AllWhitespace(s[..|s| - |r|])
    ensures r == [] || !IsWhitespace(r[0])
  {
    if s != [] && IsWhitespace(s[0]) then
      var r := TrimStart(s[1..]);
      TrimStartStep(s, r);
      r
    else
      s
  }

  /** `trimEnd`: drops the trailing run of white space and nothing else. */
  function TrimEnd(s: string): (r: string)
    ensures |r| <= |s| && r == s[..|r|]
    ensures AllWhitespace(s[|r|..])
    ensures r == [] || !IsWhitespace(r[|r| - 1])
  {
    if s != [] && IsWhitespace(s[|s| - 1]) then
      var r := TrimEnd(s[..|s| - 1]);
      TrimEndStep(s, r);
      r
    else
      s
  }

  /** Dropping one more leading white-space character keeps TrimStart's contract. */
  lemma TrimStartStep(s: string, r: string)
    requires s != [] && IsWhitespace(s[0])
    requires |r| <= |s| - 1 && r == s[1..][|s| - 1 - |r|..]
    requires AllWhitespace(s[1..][..|s| - 1 - |r|])
    ensures r == s[|s| - |r|..] && AllWhitespace(s[..|s| - |r|])
  {
    var k := |s| - |r|;
    forall j | 0 <= j < k ensures IsWhitespace(s[j]) {
      if j > 0 {
        assert s[j] == s[1..][..k - 1][j - 1];
      }
    }
    assert forall j | 0 <= j < k :: s[..k][j] == s[j];
  }

  /** Dropping one more trailing white-space character keeps TrimEnd's contract. */
  lemma TrimEndStep(s: string, r: string)
    requires s != [] && IsWhitespace(s[|s| - 1])
    requires |r| <= |s| - 1 && r == s[..|s| - 1][..|r|]
    requires AllWhitespace(s[..|s| - 1][|r|..])
    ensures r == s[..|r|] && AllWhitespace(s[|r|..])
  {
    var k := |r|;
    forall j | k <= j < |s| ensures IsWhitespace(s[j]) {
      if j < |s| - 1 {
        assert s[j] == s[..|s| - 1][k..][j - k];
      }
    }
    assert forall j | 0 <= j < |s| - k :: s[k..][j] == s[k + j];
  }

  /** `String.prototype.trim`: the result neither starts nor ends with white space. */
  function Trim(s: string): (r: string)
    ensures r == [] || (!IsWhitespace(r[0]) && !IsWhitespace(r[|r| - 1]))
  {
    TrimEnd(TrimStart(s))
  }

  /** r is what is left of s at index i once a white-space run before it and
      a white-space run after it are removed. */
  predicate FramedByWhitespace(s: string, r: string, i: int)
  {
    && 0 <= i <= |s| - |r| && r == s[i..i + |r|]
    && AllWhitespace(s[..i]) && AllWhitespace(s[i + |r|..])
  }

  /** What `trim` keeps is the infix of s between a leading and a trailing
      run of white space; it is empty exactly when s is all white space. */
  lemma TrimIsInfix(s: string)
    ensures Trim(s) == [] <==> AllWhitespace(s)
    ensures exists i :: FramedByWhitespace(s, Trim(s), i)
  {
    var t := TrimStart(s);
    var r := TrimEnd(t);
    var i := |s| - |t|;
    TrimInfixAt(s, t, r, i);
    InfixEmptyIffAllWhitespace(s, r, i);
  }

  lemma TrimInfixAt(s: string, t: string, r: string, i: int)
    requires t == TrimStart(s) && r == TrimEnd(t) && i == |s| - |t|
    ensures FramedByWhitespace(s, r, i)
    ensures r == [] || !IsWhitespace(r[0])
  {
    SuffixSlices(s, t, i, |r|);
  }

  /** A white-space-framed infix that starts with a non-white-space
      character is empty exactly when the whole text is white space. */
  lemma InfixEmptyIffAllWhitespace(s: string, r: string, i: int)
    requires FramedByWhitespace(s, r, i)
    requires r == [] || !IsWhitespace(r[0])
    ensures r == [] <==> AllWhitespace(s)
  {
    if r == [] {
      forall j | 0 <= j < |s| ensures IsWhitespace(s[j]) {
        if j < i {
          assert s[j] == s[..i][j];
        } else {
          assert s[j] == s[i..][j - i];
        }
      }
    } else {
      assert s[i] == r[0];
    }
  }

  lemma SuffixSlices(s: string, t: string, i: int, k: int)
    requires 0 <= i <= |s| && t == s[i..] && 0 <= k <= |t|
    ensures t[..k] == s[i..i + k] && t[k..] == s[i + k..]
  {
  }

  /** `trimStart` removes a white-space prefix up to the first other character. */
  lemma {:induction false} TrimStartBeforeSolid(w: string, x: string)
    requires AllWhitespace(w)
    requires x == [] || !IsWhitespace(x[0])
    ensures TrimStart(w + x) == x
  {
    if w == [] {
      assert w + x == x;
    } else {
      assert (w + x)[1..] == w[1..] + x;
      TrimStartBeforeSolid(w[1..], x);
    }
  }

  /** Appending white space does not change what `trimEnd` keeps. */
  lemma {:induction false} TrimEndAppendWhitespace(a: string, w: string)
    requires AllWhitespace(w)
    ensures TrimEnd(a + w) == TrimEnd(a)
  {
    if w != [] {
      assert (a + w)[..|a + w| - 1] == a + w[..|w| - 1];
      TrimEndAppendWhitespace(a, w[..|w| - 1]);
    } else {
      assert a + w == a;
    }
  }

  /** After a text that ends in a non-white-space character, `trimEnd` only
      trims what follows it. */
  lemma {:induction false} TrimEndAfterSolid(a: string, b: string)
    requires a != [] && !IsWhitespace(a[|a| - 1])
    ensures TrimEnd(a + b) == a + TrimEnd(b)
  {
    if b == [] {
      assert a + b == a;
    } else if IsWhitespace(b[|b| - 1]) {
      assert (a + b)[..|a + b| - 1] == a + b[..|b| - 1];
      TrimEndAfterSolid(a, b[..|b| - 1]);
    } else {
      assert (a + b)[|a + b| - 1] == b[|b| - 1];
    }
  }

  // ---------------------------------------------------------------- numerals

  predicate IsDigit(c: char)
  {
    '0' <= c <= '9'
  }

  predicate AllDigits(s: string)
  {
    forall i :: 0 <= i < |s| ==> IsDigit(s[i])
  }

  function DigitValue(c: char): (d: nat)
    requires IsDigit(c)
    ensures d < 10
  {
    (c as int) - ('0' as int)
  }

  function DigitChar(d: nat): (c: char)
    requires d < 10
    ensures IsDigit(c) && DigitValue(c) == d
  {
    (('0' as int) + d) as char
  }

  /** `Number(s)` for a string of decimal digits (the empty string reads as 0). */
  function DigitsValue(s: string): nat
    requires AllDigits(s)
  {
    if s == [] then 0 else 10 * DigitsValue(s[..|s| - 1]) + DigitValue(s[|s| - 1])
  }

  /** `String(n)` for a non-negative integer: its decimal numeral, without
      leading zeros, which `Number` reads back as n. */
  function NatToString(n: nat): (r: string)
    ensures |r| >= 1 && AllDigits(r)
    ensures r[0] == '0' ==> r == "0"
    ensures DigitsValue(r) == n
  {
    if n < 10 then
      [DigitChar(n)]
    else
      var r := NatToString(n / 10) + [DigitChar(n % 10)];
      assert r[..|r| - 1] == NatToString(n / 10);
      r
  }

  /** `String(i)` for any integer. */
  function IntToString(i: int): (r: string)
    ensures i >= 0 ==> r == NatToString(i)
    ensures i < 0 ==> r == "-" + NatToString(-i)
  {
    if i < 0 then "-" + NatToString(-i) else NatToString(i)
  }

  lemma {:induction false} DigitsValuePositive(s: string)
    requires AllDigits(s) && |s| >= 1 && s[0] != '0'
    ensures DigitsValue(s) >= 1
  {
    if |s| > 1 {
      DigitsValuePositive(s[..|s| - 1]);
    }
  }

  /** A numeral without a leading zero is what `String` prints for its value. */
  lemma {:induction false} NatToStringOfDigits(s: string)
    requires AllDigits(s) && |s| >= 1 && (s[0] == '0' ==> |s| == 1)
    ensures NatToString(DigitsValue(s)) == s
  {
    var v := DigitsValue(s);
    if |s| == 1 {
      assert s[..|s| - 1] == [] && DigitsValue(s[..|s| - 1]) == 0;
      assert v == DigitValue(s[0]);
      assert [DigitChar(v)] == s;
    } else {
      var p, c := s[..|s| - 1], s[|s| - 1];
      DigitsValuePositive(p);
      NatToStringOfDigits(p);
      LastDigitSplit(DigitsValue(p), DigitValue(c), v);
      assert NatToString(v) == NatToString(DigitsValue(p)) + [DigitChar(DigitValue(c))];
      assert DigitChar(DigitValue(c)) == c;
      assert s == p + [c];
    }
  }

  /** Division by ten takes off the last digit. */
  lemma LastDigitSplit(q: nat, d: nat, v: nat)
    requires d < 10 && v == 10 * q + d
    ensures v >= 10 <==> q >= 1
    ensures v / 10 == q && v % 10 == d
  {
  }

  /** `String(n).padStart(2, '0')`: numbers below 100 get exactly two digits. */
  function Pad2(n: nat): (r: string)
    ensures n < 100 ==> |r| == 2 && AllDigits(r) && DigitsValue(r) == n
  {
    var t := NatToString(n);
    if |t| < 2 then
      assert DigitsValue("0" + t) == DigitsValue(t) by {
        assert ("0" + t)[..1] == "0";
      }
      "0" + t
    else
      assert n >= 10;
      assert n < 100 ==> |t| == |NatToString(n / 10)| + 1 == 2;
      t
  }

  /** Any two-digit numeral is what `padStart(2, '0')` prints for its value. */
  lemma Pad2OfDigits(s: string)
    requires |s| == 2 && AllDigits(s)
    ensures Pad2(DigitsValue(s)) == s
  {
    if s[0] == '0' {
      var p := s[..1];
      assert p[..0] == [] && p[0] == '0';
      assert DigitsValue(p) == 0;
      assert s[..|s| - 1] == p;
      assert DigitsValue(s) == DigitValue(s[1]);
      NatToStringOfDigits(s[1..]);
      assert s == "0" + s[1..];
    } else {
      NatToStringOfDigits(s);
    }
  }

  // ------------------------------------------------------------ split / join

  /** `s.split(sep)` for a one-character separator: the pieces between the
      separators, none of which contains one, joined back they give s. */
  function Split(s: string, sep: char): (parts: seq<string>)
    ensures |parts| >= 1
    ensures forall i :: 0 <= i < |parts| ==> sep !in parts[i]
    ensures Join(parts, sep) == s
  {
    if s == [] then
      [[]]
    else
      var rest := Split(s[1..], sep);
      if s[0] == sep then
        [[]] + rest
      else
        var parts := [[s[0]] + rest[0]] + rest[1..];
        assert parts[1..] == rest[1..];
        parts
  }

  /** `parts.join(sep)`. */
  function Join(parts: seq<string>, sep: char): string
  {
    if parts == [] then []
    else if |parts| == 1 then parts[0]
    else parts[0] + [sep] + Join(parts[1..], sep)
  }

  /** Joining two non-empty lists puts one separator between their joins. */
  lemma {:induction false} JoinAppend(a: seq<string>, b: seq<string>, sep: char)
    requires |a| >= 1 && |b| >= 1
    ensures Join(a + b, sep) == Join(a, sep) + [sep] + Join(b, sep)
  {
    if |a| == 1 {
      assert (a + b)[1..] == b;
    } else {
      assert (a + b)[1..] == a[1..] + b;
      JoinAppend(a[1..], b, sep);
    }
  }

  lemma {:induction false} SplitWithoutSeparator(w: string, sep: char)
    requires sep !in w
    ensures Split(w, sep) == [w]
  {
    if w != [] {
      SplitWithoutSeparator(w[1..], sep);
      assert [w[0]] + w[1..] == w;
    }
  }

  lemma {:induction false} SplitAtFirstSeparator(w: string, sep: char, rest: string)
    requires sep !in w
    ensures Split(w + [sep] + rest, sep) == [w] + Split(rest, sep)
  {
    var s := w + [sep] + rest;
    if w == [] {
      assert s[1..] == rest;
    } else {
      assert s[1..] == w[1..] + [sep] + rest;
      SplitAtFirstSeparator(w[1..], sep, rest);
      assert [w[0]] + w[1..] == w;
    }
  }

  /** Splitting undoes joining when no piece contains the separator. */
  lemma {:induction false} SplitOfJoin(parts: seq<string>, sep: char)
    requires |parts| >= 1
    requires forall i :: 0 <= i < |parts| ==> sep !in parts[i]
    ensures Split(Join(parts, sep), sep) == parts
  {
    if |parts| == 1 {
      SplitWithoutSeparator(parts[0], sep);
    } else {
      SplitOfJoin(parts[1..], sep);
      SplitAtFirstSeparator(parts[0], sep, Join(parts[1..], sep));
      assert [parts[0]] + parts[1..] == parts;
    }
  }
}
