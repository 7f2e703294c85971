/** The string operations the scripts use, on ASCII text: Python's `str.strip`, `str.lower`,
    `str(int)`, `int(str)`, `str(float)`, `str.split`, the `\d` and `\w` character classes, and
    a suffix test. */
module Text {
  import opened Options

  /** Python's `str.isspace`, restricted to code points below 256. */
  predicate IsSpace(c: char) {
    c == ' ' || (9 <= c as int <= 13) || (28 <= c as int <= 31) || c as int == 0x85 || c as int == 0xA0
  }

  /** Drops leading whitespace. */
  function StripLeft(s: string): (r: string)
    ensures |r| <= |s| && r == s[|s| - |r|..]
    ensures forall i :: 0 <= i < |s| - |r| ==> IsSpace(s[i])
    ensures r == [] || !IsSpace(r[0])
    decreases |s|
  {
    if |s| > 0 && IsSpace(s[0]) then StripLeft(s[1..]) else s
  }

  /** Drops trailing whitespace. */
  function StripRight(s: string): (r: string)
    ensures |r| <= |s| && r == s[..|r|]
    ensures forall i :: |r| <= i < |s| ==> IsSpace(s[i])
    ensures r == [] || !IsSpace(r[|r| - 1])
    decreases |s|
  {
    if |s| > 0 && IsSpace(s[|s| - 1]) then StripRight(s[..|s| - 1]) else s
  }

  /** Python's `str.strip()`: removes the leading and the trailing run of whitespace. */
  function Strip(s: string): (r: string)
    ensures r == [] || (!IsSpace(r[0]) && !IsSpace(r[|r| - 1]))
    ensures (s == [] || (!IsSpace(s[0]) && !IsSpace(s[|s| - 1]))) ==> r == s
  {
    var l := StripLeft(s);
    var r := StripRight(l);
    assert r != [] ==> r[0] == l[0];
    r
  }

  /** Stripping never lengthens a string. */
  lemma StripShortens(s: string)
    ensures |Strip(s)| <= |s|
  {
  }

  /** `StripLeft` keeps every character that is not whitespace. */
  lemma {:induction false} StripLeftKeeps(s: string, p: nat)
    requires p < |s| && !IsSpace(s[p])
    ensures s[p] in StripLeft(s)
    decreases |s|
  {
    if IsSpace(s[0]) {
      StripLeftKeeps(s[1..], p - 1);
    }
  }

  /** `StripRight` keeps every character that is not whitespace. */
  lemma {:induction false} StripRightKeeps(s: string, p: nat)
    requires p < |s| && !IsSpace(s[p])
    ensures s[p] in StripRight(s)
    decreases |s|
  {
    if IsSpace(s[|s| - 1]) {
      StripRightKeeps(s[..|s| - 1], p);
    }
  }

  /** `Strip` removes whitespace only: every other character of the input survives. */
  lemma StripKeepsNonSpace(s: string, p: nat)
    requires p < |s| && !IsSpace(s[p])
    ensures s[p] in Strip(s)
  {
    StripLeftKeeps(s, p);
    var l := StripLeft(s);
    var q :| 0 <= q < |l| && l[q] == s[p];
    StripRightKeeps(l, q);
  }



  /** Appending whitespace leaves the left-stripped text unchanged unless nothing remained. */
  lemma {:induction false} StripLeftSnocSpace(s: string, c: char)
    requires IsSpace(c)
    ensures StripLeft(s + [c]) == if StripLeft(s) == [] then [] else StripLeft(s) + [c]
    decreases |s|
  {
    if |s| == 0 {
      assert StripLeft([c]) == StripLeft([]);
    } else if IsSpace(s[0]) {
      assert (s + [c])[1..] == s[1..] + [c];
      StripLeftSnocSpace(s[1..], c);
    }
  }

  /** Whitespace added around a string does not survive `Strip`. */
  lemma StripPadded(s: string)
    ensures Strip([' '] + s + [' ']) == Strip(s)
  {
    var l := StripLeft(s);
    StripLeftPadded(s);
    if l != [] {
      StripRightSnocSpace(l);
    }
  }

  /** Left-stripping a padded string leaves the left-stripped string and the trailing space,
      unless nothing remained. */
  lemma StripLeftPadded(s: string)
    ensures var l := StripLeft(s);
      StripLeft([' '] + s + [' ']) == if l == [] then [] else l + [' ']
  {
    var p := [' '] + s + [' '];
    assert p[1..] == s + [' '];
    StripLeftSnocSpace(s, ' ');
  }

  /** Trailing whitespace added to a string does not survive `StripRight`. */
  lemma StripRightSnocSpace(l: string)
    ensures StripRight(l + [' ']) == StripRight(l)
  {
    assert (l + [' '])[..|l|] == l;
  }

  predicate IsUpper(c: char) { 'A' <= c <= 'Z' }

  /** Python's `str.lower` on one ASCII character; other characters are left as they are. */
  function Lower(c: char): (d: char)
    ensures !IsUpper(d)
    ensures IsUpper(c) ==> d as int == c as int + 32
    ensures !IsUpper(c) ==> d == c
  {
    if IsUpper(c) then (c as int + 32) as char else c
  }

  /** Python's `str.lower` on ASCII text. */
  function LowerString(s: string): (r: string)
    ensures |r| == |s| && forall i :: 0 <= i < |s| ==> r[i] == Lower(s[i])
  {
    seq(|s|, i requires 0 <= i < |s| => Lower(s[i]))
  }

  /** Python's `str.replace(a, b)` with one-character `a` and `b`. */
  function ReplaceChar(s: string, a: char, b: char): (r: string)
    ensures |r| == |s| && forall i :: 0 <= i < |s| ==> r[i] == if s[i] == a then b else s[i]
  {
    seq(|s|, i requires 0 <= i < |s| => if s[i] == a then b else s[i])
  }

  /** The `\d` class on ASCII. */
  predicate IsDigit(c: char) { '0' <= c <= '9' }

  /** The `\w` class on ASCII: letters, digits and the underscore. */
  predicate IsWordChar(c: char) { IsDigit(c) || 'a' <= c <= 'z' || 'A' <= c <= 'Z' || c == '_' }

  predicate AllDigits(s: string) { forall i :: 0 <= i < |s| ==> IsDigit(s[i]) }

  predicate AllWordChars(s: string) { forall i :: 0 <= i < |s| ==> IsWordChar(s[i]) }

  function DigitChar(d: nat): (c: char)
    requires d < 10
    ensures IsDigit(c) && c as int - '0' as int == d
  {
    ('0' as int + d) as char
  }

  /** Decimal digits of a natural number, without leading zeros. */
  function NatToDigits(n: nat): (r: string)
    ensures |r| > 0 && AllDigits(r)
    decreases n
  {
    if n < 10 then [DigitChar(n)] else NatToDigits(n / 10) + [DigitChar(n % 10)]
  }

  /** The number a run of decimal digits denotes (leading zeros allowed). */
  function DigitsValue(s: string): nat
    requires AllDigits(s)
    decreases |s|
  {
    if |s| == 0 then 0 else DigitsValue(s[..|s| - 1]) * 10 + (s[|s| - 1] as int - '0' as int)
  }

  /** Reading back the digits of `n` gives `n`. */
  lemma {:induction false} DigitsRoundTrip(n: nat)
    ensures DigitsValue(NatToDigits(n)) == n
    decreases n
  {
    if n >= 10 {
      DigitsRoundTrip(n / 10);
      var r := NatToDigits(n);
      assert r[..|r| - 1] == NatToDigits(n / 10);
    }
  }

  /** Python's `str` of an integer. */
  function IntToString(i: int): (r: string)
    ensures |r| > 0 && (r[0] == '-' || IsDigit(r[0])) && IsDigit(r[|r| - 1])
    ensures i >= 0 ==> AllDigits(r)
  {
    if i < 0 then "-" + NatToDigits(-i) else NatToDigits(i)
  }

  /** Python's `int` of a string: surrounding whitespace, an optional sign, then one or more
      decimal digits. */
  function ParseInt(s: string): (r: Option<int>)
    ensures r.Some? ==> |Strip(s)| > 0
    ensures r.Some? && r.value < 0 ==> Strip(s)[0] == '-'
  {
    var t := Strip(s);
    if |t| > 1 && (t[0] == '-' || t[0] == '+') && AllDigits(t[1..]) then
      var v: int := if t[0] == '-' then -(DigitsValue(t[1..]) as int) else DigitsValue(t[1..]);
      Some(v)
    else if |t| > 0 && AllDigits(t) then Some(DigitsValue(t))
    else None
  }

  /** `int(str(i)) == i`. */
  lemma ParseIntRoundTrip(i: int)
    ensures ParseInt(IntToString(i)) == Some(i)
  {
    if i < 0 {
      var d := NatToDigits(-i);
      assert IntToString(i) == "-" + d;
      ParseNegative(d, -i);
    } else {
      var d := NatToDigits(i);
      assert IntToString(i) == d;
      ParseNonNegative(d, i);
    }
  }

  /** A minus sign followed by the digits of `n` reads as `-n`. */
  lemma ParseNegative(d: string, n: nat)
    requires d == NatToDigits(n)
    ensures ParseInt("-" + d) == Some(-(n as int))
  {
    DigitsRoundTrip(n);
    var r := "-" + d;
    assert r[1..] == d;
    assert Strip(r) == r by {
      assert !IsSpace(r[0]) && !IsSpace(r[|r| - 1]);
    }
    assert r[0] == '-' && AllDigits(r[1..]);
  }

  /** The digits of `n` read as `n`. */
  lemma ParseNonNegative(d: string, n: nat)
    requires d == NatToDigits(n)
    ensures ParseInt(d) == Some(n)
  {
    ParseDigits(d);
    DigitsRoundTrip(n);
  }

  /** Digits alone read as the number they denote. */
  lemma ParseDigits(d: string)
    requires |d| > 0 && AllDigits(d)
    ensures ParseInt(d) == Some(DigitsValue(d))
  {
    assert !IsSpace(d[0]) && !IsSpace(d[|d| - 1]);
    assert Strip(d) == d;
    assert !(d[0] == '-' || d[0] == '+');
  }

  /** Up to `k` decimal digits of a fraction in [0, 1), stopping when it is exhausted. */
  function FractionDigits(f: real, k: nat): (r: string)
    requires 0.0 <= f < 1.0
    ensures AllDigits(r)
    decreases k
  {
    if k == 0 || f == 0.0 then ""
    else
      var d := (f * 10.0).Floor;
      [DigitChar(d)] + FractionDigits(f * 10.0 - d as real, k - 1)
  }

  /** Python's `str` of a finite float, written in positional notation, so it holds a decimal
      point. The digits after the point are the exact expansion (up to 17 digits) rather than
      the shortest round-trip form. */
  function FloatText(r: real): (t: string)
    ensures '.' in t
  {
    var a := if r < 0.0 then -r else r;
    var whole := a.Floor;
    var frac := FractionDigits(a - whole as real, 17);
    var t := (if r < 0.0 then "-" else "") + NatToDigits(whole) + "." + (if frac == "" then "0" else frac);
    assert t[|t| - |(if frac == "" then "0" else frac)| - 1] == '.';
    t
  }

  /** `s` ends with `suffix`. */
  predicate EndsWith(s: string, suffix: string) {
    |suffix| <= |s| && s[|s| - |suffix|..] == suffix
  }

  /** Python's `str.split(sep)` with a one-character separator: never empty; no piece holds
      the separator. */
  function SplitOn(s: string, sep: char): (parts: seq<string>)
    ensures |parts| >= 1
    ensures forall k :: 0 <= k < |parts| ==> sep !in parts[k]
    decreases |s|
  {
    if |s| == 0 then [""]
    else
      var rest := SplitOn(s[..|s| - 1], sep);
      if s[|s| - 1] == sep then rest + [""]
      else rest[..|rest| - 1] + [rest[|rest| - 1] + [s[|s| - 1]]]
  }

  /** Python's `sep.join(parts)`. */
  function JoinOn(parts: seq<string>, sep: char): string
    requires |parts| >= 1
    decreases |parts|
  {
    if |parts| == 1 then parts[0]
    else JoinOn(parts[..|parts| - 1], sep) + [sep] + parts[|parts| - 1]
  }

  /** Joining one more piece appends the separator and the piece. */
  lemma JoinSnoc(parts: seq<string>, p: string, sep: char)
    requires |parts| >= 1
    ensures JoinOn(parts + [p], sep) == JoinOn(parts, sep) + [sep] + p
  {
    assert (parts + [p])[..|parts|] == parts;
  }

  /** Joining the pieces of a split gives the string back. */
  lemma {:induction false} JoinSplit(s: string, sep: char)
    ensures JoinOn(SplitOn(s, sep), sep) == s
    decreases |s|
  {
    if |s| == 0 {
      assert SplitOn(s, sep) == [""];
    } else {
      var init := s[..|s| - 1];
      JoinSplit(init, sep);
      assert s == init + [s[|s| - 1]];
      JoinSplitSnoc(init, s[|s| - 1], sep);
    }
  }

  /** One more character keeps the join of the split equal to the string. */
  lemma JoinSplitSnoc(init: string, c: char, sep: char)
    requires JoinOn(SplitOn(init, sep), sep) == init
    ensures JoinOn(SplitOn(init + [c], sep), sep) == init + [c]
  {
    var s := init + [c];
    var rest := SplitOn(init, sep);
    assert s[..|s| - 1] == init;
    if c == sep {
      assert SplitOn(s, sep) == rest + [""];
      JoinSnoc(rest, "", sep);
      assert JoinOn(rest, sep) + [sep] + "" == s;
    } else {
      assert SplitOn(s, sep) == rest[..|rest| - 1] + [rest[|rest| - 1] + [c]];
      JoinLastExtended(rest, sep, c);
    }
  }

  /** Appending a character to the last piece appends it to the joined string. */
  lemma JoinLastExtended(parts: seq<string>, sep: char, c: char)
    requires |parts| >= 1
    ensures JoinOn(parts[..|parts| - 1] + [parts[|parts| - 1] + [c]], sep) == JoinOn(parts, sep) + [c]
  {
    var parts' := parts[..|parts| - 1] + [parts[|parts| - 1] + [c]];
    assert parts'[..|parts'| - 1] == parts[..|parts| - 1];
  }

  /** Splitting a string whose last separator is followed by a separator-free `p`. */
  lemma {:induction false} SplitAfterSeparator(x: string, sep: char, p: string)
    requires sep !in p
    ensures SplitOn(x + [sep] + p, sep) == SplitOn(x, sep) + [p]
    decreases |p|
  {
    if |p| == 0 {
      assert (x + [sep] + p)[..|x + [sep] + p| - 1] == x;
    } else {
      var p' := p[..|p| - 1];
      SplitAfterSeparator(x, sep, p');
      var s := x + [sep] + p;
      assert s[..|s| - 1] == x + [sep] + p';
      assert p == p' + [p[|p| - 1]];
    }
  }

  /** Splitting a join of separator-free pieces gives the pieces back. */
  lemma {:induction false} SplitJoin(parts: seq<string>, sep: char)
    requires |parts| >= 1
    requires forall k :: 0 <= k < |parts| ==> sep !in parts[k]
    ensures SplitOn(JoinOn(parts, sep), sep) == parts
    decreases |parts|
  {
    if |parts| == 1 {
      SplitOfSeparatorFree(parts[0], sep);
    } else {
      var init := parts[..|parts| - 1];
      SplitJoin(init, sep);
      SplitAfterSeparator(JoinOn(init, sep), sep, parts[|parts| - 1]);
      assert parts == init + [parts[|parts| - 1]];
    }
  }

  /** A string without the separator is a single piece. */
  lemma {:induction false} SplitOfSeparatorFree(s: string, sep: char)
    requires sep !in s
    ensures SplitOn(s, sep) == [s]
    decreases |s|
  {
    if |s| > 0 {
      SplitOfSeparatorFree(s[..|s| - 1], sep);
      assert s == s[..|s| - 1] + [s[|s| - 1]];
    }
  }
}
