/** The parts of Python's string handling the models rely on: `str.isspace`,
    `str.lstrip`/`rstrip`/`strip`, the first field of `str.split()` and
    `int()` applied to a `str`. */
module PyStr {
  import opened Wrappers

  /** Python's whitespace among the characters below U+0100, as
      `str.isspace`, `strip` and `split` see it: tab, line feed, vertical
      tab, form feed, carriage return, U+001C..U+001F, space, U+0085 and
      U+00A0. */
  predicate IsSpace(c: char) {
    c == ' ' || ('\t' <= c <= '\r') || ('\U{1C}' <= c <= '\U{1F}') || c == '\U{85}' || c == '\U{A0}'
  }

  /** The whitespace `int()` skips around its digits, among the characters
      below U+0100: it keeps every ASCII character as it is and skips only
      tab to carriage return and space, after turning U+0085 and U+00A0
      into a space. U+001C..U+001F are not skipped. */
  predicate IsIntSpace(c: char) {
    c == ' ' || ('\t' <= c <= '\r') || c == '\U{85}' || c == '\U{A0}'
  }

  /** Which of the two whitespace sets a trim uses. */
  datatype Blanks = StrBlanks | IntBlanks

  predicate Blank(c: char, b: Blanks) {
    match b
    case StrBlanks => IsSpace(c)
    case IntBlanks => IsIntSpace(c)
  }

  predicate AllBlank(s: string, b: Blanks) {
    forall i :: 0 <= i < |s| ==> Blank(s[i], b)
  }

  predicate AllSpace(s: string) {
    AllBlank(s, StrBlanks)
  }

  predicate NoSpace(s: string) {
    forall i :: 0 <= i < |s| ==> !IsSpace(s[i])
  }

  /** `s.lstrip()`: the suffix left after the leading whitespace. */
  function TrimLeft(s: string, b: Blanks): (r: string)
    ensures |r| <= |s| && r == s[|s| - |r|..]
    ensures AllBlank(s[..|s| - |r|], b)
    ensures r == [] || !Blank(r[0], b)
  {
    if |s| > 0 && Blank(s[0], b) then TrimLeft(s[1..], b) else s
  }

  /** `s.rstrip()`: the prefix left before the trailing whitespace. */
  function TrimRight(s: string, b: Blanks): (r: string)
    ensures |r| <= |s| && r == s[..|r|]
    ensures AllBlank(s[|r|..], b)
    ensures r == [] || !Blank(r[|r| - 1], b)
  {
    if |s| > 0 && Blank(s[|s| - 1], b) then TrimRight(s[..|s| - 1], b) else s
  }

  /** Both ends trimmed: empty exactly for an all-blank `s`; otherwise it
      begins and ends with a non-blank character of `s`. */
  function Trim(s: string, b: Blanks): (r: string)
    ensures r == [] <==> AllBlank(s, b)
    ensures r != [] ==> !Blank(r[0], b) && !Blank(r[|r| - 1], b)
    ensures |r| <= |s|
  {
    var l := TrimLeft(s, b);
    var r := TrimRight(l, b);
    assert r == [] ==> s == s[..|s| - |l|] + l[|r|..];
    r
  }

  /** `s.strip()`. It is empty exactly for an all-whitespace `s`; otherwise it
      begins and ends with a non-space character of `s`. */
  function Strip(s: string): (r: string)
    ensures r == [] <==> AllSpace(s)
    ensures r != [] ==> !IsSpace(r[0]) && !IsSpace(r[|r| - 1])
  {
    Trim(s, StrBlanks)
  }

  lemma {:induction false} TrimLeftPadded(w: string, u: string, b: Blanks)
    requires AllBlank(w, b)
    requires u == [] || !Blank(u[0], b)
    ensures TrimLeft(w + u, b) == u
  {
    if w != [] {
      assert (w + u)[1..] == w[1..] + u;
      TrimLeftPadded(w[1..], u, b);
    } else {
      assert w + u == u;
    }
  }

  lemma {:induction false} TrimRightPadded(u: string, w: string, b: Blanks)
    requires AllBlank(w, b)
    requires u == [] || !Blank(u[|u| - 1], b)
    ensures TrimRight(u + w, b) == u
  {
    if w != [] {
      assert (u + w)[..|u + w| - 1] == u + w[..|w| - 1];
      TrimRightPadded(u, w[..|w| - 1], b);
    } else {
      assert u + w == u;
    }
  }

  /** Trimming removes exactly the blank padding around a text that begins
      and ends with non-blank characters. */
  lemma TrimPadded(w: string, t: string, w': string, b: Blanks)
    requires AllBlank(w, b) && AllBlank(w', b)
    requires t == [] || (!Blank(t[0], b) && !Blank(t[|t| - 1], b))
    ensures Trim(w + t + w', b) == t
  {
    if t == [] {
      var s := w + t + w';
      assert forall i :: 0 <= i < |s| ==> s[i] == (if i < |w| then w[i] else w'[i - |w|]);
    } else {
      assert w + t + w' == w + (t + w');
      TrimLeftPadded(w, t + w', b);
      TrimRightPadded(t, w', b);
    }
  }

  /** `strip` removes exactly the whitespace padding around a text that
      begins and ends with non-space characters; in particular it is
      idempotent. */
  lemma StripPadded(w: string, t: string, w': string)
    requires AllSpace(w) && AllSpace(w')
    requires t == [] || (!IsSpace(t[0]) && !IsSpace(t[|t| - 1]))
    ensures Strip(w + t + w') == t
  {
    TrimPadded(w, t, w', StrBlanks);
  }

  /** The longest prefix of `s` without whitespace. */
  function TakeField(s: string): (r: string)
    ensures |r| <= |s| && r == s[..|r|] && NoSpace(r)
    ensures |r| == |s| || IsSpace(s[|r|])
  {
    if s == [] || IsSpace(s[0]) then []
    else
      var t := TakeField(s[1..]);
      var r := [s[0]] + t;
      assert s[..|r|] == [s[0]] + s[1..][..|t|];
      assert |r| < |s| ==> s[|r|] == s[1..][|t|];
      r
  }

  /** `s.split()[0]`, or `None` where Python raises `IndexError` because `s`
      has no field at all. */
  function FirstField(s: string): (r: Option<string>)
    ensures r.None? <==> AllSpace(s)
    ensures r.Some? ==> r.value != [] && NoSpace(r.value)
  {
    var t := TrimLeft(s, StrBlanks);
    if t == [] then None else Some(TakeField(t))
  }

  lemma {:induction false} TakeFieldOf(f: string, rest: string)
    requires NoSpace(f) && (rest == [] || IsSpace(rest[0]))
    ensures TakeField(f + rest) == f
  {
    if f == [] {
      assert f + rest == rest;
    } else {
      assert (f + rest)[1..] == f[1..] + rest;
      TakeFieldOf(f[1..], rest);
    }
  }

  /** The first field of a command line is the word after the leading
      whitespace, up to the next whitespace or the end. */
  lemma FirstFieldOf(w: string, f: string, rest: string)
    requires AllSpace(w) && f != [] && NoSpace(f)
    requires rest == [] || IsSpace(rest[0])
    ensures FirstField(w + f + rest) == Some(f)
  {
    assert w + f + rest == w + (f + rest);
    TrimLeftPadded(w, f + rest, StrBlanks);
    TakeFieldOf(f, rest);
  }

  predicate IsDigit(c: char) {
    '0' <= c <= '9'
  }

  /** Decimal digits in groups separated by single underscores: the digit
      strings `int()` accepts in base 10 (leading zeros included). */
  predicate DigitGroups(s: string) {
    && |s| > 0 && IsDigit(s[0]) && IsDigit(s[|s| - 1])
    && (forall i :: 0 <= i < |s| ==> IsDigit(s[i]) || s[i] == '_')
    && (forall i :: 0 <= i < |s| - 1 ==> IsDigit(s[i]) || IsDigit(s[i + 1]))
  }

  /** The number the digits of `s` spell, underscores skipped. */
  function DigitsValue(s: string): nat {
    if s == [] then 0
    else if IsDigit(s[|s| - 1]) then DigitsValue(s[..|s| - 1]) * 10 + (s[|s| - 1] as int - '0' as int)
    else DigitsValue(s[..|s| - 1])
  }

  /** `int(s)` for a `str` argument `s`: the whitespace `int()` skips is
      ignored around the text, then one optional sign, then digit groups.
      `None` stands for the `ValueError` Python raises on anything else. */
  function ParseInt(s: string): (r: Option<int>)
    // only a text that holds a digit converts
    ensures r.Some? ==> exists i :: 0 <= i < |s| && IsDigit(s[i])
  {
    var l := TrimLeft(s, IntBlanks);
    var t := TrimRight(l, IntBlanks);
    var r := ParseStrippedInt(t);
    assert r.Some? ==> t[|t| - 1] == s[|s| - |l| + |t| - 1];
    r
  }

  /** `int()` skips fewer characters than `strip()`: a text that begins
      with one of U+001C..U+001F is refused, although `strip()` drops that
      character. */
  lemma ParseRefusesSeparator(s: string)
    requires |s| > 0 && '\U{1C}' <= s[0] <= '\U{1F}'
    ensures ParseInt(s) == None
    ensures Strip(s) == Strip(s[1..])
  {
    assert !Blank(s[0], IntBlanks) && Blank(s[0], StrBlanks);
    assert TrimLeft(s, IntBlanks) == s;
    var t := TrimRight(s, IntBlanks);
    assert ParseInt(s) == ParseStrippedInt(t);
    if t != [] {
      assert t[0] == s[0] && !IsDigit(t[0]) && t[0] != '+' && t[0] != '-';
      assert !DigitGroups(t);
    }
    assert TrimLeft(s, StrBlanks) == TrimLeft(s[1..], StrBlanks);
  }

  /** `int()` on a text without surrounding whitespace: it converts only
      when the text ends in a digit, and the sign of the number is the sign
      written. */
  function ParseStrippedInt(t: string): (r: Option<int>)
    ensures r.Some? ==> t != [] && IsDigit(t[|t| - 1])
    ensures r.Some? && t[0] == '-' ==> r.value <= 0
    ensures r.Some? && t[0] != '-' ==> r.value >= 0
  {
    if |t| > 0 && (t[0] == '+' || t[0] == '-') then
      if DigitGroups(t[1..]) then
        var v: int := DigitsValue(t[1..]);
        Some(if t[0] == '-' then -v else v)
      else None
    else if DigitGroups(t) then Some(DigitsValue(t))
    else None
  }

  function DigitChar(d: nat): (c: char)
    requires d < 10
    ensures IsDigit(c) && c as int - '0' as int == d
  {
    ('0' as int + d) as char
  }

  /** `str(n)` for `n >= 0`. */
  function NatText(n: nat): string
  {
    if n < 10 then [DigitChar(n)] else NatText(n / 10) + [DigitChar(n % 10)]
  }

  /** `str(n)`. */
  function DecimalText(n: int): string {
    if n < 0 then "-" + NatText(-n) else NatText(n)
  }

  lemma {:induction false} NatTextDigits(n: nat)
    ensures |NatText(n)| > 0
    ensures forall i :: 0 <= i < |NatText(n)| ==> IsDigit(NatText(n)[i])
    ensures DigitsValue(NatText(n)) == n
  {
    var s := NatText(n);
    if n >= 10 {
      NatTextDigits(n / 10);
      assert s[..|s| - 1] == NatText(n / 10);
    }
  }

  lemma ParseDecimalCore(n: int)
    ensures var t := DecimalText(n); t != [] && !IsIntSpace(t[0]) && !IsIntSpace(t[|t| - 1])
    ensures ParseStrippedInt(DecimalText(n)) == Some(n)
  {
    var m: nat := if n < 0 then -n else n;
    NatTextDigits(m);
    var d := NatText(m);
    assert DigitGroups(d);
    if n < 0 {
      var t := DecimalText(n);
      assert t == "-" + d;
      assert t[1..] == d;
      assert t[|t| - 1] == d[|d| - 1];
    } else {
      assert DecimalText(n) == d;
    }
  }

  /** `int(str(n)) == n`, also with the whitespace `int()` skips around
      the text. */
  lemma ParseDecimalText(w: string, n: int, w': string)
    requires AllBlank(w, IntBlanks) && AllBlank(w', IntBlanks)
    ensures ParseInt(w + DecimalText(n) + w') == Some(n)
  {
    ParseDecimalCore(n);
    TrimPadded(w, DecimalText(n), w', IntBlanks);
  }

  /** A text without any decimal digit never converts. */
  lemma ParseRejectsWithoutDigits(s: string)
    requires forall i :: 0 <= i < |s| ==> !IsDigit(s[i])
    ensures ParseInt(s) == None
  {
    var l := TrimLeft(s, IntBlanks);
    var t := TrimRight(l, IntBlanks);
    if |t| > 1 {
      assert t[1] == s[|s| - |l| + 1];
    }
    if |t| > 0 {
      assert t[0] == s[|s| - |l|];
    }
  }
}
