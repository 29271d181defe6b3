/**
 Text as the wire sees it.  Every byte is one ASCII character, so encoding and decoding are the
 identity.  This module holds the parts of Python's `str` that the framing code relies on: `strip`,
 the decimal printing done by `%i` and `str`, and the decimal reading done by `int`.
 */
module Strings {

  datatype Option<+T> = None | Some(value: T)

  /** What `str.strip` removes: tab to carriage return, the four separators, and space. */
  predicate IsSpace(c: char) {
    '\t' <= c <= '\r' || '\U{1c}' <= c <= ' '
  }

  predicate Blank(s: string) {
    forall i :: 0 <= i < |s| ==> IsSpace(s[i])
  }

  function LStrip(s: string): string {
    if s != "" && IsSpace(s[0]) then LStrip(s[1..]) else s
  }

  function RStrip(s: string): string {
    if s != "" && IsSpace(s[|s| - 1]) then RStrip(s[..|s| - 1]) else s
  }

  function Strip(s: string): string {
    RStrip(LStrip(s))
  }

  lemma {:induction false} LStripBlankPrefix(w: string, s: string)
    requires Blank(w)
    ensures LStrip(w + s) == LStrip(s)
  {
    if w == "" {
      assert w + s == s;
    } else {
      assert (w + s)[1..] == w[1..] + s;
      LStripBlankPrefix(w[1..], s);
    }
  }

  lemma {:induction false} LStripSplits(s: string) returns (w: string)
    ensures Blank(w) && s == w + LStrip(s)
  {
    if s != "" && IsSpace(s[0]) {
      var v := LStripSplits(s[1..]);
      w := [s[0]] + v;
      assert s == [s[0]] + s[1..];
    } else {
      w := "";
    }
  }

  lemma {:induction false} RStripSplits(s: string) returns (w: string)
    ensures Blank(w) && s == RStrip(s) + w
  {
    if s != "" && IsSpace(s[|s| - 1]) {
      var v := RStripSplits(s[..|s| - 1]);
      w := v + [s[|s| - 1]];
      assert s == s[..|s| - 1] + [s[|s| - 1]];
    } else {
      w := "";
      assert s == RStrip(s) + w;
    }
  }

  lemma {:induction false} BlankStripsToNothing(s: string)
    requires Blank(s)
    ensures LStrip(s) == "" && Strip(s) == ""
  {
    assert s + "" == s;
    LStripBlankPrefix(s, "");
  }

  /** Stripping leaves nothing exactly on blank text. */
  lemma StripEmptyIffBlank(s: string)
    ensures Strip(s) == "" <==> Blank(s)
  {
    if Blank(s) {
      BlankStripsToNothing(s);
    }
    var a := LStripSplits(s);
    var b := RStripSplits(LStrip(s));
    assert s == a + (Strip(s) + b);
    assert Strip(s) == "" ==> s == a + b;
  }

  /** A blank prefix does not survive stripping. */
  lemma StripBlankPrefix(w: string, s: string)
    requires Blank(w)
    ensures Strip(w + s) == Strip(s)
  {
    LStripBlankPrefix(w, s);
  }

  /** The blank characters, one by one. */
  lemma SpaceChars(c: char)
    ensures IsSpace(c) <==> c in "\t\n\U{b}\U{c}\r\U{1c}\U{1d}\U{1e}\U{1f} "
  {
    var all := "\t\n\U{b}\U{c}\r\U{1c}\U{1d}\U{1e}\U{1f} ";
    if IsSpace(c) {
      var i := if c <= '\r' then c as int - 9 else c as int - 23;
      assert all[i] == c;
    }
  }

  /** No blank stands at either end. */
  predicate Trimmed(s: string) {
    s != "" ==> !IsSpace(s[0]) && !IsSpace(s[|s| - 1])
  }

  lemma {:induction false} RStripEnd(s: string)
    ensures RStrip(s) <= s && (RStrip(s) != "" ==> !IsSpace(RStrip(s)[|RStrip(s)| - 1]))
  {
    if s != "" && IsSpace(s[|s| - 1]) {
      RStripEnd(s[..|s| - 1]);
    }
  }

  lemma {:induction false} LStripStart(s: string)
    ensures LStrip(s) != "" ==> !IsSpace(LStrip(s)[0])
  {
    if s != "" && IsSpace(s[0]) {
      LStripStart(s[1..]);
    }
  }

  /** Stripping leaves no blank at either end, and what it takes away is blank. */
  lemma StripTrims(s: string) returns (w: string, v: string)
    ensures Trimmed(Strip(s)) && Blank(w) && Blank(v) && s == w + Strip(s) + v
  {
    w := LStripSplits(s);
    v := RStripSplits(LStrip(s));
    LStripStart(s);
    RStripEnd(LStrip(s));
  }

  lemma {:induction false} RStripBlankSuffix(s: string, v: string)
    requires Blank(v) && (s != "" ==> !IsSpace(s[|s| - 1]))
    ensures RStrip(s + v) == s
    decreases |v|
  {
    if v == "" {
      assert s + v == s;
    } else {
      assert (s + v)[..|s + v| - 1] == s + v[..|v| - 1];
      RStripBlankSuffix(s, v[..|v| - 1]);
    }
  }

  /** Blank text around a text that neither starts nor ends with it is what stripping removes, and no more. */
  lemma StripExact(w: string, s: string, v: string)
    requires Blank(w) && Blank(v) && Trimmed(s)
    ensures Strip(w + s + v) == s
  {
    Assoc(w, s, v);
    LStripBlankPrefix(w, s + v);
    if s == "" {
      assert s + v == v;
      BlankStripsToNothing(v);
    } else {
      assert LStrip(s + v) == s + v;
      RStripBlankSuffix(s, v);
    }
  }

  lemma Assoc(a: string, b: string, c: string)
    ensures (a + b) + c == a + (b + c)
  {
  }

  // Decimal numerals

  predicate IsDigit(c: char) {
    '0' <= c <= '9'
  }

  predicate AllDigits(s: string) {
    forall i :: 0 <= i < |s| ==> IsDigit(s[i])
  }

  /** A non-empty run of digits, as the pattern `[0-9]+` accepts: leading zeros are allowed. */
  predicate Numeral(s: string) {
    s != "" && AllDigits(s)
  }

  function DigitChar(d: nat): (c: char)
    requires d < 10
    ensures IsDigit(c) && DigitValue(c) == d
  {
    ('0' as int + d) as char
  }

  function DigitValue(c: char): nat
    requires IsDigit(c)
  {
    c as int - '0' as int
  }

  /** `b'%i' % n` and `str(n)`. */
  function Dec(n: nat): (s: string)
    ensures Numeral(s)
  {
    if n < 10 then [DigitChar(n)] else Dec(n / 10) + [DigitChar(n % 10)]
  }

  /** `int(s)` on a run of digits. */
  function DecValue(s: string): nat
    requires AllDigits(s)
  {
    if s == "" then 0 else 10 * DecValue(s[..|s| - 1]) + DigitValue(s[|s| - 1])
  }

  /** Reading back a printed number gives the number. */
  lemma {:induction false} DecRoundTrip(n: nat)
    ensures DecValue(Dec(n)) == n
  {
    if n < 10 {
      assert Dec(n)[..0] == "";
    } else {
      DecRoundTrip(n / 10);
      var s := Dec(n);
      assert s[..|s| - 1] == Dec(n / 10);
    }
  }

  const DIGITS := "0123456789"

  /** The digits, one by one: which characters they are, what they print, and what they mean. */
  lemma DigitChars(d: nat, c: char)
    requires d < 10
    ensures IsDigit(c) <==> c in DIGITS
    ensures Dec(d) == [DIGITS[d]] && AllDigits([DIGITS[d]]) && DecValue([DIGITS[d]]) == d
  {
    if IsDigit(c) {
      assert DIGITS[c as int - '0' as int] == c;
    }
    assert [DIGITS[d]][..0] == "";
  }

  /** Longer numerals are decimal: the last digit counts one, and what stands before it ten times as much. */
  lemma Decimal(n: nat, s: string, d: nat)
    requires AllDigits(s) && d < 10
    ensures 0 < n ==> Dec(10 * n + d) == Dec(n) + [DIGITS[d]]
    ensures AllDigits(s + [DIGITS[d]]) && DecValue(s + [DIGITS[d]]) == 10 * DecValue(s) + d
  {
    DigitChars(d, DIGITS[d]);
    var t := s + [DIGITS[d]];
    assert t[..|t| - 1] == s;
    assert (10 * n + d) / 10 == n && (10 * n + d) % 10 == d;
  }

  lemma DecInjective(m: nat, n: nat)
    requires Dec(m) == Dec(n)
    ensures m == n
  {
    DecRoundTrip(m);
    DecRoundTrip(n);
  }

  // Sequences of strings

  /** `''.join(parts)`. */
  function Join(parts: seq<string>): string {
    if parts == [] then "" else parts[0] + Join(parts[1..])
  }

  lemma {:induction false} JoinAppend(a: seq<string>, b: seq<string>)
    ensures Join(a + b) == Join(a) + Join(b)
  {
    if a == [] {
      assert a + b == b;
    } else {
      assert (a + b)[1..] == a[1..] + b;
      JoinAppend(a[1..], b);
    }
  }

  lemma JoinSnoc(a: seq<string>, x: string)
    ensures Join(a + [x]) == Join(a) + x
  {
    JoinAppend(a, [x]);
    assert Join([x]) == x + Join([]);
  }

  /** The texts of `xs`, one after the other. */
  function JoinMap<T>(text: T -> string, xs: seq<T>): string {
    if xs == [] then "" else text(xs[0]) + JoinMap(text, xs[1..])
  }

  lemma {:induction false} JoinMapAppend<T>(text: T -> string, a: seq<T>, b: seq<T>)
    ensures JoinMap(text, a + b) == JoinMap(text, a) + JoinMap(text, b)
  {
    if a == [] {
      assert a + b == b;
    } else {
      assert (a + b)[1..] == a[1..] + b;
      JoinMapAppend(text, a[1..], b);
    }
  }

  lemma JoinMapSnoc<T>(text: T -> string, a: seq<T>, x: T)
    ensures JoinMap(text, a + [x]) == JoinMap(text, a) + text(x)
  {
    JoinMapAppend(text, a, [x]);
    assert JoinMap(text, [x]) == text(x) + JoinMap(text, []);
  }
}
