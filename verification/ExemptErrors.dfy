/**
 The error messages that a device handler lets pass: its four lists of patterns, and the wildcard matching
 they amount to.
 */
module ExemptErrors {
  import opened Strings

  // Case and text

  function LowerChar(c: char): char {
    if 'A' <= c <= 'Z' then (c as int + 32) as char else c
  }

  /** `str.lower`, for ASCII. */
  function Lower(s: string): string {
    seq(|s|, i requires 0 <= i < |s| => LowerChar(s[i]))
  }

  /** The text that patterns are compared with. */
  function Subject(text: Option<string>): string {
    match text
    case None => "no error given"
    case Some(s) => Strip(Lower(s))
  }

  const UPPER := "ABCDEFGHIJKLMNOPQRSTUVWXYZ"
  const LOWER := "abcdefghijklmnopqrstuvwxyz"

  lemma SmallLetters(k: nat)
    requires k < 26
    ensures |UPPER| == |LOWER| == 26 && 'A' <= UPPER[k] <= 'Z' && LowerChar(UPPER[k]) == LOWER[k]
    ensures UPPER[k] as int == 'A' as int + k
  {
  }

  lemma Capitals(c: char)
    ensures 'A' <= c <= 'Z' <==> c in UPPER
  {
    if 'A' <= c <= 'Z' {
      SmallLetters(c as int - 'A' as int);
      assert UPPER[c as int - 'A' as int] == c;
    }
    if k: nat :| k < 26 && UPPER[k] == c {
      SmallLetters(k);
    }
  }

  /** Lower case, letter by letter: each of the capitals becomes its small letter, and nothing else changes. */
  lemma LowerLetters(s: string, i: nat, k: nat)
    requires i < |s| && k < 26
    ensures |Lower(s)| == |s| && |UPPER| == |LOWER| == 26
    ensures s[i] == UPPER[k] ==> Lower(s)[i] == LOWER[k]
    ensures s[i] !in UPPER ==> Lower(s)[i] == s[i]
  {
    Capitals(s[i]);
    SmallLetters(k);
  }

  lemma LowerExample()
    ensures Lower("ABCXYZ abc-09") == "abcxyz abc-09"
  {
  }

  lemma LowerSpace(c: char)
    ensures IsSpace(LowerChar(c)) <==> IsSpace(c)
  {
  }

  /** What patterns are compared with is the message in lower case without the blanks around it. */
  lemma SubjectExact(w: string, s: string, v: string)
    requires Blank(w) && Blank(v) && Trimmed(s)
    ensures Subject(Some(w + s + v)) == Lower(s)
  {
    assert Lower(w + s + v) == Lower(w) + Lower(s) + Lower(v);
    assert Blank(Lower(w)) && Blank(Lower(v)) && Trimmed(Lower(s));
    StripExact(Lower(w), Lower(s), Lower(v));
  }

  lemma SubjectOfNothing()
    ensures Subject(None) == "no error given"
  {
  }

  // The reference: wildcard matching

  datatype Item = Star | Char(c: char)

  function Chars(s: string): seq<Item> {
    seq(|s|, i requires 0 <= i < |s| => Char(s[i]))
  }

  /** A pattern with its wildcards: a star counts as one only where the pattern starts or ends. */
  function Items(p: string): seq<Item> {
    seq(|p|, i requires 0 <= i < |p| =>
          if p[i] == '*' && (i == 0 || i == |p| - 1) then Star else Char(p[i]))
  }

  /** Wildcard matching by cases: a star matches any stretch of the text, also none. */
  predicate Matches(items: seq<Item>, text: string)
    decreases |items|, |text|
  {
    if items == [] then text == ""
    else if items[0].Star? then Matches(items[1..], text) || (text != "" && Matches(items, text[1..]))
    else text != "" && text[0] == items[0].c && Matches(items[1..], text[1..])
  }

  ghost predicate MatchesSome(patterns: seq<string>, text: string) {
    exists i :: 0 <= i < |patterns| && Matches(Items(Lower(patterns[i])), text)
  }

  // What the tests of the code mean

  predicate EndsWith(s: string, t: string) {
    |t| <= |s| && s[|s| - |t|..] == t
  }

  ghost predicate Contains(s: string, t: string) {
    exists i :: 0 <= i <= |s| && t <= s[i..]
  }

  lemma {:induction false} CharsMatch(s: string, text: string)
    ensures Matches(Chars(s), text) <==> text == s
  {
    if s == "" {
    } else {
      assert Chars(s)[1..] == Chars(s[1..]);
      if text != "" {
        CharsMatch(s[1..], text[1..]);
        assert text == [text[0]] + text[1..] && s == [s[0]] + s[1..];
      }
    }
  }

  lemma {:induction false} StarMatches(text: string)
    ensures Matches([Star], text)
    decreases |text|
  {
    if text == "" {
      assert Matches([Star][1..], text);
    } else {
      StarMatches(text[1..]);
    }
  }

  lemma {:induction false} PrefixMatch(s: string, text: string)
    ensures Matches(Chars(s) + [Star], text) <==> s <= text
  {
    if s == "" {
      assert Chars(s) + [Star] == [Star];
      StarMatches(text);
    } else {
      assert (Chars(s) + [Star])[1..] == Chars(s[1..]) + [Star];
      if text != "" {
        PrefixMatch(s[1..], text[1..]);
        assert text == [text[0]] + text[1..] && s == [s[0]] + s[1..];
      }
    }
  }

  lemma {:induction false} SuffixMatch(s: string, text: string)
    ensures Matches([Star] + Chars(s), text) <==> EndsWith(text, s)
    decreases |text|
  {
    assert ([Star] + Chars(s))[1..] == Chars(s);
    CharsMatch(s, text);
    if text != "" {
      SuffixMatch(s, text[1..]);
      if |s| < |text| {
        assert text[1..][|text| - 1 - |s|..] == text[|text| - |s|..];
      }
    }
  }

  lemma {:induction false} InfixMatch(s: string, text: string)
    ensures Matches([Star] + Chars(s) + [Star], text) <==> Contains(text, s)
    decreases |text|
  {
    var items := [Star] + Chars(s) + [Star];
    assert items[1..] == Chars(s) + [Star];
    PrefixMatch(s, text);
    assert text[0..] == text;
    if text != "" {
      InfixMatch(s, text[1..]);
      assert forall i :: 0 <= i <= |text| - 1 ==> text[1..][i..] == text[i + 1..];
      if Contains(text, s) && !(s <= text) {
        var i :| 0 <= i <= |text| && s <= text[i..];
        assert s <= text[1..][i - 1..];
      }
      if Contains(text[1..], s) {
        var i :| 0 <= i <= |text[1..]| && s <= text[1..][i..];
        assert s <= text[i + 1..];
      }
    }
  }

  // The four lists

  /** Where the constructor puts a pattern, already in lower case. */
  datatype Kind = Exact | Suffix | Prefix | Infix

  function KindOf(e: string): Kind {
    if "*" <= e then (if EndsWith(e, "*") then Infix else Suffix)
    else if EndsWith(e, "*") then Prefix else Exact
  }

  /** `e[1:-1]`, `e[1:]` and `e[:-1]`: a single star gives the empty text. */
  function Core(e: string): string {
    match KindOf(e)
    case Exact => e
    case Suffix => e[1..]
    case Prefix => e[..|e| - 1]
    case Infix => if |e| < 2 then "" else e[1..|e| - 1]
  }

  /** What the code tests for a pattern of a kind. */
  ghost predicate Passes(kind: Kind, core: string, text: string) {
    match kind
    case Exact => text == core
    case Suffix => EndsWith(text, core)
    case Prefix => core <= text
    case Infix => Contains(text, core)
  }

  /** For every pattern, the test of its list is wildcard matching; the pattern `*` matches everything. */
  lemma KindDecides(e: string, text: string)
    ensures Passes(KindOf(e), Core(e), text) <==> Matches(Items(e), text)
  {
    hide Matches, Contains;
    var c := Core(e);
    match KindOf(e)
    case Exact =>
      assert Items(e) == Chars(e);
      CharsMatch(e, text);
    case Suffix =>
      assert Items(e) == [Star] + Chars(c);
      SuffixMatch(c, text);
    case Prefix =>
      assert Items(e) == Chars(c) + [Star];
      PrefixMatch(c, text);
    case Infix =>
      if |e| == 1 {
        assert Items(e) == [Star];
        StarMatches(text);
        NothingContained(text);
      } else {
        assert Items(e) == [Star] + Chars(c) + [Star];
        InfixMatch(c, text);
      }
  }

  lemma NothingContained(text: string)
    ensures Contains(text, "")
  {
    assert "" <= text[0..];
  }

  /** The cores of the patterns of one kind, in order. */
  function CoresOf(patterns: seq<string>, kind: Kind): seq<string> {
    if patterns == [] then []
    else
      var k := |patterns| - 1;
      var e := Lower(patterns[k]);
      CoresOf(patterns[..k], kind) + if KindOf(e) == kind then [Core(e)] else []
  }

  lemma NoCores()
    ensures forall kind :: CoresOf([], kind) == []
  {
  }

  lemma NextCores(patterns: seq<string>, i: nat)
    requires i < |patterns|
    ensures forall kind :: CoresOf(patterns[..i + 1], kind) ==
              CoresOf(patterns[..i], kind)
              + if KindOf(Lower(patterns[i])) == kind then [Core(Lower(patterns[i]))] else []
  {
    assert patterns[..i + 1][..i] == patterns[..i];
  }

  ghost predicate SomePasses(kind: Kind, cores: seq<string>, text: string) {
    exists i :: 0 <= i < |cores| && Passes(kind, cores[i], text)
  }

  lemma SomePassesSnoc(kind: Kind, cores: seq<string>, c: string, text: string)
    ensures SomePasses(kind, cores + [c], text) <==> SomePasses(kind, cores, text) || Passes(kind, c, text)
    ensures cores + [] == cores
  {
    hide Passes;
    var all := cores + [c];
    assert all[|cores|] == c;
    assert forall i :: 0 <= i < |cores| ==> all[i] == cores[i];
  }

  /** Some list holds a pattern that passes exactly when some pattern matches. */
  lemma {:induction false} ListsDecide(patterns: seq<string>, text: string)
    ensures MatchesSome(patterns, text) <==>
            || SomePasses(Exact, CoresOf(patterns, Exact), text) || SomePasses(Suffix, CoresOf(patterns, Suffix), text)
            || SomePasses(Prefix, CoresOf(patterns, Prefix), text) || SomePasses(Infix, CoresOf(patterns, Infix), text)
  {
    hide Passes, Matches, Items, Core, KindOf, SomePasses;
    if patterns == [] {
      NonePasses(text);
    } else {
      var k := |patterns| - 1;
      var init, e := patterns[..k], Lower(patterns[k]);
      ListsDecide(init, text);
      KindDecides(e, text);
      MatchesSomeSnoc(init, patterns[k], text);
      assert patterns == init + [patterns[k]];
      SomePassesSnoc(KindOf(e), CoresOf(init, KindOf(e)), Core(e), text);
      SomePassesSnoc(Exact, CoresOf(init, Exact), Core(e), text);
      SomePassesSnoc(Suffix, CoresOf(init, Suffix), Core(e), text);
      SomePassesSnoc(Prefix, CoresOf(init, Prefix), Core(e), text);
      SomePassesSnoc(Infix, CoresOf(init, Infix), Core(e), text);
    }
  }

  lemma NonePasses(text: string)
    ensures !SomePasses(Exact, [], text) && !SomePasses(Suffix, [], text)
    ensures !SomePasses(Prefix, [], text) && !SomePasses(Infix, [], text)
  {
  }

  lemma MatchesSomeSnoc(patterns: seq<string>, p: string, text: string)
    ensures MatchesSome(patterns + [p], text) <==> MatchesSome(patterns, text) || Matches(Items(Lower(p)), text)
  {
    hide Matches, Items, Lower;
    var all := patterns + [p];
    assert all[|patterns|] == p;
    assert forall i :: 0 <= i < |patterns| ==> all[i] == patterns[i];
  }

  /** The handler's four lists, filled by its constructor. */
  class DefaultDeviceHandler {
    var exact: seq<string>
    var startWildcard: seq<string>
    var endWildcard: seq<string>
    var fullWildcard: seq<string>

    ghost predicate Sorted(patterns: seq<string>)
      reads this
    {
      && exact == CoresOf(patterns, Exact) && startWildcard == CoresOf(patterns, Suffix)
      && endWildcard == CoresOf(patterns, Prefix) && fullWildcard == CoresOf(patterns, Infix)
    }

    constructor (exemptErrors: seq<string>)
      ensures Sorted(exemptErrors)
    {
      exact, startWildcard, endWildcard, fullWildcard := [], [], [], [];
      new;
      hide CoresOf, Lower, KindOf, Core;
      NoCores();
      for i := 0 to |exemptErrors|
        invariant Sorted(exemptErrors[..i])
      {
        NextCores(exemptErrors, i);
        Classify(Lower(exemptErrors[i]));
      }
      assert exemptErrors[..|exemptErrors|] == exemptErrors;
    }

    /** One turn of the constructor's loop. */
    method Classify(e: string)
      modifies this
      ensures exact == old(exact) + if KindOf(e) == Exact then [Core(e)] else []
      ensures startWildcard == old(startWildcard) + if KindOf(e) == Suffix then [Core(e)] else []
      ensures endWildcard == old(endWildcard) + if KindOf(e) == Prefix then [Core(e)] else []
      ensures fullWildcard == old(fullWildcard) + if KindOf(e) == Infix then [Core(e)] else []
    {
      if "*" <= e {
        if EndsWith(e, "*") {
          fullWildcard := fullWildcard + [if |e| < 2 then "" else e[1..|e| - 1]];
        } else {
          startWildcard := startWildcard + [e[1..]];
        }
      } else if EndsWith(e, "*") {
        endWildcard := endWildcard + [e[..|e| - 1]];
      } else {
        exact := exact + [e];
      }
    }

    /** Does an error message match some exempt pattern?  Upper and lower case are the same, and blank text
        around the message does not count. */
    method IsRpcErrorExempt(errorText: Option<string>, ghost patterns: seq<string>) returns (exempt: bool)
      requires Sorted(patterns)
      ensures exempt <==> MatchesSome(patterns, Subject(errorText))
    {
      hide Passes, SomePasses, MatchesSome, CoresOf;
      var text := Subject(errorText);
      ListsDecide(patterns, text);
      exempt := AnyPasses(Exact, exact, text);
      if !exempt {
        exempt := AnyPasses(Suffix, startWildcard, text);
      }
      if !exempt {
        exempt := AnyPasses(Prefix, endWildcard, text);
      }
      if !exempt {
        exempt := AnyPasses(Infix, fullWildcard, text);
      }
    }
  }

  /** One of the four loops. */
  method AnyPasses(kind: Kind, cores: seq<string>, text: string) returns (found: bool)
    ensures found <==> SomePasses(kind, cores, text)
  {
    for i := 0 to |cores|
      invariant forall j :: 0 <= j < i ==> !Passes(kind, cores[j], text)
    {
      match kind {
        case Exact => found := text == cores[i];
        case Suffix => found := EndsWith(text, cores[i]);
        case Prefix => found := cores[i] <= text;
        case Infix => found := IsInfix(cores[i], text);
      }
      assert found <==> Passes(kind, cores[i], text);
      if found {
        return;
      }
    }
    return false;
  }

  /** `c in text`. */
  method IsInfix(c: string, text: string) returns (found: bool)
    ensures found <==> Contains(text, c)
  {
    for i := 0 to |text| + 1
      invariant forall j :: 0 <= j < i ==> !(c <= text[j..])
    {
      if c <= text[i..] {
        return true;
      }
    }
    return false;
  }
}
