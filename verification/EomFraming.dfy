/**
 End-of-message framing (section 4.3 of RFC 6242, first in RFC 4742): messages separated by `]]>]]>`.

 The reference is the plain leftmost split of a text on the delimiter.  The incremental parser, with
 its resume position and its dropped blank remainders, is proved against it in module `Receiving`.
 */
module EomFraming {
  import opened Strings

  const MSG_DELIM := "]]>]]>"

  /** The delimiter stands at position `i` of `s`. */
  predicate DelimAt(s: string, i: nat) {
    i + 6 <= |s| && s[i..i + 6] == MSG_DELIM
  }

  predicate HasDelim(s: string) {
    exists i :: 0 <= i < |s| && DelimAt(s, i)
  }

  /** The leftmost delimiter, as `partition` finds it. */
  function Find(s: string): (r: Option<nat>)
    ensures r.Some? ==> DelimAt(s, r.value) && forall j :: 0 <= j < r.value ==> !DelimAt(s, j)
    ensures r.None? ==> forall j :: 0 <= j < |s| ==> !DelimAt(s, j)
  {
    FindFrom(s, 0)
  }

  /** The leftmost delimiter at or after `i`. */
  function FindFrom(s: string, i: nat): (r: Option<nat>)
    ensures r.Some? ==> i <= r.value && DelimAt(s, r.value) && forall j :: i <= j < r.value ==> !DelimAt(s, j)
    ensures r.None? ==> forall j :: i <= j < |s| ==> !DelimAt(s, j)
    decreases |s| - i
  {
    if i >= |s| then None
    else if DelimAt(s, i) then Some(i)
    else FindFrom(s, i + 1)
  }

  /** The parts before each delimiter, unstripped, and the text after the last one. */
  datatype Parts = Parts(parts: seq<string>, rest: string)

  function Split(s: string): Parts
    decreases |s|
  {
    match Find(s)
    case None => Parts([], s)
    case Some(i) =>
      var p := Split(s[i + 6..]);
      p.(parts := [s[..i]] + p.parts)
  }

  function StripAll(parts: seq<string>): seq<string> {
    seq(|parts|, i requires 0 <= i < |parts| => Strip(parts[i]))
  }

  lemma StripAllCons(x: string, xs: seq<string>)
    ensures StripAll([x] + xs) == [Strip(x)] + StripAll(xs)
  {
  }

  lemma DelimStart(s: string, i: nat)
    requires i < |s| && s[i] != MSG_DELIM[0]
    ensures !DelimAt(s, i)
  {
    assert i + 6 <= |s| ==> s[i..i + 6][0] == s[i];
  }

  lemma FindUnique(s: string, i: nat)
    requires DelimAt(s, i) && forall j :: 0 <= j < i ==> !DelimAt(s, j)
    ensures Find(s) == Some(i)
  {
  }

  lemma DelimAtPrefix(a: string, b: string, i: nat)
    requires i + 6 <= |a|
    ensures DelimAt(a + b, i) == DelimAt(a, i)
  {
    assert (a + b)[i..i + 6] == a[i..i + 6];
  }

  lemma DelimAtSuffix(a: string, b: string, i: nat)
    ensures DelimAt(a + b, |a| + i) == DelimAt(b, i)
  {
    if i + 6 <= |b| {
      assert (a + b)[|a| + i..|a| + i + 6] == b[i..i + 6];
    }
  }

  /** A delimiter found stays the leftmost one when more input arrives. */
  lemma FindPrefix(a: string, b: string)
    requires Find(a).Some?
    ensures Find(a + b) == Find(a)
  {
    var i := Find(a).value;
    forall j | 0 <= j <= i
      ensures DelimAt(a + b, j) == DelimAt(a, j)
    {
      DelimAtPrefix(a, b, j);
    }
    FindUnique(a + b, i);
  }

  /** One part off the front. */
  lemma SplitFound(s: string, head: string, tail: string)
    requires s == head + MSG_DELIM + tail
    requires Find(s) == Some(|head|)
    ensures Split(s) == Parts([head] + Split(tail).parts, Split(tail).rest)
  {
    assert s[..|head|] == head;
    assert s[|head| + 6..] == tail;
  }

  lemma FoundSplits(s: string) returns (head: string, tail: string)
    requires Find(s).Some?
    ensures Find(s) == Some(|head|) && s == head + MSG_DELIM + tail
    ensures |tail| < |s|
  {
    var i := Find(s).value;
    head, tail := s[..i], s[i + 6..];
    assert s == head + s[i..i + 6] + tail;
  }

  /** Splitting more input continues from the text after the last delimiter. */
  lemma {:induction false} SplitConcat(a: string, b: string)
    ensures var p := Split(a);
            var q := Split(p.rest + b);
            Split(a + b) == Parts(p.parts + q.parts, q.rest)
    decreases |a|
  {
    if Find(a).Some? {
      var head, tail := FoundSplits(a);
      FindPrefix(a, b);
      Assoc(head + MSG_DELIM, tail, b);
      SplitFound(a, head, tail);
      SplitFound(a + b, head, tail + b);
      SplitConcat(tail, b);
      PartsAssoc([head], Split(tail).parts, Split(Split(tail).rest + b).parts);
    } else {
      PartsAssoc([], [], Split(a + b).parts);
    }
  }

  lemma PartsAssoc(a: seq<string>, b: seq<string>, c: seq<string>)
    ensures (a + b) + c == a + (b + c)
    ensures [] + c == c
  {
  }

  /** A blank text in front of `s` holds no part of a delimiter: it shifts the first delimiter and
      lengthens the first part, or the rest. */
  lemma FindBlankPrefix(w: string, s: string)
    requires Blank(w)
    ensures Find(w + s) == if Find(s).Some? then Some(|w| + Find(s).value) else None
  {
    forall j | 0 <= j < |w|
      ensures !DelimAt(w + s, j)
    {
      assert (w + s)[j] == w[j];
      DelimStart(w + s, j);
    }
    forall j | 0 <= j < |s|
      ensures DelimAt(w + s, |w| + j) == DelimAt(s, j)
    {
      DelimAtSuffix(w, s, j);
    }
    match Find(s)
    case Some(i) =>
      forall j | 0 <= j < |w| + i
        ensures !DelimAt(w + s, j)
      {
        if j >= |w| {
          assert !DelimAt(s, j - |w|);
        }
      }
      FindUnique(w + s, |w| + i);
    case None =>
      assert forall j :: |w| <= j < |w + s| ==> DelimAt(w + s, j) == DelimAt(s, j - |w|);
  }

  /** Dropping a blank text before parsing changes no stripped part, and changes the rest only by
      that blank text. */
  lemma SplitBlankPrefix(w: string, s: string)
    requires Blank(w)
    ensures StripAll(Split(w + s).parts) == StripAll(Split(s).parts)
    ensures Split(w + s).rest == if Split(s).parts == [] then w + s else Split(s).rest
  {
    FindBlankPrefix(w, s);
    if Find(s).Some? {
      var head, tail := FoundSplits(s);
      Assoc(w, head + MSG_DELIM, tail);
      Assoc(w, head, MSG_DELIM);
      SplitFound(s, head, tail);
      SplitFound(w + s, w + head, tail);
      StripBlankPrefix(w, head);
      StripAllCons(head, Split(tail).parts);
      StripAllCons(w + head, Split(tail).parts);
    }
  }

  // The sender

  /** A frame as `Session.run` sends it. */
  function Frame(m: string): string {
    m + MSG_DELIM
  }

  /** The messages that survive this framing. */
  predicate Safe(m: string) {
    !HasDelim(m) && !(3 <= |m| && m[|m| - 3..] == "]]>")
  }

  /** The only ways for a delimiter to start inside the message are to lie in it, or to use its last
      three characters. */
  lemma DelimInFrame(m: string, i: nat)
    requires i < |m|
    ensures DelimAt(Frame(m), i) <==> DelimAt(m, i) || (i == |m| - 3 && m[i..] == "]]>")
  {
    var f := Frame(m);
    if i + 6 <= |m| {
      DelimAtPrefix(m, MSG_DELIM, i);
    } else {
      assert f[i..i + 6] == m[i..] + MSG_DELIM[..i + 6 - |m|];
      if f[i..i + 6] == MSG_DELIM {
        assert m[i..] == MSG_DELIM[..|m| - i];
        assert MSG_DELIM[|m| - i..] == MSG_DELIM[..i + 6 - |m|];
        DelimBorders(|m| - i);
      }
    }
  }

  /** The delimiter overlaps itself by three characters and by no other number. */
  lemma DelimBorders(k: nat)
    requires 0 < k < 6 && MSG_DELIM[k..] == MSG_DELIM[..6 - k]
    ensures k == 3
  {
    assert MSG_DELIM[k..][0] == MSG_DELIM[0];
    assert MSG_DELIM[k..][|MSG_DELIM[k..]| - 1] == MSG_DELIM[5] == MSG_DELIM[5 - k];
  }

  lemma FindInFrame(m: string)
    ensures Find(Frame(m)) == Some(|m|) <==> Safe(m)
    ensures Find(Frame(m)).Some?
    ensures Find(Frame(m)).value < |m| ==> Find(Frame(m)).value + 6 <= |m| || Find(Frame(m)).value == |m| - 3
    ensures Find(Frame(m)).value <= |m|
  {
    var f := Frame(m);
    assert f[|m|..|m| + 6] == MSG_DELIM;
    assert DelimAt(f, |m|);
    forall i | 0 <= i < |m|
      ensures DelimAt(f, i) <==> DelimAt(m, i) || (i == |m| - 3 && m[i..] == "]]>")
    {
      DelimInFrame(m, i);
    }
    if Safe(m) {
      FindUnique(f, |m|);
    } else if HasDelim(m) {
      var i :| 0 <= i < |m| && DelimAt(m, i);
      assert DelimAt(f, i);
    } else {
      assert DelimAt(f, |m| - 3);
    }
  }

  /** One message alone comes back whole, with nothing but blank text left over, exactly when it
      neither holds the delimiter nor ends in the half of it that the delimiter could complete. */
  lemma FrameRoundTrip(m: string)
    ensures |Split(Frame(m)).parts| == 1 && Blank(Split(Frame(m)).rest) <==> Safe(m)
    ensures Safe(m) ==> Split(Frame(m)) == Parts([m], "")
  {
    FindInFrame(m);
    var f := Frame(m);
    var head, tail := FoundSplits(f);
    SplitFound(f, head, tail);
    if Safe(m) {
      assert f[..|m|] == m == head;
      assert tail == "";
    } else if |head| + 6 <= |m| {
      assert tail == f[|head| + 6..] == m[|head| + 6..] + MSG_DELIM;
      DelimAtSuffix(m[|head| + 6..], MSG_DELIM, 0);
      assert Find(tail).Some?;
    } else {
      assert tail == f[|m| + 3..] == "]]>";
      assert !IsSpace(tail[0]);
      assert Split(tail) == Parts([], "]]>");
    }
  }

  /** A message ending in half a delimiter loses that half, and leaves another behind. */
  lemma UnsafeExample()
    ensures Split(Frame("a]]>")) == Parts(["a"], "]]>")
  {
    var f := Frame("a]]>");
    assert f == "a" + MSG_DELIM + "]]>";
    assert f[1..7] == MSG_DELIM;
    DelimStart(f, 0);
    FindUnique(f, 1);
    SplitFound(f, "a", "]]>");
    assert Find("]]>").None?;
  }

  function Frames(ms: seq<string>): string {
    JoinMap(Frame, ms)
  }

  /** Any number of safe messages come back in order. */
  lemma {:induction false} FramesRoundTrip(ms: seq<string>)
    requires forall m :: m in ms ==> Safe(m)
    ensures Split(Frames(ms)) == Parts(ms, "")
  {
    if ms != [] {
      var m, tail := ms[0], Frames(ms[1..]);
      FindInFrame(m);
      FindPrefix(Frame(m), tail);
      SplitFound(Frame(m) + tail, m, tail);
      FramesRoundTrip(ms[1..]);
      assert [m] + ms[1..] == ms;
    }
  }

  /** A receiver of an interrupted transmission sees the first messages, in order, and no others. */
  lemma TruncatedFrames(ms: seq<string>, received: string)
    requires forall m :: m in ms ==> Safe(m)
    requires received <= Frames(ms)
    ensures Split(received).parts <= ms
  {
    FramesRoundTrip(ms);
    hide Split, Frames, Safe;
    var rest := Frames(ms)[|received|..];
    assert Frames(ms) == received + rest;
    SplitConcat(received, rest);
  }
}
