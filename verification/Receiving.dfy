/**
 The receiving half of a session: `DefaultXMLParser` as functions on the session state, and its proof
 against the reference parsers of `ChunkedFraming` and `EomFraming`.
 */
module Receiving {
  import opened Strings
  import opened Correlation
  import Chunked = ChunkedFraming
  import Eom = EomFraming

  datatype Base = Base10 | Base11

  /** `buffer`, `fragments` (`_message_list`) and `pos` (`_parsing_pos10`) are the parser's state. */
  datatype Inbound = Inbound(core: Core, base: Base, buffer: string, fragments: seq<string>, pos: nat)

  type Result = (Inbound, Option<Error>)

  // End-of-message framing

  /** `_parse10`.  A dispatch that raises leaves the buffer and the resume position as they were. */
  function Parse10(dev: Device, s: Inbound): (r: Result)
    requires InRange(s.core)
    ensures InRange(r.0.core)
    decreases |s.buffer|
  {
    if Eom.FindFrom(s.buffer, s.pos).None? then
      (s.(pos := if |s.buffer| < 6 then 0 else |s.buffer| - 6), None)
    else
      var i := Eom.Find(s.buffer).value;
      var (c, e) := Dispatch(dev, s.core, Strip(s.buffer[..i]));
      DispatchInRange(dev, s.core, Strip(s.buffer[..i]));
      if e.Some? then (s.(core := c), e)
      else
        var remaining := s.buffer[i + 6..];
        var s' := s.(core := c, buffer := "", pos := 0);
        if Strip(remaining) == "" then (s', None) else Parse10(dev, s'.(buffer := remaining))
  }

  /** No delimiter starts before the resume position. */
  predicate Resumable(s: Inbound) {
    (s.pos == 0 || s.pos + 6 <= |s.buffer|) && forall i :: 0 <= i < s.pos ==> !Eom.DelimAt(s.buffer, i)
  }

  /** Where the search for a delimiter goes on: the last five characters may be the beginning of one. */
  function ResumeAt(buffer: string): nat {
    if |buffer| < 6 then 0 else |buffer| - 6
  }

  /** What is kept of the rest of a split: all of it, except blank text behind a delimiter. */
  function Kept(p: Eom.Parts): string {
    if p.parts != [] && Blank(p.rest) then "" else p.rest
  }

  /** One round of the parser of end-of-message framing. */
  lemma Parse10Round(dev: Device, s: Inbound)
    requires InRange(s.core)
    ensures if Eom.FindFrom(s.buffer, s.pos).None? then
              Parse10(dev, s) == (s.(pos := if |s.buffer| < 6 then 0 else |s.buffer| - 6), None)
            else
              Eom.Find(s.buffer).Some? && Eom.Find(s.buffer).value + 6 <= |s.buffer| &&
              var i := Eom.Find(s.buffer).value;
              var (c, e) := Dispatch(dev, s.core, Strip(s.buffer[..i]));
              var remaining := s.buffer[i + 6..];
              var s' := s.(core := c, buffer := "", pos := 0);
              InRange(c) &&
              Parse10(dev, s) == if e.Some? then (s.(core := c), e)
                                 else if Strip(remaining) == "" then (s', None)
                                 else Parse10(dev, s'.(buffer := remaining))
  {
    hide Dispatch, Strip, Eom.Find, Eom.FindFrom, InRange;
    if Eom.FindFrom(s.buffer, s.pos).Some? {
      DispatchInRange(dev, s.core, Strip(s.buffer[..Eom.Find(s.buffer).value]));
    }
  }

  lemma FindFromResume(s: Inbound)
    requires Resumable(s)
    ensures Eom.FindFrom(s.buffer, s.pos).None? <==> Eom.Find(s.buffer).None?
  {
  }

  lemma NothingParsed(s: Inbound)
    requires Resumable(s) && Eom.FindFrom(s.buffer, s.pos).None?
    ensures Resumable(s.(pos := ResumeAt(s.buffer)))
    ensures Eom.Split(s.buffer) == Eom.Parts([], s.buffer) && Eom.Find(s.buffer).None?
  {
    FindFromResume(s);
  }

  /** From any resumable state, the messages dispatched are the stripped parts of the plain split of
      the buffer; what is kept afterwards is the rest of that split, without blank text behind a delimiter, and the
      search is to go on close to its end. */
  lemma {:induction false} Parse10Splits(dev: Device, s: Inbound)
    requires InRange(s.core) && Resumable(s)
    ensures var p := Eom.Split(s.buffer);
            var (s', e) := Parse10(dev, s);
            && (s'.core, e) == DispatchAll(dev, s.core, Eom.StripAll(p.parts))
            && s'.base == s.base && s'.fragments == s.fragments
            && (e.None? ==> s'.buffer == Kept(p) && s'.pos == ResumeAt(s'.buffer)
                            && Resumable(s') && Eom.Find(s'.buffer).None?)
    decreases |s.buffer|
  {
    hide Parse10, Dispatch, Strip, Blank, InRange, Eom.Split, Eom.Find, Eom.FindFrom, Resumable;
    Parse10Round(dev, s);
    FindFromResume(s);
    if Eom.FindFrom(s.buffer, s.pos).None? {
      NothingParsed(s);
      assert Eom.StripAll([]) == [];
    } else {
      var head, tail := Eom.FoundSplits(s.buffer);
      Eom.SplitFound(s.buffer, head, tail);
      assert s.buffer[..|head|] == head && s.buffer[|head| + 6..] == tail;
      Eom.StripAllCons(head, Eom.Split(tail).parts);
      DispatchFirst(dev, s.core, Strip(head), Eom.StripAll(Eom.Split(tail).parts));
      var (c, e) := Dispatch(dev, s.core, Strip(head));
      if e.None? {
        var s' := s.(core := c, buffer := tail, pos := 0);
        StripEmptyIffBlank(tail);
        if Strip(tail) == "" {
          BlankHasNoDelim(tail);
          EmptyParsed(s.(core := c), tail);
        } else {
          FreshResumable(s');
          NoParts(tail);
          Parse10Splits(dev, s');
        }
      }
    }
  }

  lemma FreshResumable(s: Inbound)
    ensures s.pos == 0 ==> Resumable(s)
  {
  }

  lemma NoParts(s: string)
    ensures Eom.Split(s).parts == [] ==> Eom.Split(s).rest == s
  {
  }

  lemma EmptyParsed(s: Inbound, tail: string)
    requires Eom.Find(tail).None?
    ensures Resumable(s.(buffer := "", pos := 0)) && Eom.Find("").None?
    ensures Eom.Split(tail) == Eom.Parts([], tail) && Eom.StripAll([]) == []
  {
  }

  lemma BlankHasNoDelim(w: string)
    requires Blank(w)
    ensures Eom.Find(w).None?
  {
    assert w + "" == w;
    Eom.FindBlankPrefix(w, "");
  }

  // Chunked framing

  /** The loop of `_parse11`: take chunks until an end mark (the flag is then set) or until nothing
      more can be taken. */
  function Gather(frags: seq<string>, data: string): (seq<string>, string, bool)
    decreases |data|
  {
    match Chunked.NextToken(data)
    case None => (frags, data, false)
    case Some(t) =>
      Chunked.NextTokenSound(data);
      var data' := data[|Chunked.Print(t)|..];
      if t.End? then (frags, data', true) else Gather(frags + [t.payload], data')
  }

  lemma {:induction false} GatherScans(frags: seq<string>, data: string)
    ensures var (frags', rest, ended) := Gather(frags, data);
            && |rest| <= |data|
            && (ended ==> |rest| < |data|)
            && Chunked.Scan(frags, data) ==
               if ended then var o := Chunked.Scan([], rest); o.(messages := [Join(frags')] + o.messages)
               else Chunked.Outcome([], frags', rest)
    decreases |data|
  {
    var t := Chunked.NextToken(data);
    if t.Some? && t.value.Chunk? {
      Chunked.NextTokenSound(data);
      GatherScans(frags + [t.value.payload], data[|Chunked.Print(t.value)|..]);
    }
  }

  /** `_parse11`.  A dispatch that raises leaves the buffer as it was when this round began. */
  function Parse11(dev: Device, s: Inbound): (r: Result)
    requires InRange(s.core)
    ensures InRange(r.0.core)
    decreases |s.buffer|
  {
    var (frags, rest, ended) := Gather(s.fragments, s.buffer);
    GatherScans(s.fragments, s.buffer);
    if !ended then (s.(fragments := frags, buffer := rest), None)
    else
      var (c, e) := Dispatch(dev, s.core, Join(frags));
      DispatchInRange(dev, s.core, Join(frags));
      var s' := s.(core := c, fragments := []);
      if e.Some? then (s', e) else Parse11(dev, s'.(buffer := rest))
  }

  /** The messages dispatched, the fragments kept and the buffer kept are those of the reference
      parser. */
  lemma {:induction false} Parse11Scans(dev: Device, s: Inbound)
    requires InRange(s.core)
    ensures var o := Chunked.Scan(s.fragments, s.buffer);
            var (s', e) := Parse11(dev, s);
            && (s'.core, e) == DispatchAll(dev, s.core, o.messages)
            && s'.base == s.base && s'.pos == s.pos
            && (e.None? ==> s'.fragments == o.fragments && s'.buffer == o.rest)
    decreases |s.buffer|
  {
    var (frags, rest, ended) := Gather(s.fragments, s.buffer);
    GatherScans(s.fragments, s.buffer);
    if ended {
      var m := Join(frags);
      var (c, e) := Dispatch(dev, s.core, m);
      DispatchInRange(dev, s.core, m);
      var o := Chunked.Scan([], rest);
      assert ([m] + o.messages)[1..] == o.messages;
      if e.None? {
        Parse11Scans(dev, s.(core := c, fragments := [], buffer := rest));
      }
    }
  }

  // What a failing dispatch leaves in the buffer

  /** One turn of the loop that takes chunks. */
  lemma GatherTurn(frags: seq<string>, data: string) returns (t: Chunked.Token, data': string)
    requires Gather(frags, data).2
    ensures Chunked.Legal(t) && |data'| < |data| && data == Chunked.Print(t) + data'
    ensures Gather(frags, data) ==
            if t.End? then (frags, data', true) else Gather(frags + [t.payload], data')
  {
    hide Chunked.NextToken, Chunked.Legal;
    t := Chunked.NextToken(data).value;
    Chunked.NextTokenSound(data);
    data' := data[|Chunked.Print(t)|..];
  }

  lemma {:induction false} GatherConsumes(frags: seq<string>, data: string) returns (a: string)
    requires Gather(frags, data).2
    ensures data == a + Gather(frags, data).1
    ensures Chunked.Scan(frags, a) == Chunked.Outcome([Join(Gather(frags, data).0)], [], "")
    decreases |data|
  {
    hide Gather, Chunked.Scan, Chunked.NextToken, Chunked.Print, Chunked.Legal;
    var t, data' := GatherTurn(frags, data);
    NothingScanned();
    if t.End? {
      a := Chunked.Print(t) + "";
      Chunked.ScanToken(frags, t, "");
      assert a == Chunked.Print(t) && [Join(frags)] + [] == [Join(frags)];
    } else {
      var b := GatherConsumes(frags + [t.payload], data');
      a := Chunked.Print(t) + b;
      Chunked.ScanToken(frags, t, b);
      Assoc(Chunked.Print(t), b, Gather(frags, data).1);
    }
  }

  lemma NothingScanned()
    ensures Chunked.Scan([], "") == Chunked.Outcome([], [], "")
  {
  }

  /** When a dispatch raises under chunked framing, the messages in front are gone from the buffer; the message that
      raised is still there, with all that follows, but for the fragments of it that came with earlier reads. */
  lemma {:induction false} Parse11Failed(dev: Device, s: Inbound) returns (a: string)
    requires InRange(s.core) && Parse11(dev, s).1.Some?
    ensures var (s', e) := Parse11(dev, s);
            var done := Chunked.Scan(s.fragments, a);
            var (c, none) := DispatchAll(dev, s.core, done.messages);
            var next := Chunked.Scan(done.fragments, s'.buffer).messages;
            && s.buffer == a + s'.buffer && s'.fragments == []
            && done == Chunked.Outcome(done.messages, if a == "" then s.fragments else [], "")
            && none.None? && InRange(c) && next != [] && Dispatch(dev, c, next[0]) == (s'.core, e)
    decreases |s.buffer|
  {
    hide Parse11, Dispatch, Chunked.Scan, Join, InRange;
    Parse11Rounds(dev, s);
    GatherScans(s.fragments, s.buffer);
    var (frags, rest, ended) := Gather(s.fragments, s.buffer);
    var (c, e) := Dispatch(dev, s.core, Join(frags));
    NoDispatch(dev, s.core);
    if e.Some? {
      a := "";
      NothingScannedWith(s.fragments);
      assert s.buffer == a + s.buffer;
    } else {
      var s1 := s.(core := c, fragments := [], buffer := rest);
      var a0 := GatherConsumes(s.fragments, s.buffer);
      var b := Parse11Failed(dev, s1);
      a := a0 + b;
      Assoc(a0, b, Parse11(dev, s).0.buffer);
      Chunked.ScanConcat(s.fragments, a0, b);
      assert "" + b == b;
      DispatchFirst(dev, s.core, Join(frags), Chunked.Scan([], b).messages);
      assert a != "" by {
        assert |rest| < |s.buffer|;
      }
    }
  }

  lemma NothingScannedWith(frags: seq<string>)
    ensures Chunked.Scan(frags, "") == Chunked.Outcome([], frags, "")
  {
  }

  lemma NoDispatch(dev: Device, c: Core)
    requires InRange(c)
    ensures DispatchAll(dev, c, []) == (c, None)
  {
  }

  /** One round of the parser of chunked framing, if there is a message. */
  lemma Parse11Rounds(dev: Device, s: Inbound)
    requires InRange(s.core)
    ensures var (frags, rest, ended) := Gather(s.fragments, s.buffer);
            if ended then
              var (c, e) := Dispatch(dev, s.core, Join(frags));
              var s' := s.(core := c, fragments := []);
              && InRange(c) && |rest| < |s.buffer|
              && Parse11(dev, s) == if e.Some? then (s', e) else Parse11(dev, s'.(buffer := rest))
            else Parse11(dev, s) == (s.(fragments := frags, buffer := rest), None)
  {
    hide Gather, Dispatch, Join, InRange, Chunked.Scan;
    var (frags, rest, ended) := Gather(s.fragments, s.buffer);
    GatherScans(s.fragments, s.buffer);
    if ended {
      DispatchInRange(dev, s.core, Join(frags));
    }
  }

  /** The same under end-of-message framing, where the message that raised is still there whole. */
  lemma {:induction false} Parse10Failed(dev: Device, s: Inbound) returns (a: string)
    requires InRange(s.core) && Resumable(s) && Parse10(dev, s).1.Some?
    ensures var (s', e) := Parse10(dev, s);
            var done := Eom.Split(a);
            var (c, none) := DispatchAll(dev, s.core, Eom.StripAll(done.parts));
            var next := Eom.Split(s'.buffer).parts;
            && s.buffer == a + s'.buffer && done.rest == "" && s'.pos == (if a == "" then s.pos else 0)
            && none.None? && InRange(c) && next != [] && Dispatch(dev, c, Strip(next[0])) == (s'.core, e)
    decreases |s.buffer|
  {
    hide Parse10, Dispatch, Strip, InRange, Resumable, Eom.Split, Eom.Find, Eom.FindFrom;
    Parse10Round(dev, s);
    FindFromResume(s);
    var head, tail := Eom.FoundSplits(s.buffer);
    Eom.SplitFound(s.buffer, head, tail);
    assert s.buffer[..|head|] == head && s.buffer[|head| + 6..] == tail;
    var (c, e) := Dispatch(dev, s.core, Strip(head));
    NoDispatch(dev, s.core);
    NothingSplit();
    if e.Some? {
      a := "";
      assert s.buffer == a + s.buffer;
    } else {
      var s1 := s.(core := c, buffer := tail, pos := 0);
      FreshResumable(s1);
      var b := Parse10Failed(dev, s1);
      a := head + Eom.MSG_DELIM + b;
      Assoc(head + Eom.MSG_DELIM, b, Parse10(dev, s).0.buffer);
      FoundInFront(s.buffer, head, b);
      Eom.SplitFound(a, head, b);
      Eom.StripAllCons(head, Eom.Split(b).parts);
      DispatchFirst(dev, s.core, Strip(head), Eom.StripAll(Eom.Split(b).parts));
    }
  }

  lemma NothingSplit()
    ensures Eom.Split("") == Eom.Parts([], "") && Eom.StripAll([]) == []
  {
  }

  lemma FoundInFront(s: string, head: string, b: string)
    requires Eom.Find(s) == Some(|head|) && head + Eom.MSG_DELIM + b <= s
    ensures Eom.Find(head + Eom.MSG_DELIM + b) == Some(|head|)
  {
    var a := head + Eom.MSG_DELIM + b;
    var rest := s[|a|..];
    assert s == a + rest;
    forall j | 0 <= j <= |head|
      ensures Eom.DelimAt(a, j) == Eom.DelimAt(s, j)
    {
      Eom.DelimAtPrefix(a, rest, j);
    }
    Eom.FindUnique(a, |head|);
  }

  // Reads

  /** `parse`: one read.  An empty read changes nothing. */
  function Parse(dev: Device, s: Inbound, data: string): (r: Result)
    requires InRange(s.core)
    ensures InRange(r.0.core)
  {
    if data == "" then (s, None)
    else
      var s' := s.(buffer := s.buffer + data);
      if s.base == Base11 then Parse11(dev, s') else Parse10(dev, s')
  }

  /** A stream cut into reads, up to the first exception. */
  function ParseAll(dev: Device, s: Inbound, pieces: seq<string>): (r: Result)
    requires InRange(s.core)
    ensures InRange(r.0.core)
    decreases |pieces|
  {
    if pieces == [] then (s, None)
    else
      var (s', e) := Parse(dev, s, pieces[0]);
      if e.Some? then (s', e) else ParseAll(dev, s', pieces[1..])
  }

  /** Between reads the parser has used all it can. */
  predicate Quiescent(s: Inbound) {
    match s.base
    case Base11 => Chunked.NextToken(s.buffer).None?
    case Base10 => Resumable(s) && Eom.Find(s.buffer).None?
  }

  lemma AppendKeepsResumable(s: Inbound, data: string)
    requires Resumable(s)
    ensures Resumable(s.(buffer := s.buffer + data))
  {
    forall i | 0 <= i < s.pos
      ensures !Eom.DelimAt(s.buffer + data, i)
    {
      Eom.DelimAtPrefix(s.buffer, data, i);
    }
  }

  lemma ScanQuiet(frags: seq<string>, data: string)
    ensures Chunked.NextToken(Chunked.Scan(frags, data).rest).None?
  {
    var ts := Chunked.PrintOfScan(frags, data);
    Chunked.NextTokenExact(Chunked.Scan(frags, data).rest);
  }

  /** One read under chunked framing is one step of the reference parser, also when the buffer holds tokens that
      were left there, as text may be at the switch of framing. */
  lemma ParseScans(dev: Device, s: Inbound, data: string)
    requires InRange(s.core) && s.base == Base11 && (data != "" || Quiescent(s))
    ensures var o := Chunked.Scan(s.fragments, s.buffer + data);
            var (s', e) := Parse(dev, s, data);
            && (s'.core, e) == DispatchAll(dev, s.core, o.messages)
            && s'.base == Base11
            && (e.None? ==> s'.fragments == o.fragments && s'.buffer == o.rest && Quiescent(s'))
  {
    if data == "" {
      assert s.buffer + data == s.buffer;
    } else {
      Parse11Scans(dev, s.(buffer := s.buffer + data));
    }
    ScanQuiet(s.fragments, s.buffer + data);
  }

  /** What reading `text` in whatever pieces must come to: nothing happens without input; otherwise the messages,
      the exception, and unless there is one the fragments and the rest, are those of the reference parser. */
  predicate ScansTo(dev: Device, s: Inbound, text: string, s': Inbound, e: Option<Error>)
    requires InRange(s.core)
  {
    if text == "" then s' == s && e == None
    else
      var o := Chunked.Scan(s.fragments, s.buffer + text);
      && (s'.core, e) == DispatchAll(dev, s.core, o.messages)
      && s'.base == Base11
      && (e.None? ==> s'.fragments == o.fragments && s'.buffer == o.rest && Quiescent(s'))
  }

  /** Two stretches of input, one after the other. */
  lemma ScansToConcat(dev: Device, s: Inbound, a: string, s1: Inbound, b: string, s2: Inbound, e: Option<Error>)
    requires InRange(s.core) && ScansTo(dev, s, a, s1, None) && a != ""
    requires InRange(s1.core) && ScansTo(dev, s1, b, s2, e)
    ensures ScansTo(dev, s, a + b, s2, e)
  {
    hide Chunked.Scan, DispatchAll, InRange;
    Assoc(s.buffer, a, b);
    if b == "" {
      assert a + b == a;
    } else {
      Chunked.ScanConcat(s.fragments, s.buffer + a, b);
      var o := Chunked.Scan(s.fragments, s.buffer + a);
      DispatchAllConcat(dev, s.core, o.messages, Chunked.Scan(o.fragments, o.rest + b).messages);
    }
  }

  /** A failure in the first stretch. */
  lemma ScansToFailed(dev: Device, s: Inbound, a: string, s1: Inbound, b: string, e: Option<Error>)
    requires InRange(s.core) && ScansTo(dev, s, a, s1, e) && e.Some?
    ensures ScansTo(dev, s, a + b, s1, e)
  {
    hide Chunked.Scan, DispatchAll, InRange;
    Assoc(s.buffer, a, b);
    Chunked.ScanConcat(s.fragments, s.buffer + a, b);
    var o := Chunked.Scan(s.fragments, s.buffer + a);
    DispatchAllConcat(dev, s.core, o.messages, Chunked.Scan(o.fragments, o.rest + b).messages);
  }

  /** Chunked framing does not depend on segmentation.  However the bytes are cut into reads, the
      messages dispatched, the exception if there is one, and otherwise the fragments and the buffer
      kept, are those of the whole stream read at once by the reference parser. */
  lemma {:induction false} ChunkedSegmentation(dev: Device, s: Inbound, pieces: seq<string>)
    requires InRange(s.core) && s.base == Base11
    ensures ScansTo(dev, s, Join(pieces), ParseAll(dev, s, pieces).0, ParseAll(dev, s, pieces).1)
    decreases |pieces|
  {
    if pieces != [] {
      hide ScansTo, InRange;
      var x, xs := pieces[0], pieces[1..];
      var (s1, e) := Parse(dev, s, x);
      if x == "" {
        assert "" + Join(xs) == Join(xs);
        ChunkedSegmentation(dev, s, xs);
      } else {
        ParseScansTo(dev, s, x);
        if e.Some? {
          ScansToFailed(dev, s, x, s1, Join(xs), e);
        } else {
          ChunkedSegmentation(dev, s1, xs);
          var (s2, e2) := ParseAll(dev, s1, xs);
          ScansToConcat(dev, s, x, s1, Join(xs), s2, e2);
        }
      }
    }
  }

  lemma ParseScansTo(dev: Device, s: Inbound, data: string)
    requires InRange(s.core) && s.base == Base11 && data != ""
    ensures var (s', e) := Parse(dev, s, data);
            ScansTo(dev, s, data, s', e) && s'.base == Base11
  {
    hide Parse, Chunked.Scan, DispatchAll, InRange;
    ParseScans(dev, s, data);
  }

  /** Two ways of cutting one stream are indistinguishable. */
  lemma ChunkedCutsAgree(dev: Device, s: Inbound, pieces: seq<string>, pieces': seq<string>)
    requires InRange(s.core) && s.base == Base11 && Join(pieces) == Join(pieces')
    ensures var (r, e) := ParseAll(dev, s, pieces);
            var (r', e') := ParseAll(dev, s, pieces');
            && r.core == r'.core && e == e'
            && (e.None? ==> r.fragments == r'.fragments && r.buffer == r'.buffer)
  {
    hide InRange, ParseAll, DispatchAll, Chunked.Scan;
    ChunkedSegmentation(dev, s, pieces);
    ChunkedSegmentation(dev, s, pieces');
  }

  /** One read under end-of-message framing. */
  lemma ParseSplits(dev: Device, s: Inbound, data: string) returns (w: string)
    requires InRange(s.core) && s.base == Base10 && Quiescent(s)
    ensures var p := Eom.Split(s.buffer + data);
            var (s', e) := Parse(dev, s, data);
            && (s'.core, e) == DispatchAll(dev, s.core, Eom.StripAll(p.parts))
            && s'.base == Base10
            && (e.None? ==> Blank(w) && p.rest == w + s'.buffer && Quiescent(s'))
  {
    if data == "" {
      w := "";
      assert s.buffer + data == s.buffer == w + s.buffer;
      assert Eom.StripAll([]) == [];
    } else {
      AppendKeepsResumable(s, data);
      Parse10Splits(dev, s.(buffer := s.buffer + data));
      var p := Eom.Split(s.buffer + data);
      w := if Kept(p) == p.rest then "" else p.rest;
      assert p.rest == w + Kept(p);
    }
  }

  /** End-of-message framing does not depend on segmentation either.  However the bytes are cut, what
      is dispatched is the stripped parts of the plain leftmost split of the whole stream; the buffer
      kept is the rest of that split, up to blank text in front. */
  lemma {:induction false} EomSegmentation(dev: Device, s: Inbound, pieces: seq<string>) returns (w: string)
    requires InRange(s.core) && s.base == Base10 && Quiescent(s)
    ensures var p := Eom.Split(s.buffer + Join(pieces));
            var (s', e) := ParseAll(dev, s, pieces);
            && (s'.core, e) == DispatchAll(dev, s.core, Eom.StripAll(p.parts))
            && (e.None? ==> Blank(w) && p.rest == w + s'.buffer && Quiescent(s'))
    decreases |pieces|
  {
    if pieces == [] {
      w := "";
      assert s.buffer + "" == s.buffer == w + s.buffer;
      assert Eom.StripAll([]) == [];
    } else {
      var x, xs := pieces[0], pieces[1..];
      w := ParseSplits(dev, s, x);
      var s' := Parse(dev, s, x).0;
      Assoc(s.buffer, x, Join(xs));
      Eom.SplitConcat(s.buffer + x, Join(xs));
      var p := Eom.Split(s.buffer + x);
      var q := Eom.Split(p.rest + Join(xs));
      StripAllConcat(p.parts, q.parts);
      DispatchAllConcat(dev, s.core, Eom.StripAll(p.parts), Eom.StripAll(q.parts));
      if Parse(dev, s, x).1.None? {
        Assoc(w, s'.buffer, Join(xs));
        Eom.SplitBlankPrefix(w, s'.buffer + Join(xs));
        var v := EomSegmentation(dev, s', xs);
        w := BlankInFront(w, v, s'.buffer + Join(xs), ParseAll(dev, s', xs).0.buffer, ParseAll(dev, s', xs).1);
      }
    }
  }

  /** Blank text dropped in one round and blank text dropped later together are still blank. */
  lemma BlankInFront(w: string, v: string, text: string, kept: string, e: Option<Error>) returns (u: string)
    requires Blank(w)
    requires e.None? ==> Blank(v) && Eom.Split(text).rest == v + kept
    ensures e.None? ==> Blank(u) && Eom.Split(w + text).rest == u + kept
  {
    Eom.SplitBlankPrefix(w, text);
    if Eom.Split(text).parts == [] {
      u := w + v;
      if e.None? {
        assert Eom.Split(text).rest == text;
        Assoc(w, v, kept);
      }
    } else {
      u := v;
    }
  }

  lemma StripAllConcat(a: seq<string>, b: seq<string>)
    ensures Eom.StripAll(a + b) == Eom.StripAll(a) + Eom.StripAll(b)
  {
  }

  /** Behind misplaced text a read dispatches nothing and raises nothing: the buffer grows, and stays as it is. */
  lemma MisplacedRead(dev: Device, s: Inbound, data: string)
    requires InRange(s.core) && s.base == Base11
    requires Chunked.Misplaced(s.buffer) || Chunked.Misplaced(s.buffer + data)
    ensures Parse(dev, s, data) == (s.(buffer := s.buffer + data), None)
    ensures Chunked.Misplaced(s.buffer + data)
  {
    hide Chunked.NextToken, Chunked.Completable, InRange;
    if Chunked.Misplaced(s.buffer) {
      Chunked.MisplacedStays(s.buffer, data);
    }
    assert s.buffer + "" == s.buffer;
  }

  // Round trips through the wire

  predicate Idle(s: Inbound) {
    s.buffer == "" && s.fragments == [] && s.pos == 0
  }

  /** Chunked round trip: any messages, in any legal chunks, cut into any reads, are dispatched as they
      were sent, and nothing stays behind.  Payloads may contain end marks and chunk headers. */
  lemma ChunkedRoundTrip(dev: Device, s: Inbound, css: seq<seq<Chunked.Token>>, pieces: seq<string>)
    requires InRange(s.core) && s.base == Base11 && Idle(s)
    requires forall i :: 0 <= i < |css| ==> Chunked.AllChunks(css[i])
    requires Join(pieces) == Chunked.FramesOf(css)
    ensures var (s', e) := ParseAll(dev, s, pieces);
            && (s'.core, e) == DispatchAll(dev, s.core, Chunked.MessagesOf(css))
            && (e.None? ==> Idle(s'.(pos := 0)))
  {
    assert Chunked.NextToken("").None?;
    ChunkedSegmentation(dev, s, pieces);
    assert "" + Join(pieces) == Join(pieces);
    Chunked.FramesOfRoundTrip(css);
  }

  /** End-of-message round trip: one message is dispatched as one stripped copy with nothing kept
      exactly when it neither contains `]]>]]>` nor ends in `]]>`, however it is cut into reads. */
  lemma EomRoundTrip(dev: Device, s: Inbound, m: string, pieces: seq<string>)
    requires InRange(s.core) && s.base == Base10 && Idle(s)
    requires Join(pieces) == Eom.Frame(m)
    ensures var ms := Eom.StripAll(Eom.Split(Eom.Frame(m)).parts);
            var (s', e) := ParseAll(dev, s, pieces);
            && (s'.core, e) == DispatchAll(dev, s.core, ms)
            && (e.None? ==> (Eom.Safe(m) <==> ms == [Strip(m)] && s'.buffer == ""))
  {
    assert Resumable(s) && Eom.Find("").None?;
    var w := EomSegmentation(dev, s, pieces);
    assert "" + Join(pieces) == Join(pieces);
    Eom.FrameRoundTrip(m);
    var p := Eom.Split(Eom.Frame(m));
    if Eom.Safe(m) {
      assert Eom.StripAll([m]) == [Strip(m)];
    }
    var (s', e) := ParseAll(dev, s, pieces);
    if e.None? && s'.buffer == "" {
      assert p.rest == w + "" == w;
    }
  }

  /** Any number of safe messages, cut into any reads. */
  lemma EomFramesRoundTrip(dev: Device, s: Inbound, ms: seq<string>, pieces: seq<string>)
    requires InRange(s.core) && s.base == Base10 && Idle(s)
    requires forall m :: m in ms ==> Eom.Safe(m)
    requires Join(pieces) == Eom.Frames(ms)
    ensures var (s', e) := ParseAll(dev, s, pieces);
            && (s'.core, e) == DispatchAll(dev, s.core, Eom.StripAll(ms))
            && (e.None? ==> s'.buffer == "")
  {
    assert Resumable(s) && Eom.Find("").None?;
    var w := EomSegmentation(dev, s, pieces);
    assert "" + Join(pieces) == Join(pieces);
    Eom.FramesRoundTrip(ms);
  }
}
