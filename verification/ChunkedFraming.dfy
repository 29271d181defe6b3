/**
 Chunked framing (section 4.2 of RFC 6242): the grammar, the reference parser, and what is true of
 the pair.

 The grammar is given first and independently of any parser: a stream is a sequence of tokens, each
 either a chunk (a size numeral and that many characters) or an end-of-message mark.  `Scan` is the
 reference parser.  The theorems say that it inverts the grammar, in both directions, and that it
 cannot tell how its input was cut into reads.
 */
module ChunkedFraming {
  import opened Strings

  const END_DELIM := "\n##\n"

  // The grammar

  datatype Token = Chunk(digits: string, payload: string) | End

  /** The size numeral of a chunk names the length of its payload.  Zero and leading zeros are
      accepted, as the parser accepts them. */
  predicate Legal(t: Token) {
    t.Chunk? ==> Numeral(t.digits) && DecValue(t.digits) == |t.payload|
  }

  predicate AllLegal(ts: seq<Token>) {
    forall i :: 0 <= i < |ts| ==> Legal(ts[i])
  }

  function Header(digits: string): string {
    "\n#" + digits + "\n"
  }

  function Print(t: Token): string {
    match t
    case Chunk(digits, payload) => Header(digits) + payload
    case End => END_DELIM
  }

  function PrintAll(ts: seq<Token>): string {
    if ts == [] then "" else Print(ts[0]) + PrintAll(ts[1..])
  }

  /** What a parser has to show for a stretch of input: complete messages, the fragments of the
      message in progress, and the input it could not use yet. */
  datatype Outcome = Outcome(messages: seq<string>, fragments: seq<string>, rest: string)

  /** The meaning of a token sequence read after the fragments `frags`. */
  function Interpret(frags: seq<string>, ts: seq<Token>): (seq<string>, seq<string>)
    decreases |ts|
  {
    if ts == [] then ([], frags)
    else match ts[0]
      case Chunk(_, payload) => Interpret(frags + [payload], ts[1..])
      case End =>
        var (messages, frags') := Interpret([], ts[1..]);
        ([Join(frags)] + messages, frags')
  }

  /** No complete token stands at the front of `s`. */
  ghost predicate Stuck(s: string) {
    forall t :: Legal(t) ==> !(Print(t) <= s)
  }

  // The delimiter pattern and the reference parser

  datatype Delim = NoDelim | EndDelim | ChunkDelim(header: nat, size: nat)

  /** Where the digits that start at `i` end. */
  function DigitsEnd(s: string, i: nat): (j: nat)
    requires i <= |s|
    ensures i <= j <= |s| && AllDigits(s[i..j])
    ensures j < |s| ==> !IsDigit(s[j])
    decreases |s| - i
  {
    if i == |s| || !IsDigit(s[i]) then i else DigitsEnd(s, i + 1)
  }

  /** The anchored match of `\n(?:#([0-9]+)|(##))\n`. */
  function MatchDelim(s: string): (m: Delim)
    ensures m != NoDelim ==> 4 <= |s|
    ensures m.ChunkDelim? ==> 4 <= m.header <= |s|
  {
    if |s| < 4 || s[0] != '\n' || s[1] != '#' then NoDelim
    else if s[2] == '#' && s[3] == '\n' then EndDelim
    else
      var j := DigitsEnd(s, 2);
      if 2 < j < |s| && s[j] == '\n' then ChunkDelim(j + 1, DecValue(s[2..j])) else NoDelim
  }

  /** A match is a header of the grammar. */
  lemma MatchedChunk(s: string)
    requires MatchDelim(s).ChunkDelim?
    ensures var h := MatchDelim(s).header;
            Numeral(s[2..h - 1]) && s[..h] == Header(s[2..h - 1]) && MatchDelim(s).size == DecValue(s[2..h - 1])
  {
  }

  lemma MatchedEnd(s: string)
    requires MatchDelim(s).EndDelim?
    ensures END_DELIM <= s
  {
  }

  lemma HeaderChars(digits: string, s: string)
    requires Numeral(digits) && Header(digits) <= s
    ensures |digits| + 3 <= |s| && s[0] == '\n' && s[1] == '#' && s[2 + |digits|] == '\n'
    ensures s[2..2 + |digits|] == digits && IsDigit(s[2])
  {
    var h := Header(digits);
    assert h[2] == digits[0];
    assert s[..|digits| + 3] == h;
    assert s[2..2 + |digits|] == h[2..2 + |digits|] == digits;
  }

  lemma DigitsAt(s: string, i: nat, j: nat)
    requires i <= j <= |s| && AllDigits(s[i..j])
    ensures forall k :: i <= k < j ==> IsDigit(s[k])
  {
    forall k | i <= k < j
      ensures IsDigit(s[k])
    {
      assert s[k] == s[i..j][k - i];
    }
  }

  lemma DigitsEndAt(s: string, i: nat, j: nat)
    requires i <= j < |s| && AllDigits(s[i..j]) && !IsDigit(s[j])
    ensures DigitsEnd(s, i) == j
  {
    hide DigitsEnd;
    var e := DigitsEnd(s, i);
    DigitsAt(s, i, j);
    DigitsAt(s, i, e);
  }

  /** Every header of the grammar is matched, whatever follows it. */
  lemma HeaderMatches(digits: string, s: string)
    requires Numeral(digits) && Header(digits) <= s
    ensures MatchDelim(s) == ChunkDelim(|digits| + 3, DecValue(digits))
  {
    hide DigitsEnd, DecValue, Header;
    HeaderChars(digits, s);
    DigitsEndAt(s, 2, 2 + |digits|);
  }

  /** The token at the front of `s`, if all of it is there. */
  function NextToken(s: string): Option<Token> {
    match MatchDelim(s)
    case NoDelim => None
    case EndDelim => Some(End)
    case ChunkDelim(h, n) => if h + n <= |s| then Some(Chunk(s[2..h - 1], s[h..h + n])) else None
  }

  lemma NextTokenSound(s: string)
    requires NextToken(s).Some?
    ensures Legal(NextToken(s).value) && Print(NextToken(s).value) <= s
  {
    hide MatchDelim, DecValue, DigitsEnd;
    if MatchDelim(s).ChunkDelim? {
      MatchedChunk(s);
      var h, n := MatchDelim(s).header, MatchDelim(s).size;
      assert s[..h + n] == s[..h] + s[h..h + n];
      assert Numeral(s[2..h - 1]);
    } else {
      MatchedEnd(s);
    }
  }

  /** A token that stands at the front is as long as its match says. */
  lemma TokenLength(s: string)
    requires MatchDelim(s).ChunkDelim? && MatchDelim(s).header + MatchDelim(s).size <= |s|
    ensures var d, t := MatchDelim(s), NextToken(s);
            && t.Some? && t.value.Chunk?
            && t.value.payload == s[d.header..d.header + d.size] && |Print(t.value)| == d.header + d.size
  {
    hide MatchDelim, DecValue;
    MatchedChunk(s);
  }

  lemma NextTokenComplete(t: Token, tail: string)
    requires Legal(t)
    ensures NextToken(Print(t) + tail) == Some(t)
  {
    match t
    case End =>
    case Chunk(digits, payload) =>
      hide MatchDelim, DecValue;
      var s := Print(t) + tail;
      assert Header(digits) <= s;
      HeaderMatches(digits, s);
      HeaderChars(digits, s);
      hide Header;
      var h := |digits| + 3;
      assert s[h..h + |payload|] == payload;
  }

  lemma NextTokenOnly(s: string, t: Token)
    requires Legal(t) && Print(t) <= s
    ensures NextToken(s) == Some(t)
  {
    hide NextToken, Print, Legal;
    assert s == Print(t) + s[|Print(t)|..];
    NextTokenComplete(t, s[|Print(t)|..]);
  }

  /** `NextToken` decides the grammar: at most one token starts a text, and it finds it. */
  lemma NextTokenExact(s: string)
    ensures forall t :: Legal(t) && Print(t) <= s <==> NextToken(s) == Some(t)
    ensures NextToken(s).None? <==> Stuck(s)
  {
    hide NextToken, Print, Legal;
    forall t
      ensures Legal(t) && Print(t) <= s <==> NextToken(s) == Some(t)
    {
      if NextToken(s) == Some(t) {
        NextTokenSound(s);
      }
      if Legal(t) && Print(t) <= s {
        NextTokenOnly(s, t);
      }
    }
  }

  // Text that no input can complete

  /** What may still become a token: the beginning of an end mark, or a chunk header that is complete or could
      still grow. */
  predicate Completable(b: string) {
    b <= END_DELIM || ("\n#" <= b && var j := DigitsEnd(b, 2); 2 < j && (j == |b| || b[j] == '\n'))
  }

  /** Not a token, and never the beginning of one. */
  predicate Misplaced(b: string) {
    NextToken(b).None? && !Completable(b)
  }

  /** More input makes a token of the text exactly when its beginning looks like one: the parser, which raises
      nothing, waits in vain otherwise. */
  lemma CompletableIff(b: string)
    requires NextToken(b).None?
    ensures (exists tail :: NextToken(b + tail).Some?) <==> Completable(b)
  {
    hide NextToken;
    if Completable(b) {
      var tail := Completion(b);
    }
    forall tail | NextToken(b + tail).Some?
      ensures Completable(b)
    {
      BeginsToken(b, tail);
    }
  }

  /** What is missing. */
  lemma Completion(b: string) returns (tail: string)
    requires NextToken(b).None? && Completable(b)
    ensures NextToken(b + tail).Some?
  {
    if b <= END_DELIM {
      tail := END_DELIM[|b|..];
      assert b + tail == Print(End) + "";
      NextTokenComplete(End, "");
    } else {
      tail := HeaderCompletion(b);
    }
  }

  lemma HeaderCompletion(b: string) returns (tail: string)
    requires NextToken(b).None? && "\n#" <= b
    requires var j := DigitsEnd(b, 2); 2 < j && (j == |b| || b[j] == '\n')
    ensures NextToken(b + tail).Some?
  {
    hide NextToken, DigitsEnd, DecValue;
    var j := DigitsEnd(b, 2);
    var digits := b[2..j];
    if j == |b| {
      assert b == "\n#" + digits;
      tail := "\n" + Filler(DecValue(digits));
      SpelledChunk(digits, Filler(DecValue(digits)), b, tail);
    } else {
      assert b == Header(digits) + b[j + 1..];
      tail := ChunkCompletion(digits, b[j + 1..]);
    }
  }

  lemma ChunkCompletion(digits: string, payload: string) returns (tail: string)
    requires Numeral(digits) && NextToken(Header(digits) + payload).None?
    ensures NextToken(Header(digits) + payload + tail).Some?
  {
    var b := Header(digits) + payload;
    HeaderMatches(digits, b);
    hide MatchDelim, DecValue, Header;
    assert |Header(digits)| == |digits| + 3;
    tail := Filler(DecValue(digits) - |payload|);
    Assoc(Header(digits), payload, tail);
    SpelledChunk(digits, payload + tail, b, tail);
  }

  function Filler(n: nat): (s: string)
    ensures |s| == n
  {
    seq(n, _ => ' ')
  }

  lemma SpelledChunk(digits: string, payload: string, b: string, tail: string)
    requires Numeral(digits) && DecValue(digits) == |payload|
    requires b + tail == Header(digits) + payload
    ensures NextToken(b + tail).Some?
  {
    var t := Chunk(digits, payload);
    assert b + tail == Print(t) + "";
    NextTokenComplete(t, "");
  }

  lemma BeginsToken(b: string, tail: string)
    requires NextToken(b).None? && NextToken(b + tail).Some?
    ensures Completable(b)
  {
    hide NextToken, MatchDelim, DigitsEnd, DecValue;
    NextTokenSound(b + tail);
    var t := NextToken(b + tail).value;
    var s := Print(t);
    if s <= b {
      NextTokenOnly(b, t);
    }
    assert |b| < |s| && b == (b + tail)[..|b|] == s[..|b|];
    if t.Chunk? && 2 < |b| {
      var h := |t.digits| + 2;
      assert s[2..h] == t.digits && s[h] == '\n';
      assert b[..2] == s[..2] == "\n#";
      if |b| <= h {
        assert b[2..] == t.digits[..|b| - 2];
        DigitsEndAll(b, 2);
      } else {
        assert b[2..h] == s[2..h] && b[h] == '\n';
        DigitsEndAt(b, 2, h);
      }
    } else if t.Chunk? {
      assert b == "\n#"[..|b|] == END_DELIM[..|b|];
    }
  }

  lemma DigitsEndAll(s: string, i: nat)
    requires i <= |s| && AllDigits(s[i..])
    ensures DigitsEnd(s, i) == |s|
  {
    hide DigitsEnd;
    DigitsAt(s, i, |s|);
  }

  /** Misplaced text stays so, whatever arrives behind it. */
  lemma MisplacedStays(b: string, tail: string)
    requires Misplaced(b)
    ensures Misplaced(b + tail)
  {
    hide NextToken, Completable;
    CompletableIff(b);
    assert NextToken(b + tail).None?;
    CompletableIff(b + tail);
    forall more
      ensures NextToken(b + tail + more).None?
    {
      Assoc(b, tail, more);
      assert NextToken(b + (tail + more)).None?;
    }
  }

  /** A message without a header in front of it, a letter in the size, and a size without a digit. */
  lemma MisplacedExamples()
    ensures Misplaced("<") && Misplaced("\n#1x") && Misplaced("\n#\n")
  {
    assert "<"[0] != END_DELIM[0] && "\n#1x"[2] != END_DELIM[2] && "\n#\n"[2] != END_DELIM[2];
    assert DigitsEnd("\n#1x", 2) == 3;
    assert DigitsEnd("\n#\n", 2) == 2;
  }

  /** Take tokens off the front of `data` until none is complete. */
  function Scan(frags: seq<string>, data: string): Outcome
    decreases |data|
  {
    match NextToken(data)
    case None => Outcome([], frags, data)
    case Some(t) =>
      NextTokenSound(data);
      var data' := data[|Print(t)|..];
      match t
      case Chunk(_, payload) => Scan(frags + [payload], data')
      case End =>
        var o := Scan([], data');
        o.(messages := [Join(frags)] + o.messages)
  }

  /** One token off the front. */
  lemma ScanToken(frags: seq<string>, t: Token, tail: string)
    requires Legal(t)
    ensures Scan(frags, Print(t) + tail) ==
            if t.Chunk? then Scan(frags + [t.payload], tail)
            else var o := Scan([], tail); o.(messages := [Join(frags)] + o.messages)
  {
    NextTokenComplete(t, tail);
    assert (Print(t) + tail)[|Print(t)|..] == tail;
  }

  // Parser and grammar are inverse

  /** Parsing what the grammar prints gives its meaning, and the text behind it is parsed as if it
      stood alone. */
  lemma {:induction false} ScanOfPrint(frags: seq<string>, ts: seq<Token>, tail: string)
    requires AllLegal(ts)
    ensures var (messages, frags') := Interpret(frags, ts);
            var o := Scan(frags', tail);
            Scan(frags, PrintAll(ts) + tail) == o.(messages := messages + o.messages)
    decreases |ts|
  {
    if ts == [] {
      assert PrintAll(ts) + tail == tail;
      var o := Scan(frags, tail);
      assert [] + o.messages == o.messages;
    } else {
      hide Scan, PrintAll, Interpret, Print;
      var t, us := ts[0], ts[1..];
      assert ts == [t] + us;
      PrintCons(t, us, tail);
      InterpretCons(frags, t, us);
      ScanToken(frags, t, PrintAll(us) + tail);
      if t.Chunk? {
        ScanOfPrint(frags + [t.payload], us, tail);
      } else {
        ScanOfPrint([], us, tail);
        var (messages, frags') := Interpret([], us);
        MessagesAssoc(Join(frags), messages, Scan(frags', tail).messages);
      }
    }
  }

  lemma MessagesAssoc(m: string, ms: seq<string>, ns: seq<string>)
    ensures ([m] + ms) + ns == [m] + (ms + ns)
  {
  }

  lemma PrintCons(t: Token, ts: seq<Token>, rest: string)
    ensures PrintAll([t] + ts) + rest == Print(t) + (PrintAll(ts) + rest)
  {
    assert ([t] + ts)[1..] == ts;
  }

  lemma InterpretCons(frags: seq<string>, t: Token, ts: seq<Token>)
    ensures Interpret(frags, [t] + ts) ==
            if t.Chunk? then Interpret(frags + [t.payload], ts)
            else ([Join(frags)] + Interpret([], ts).0, Interpret([], ts).1)
  {
    assert ([t] + ts)[1..] == ts;
  }

  /** Every outcome is accounted for: the input is the print of some legal tokens with that meaning,
      followed by the rest, and no further token can be read off the rest. */
  lemma {:induction false} PrintOfScan(frags: seq<string>, data: string) returns (ts: seq<Token>)
    ensures AllLegal(ts)
    ensures var o := Scan(frags, data);
            data == PrintAll(ts) + o.rest && Interpret(frags, ts) == (o.messages, o.fragments) && Stuck(o.rest)
    decreases |data|
  {
    NextTokenExact(data);
    match NextToken(data)
    case None =>
      ts := [];
      assert data == PrintAll(ts) + data;
    case Some(t) =>
      NextTokenSound(data);
      hide Scan, NextToken, Print, PrintAll, Interpret, Legal, Stuck;
      var data' := data[|Print(t)|..];
      assert data == Print(t) + data';
      ScanToken(frags, t, data');
      var us := PrintOfScan(if t.Chunk? then frags + [t.payload] else [], data');
      ts := [t] + us;
      PrintCons(t, us, Scan(frags, data).rest);
      InterpretCons(frags, t, us);
  }

  /** The parser is characterised by the grammar alone: `o` is its outcome exactly when the input
      reads as legal tokens that mean `o`, with nothing readable left over. */
  lemma ScanCharacterised(frags: seq<string>, data: string, o: Outcome)
    ensures Scan(frags, data) == o <==>
            Stuck(o.rest) && exists ts :: AllLegal(ts) && data == PrintAll(ts) + o.rest
                                          && Interpret(frags, ts) == (o.messages, o.fragments)
  {
    if Scan(frags, data) == o {
      var ts := PrintOfScan(frags, data);
    }
    if Stuck(o.rest) {
      forall ts | AllLegal(ts) && data == PrintAll(ts) + o.rest && Interpret(frags, ts) == (o.messages, o.fragments)
        ensures Scan(frags, data) == o
      {
        NextTokenExact(o.rest);
        ScanOfPrint(frags, ts, o.rest);
        assert o.messages + [] == o.messages;
      }
    }
  }

  // Segmentation

  /** Parsing `a`, keeping fragments and rest, and then parsing what `b` adds is the same as parsing
      both at once. */
  lemma ScanConcat(frags: seq<string>, a: string, b: string)
    ensures var o := Scan(frags, a);
            var p := Scan(o.fragments, o.rest + b);
            Scan(frags, a + b) == p.(messages := o.messages + p.messages)
  {
    var o := Scan(frags, a);
    var ts := PrintOfScan(frags, a);
    Assoc(PrintAll(ts), o.rest, b);
    ScanOfPrint(frags, ts, o.rest + b);
  }

  /** More input never takes back a message. */
  lemma ScanMonotone(frags: seq<string>, a: string, b: string)
    ensures Scan(frags, a).messages <= Scan(frags, a + b).messages
  {
    ScanConcat(frags, a, b);
  }

  // The sender

  predicate AllChunks(ts: seq<Token>) {
    AllLegal(ts) && forall i :: 0 <= i < |ts| ==> ts[i].Chunk?
  }

  /** The message that a list of chunks carries. */
  function MessageOf(chunks: seq<Token>): string {
    if chunks == [] then ""
    else (if chunks[0].Chunk? then chunks[0].payload else "") + MessageOf(chunks[1..])
  }

  /** A frame as a peer may send it: the message in any chunks, and the end mark. */
  function FrameOf(chunks: seq<Token>): string {
    PrintAll(chunks + [End])
  }

  /** A frame as `Session.run` sends it: the whole message as one chunk. */
  function Frame(m: string): string {
    Header(Dec(|m|)) + m + END_DELIM
  }

  lemma {:induction false} InterpretFrame(frags: seq<string>, chunks: seq<Token>)
    requires AllChunks(chunks)
    ensures Interpret(frags, chunks + [End]) == ([Join(frags) + MessageOf(chunks)], [])
    decreases |chunks|
  {
    if chunks == [] {
      InterpretCons(frags, End, []);
      assert chunks + [End] == [End] + [];
      assert Interpret([], []) == ([], []);
      assert Join(frags) + "" == Join(frags);
      assert [Join(frags)] + Interpret([], []).0 == [Join(frags)];
    } else {
      var c, cs := chunks[0], chunks[1..];
      assert chunks + [End] == [c] + (cs + [End]);
      InterpretCons(frags, c, cs + [End]);
      InterpretFrame(frags + [c.payload], cs);
      JoinSnoc(frags, c.payload);
      Assoc(Join(frags), c.payload, MessageOf(cs));
    }
  }

  /** A frame is read back as its message, whatever the payload contains and whatever follows. */
  lemma ScanFrameOf(chunks: seq<Token>, tail: string)
    requires AllChunks(chunks)
    ensures var o := Scan([], tail);
            Scan([], FrameOf(chunks) + tail) == o.(messages := [MessageOf(chunks)] + o.messages)
  {
    ScanOfPrint([], chunks + [End], tail);
    InterpretFrame([], chunks);
    assert "" + MessageOf(chunks) == MessageOf(chunks);
  }

  function OneChunk(m: string): seq<Token> {
    [Chunk(Dec(|m|), m)]
  }

  /** The sender's frame is one of the frames a peer may send. */
  lemma FrameIsFrameOf(m: string)
    ensures AllChunks(OneChunk(m))
    ensures Frame(m) == FrameOf(OneChunk(m))
    ensures MessageOf(OneChunk(m)) == m
  {
    DecRoundTrip(|m|);
    var c := Chunk(Dec(|m|), m);
    PrintCons(c, [End], "");
    PrintCons(End, [], "");
    assert [c] + [End] == OneChunk(m) + [End];
    assert [End] + [] == [End];
    assert PrintAll([End]) == END_DELIM;
    assert m + "" == m;
  }

  /** The bytes on the wire, letter by letter. */
  lemma FrameExample()
    ensures Frame("abc") == "\n#3\nabc\n##\n"
  {
    DigitChars(3, '3');
    hide Dec;
    assert [DIGITS[3]] == "3" && |"abc"| == 3;
    assert Header("3") == "\n#3\n";
  }

  /** And the headers that are matched. */
  lemma HeaderExample()
    ensures MatchDelim("\n#12\n") == ChunkDelim(5, 12) && MatchDelim("\n##\n") == EndDelim
  {
    DigitChars(1, '1');
    Decimal(1, "1", 2);
    hide DecValue, DigitsEnd;
    assert [DIGITS[1]] == "1" && "1" + [DIGITS[2]] == "12";
    assert Header("12") == "\n#12\n";
    HeaderMatches("12", "\n#12\n");
  }

  function Frames(ms: seq<string>): string {
    JoinMap(Frame, ms)
  }

  lemma ScanOneFrame(m: string, tail: string, ms: seq<string>)
    requires Scan([], tail) == Outcome(ms, [], "")
    ensures Scan([], Frame(m) + tail) == Outcome([m] + ms, [], "")
  {
    hide Scan, FrameOf, MessageOf, Frame, AllChunks, OneChunk;
    FrameIsFrameOf(m);
    ScanFrameOf(OneChunk(m), tail);
  }

  /** Parsing the frames of any messages gives those messages and leaves nothing behind. */
  lemma {:induction false} FramesRoundTrip(ms: seq<string>)
    ensures Scan([], Frames(ms)) == Outcome(ms, [], "")
  {
    if ms != [] {
      hide Scan, Frame;
      FramesRoundTrip(ms[1..]);
      ScanOneFrame(ms[0], Frames(ms[1..]), ms[1..]);
      assert [ms[0]] + ms[1..] == ms;
    }
  }

  function FramesOf(css: seq<seq<Token>>): string {
    JoinMap(FrameOf, css)
  }

  function MessagesOf(css: seq<seq<Token>>): seq<string> {
    seq(|css|, i requires 0 <= i < |css| => MessageOf(css[i]))
  }

  lemma MessagesOfCons(cs: seq<Token>, css: seq<seq<Token>>)
    ensures MessagesOf([cs] + css) == [MessageOf(cs)] + MessagesOf(css)
  {
  }

  lemma ScanFrameThen(cs: seq<Token>, tail: string, ms: seq<string>)
    requires AllChunks(cs) && Scan([], tail) == Outcome(ms, [], "")
    ensures Scan([], FrameOf(cs) + tail) == Outcome([MessageOf(cs)] + ms, [], "")
  {
    hide Scan, FrameOf, MessageOf, AllChunks;
    ScanFrameOf(cs, tail);
  }

  /** The same for a peer that cuts each message into chunks as it likes. */
  lemma {:induction false} FramesOfRoundTrip(css: seq<seq<Token>>)
    requires forall i :: 0 <= i < |css| ==> AllChunks(css[i])
    ensures Scan([], FramesOf(css)) == Outcome(MessagesOf(css), [], "")
  {
    if css != [] {
      hide Scan, FrameOf, MessageOf, AllChunks, MessagesOf;
      FramesOfRoundTrip(css[1..]);
      ScanFrameThen(css[0], FramesOf(css[1..]), MessagesOf(css[1..]));
      MessagesOfCons(css[0], css[1..]);
      assert css == [css[0]] + css[1..];
    } else {
      assert MessagesOf(css) == [];
    }
  }

  /** A receiver of an interrupted transmission sees the first messages, in order, and no others. */
  lemma TruncatedFrames(ms: seq<string>, received: string)
    requires received <= Frames(ms)
    ensures Scan([], received).messages <= ms
  {
    hide Scan, Frames;
    FramesRoundTrip(ms);
    assert Frames(ms) == received + Frames(ms)[|received|..];
    ScanMonotone([], received, Frames(ms)[|received|..]);
  }
}
