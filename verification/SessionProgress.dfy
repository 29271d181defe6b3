/**
 What a session gets done along its runs: messages accepted are sent, what is read is dispatched, notifications are
 handed out.
 */
module SessionProgress {
  import opened Strings
  import opened Correlation
  import opened Receiving
  import opened SessionRuns
  import opened SessionFailures
  import Chunked = ChunkedFraming
  import Eom = EomFraming

  // Sending

  /** A turn whose read did not end it sends the first queued message, if the transport is ready: the message leaves
      the queue with the framing then in force; all of its frame is written, and the loop goes on, if no write is
      refused; and otherwise what the writes before the refused one took. */
  lemma TurnSends(dev: Device, s: Sys, input: Input, ready: bool, writes: seq<int>)
    requires InRange(s.Core()) && Receive(dev, s, input).1 == Continue
    ensures var mid := Receive(dev, s, input).0;
            var (s', exit) := Turn(dev, s, input, ready, writes);
            && mid.queue == s.queue && mid.written == s.written && mid.bases == s.bases && mid.sent == s.sent
            && (mid.queue == [] || !ready ==> s' == mid && exit == Continue)
            && (mid.queue != [] && ready ==>
                  var frame := Frame(mid.inb.base, mid.queue[0]);
                  && s'.queue == mid.queue[1..] && s'.bases == mid.bases + [mid.inb.base]
                  && s'.inb == mid.inb && s'.sent == mid.sent && s'.alive == mid.alive
                  && ((forall k: nat :: !RefusedAt(frame, writes, k)) ==>
                        exit == Continue && s'.written == mid.written + frame)
                  && (forall k: nat :: RefusedAt(frame, writes, k) ==>
                        exit.Raise? && 0 <= Sum(writes[..k]) < |frame|
                        && s'.written == mid.written + frame[..Sum(writes[..k])]))
  {
    hide Parse, Frame, SendAll, RefusedAt, Sum, InRange;
    var mid := Receive(dev, s, input).0;
    if mid.queue != [] && ready {
      var frame := Frame(mid.inb.base, mid.queue[0]);
      SendAllStopsIff(frame, writes);
      SendAllConserves(frame, writes);
      var (done, left) := SendAll(frame, writes);
      assert left == "" ==> done == frame;
    }
  }

  /** The turns of the loop in which the transport is ready for a message. */
  function ReadyTurns(events: seq<Event>): nat {
    if events == [] then 0
    else (if events[0].Loop? && events[0].ready then 1 else 0) + ReadyTurns(events[1..])
  }

  lemma AliveTurn(dev: Device, s: Sys, ev: Event)
    requires InRange(s.Core()) && -1 <= s.Core().msgId && Step(dev, s, ev).alive
    ensures s.alive
    ensures ev.Loop? ==> Receive(dev, s, ev.input).1 == Continue
                         && Turn(dev, s, ev.input, ev.ready, ev.writes) == (Step(dev, s, ev), Continue)
  {
    hide Parse, SendAll, Frame, DispatchError, InRange;
  }

  lemma StepLeaves(dev: Device, s: Sys, ev: Event)
    requires InRange(s.Core()) && -1 <= s.Core().msgId && Step(dev, s, ev).alive
    ensures var s' := Step(dev, s, ev);
            && s.alive && s.sent <= s'.sent
            && |s'.bases| == |s.bases| + if ev.Loop? && ev.ready && s.queue != [] then 1 else 0
  {
    AliveTurn(dev, s, ev);
    hide Turn, Receive, InRange;
    if ev.Loop? {
      TurnSends(dev, s, ev.input, ev.ready, ev.writes);
    }
  }

  lemma Left(dev: Device, s: Sys)
    requires SysInv(dev, s)
    ensures Inv(s.Core()) && InRange(s.Core()) && -1 <= s.Core().msgId && |s.bases| + |s.queue| == |s.sent|
  {
  }

  lemma StepKeepsSysInv(dev: Device, s: Sys, ev: Event)
    requires SysInv(dev, s)
    ensures InRange(s.Core()) && -1 <= s.Core().msgId && SysInv(dev, Step(dev, s, ev))
  {
    Left(dev, s);
    hide CoreInv, WireInv, ParserInv, Step, Inv, Follows;
    StepKeepsCoreInv(dev, s, ev);
    StepKeepsWireInv(dev, s, ev);
    StepKeepsParserInv(dev, s, ev);
  }

  lemma PrefixTransitive(a: seq<string>, b: seq<string>, c: seq<string>)
    requires a <= b <= c
    ensures a <= c
  {
  }

  /** Along every run after which the loop still lives, whatever else happens in between: each ready turn takes one
      message off the queue as long as any of those accepted before the run is there. */
  lemma {:induction false} ReadyTurnsSend(dev: Device, s: Sys, events: seq<Event>)
    requires SysInv(dev, s) && Inv(s.Core()) && Run(dev, s, events).alive
    ensures var s' := Run(dev, s, events);
            && s.alive && s.sent <= s'.sent
            && (|s.sent| <= |s'.bases| || |s.bases| + ReadyTurns(events) <= |s'.bases|)
    decreases |events|
  {
    hide SysInv, Step, Inv, InRange;
    Left(dev, s);
    if events != [] {
      StepKeepsRunnable(dev, s, events[0]);
      StepKeepsSysInv(dev, s, events[0]);
      var s1 := Step(dev, s, events[0]);
      ReadyTurnsSend(dev, s1, events[1..]);
      StepLeaves(dev, s, events[0]);
      PrefixTransitive(s.sent, s1.sent, Run(dev, s1, events[1..]).sent);
    }
  }

  /** Enough ready turns write every message accepted so far, whole and in order. */
  lemma EverythingSent(dev: Device, s: Sys, events: seq<Event>)
    requires SysInv(dev, s) && Inv(s.Core()) && Run(dev, s, events).alive && |s.queue| <= ReadyTurns(events)
    ensures var s' := Run(dev, s, events);
            && |s.sent| <= |s'.bases| <= |s'.sent| && s.sent <= s'.sent
            && s'.written == Wire(s'.sent[..|s'.bases|], s'.bases)
  {
    Left(dev, s);
    RunKeepsInv(dev, s, events);
    ReadyTurnsSend(dev, s, events);
    hide Run, CoreInv, ParserInv, Wire, Inv, Follows;
  }

  /** A peer that parses chunked framing then has every one of them. */
  lemma EverythingReceivedChunked(dev: Device, s: Sys, events: seq<Event>)
    requires SysInv(dev, s) && Inv(s.Core()) && Run(dev, s, events).alive && |s.queue| <= ReadyTurns(events)
    requires AllBase(Run(dev, s, events).bases, Base11)
    ensures s.sent <= Chunked.Scan([], Run(dev, s, events).written).messages
  {
    RunKeepsInv(dev, s, events);
    EverythingSent(dev, s, events);
    hide Run, CoreInv, ParserInv, Inv, Follows, Wire, Chunked.Scan;
    PeerReceivesChunked(Run(dev, s, events));
  }

  lemma EverythingReceivedEom(dev: Device, s: Sys, events: seq<Event>)
    requires SysInv(dev, s) && Inv(s.Core()) && Run(dev, s, events).alive && |s.queue| <= ReadyTurns(events)
    requires AllBase(Run(dev, s, events).bases, Base10)
    requires forall m :: m in Run(dev, s, events).sent ==> Eom.Safe(m)
    ensures s.sent <= Eom.Split(Run(dev, s, events).written).parts
  {
    RunKeepsInv(dev, s, events);
    EverythingSent(dev, s, events);
    hide Run, CoreInv, ParserInv, Inv, Follows, Wire, Eom.Split, Eom.Safe;
    PeerReceivesEom(Run(dev, s, events));
  }

  /** Turns with nothing to read and a transport that accepts everything. */
  function SendingTurns(n: nat): seq<Event> {
    if n == 0 then [] else [Loop(Quiet, true, [])] + SendingTurns(n - 1)
  }

  /** The loop lives through such turns, and as many of them as messages are queued empty the queue. */
  lemma {:induction false} SendingTurnsSendAll(dev: Device, s: Sys, n: nat)
    requires SysInv(dev, s) && Inv(s.Core()) && s.alive && |s.queue| <= n
    ensures var s' := Run(dev, s, SendingTurns(n));
            && s'.alive && s'.queue == [] && s'.sent == s.sent && s'.Core() == s.Core()
            && |s'.bases| == |s.sent| && s'.written == Wire(s.sent, s'.bases)
    decreases n
  {
    hide SysInv, Inv, InRange, Wire, Step, Run;
    Left(dev, s);
    if n == 0 {
      AllSent(dev, s);
      NoSteps(dev, s);
    } else {
      var ev := Loop(Quiet, true, []);
      StepKeepsSysInv(dev, s, ev);
      RunCons(dev, s, ev, SendingTurns(n - 1));
      SendingTurn(dev, s);
      SendingTurnsSendAll(dev, Step(dev, s, ev), n - 1);
    }
  }

  lemma AllSent(dev: Device, s: Sys)
    requires SysInv(dev, s) && s.alive && s.queue == []
    ensures |s.bases| == |s.sent| && s.written == Wire(s.sent, s.bases)
  {
    hide CoreInv, ParserInv, Wire;
    assert s.sent[..|s.sent|] == s.sent;
  }

  lemma InvRunnable(s: Sys)
    requires Inv(s.Core())
    ensures InRange(s.Core()) && -1 <= s.Core().msgId
  {
  }

  lemma NoSteps(dev: Device, s: Sys)
    requires Inv(s.Core())
    ensures Run(dev, s, []) == s
  {
  }

  lemma SendingTurn(dev: Device, s: Sys)
    requires InRange(s.Core()) && -1 <= s.Core().msgId && s.alive
    ensures var s' := Step(dev, s, Loop(Quiet, true, []));
            && s'.alive && s'.sent == s.sent && s'.Core() == s.Core()
            && s'.connected == s.connected && s'.closing == s.closing
            && s'.queue == (if s.queue == [] then [] else s.queue[1..])
            && s'.written == s.written + if s.queue == [] then "" else Frame(s.inb.base, s.queue[0])
  {
    hide Frame, SendAll, InRange;
    TurnSends(dev, s, Quiet, true, []);
    if s.queue != [] {
      assert forall k: nat :: !RefusedAt(Frame(s.inb.base, s.queue[0]), [], k);
    }
  }

  /** The first message, sent to an open session with nothing queued, is written by one ready turn. */
  lemma SendAndTurn(dev: Device, s: Sys, m: string)
    requires Inv(s.Core()) && s.alive && s.connected && s.queue == []
    ensures var s' := Run(dev, s, [Send(m), Loop(Quiet, true, [])]);
            && s'.alive && s'.connected && s'.closing == s.closing && s'.queue == [] && s'.sent == s.sent + [m]
            && s'.written == s.written + Frame(s.inb.base, m)
  {
    hide Inv, InRange, Step, Run, Frame;
    var turn := Loop(Quiet, true, []);
    assert [turn] == [turn] + [] && [Send(m), turn] == [Send(m)] + [turn];
    RunCons(dev, s, Send(m), [turn]);
    InvRunnable(s);
    SendStep(dev, s, m);
    var s1 := Step(dev, s, Send(m));
    assert s1.queue == [m] && s1.queue[1..] == [];
    RunCons(dev, s1, turn, []);
    NoSteps(dev, Step(dev, s1, turn));
    SendingTurn(dev, s1);
  }

  /** The octets of the first message, under either framing. */
  lemma FirstMessage(dev: Device, m: string)
    ensures Inv(Initial().Core())
    ensures var s' := Run(dev, Initial(), [Send(m), Loop(Quiet, true, [])]);
            s'.alive && s'.connected && !s'.closing && s'.sent == [m] && s'.written == m + "]]>]]>"
    ensures var s' := Run(dev, Initial(), [SelectBase11] + [Send(m), Loop(Quiet, true, [])]);
            && s'.alive && s'.connected && !s'.closing && s'.sent == [m]
            && s'.written == "\n#" + Dec(|m|) + "\n" + m + "\n##\n"
  {
    hide Run, Dec;
    var s := Initial();
    SendAndTurn(dev, s, m);
    RunCons(dev, s, SelectBase11, [Send(m), Loop(Quiet, true, [])]);
    SendAndTurn(dev, Step(dev, s, SelectBase11), m);
  }

  // Accepting messages

  /** A message is accepted exactly when the session is connected. */
  lemma SendStep(dev: Device, s: Sys, m: string)
    requires InRange(s.Core()) && -1 <= s.Core().msgId
    ensures var s' := Step(dev, s, Send(m));
            && (s.connected ==> s'.queue == s.queue + [m] && s'.sent == s.sent + [m])
            && (!s.connected ==> s' == s)
            && s'.inb == s.inb && s'.connected == s.connected && s'.written == s.written
            && s'.alive == s.alive && s'.closing == s.closing
  {
  }

  lemma TurnAccepts(dev: Device, s: Sys, input: Input, ready: bool, writes: seq<int>)
    requires InRange(s.Core())
    ensures var s' := Turn(dev, s, input, ready, writes).0; s'.connected == s.connected && s'.sent == s.sent
  {
    hide Parse, SendAll, Frame, InRange;
  }

  lemma ClosedStep(dev: Device, s: Sys, ev: Event)
    requires Inv(s.Core()) && !s.connected
    ensures InRange(s.Core()) && -1 <= s.Core().msgId
    ensures !Step(dev, s, ev).connected && Step(dev, s, ev).sent == s.sent
  {
    assert InRange(s.Core());
    hide Turn, DispatchError, InRange;
    if ev.Loop? {
      TurnAccepts(dev, s, ev.input, ev.ready, ev.writes);
    }
  }

  /** A session closed, by `close` or by a failure, accepts no message any more. */
  lemma {:induction false} ClosedAcceptsNothing(dev: Device, s: Sys, events: seq<Event>)
    requires Inv(s.Core()) && !s.connected
    ensures !Run(dev, s, events).connected && Run(dev, s, events).sent == s.sent
    decreases |events|
  {
    if events != [] {
      StepKeepsRunnable(dev, s, events[0]);
      ClosedStep(dev, s, events[0]);
      hide Step, Inv;
      ClosedAcceptsNothing(dev, Step(dev, s, events[0]), events[1..]);
    }
  }

  lemma CloseCloses(dev: Device, s: Sys, events: seq<Event>)
    requires Inv(s.Core())
    ensures Inv(Step(dev, s, Close).Core()) && Step(dev, s, Close).closing
    ensures Run(dev, s, [Close] + events).sent == s.sent
  {
    RunCons(dev, s, Close, events);
    ClosedAcceptsNothing(dev, Step(dev, s, Close), events);
  }

  // Handing out notifications

  function Takes(n: nat): seq<Event> {
    if n == 0 then [] else [Take] + Takes(n - 1)
  }

  /** As many takes as notifications are queued hand them out one by one, in order; further ones give nothing. */
  lemma {:induction false} TakesInOrder(dev: Device, s: Sys, n: nat)
    requires Inv(s.Core())
    ensures var ns := s.Core().notifications;
            var k := if n <= |ns| then n else |ns|;
            var s' := Run(dev, s, Takes(n));
            s'.taken == s.taken + ns[..k] && s'.Core().notifications == ns[k..]
    decreases n
  {
    hide Inv, Step, Run;
    var ns := s.Core().notifications;
    if n == 0 {
      NoSteps(dev, s);
    } else {
      TakeStep(dev, s);
      RunCons(dev, s, Take, Takes(n - 1));
      TakesInOrder(dev, Step(dev, s, Take), n - 1);
      if ns != [] {
        var k := if n <= |ns| then n else |ns|;
        FirstTaken(s.taken, ns, k);
      }
    }
  }

  lemma FirstTaken(taken: seq<string>, ns: seq<string>, k: nat)
    requires 0 < k <= |ns|
    ensures (taken + [ns[0]]) + ns[1..][..k - 1] == taken + ns[..k] && ns[1..][k - 1..] == ns[k..]
  {
  }

  lemma TakeStep(dev: Device, s: Sys)
    requires Inv(s.Core())
    ensures InRange(s.Core()) && -1 <= s.Core().msgId
    ensures var ns, s' := s.Core().notifications, Step(dev, s, Take);
            if ns == [] then s' == s else s'.taken == s.taken + [ns[0]] && s'.Core().notifications == ns[1..]
  {
  }

  // Reading

  /** What the turns of a run read, nothing for a quiet one. */
  function Pieces(events: seq<Event>): seq<string> {
    if events == [] then []
    else (if events[0].Loop? && events[0].input.Read? then [events[0].input.data] else [""]) + Pieces(events[1..])
  }

  predicate AllTurns(events: seq<Event>) {
    forall i :: 0 <= i < |events| ==> events[i].Loop?
  }

  lemma LiveTurnParses(dev: Device, s: Sys, ev: Event)
    requires InRange(s.Core()) && -1 <= s.Core().msgId && ev.Loop? && Step(dev, s, ev).alive
    ensures Parse(dev, s.inb, if ev.input.Read? then ev.input.data else "") == (Step(dev, s, ev).inb, None)
  {
    AliveTurn(dev, s, ev);
    hide Parse10, Parse11, Frame, SendAll, InRange, DispatchError;
    TurnSends(dev, s, ev.input, ev.ready, ev.writes);
  }

  /** The turns of a loop that lives on parse what they read, piece by piece, whatever they send in between. */
  lemma {:induction false} RunParses(dev: Device, s: Sys, events: seq<Event>)
    requires Inv(s.Core()) && AllTurns(events) && Run(dev, s, events).alive
    ensures ParseAll(dev, s.inb, Pieces(events)) == (Run(dev, s, events).inb, None)
    decreases |events|
  {
    if events != [] {
      StepKeepsRunnable(dev, s, events[0]);
      assert InRange(s.Core()) && -1 <= s.Core().msgId;
      hide Step, Inv, InRange, Parse;
      var s1 := Step(dev, s, events[0]);
      RunParses(dev, s1, events[1..]);
      RunAlive(dev, s1, events[1..]);
      LiveTurnParses(dev, s, events[0]);
      assert Pieces(events)[1..] == Pieces(events[1..]);
    }
  }

  lemma {:induction false} RunAlive(dev: Device, s: Sys, events: seq<Event>)
    requires Inv(s.Core()) && Run(dev, s, events).alive
    ensures s.alive
    decreases |events|
  {
    if events != [] {
      StepKeepsRunnable(dev, s, events[0]);
      assert InRange(s.Core()) && -1 <= s.Core().msgId;
      hide Step, Inv, InRange;
      RunAlive(dev, Step(dev, s, events[0]), events[1..]);
      AliveTurn(dev, s, events[0]);
    }
  }

  /** So the whole of what a living loop read, however it was cut, was dispatched: under chunked framing as the
      reference parser has it, under end-of-message framing as the plain split has it. */
  lemma EverythingRead(dev: Device, s: Sys, events: seq<Event>)
    requires Inv(s.Core()) && AllTurns(events) && Run(dev, s, events).alive
    ensures InRange(s.Core())
    ensures s.inb.base == Base11 ==> ScansTo(dev, s.inb, Join(Pieces(events)), Run(dev, s, events).inb, None)
    ensures s.inb.base == Base10 && Quiescent(s.inb) ==>
              (Run(dev, s, events).Core(), None)
              == DispatchAll(dev, s.Core(), Eom.StripAll(Eom.Split(s.inb.buffer + Join(Pieces(events))).parts))
  {
    assert InRange(s.Core());
    RunParses(dev, s, events);
    hide Run, ParseAll, ScansTo, Quiescent, InRange, DispatchAll, Eom.Split, Eom.StripAll;
    if s.inb.base == Base11 {
      ChunkedSegmentation(dev, s.inb, Pieces(events));
    } else if Quiescent(s.inb) {
      var w := EomSegmentation(dev, s.inb, Pieces(events));
    }
  }
}
