/**
 How the main loop of a session ends, and what its end does to the requests.
 */
module SessionFailures {
  import opened Strings
  import opened Correlation
  import opened Receiving
  import opened SessionRuns
  import Chunked = ChunkedFraming
  import Eom = EomFraming

  // Failure

  /** From `before`, through `mid`, to `after` an error `e` that hits `mid`: no request is pending any more; those
      pending in `mid` have the error, the others the outcome they had there, and outcomes of `before` are kept. */
  ghost predicate Drained(before: Core, mid: Core, after: Core, e: Error) {
    && after.table == map[]
    && |after.rpcs| == |mid.rpcs| == |before.rpcs|
    && forall i :: 0 <= i < |before.rpcs| ==>
         && Resolved(after.rpcs[i])
         && after.rpcs[i] == (if Pending(mid.rpcs[i]) then DeliverError(mid.rpcs[i], e) else mid.rpcs[i])
         && (Resolved(before.rpcs[i]) ==> after.rpcs[i] == before.rpcs[i])
  }

  lemma ErrorDrains(before: Core, mid: Core, e: Error)
    requires Inv(mid) && Follows(before, mid) && |mid.rpcs| == |before.rpcs|
    ensures Drained(before, mid, DispatchError(mid, e), e)
  {
    DispatchErrorDrains(mid, e);
    hide DispatchError;
    assert forall i :: 0 <= i < |mid.rpcs| ==> Pending(mid.rpcs[i]) || Resolved(mid.rpcs[i]);
  }

  /** The loop has ended with `e` and the session is closed; `mid` is the state that the error hit. */
  ghost predicate EndedBy(s: Sys, mid: Sys, s': Sys, e: Error) {
    !s'.alive && !s'.connected && s'.closing && Drained(s.Core(), mid.Core(), s'.Core(), e)
  }

  lemma FailDrains(s: Sys, mid: Sys, e: Error)
    requires Inv(mid.Core()) && Follows(s.Core(), mid.Core()) && |mid.Core().rpcs| == |s.Core().rpcs|
    ensures EndedBy(s, mid, Settle(mid, Raise(e)), e)
  {
    hide Inv, Follows, Drained, DispatchError;
    ErrorDrains(s.Core(), mid.Core(), e);
  }

  /** However a turn of the loop fails, the loop ends, the session is closed and the requests are drained. */
  lemma FailureDrains(dev: Device, s: Sys, input: Input, ready: bool, writes: seq<int>)
    requires SysInv(dev, s) && s.alive
    ensures InRange(s.Core()) && -1 <= s.Core().msgId
    ensures var (mid, exit) := Turn(dev, s, input, ready, writes);
            exit.Raise? ==> EndedBy(s, mid, Step(dev, s, Loop(input, ready, writes)), exit.error)
  {
    CoreInvImpliesInv(dev, s);
    hide Turn, CoreInv, WireInv, ParserInv, EndedBy, Settle, Inv, Follows, Step;
    LoopKeepsCoreInv(dev, s, input, ready, writes);
    LoopStep(dev, s, input, ready, writes);
    var (mid, exit) := Turn(dev, s, input, ready, writes);
    CoreInvImpliesInv(dev, mid);
    if exit.Raise? {
      FailDrains(s, mid, exit.error);
    }
  }

  lemma LoopStep(dev: Device, s: Sys, input: Input, ready: bool, writes: seq<int>)
    requires InRange(s.Core()) && -1 <= s.Core().msgId && s.alive
    ensures var (mid, exit) := Turn(dev, s, input, ready, writes);
            Step(dev, s, Loop(input, ready, writes)) == Settle(mid, exit)
  {
    hide Turn, Settle;
  }

  lemma CoreInvImpliesInv(dev: Device, s: Sys)
    requires CoreInv(dev, s)
    ensures Inv(s.Core())
  {
  }

  // Why a turn fails

  /** A read ends the stream though nobody closed the session. */
  predicate ReadFails(s: Sys, input: Input) {
    input == Read("") && !s.closing
  }

  /** A message that the read completes raises. */
  predicate DispatchFails(dev: Device, s: Sys, input: Input)
    requires InRange(s.Core())
  {
    input.Read? && input.data != "" && DispatchAll(dev, s.Core(), MessagesRead(s.inb, input.data)).1.Some?
  }

  /** A message is due, and a write takes nothing before all of it is out. */
  ghost predicate WriteFails(s: Sys, input: Input, ready: bool, writes: seq<int>) {
    && input != Read("") && s.queue != [] && ready
    && exists k: nat :: RefusedAt(Frame(s.inb.base, s.queue[0]), writes, k)
  }

  lemma ReceiveRaisesIff(dev: Device, s: Sys, input: Input)
    requires SysInv(dev, s) && s.alive
    ensures InRange(s.Core())
    ensures var (mid, exit) := Receive(dev, s, input);
            && mid.queue == s.queue && mid.inb.base == s.inb.base && mid.closing == s.closing
            && (exit.Raise? <==> ReadFails(s, input) || DispatchFails(dev, s, input))
            && (exit.Break? <==> input == Read("") && s.closing)
            && (ReadFails(s, input) ==> mid == s && exit.error == SessionClosed(s.inb.buffer, ""))
            && (input.Read? && input.data != "" ==>
                  var (c, e) := DispatchAll(dev, s.Core(), MessagesRead(s.inb, input.data));
                  mid.Core() == c && (exit.Raise? ==> e == Some(exit.error)))
  {
    CoreInvImpliesInv(dev, s);
    hide CoreInv, WireInv, Inv, Parse, DispatchAll, MessagesRead, Resumable;
    if input.Read? && input.data != "" {
      ReadDispatches(dev, s.inb, input.data);
    }
  }

  lemma TransmitRaisesIff(s: Sys, input: Input, ready: bool, writes: seq<int>)
    requires input != Read("")
    ensures Transmit(s, ready, writes).1.Raise? <==> WriteFails(s, input, ready, writes)
    ensures !Transmit(s, ready, writes).1.Break?
    ensures forall k: nat :: s.queue != [] && ready && RefusedAt(Frame(s.inb.base, s.queue[0]), writes, k) ==>
              var frame, n := Frame(s.inb.base, s.queue[0]), Sum(writes[..k]);
              && 0 <= n < |frame|
              && Transmit(s, ready, writes).1 == Raise(SessionClosed(s.inb.buffer, frame[n..]))
              && Transmit(s, ready, writes).0.written == s.written + frame[..n]
  {
    hide SendAll, RefusedAt, Sum, Frame;
    if s.queue != [] && ready {
      SendAllStopsIff(Frame(s.inb.base, s.queue[0]), writes);
    }
  }

  /** A turn raises exactly for one of three causes: the stream ended unexpectedly, a message read raises, or a
      write is refused before the frame is out. */
  lemma TurnRaisesIff(dev: Device, s: Sys, input: Input, ready: bool, writes: seq<int>)
    requires SysInv(dev, s) && s.alive
    ensures InRange(s.Core())
    ensures Turn(dev, s, input, ready, writes).1.Raise? <==>
            ReadFails(s, input) || DispatchFails(dev, s, input) || WriteFails(s, input, ready, writes)
  {
    ReceiveRaisesIff(dev, s, input);
    hide SysInv, Receive, DispatchFails, Transmit, RefusedAt;
    var (mid, exit) := Receive(dev, s, input);
    if exit == Continue {
      TransmitRaisesIff(mid, input, ready, writes);
    }
  }

  // Each cause drains the requests

  /** The stream ends unexpectedly: every pending request gets the error. */
  lemma ShortReadDrains(dev: Device, s: Sys, ready: bool, writes: seq<int>)
    requires SysInv(dev, s) && s.alive && !s.closing
    ensures InRange(s.Core()) && -1 <= s.Core().msgId
    ensures EndedBy(s, s, Step(dev, s, Loop(Read(""), ready, writes)), SessionClosed(s.inb.buffer, ""))
  {
    hide SysInv, EndedBy;
    FailureDrains(dev, s, Read(""), ready, writes);
  }

  /** A write is refused after the bytes before it went out: every request still pending gets the error, which
      holds the bytes that did not. */
  lemma RefusedWriteDrains(dev: Device, s: Sys, input: Input, ready: bool, writes: seq<int>, k: nat)
    requires SysInv(dev, s) && s.alive && s.queue != [] && ready
    requires RefusedAt(Frame(s.inb.base, s.queue[0]), writes, k)
    requires input != Read("") && InRange(s.Core()) && !DispatchFails(dev, s, input)
    ensures -1 <= s.Core().msgId
    ensures var frame, n := Frame(s.inb.base, s.queue[0]), Sum(writes[..k]);
            var mid := Receive(dev, s, input).0;
            var s' := Step(dev, s, Loop(input, ready, writes));
            && 0 <= n < |frame| && s'.written == mid.written + frame[..n]
            && EndedBy(s, mid, s', SessionClosed(mid.inb.buffer, frame[n..]))
  {
    FailureDrains(dev, s, input, ready, writes);
    ReceiveRaisesIff(dev, s, input);
    TurnCore(dev, s, input, ready, writes);
    hide SysInv, Receive, DispatchFails, Transmit, RefusedAt, Frame, Drained, Sum, DispatchError;
    TransmitRaisesIff(Receive(dev, s, input).0, input, ready, writes);
  }

  /** With a device handler that refuses no message, as the default one, what a failing turn leaves with
      a pending request is the error that ended the loop, or a genuine reply received in that turn. */
  lemma FailureReachesPending(dev: Device, s: Sys, input: Input, ready: bool, writes: seq<int>, i: nat)
    requires SysInv(dev, s) && s.alive && i < |s.Core().rpcs| && Pending(s.Core().rpcs[i])
    requires forall raw :: !dev.handleRaw(raw).Refused?
    ensures var exit := Turn(dev, s, input, ready, writes).1;
            var s' := Step(dev, s, Loop(input, ready, writes));
            exit.Raise? ==>
              i < |s'.Core().rpcs| &&
              var r' := s'.Core().rpcs[i];
              || (r'.reply.None? && r'.error == Some(exit.error))
              || (r'.error.None? && r'.reply.Some?
                  && RootOf(dev, r'.reply.value) == Some(Root(ReplyTag, Some(Dec(i)))))
  {
    FailureDrains(dev, s, input, ready, writes);
    StepKeepsCoreInv(dev, s, Loop(input, ready, writes));
    ReceivedNoError(dev, s, input, i);
    TurnCore(dev, s, input, ready, writes);
    hide SysInv, CoreInv, Inv, Receive, Turn, Step, Follows, RootOf;
    if Turn(dev, s, input, ready, writes).1.Raise? {
      GenuineReply(dev, Step(dev, s, Loop(input, ready, writes)), i);
    }
  }

  lemma GenuineReply(dev: Device, s: Sys, i: nat)
    requires CoreInv(dev, s) && i < |s.Core().rpcs|
    ensures var r := s.Core().rpcs[i];
            r.reply.Some? ==> RootOf(dev, r.reply.value) == Some(Root(ReplyTag, Some(Dec(i))))
  {
    hide RootOf, Dec;
    assert Genuine(dev, s.Core().log, s.Core().rpcs[i]);
  }

  lemma ReceivedNoError(dev: Device, s: Sys, input: Input, i: nat)
    requires CoreInv(dev, s) && i < |s.Core().rpcs| && s.Core().rpcs[i].error.None?
    requires forall raw :: !dev.handleRaw(raw).Refused?
    ensures InRange(s.Core())
    ensures var c := Receive(dev, s, input).0.Core();
            i < |c.rpcs| && c.rpcs[i].error.None?
  {
    CoreInvImpliesInv(dev, s);
    hide CoreInv, Parse, DispatchAll;
    if input.Read? && input.data != "" {
      var ms := ParseDispatches(dev, s.inb, input.data);
      NoRefusalNoError(dev, s.Core(), ms, i);
    }
  }

  lemma DispatchNoError(dev: Device, c: Core, raw: string, i: nat)
    requires InRange(c) && i < |c.rpcs| && c.rpcs[i].error.None?
    requires !dev.handleRaw(raw).Refused?
    ensures i < |Dispatch(dev, c, raw).0.rpcs| && Dispatch(dev, c, raw).0.rpcs[i].error.None?
  {
  }

  lemma {:induction false} NoRefusalNoError(dev: Device, c: Core, ms: seq<string>, i: nat)
    requires InRange(c) && i < |c.rpcs| && c.rpcs[i].error.None?
    requires forall raw :: !dev.handleRaw(raw).Refused?
    ensures i < |DispatchAll(dev, c, ms).0.rpcs| && DispatchAll(dev, c, ms).0.rpcs[i].error.None?
    decreases |ms|
  {
    if ms != [] {
      DispatchInRange(dev, c, ms[0]);
      DispatchNoError(dev, c, ms[0], i);
      if Dispatch(dev, c, ms[0]).1.None? {
        NoRefusalNoError(dev, Dispatch(dev, c, ms[0]).0, ms[1..], i);
      }
    }
  }

  predicate IsReply(dev: Device, raw: string) {
    RootOf(dev, raw).Some? && RootOf(dev, raw).value.tag == ReplyTag
  }

  /** Dispatching a reply that names no pending request raises. */
  lemma BadReplyRaises(dev: Device, c: Core, before: seq<string>, raw: string, after: seq<string>)
    requires Inv(c) && Replies in c.listeners && IsReply(dev, raw)
    requires NamesNoPending(DispatchAll(dev, c, before).0, RootOf(dev, raw).value.messageId)
    ensures var e := DispatchAll(dev, c, before + [raw] + after).1;
            && e.Some?
            && (DispatchAll(dev, c, before).1.None? ==> e.value == BadId(RootOf(dev, raw).value.messageId))
  {
    DispatchAllKeepsInv(dev, c, before);
    DispatchAllKeepsListeners(dev, c, before);
    var (c', e) := DispatchAll(dev, c, before);
    assert before + [raw] + after == before + ([raw] + after);
    DispatchAllConcat(dev, c, before, [raw] + after);
    if e.None? {
      DispatchAllConcat(dev, c', [raw], after);
      BadReplyRefused(dev, c', raw);
    }
  }

  lemma BadReplyRefused(dev: Device, c: Core, raw: string)
    requires Inv(c) && Replies in c.listeners && IsReply(dev, raw)
    requires NamesNoPending(c, RootOf(dev, raw).value.messageId)
    ensures DispatchAll(dev, c, [raw]).1 == Some(BadId(RootOf(dev, raw).value.messageId))
  {
    var root, d := RootOf(dev, raw).value, c.(log := c.log + [raw]);
    InvLocal(c, d);
    ReplyAcceptedIff(d, root, raw);
    assert Dispatch(dev, c, raw) == ReplyCallback(d, root, raw);
    hide Dispatch, ReplyCallback, Inv, RootOf;
    assert [raw][1..] == [];
  }

  lemma {:induction false} DispatchAllKeepsListeners(dev: Device, c: Core, ms: seq<string>)
    requires InRange(c)
    ensures DispatchAll(dev, c, ms).0.listeners == c.listeners
    decreases |ms|
  {
    if ms != [] {
      DispatchInRange(dev, c, ms[0]);
      if Dispatch(dev, c, ms[0]).1.None? {
        DispatchAllKeepsListeners(dev, Dispatch(dev, c, ms[0]).0, ms[1..]);
      }
    }
  }

  /** Dispatching two replies to one id raises, wherever they stand. */
  lemma DuplicateReplyRaises(dev: Device, c: Core, a: seq<string>, m: string, b: seq<string>, m': string,
                             d: seq<string>)
    requires Inv(c) && Replies in c.listeners && IsReply(dev, m) && RootOf(dev, m') == RootOf(dev, m)
    ensures DispatchAll(dev, c, (a + [m] + b) + [m'] + d).1.Some?
  {
    var before := a + [m] + b;
    assert InRange(c);
    DispatchAllConcat(dev, c, before + [m'], d);
    DispatchAllConcat(dev, c, before, [m']);
    if DispatchAll(dev, c, before).1.None? {
      hide RootOf, Inv, DispatchAll;
      AnsweredNotPending(dev, c, a, m, b);
      BadReplyRaises(dev, c, before, m', d);
    }
  }

  /** After a reply was dispatched without an exception, its id names no pending request. */
  lemma AnsweredNotPending(dev: Device, c: Core, a: seq<string>, m: string, b: seq<string>)
    requires Inv(c) && Replies in c.listeners && IsReply(dev, m)
    requires DispatchAll(dev, c, a + [m] + b).1.None?
    ensures NamesNoPending(DispatchAll(dev, c, a + [m] + b).0, RootOf(dev, m).value.messageId)
  {
    var root := RootOf(dev, m).value;
    assert InRange(c);
    DispatchAllConcat(dev, c, a + [m], b);
    DispatchAllConcat(dev, c, a, [m]);
    DispatchAllKeepsInv(dev, c, a);
    DispatchAllKeepsListeners(dev, c, a);
    var c1 := DispatchAll(dev, c, a).0;
    var c2 := DispatchAll(dev, c1, [m]).0;
    AnsweredOnce(dev, c1, m);
    DispatchAllKeepsInv(dev, c2, b);
    DispatchAllAddsNone(dev, c2, b);
    var c3 := DispatchAll(dev, c2, b).0;
    hide DispatchAll, Inv, RootOf, Pending;
    forall i | 0 <= i < |c3.rpcs| && root.messageId == Some(Dec(i))
      ensures !Pending(c3.rpcs[i])
    {
      assert Resolved(c2.rpcs[i]);
      ResolvedNotPending(c3.rpcs[i]);
    }
  }

  /** The request that a reply accepted names has its outcome. */
  lemma AnsweredOnce(dev: Device, c: Core, m: string)
    requires Inv(c) && Replies in c.listeners && IsReply(dev, m)
    requires DispatchAll(dev, c, [m]).1.None?
    ensures var c' := DispatchAll(dev, c, [m]).0;
            && Inv(c') && |c'.rpcs| == |c.rpcs|
            && forall i :: 0 <= i < |c'.rpcs| && RootOf(dev, m).value.messageId == Some(Dec(i)) ==> Resolved(c'.rpcs[i])
  {
    DispatchAllKeepsInv(dev, c, [m]);
    DispatchAllAddsNone(dev, c, [m]);
    assert [m][1..] == [];
    var root, d := RootOf(dev, m).value, c.(log := c.log + [m]);
    assert DispatchAll(dev, c, [m]) == Dispatch(dev, c, m) == ReplyCallback(d, root, m);
    InvLocal(c, d);
    hide Dispatch, DispatchAll, ReplyCallback, Inv, RootOf;
    forall i | 0 <= i < |d.rpcs| && root.messageId == Some(Dec(i))
      ensures Resolved(ReplyCallback(d, root, m).0.rpcs[i])
    {
      AnsweredIsResolved(d, root, m, i);
    }
  }

  lemma AnsweredIsResolved(c: Core, root: Root, raw: string, i: nat)
    requires Inv(c) && root.tag == ReplyTag && root.messageId == Some(Dec(i)) && i < |c.rpcs|
    requires InRange(c) && ReplyCallback(c, root, raw).1.None?
    ensures |ReplyCallback(c, root, raw).0.rpcs| == |c.rpcs| && Resolved(ReplyCallback(c, root, raw).0.rpcs[i])
  {
    ReplyAcceptedIff(c, root, raw);
    var j :| 0 <= j < |c.rpcs| && root.messageId == Some(Dec(j)) && Pending(c.rpcs[j]);
    DecInjective(i, j);
  }

  /** A reply is read whose id is missing, unknown, or that of a request already resolved, alone or among other
      messages, under either framing: the loop ends and every pending request gets the error. */
  lemma BadReplyDrains(dev: Device, s: Sys, data: string, ready: bool, writes: seq<int>,
                       before: seq<string>, raw: string, after: seq<string>)
    requires SysInv(dev, s) && s.alive && Replies in s.Core().listeners && IsReply(dev, raw)
    requires data != "" && MessagesRead(s.inb, data) == before + [raw] + after
    requires InRange(s.Core())
    requires NamesNoPending(DispatchAll(dev, s.Core(), before).0, RootOf(dev, raw).value.messageId)
    ensures -1 <= s.Core().msgId
    ensures var (mid, exit) := Turn(dev, s, Read(data), ready, writes);
            && exit.Raise? && EndedBy(s, mid, Step(dev, s, Loop(Read(data), ready, writes)), exit.error)
            && (DispatchAll(dev, s.Core(), before).1.None? ==> exit.error == BadId(RootOf(dev, raw).value.messageId))
  {
    CoreInvImpliesInv(dev, s);
    FailureDrains(dev, s, Read(data), ready, writes);
    ReceiveRaisesIff(dev, s, Read(data));
    hide SysInv, Inv, Receive, Drained, DispatchAll, RootOf, Step, NamesNoPending, MessagesRead;
    BadReplyRaises(dev, s.Core(), before, raw, after);
  }

  /** Two replies to one id in one read do the same. */
  lemma DuplicateReplyDrains(dev: Device, s: Sys, data: string, ready: bool, writes: seq<int>,
                             a: seq<string>, m: string, b: seq<string>, m': string, d: seq<string>)
    requires SysInv(dev, s) && s.alive && Replies in s.Core().listeners
    requires IsReply(dev, m) && RootOf(dev, m') == RootOf(dev, m)
    requires data != "" && MessagesRead(s.inb, data) == (a + [m] + b) + [m'] + d
    ensures InRange(s.Core()) && -1 <= s.Core().msgId
    ensures var (mid, exit) := Turn(dev, s, Read(data), ready, writes);
            exit.Raise? && EndedBy(s, mid, Step(dev, s, Loop(Read(data), ready, writes)), exit.error)
  {
    CoreInvImpliesInv(dev, s);
    FailureDrains(dev, s, Read(data), ready, writes);
    ReceiveRaisesIff(dev, s, Read(data));
    hide SysInv, Inv, Receive, Drained, DispatchAll, RootOf, Step, MessagesRead;
    DuplicateReplyRaises(dev, s.Core(), a, m, b, m', d);
  }

  lemma EndedLoopStep(dev: Device, s: Sys, ev: Event, i: nat)
    requires Inv(s.Core()) && !s.alive && i < |s.Core().rpcs| && Pending(s.Core().rpcs[i])
    ensures var s' := Step(dev, s, ev);
            !s'.alive && i < |s'.Core().rpcs| && Pending(s'.Core().rpcs[i])
  {
  }

  /** Once the loop has ended no request is ever resolved, whatever the other threads do. */
  lemma {:induction false} EndedLoopResolvesNothing(dev: Device, s: Sys, events: seq<Event>, i: nat)
    requires Inv(s.Core()) && !s.alive && i < |s.Core().rpcs| && Pending(s.Core().rpcs[i])
    ensures i < |Run(dev, s, events).Core().rpcs| && Pending(Run(dev, s, events).Core().rpcs[i])
    decreases |events|
  {
    if events != [] {
      StepKeepsRunnable(dev, s, events[0]);
      EndedLoopStep(dev, s, events[0], i);
      EndedLoopResolvesNothing(dev, Step(dev, s, events[0]), events[1..], i);
    }
  }

  /** The expected end of a session, a closed stream after `close`, resolves no request: those pending
      then stay pending for ever.  This is the one way the loop ends without draining the table. */
  lemma CleanExitAbandons(dev: Device, s: Sys, ready: bool, writes: seq<int>, events: seq<Event>, i: nat)
    requires SysInv(dev, s) && s.alive && s.closing && i < |s.Core().rpcs| && Pending(s.Core().rpcs[i])
    ensures var s' := Step(dev, s, Loop(Read(""), ready, writes));
            !s'.alive && Inv(s'.Core()) &&
            i < |Run(dev, s', events).Core().rpcs| && Pending(Run(dev, s', events).Core().rpcs[i])
  {
    EndedLoopResolvesNothing(dev, Step(dev, s, Loop(Read(""), ready, writes)), events, i);
  }

  lemma TurnBreaks(dev: Device, s: Sys, input: Input, ready: bool, writes: seq<int>)
    requires InRange(s.Core())
    ensures Turn(dev, s, input, ready, writes).1 == Break <==> input == Read("") && s.closing
  {
  }

  /** A loop that ends by itself ends in one of these two ways. */
  lemma LoopEnds(dev: Device, s: Sys, ev: Event)
    requires SysInv(dev, s) && s.alive && !Step(dev, s, ev).alive
    ensures ev.Loop?
    ensures if ev.input == Read("") && s.closing then Step(dev, s, ev).Core() == s.Core()
            else Step(dev, s, ev).Core().table == map[]
  {
    assert Inv(s.Core());
    if !(ev.input == Read("") && s.closing) {
      TurnBreaks(dev, s, ev.input, ev.ready, ev.writes);
      hide Turn, SysInv;
      FailureDrains(dev, s, ev.input, ev.ready, ev.writes);
    }
  }

  /** Nobody answers, the session is closed, the stream ends: request 0 waits for ever. */
  lemma CleanExitExample(dev: Device, events: seq<Event>)
    ensures Inv(Initial().Core())
    ensures var s := Run(dev, Initial(), [Construct, Close, Loop(Read(""), false, [])] + events);
            |s.Core().rpcs| > 0 && Pending(s.Core().rpcs[0])
  {
    var (s0, close, end) := (Initial(), Close, Loop(Read(""), false, []));
    var s1 := Step(dev, s0, Construct);
    var s2 := Step(dev, s1, close);
    assert Inv(s0.Core());
    StepKeepsRunnable(dev, s0, Construct);
    StepKeepsRunnable(dev, s1, close);
    StepKeepsRunnable(dev, s2, end);
    assert !Step(dev, s2, end).alive && Pending(Step(dev, s2, end).Core().rpcs[0]);
    hide Step, Inv, Initial, Pending;
    assert [Construct, close, end] + events == [Construct] + ([close] + ([end] + events));
    RunCons(dev, s0, Construct, [close] + ([end] + events));
    RunCons(dev, s1, close, [end] + events);
    RunCons(dev, s2, end, events);
    EndedLoopResolvesNothing(dev, Step(dev, s2, end), events, 0);
  }

  lemma RunCons(dev: Device, s: Sys, ev: Event, events: seq<Event>)
    requires Inv(s.Core())
    ensures Inv(Step(dev, s, ev).Core()) && Run(dev, s, [ev] + events) == Run(dev, Step(dev, s, ev), events)
  {
    StepKeepsRunnable(dev, s, ev);
    assert ([ev] + events)[1..] == events;
    hide Step, Inv;
  }

  // Misplaced text under chunked framing

  /** The buffer starts with text that is no token and never becomes one. */
  predicate Wedged(s: Sys) {
    s.inb.base == Base11 && Chunked.Misplaced(s.inb.buffer)
  }

  /** Then a read neither dispatches a message nor raises. */
  lemma WedgedReceive(dev: Device, s: Sys, input: Input)
    requires InRange(s.Core()) && Wedged(s)
    ensures var (mid, exit) := Receive(dev, s, input);
            && Wedged(mid) && mid.Core() == s.Core()
            && (exit.Raise? <==> ReadFails(s, input)) && (exit.Break? <==> input == Read("") && s.closing)
  {
    hide Parse, Chunked.Misplaced, InRange;
    if input.Read? && input.data != "" {
      MisplacedRead(dev, s.inb, input.data);
    }
  }

  /** From `s` to `s'` nothing was dispatched and no request got a reply; those pending in `s` are pending still
      while the loop lives. */
  ghost predicate Stalled(s: Sys, s': Sys) {
    && s'.Core().log == s.Core().log
    && |s.Core().rpcs| <= |s'.Core().rpcs|
    && forall i :: 0 <= i < |s.Core().rpcs| ==>
         && s'.Core().rpcs[i].reply == s.Core().rpcs[i].reply
         && (s'.alive && Pending(s.Core().rpcs[i]) ==> Pending(s'.Core().rpcs[i]))
  }

  lemma WedgedStep(dev: Device, s: Sys, ev: Event)
    requires Inv(s.Core()) && Wedged(s)
    ensures Wedged(Step(dev, s, ev)) && Stalled(s, Step(dev, s, ev))
    ensures Step(dev, s, ev).alive ==> s.alive
  {
    hide Chunked.Misplaced;
    match ev
    case Loop(input, ready, writes) =>
      if s.alive {
        WedgedReceive(dev, s, input);
        TurnCore(dev, s, input, ready, writes);
        LoopStep(dev, s, input, ready, writes);
        WedgedTurn(dev, s, input, ready, writes);
        hide Turn, Receive, Step, Inv;
        var (mid, exit) := Turn(dev, s, input, ready, writes);
        WedgedSettle(s, mid, exit);
      }
    case _ =>
  }

  lemma WedgedTurn(dev: Device, s: Sys, input: Input, ready: bool, writes: seq<int>)
    requires InRange(s.Core()) && Wedged(s) && s.alive
    ensures var mid := Turn(dev, s, input, ready, writes).0;
            Wedged(mid) && mid.Core() == s.Core() && mid.alive
  {
    hide Chunked.Misplaced, Parse, SendAll, Frame;
    WedgedReceive(dev, s, input);
  }

  lemma WedgedSettle(s: Sys, mid: Sys, exit: Exit)
    requires Wedged(mid) && mid.Core() == s.Core() && s.alive
    ensures Wedged(Settle(mid, exit)) && Stalled(s, Settle(mid, exit))
  {
    hide Chunked.Misplaced;
  }

  lemma StalledTransitive(a: Sys, b: Sys, c: Sys)
    requires Stalled(a, b) && Stalled(b, c) && (c.alive ==> b.alive)
    ensures Stalled(a, c)
  {
  }

  /** Misplaced text at the front of the buffer stops a chunked session for good: along every run nothing more is
      dispatched, so that no pending request gets a reply, and each stays pending until the loop ends, which a read
      of more text never makes it do (`WedgedReceive`). */
  lemma {:induction false} WedgedRun(dev: Device, s: Sys, events: seq<Event>)
    requires Inv(s.Core()) && Wedged(s)
    ensures var s' := Run(dev, s, events); Wedged(s') && Stalled(s, s') && (s'.alive ==> s.alive)
    decreases |events|
  {
    if events != [] {
      StepKeepsRunnable(dev, s, events[0]);
      WedgedStep(dev, s, events[0]);
      hide Step, Inv, Wedged, Stalled;
      var s1 := Step(dev, s, events[0]);
      WedgedRun(dev, s1, events[1..]);
      StalledTransitive(s, s1, Run(dev, s1, events[1..]));
    }
  }

  /** A peer that answers without a chunk header where one is due: its reply to request 0 is never read. */
  lemma MisplacedExample(dev: Device, reply: string, events: seq<Event>)
    ensures Inv(Initial().Core())
    ensures var s := Run(dev, Initial(), [Construct, SelectBase11, Loop(Read("<" + reply), false, [])] + events);
            |s.Core().rpcs| > 0 && s.Core().rpcs[0].reply.None? && (s.alive ==> Pending(s.Core().rpcs[0]))
  {
    var (s0, select, read) := (Initial(), SelectBase11, Loop(Read("<" + reply), false, []));
    var s1 := Step(dev, s0, Construct);
    var s2 := Step(dev, s1, select);
    assert Inv(s0.Core());
    StepKeepsRunnable(dev, s0, Construct);
    StepKeepsRunnable(dev, s1, select);
    StepKeepsRunnable(dev, s2, read);
    assert s2.alive && s2.inb.base == Base11 && s2.inb.buffer == "" && |s2.Core().rpcs| == 1;
    assert Pending(s2.Core().rpcs[0]) && s2.Core().rpcs[0].reply.None?;
    hide Step, Inv, Initial, Wedged, Pending, Turn;
    FirstReadWedges(dev, s2, "<" + reply) by {
      Chunked.MisplacedExamples();
      Chunked.MisplacedStays("<", reply);
    }
    var s3 := Step(dev, s2, read);
    assert [Construct, select, read] + events == [Construct] + ([select] + ([read] + events));
    RunCons(dev, s0, Construct, [select] + ([read] + events));
    RunCons(dev, s1, select, [read] + events);
    RunCons(dev, s2, read, events);
    WedgedRun(dev, s3, events);
  }

  lemma FirstReadWedges(dev: Device, s: Sys, data: string)
    requires InRange(s.Core()) && -1 <= s.Core().msgId
    requires s.alive && s.inb.base == Base11 && s.inb.buffer == ""
    requires data != "" && Chunked.Misplaced(data)
    ensures var s' := Step(dev, s, Loop(Read(data), false, []));
            Wedged(s') && s'.Core() == s.Core()
  {
    hide Parse, Chunked.Misplaced, InRange;
    assert "" + data == data;
    MisplacedRead(dev, s.inb, data);
  }
}
