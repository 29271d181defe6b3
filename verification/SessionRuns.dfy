/**
 A session as a step system.  The main loop and the threads that use the session take turns; a step
 is one of their operations, taken as atomic.  Reads, write results and the order of the steps are
 free, so that a statement about all runs covers every schedule and every peer.
 */
module SessionRuns {
  import opened Strings
  import opened Correlation
  import opened Receiving
  import Chunked = ChunkedFraming
  import Eom = EomFraming

  /**
   `sent`, `bases`, `written` and `taken` are histories: what `send` accepted, the framing chosen for
   each message that left the queue, the bytes the transport accepted, and the notifications taken.
   */
  datatype Sys = Sys(inb: Inbound, queue: seq<string>, alive: bool, connected: bool, closing: bool,
                     sent: seq<string>, bases: seq<Base>, written: string, taken: seq<string>)
  {
    function Core(): Core {
      inb.core
    }
  }

  /** A session whose transport is up and whose main loop starts. */
  function Initial(): Sys {
    Sys(Inbound(Correlation.Core(-1, {Notifications}, [], map[], [], []), Base10, "", [], 0),
        [], true, true, false, [], [], "", [])
  }

  // The main loop

  function Frame(base: Base, m: string): string {
    if base == Base11 then Chunked.Frame(m) else Eom.Frame(m)
  }

  /** `while data: n = write(data); data = data[n:]`, where `writes` are the results of the calls and
      a result of at most zero raises.  Gives what was accepted and what was not.  Once `writes` is used
      up, a call accepts everything. */
  function SendAll(data: string, writes: seq<int>): (string, string)
    decreases |data|
  {
    if data == "" then ("", "")
    else if writes == [] then (data, "")
    else if writes[0] <= 0 then ("", data)
    else if writes[0] >= |data| then (data, "")
    else
      var n := writes[0];
      var (done, left) := SendAll(data[n..], writes[1..]);
      (data[..n] + done, left)
  }

  /** What `select` and the read gave: nothing to read, or a read, empty at the end of the stream. */
  datatype Input = Quiet | Read(data: string)

  datatype Exit = Continue | Break | Raise(error: Error)

  function Receive(dev: Device, s: Sys, input: Input): (r: (Sys, Exit))
    requires InRange(s.Core())
    ensures InRange(r.0.Core())
  {
    match input
    case Quiet => (s, Continue)
    case Read(data) =>
      if data != "" then
        var (inb', e) := Parse(dev, s.inb, data);
        (s.(inb := inb'), if e.Some? then Raise(e.value) else Continue)
      else if s.closing then (s, Break)
      else (s, Raise(SessionClosed(s.inb.buffer, "")))
  }

  function Transmit(s: Sys, ready: bool, writes: seq<int>): (Sys, Exit) {
    if s.queue == [] || !ready then (s, Continue)
    else
      var (done, left) := SendAll(Frame(s.inb.base, s.queue[0]), writes);
      var s' := s.(queue := s.queue[1..], bases := s.bases + [s.inb.base], written := s.written + done);
      (s', if left == "" then Continue else Raise(SessionClosed(s.inb.buffer, left)))
  }

  /** One turn of the loop. */
  function Turn(dev: Device, s: Sys, input: Input, ready: bool, writes: seq<int>): (r: (Sys, Exit))
    requires InRange(s.Core())
    ensures InRange(r.0.Core())
  {
    var (s', exit) := Receive(dev, s, input);
    if exit == Continue then Transmit(s', ready, writes) else (s', exit)
  }

  /** The handler around the loop: tell every listener, and close. */
  function Fail(s: Sys, e: Error): Sys {
    s.(inb := s.inb.(core := DispatchError(s.Core(), e)), alive := false, connected := false, closing := true)
  }

  /** How a turn leaves the session. */
  function Settle(s: Sys, exit: Exit): Sys {
    match exit
    case Continue => s
    case Break => s.(alive := false)
    case Raise(e) => Fail(s, e)
  }

  // Steps

  datatype Event =
    | Construct
    | Send(message: string)
    | Take
    | SelectBase11
    | Close
    | Loop(input: Input, ready: bool, writes: seq<int>)

  function Step(dev: Device, s: Sys, ev: Event): (s': Sys)
    requires InRange(s.Core()) && -1 <= s.Core().msgId
    ensures InRange(s'.Core())
  {
    match ev
    case Construct => s.(inb := s.inb.(core := NewRpc(s.Core())))
    case Send(m) => if s.connected then s.(queue := s.queue + [m], sent := s.sent + [m]) else s
    case Take =>
      var ns := s.Core().notifications;
      if ns == [] then s
      else s.(inb := s.inb.(core := s.Core().(notifications := ns[1..])), taken := s.taken + [ns[0]])
    case SelectBase11 => s.(inb := s.inb.(base := Base11))
    case Close => s.(closing := true, connected := false)
    case Loop(input, ready, writes) =>
      if !s.alive then s
      else
        var (s', exit) := Turn(dev, s, input, ready, writes);
        Settle(s', exit)
  }

  // What the main loop does to the requests

  lemma {:induction false} Parse10Dispatches(dev: Device, s: Inbound) returns (ms: seq<string>)
    requires InRange(s.core)
    ensures var (s', e) := Parse10(dev, s); (s'.core, e) == DispatchAll(dev, s.core, ms) && s'.base == s.base
    decreases |s.buffer|
  {
    hide Eom.FindFrom, Eom.Find, Dispatch, Strip, Parse10, InRange;
    ms := [];
    Parse10Round(dev, s);
    if Eom.FindFrom(s.buffer, s.pos).Some? {
      var i := Eom.Find(s.buffer).value;
      var m, remaining := Strip(s.buffer[..i]), s.buffer[i + 6..];
      var (c, e) := Dispatch(dev, s.core, m);
      if e.None? && Strip(remaining) != "" {
        ms := Parse10Dispatches(dev, s.(core := c, buffer := remaining, pos := 0));
      }
      DispatchFirst(dev, s.core, m, ms);
      ms := [m] + ms;
    }
  }

  /** Whatever the state of the parser, a read dispatches some messages one after the other. */
  lemma ParseDispatches(dev: Device, s: Inbound, data: string) returns (ms: seq<string>)
    requires InRange(s.core)
    ensures var (s', e) := Parse(dev, s, data); (s'.core, e) == DispatchAll(dev, s.core, ms) && s'.base == s.base
  {
    var s' := s.(buffer := s.buffer + data);
    if data == "" {
      ms := [];
    } else if s.base == Base11 {
      Parse11Scans(dev, s');
      ms := Chunked.Scan(s'.fragments, s'.buffer).messages;
    } else {
      ms := Parse10Dispatches(dev, s');
    }
  }

  /** What holds of the requests and notifications in every reachable state. */
  ghost predicate CoreInv(dev: Device, s: Sys) {
    var c := s.Core();
    && Inv(c)
    && RepliesGenuine(dev, c)
    && Notifications in c.listeners
    && s.taken + c.notifications == NotificationsIn(dev, c.log)
  }

  lemma DispatchKeepsCoreInv(dev: Device, s: Sys, raw: string)
    requires CoreInv(dev, s)
    ensures CoreInv(dev, s.(inb := s.inb.(core := Dispatch(dev, s.Core(), raw).0)))
  {
    var c := s.Core();
    DispatchKeepsInv(dev, c, raw);
    DispatchKeepsRepliesGenuine(dev, c, raw);
    DispatchQueuesNotifications(dev, c, raw);
    var log' := c.log + [raw];
    assert log'[..|log'| - 1] == c.log;
    var added := if IsNotification(dev, raw) then [raw] else [];
    assert s.taken + (c.notifications + added) == (s.taken + c.notifications) + added;
  }

  lemma {:induction false} DispatchAllKeepsCoreInv(dev: Device, s: Sys, ms: seq<string>)
    requires CoreInv(dev, s)
    ensures CoreInv(dev, s.(inb := s.inb.(core := DispatchAll(dev, s.Core(), ms).0)))
    decreases |ms|
  {
    if ms != [] {
      DispatchKeepsCoreInv(dev, s, ms[0]);
      var (c, e) := Dispatch(dev, s.Core(), ms[0]);
      if e.None? {
        DispatchAllKeepsCoreInv(dev, s.(inb := s.inb.(core := c)), ms[1..]);
      }
    }
  }

  lemma ReceiveKeepsCoreInv(dev: Device, s: Sys, input: Input)
    requires CoreInv(dev, s)
    ensures CoreInv(dev, Receive(dev, s, input).0)
    ensures Follows(s.Core(), Receive(dev, s, input).0.Core())
    ensures |Receive(dev, s, input).0.Core().rpcs| == |s.Core().rpcs|
  {
    if input.Read? && input.data != "" {
      var ms := ParseDispatches(dev, s.inb, input.data);
      DispatchAllKeepsCoreInv(dev, s, ms);
      DispatchAllKeepsInv(dev, s.Core(), ms);
      DispatchAllAddsNone(dev, s.Core(), ms);
    }
  }

  lemma {:induction false} DispatchAllAddsNone(dev: Device, c: Core, ms: seq<string>)
    requires InRange(c)
    ensures |DispatchAll(dev, c, ms).0.rpcs| == |c.rpcs|
    decreases |ms|
  {
    if ms != [] {
      DispatchInRange(dev, c, ms[0]);
      DispatchAddsNone(dev, c, ms[0]);
      hide Dispatch;
      if Dispatch(dev, c, ms[0]).1.None? {
        DispatchAllAddsNone(dev, Dispatch(dev, c, ms[0]).0, ms[1..]);
      }
    }
  }

  lemma FailKeepsCoreInv(dev: Device, s: Sys, e: Error)
    requires CoreInv(dev, s)
    ensures CoreInv(dev, Fail(s, e)) && Follows(s.Core(), Fail(s, e).Core())
  {
    DispatchErrorDrains(s.Core(), e);
    var c' := Fail(s, e).Core();
    assert forall i :: 0 <= i < |c'.rpcs| ==> c'.rpcs[i].reply == s.Core().rpcs[i].reply;
  }

  lemma ConstructKeepsCoreInv(dev: Device, s: Sys)
    requires CoreInv(dev, s)
    ensures var s' := s.(inb := s.inb.(core := NewRpc(s.Core())));
            CoreInv(dev, s') && Follows(s.Core(), s'.Core())
  {
    NewRpcKeepsInv(s.Core());
    hide Inv, Follows;
    var c, c' := s.Core(), NewRpc(s.Core());
    forall i | 0 <= i < |c'.rpcs|
      ensures Genuine(dev, c'.log, c'.rpcs[i])
    {
      assert i < |c.rpcs| ==> Genuine(dev, c.log, c.rpcs[i]);
    }
  }

  lemma TakeKeepsCoreInv(dev: Device, s: Sys)
    requires CoreInv(dev, s) && s.Core().notifications != []
    ensures var ns := s.Core().notifications;
            var s' := s.(inb := s.inb.(core := s.Core().(notifications := ns[1..])), taken := s.taken + [ns[0]]);
            CoreInv(dev, s') && Follows(s.Core(), s'.Core())
  {
    var ns := s.Core().notifications;
    InvLocal(s.Core(), s.Core().(notifications := ns[1..]));
    hide Inv, Follows;
    assert s.taken + [ns[0]] + ns[1..] == s.taken + ns;
  }

  /** Sending does not touch the requests. */
  lemma TurnCore(dev: Device, s: Sys, input: Input, ready: bool, writes: seq<int>)
    requires InRange(s.Core())
    ensures Turn(dev, s, input, ready, writes).0.Core() == Receive(dev, s, input).0.Core()
    ensures Turn(dev, s, input, ready, writes).0.taken == Receive(dev, s, input).0.taken
  {
    hide Receive;
  }

  lemma LoopKeepsCoreInv(dev: Device, s: Sys, input: Input, ready: bool, writes: seq<int>)
    requires CoreInv(dev, s) && s.alive
    ensures var (mid, exit) := Turn(dev, s, input, ready, writes);
            && CoreInv(dev, mid) && CoreInv(dev, Settle(mid, exit))
            && Follows(s.Core(), mid.Core()) && Follows(s.Core(), Settle(mid, exit).Core())
            && |mid.Core().rpcs| == |s.Core().rpcs|
  {
    assert InRange(s.Core());
    ReceiveKeepsCoreInv(dev, s, input);
    TurnCore(dev, s, input, ready, writes);
    hide Turn, Receive, Inv, Follows, RepliesGenuine;
    var (mid, exit) := Turn(dev, s, input, ready, writes);
    if exit.Raise? {
      FailKeepsCoreInv(dev, mid, exit.error);
      FollowsTransitive(s.Core(), mid.Core(), Fail(mid, exit.error).Core());
    }
  }

  lemma StepKeepsCoreInv(dev: Device, s: Sys, ev: Event)
    requires CoreInv(dev, s)
    ensures CoreInv(dev, Step(dev, s, ev)) && Follows(s.Core(), Step(dev, s, ev).Core())
  {
    assert Inv(s.Core());
    match ev
    case Construct =>
      ConstructKeepsCoreInv(dev, s);
    case Take =>
      if s.Core().notifications != [] {
        TakeKeepsCoreInv(dev, s);
      }
    case Loop(input, ready, writes) =>
      if s.alive {
        LoopKeepsCoreInv(dev, s, input, ready, writes);
        hide Turn, CoreInv, Follows;
      }
    case _ =>
  }

  // Conservation on the wire

  function Wire(ms: seq<string>, bases: seq<Base>): string
    requires |ms| == |bases|
  {
    if ms == [] then "" else Wire(ms[..|ms| - 1], bases[..|ms| - 1]) + Frame(bases[|ms| - 1], ms[|ms| - 1])
  }

  /** The queue is what was sent and has not left; the bytes accepted are the frames of what has left, in
      order, cut short only if the loop died; and the framing changes at most once. */
  ghost predicate WireInv(s: Sys) {
    var k := |s.bases|;
    && k <= |s.sent|
    && s.queue == s.sent[k..]
    && s.written <= Wire(s.sent[..k], s.bases)
    && (s.alive ==> s.written == Wire(s.sent[..k], s.bases))
    && (forall i, j :: 0 <= i < j < k && s.bases[i] == Base11 ==> s.bases[j] == Base11)
    && (Base11 in s.bases ==> s.inb.base == Base11)
  }

  /** Every write takes at least one byte. */
  predicate AllAccept(writes: seq<int>) {
    forall i :: 0 <= i < |writes| ==> writes[i] > 0
  }

  /** However a frame is cut by partial writes, what was accepted followed by what was not is the frame,
      and all of it was accepted unless a write failed. */
  lemma {:induction false} SendAllConserves(data: string, writes: seq<int>)
    ensures var (done, left) := SendAll(data, writes);
            && done + left == data
            && (AllAccept(writes) ==> left == "")
    decreases |data|
  {
    if data != "" && writes != [] && 0 < writes[0] < |data| {
      var n := writes[0];
      SendAllConserves(data[n..], writes[1..]);
      var (done, left) := SendAll(data[n..], writes[1..]);
      Assoc(data[..n], done, left);
      assert data[..n] + data[n..] == data;
    }
  }

  function Sum(ns: seq<int>): int {
    if ns == [] then 0 else ns[0] + Sum(ns[1..])
  }

  /** Write number `k` takes nothing, and the writes before it took some of the frame but not all. */
  predicate RefusedAt(data: string, writes: seq<int>, k: nat) {
    k < |writes| && writes[k] <= 0 && AllAccept(writes[..k]) && Sum(writes[..k]) < |data|
  }

  /** Sending stops exactly at a refused write; what the writes before it took is gone, and what they did not
      take is unsent. */
  lemma SendAllStopsIff(data: string, writes: seq<int>)
    ensures SendAll(data, writes).1 != "" <==> exists k: nat :: RefusedAt(data, writes, k)
    ensures forall k: nat :: RefusedAt(data, writes, k) ==>
              var n := Sum(writes[..k]);
              0 <= n < |data| && SendAll(data, writes) == (data[..n], data[n..])
  {
    hide SendAll, Sum;
    if SendAll(data, writes).1 != "" {
      var k := StoppedAt(data, writes);
    }
    forall k: nat | RefusedAt(data, writes, k)
      ensures var n := Sum(writes[..k]);
              0 <= n < |data| && SendAll(data, writes) == (data[..n], data[n..])
    {
      StopsAt(data, writes, k);
    }
  }

  lemma {:induction false} StoppedAt(data: string, writes: seq<int>) returns (k: nat)
    requires SendAll(data, writes).1 != ""
    ensures RefusedAt(data, writes, k)
    decreases |data|
  {
    var n := writes[0];
    if n <= 0 {
      k := 0;
    } else {
      var j := StoppedAt(data[n..], writes[1..]);
      k := j + 1;
      assert writes[..k][1..] == writes[1..][..j];
      assert forall i :: 0 < i < k ==> writes[i] == writes[1..][..j][i - 1];
    }
  }

  lemma {:induction false} StopsAt(data: string, writes: seq<int>, k: nat)
    requires RefusedAt(data, writes, k)
    ensures var n := Sum(writes[..k]);
            0 <= n < |data| && SendAll(data, writes) == (data[..n], data[n..])
    decreases k
  {
    if k > 0 {
      var n := writes[0];
      assert writes[..k][0] == n;
      assert writes[..k][1..] == writes[1..][..k - 1];
      SumAccepted(writes[1..][..k - 1]);
      StopsAt(data[n..], writes[1..], k - 1);
      var m := Sum(writes[1..][..k - 1]);
      assert data[..n] + data[n..][..m] == data[..n + m];
      assert data[n..][m..] == data[n + m..];
    }
  }

  lemma {:induction false} SumAccepted(ns: seq<int>)
    requires AllAccept(ns)
    ensures 0 <= Sum(ns)
  {
    if ns != [] {
      SumAccepted(ns[1..]);
    }
  }

  lemma WireSnoc(ms: seq<string>, bases: seq<Base>, base: Base)
    requires |bases| < |ms|
    ensures var k := |bases|;
            Wire(ms[..k + 1], bases + [base]) == Wire(ms[..k], bases) + Frame(base, ms[k])
  {
    hide Frame;
    var k := |bases|;
    var ms', bases' := ms[..k + 1], bases + [base];
    assert ms'[..k] == ms[..k] && bases'[..k] == bases && ms'[k] == ms[k] && bases'[k] == base;
  }

  lemma TransmitKeepsWireInv(s: Sys, ready: bool, writes: seq<int>)
    requires WireInv(s) && s.alive
    ensures var (s', exit) := Transmit(s, ready, writes);
            WireInv(s'.(alive := false)) && (exit == Continue ==> WireInv(s'))
  {
    hide Frame, SendAll, Wire;
    if s.queue != [] && ready {
      var k := |s.bases|;
      var frame := Frame(s.inb.base, s.queue[0]);
      SendAllConserves(frame, writes);
      var (done, left) := SendAll(frame, writes);
      assert s.queue[0] == s.sent[k];
      WireSnoc(s.sent, s.bases, s.inb.base);
      Assoc(s.written, done, left);
      assert s.written + done <= s.written + frame;
      assert left == "" ==> s.written + done == s.written + frame;
      BasesSnoc(s);
    }
  }

  lemma BasesSnoc(s: Sys)
    requires WireInv(s)
    ensures var bases := s.bases + [s.inb.base];
            && (forall i, j :: 0 <= i < j < |bases| && bases[i] == Base11 ==> bases[j] == Base11)
            && (Base11 in bases ==> s.inb.base == Base11)
  {
    hide Wire;
  }

  lemma ReceiveKeepsWireInv(dev: Device, s: Sys, input: Input)
    requires InRange(s.Core()) && WireInv(s)
    ensures WireInv(Receive(dev, s, input).0) && Receive(dev, s, input).0.alive == s.alive
  {
    if input.Read? && input.data != "" {
      var ms := ParseDispatches(dev, s.inb, input.data);
    }
  }

  lemma SettleKeepsWireInv(s: Sys, exit: Exit)
    requires WireInv(s.(alive := false)) && (exit == Continue ==> WireInv(s))
    ensures WireInv(Settle(s, exit))
  {
  }

  lemma SendKeepsWireInv(s: Sys, m: string)
    requires WireInv(s)
    ensures WireInv(s.(queue := s.queue + [m], sent := s.sent + [m]))
  {
    assert (s.sent + [m])[..|s.bases|] == s.sent[..|s.bases|];
  }

  lemma LoopKeepsWireInv(dev: Device, s: Sys, input: Input, ready: bool, writes: seq<int>)
    requires InRange(s.Core()) && WireInv(s) && s.alive
    ensures var (s', exit) := Turn(dev, s, input, ready, writes); WireInv(Settle(s', exit))
  {
    hide Receive, Transmit, WireInv, InRange, Settle;
    ReceiveKeepsWireInv(dev, s, input);
    var (mid, exit) := Receive(dev, s, input);
    if exit == Continue {
      TransmitKeepsWireInv(mid, ready, writes);
      SettleKeepsWireInv(Transmit(mid, ready, writes).0, Transmit(mid, ready, writes).1);
    } else {
      DeadWireInv(mid);
      SettleKeepsWireInv(mid, exit);
    }
  }

  lemma DeadWireInv(s: Sys)
    requires WireInv(s)
    ensures WireInv(s.(alive := false))
  {
  }

  lemma StepKeepsWireInv(dev: Device, s: Sys, ev: Event)
    requires InRange(s.Core()) && -1 <= s.Core().msgId && WireInv(s)
    ensures WireInv(Step(dev, s, ev))
  {
    hide Turn, Settle, Wire;
    match ev
    case Send(m) =>
      SendKeepsWireInv(s, m);
    case Loop(input, ready, writes) =>
      if s.alive {
        LoopKeepsWireInv(dev, s, input, ready, writes);
      }
    case _ =>
  }

  // The parser between reads

  /** While the loop lives, the parser of end-of-message framing may resume where it stopped. */
  predicate ParserInv(s: Sys) {
    s.alive && s.inb.base == Base10 ==> Resumable(s.inb)
  }

  /** The messages that one read completes. */
  function MessagesRead(s: Inbound, data: string): seq<string> {
    if s.base == Base11 then Chunked.Scan(s.fragments, s.buffer + data).messages
    else Eom.StripAll(Eom.Split(s.buffer + data).parts)
  }

  /** A read dispatches just the messages it completes, up to the first exception. */
  lemma ReadDispatches(dev: Device, s: Inbound, data: string)
    requires InRange(s.core) && data != "" && (s.base == Base10 ==> Resumable(s))
    ensures var (s', e) := Parse(dev, s, data);
            && (s'.core, e) == DispatchAll(dev, s.core, MessagesRead(s, data))
            && s'.base == s.base && (s.base == Base10 && e.None? ==> Resumable(s'))
  {
    hide Parse10, Parse11, DispatchAll, Chunked.Scan, Eom.Split, Eom.StripAll, Resumable, InRange;
    if s.base == Base11 {
      ParseScans(dev, s, data);
    } else {
      AppendKeepsResumable(s, data);
      Parse10Splits(dev, s.(buffer := s.buffer + data));
    }
  }

  lemma ReceiveKeepsParserInv(dev: Device, s: Sys, input: Input)
    requires InRange(s.Core()) && ParserInv(s) && s.alive
    ensures Receive(dev, s, input).1 == Continue ==> ParserInv(Receive(dev, s, input).0)
  {
    hide Resumable, InRange, Parse, DispatchAll, MessagesRead;
    if input.Read? && input.data != "" {
      ReadDispatches(dev, s.inb, input.data);
    }
  }

  lemma SettleKeepsParserInv(s: Sys, ready: bool, writes: seq<int>)
    requires ParserInv(s)
    ensures var (s', exit) := Transmit(s, ready, writes); ParserInv(Settle(s', exit))
  {
    hide Resumable, SendAll, DispatchError, Frame;
  }

  lemma StepKeepsParserInv(dev: Device, s: Sys, ev: Event)
    requires InRange(s.Core()) && -1 <= s.Core().msgId && ParserInv(s)
    ensures ParserInv(Step(dev, s, ev))
  {
    hide Resumable, InRange, Receive, Transmit, DispatchError;
    if ev.Loop? && s.alive {
      ReceiveKeepsParserInv(dev, s, ev.input);
      var (mid, exit) := Receive(dev, s, ev.input);
      if exit == Continue {
        SettleKeepsParserInv(mid, ev.ready, ev.writes);
      }
    } else {
      SameParser(s.inb, Step(dev, s, ev).inb);
    }
  }

  lemma SameParser(s: Inbound, s': Inbound)
    ensures s.buffer == s'.buffer && s.pos == s'.pos ==> (Resumable(s) <==> Resumable(s'))
  {
  }

  // Runs

  function Run(dev: Device, s: Sys, events: seq<Event>): Sys
    requires Inv(s.Core())
    decreases |events|
  {
    if events == [] then s
    else
      StepKeepsRunnable(dev, s, events[0]);
      Run(dev, Step(dev, s, events[0]), events[1..])
  }

  lemma ReceiveKeepsInv(dev: Device, s: Sys, input: Input)
    requires Inv(s.Core())
    ensures Inv(Receive(dev, s, input).0.Core())
  {
    if input.Read? && input.data != "" {
      var ms := ParseDispatches(dev, s.inb, input.data);
      DispatchAllKeepsInv(dev, s.Core(), ms);
    }
  }

  lemma SettleKeepsInv(s: Sys, exit: Exit)
    requires Inv(s.Core())
    ensures Inv(Settle(s, exit).Core())
  {
    if exit.Raise? {
      DispatchErrorDrains(s.Core(), exit.error);
    }
  }

  lemma StepKeepsRunnable(dev: Device, s: Sys, ev: Event)
    requires Inv(s.Core())
    ensures Inv(Step(dev, s, ev).Core())
  {
    match ev
    case Construct =>
      NewRpcKeepsInv(s.Core());
    case Loop(input, ready, writes) =>
      if s.alive {
        ReceiveKeepsInv(dev, s, input);
        TurnCore(dev, s, input, ready, writes);
        var (s', exit) := Turn(dev, s, input, ready, writes);
        SettleKeepsInv(s', exit);
      }
    case _ =>
  }

  ghost predicate SysInv(dev: Device, s: Sys) {
    CoreInv(dev, s) && WireInv(s) && ParserInv(s)
  }

  /** Along every run the invariant holds, and no outcome once set is ever changed. */
  lemma {:induction false} RunKeepsInv(dev: Device, s: Sys, events: seq<Event>)
    requires SysInv(dev, s)
    ensures SysInv(dev, Run(dev, s, events)) && Follows(s.Core(), Run(dev, s, events).Core())
    decreases |events|
  {
    if events != [] {
      StepKeepsRunnable(dev, s, events[0]);
      StepKeepsCoreInv(dev, s, events[0]);
      StepKeepsWireInv(dev, s, events[0]);
      StepKeepsParserInv(dev, s, events[0]);
      var s' := Step(dev, s, events[0]);
      RunKeepsInv(dev, s', events[1..]);
      FollowsTransitive(s.Core(), s'.Core(), Run(dev, s', events[1..]).Core());
    }
  }

  /**
   Every reachable state: each request ever constructed is pending and registered under its own id, or
   resolved, exactly once, with an error or with a dispatched message carrying its id; the notifications
   taken and queued are those that arrived, in order; and the bytes written are the frames of the
   messages sent, in order, possibly cut short.
   */
  lemma Reachable(dev: Device, events: seq<Event>)
    ensures Inv(Initial().Core()) && SysInv(dev, Run(dev, Initial(), events))
  {
    RunKeepsInv(dev, Initial(), events);
  }

  // What the peer makes of the bytes written

  predicate AllBase(bases: seq<Base>, base: Base) {
    forall i :: 0 <= i < |bases| ==> bases[i] == base
  }

  lemma {:induction false} WireIsChunkedFrames(ms: seq<string>, bases: seq<Base>)
    requires |ms| == |bases| && AllBase(bases, Base11)
    ensures Wire(ms, bases) == Chunked.Frames(ms)
  {
    if ms != [] {
      var k := |ms| - 1;
      WireIsChunkedFrames(ms[..k], bases[..k]);
      assert ms == ms[..k] + [ms[k]];
      JoinMapSnoc(Chunked.Frame, ms[..k], ms[k]);
    }
  }

  /** A peer that parses chunked framing receives the messages sent, in order, each at most once; all that
      left the queue while the loop lives; and no part of a message whose transmission broke off. */
  lemma PeerReceivesChunked(s: Sys)
    requires WireInv(s) && AllBase(s.bases, Base11)
    ensures Chunked.Scan([], s.written).messages <= s.sent
    ensures s.alive ==> Chunked.Scan([], s.written) == Chunked.Outcome(s.sent[..|s.bases|], [], "")
  {
    hide Wire, Chunked.Scan, Chunked.Frames;
    var ms := s.sent[..|s.bases|];
    WireIsChunkedFrames(ms, s.bases);
    Chunked.TruncatedFrames(ms, s.written);
    Chunked.FramesRoundTrip(ms);
  }

  lemma {:induction false} WireIsEomFrames(ms: seq<string>, bases: seq<Base>)
    requires |ms| == |bases| && AllBase(bases, Base10)
    ensures Wire(ms, bases) == Eom.Frames(ms)
  {
    if ms != [] {
      var k := |ms| - 1;
      WireIsEomFrames(ms[..k], bases[..k]);
      assert ms == ms[..k] + [ms[k]];
      JoinMapSnoc(Eom.Frame, ms[..k], ms[k]);
    }
  }

  /** The same for end-of-message framing, for messages that survive it. */
  lemma PeerReceivesEom(s: Sys)
    requires WireInv(s) && AllBase(s.bases, Base10)
    requires forall m :: m in s.sent ==> Eom.Safe(m)
    ensures Eom.Split(s.written).parts <= s.sent
    ensures s.alive ==> Eom.Split(s.written) == Eom.Parts(s.sent[..|s.bases|], "")
  {
    hide Wire, Eom.Split, Eom.Frames, Eom.Safe;
    var ms := s.sent[..|s.bases|];
    WireIsEomFrames(ms, s.bases);
    Eom.FramesRoundTrip(ms);
    Eom.TruncatedFrames(ms, s.written);
  }
}
