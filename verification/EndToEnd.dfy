/**
 The session in a closed loop with a peer.  The peer may answer any constructed request that it has not
 answered, at any time and in any order, with any chunking, and may announce notifications in between;
 the network delivers the peer's bytes in pieces of any size; the client goes on constructing, sending
 and taking.  Then every answer reaches its own request.
 */
module EndToEnd {
  import opened Strings
  import opened Correlation
  import opened Receiving
  import opened SessionRuns
  import Chunked = ChunkedFraming

  /** `wire` is what the peer has emitted and the client has not read; `answers` is the reply the peer gave
      to each request it answered. */
  datatype World = World(s: Sys, wire: string, answers: map<nat, string>)

  datatype Action =
    | Client(event: Event)
    | Answer(request: nat, chunks: seq<Chunked.Token>)
    | Announce(chunks: seq<Chunked.Token>)
    | Deliver(size: nat, ready: bool, writes: seq<int>)

  predicate Allowed(dev: Device, w: World, a: Action) {
    match a
    case Client(ev) => ev.Construct? || ev.Send? || ev.Take?
    case Answer(i, chunks) =>
      && i < |w.s.Core().rpcs| && i !in w.answers && Chunked.AllChunks(chunks)
      && RootOf(dev, Chunked.MessageOf(chunks)) == Some(Root(ReplyTag, Some(Dec(i))))
    case Announce(chunks) => Chunked.AllChunks(chunks) && IsNotification(dev, Chunked.MessageOf(chunks))
    case Deliver(k, ready, writes) => k <= |w.wire| && AllAccept(writes)
  }

  function Act(dev: Device, w: World, a: Action): World
    requires Inv(w.s.Core()) && Allowed(dev, w, a)
  {
    match a
    case Client(ev) => w.(s := Step(dev, w.s, ev))
    case Answer(i, chunks) =>
      w.(wire := w.wire + Chunked.FrameOf(chunks), answers := w.answers[i := Chunked.MessageOf(chunks)])
    case Announce(chunks) => w.(wire := w.wire + Chunked.FrameOf(chunks))
    case Deliver(k, ready, writes) =>
      var input := if k == 0 then Quiet else Read(w.wire[..k]);
      w.(s := Step(dev, w.s, Loop(input, ready, writes)), wire := w.wire[k..])
  }

  /** Answers belong to constructed requests and carry their ids; requests hold their own answers, if
      anything, and no errors. */
  ghost predicate Matched(dev: Device, rpcs: seq<Rpc>, answers: map<nat, string>) {
    && (forall i :: i in answers ==>
          i < |rpcs| && RootOf(dev, answers[i]) == Some(Root(ReplyTag, Some(Dec(i)))))
    && (forall i :: 0 <= i < |rpcs| ==>
          rpcs[i].error.None? && (rpcs[i].reply.Some? ==> i in answers && rpcs[i].reply.value == answers[i]))
  }

  /** Request `i` waits for `m`. */
  predicate Awaits(rpcs: seq<Rpc>, answers: map<nat, string>, i: nat, m: string) {
    i in answers && i < |rpcs| && answers[i] == m && Pending(rpcs[i])
  }

  ghost predicate Expected(dev: Device, rpcs: seq<Rpc>, answers: map<nat, string>, m: string) {
    IsNotification(dev, m) || exists i :: Awaits(rpcs, answers, i, m)
  }

  ghost predicate AllExpected(dev: Device, rpcs: seq<Rpc>, answers: map<nat, string>, ms: seq<string>) {
    forall j :: 0 <= j < |ms| ==> Expected(dev, rpcs, answers, ms[j])
  }

  /** Every awaited answer is still to come. */
  ghost predicate Outstanding(rpcs: seq<Rpc>, answers: map<nat, string>, ms: seq<string>) {
    forall i :: i in answers && i < |rpcs| && Pending(rpcs[i]) ==> answers[i] in ms
  }

  ghost predicate EachOnce(dev: Device, ms: seq<string>) {
    forall j, k :: 0 <= j < k < |ms| && ms[j] == ms[k] ==> IsNotification(dev, ms[j])
  }

  /** The messages `ms` are under way: notifications and the awaited answers, each answer once. */
  ghost predicate UnderWay(dev: Device, rpcs: seq<Rpc>, answers: map<nat, string>, ms: seq<string>) {
    && Matched(dev, rpcs, answers)
    && AllExpected(dev, rpcs, answers, ms)
    && Outstanding(rpcs, answers, ms)
    && EachOnce(dev, ms)
  }

  ghost predicate WorldInv(dev: Device, w: World) {
    var s := w.s.inb;
    var o := Chunked.Scan(s.fragments, s.buffer + w.wire);
    && w.s.alive && s.base == Base11 && Quiescent(s)
    && o.fragments == [] && o.rest == ""
    && Inv(s.core) && UnderWay(dev, s.core.rpcs, w.answers, o.messages)
  }

  // One message arrives

  lemma TailOf(dev: Device, rpcs: seq<Rpc>, answers: map<nat, string>, m: string, ms: seq<string>)
    requires AllExpected(dev, rpcs, answers, [m] + ms) && EachOnce(dev, [m] + ms)
    ensures Expected(dev, rpcs, answers, m) && AllExpected(dev, rpcs, answers, ms) && EachOnce(dev, ms)
    ensures m in ms ==> IsNotification(dev, m)
  {
    var all := [m] + ms;
    assert all[0] == m;
    assert forall j :: 0 <= j < |ms| ==> all[j + 1] == ms[j];
  }

  lemma NotificationArrives(dev: Device, c: Core, answers: map<nat, string>, m: string, ms: seq<string>)
    requires InRange(c) && UnderWay(dev, c.rpcs, answers, [m] + ms) && IsNotification(dev, m)
    ensures Dispatch(dev, c, m).1.None? && UnderWay(dev, Dispatch(dev, c, m).0.rpcs, answers, ms)
  {
    TailOf(dev, c.rpcs, answers, m, ms);
    assert Dispatch(dev, c, m).0.rpcs == c.rpcs;
  }

  lemma AnswerDelivered(dev: Device, rpcs: seq<Rpc>, answers: map<nat, string>, m: string, ms: seq<string>, i: nat)
    requires UnderWay(dev, rpcs, answers, [m] + ms) && Awaits(rpcs, answers, i, m)
    ensures UnderWay(dev, rpcs[i := DeliverReply(rpcs[i], m)], answers, ms)
  {
    TailOf(dev, rpcs, answers, m, ms);
    var rpcs' := rpcs[i := DeliverReply(rpcs[i], m)];
    forall j | 0 <= j < |ms|
      ensures Expected(dev, rpcs', answers, ms[j])
    {
      assert Expected(dev, rpcs, answers, ms[j]);
      if !IsNotification(dev, ms[j]) {
        var k :| Awaits(rpcs, answers, k, ms[j]);
        assert ms[j] in ms;
        assert k != i;
        assert Awaits(rpcs', answers, k, ms[j]);
      }
    }
    forall k | k in answers && k < |rpcs| && Pending(rpcs'[k])
      ensures answers[k] in ms
    {
      assert k != i;
      if answers[k] == m {
        DecInjective(i, k);
      }
    }
  }

  lemma AnswerArrives(dev: Device, c: Core, answers: map<nat, string>, m: string, ms: seq<string>, i: nat)
    requires Inv(c) && UnderWay(dev, c.rpcs, answers, [m] + ms) && Awaits(c.rpcs, answers, i, m)
    ensures Dispatch(dev, c, m).1.None? && UnderWay(dev, Dispatch(dev, c, m).0.rpcs, answers, ms)
  {
    var d := c.(log := c.log + [m]);
    var root := Root(ReplyTag, Some(Dec(i)));
    ReplyAcceptedIff(d, root, m);
    assert Dispatch(dev, c, m) == ReplyCallback(d, root, m);
    AnswerDelivered(dev, c.rpcs, answers, m, ms, i);
  }

  lemma {:induction false} MessagesArrive(dev: Device, c: Core, answers: map<nat, string>,
                                          a: seq<string>, b: seq<string>)
    requires Inv(c) && UnderWay(dev, c.rpcs, answers, a + b)
    ensures var (c', e) := DispatchAll(dev, c, a);
            e.None? && Inv(c') && UnderWay(dev, c'.rpcs, answers, b)
    decreases |a|
  {
    if a == [] {
      assert a + b == b;
    } else {
      var m, ms := a[0], a[1..] + b;
      assert a + b == [m] + ms;
      TailOf(dev, c.rpcs, answers, m, ms);
      if IsNotification(dev, m) {
        NotificationArrives(dev, c, answers, m, ms);
      } else {
        var i :| Awaits(c.rpcs, answers, i, m);
        AnswerArrives(dev, c, answers, m, ms, i);
      }
      DispatchKeepsInv(dev, c, m);
      MessagesArrive(dev, Dispatch(dev, c, m).0, answers, a[1..], b);
    }
  }

  // One action

  lemma ConstructKeepsUnderWay(dev: Device, rpcs: seq<Rpc>, answers: map<nat, string>, ms: seq<string>, r: Rpc)
    requires UnderWay(dev, rpcs, answers, ms) && Pending(r)
    ensures UnderWay(dev, rpcs + [r], answers, ms)
  {
    var rpcs' := rpcs + [r];
    assert forall i :: 0 <= i < |rpcs| ==> rpcs'[i] == rpcs[i];
    forall j | 0 <= j < |ms|
      ensures Expected(dev, rpcs', answers, ms[j])
    {
      assert Expected(dev, rpcs, answers, ms[j]);
      if !IsNotification(dev, ms[j]) {
        var k :| Awaits(rpcs, answers, k, ms[j]);
        assert Awaits(rpcs', answers, k, ms[j]);
      }
    }
  }

  lemma ClientKeepsWorldInv(dev: Device, w: World, ev: Event)
    requires WorldInv(dev, w) && (ev.Construct? || ev.Send? || ev.Take?)
    ensures WorldInv(dev, w.(s := Step(dev, w.s, ev)))
  {
    StepKeepsRunnable(dev, w.s, ev);
    if ev.Construct? {
      var s := w.s.inb;
      var ms := Chunked.Scan(s.fragments, s.buffer + w.wire).messages;
      ConstructKeepsUnderWay(dev, s.core.rpcs, w.answers, ms, Fresh(Dec(s.core.msgId + 1)));
    }
  }

  /** A frame appended to the wire is one more message under way. */
  lemma EmitExtends(dev: Device, w: World, chunks: seq<Chunked.Token>)
    requires WorldInv(dev, w) && Chunked.AllChunks(chunks)
    ensures var s := w.s.inb;
            var o := Chunked.Scan(s.fragments, s.buffer + w.wire);
            Chunked.Scan(s.fragments, s.buffer + (w.wire + Chunked.FrameOf(chunks)))
            == Chunked.Outcome(o.messages + [Chunked.MessageOf(chunks)], [], "")
  {
    var s := w.s.inb;
    var frame := Chunked.FrameOf(chunks);
    Assoc(s.buffer, w.wire, frame);
    Chunked.ScanConcat(s.fragments, s.buffer + w.wire, frame);
    Chunked.ScanFrameOf(chunks, "");
    assert "" + frame == frame + "" == frame;
    assert Chunked.Scan([], "") == Chunked.Outcome([], [], "");
    assert [Chunked.MessageOf(chunks)] + [] == [Chunked.MessageOf(chunks)];
  }

  lemma AnnounceKeepsUnderWay(dev: Device, rpcs: seq<Rpc>, answers: map<nat, string>, ms: seq<string>, m: string)
    requires UnderWay(dev, rpcs, answers, ms) && IsNotification(dev, m)
    ensures UnderWay(dev, rpcs, answers, ms + [m])
  {
  }

  lemma AnswerKeepsUnderWay(dev: Device, rpcs: seq<Rpc>, answers: map<nat, string>, ms: seq<string>, i: nat, m: string)
    requires UnderWay(dev, rpcs, answers, ms) && i < |rpcs| && i !in answers && Pending(rpcs[i])
    requires RootOf(dev, m) == Some(Root(ReplyTag, Some(Dec(i))))
    ensures UnderWay(dev, rpcs, answers[i := m], ms + [m])
  {
    var answers' := answers[i := m];
    assert Awaits(rpcs, answers', i, m);
    assert Expected(dev, rpcs, answers', m);
    forall j | 0 <= j < |ms|
      ensures Expected(dev, rpcs, answers', ms[j]) && ms[j] != m
    {
      assert Expected(dev, rpcs, answers, ms[j]);
      if !IsNotification(dev, ms[j]) {
        var k :| Awaits(rpcs, answers, k, ms[j]);
        assert Awaits(rpcs, answers', k, ms[j]);
        if ms[j] == m {
          DecInjective(i, k);
        }
      }
    }
    assert AllExpected(dev, rpcs, answers', ms + [m]);
    assert Outstanding(rpcs, answers', ms + [m]) by {
      assert (ms + [m])[|ms|] == m;
    }
  }

  /** A request without answer is pending. */
  lemma UnansweredPending(dev: Device, c: Core, answers: map<nat, string>, i: nat)
    requires Inv(c) && Matched(dev, c.rpcs, answers) && i < |c.rpcs| && i !in answers
    ensures Pending(c.rpcs[i])
  {
  }

  /** A turn of the loop that reads a piece and writes without failing only parses the piece. */
  lemma DeliveryParses(dev: Device, s: Sys, piece: string, ready: bool, writes: seq<int>)
    requires InRange(s.Core()) && -1 <= s.Core().msgId && s.alive && AllAccept(writes)
    requires Parse(dev, s.inb, piece).1.None?
    ensures var s' := Step(dev, s, Loop(if piece == "" then Quiet else Read(piece), ready, writes));
            s'.alive && s'.inb == Parse(dev, s.inb, piece).0
  {
    var input := if piece == "" then Quiet else Read(piece);
    var mid := Receive(dev, s, input).0;
    if mid.queue != [] {
      SendAllConserves(Frame(mid.inb.base, mid.queue[0]), writes);
    }
  }

  lemma DeliverKeepsWorldInv(dev: Device, w: World, k: nat, ready: bool, writes: seq<int>)
    requires WorldInv(dev, w) && Allowed(dev, w, Deliver(k, ready, writes))
    ensures WorldInv(dev, Act(dev, w, Deliver(k, ready, writes)))
  {
    var s := w.s.inb;
    var piece, wire' := w.wire[..k], w.wire[k..];
    assert w.wire == piece + wire';
    var o := Chunked.Scan(s.fragments, s.buffer + piece);
    var p := Chunked.Scan(o.fragments, o.rest + wire');
    Assoc(s.buffer, piece, wire');
    Chunked.ScanConcat(s.fragments, s.buffer + piece, wire');
    ParseScans(dev, s, piece);
    MessagesArrive(dev, s.core, w.answers, o.messages, p.messages);
    DeliveryParses(dev, w.s, piece, ready, writes);
  }

  lemma ActKeepsWorldInv(dev: Device, w: World, a: Action)
    requires WorldInv(dev, w) && Allowed(dev, w, a)
    ensures WorldInv(dev, Act(dev, w, a))
  {
    var s := w.s.inb;
    var ms := Chunked.Scan(s.fragments, s.buffer + w.wire).messages;
    match a
    case Client(ev) => ClientKeepsWorldInv(dev, w, ev);
    case Answer(i, chunks) =>
      EmitExtends(dev, w, chunks);
      UnansweredPending(dev, s.core, w.answers, i);
      AnswerKeepsUnderWay(dev, s.core.rpcs, w.answers, ms, i, Chunked.MessageOf(chunks));
    case Announce(chunks) =>
      EmitExtends(dev, w, chunks);
      AnnounceKeepsUnderWay(dev, s.core.rpcs, w.answers, ms, Chunked.MessageOf(chunks));
    case Deliver(k, ready, writes) => DeliverKeepsWorldInv(dev, w, k, ready, writes);
  }

  // Runs

  /** A session that uses chunked framing and has constructed no request yet. */
  predicate Start(w: World) {
    && w.s.alive && w.s.inb.base == Base11 && Idle(w.s.inb)
    && w.s.Core().msgId == -1 && w.s.Core().rpcs == [] && w.s.Core().table == map[]
    && w.wire == "" && w.answers == map[]
  }

  ghost predicate IsRun(dev: Device, ws: seq<World>, actions: seq<Action>) {
    && |ws| == |actions| + 1
    && Start(ws[0])
    && forall k :: 0 <= k < |actions| ==>
         Inv(ws[k].s.Core()) && Allowed(dev, ws[k], actions[k]) && ws[k + 1] == Act(dev, ws[k], actions[k])
  }

  lemma {:induction false} RunKeepsWorldInv(dev: Device, ws: seq<World>, actions: seq<Action>, n: nat)
    requires IsRun(dev, ws, actions) && n <= |actions|
    ensures WorldInv(dev, ws[n])
    decreases n
  {
    if n == 0 {
      assert ws[0].s.inb.buffer + ws[0].wire == "";
      assert Chunked.Scan([], "") == Chunked.Outcome([], [], "");
    } else {
      RunKeepsWorldInv(dev, ws, actions, n - 1);
      ActKeepsWorldInv(dev, ws[n - 1], actions[n - 1]);
    }
  }

  lemma WorldAnswers(dev: Device, w: World)
    requires WorldInv(dev, w)
    ensures var c := w.s.Core();
            && w.s.alive
            && (forall i :: 0 <= i < |c.rpcs| ==> c.rpcs[i].id == Dec(i) && c.rpcs[i].error.None?)
            && (forall i :: 0 <= i < |c.rpcs| && c.rpcs[i].reply.Some? ==>
                  i in w.answers && c.rpcs[i].reply.value == w.answers[i])
  {
    hide Chunked.Scan, Dec;
  }

  lemma WorldDelivered(dev: Device, w: World)
    requires WorldInv(dev, w) && w.wire == ""
    ensures var c := w.s.Core();
            && w.s.inb.buffer == "" && w.s.inb.fragments == []
            && (forall i :: i in w.answers ==>
                  i < |c.rpcs| && c.rpcs[i] == Rpc(Dec(i), Some(w.answers[i]), None, true, 1))
            && ((forall i :: 0 <= i < |c.rpcs| ==> i in w.answers) ==> c.table == map[])
  {
    var c := w.s.Core();
    assert w.s.inb.buffer + "" == w.s.inb.buffer;
    assert Chunked.Scan(w.s.inb.fragments, w.s.inb.buffer) == Chunked.Outcome([], w.s.inb.fragments, w.s.inb.buffer);
    assert Outstanding(c.rpcs, w.answers, []);
    assert forall i :: i in w.answers ==> Resolved(c.rpcs[i]);
    assert forall id :: id in c.table ==> c.table[id] !in w.answers;
  }

  /**
   End to end: along every run the loop lives and no request has an error; a request holds nothing but its
   own answer; and once the peer's bytes are all delivered, every answered request is resolved with its
   own answer, delivered exactly once, and the parser holds nothing.
   */
  lemma EveryAnswerArrives(dev: Device, ws: seq<World>, actions: seq<Action>)
    requires IsRun(dev, ws, actions)
    ensures var w := ws[|actions|];
            var c := w.s.Core();
            && w.s.alive
            && (forall i :: 0 <= i < |c.rpcs| ==> c.rpcs[i].id == Dec(i) && c.rpcs[i].error.None?)
            && (forall i :: 0 <= i < |c.rpcs| && c.rpcs[i].reply.Some? ==>
                  i in w.answers && c.rpcs[i].reply.value == w.answers[i])
            && (w.wire == "" ==>
                  && w.s.inb.buffer == "" && w.s.inb.fragments == []
                  && (forall i :: i in w.answers ==>
                        i < |c.rpcs| && c.rpcs[i] == Rpc(Dec(i), Some(w.answers[i]), None, true, 1))
                  && ((forall i :: 0 <= i < |c.rpcs| ==> i in w.answers) ==> c.table == map[]))
  {
    RunKeepsWorldInv(dev, ws, actions, |actions|);
    hide Act, Allowed, IsRun;
    WorldAnswers(dev, ws[|actions|]);
    if ws[|actions|].wire == "" {
      WorldDelivered(dev, ws[|actions|]);
    }
  }
}
