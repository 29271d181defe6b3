/**
 The objects of a session, updated in place as the library updates them, and proved to compute the
 functions of `Correlation`, `Receiving` and `SessionRuns`.
 */
module SessionObjects {
  import opened Strings
  import opened Correlation
  import opened Receiving
  import opened SessionRuns
  import Chunked = ChunkedFraming
  import Eom = EomFraming

  /** A request and its outcome.  Waiting on `event` is not modelled. */
  class RPC {
    const id: string
    var reply: Option<string>
    var error: Option<Error>
    var event: bool
    ghost var deliveries: nat

    ghost function Value(): Rpc
      reads this
    {
      Rpc(id, reply, error, event, deliveries)
    }

    /** Taking an id, registering with the session's reply listener and clearing the outcome are one step;
        in the library the registration comes before the event exists. */
    constructor (session: Session)
      requires session.Valid()
      modifies session, session.replies
      ensures session.Valid() && session.replies.constructed == old(session.replies.constructed) + [this]
      ensures session.Core() == NewRpc(old(session.Core()))
      ensures session.Transport() == old(session.Transport())
    {
      var n := session.NextId();
      id := n;
      reply, error, event := None, None, false;
      deliveries := 0;
      new;
      session.InstallReplyListener();
      session.Enter(this);
    }

    method DeliverReply(raw: string)
      modifies this
      ensures Value() == Correlation.DeliverReply(old(Value()), raw)
    {
      reply := Some(raw);
      event := true;
      deliveries := deliveries + 1;
    }

    method DeliverError(err: Error)
      modifies this
      ensures Value() == Correlation.DeliverError(old(Value()), err)
    {
      error := Some(err);
      event := true;
      deliveries := deliveries + 1;
    }
  }

  ghost function Values(rs: seq<RPC>): seq<Rpc>
    reads rs
  {
    seq(|rs|, i requires 0 <= i < |rs| reads rs => rs[i].Value())
  }

  /** The table of requests without outcome.  `constructed` is the history of registrations and `index`
      their positions in it. */
  class RPCReplyListener {
    var id2rpc: map<string, RPC>
    ghost var constructed: seq<RPC>
    ghost var index: map<string, nat>

    ghost predicate Valid()
      reads this, constructed
    {
      && index.Keys == id2rpc.Keys
      && (forall id :: id in index ==>
            index[id] < |constructed| && constructed[index[id]] == id2rpc[id] && id2rpc[id].id == id)
      && (forall i, j :: 0 <= i < j < |constructed| ==> constructed[i] != constructed[j])
    }

    /** The listener's share of the session state. */
    ghost function Core(): Core
      reads this, constructed
    {
      Correlation.Core(-1, {}, Values(constructed), index, [], [])
    }

    constructor ()
      ensures Valid() && constructed == [] && id2rpc == map[]
    {
      id2rpc, constructed, index := map[], [], map[];
    }

    method Register(id: string, rpc: RPC)
      requires Valid() && rpc.id == id && rpc !in constructed
      modifies this
      ensures Valid() && constructed == old(constructed) + [rpc]
      ensures id2rpc == old(id2rpc)[id := rpc] && index == old(index)[id := |old(constructed)|]
    {
      id2rpc := id2rpc[id := rpc];
      index := index[id := |constructed|];
      constructed := constructed + [rpc];
    }

    method Callback(root: Root, raw: string) returns (e: Option<Error>)
      requires Valid()
      modifies this, constructed
      ensures Valid() && constructed == old(constructed)
      ensures InRange(old(Core())) && (Core(), e) == ReplyCallback(old(Core()), root, raw)
    {
      if root.tag != ReplyTag {
        return None;
      }
      if root.messageId.None? {
        return Some(MissingMessageId);
      }
      var id := root.messageId.value;
      if id !in id2rpc {
        return Some(UnknownMessageId(id));
      }
      ghost var i := index[id];
      var rpc := id2rpc[id];
      rpc.DeliverReply(raw);
      id2rpc := id2rpc - {id};
      index := index - {id};
      assert Values(constructed) == old(Values(constructed))[i := rpc.Value()];
      return None;
    }

    /** The entries outside `todo`, and no others, have the error. */
    ghost predicate Draining(todo: set<string>, done: set<nat>, was: seq<Rpc>, err: Error)
      reads this, constructed
    {
      && Valid() && todo <= id2rpc.Keys && Processed(index, todo, done)
      && Values(constructed) == Delivered(was, done, err)
    }

    lemma DrainingStarts(err: Error)
      requires Valid()
      ensures Draining(id2rpc.Keys, {}, Values(constructed), err)
    {
      hide Values, Delivered;
      IndexInjective();
      ProcessedNone(index);
      DeliveredNone(Values(constructed), err);
    }

    method DeliverNext(id: string, err: Error, ghost todo: set<string>, ghost done: set<nat>, ghost was: seq<Rpc>)
      requires id in todo && Draining(todo, done, was, err)
      modifies constructed
      ensures id in index && Draining(todo - {id}, done + {index[id]}, was, err)
    {
      hide Delivered, Values, Processed, Correlation.DeliverError;
      ProcessedStep(index, todo, done, id);
      DeliverTo(id, err);
      DeliveredStep(was, done, index[id], err);
    }

    /** The loop over the table, in no particular order. */
    method DeliverAll(err: Error) returns (ghost done: set<nat>)
      requires Valid()
      modifies constructed
      ensures Draining({}, done, old(Values(constructed)), err)
    {
      var todo := id2rpc.Keys;
      done := {};
      DrainingStarts(err);
      hide Draining, Valid, Values;
      while todo != {}
        invariant Draining(todo, done, old(Values(constructed)), err)
        decreases |todo|
      {
        var id :| id in todo;
        DeliverNext(id, err, todo, done, old(Values(constructed)));
        todo, done := todo - {id}, done + {index[id]};
      }
    }

    /** Deliver the error to every registered request and clear the table. */
    method Errback(err: Error)
      requires Valid()
      modifies this, constructed
      ensures Valid() && constructed == old(constructed)
      ensures Core() == DispatchError(old(Core()).(listeners := {Replies}), err).(listeners := {})
    {
      hide Draining, Valid, Values, Correlation.DispatchError;
      ghost var done := DeliverAll(err);
      Clear(err, done, old(Core()));
    }

    method Clear(ghost err: Error, ghost done: set<nat>, ghost c: Core)
      requires Draining({}, done, c.rpcs, err)
      requires c == Correlation.Core(-1, {}, c.rpcs, index, [], [])
      modifies this`id2rpc, this`index
      ensures Valid()
      ensures Core() == DispatchError(c.(listeners := {Replies}), err).(listeners := {})
    {
      hide Delivered, Values, Correlation.DispatchError;
      DeliveredAll(c, done, err);
      id2rpc, index := map[], map[];
    }

    method DeliverTo(id: string, err: Error)
      requires Valid() && id in id2rpc
      modifies constructed
      ensures Valid()
      ensures var i, was := index[id], old(Values(constructed));
              && i < |was| == |constructed|
              && Values(constructed) == was[i := Correlation.DeliverError(was[i], err)]
    {
      id2rpc[id].DeliverError(err);
    }

    lemma IndexInjective()
      requires Valid()
      ensures Injective(index) && index.Keys == id2rpc.Keys
    {
    }
  }

  ghost predicate Injective(index: map<string, nat>) {
    forall id, id' :: id in index && id' in index && index[id] == index[id'] ==> id == id'
  }

  /** `done` are the positions of the entries outside `todo`. */
  ghost predicate Processed(index: map<string, nat>, todo: set<string>, done: set<nat>) {
    && Injective(index)
    && done <= index.Values
    && forall id :: id in index ==> (index[id] in done <==> id !in todo)
  }

  lemma ProcessedNone(index: map<string, nat>)
    requires Injective(index)
    ensures Processed(index, index.Keys, {})
  {
  }

  lemma ProcessedStep(index: map<string, nat>, todo: set<string>, done: set<nat>, id: string)
    requires Processed(index, todo, done) && id in todo && id in index
    ensures index[id] !in done && Processed(index, todo - {id}, done + {index[id]})
  {
  }

  function Delivered(rs: seq<Rpc>, done: set<nat>, err: Error): seq<Rpc> {
    seq(|rs|, i requires 0 <= i < |rs| => if i in done then Correlation.DeliverError(rs[i], err) else rs[i])
  }

  lemma DeliveredAll(c: Core, done: set<nat>, err: Error)
    requires c.listeners == {} && Processed(c.table, {}, done)
    ensures Correlation.DispatchError(c.(listeners := {Replies}), err).(listeners := {})
            == c.(rpcs := Delivered(c.rpcs, done, err), table := map[])
  {
    assert forall i :: i in done <==> i in c.table.Values;
  }

  lemma DeliveredNone(rs: seq<Rpc>, err: Error)
    ensures Delivered(rs, {}, err) == rs
  {
  }

  lemma DeliveredStep(rs: seq<Rpc>, done: set<nat>, i: nat, err: Error)
    requires i < |Delivered(rs, done, err)| && i !in done
    ensures Delivered(rs, done + {i}, err)
            == Delivered(rs, done, err)[i := Correlation.DeliverError(Delivered(rs, done, err)[i], err)]
  {
  }

  /** The fields of a session that its loop and its parser work on.  `alive` says whether the loop runs; the
      other ghost fields are the histories of `SessionRuns` and `Correlation`. */
  class Session {
    const device: Device
    const replies: RPCReplyListener
    var msgId: int
    var listeners: set<Listener>
    var notificationQ: seq<string>
    var q: seq<string>
    var buffer: string
    var messageList: seq<string>
    var base: Base
    var connected: bool
    var closing: bool
    ghost var alive: bool
    ghost var log: seq<string>
    ghost var sent: seq<string>
    ghost var bases: seq<Base>
    ghost var written: string
    ghost var taken: seq<string>

    /** A session whose transport is up, with its notification handler installed. */
    constructor (device: Device)
      ensures Valid() && fresh(replies) && replies.constructed == []
      ensures Core() == Initial().Core() && this.device == device
      ensures Transport() == ([], ("", [], Base10), (true, true, false), ([], [], "", []))
    {
      this.device := device;
      replies := new RPCReplyListener();
      msgId, listeners, notificationQ, log := -1, {Notifications}, [], [];
      q, buffer, messageList, base := [], "", [], Base10;
      connected, closing, alive := true, false, true;
      sent, bases, written, taken := [], [], "", [];
    }

    ghost predicate Valid()
      reads this, replies, replies.constructed
    {
      -1 <= msgId && replies.Valid()
    }

    ghost function Core(): Core
      reads this, replies, replies.constructed
    {
      replies.Core().(msgId := msgId, listeners := listeners, notifications := notificationQ, log := log)
    }

    lemma ValidInRange()
      requires Valid()
      ensures InRange(Core())
    {
    }

    /** Everything else: the parser's fields, the queue, the flags and the histories. */
    ghost function Transport(): (seq<string>, (string, seq<string>, Base), (bool, bool, bool),
                                 (seq<string>, seq<Base>, string, seq<string>))
      reads this
    {
      (q, (buffer, messageList, base), (alive, connected, closing), (sent, bases, written, taken))
    }

    method NextId() returns (id: string)
      requires -1 <= msgId
      modifies this`msgId
      ensures msgId == old(msgId) + 1 && id == Dec(msgId)
    {
      msgId := msgId + 1;
      id := Dec(msgId);
    }

    method InstallReplyListener()
      modifies this`listeners
      ensures listeners == old(listeners) + {Replies}
    {
      if Replies !in listeners {
        listeners := listeners + {Replies};
      }
    }

    /** Registering a fresh request under the id just taken. */
    method Enter(rpc: RPC)
      requires Valid() && 0 <= msgId && rpc.id == Dec(msgId) && rpc.Value() == Fresh(rpc.id)
      requires rpc !in replies.constructed
      modifies replies
      ensures Valid() && replies.constructed == old(replies.constructed) + [rpc]
      ensures var c := old(Core());
              Core() == c.(rpcs := c.rpcs + [Fresh(rpc.id)], table := c.table[rpc.id := |c.rpcs|])
    {
      hide Fresh, Dec;
      replies.Register(rpc.id, rpc);
      assert Values(replies.constructed) == old(Values(replies.constructed)) + [rpc.Value()];
    }

    /** One listener's `callback`. */
    method CallListener(l: Listener, root: Root, raw: string) returns (e: Option<Error>)
      requires Valid()
      modifies this`notificationQ, replies, replies.constructed
      ensures Valid() && replies.constructed == old(replies.constructed)
      ensures InRange(old(Core())) && (Core(), e) == Callback(device, l, old(Core()), root, raw)
    {
      match l
      case Replies =>
        e := replies.Callback(root, raw);
      case Notifications =>
        if root.tag != NotificationTag {
          return None;
        }
        if !device.wellFormed(raw) {
          return Some(MalformedXml(raw));
        }
        notificationQ := notificationQ + [raw];
        e := None;
    }

    /** The loop over `list(self._listeners)`: a set, enumerated in any order. */
    method CallListeners(root: Root, raw: string) returns (e: Option<Error>)
      requires Valid()
      modifies this`notificationQ, replies, replies.constructed
      ensures Valid() && replies.constructed == old(replies.constructed)
      ensures InRange(old(Core())) && (Core(), e) == Callbacks(device, listeners, old(Core()), root, raw)
    {
      hide Callbacks, Callback;
      var todo := listeners;
      ghost var done: set<Listener> := {};
      ghost var was := Core();
      NoCallbacks(device, was, root, raw);
      e := None;
      while todo != {}
        invariant e == None && todo + done == listeners && todo !! done
        invariant Valid() && replies.constructed == old(replies.constructed)
        invariant InRange(was) && (Core(), None) == Callbacks(device, done, was, root, raw)
        decreases |todo|
      {
        var l :| l in todo;
        CallbacksStep(device, done, l, listeners, was, root, raw);
        e := CallListener(l, root, raw);
        if e.Some? {
          return;
        }
        todo, done := todo - {l}, done + {l};
      }
      assert done == listeners;
    }

    method DispatchMessage(raw: string) returns (e: Option<Error>)
      requires Valid()
      modifies this`notificationQ, this`log, replies, replies.constructed
      ensures Valid() && replies.constructed == old(replies.constructed)
      ensures InRange(old(Core())) && (Core(), e) == Dispatch(device, old(Core()), raw)
    {
      log := log + [raw];
      assert Core() == old(Core()).(log := log);
      var root := device.parseRoot(raw);
      if root.None? {
        match device.handleRaw(raw) {
          case Repaired(raw') =>
            root := device.parseRoot(raw');
            if root.None? {
              return Some(MalformedXml(raw'));
            }
          case Refused(err) =>
            DispatchError(err);
            return None;
          case Ignored =>
            return None;
        }
      }
      e := CallListeners(root.value, raw);
    }

    method DispatchError(err: Error)
      requires Valid()
      modifies replies, replies.constructed
      ensures Valid() && replies.constructed == old(replies.constructed)
      ensures Core() == Correlation.DispatchError(old(Core()), err)
    {
      if Replies in listeners {
        replies.Errback(err);
      }
    }

    method Send(message: string) returns (ok: bool)
      modifies this`q, this`sent
      ensures ok == connected
      ensures q == if ok then old(q) + [message] else old(q)
      ensures sent == if ok then old(sent) + [message] else old(sent)
    {
      ok := connected;
      if ok {
        q := q + [message];
        sent := sent + [message];
      }
    }

    method TakeNotification() returns (n: Option<string>)
      modifies this`notificationQ, this`taken
      ensures old(notificationQ) == (if n.Some? then [n.value] else []) + notificationQ
      ensures n.None? <==> old(notificationQ) == []
      ensures taken == if n.Some? then old(taken) + [n.value] else old(taken)
    {
      if notificationQ == [] {
        n := None;
      } else {
        n := Some(notificationQ[0]);
        taken := taken + [notificationQ[0]];
        notificationQ := notificationQ[1..];
      }
    }

    method Close()
      modifies this`closing, this`connected
      ensures closing && !connected
    {
      closing := true;
      connected := false;
    }

    /** The write loop.  The transport's answers are given; one at most zero ends the loop. */
    method WriteAll(frame: string, writes: seq<int>) returns (data: string)
      modifies this`written
      ensures var (done, left) := SendAll(frame, writes); data == left && written == old(written) + done
    {
      data := frame;
      var results := writes;
      while data != ""
        invariant var (done, left) := SendAll(frame, writes);
                  var (done', left') := SendAll(data, results);
                  left' == left && written + done' == old(written) + done
        decreases |data|
      {
        var n := if results == [] || results[0] > |data| then |data| else results[0];
        if n <= 0 {
          assert written + "" == written;
          return;
        }
        ghost var before, piece := written, data[..n];
        ghost var later := SendAll(data[n..], if results == [] then [] else results[1..]).0;
        Assoc(before, piece, later);
        written := written + data[..n];
        data := data[n..];
        results := if results == [] then [] else results[1..];
      }
      assert written + "" == written;
    }

    method HandleInput(parser: DefaultXMLParser, input: Input) returns (exit: Exit)
      requires Valid() && parser.session == this
      modifies this`buffer, this`messageList, this`notificationQ, this`log, parser, replies, replies.constructed
      ensures Valid() && replies.constructed == old(replies.constructed)
      ensures InRange(old(Core())) && (parser.Sys(), exit) == Receive(device, old(parser.Sys()), input)
    {
      if input.Quiet? {
        return Continue;
      }
      if input.data != "" {
        var e := parser.Parse(input.data);
        exit := if e.Some? then Raise(e.value) else Continue;
      } else if closing {
        exit := Break;
      } else {
        exit := Raise(SessionClosed(buffer, ""));
      }
    }

    /** The bytes of a message, framed as the session's base says. */
    method Framed(message: string) returns (data: string)
      ensures data == SessionRuns.Frame(base, message)
    {
      if base == Base11 {
        data := Chunked.Header(Dec(|message|)) + message + Chunked.END_DELIM;
      } else {
        data := message + Eom.MSG_DELIM;
      }
    }

    method SendNext(ready: bool, writes: seq<int>, ghost parser: DefaultXMLParser) returns (exit: Exit)
      requires parser.session == this
      modifies this`q, this`bases, this`written
      ensures (parser.Sys(), exit) == Transmit(old(parser.Sys()), ready, writes)
    {
      hide SessionRuns.Frame, SendAll, Values;
      if q == [] || !ready {
        return Continue;
      }
      var data := Framed(q[0]);
      q := q[1..];
      bases := bases + [base];
      var left := WriteAll(data, writes);
      exit := if left == "" then Continue else Raise(SessionClosed(buffer, left));
    }

    /** One turn of the main loop: the read that `select` announced, if any, then one message of the queue. */
    method Turn(parser: DefaultXMLParser, input: Input, ready: bool, writes: seq<int>) returns (exit: Exit)
      requires Valid() && parser.session == this
      modifies this, parser, replies, replies.constructed
      ensures Valid() && replies.constructed == old(replies.constructed)
      ensures InRange(old(Core()))
      ensures (parser.Sys(), exit) == SessionRuns.Turn(device, old(parser.Sys()), input, ready, writes)
    {
      exit := HandleInput(parser, input);
      if exit == Continue {
        exit := SendNext(ready, writes, parser);
      }
    }

    /** The loop is over, with a closed session if it failed. */
    method Stop(failed: bool)
      modifies this`alive, this`closing, this`connected
      ensures !alive && closing == (old(closing) || failed) && connected == (old(connected) && !failed)
    {
      if failed {
        Close();
      }
      alive := false;
    }

    /** What follows a turn: nothing, or the end of the loop; an exception is told to the listeners before the
        session closes. */
    method Finish(exit: Exit, ghost parser: DefaultXMLParser) returns (running: bool)
      requires Valid() && parser.session == this
      modifies this`alive, this`closing, this`connected, replies, replies.constructed
      ensures Valid() && replies.constructed == old(replies.constructed)
      ensures parser.Sys() == Settle(old(parser.Sys()), exit) && running == (exit == Continue)
    {
      hide Correlation.DispatchError, Values;
      running := exit == Continue;
      if exit.Raise? {
        DispatchError(exit.error);
      }
      if !running {
        Stop(exit.Raise?);
      }
    }

    /** The main loop, for as many turns as are given or until it ends. */
    method Run(parser: DefaultXMLParser, turns: seq<(Input, bool, seq<int>)>)
      requires Valid() && parser.session == this && alive && Inv(Core())
      modifies this, parser, replies, replies.constructed
      ensures Valid() && Inv(old(Core()))
      ensures parser.Sys() == SessionRuns.Run(device, old(parser.Sys()), LoopEvents(turns))
    {
      hide SessionRuns.Run, SessionRuns.Turn, SessionRuns.Settle, LoopEvents, Inv, Values;
      var i, running := 0, true;
      assert turns[0..] == turns;
      while i < |turns| && running
        invariant i <= |turns| && running == alive && Inv(Core())
        invariant Valid() && replies.constructed == old(replies.constructed)
        invariant SessionRuns.Run(device, old(parser.Sys()), LoopEvents(turns))
                  == SessionRuns.Run(device, parser.Sys(), LoopEvents(turns[i..]))
      {
        ghost var before := parser.Sys();
        var (input, ready, writes) := turns[i];
        LoopEventsStep(device, before, turns, i);
        var exit := Turn(parser, input, ready, writes);
        running := Finish(exit, parser);
        i := i + 1;
      }
      EndedLoopTurns(device, parser.Sys(), turns[i..]);
    }
  }

  function LoopEvents(turns: seq<(Input, bool, seq<int>)>): seq<Event> {
    seq(|turns|, i requires 0 <= i < |turns| => Loop(turns[i].0, turns[i].1, turns[i].2))
  }

  lemma LoopEventsStep(dev: Device, s: Sys, turns: seq<(Input, bool, seq<int>)>, i: nat)
    requires Inv(s.Core()) && i < |turns|
    ensures var (mid, exit) := SessionRuns.Turn(dev, s, turns[i].0, turns[i].1, turns[i].2);
            var s' := if s.alive then Settle(mid, exit) else s;
            Inv(s'.Core()) && s'.alive == (s.alive && exit == Continue) &&
            SessionRuns.Run(dev, s, LoopEvents(turns[i..])) == SessionRuns.Run(dev, s', LoopEvents(turns[i + 1..]))
  {
    var (input, ready, writes) := turns[i];
    StepKeepsRunnable(dev, s, Loop(input, ready, writes));
    LoopStepSettles(dev, s, input, ready, writes);
    hide SessionRuns.Turn, Step, Settle, Inv, InRange;
    assert LoopEvents(turns[i..])[1..] == LoopEvents(turns[i + 1..]);
  }

  lemma LoopStepSettles(dev: Device, s: Sys, input: Input, ready: bool, writes: seq<int>)
    requires InRange(s.Core()) && -1 <= s.Core().msgId
    ensures var (mid, exit) := SessionRuns.Turn(dev, s, input, ready, writes);
            && Step(dev, s, Loop(input, ready, writes)) == (if s.alive then Settle(mid, exit) else s)
            && mid.alive == s.alive && (Settle(mid, exit).alive <==> s.alive && exit == Continue)
  {
    hide Parse, SendAll, SessionRuns.Frame, Correlation.DispatchError;
  }

  /** Turns after the loop has ended change nothing. */
  lemma {:induction false} EndedLoopTurns(dev: Device, s: Sys, turns: seq<(Input, bool, seq<int>)>)
    requires Inv(s.Core()) && (turns == [] || !s.alive)
    ensures SessionRuns.Run(dev, s, LoopEvents(turns)) == s
    decreases |turns|
  {
    if turns != [] {
      LoopEventsStep(dev, s, turns, 0);
      assert turns[0..] == turns;
      hide SessionRuns.Turn, SessionRuns.Run, LoopEvents;
      EndedLoopTurns(dev, s, turns[1..]);
    }
  }

  /** The parser object: it keeps its resume position and works on the session's buffer. */
  class DefaultXMLParser {
    const session: Session
    var parsingPos10: nat

    constructor (session: Session)
      ensures this.session == session && parsingPos10 == 0
    {
      this.session := session;
      parsingPos10 := 0;
    }

    ghost predicate Valid()
      reads this, session, session.replies, session.replies.constructed
    {
      session.Valid()
    }

    ghost function Inbound(): Inbound
      reads this, session, session.replies, session.replies.constructed
    {
      Receiving.Inbound(session.Core(), session.base, session.buffer, session.messageList, parsingPos10)
    }

    /** The whole state, as `SessionRuns` sees it. */
    ghost function Sys(): Sys
      reads this, session, session.replies, session.replies.constructed
    {
      SessionRuns.Sys(Inbound(), session.q, session.alive, session.connected, session.closing,
                      session.sent, session.bases, session.written, session.taken)
    }

    method Parse(data: string) returns (e: Option<Error>)
      requires Valid()
      modifies this, session`buffer, session`messageList, session`notificationQ, session`log,
               session.replies, session.replies.constructed
      ensures Valid() && session.replies.constructed == old(session.replies.constructed)
      ensures InRange(old(session.Core())) && (Inbound(), e) == Receiving.Parse(session.device, old(Inbound()), data)
    {
      e := None;
      if data != "" {
        session.buffer := session.buffer + data;
        if session.base == Base11 {
          e := Parse11();
        } else {
          e := Parse10();
        }
      }
    }

    method Parse10() returns (e: Option<Error>)
      requires Valid()
      modifies this, session`buffer, session`notificationQ, session`log, session.replies, session.replies.constructed
      ensures Valid() && session.replies.constructed == old(session.replies.constructed)
      ensures InRange(old(session.Core())) && (Inbound(), e) == Receiving.Parse10(session.device, old(Inbound()))
      decreases |session.buffer|
    {
      hide Dispatch, Strip, Eom.Find, Eom.FindFrom, Values, InRange, Receiving.Parse10;
      session.ValidInRange();
      Parse10Round(session.device, Inbound());
      e := None;
      var buf := session.buffer;
      if Eom.FindFrom(buf, parsingPos10).Some? {
        var i := Eom.Find(buf).value;
        var msg, remaining := buf[..i], buf[i + 6..];
        e := session.DispatchMessage(Strip(msg));
        if e.Some? {
          return;
        }
        session.buffer := "";
        parsingPos10 := 0;
        if |Strip(remaining)| > 0 {
          session.buffer := session.buffer + remaining;
          assert session.buffer == remaining;
          e := Parse10();
        }
      } else {
        parsingPos10 := if |buf| < 6 then 0 else |buf| - 6;
      }
    }

    /** The loop of `_parse11`, up to an end mark, if it finds one: `start` is where it stops. */
    method TakeChunks(data: string) returns (start: nat, ended: bool)
      modifies session`messageList
      ensures start <= |data|
      ensures Gather(old(session.messageList), data) == (session.messageList, data[start..], ended)
      ensures start == 0 ==> session.messageList == old(session.messageList) && !ended
    {
      hide Gather, Chunked.MatchDelim, Chunked.NextToken;
      start, ended := 0, false;
      assert data[0..] == data;
      while start < |data|
        invariant start <= |data| && !ended
        invariant Gather(old(session.messageList), data) == Gather(session.messageList, data[start..])
        invariant start == 0 ==> session.messageList == old(session.messageList)
        decreases |data| - start
      {
        GatherStep(session.messageList, data, start);
        var delim := Chunked.MatchDelim(data[start..]);
        if delim.NoDelim? {
          return;
        }
        if delim.EndDelim? {
          start, ended := start + 4, true;
          return;
        }
        if |data| - start < delim.header + delim.size {
          return;
        }
        var fragment := data[start + delim.header..start + delim.header + delim.size];
        session.messageList := session.messageList + [fragment];
        start := start + delim.header + delim.size;
      }
      GatherStep(session.messageList, data, start);
    }

    /** At an end mark: the fragments are a message. */
    method DispatchFragments() returns (e: Option<Error>)
      requires Valid()
      modifies session`messageList, session`notificationQ, session`log, session.replies, session.replies.constructed
      ensures Valid() && session.replies.constructed == old(session.replies.constructed)
      ensures InRange(old(session.Core())) && session.messageList == []
      ensures (session.Core(), e) == Dispatch(session.device, old(session.Core()), Join(old(session.messageList)))
    {
      hide Dispatch, Values, Join;
      var message := Join(session.messageList);
      session.messageList := [];
      e := session.DispatchMessage(message);
    }

    method Parse11() returns (e: Option<Error>)
      requires Valid()
      modifies this, session`buffer, session`messageList, session`notificationQ, session`log,
               session.replies, session.replies.constructed
      ensures Valid() && session.replies.constructed == old(session.replies.constructed)
      ensures InRange(old(session.Core())) && (Inbound(), e) == Receiving.Parse11(session.device, old(Inbound()))
      decreases |session.buffer|
    {
      hide Gather, Dispatch, Receiving.Parse11, Values, Join, InRange;
      session.ValidInRange();
      Parse11Round(session.device, Inbound());
      e := None;
      var data := session.buffer;
      var start, ended := TakeChunks(data);
      if ended {
        e := DispatchFragments();
        if e.Some? {
          return;
        }
      }
      if start > 0 {
        session.buffer := data[start..];
        if start < |data| {
          e := Parse11();
        } else {
          session.ValidInRange();
          Parse11Idle(session.device, Inbound());
        }
      } else {
        assert data[0..] == data;
      }
    }
  }

  /** One round of the parser of chunked framing, and, without an end mark, no second one. */
  lemma Parse11Round(dev: Device, s: Inbound)
    requires InRange(s.core)
    ensures var (frags, rest, ended) := Gather(s.fragments, s.buffer);
            if ended then
              var (c, e) := Dispatch(dev, s.core, Join(frags));
              var s' := s.(core := c, fragments := []);
              InRange(c) &&
              Receiving.Parse11(dev, s) == if e.Some? then (s', e) else Receiving.Parse11(dev, s'.(buffer := rest))
            else
              var s' := s.(fragments := frags, buffer := rest);
              Receiving.Parse11(dev, s) == (s', None) == Receiving.Parse11(dev, s')
  {
    hide Gather, Dispatch;
    var (frags, rest, ended) := Gather(s.fragments, s.buffer);
    if ended {
      DispatchInRange(dev, s.core, Join(frags));
    } else {
      GatherTwice(s.fragments, s.buffer);
    }
  }

  /** One token for the loop that takes chunks. */
  lemma GatherStep(frags: seq<string>, data: string, start: nat)
    requires start <= |data|
    ensures var d := Chunked.MatchDelim(data[start..]);
            Gather(frags, data[start..]) ==
            if d.NoDelim? then (frags, data[start..], false)
            else if d.EndDelim? then (frags, data[start + 4..], true)
            else if |data| - start < d.header + d.size then (frags, data[start..], false)
            else Gather(frags + [data[start + d.header..start + d.header + d.size]], data[start + d.header + d.size..])
  {
    hide Chunked.MatchDelim, Gather;
    var s := data[start..];
    var d := Chunked.MatchDelim(s);
    GatherFront(frags, s);
    if d.EndDelim? {
      assert s[4..] == data[start + 4..];
    } else if d.ChunkDelim? && d.header + d.size <= |s| {
      assert s[d.header..d.header + d.size] == data[start + d.header..start + d.header + d.size];
      assert s[d.header + d.size..] == data[start + d.header + d.size..];
    }
  }

  lemma GatherFront(frags: seq<string>, s: string)
    ensures var d := Chunked.MatchDelim(s);
            Gather(frags, s) ==
            if d.NoDelim? then (frags, s, false)
            else if d.EndDelim? then (frags, s[4..], true)
            else if |s| < d.header + d.size then (frags, s, false)
            else Gather(frags + [s[d.header..d.header + d.size]], s[d.header + d.size..])
  {
    hide Chunked.MatchDelim, Chunked.Print;
    var d := Chunked.MatchDelim(s);
    if d.ChunkDelim? && d.header + d.size <= |s| {
      Chunked.TokenLength(s);
    } else if d.EndDelim? {
      EndLength();
    }
  }

  lemma EndLength()
    ensures |Chunked.Print(Chunked.End)| == 4
  {
  }

  /** What the loop leaves without an end mark, it leaves again. */
  lemma {:induction false} GatherTwice(frags: seq<string>, data: string)
    requires !Gather(frags, data).2
    ensures var (frags', rest, _) := Gather(frags, data);
            Gather(frags', rest) == (frags', rest, false)
    decreases |data|
  {
    var t := Chunked.NextToken(data);
    if t.Some? {
      Chunked.NextTokenSound(data);
      GatherTwice(frags + [t.value.payload], data[|Chunked.Print(t.value)|..]);
    }
  }

  /** On an empty buffer the parser does nothing. */
  lemma Parse11Idle(dev: Device, s: Inbound)
    requires InRange(s.core)
    ensures s.buffer == "" ==> Receiving.Parse11(dev, s) == (s, None)
  {
  }

  lemma NoCallbacks(dev: Device, c: Core, root: Root, raw: string)
    requires InRange(c)
    ensures Callbacks(dev, {}, c, root, raw) == (c, None)
  {
  }

  lemma CallbacksStep(dev: Device, done: set<Listener>, l: Listener, all: set<Listener>,
                      c: Core, root: Root, raw: string)
    requires InRange(c) && l !in done && l in all
    requires Callbacks(dev, done, c, root, raw).1.None?
    ensures var c' := Callbacks(dev, done, c, root, raw).0;
            && InRange(c')
            && Callback(dev, l, c', root, raw) == Callbacks(dev, done + {l}, c, root, raw)
            && (Callback(dev, l, c', root, raw).1.Some? ==>
                  Callback(dev, l, c', root, raw) == Callbacks(dev, all, c, root, raw))
  {
  }
}
