/**
 What a session knows about its requests, and what a message or an error from the peer does to it.

 State is a value here and every operation a function, so that properties of whole runs can be
 stated; the classes in module `SessionObjects` are proved to compute these functions.
 */
module Correlation {
  import opened Strings

  datatype Error =
    | MissingMessageId
    | UnknownMessageId(id: string)
    | SessionClosed(inBuffer: string, outBuffer: string)
    | MalformedXml(raw: string)
    | DeviceRejected(reason: string)

  // Messages

  datatype Tag = ReplyTag | NotificationTag | OtherTag

  /** The qualified name of a root element, and its `message-id` attribute if it has one. */
  datatype Root = Root(tag: Tag, messageId: Option<string>)

  /** What a device handler makes of a message whose root cannot be parsed. */
  datatype Handled = Repaired(raw: string) | Refused(error: Error) | Ignored

  /** The parts of a device and of the XML library that decide where a message goes. */
  datatype Device = Device(parseRoot: string -> Option<Root>,
                           handleRaw: string -> Handled,
                           wellFormed: string -> bool)

  /** The root under which a message is dispatched, after any repair. */
  function RootOf(dev: Device, raw: string): Option<Root> {
    match dev.parseRoot(raw)
    case Some(root) => Some(root)
    case None =>
      match dev.handleRaw(raw)
      case Repaired(raw') => dev.parseRoot(raw')
      case _ => None
  }

  // Requests

  /** An `RPC` object.  `deliveries` counts the calls to `deliver_reply` and `deliver_error`. */
  datatype Rpc = Rpc(id: string, reply: Option<string>, error: Option<Error>, event: bool, deliveries: nat)

  function Fresh(id: string): Rpc {
    Rpc(id, None, None, false, 0)
  }

  function DeliverReply(r: Rpc, raw: string): Rpc {
    r.(reply := Some(raw), event := true, deliveries := r.deliveries + 1)
  }

  function DeliverError(r: Rpc, e: Error): Rpc {
    r.(error := Some(e), event := true, deliveries := r.deliveries + 1)
  }

  /** Constructed and without an outcome: the event is unset and nothing was delivered. */
  predicate Pending(r: Rpc) {
    r.reply.None? && r.error.None? && !r.event && r.deliveries == 0
  }

  /** Delivered exactly once: the event is set and there is a reply or an error, not both. */
  predicate Resolved(r: Rpc) {
    r.reply.Some? != r.error.Some? && r.event && r.deliveries == 1
  }

  // The session's side of the exchange

  datatype Listener = Replies | Notifications

  /**
   `rpcs` holds every request in order of construction, and `table` (`_id2rpc`) the position of the
   request registered under each id.  `log` is the history of `_dispatch_message` calls.
   */
  datatype Core = Core(msgId: int, listeners: set<Listener>, rpcs: seq<Rpc>, table: map<string, nat>,
                       notifications: seq<string>, log: seq<string>)

  predicate InRange(c: Core) {
    forall id :: id in c.table ==> c.table[id] < |c.rpcs|
  }

  /** Taking an id, creating the reply listener on first use, and registering. */
  function NewRpc(c: Core): Core
    requires -1 <= c.msgId
  {
    var id := Dec(c.msgId + 1);
    c.(msgId := c.msgId + 1, listeners := c.listeners + {Replies},
       rpcs := c.rpcs + [Fresh(id)], table := c.table[id := |c.rpcs|])
  }

  /** The request registered under `id` gets its reply. */
  function Answered(c: Core, id: string, raw: string): Core
    requires InRange(c) && id in c.table
  {
    var i := c.table[id];
    c.(rpcs := c.rpcs[i := DeliverReply(c.rpcs[i], raw)], table := c.table - {id})
  }

  /** `RPCReplyListener.callback`. */
  function ReplyCallback(c: Core, root: Root, raw: string): (Core, Option<Error>)
    requires InRange(c)
  {
    if root.tag != ReplyTag then (c, None)
    else match root.messageId
      case None => (c, Some(MissingMessageId))
      case Some(id) =>
        if id in c.table then (Answered(c, id, raw), None) else (c, Some(UnknownMessageId(id)))
  }

  /** `NotificationHandler.callback`. */
  function NotificationCallback(dev: Device, c: Core, root: Root, raw: string): (Core, Option<Error>) {
    if root.tag != NotificationTag then (c, None)
    else if !dev.wellFormed(raw) then (c, Some(MalformedXml(raw)))
    else (c.(notifications := c.notifications + [raw]), None)
  }

  function Callback(dev: Device, l: Listener, c: Core, root: Root, raw: string): (Core, Option<Error>)
    requires InRange(c)
  {
    match l
    case Replies => ReplyCallback(c, root, raw)
    case Notifications => NotificationCallback(dev, c, root, raw)
  }

  /** All listeners of a set, in no order that matters: a root concerns at most one of them. */
  function Callbacks(dev: Device, ls: set<Listener>, c: Core, root: Root, raw: string): (Core, Option<Error>)
    requires InRange(c)
  {
    if root.tag == ReplyTag && Replies in ls then ReplyCallback(c, root, raw)
    else if root.tag == NotificationTag && Notifications in ls then NotificationCallback(dev, c, root, raw)
    else (c, None)
  }

  /** Calling the listeners one by one, stopping at the first exception. */
  function CallInTurn(dev: Device, order: seq<Listener>, c: Core, root: Root, raw: string): (Core, Option<Error>)
    requires InRange(c)
  {
    if order == [] then (c, None)
    else
      var (c', e) := Callback(dev, order[0], c, root, raw);
      if e.Some? then (c', e) else CallInTurn(dev, order[1..], c', root, raw)
  }

  /** `RPCReplyListener.errback`, when that listener is installed. */
  function DispatchError(c: Core, e: Error): (c': Core)
    ensures |c'.rpcs| == |c.rpcs|
  {
    if Replies !in c.listeners then c
    else c.(rpcs := seq(|c.rpcs|, i requires 0 <= i < |c.rpcs| =>
                          if i in c.table.Values then DeliverError(c.rpcs[i], e) else c.rpcs[i]),
            table := map[])
  }

  /** `Session._dispatch_message`: the error is an exception that leaves it. */
  function Dispatch(dev: Device, c: Core, raw: string): (Core, Option<Error>)
    requires InRange(c)
  {
    var c := c.(log := c.log + [raw]);
    match dev.parseRoot(raw)
    case Some(root) => Callbacks(dev, c.listeners, c, root, raw)
    case None =>
      match dev.handleRaw(raw)
      case Repaired(raw') =>
        (match dev.parseRoot(raw')
         case Some(root) => Callbacks(dev, c.listeners, c, root, raw)
         case None => (c, Some(MalformedXml(raw'))))
      case Refused(e) => (DispatchError(c, e), None)
      case Ignored => (c, None)
  }

  lemma DispatchInRange(dev: Device, c: Core, raw: string)
    requires InRange(c)
    ensures InRange(Dispatch(dev, c, raw).0)
  {
  }

  /** Dispatching messages in order, stopping at the first exception. */
  function DispatchAll(dev: Device, c: Core, ms: seq<string>): (Core, Option<Error>)
    requires InRange(c)
    decreases |ms|
  {
    if ms == [] then (c, None)
    else
      var (c', e) := Dispatch(dev, c, ms[0]);
      DispatchInRange(dev, c, ms[0]);
      if e.Some? then (c', e) else DispatchAll(dev, c', ms[1..])
  }

  lemma {:induction false} DispatchAllInRange(dev: Device, c: Core, ms: seq<string>)
    requires InRange(c)
    ensures InRange(DispatchAll(dev, c, ms).0)
    decreases |ms|
  {
    if ms != [] {
      DispatchInRange(dev, c, ms[0]);
      if Dispatch(dev, c, ms[0]).1.None? {
        DispatchAllInRange(dev, Dispatch(dev, c, ms[0]).0, ms[1..]);
      }
    }
  }

  lemma DispatchFirst(dev: Device, c: Core, m: string, ms: seq<string>)
    requires InRange(c)
    ensures var (c', e) := Dispatch(dev, c, m);
            InRange(c') && DispatchAll(dev, c, [m] + ms) == if e.Some? then (c', e) else DispatchAll(dev, c', ms)
  {
    hide Dispatch;
    DispatchInRange(dev, c, m);
    assert ([m] + ms)[1..] == ms;
  }

  lemma {:induction false} DispatchAllConcat(dev: Device, c: Core, a: seq<string>, b: seq<string>)
    requires InRange(c)
    ensures var (c', e) := DispatchAll(dev, c, a);
            InRange(c') && DispatchAll(dev, c, a + b) == if e.Some? then (c', e) else DispatchAll(dev, c', b)
    decreases |a|
  {
    DispatchAllInRange(dev, c, a);
    if a == [] {
      assert a + b == b;
    } else {
      assert (a + b)[1..] == a[1..] + b;
      DispatchInRange(dev, c, a[0]);
      if Dispatch(dev, c, a[0]).1.None? {
        DispatchAllConcat(dev, Dispatch(dev, c, a[0]).0, a[1..], b);
      }
    }
  }

  /** Whatever order the listener set is enumerated in, the effect and the exception are the same. */
  lemma {:induction false} ListenerOrderIrrelevant(dev: Device, ls: set<Listener>, order: seq<Listener>,
                                                   c: Core, root: Root, raw: string)
    requires InRange(c)
    requires forall l :: l in order <==> l in ls
    requires forall i, j :: 0 <= i < j < |order| ==> order[i] != order[j]
    ensures CallInTurn(dev, order, c, root, raw) == Callbacks(dev, ls, c, root, raw)
  {
    if order == [] {
      assert ls == {};
    } else {
      var l := order[0];
      var c' := Callback(dev, l, c, root, raw).0;
      if Callback(dev, l, c, root, raw).1.None? {
        assert forall k :: k in order[1..] <==> k in ls - {l};
        ListenerOrderIrrelevant(dev, ls - {l}, order[1..], c', root, raw);
      }
    }
  }

  // The invariant

  /** Every request is either pending, and then in the table under its own id, or resolved, and then
      not in the table.  Ids are the decimals of the positions; nothing else is in the table. */
  ghost predicate Inv(c: Core) {
    && c.msgId == |c.rpcs| - 1
    && (Replies !in c.listeners ==> c.rpcs == [])
    && (forall i :: 0 <= i < |c.rpcs| ==> c.rpcs[i].id == Dec(i))
    && InRange(c)
    && (forall id :: id in c.table ==> c.rpcs[c.table[id]].id == id)
    && (forall i :: 0 <= i < |c.rpcs| ==>
          if c.rpcs[i].id in c.table then Pending(c.rpcs[i]) else Resolved(c.rpcs[i]))
  }

  /** The request registered under the id of request `i` is request `i`. */
  lemma TableEntry(c: Core, i: nat)
    requires Inv(c) && i < |c.rpcs| && c.rpcs[i].id in c.table
    ensures c.table[c.rpcs[i].id] == i
  {
    DecInjective(i, c.table[c.rpcs[i].id]);
  }

  /** Pending requests are exactly the values of the table. */
  lemma PendingIffRegistered(c: Core, i: nat)
    requires Inv(c) && i < |c.rpcs|
    ensures Pending(c.rpcs[i]) <==> i in c.table.Values
  {
    if c.rpcs[i].id in c.table {
      TableEntry(c, i);
    }
    if i in c.table.Values {
      var id :| id in c.table && c.table[id] == i;
    }
  }

  /** An id just issued is not in the table, so that registering it replaces nothing. */
  lemma FreshIdUnregistered(c: Core)
    requires Inv(c)
    ensures Dec(c.msgId + 1) !in c.table
  {
    if Dec(c.msgId + 1) in c.table {
      DecInjective(c.msgId + 1, c.table[Dec(c.msgId + 1)]);
    }
  }

  /** `c'` may follow `c`: requests are never lost or renamed, and an outcome is never changed. */
  ghost predicate Follows(c: Core, c': Core) {
    && |c.rpcs| <= |c'.rpcs|
    && (forall i :: 0 <= i < |c.rpcs| ==> c'.rpcs[i].id == c.rpcs[i].id)
    && (forall i :: 0 <= i < |c.rpcs| && Resolved(c.rpcs[i]) ==> c'.rpcs[i] == c.rpcs[i])
    && c.log <= c'.log
  }

  lemma FollowsTransitive(a: Core, b: Core, c: Core)
    requires Follows(a, b) && Follows(b, c)
    ensures Follows(a, c)
  {
  }

  lemma OldRpcKept(c: Core, i: nat)
    requires Inv(c) && i < |c.rpcs|
    ensures var c' := NewRpc(c);
            && c'.rpcs[i] == c.rpcs[i] && c'.rpcs[i].id == Dec(i)
            && if c'.rpcs[i].id in c'.table then Pending(c'.rpcs[i]) else Resolved(c'.rpcs[i])
  {
    if Dec(i) == Dec(|c.rpcs|) {
      DecInjective(i, |c.rpcs|);
    }
  }

  lemma NewTable(c: Core, id: string)
    requires Inv(c) && id in NewRpc(c).table
    ensures var c' := NewRpc(c);
            c'.table[id] < |c'.rpcs| && c'.rpcs[c'.table[id]].id == id
  {
  }

  lemma NewRpcLast(c: Core)
    requires Inv(c)
    ensures var c', n := NewRpc(c), |c.rpcs|;
            && c'.msgId == n && Replies in c'.listeners && c'.log == c.log && |c'.rpcs| == n + 1
            && c'.rpcs[n].id == Dec(n) && Dec(n) in c'.table && Pending(c'.rpcs[n])
  {
  }

  lemma ResolvedNotPending(r: Rpc)
    requires Resolved(r)
    ensures !Pending(r)
  {
  }

  lemma NewRpcKeepsInv(c: Core)
    requires Inv(c)
    ensures Inv(NewRpc(c)) && Follows(c, NewRpc(c))
    ensures Pending(NewRpc(c).rpcs[|c.rpcs|])
  {
    hide Pending, Resolved, Dec, NewRpc;
    var c' := NewRpc(c);
    NewRpcLast(c);
    forall i | 0 <= i < |c.rpcs|
      ensures c'.rpcs[i] == c.rpcs[i] && c'.rpcs[i].id == Dec(i)
      ensures if c'.rpcs[i].id in c'.table then Pending(c'.rpcs[i]) else Resolved(c'.rpcs[i])
    {
      OldRpcKept(c, i);
    }
    forall id | id in c'.table
      ensures c'.table[id] < |c'.rpcs| && c'.rpcs[c'.table[id]].id == id
    {
      NewTable(c, id);
    }
  }

  lemma AnsweredRpc(c: Core, id: string, raw: string, i: nat)
    requires Inv(c) && id in c.table && i < |c.rpcs|
    ensures var c' := Answered(c, id, raw);
            && c'.rpcs[i].id == c.rpcs[i].id
            && (c.rpcs[i].id == id ==> Pending(c.rpcs[i]) && Resolved(c'.rpcs[i]))
            && (c.rpcs[i].id != id ==> c'.rpcs[i] == c.rpcs[i])
  {
    if c.rpcs[i].id == id {
      TableEntry(c, i);
    }
  }

  lemma AnsweredKeepsInv(c: Core, id: string, raw: string)
    requires Inv(c) && id in c.table
    ensures Inv(Answered(c, id, raw)) && Follows(c, Answered(c, id, raw))
  {
    var c' := Answered(c, id, raw);
    hide Pending, Resolved, DeliverReply, Dec;
    forall i | 0 <= i < |c.rpcs|
      ensures c'.rpcs[i].id == c.rpcs[i].id
      ensures if c'.rpcs[i].id in c'.table then Pending(c'.rpcs[i]) else Resolved(c'.rpcs[i])
      ensures Resolved(c.rpcs[i]) ==> c'.rpcs[i] == c.rpcs[i]
    {
      AnsweredRpc(c, id, raw, i);
      if Resolved(c.rpcs[i]) {
        ResolvedNotPending(c.rpcs[i]);
      }
    }
  }

  lemma ReplyCallbackKeepsInv(c: Core, root: Root, raw: string)
    requires Inv(c)
    ensures Inv(ReplyCallback(c, root, raw).0) && Follows(c, ReplyCallback(c, root, raw).0)
  {
    assert InRange(c);
    hide Inv, Follows;
    if root.tag == ReplyTag && root.messageId.Some? && root.messageId.value in c.table {
      AnsweredKeepsInv(c, root.messageId.value, raw);
    } else {
      InvLocal(c, c);
    }
  }

  lemma NothingRegistered(c: Core)
    requires InRange(c) && c.rpcs == []
    ensures c.table == map[]
  {
    if id :| id in c.table {
      assert false;
    }
  }

  lemma DrainedRpcs(c: Core, e: Error)
    requires Inv(c)
    ensures var c' := DispatchError(c, e);
            && c'.table == map[]
            && forall i :: 0 <= i < |c.rpcs| ==>
                 c'.rpcs[i] == if Pending(c.rpcs[i]) then DeliverError(c.rpcs[i], e) else c.rpcs[i]
  {
    var c' := DispatchError(c, e);
    if Replies !in c.listeners {
      NothingRegistered(c);
    } else {
      forall i | 0 <= i < |c.rpcs|
        ensures c'.rpcs[i] == if Pending(c.rpcs[i]) then DeliverError(c.rpcs[i], e) else c.rpcs[i]
      {
        PendingIffRegistered(c, i);
      }
    }
  }

  /** An error drains the table: every request pending at that moment, and no other, is resolved with
      that error. */
  lemma DispatchErrorDrains(c: Core, e: Error)
    requires Inv(c)
    ensures var c' := DispatchError(c, e);
            && Inv(c') && Follows(c, c') && c'.table == map[] && c'.log == c.log
            && c'.notifications == c.notifications && c'.listeners == c.listeners
            && forall i :: 0 <= i < |c.rpcs| ==>
                 c'.rpcs[i] == if Pending(c.rpcs[i]) then DeliverError(c.rpcs[i], e) else c.rpcs[i]
  {
    DrainedRpcs(c, e);
    var c' := DispatchError(c, e);
    assert c'.msgId == c.msgId && c'.listeners == c.listeners && c'.log == c.log;
    assert c'.notifications == c.notifications;
    assert forall i :: 0 <= i < |c.rpcs| ==> Pending(c.rpcs[i]) || Resolved(c.rpcs[i]);
    hide DispatchError;
  }

  /** The invariant looks at the requests and their table only. */
  lemma InvLocal(c: Core, c': Core)
    requires Inv(c)
    requires c'.msgId == c.msgId && c'.listeners == c.listeners && c'.rpcs == c.rpcs && c'.table == c.table
    requires c.log <= c'.log
    ensures Inv(c') && Follows(c, c')
  {
  }

  lemma CallbacksKeepInv(dev: Device, c: Core, root: Root, raw: string)
    requires Inv(c)
    ensures InRange(c) && Inv(Callbacks(dev, c.listeners, c, root, raw).0)
    ensures Follows(c, Callbacks(dev, c.listeners, c, root, raw).0)
    ensures Callbacks(dev, c.listeners, c, root, raw).0.log == c.log
  {
    assert InRange(c);
    hide Inv, Follows;
    var c' := Callbacks(dev, c.listeners, c, root, raw).0;
    if root.tag == ReplyTag && Replies in c.listeners {
      ReplyCallbackKeepsInv(c, root, raw);
    } else {
      InvLocal(c, c');
    }
  }

  lemma DispatchKeepsInv(dev: Device, c: Core, raw: string)
    requires Inv(c)
    ensures InRange(c) && Inv(Dispatch(dev, c, raw).0) && Follows(c, Dispatch(dev, c, raw).0)
    ensures Dispatch(dev, c, raw).0.log == c.log + [raw]
  {
    assert InRange(c);
    hide Inv, Follows, Callbacks, DispatchError;
    var d := c.(log := c.log + [raw]);
    InvLocal(c, d);
    match RootOf(dev, raw)
    case Some(root) =>
      CallbacksKeepInv(dev, d, root, raw);
      FollowsTransitive(c, d, Dispatch(dev, c, raw).0);
    case None =>
      if dev.handleRaw(raw).Refused? {
        DispatchErrorDrains(d, dev.handleRaw(raw).error);
        FollowsTransitive(c, d, Dispatch(dev, c, raw).0);
      }
  }

  lemma {:induction false} DispatchAllKeepsInv(dev: Device, c: Core, ms: seq<string>)
    requires Inv(c)
    ensures Inv(DispatchAll(dev, c, ms).0) && Follows(c, DispatchAll(dev, c, ms).0)
    ensures DispatchAll(dev, c, ms).0.log <= c.log + ms
    ensures DispatchAll(dev, c, ms).1.None? ==> DispatchAll(dev, c, ms).0.log == c.log + ms
    decreases |ms|
  {
    if ms != [] {
      DispatchKeepsInv(dev, c, ms[0]);
      var c' := Dispatch(dev, c, ms[0]).0;
      assert c.log + [ms[0]] + ms[1..] == c.log + ms;
      if Dispatch(dev, c, ms[0]).1.None? {
        DispatchAllKeepsInv(dev, c', ms[1..]);
        FollowsTransitive(c, c', DispatchAll(dev, c, ms).0);
      }
    }
  }

  /** A reply is accepted exactly when it carries the id of a request that is still pending; then it
      goes to that request and no other changes.  A second reply to the same id is an error. */
  lemma ReplyAcceptedIff(c: Core, root: Root, raw: string)
    requires Inv(c) && root.tag == ReplyTag
    ensures var (c', e) := ReplyCallback(c, root, raw);
            && (e.None? <==> exists i :: 0 <= i < |c.rpcs| && root.messageId == Some(Dec(i)) && Pending(c.rpcs[i]))
            && (forall i :: 0 <= i < |c.rpcs| && root.messageId == Some(Dec(i)) && Pending(c.rpcs[i]) ==>
                  c' == c.(rpcs := c.rpcs[i := DeliverReply(c.rpcs[i], raw)], table := c.table - {Dec(i)}))
            && (e.Some? ==> c' == c && e.value == if root.messageId.None? then MissingMessageId
                                                  else UnknownMessageId(root.messageId.value))
  {
    forall i | 0 <= i < |c.rpcs| && root.messageId == Some(Dec(i)) && Pending(c.rpcs[i])
      ensures Dec(i) in c.table && c.table[Dec(i)] == i
    {
      assert c.rpcs[i].id == Dec(i);
      TableEntry(c, i);
    }
    if root.messageId.Some? && root.messageId.value in c.table {
      var i := c.table[root.messageId.value];
      assert Pending(c.rpcs[i]);
    }
  }

  /** `id` is missing, was never issued, or belongs to a request that has its outcome. */
  predicate NamesNoPending(c: Core, id: Option<string>) {
    forall i :: 0 <= i < |c.rpcs| && Pending(c.rpcs[i]) ==> id != Some(Dec(i))
  }

  function BadId(id: Option<string>): Error {
    if id.None? then MissingMessageId else UnknownMessageId(id.value)
  }

  /** The message has a root only after a repair that does not help. */
  predicate Unreadable(dev: Device, raw: string) {
    && dev.parseRoot(raw).None? && dev.handleRaw(raw).Repaired?
    && dev.parseRoot(dev.handleRaw(raw).raw).None?
  }

  predicate BadReply(dev: Device, c: Core, raw: string) {
    && RootOf(dev, raw).Some? && RootOf(dev, raw).value.tag == ReplyTag && Replies in c.listeners
    && NamesNoPending(c, RootOf(dev, raw).value.messageId)
  }

  predicate BadNotification(dev: Device, c: Core, raw: string) {
    && RootOf(dev, raw).Some? && RootOf(dev, raw).value.tag == NotificationTag && Notifications in c.listeners
    && !dev.wellFormed(raw)
  }

  /** Dispatching a message raises exactly for one of three causes, each with its own error. */
  lemma DispatchRaisesIff(dev: Device, c: Core, raw: string)
    requires Inv(c)
    ensures var e := Dispatch(dev, c, raw).1;
            && (e.Some? <==> Unreadable(dev, raw) || BadReply(dev, c, raw) || BadNotification(dev, c, raw))
            && (Unreadable(dev, raw) ==> e == Some(MalformedXml(dev.handleRaw(raw).raw)))
            && (BadReply(dev, c, raw) ==> e == Some(BadId(RootOf(dev, raw).value.messageId)))
            && (BadNotification(dev, c, raw) ==> e == Some(MalformedXml(raw)))
  {
    var d := c.(log := c.log + [raw]);
    InvLocal(c, d);
    var root := RootOf(dev, raw);
    if root.Some? && root.value.tag == ReplyTag {
      ReplyAcceptedIff(d, root.value, raw);
      assert NamesNoPending(d, root.value.messageId) <==> NamesNoPending(c, root.value.messageId);
    }
  }

  /** A message without a root: the device handler may refuse it, and then every pending request gets its error; or
      ignore it, and then nothing happens.  Neither raises. */
  lemma DispatchWithoutRoot(dev: Device, c: Core, raw: string)
    requires Inv(c) && dev.parseRoot(raw).None? && !dev.handleRaw(raw).Repaired?
    ensures var (c', e) := Dispatch(dev, c, raw);
            && e.None? && c'.log == c.log + [raw] && c'.notifications == c.notifications && |c'.rpcs| == |c.rpcs|
            && (dev.handleRaw(raw).Ignored? ==> c'.rpcs == c.rpcs && c'.table == c.table)
            && (dev.handleRaw(raw).Refused? ==>
                  && c'.table == map[]
                  && forall i :: 0 <= i < |c.rpcs| ==>
                       c'.rpcs[i] == if Pending(c.rpcs[i]) then DeliverError(c.rpcs[i], dev.handleRaw(raw).error)
                                     else c.rpcs[i])
  {
    var d := c.(log := c.log + [raw]);
    InvLocal(c, d);
    if dev.handleRaw(raw).Refused? {
      DispatchErrorDrains(d, dev.handleRaw(raw).error);
    }
  }

  /** A message whose root concerns no listener changes nothing but the history. */
  lemma DispatchToNobody(dev: Device, c: Core, raw: string)
    requires InRange(c) && RootOf(dev, raw).Some?
    requires var tag := RootOf(dev, raw).value.tag;
             tag == OtherTag || (tag == ReplyTag && Replies !in c.listeners)
             || (tag == NotificationTag && Notifications !in c.listeners)
    ensures Dispatch(dev, c, raw) == (c.(log := c.log + [raw]), None)
  {
  }

  /** What the two deliveries make of a request: an outcome, the event, one delivery more. */
  lemma Deliveries(r: Rpc, raw: string, e: Error)
    requires Pending(r)
    ensures DeliverReply(r, raw) == Rpc(r.id, Some(raw), None, true, 1)
    ensures DeliverError(r, e) == Rpc(r.id, None, Some(e), true, 1)
  {
  }

  // Where replies come from

  /** A reply held is a dispatched message whose root carries the id of the request. */
  ghost predicate Genuine(dev: Device, log: seq<string>, r: Rpc) {
    r.reply.Some? ==> r.reply.value in log && RootOf(dev, r.reply.value) == Some(Root(ReplyTag, Some(r.id)))
  }

  ghost predicate RepliesGenuine(dev: Device, c: Core) {
    forall i :: 0 <= i < |c.rpcs| ==> Genuine(dev, c.log, c.rpcs[i])
  }

  /** From `r` to `r'` the reply stays, or becomes `raw`, whose root carries the request's id. */
  predicate MayAnswer(root: Option<Root>, raw: string, r: Rpc, r': Rpc) {
    && r'.id == r.id
    && (r'.reply == r.reply || (r'.reply == Some(raw) && root == Some(Root(ReplyTag, Some(r.id)))))
  }

  lemma CallbacksReplies(dev: Device, c: Core, root: Root, raw: string, i: nat)
    requires Inv(c) && i < |c.rpcs|
    ensures InRange(c)
    ensures var c' := Callbacks(dev, c.listeners, c, root, raw).0;
            |c'.rpcs| == |c.rpcs| && MayAnswer(Some(root), raw, c.rpcs[i], c'.rpcs[i])
  {
    assert InRange(c);
    if root.tag == ReplyTag && root.messageId.Some? && root.messageId.value in c.table {
      AnsweredRpc(c, root.messageId.value, raw, i);
    }
    hide Inv;
  }

  lemma DispatchedReplies(dev: Device, c: Core, raw: string, i: nat)
    requires Inv(c) && i < |c.rpcs|
    ensures InRange(c)
    ensures var c' := Dispatch(dev, c, raw).0;
            |c'.rpcs| == |c.rpcs| && MayAnswer(RootOf(dev, raw), raw, c.rpcs[i], c'.rpcs[i])
  {
    var d := c.(log := c.log + [raw]);
    assert InRange(c);
    hide Inv, Callbacks;
    InvLocal(c, d);
    match RootOf(dev, raw)
    case Some(root) =>
      CallbacksReplies(dev, d, root, raw, i);
    case None =>
  }

  lemma DispatchAddsNone(dev: Device, c: Core, raw: string)
    requires InRange(c)
    ensures |Dispatch(dev, c, raw).0.rpcs| == |c.rpcs|
  {
  }

  lemma GenuineKept(dev: Device, log: seq<string>, raw: string, r: Rpc, r': Rpc)
    requires Genuine(dev, log, r) && MayAnswer(RootOf(dev, raw), raw, r, r')
    ensures Genuine(dev, log + [raw], r')
  {
    hide RootOf;
    assert (log + [raw])[|log|] == raw;
  }

  lemma DispatchKeepsRepliesGenuine(dev: Device, c: Core, raw: string)
    requires Inv(c) && RepliesGenuine(dev, c)
    ensures RepliesGenuine(dev, Dispatch(dev, c, raw).0)
  {
    hide Dispatch, Inv, RootOf, Genuine, MayAnswer, Follows;
    DispatchKeepsInv(dev, c, raw);
    DispatchAddsNone(dev, c, raw);
    var c' := Dispatch(dev, c, raw).0;
    forall i | 0 <= i < |c'.rpcs|
      ensures Genuine(dev, c'.log, c'.rpcs[i])
    {
      DispatchedReplies(dev, c, raw, i);
      GenuineKept(dev, c.log, raw, c.rpcs[i], c'.rpcs[i]);
    }
  }

  // Notifications

  predicate IsNotification(dev: Device, raw: string) {
    var root := RootOf(dev, raw);
    root.Some? && root.value.tag == NotificationTag && dev.wellFormed(raw)
  }

  /** The well-formed notifications among the dispatched messages, in order of arrival. */
  function NotificationsIn(dev: Device, log: seq<string>): seq<string> {
    if log == [] then []
    else
      var raw := log[|log| - 1];
      NotificationsIn(dev, log[..|log| - 1]) + if IsNotification(dev, raw) then [raw] else []
  }

  /** A dispatched message is queued exactly when it is a well-formed notification. */
  lemma DispatchQueuesNotifications(dev: Device, c: Core, raw: string)
    requires Inv(c) && Notifications in c.listeners
    ensures Dispatch(dev, c, raw).0.notifications ==
            c.notifications + if IsNotification(dev, raw) then [raw] else []
    ensures Notifications in Dispatch(dev, c, raw).0.listeners
  {
    assert c.notifications + [] == c.notifications;
  }
}
