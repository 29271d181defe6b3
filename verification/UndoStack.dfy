/**
 The undo stack of a tree, for commands that keep the item they were made for and not its place: what a run of
 pushes, undos and redos leaves, and exactly when an undo or a redo finds its item.
 */
module UndoStack {
  import opened Strings
  import opened Lists
  import opened Trees
  import opened ItemPlaces

  // The stack

  /** `root` is the tree; `commands` the stack, of which the first `index` are done; `held` says where the items are
      whose indexes the commands keep, as far as they are in the tree. */
  datatype Editor = Editor(root: Tree, commands: seq<Command>, held: seq<Option<Path>>, index: nat)

  datatype Action = Push(command: Command) | UndoLast | RedoNext

  function HeldAfterRedo(t: Tree, c: Command, at: Option<Path>, held: seq<Option<Path>>): seq<Option<Path>> {
    seq(|held|, k requires 0 <= k < |held| =>
      if held[k].None? then None else FollowRedo(t, c, at, held[k].value))
  }

  function HeldAfterUndo(t: Tree, c: Command, at: Option<Path>, held: seq<Option<Path>>): seq<Option<Path>> {
    seq(|held|, k requires 0 <= k < |held| =>
      if held[k].None? then None else FollowUndo(t, c, at, held[k].value))
  }

  function Execute(t: Tree, c: Command, at: Option<Path>, commands: seq<Command>, held: seq<Option<Path>>,
                   index: nat): Editor {
    Editor(Redo(t, c, at), commands, HeldAfterRedo(t, c, at, held), index)
  }

  /** `QUndoStack`: pushing drops the commands not done, and executes. */
  function Act(e: Editor, a: Action): Editor {
    if e.index > |e.commands| || |e.held| != |e.commands| then e
    else match a
      case Push(c) =>
        Execute(e.root, c, Held(c), e.commands[..e.index] + [c], e.held[..e.index] + [Held(c)], e.index + 1)
      case UndoLast =>
        if e.index == 0 then e
        else
          var c, at := e.commands[e.index - 1], e.held[e.index - 1];
          Editor(Undo(e.root, c, at), e.commands, HeldAfterUndo(e.root, c, at, e.held), e.index - 1)
      case RedoNext =>
        if e.index == |e.commands| then e
        else Execute(e.root, e.commands[e.index], e.held[e.index], e.commands, e.held, e.index + 1)
  }

  /** The tree after executing commands in order, each on the item it was made for. */
  function Replay(t: Tree, cs: seq<Command>): Tree {
    if cs == [] then t
    else
      var c := cs[|cs| - 1];
      Redo(Replay(t, cs[..|cs| - 1]), c, Held(c))
  }

  /** Where the item that is at `p` when the first `i` commands are done is when the first `j` are. */
  function Track(t: Tree, cs: seq<Command>, i: nat, j: nat, p: Path): Option<Path>
    requires i <= j <= |cs|
    decreases j - i
  {
    if i == j then Some(p)
    else
      var q := Track(t, cs, i, j - 1, p);
      if q.None? then None else FollowRedo(Replay(t, cs[..j - 1]), cs[j - 1], Held(cs[j - 1]), q.value)
  }

  /** Command `k` keeps an index to the item it was made for, wherever that is now; or the item has left the tree. */
  predicate HoldsItem(t: Tree, cs: seq<Command>, i: nat, k: nat, h: Option<Path>)
    requires i <= |cs| && k < |cs|
  {
    h.Some? ==>
      Held(cs[k]).Some? &&
      var p := Held(cs[k]).value;
      if k < i then Track(t, cs, k, i, p) == h else Track(t, cs, i, k, h.value) == Some(p)
  }

  /** Each command on the stack was made for the tree that the commands below it give, and the present tree
      is what the commands done give. */
  predicate Consistent(initial: Tree, e: Editor) {
    && e.index <= |e.commands| == |e.held|
    && e.root == Replay(initial, e.commands[..e.index])
    && (forall k :: 0 <= k < |e.commands| ==> Ready(Replay(initial, e.commands[..k]), e.commands[k]))
    && (forall k :: 0 <= k < |e.commands| ==> HoldsItem(initial, e.commands, e.index, k, e.held[k]))
  }

  /** The item that the next undo or redo works on is in the tree. */
  predicate Reaches(e: Editor, a: Action) {
    match a
    case Push(_) => true
    case UndoLast =>
      0 < e.index <= |e.commands| == |e.held| && Held(e.commands[e.index - 1]).Some? ==> e.held[e.index - 1].Some?
    case RedoNext =>
      e.index < |e.commands| == |e.held| && Held(e.commands[e.index]).Some? ==> e.held[e.index].Some?
  }

  /** A pushed command must be made for the present tree. */
  predicate Allowed(e: Editor, a: Action) {
    a.Push? ==> Ready(e.root, a.command)
  }

  lemma ReplayNext(t: Tree, cs: seq<Command>, k: nat)
    requires k < |cs|
    ensures Replay(t, cs[..k + 1]) == Redo(Replay(t, cs[..k]), cs[k], Held(cs[k]))
  {
    hide Redo;
    assert cs[..k + 1][..k] == cs[..k];
  }

  lemma TrackNext(t: Tree, cs: seq<Command>, i: nat, j: nat, p: Path)
    requires i <= j < |cs|
    ensures Track(t, cs, i, j + 1, p) ==
            var q := Track(t, cs, i, j, p);
            if q.None? then None else FollowRedo(Replay(t, cs[..j]), cs[j], Held(cs[j]), q.value)
  {
    hide FollowRedo, Replay;
  }

  /** Tracking may take its first step first. */
  lemma {:induction false} TrackFirst(t: Tree, cs: seq<Command>, i: nat, j: nat, p: Path)
    requires i < j <= |cs|
    ensures Track(t, cs, i, j, p) ==
            var q := FollowRedo(Replay(t, cs[..i]), cs[i], Held(cs[i]), p);
            if q.None? then None else Track(t, cs, i + 1, j, q.value)
    decreases j - i
  {
    hide FollowRedo, Replay;
    TrackNext(t, cs, i, j - 1, p);
    if i + 1 < j {
      TrackFirst(t, cs, i, j - 1, p);
      var q := FollowRedo(Replay(t, cs[..i]), cs[i], Held(cs[i]), p);
      if q.Some? {
        TrackNext(t, cs, i + 1, j - 1, q.value);
      }
    }
  }

  /** Tracking looks only at the commands passed. */
  lemma {:induction false} TrackPrefix(t: Tree, cs: seq<Command>, cs': seq<Command>, i: nat, j: nat, p: Path)
    requires i <= j <= |cs| && j <= |cs'| && cs[..j] == cs'[..j]
    ensures Track(t, cs, i, j, p) == Track(t, cs', i, j, p)
    decreases j - i
  {
    hide FollowRedo, Replay;
    if i < j {
      assert cs[..j - 1] == cs[..j][..j - 1] == cs'[..j - 1] && cs[j - 1] == cs[..j][j - 1] == cs'[j - 1];
      TrackPrefix(t, cs, cs', i, j - 1, p);
    }
  }

  lemma RedoHolds(initial: Tree, cs: seq<Command>, i: nat, k: nat, h: Option<Path>)
    requires i < |cs| && k < |cs| && HoldsItem(initial, cs, i, k, h)
    ensures var t := Replay(initial, cs[..i]);
            var h' := if h.None? then None else FollowRedo(t, cs[i], Held(cs[i]), h.value);
            HoldsItem(initial, cs, i + 1, k, h')
  {
    hide FollowRedo, Replay;
    if h.Some? {
      if k < i {
        TrackNext(initial, cs, k, i, Held(cs[k]).value);
      } else if k == i {
        TrackNext(initial, cs, k, i, h.value);
      } else {
        TrackFirst(initial, cs, i, k, h.value);
      }
    }
  }

  lemma UndoHolds(initial: Tree, cs: seq<Command>, i: nat, k: nat, h: Option<Path>)
    requires 0 < i <= |cs| && k < |cs| && HoldsItem(initial, cs, i, k, h)
    requires Ready(Replay(initial, cs[..i - 1]), cs[i - 1])
    ensures var c, t' := cs[i - 1], Replay(initial, cs[..i]);
            var h' := if h.None? then None else FollowUndo(t', c, Held(c), h.value);
            && HoldsItem(initial, cs, i - 1, k, h') && (k < i && h.Some? ==> h'.Some?)
  {
    hide FollowRedo, FollowUndo, Replay, Ready, Redo;
    var t, c := Replay(initial, cs[..i - 1]), cs[i - 1];
    ReplayNext(initial, cs, i - 1);
    if h.Some? {
      if k < i {
        TrackNext(initial, cs, k, i - 1, Held(cs[k]).value);
        FollowBack(t, c, Track(initial, cs, k, i - 1, Held(cs[k]).value).value);
      } else {
        FollowForth(t, c, h.value);
        var h' := FollowUndo(Replay(initial, cs[..i]), c, Held(c), h.value);
        if h'.Some? {
          TrackFirst(initial, cs, i - 1, k, h'.value);
        }
      }
    }
  }

  /** A command does not move the item that it works on. */
  lemma OwnItemStays(t: Tree, c: Command)
    requires Held(c).Some?
    ensures FollowRedo(t, c, Held(c), Held(c).value) == Held(c)
  {
  }

  /** The item of the next command to undo, or to redo, is where it was when the command was made. */
  lemma NextItem(initial: Tree, cs: seq<Command>, i: nat, k: nat, h: Option<Path>)
    requires k < |cs| && (i == k || i == k + 1) && HoldsItem(initial, cs, i, k, h)
    requires Held(cs[k]).Some? ==> h.Some?
    ensures h == Held(cs[k])
  {
    hide FollowRedo, Replay;
    if h.Some? && k < i {
      TrackNext(initial, cs, k, k, Held(cs[k]).value);
      OwnItemStays(Replay(initial, cs[..k]), cs[k]);
    }
  }

  lemma ExecuteConsistent(initial: Tree, cs: seq<Command>, held: seq<Option<Path>>, i: nat)
    requires i < |cs| == |held| && held[i] == Held(cs[i])
    requires forall k :: 0 <= k < |cs| ==> Ready(Replay(initial, cs[..k]), cs[k])
    requires forall k :: 0 <= k < |cs| ==> HoldsItem(initial, cs, i, k, held[k])
    ensures Consistent(initial, Execute(Replay(initial, cs[..i]), cs[i], held[i], cs, held, i + 1))
  {
    hide Redo, FollowRedo, Replay, Ready, HoldsItem;
    ReplayNext(initial, cs, i);
    var e := Execute(Replay(initial, cs[..i]), cs[i], held[i], cs, held, i + 1);
    forall k | 0 <= k < |cs|
      ensures HoldsItem(initial, cs, i + 1, k, e.held[k])
    {
      RedoHolds(initial, cs, i, k, held[k]);
    }
  }

  lemma HoldsPrefix(initial: Tree, cs: seq<Command>, c: Command, i: nat, k: nat, h: Option<Path>)
    requires k < i <= |cs| && HoldsItem(initial, cs, i, k, h)
    ensures HoldsItem(initial, cs[..i] + [c], i, k, h)
  {
    hide Track;
    if h.Some? {
      assert (cs[..i] + [c])[..i] == cs[..i];
      TrackPrefix(initial, cs, cs[..i] + [c], k, i, Held(cs[k]).value);
    }
  }

  lemma PushConsistent(initial: Tree, e: Editor, c: Command)
    requires Consistent(initial, e) && Ready(e.root, c)
    ensures Consistent(initial, Act(e, Push(c)))
  {
    hide Redo, FollowRedo, Replay, Ready, HoldsItem;
    var cs, held := e.commands[..e.index] + [c], e.held[..e.index] + [Held(c)];
    assert cs[..e.index] == e.commands[..e.index];
    forall k | 0 <= k < |cs|
      ensures Ready(Replay(initial, cs[..k]), cs[k]) && HoldsItem(initial, cs, e.index, k, held[k])
    {
      assert cs[..k] == e.commands[..k];
      if k < e.index {
        HoldsPrefix(initial, e.commands, c, e.index, k, e.held[k]);
      } else {
        HoldsOwn(initial, cs, e.index);
      }
    }
    ExecuteConsistent(initial, cs, held, e.index);
  }

  lemma HoldsOwn(initial: Tree, cs: seq<Command>, k: nat)
    requires k < |cs|
    ensures HoldsItem(initial, cs, k, k, Held(cs[k]))
  {
  }

  lemma UndoConsistent(initial: Tree, e: Editor)
    requires Consistent(initial, e) && Reaches(e, UndoLast)
    ensures Consistent(initial, Act(e, UndoLast))
  {
    hide Redo, Undo, FollowUndo, Replay, Ready, HoldsItem;
    if e.index > 0 {
      var i := e.index - 1;
      ReplayNext(initial, e.commands, i);
      NextItem(initial, e.commands, e.index, i, e.held[i]);
      UndoInvertsRedo(Replay(initial, e.commands[..i]), e.commands[i]);
      var e' := Act(e, UndoLast);
      forall k | 0 <= k < |e.commands|
        ensures HoldsItem(initial, e.commands, i, k, e'.held[k])
      {
        UndoHolds(initial, e.commands, e.index, k, e.held[k]);
      }
    }
  }

  lemma ActConsistent(initial: Tree, e: Editor, a: Action)
    requires Consistent(initial, e) && Allowed(e, a) && Reaches(e, a)
    ensures Consistent(initial, Act(e, a))
  {
    hide Redo, Undo, FollowRedo, FollowUndo, Replay, Ready, HoldsItem;
    match a
    case Push(c) =>
      PushConsistent(initial, e, c);
    case UndoLast =>
      UndoConsistent(initial, e);
    case RedoNext =>
      if e.index < |e.commands| {
        NextItem(initial, e.commands, e.index, e.index, e.held[e.index]);
        ExecuteConsistent(initial, e.commands, e.held, e.index);
      }
  }

  /** The command that the action undoes or redoes changes nothing. */
  predicate Idle(initial: Tree, e: Editor, a: Action)
    requires e.index <= |e.commands|
  {
    match a
    case Push(_) => false
    case UndoLast =>
      0 < e.index &&
      var t, c := Replay(initial, e.commands[..e.index - 1]), e.commands[e.index - 1];
      Redo(t, c, Held(c)) == t
    case RedoNext =>
      e.index < |e.commands| && Redo(e.root, e.commands[e.index], Held(e.commands[e.index])) == e.root
  }

  /** After the action the tree is what the commands then done make of the initial one exactly when the item that the
      action works on is in the tree, or the command changes nothing anyway. */
  lemma ActReplaysIff(initial: Tree, e: Editor, a: Action)
    requires Consistent(initial, e) && Allowed(e, a)
    ensures var e' := Act(e, a);
            && e'.index <= |e'.commands|
            && (e'.root == Replay(initial, e'.commands[..e'.index]) <==> Reaches(e, a) || Idle(initial, e, a))
  {
    if Reaches(e, a) {
      ActConsistent(initial, e, a);
    } else {
      hide FollowRedo, FollowUndo, Replay, Ready, HoldsItem;
      match a
      case UndoLast =>
        ReplayNext(initial, e.commands, e.index - 1);
      case RedoNext =>
        ReplayNext(initial, e.commands, e.index);
    }
  }

  // What each action does

  /** A push does the new command on top of those done, and forgets those undone. */
  lemma PushSteps(initial: Tree, e: Editor, c: Command)
    requires Consistent(initial, e) && Ready(e.root, c)
    ensures var e' := Act(e, Push(c));
            && e'.index == e.index + 1 && e'.commands == e.commands[..e.index] + [c]
            && e'.root == Replay(initial, e.commands[..e.index] + [c])
  {
    hide Redo, FollowRedo, Replay, Ready, HoldsItem;
    PushConsistent(initial, e, c);
    assert e.commands[..e.index] + [c] == Act(e, Push(c)).commands[..e.index + 1];
  }

  /** An undo takes back the last command done, if there is one, and keeps it for a redo. */
  lemma UndoSteps(initial: Tree, e: Editor)
    requires Consistent(initial, e) && Reaches(e, UndoLast)
    ensures var e' := Act(e, UndoLast);
            && e'.commands == e.commands
            && (e.index == 0 ==> e' == e)
            && (e.index > 0 ==> e'.index == e.index - 1 && e'.root == Replay(initial, e.commands[..e.index - 1]))
  {
    hide Redo, Undo, FollowUndo, Replay, Ready, HoldsItem;
    UndoConsistent(initial, e);
  }

  /** A redo does the next command again, if there is one. */
  lemma RedoSteps(initial: Tree, e: Editor)
    requires Consistent(initial, e) && Reaches(e, RedoNext)
    ensures var e' := Act(e, RedoNext);
            && e'.commands == e.commands
            && (e.index == |e.commands| ==> e' == e)
            && (e.index < |e.commands| ==>
                  e'.index == e.index + 1 && e'.root == Replay(initial, e.commands[..e.index + 1]))
  {
    hide Redo, Undo, FollowRedo, Replay, Ready, HoldsItem;
    ActConsistent(initial, e, RedoNext);
  }

  /** Whatever the items, an undo and a redo go one step down and up, and change no command. */
  lemma StepsOfIndex(e: Editor)
    requires e.index <= |e.commands| == |e.held|
    ensures Act(e, UndoLast).index == (if e.index == 0 then 0 else e.index - 1)
    ensures Act(e, RedoNext).index == (if e.index == |e.commands| then e.index else e.index + 1)
    ensures Act(e, UndoLast).commands == Act(e, RedoNext).commands == e.commands
    ensures |Act(e, UndoLast).held| == |Act(e, RedoNext).held| == |e.held|
  {
    hide Redo, Undo, FollowRedo, FollowUndo;
  }

  /** What an undo took back, a redo does again. */
  lemma UndoThenRedo(initial: Tree, e: Editor)
    requires Consistent(initial, e) && Reaches(e, UndoLast) && e.index > 0
    ensures var e' := Act(Act(e, UndoLast), RedoNext);
            e'.root == e.root && e'.commands == e.commands && e'.index == e.index
  {
    hide Redo, Undo, FollowRedo, FollowUndo, Replay, Ready, HoldsItem;
    UndoSteps(initial, e);
    UndoConsistent(initial, e);
    var e1 := Act(e, UndoLast);
    ItemUndone(initial, e);
    RedoSteps(initial, e1);
  }

  lemma ItemUndone(initial: Tree, e: Editor)
    requires Consistent(initial, e) && Reaches(e, UndoLast) && e.index > 0
    ensures Reaches(Act(e, UndoLast), RedoNext)
  {
    hide Redo, Undo, FollowUndo, Replay, Ready, HoldsItem;
    var i := e.index - 1;
    UndoHolds(initial, e.commands, e.index, i, e.held[i]);
    NextItem(initial, e.commands, e.index, i, e.held[i]);
    ReplayNext(initial, e.commands, i);
  }

  /** What a redo did, an undo takes back. */
  lemma RedoThenUndo(initial: Tree, e: Editor)
    requires Consistent(initial, e) && Reaches(e, RedoNext) && e.index < |e.commands|
    ensures var e' := Act(Act(e, RedoNext), UndoLast);
            e'.root == e.root && e'.commands == e.commands && e'.index == e.index
  {
    hide Redo, Undo, FollowRedo, FollowUndo, Replay, Ready, HoldsItem;
    RedoSteps(initial, e);
    ActConsistent(initial, e, RedoNext);
    var e1 := Act(e, RedoNext);
    ItemRedone(initial, e);
    UndoSteps(initial, e1);
  }

  lemma ItemRedone(initial: Tree, e: Editor)
    requires Consistent(initial, e) && Reaches(e, RedoNext) && e.index < |e.commands|
    ensures Reaches(Act(e, RedoNext), UndoLast)
  {
    hide Redo, Undo, Replay, Ready, HoldsItem;
    NextItem(initial, e.commands, e.index, e.index, e.held[e.index]);
    if Held(e.commands[e.index]).Some? {
      OwnItemStays(e.root, e.commands[e.index]);
    }
  }

  function Run(e: Editor, actions: seq<Action>): Editor {
    if actions == [] then e else Act(Run(e, actions[..|actions| - 1]), actions[|actions| - 1])
  }

  function Start(t: Tree): Editor {
    Editor(t, [], [], 0)
  }

  lemma StartConsistent(initial: Tree)
    ensures Consistent(initial, Start(initial))
  {
  }

  predicate NextAllowed(e: Editor, actions: seq<Action>, k: nat)
    requires k < |actions|
  {
    Allowed(Run(e, actions[..k]), actions[k]) && Reaches(Run(e, actions[..k]), actions[k])
  }

  /**
   For every sequence of pushes, undos and redos, in any order, in which each addition and move finds its item in the
   tree: the tree is what the commands below the stack index make of the initial tree.
   */
  lemma {:induction false} RunReplays(initial: Tree, actions: seq<Action>)
    requires forall k: nat :: k < |actions| ==> NextAllowed(Start(initial), actions, k)
    ensures Consistent(initial, Run(Start(initial), actions))
    decreases |actions|
  {
    hide Act, Allowed, Reaches, Consistent;
    var e := Start(initial);
    if actions == [] {
      StartConsistent(initial);
    } else {
      var k := |actions| - 1;
      forall j: nat | j < k
        ensures NextAllowed(e, actions[..k], j)
      {
        assert NextAllowed(e, actions, j);
        assert actions[..k][..j] == actions[..j];
      }
      RunReplays(initial, actions[..k]);
      assert NextAllowed(e, actions, k);
      ActConsistent(initial, Run(e, actions[..k]), actions[k]);
    }
  }

  function UndoAll(e: Editor): Editor
    decreases e.index
  {
    if e.index == 0 || e.index > |e.commands| || |e.held| != |e.commands| then e else UndoAll(Act(e, UndoLast))
  }

  /** The items of all commands done are in the tree. */
  predicate AllReached(e: Editor)
    requires e.index <= |e.commands| == |e.held|
  {
    forall k :: 0 <= k < e.index && Held(e.commands[k]).Some? ==> e.held[k].Some?
  }

  /** Undoing everything gives the initial tree back, after any run, if the items of the commands done are in the tree
      at its end: undoing a command takes no item away that a command below it works on. */
  lemma {:induction false} UndoAllRestores(initial: Tree, e: Editor)
    requires Consistent(initial, e) && AllReached(e)
    ensures UndoAll(e).root == initial
    decreases e.index
  {
    if e.index > 0 {
      hide Redo, Undo, FollowUndo, Ready, HoldsItem;
      UndoConsistent(initial, e);
      StillReached(initial, e);
      UndoAllRestores(initial, Act(e, UndoLast));
    } else {
      assert e.commands[..0] == [];
    }
  }

  lemma StillReached(initial: Tree, e: Editor)
    requires Consistent(initial, e) && AllReached(e) && e.index > 0
    ensures var e' := Act(e, UndoLast); e'.index <= |e'.commands| == |e'.held| && AllReached(e')
  {
    hide Redo, Undo, FollowUndo, Replay, Ready, HoldsItem;
    var e', i := Act(e, UndoLast), e.index - 1;
    NextItem(initial, e.commands, e.index, i, e.held[i]);
    ReplayNext(initial, e.commands, i);
    forall k | 0 <= k < i && Held(e.commands[k]).Some?
      ensures e'.held[k].Some?
    {
      UndoHolds(initial, e.commands, e.index, k, e.held[k]);
    }
  }

  lemma AddFirst(t: Tree, rows: nat)
    requires t.children != [] && rows > 0
    ensures var add := Add([0], 0, rows);
            var t1 := Redo(t, add, Some([0]));
            && Act(Start(t), Push(add)) == Editor(t1, [add], [Some([0])], 1)
            && t1 != t && t1.children != []
  {
    var p: Path := [0];
    assert p[1..] == [];
    assert At(t, p) == Some(t.children[0]);
    var cs := InsertRows(RowsAt(t, p), 0, rows, |t.data|);
    PutRowsTwice(t, p, cs);
    assert |cs| == |RowsAt(t, p)| + rows;
  }

  lemma DeleteFirst(t: Tree, add: Command)
    requires t.children != []
    ensures var c := MakeDelete(t, [], 0, 0, 1);
            && Act(Editor(t, [add], [Some([0])], 1), Push(c)) == Editor(Redo(t, c, None), [add, c], [None, None], 2)
            && Ready(t, c)
  {
    hide Redo, Saved;
    var c := MakeDelete(t, [], 0, 0, 1);
    LocateExisting(t, []);
    LeavesOnRedoIff(t, c, None, [0]);
    hide FollowRedo;
    assert HeldAfterRedo(t, c, None, [Some([0]), None]) == [None, None];
    assert [add, c][..1] == [add];
  }

  lemma NoItemsHeld(t: Tree, c: Command, at: Option<Path>)
    ensures HeldAfterUndo(t, c, at, [None, None]) == [None, None]
  {
  }

  /** Rows are added under row 0, row 0 is deleted, and both are undone: the second undo works on the item that the
      deletion took away, and the rows added stay under its copy. */
  lemma LostItemExample(t: Tree, rows: nat)
    requires t.children != [] && rows > 0
    ensures var e := Act(Start(t), Push(Add([0], 0, rows)));
            var e' := Act(e, Push(MakeDelete(e.root, [], 0, 0, 1)));
            Act(Act(e', UndoLast), UndoLast).root == e.root != t
  {
    var add := Add([0], 0, rows);
    AddFirst(t, rows);
    var t1 := Redo(t, add, Some([0]));
    DeleteFirst(t1, add);
    var c := MakeDelete(t1, [], 0, 0, 1);
    UndoInvertsRedo(t1, c);
    assert c.Delete? && Held(c) == None;
    hide Redo, Ready, MakeDelete, FollowUndo, FollowRedo, HeldAfterUndo;
    NoItemsHeld(Redo(t1, c, None), c, None);
    var e'' := Act(Editor(Redo(t1, c, None), [add, c], [None, None], 2), UndoLast);
    assert e'' == Editor(t1, [add, c], [None, None], 1);
    assert Act(e'', UndoLast).root == Undo(t1, add, None) == t1;
  }
}
