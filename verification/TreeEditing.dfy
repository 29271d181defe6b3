/**
 `QAnyTreeModel` as it edits its tree: the loops of the row and column operations, the constructors and the
 bodies of the undo commands, and the undo stack, each proved against the functions of module `Trees`.
 */
module TreeEditing {
  import opened Strings
  import opened Lists
  import opened Trees
  import opened Columns
  import opened UndoStack
  import opened ItemPlaces

  // Items

  /** `insertChildren`: the new rows are inserted one by one at the same place. */
  method InsertChildren(children: seq<Tree>, position: nat, count: nat, columns: nat) returns (cs: seq<Tree>, ok: bool)
    ensures cs == InsertRows(children, position, count, columns) && ok == (position <= |children|)
  {
    cs, ok := children, position <= |children|;
    if ok {
      for i := 0 to count
        invariant cs == InsertRows(children, position, i, columns)
      {
        CopiesSnoc(BlankRow(columns), i);
        cs := InsertAt(cs, position, BlankRow(columns));
      }
    }
  }

  lemma CopiesSnoc(x: Tree, i: nat)
    ensures Copies(x, i + 1) == [x] + Copies(x, i)
  {
  }

  /** `removeChildren`: from the last row of the block to the first. */
  method RemoveChildren(children: seq<Tree>, position: nat, count: nat) returns (cs: seq<Tree>, ok: bool)
    ensures cs == RemoveRows(children, position, count) && ok == (position + count <= |children|)
  {
    cs, ok := children, position + count <= |children|;
    if ok {
      var row := count;
      while row > 0
        invariant 0 <= row <= count
        invariant cs == children[..position + row] + children[position + count..]
      {
        row := row - 1;
        cs := DeleteAt(cs, position + row);
      }
    }
  }

  /** The loop of `DeleteCommand.undo`. */
  method RestoreChildren(children: seq<Tree>, position: nat, saved: seq<Tree>) returns (cs: seq<Tree>)
    ensures cs == RestoreRows(children, position, saved)
  {
    hide RestoreRows, MoveElem;
    cs := children;
    NoneRestored(children, position, saved);
    for row := 0 to |saved|
      invariant cs == RestoreRows(children, position, saved[..row])
    {
      RestoredNext(children, position, saved, row);
      cs := cs + [saved[row]];
      cs := MoveElem(cs, |cs| - 1, position + row);
    }
    assert saved[..|saved|] == saved;
  }

  lemma NoneRestored(cs: seq<Tree>, position: nat, saved: seq<Tree>)
    ensures RestoreRows(cs, position, saved[..0]) == cs
  {
  }

  lemma RestoredNext(cs: seq<Tree>, position: nat, saved: seq<Tree>, row: nat)
    requires row < |saved|
    ensures var cs' := RestoreRows(cs, position, saved[..row]) + [saved[row]];
            RestoreRows(cs, position, saved[..row + 1]) == MoveElem(cs', |cs'| - 1, position + row)
  {
    hide MoveElem;
    assert saved[..row + 1][..row] == saved[..row];
  }

  /** The backup that the constructor of `DeleteCommand` makes: `index(row, 0, parent)` finds rows only under the
      first column, and `getItem` takes the root for a row not found. */
  method SaveRows(t: Tree, parent: Path, column: nat, position: nat, rows: nat) returns (saved: seq<Tree>)
    requires At(t, parent).Some?
    ensures saved == Saved(t, parent, column, position, rows)
  {
    var children := RowsAt(t, parent);
    saved := [];
    for row := 0 to rows
      invariant saved == Saved(t, parent, column, position, row)
    {
      var item := t;
      if !(parent != [] && column != 0) && position + row < |children| {
        item := children[position + row];
      }
      SavedNext(t, parent, column, position, row);
      saved := saved + [item];
    }
  }

  lemma SavedNext(t: Tree, p: Path, column: nat, position: nat, rows: nat)
    ensures Saved(t, p, column, position, rows + 1)
            == Saved(t, p, column, position, rows) + [SavedRow(t, p, column, position + rows)]
  {
    hide SavedRow;
  }

  /** The insertions of `insertColumns` into one row of cells. */
  method InsertCells(cells: seq<Cell>, position: nat, columns: nat) returns (data: seq<Cell>)
    requires position <= |cells|
    ensures data == cells[..position] + seq(columns, _ => Invalid) + cells[position..]
  {
    data := cells;
    for column := 0 to columns
      invariant data == cells[..position] + seq(column, _ => Invalid) + cells[position..]
    {
      data := InsertAt(data, position, Invalid);
    }
  }

  /** `insertColumns` of an item. */
  method InsertColumnsIn(t: Tree, position: nat, columns: nat) returns (t': Tree, ok: bool)
    ensures t' == InsertColumns(t, position, columns) && ok == (position <= |t.data|)
    decreases t
  {
    t', ok := t, position <= |t.data|;
    if ok {
      hide InsertColumnsAll;
      var data := InsertCells(t.data, position, columns);
      ghost var all := InsertColumnsAll(t.children, position, columns);
      var children := [];
      assert t.children[0..] == t.children;
      for i := 0 to |t.children|
        invariant children + InsertColumnsAll(t.children[i..], position, columns) == all
      {
        var child, _ := InsertColumnsIn(t.children[i], position, columns);
        InsertedNext(t.children, i, position, columns);
        Regroup(children, child, InsertColumnsAll(t.children[i + 1..], position, columns));
        children := children + [child];
      }
      NoneInserted(t.children, position, columns);
      assert children + [] == children;
      t' := Node(data, children);
    }
  }

  lemma NoneInserted(cs: seq<Tree>, position: nat, columns: nat)
    ensures InsertColumnsAll(cs[|cs|..], position, columns) == []
  {
  }

  lemma InsertedNext(cs: seq<Tree>, i: nat, position: nat, columns: nat)
    requires i < |cs|
    ensures InsertColumnsAll(cs[i..], position, columns)
            == [InsertColumns(cs[i], position, columns)] + InsertColumnsAll(cs[i + 1..], position, columns)
  {
    assert cs[i..][1..] == cs[i + 1..];
  }

  lemma Regroup<T>(a: seq<T>, x: T, b: seq<T>)
    ensures a + ([x] + b) == (a + [x]) + b
  {
  }

  /** The pops of `removeColumns` from one row of cells; popping past the end raises. */
  method PopCells(cells: seq<Cell>, position: nat, columns: nat) returns (data: seq<Cell>, raised: bool)
    requires position <= |cells|
    ensures raised == (position + columns > |cells|)
    ensures data == if raised then cells[..position] else cells[..position] + cells[position + columns..]
  {
    data := cells;
    for column := 0 to columns
      invariant position + column <= |cells| && data == cells[..position] + cells[position + column..]
    {
      if position >= |data| {
        assert data == cells[..position];
        return data, true;
      }
      data := DeleteAt(data, position);
    }
    raised := false;
  }

  /** `removeColumns` of an item: its cells, then its children's, up to the first exception. */
  method RemoveColumnsIn(t: Tree, position: nat, columns: nat) returns (t': Tree, raised: bool)
    ensures (t', raised) == RemoveColumns(t, position, columns)
    decreases t
  {
    if position > |t.data| {
      return t, false;
    }
    var data;
    data, raised := PopCells(t.data, position, columns);
    if raised {
      return Node(data, t.children), true;
    }
    hide RemoveColumnsAll;
    ghost var all := RemoveColumnsAll(t.children, position, columns);
    var children := [];
    assert t.children[0..] == t.children;
    for i := 0 to |t.children|
      invariant children + RemoveColumnsAll(t.children[i..], position, columns).0 == all.0
      invariant RemoveColumnsAll(t.children[i..], position, columns).1 == all.1
    {
      var child, stopped := RemoveColumnsIn(t.children[i], position, columns);
      RemovedNext(t.children, i, position, columns);
      if stopped {
        Regroup(children, child, t.children[i + 1..]);
        return Node(data, children + [child] + t.children[i + 1..]), true;
      }
      Regroup(children, child, RemoveColumnsAll(t.children[i + 1..], position, columns).0);
      children := children + [child];
    }
    NoneRemoved(t.children, position, columns);
    assert children + [] == children;
    return Node(data, children), false;
  }

  lemma NoneRemoved(cs: seq<Tree>, position: nat, columns: nat)
    ensures RemoveColumnsAll(cs[|cs|..], position, columns) == ([], false)
  {
  }

  lemma RemovedNext(cs: seq<Tree>, i: nat, position: nat, columns: nat)
    requires i < |cs|
    ensures var (c, raised) := RemoveColumns(cs[i], position, columns);
            var (rest, raised') := RemoveColumnsAll(cs[i + 1..], position, columns);
            RemoveColumnsAll(cs[i..], position, columns) ==
            if raised then ([c] + cs[i + 1..], true) else ([c] + rest, raised')
  {
    assert cs[i..][1..] == cs[i + 1..];
  }

  // The model

  /** The tree, and the undo stack.  `held` says where the items are whose indexes the commands keep: on tree values the
      model has to be told what in the library the items carry with them.  `initial` is the tree the model was made
      with. */
  class QAnyTreeModel {
    var root: Tree
    var commands: seq<Command>
    var held: seq<Option<Path>>
    var index: nat
    ghost var initial: Tree

    ghost function Stack(): Editor
      reads this
    {
      Editor(root, commands, held, index)
    }

    ghost predicate WellFormed()
      reads this
    {
      index <= |commands| == |held|
    }

    /** The tree is what the commands done make of the initial one. */
    ghost predicate Valid()
      reads this
    {
      Consistent(initial, Stack())
    }

    constructor (data: Tree)
      ensures Valid() && initial == data && Stack() == Start(data)
    {
      root, commands, held, index, initial := data, [], [], 0, data;
    }

    /** `getIndexFromLocations`, down from the root. */
    method FindPath(rows: Path) returns (q: Path)
      ensures q == Locate(root, rows)
    {
      q := [];
      for k := 0 to |rows|
        invariant q == Locate(root, rows[..k])
      {
        assert rows[..k + 1][..k] == rows[..k];
        q := if rows[k] < |RowsAt(root, q)| then q + [rows[k]] else [];
      }
      assert rows[..|rows|] == rows;
    }

    /** `_setData` on the index that the rows lead to. */
    method WriteCell(item: Path, column: nat, value: Cell)
      modifies this`root
      ensures root == Trees.SetData(old(root), item, column, value)
    {
      var q := FindPath(item);
      if q != [] {
        root := PutCell(root, q, column, value);
      }
    }

    /** `_insertRows` under an item. */
    method InsertUnder(q: Path, position: nat, rows: nat)
      modifies this`root
      ensures var t := old(root); root == PutRows(t, q, Trees.InsertRows(RowsAt(t, q), position, rows, |t.data|))
    {
      var cs, _ := InsertChildren(RowsAt(root, q), position, rows, |root.data|);
      root := PutRows(root, q, cs);
    }

    /** `_removeRows` under an item. */
    method RemoveUnder(q: Path, position: nat, rows: nat)
      modifies this`root
      ensures var t := old(root); root == PutRows(t, q, Trees.RemoveRows(RowsAt(t, q), position, rows))
    {
      var cs, _ := RemoveChildren(RowsAt(root, q), position, rows);
      root := PutRows(root, q, cs);
    }

    /** `_moveRows` of one row within an item. */
    method MoveUnder(q: Path, column: nat, from: nat, to: nat)
      modifies this`root
      ensures var t := old(root); root == PutRows(t, q, Trees.MoveRows(RowsAt(t, q), q, column, from, to))
    {
      var cs := RowsAt(root, q);
      if FirstColumn(q, column) && from < |cs| {
        cs := MoveElem(cs, from, to);
      }
      root := PutRows(root, q, cs);
    }

    /** `redo` of a command. */
    method Execute(c: Command, at: Option<Path>)
      modifies this`root, this`held
      ensures root == Trees.Redo(old(root), c, at) && held == HeldAfterRedo(old(root), c, at, old(held))
    {
      hide PutRows, RowsAt, Locate, Trees.InsertRows, Trees.RemoveRows, Trees.MoveRows, FollowRedo;
      held := HeldAfterRedo(root, c, at, held);
      match c
      case Delete(parent, _, position, rows, _) =>
        var q := FindPath(parent);
        RemoveUnder(q, position, rows);
      case Modify(item, column, _, newValue) =>
        WriteCell(item, column, newValue);
      case Add(_, position, rows) =>
        if at.Some? {
          InsertUnder(at.value, position, rows);
        }
      case Move(_, column, row, newRow) =>
        if at.Some? {
          MoveUnder(at.value, column, row, newRow);
        }
    }

    /** `undo` of a command. */
    method Revert(c: Command, at: Option<Path>)
      modifies this`root, this`held
      ensures root == Trees.Undo(old(root), c, at) && held == HeldAfterUndo(old(root), c, at, old(held))
    {
      hide PutRows, RowsAt, Locate, RestoreRows, Trees.RemoveRows, Trees.MoveRows, FollowUndo;
      held := HeldAfterUndo(root, c, at, held);
      match c
      case Delete(parent, _, position, _, saved) =>
        var q := FindPath(parent);
        var cs := RestoreChildren(RowsAt(root, q), position, saved);
        root := PutRows(root, q, cs);
      case Modify(item, column, oldValue, _) =>
        WriteCell(item, column, oldValue);
      case Add(_, position, rows) =>
        if at.Some? {
          RemoveUnder(at.value, position, rows);
        }
      case Move(_, column, row, newRow) =>
        if at.Some? {
          MoveUnder(at.value, column, newRow, row);
        }
    }

    /** Whatever is pushed; the replay invariant holds on if the command is ready. */
    method Push(c: Command)
      requires WellFormed()
      modifies this`root, this`commands, this`held, this`index
      ensures WellFormed() && Stack() == Act(old(Stack()), UndoStack.Push(c))
      ensures commands == old(commands[..index]) + [c] && index == |commands|
      ensures old(Valid()) && Ready(old(root), c) ==> Valid()
    {
      hide Trees.Redo, Trees.Undo, Ready, HoldsItem, Replay, HeldAfterRedo;
      if Consistent(initial, Stack()) && Ready(root, c) {
        ActConsistent(initial, Stack(), UndoStack.Push(c));
      }
      commands := commands[..index] + [c];
      held := held[..index] + [Held(c)];
      index := index + 1;
      Execute(c, Held(c));
      HeldLength(old(root), c, Held(c), old(held)[..old(index)] + [Held(c)]);
    }

    /** The replay invariant holds on if the item of the command is in the tree; `ActReplaysIff` says what happens
        otherwise. */
    method Undo()
      requires WellFormed()
      modifies this`root, this`held, this`index
      ensures WellFormed() && Stack() == Act(old(Stack()), UndoLast)
      ensures commands == old(commands) && index == if old(index) == 0 then 0 else old(index) - 1
      ensures old(Valid()) && old(Reaches(Stack(), UndoLast)) ==> Valid() && root == Replay(initial, commands[..index])
    {
      hide Trees.Redo, Trees.Undo, Ready, HoldsItem, Replay, HeldAfterUndo;
      if Consistent(initial, Stack()) && Reaches(Stack(), UndoLast) {
        ActConsistent(initial, Stack(), UndoLast);
      }
      if index > 0 {
        index := index - 1;
        HeldLength(root, commands[index], held[index], held);
        Revert(commands[index], held[index]);
      }
    }

    method Redo()
      requires WellFormed()
      modifies this`root, this`held, this`index
      ensures WellFormed() && Stack() == Act(old(Stack()), RedoNext)
      ensures commands == old(commands) && index == if old(index) == |commands| then old(index) else old(index) + 1
      ensures old(Valid()) && old(Reaches(Stack(), RedoNext)) ==> Valid() && root == Replay(initial, commands[..index])
    {
      hide Trees.Redo, Trees.Undo, Ready, HoldsItem, Replay, HeldAfterRedo;
      if Consistent(initial, Stack()) && Reaches(Stack(), RedoNext) {
        ActConsistent(initial, Stack(), RedoNext);
      }
      if index < |commands| {
        HeldLength(root, commands[index], held[index], held);
        index := index + 1;
        Execute(commands[index - 1], held[index - 1]);
      }
    }

    /** `insertRows` under any item of the tree, in range or not; undoing it gives back the tree. */
    method InsertRows(position: nat, rows: nat, parent: Path)
      requires WellFormed() && At(root, parent).Some?
      modifies this`root, this`commands, this`held, this`index
      ensures WellFormed() && Stack() == Act(old(Stack()), UndoStack.Push(Add(parent, position, rows)))
      ensures var t := old(root);
              root == PutRows(t, parent, Trees.InsertRows(RowsAt(t, parent), position, rows, |t.data|))
      ensures Trees.Undo(root, commands[index - 1], Some(parent)) == old(root)
      ensures old(Valid()) ==> Valid()
    {
      hide Trees.Undo, Consistent, HeldAfterRedo, PutRows, Trees.InsertRows;
      UndoInvertsRedo(root, Add(parent, position, rows));
      Push(Add(parent, position, rows));
    }

    /** `moveRow` within any item of the tree, between rows that exist; undoing it gives back the tree. */
    method MoveRow(parent: Path, column: nat, row: nat, newRow: nat)
      requires WellFormed() && Ready(root, Move(parent, column, row, newRow))
      modifies this`root, this`commands, this`held, this`index
      ensures WellFormed() && Stack() == Act(old(Stack()), UndoStack.Push(Move(parent, column, row, newRow)))
      ensures root == PutRows(old(root), parent, MoveElem(RowsAt(old(root), parent), row, newRow))
      ensures Trees.Undo(root, commands[index - 1], Some(parent)) == old(root)
      ensures old(Valid()) ==> Valid()
    {
      hide Trees.Undo, Consistent, HeldAfterRedo, PutRows, MoveElem;
      UndoInvertsRedo(root, Move(parent, column, row, newRow));
      Push(Move(parent, column, row, newRow));
    }

    /** `removeRows`, of any rows under any index.  Undoing it gives back the tree before it exactly when no row is
        named, or the rows exist and the parent index is in the first column. */
    method RemoveRows(position: nat, rows: nat, parent: Path, column: nat)
      requires WellFormed() && At(root, parent).Some?
      modifies this`root, this`commands, this`held, this`index
      ensures WellFormed()
      ensures Stack() == Act(old(Stack()), UndoStack.Push(MakeDelete(old(root), parent, column, position, rows)))
      ensures root == PutRows(old(root), parent, Trees.RemoveRows(RowsAt(old(root), parent), position, rows))
      ensures Trees.Undo(root, commands[index - 1], None) == old(root)
              <==> Deletable(old(root), parent, column, position, rows)
      ensures old(Valid()) && Deletable(old(root), parent, column, position, rows) ==> Valid()
    {
      hide Trees.Undo, Trees.Redo, Consistent, Deletable, Trees.RemoveRows, PutRows, Saved, HeldAfterRedo;
      var saved := SaveRows(root, parent, column, position, rows);
      var c := Delete(parent, column, position, rows, saved);
      RedoDelete(root, c);
      DeleteUndoIff(root, parent, column, position, rows);
      Push(c);
    }

    /** `setData` of an index, which may be the invalid one: that has no cell.  Undoing it gives back the tree. */
    method SetData(item: Path, column: nat, value: Cell)
      requires WellFormed() && At(root, item).Some?
      modifies this`root, this`commands, this`held, this`index
      ensures WellFormed() && index == old(index) + 1 == |commands| && commands[..old(index)] == old(commands[..index])
      ensures root == if item == [] then old(root) else PutCell(old(root), item, column, value)
      ensures var cells := if item == [] then [] else At(old(root), item).value.data;
              commands[index - 1] == Modify(item, column, if column < |cells| then cells[column] else Invalid, value)
      ensures Trees.Undo(root, commands[index - 1], None) == old(root)
      ensures old(Valid()) ==> Valid()
    {
      hide Trees.Undo, Consistent, PutCell, Trees.SetData, HeldAfterRedo;
      var oldValue := Invalid;
      if item != [] {
        oldValue := GetCell(At(root, item).value, column);
      }
      var c := Modify(item, column, oldValue, value);
      SetDataExisting(root, item, column, value);
      UndoInvertsRedo(root, c);
      Push(c);
    }

    /** `insertColumns`, past the undo stack. */
    method InsertColumns(position: nat, columns: nat)
      modifies this`root
      ensures Stack() == Apply(old(Stack()), NewColumns(position, columns))
    {
      var t, _ := InsertColumnsIn(root, position, columns);
      root := t;
    }

    /** `removeColumns`, past the undo stack: when no column is left, all rows go too, by a command, and undoing that
        command brings them back. */
    method RemoveColumns(position: nat, columns: nat) returns (raised: bool)
      requires WellFormed()
      modifies this`root, this`commands, this`held, this`index
      ensures WellFormed() && Stack() == Apply(old(Stack()), DropColumns(position, columns))
      ensures raised == Columns.RemoveColumns(old(root), position, columns).1
      ensures var t := Columns.RemoveColumns(old(root), position, columns).0;
              if !raised && t.data == []
              then && root.children == [] && index == old(index) + 1 == |commands|
                   && commands[..old(index)] == old(commands[..index])
                   && Trees.Undo(root, commands[index - 1], None) == t
              else root == t && commands == old(commands) && held == old(held) && index == old(index)
    {
      hide Trees.Redo, Trees.Undo, Columns.RemoveColumns, HeldAfterRedo;
      var t;
      t, raised := RemoveColumnsIn(root, position, columns);
      root := t;
      if !raised && root.data == [] {
        AllRowsRemoved(t);
        RemoveRows(0, |root.children|, [], 0);
      }
    }
  }

  lemma HeldLength(t: Tree, c: Command, at: Option<Path>, held: seq<Option<Path>>)
    ensures |HeldAfterRedo(t, c, at, held)| == |HeldAfterUndo(t, c, at, held)| == |held|
  {
  }
}
