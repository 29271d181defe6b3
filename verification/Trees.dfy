/**
 Tree contents as values: rows of cells with children.  The edits of rows and the four undo commands.
 */
module Trees {
  import opened Strings
  import opened Lists

  /** `None`, an invalid `QVariant`, or a value. */
  datatype Cell = NoneCell | Invalid | Value(text: string)

  datatype Tree = Node(data: seq<Cell>, children: seq<Tree>)

  /** Row numbers from the root down. */
  type Path = seq<nat>

  function At(t: Tree, p: Path): Option<Tree> {
    if p == [] then Some(t)
    else if p[0] < |t.children| then At(t.children[p[0]], p[1..])
    else None
  }

  /** `t` with the node at `p` replaced, if there is one. */
  function Put(t: Tree, p: Path, n: Tree): Tree {
    if p == [] then n
    else if p[0] < |t.children| then t.(children := t.children[p[0] := Put(t.children[p[0]], p[1..], n)])
    else t
  }

  lemma {:induction false} PutThenAt(t: Tree, p: Path, n: Tree)
    requires At(t, p).Some?
    ensures At(Put(t, p, n), p) == Some(n)
    decreases p
  {
    if p != [] {
      PutThenAt(t.children[p[0]], p[1..], n);
    }
  }

  /** Replacing a node and putting the old one back changes nothing. */
  lemma {:induction false} PutBack(t: Tree, p: Path, n: Tree)
    requires At(t, p).Some?
    ensures Put(Put(t, p, n), p, At(t, p).value) == t
    decreases p
  {
    if p != [] {
      PutBack(t.children[p[0]], p[1..], n);
      var c := t.children[p[0]];
      var u := Put(t, p, n);
      assert u.children[p[0] := c] == t.children;
    }
  }

  /** Neither path leads to or through the node of the other. */
  predicate Apart(p: Path, q: Path) {
    p != [] && q != [] && (p[0] != q[0] || Apart(p[1..], q[1..]))
  }

  /** Replacing a node changes no node that is neither above nor below it. */
  lemma {:induction false} PutElsewhere(t: Tree, p: Path, n: Tree, q: Path)
    requires Apart(p, q)
    ensures At(Put(t, p, n), q) == At(t, q)
    decreases p
  {
    if p[0] < |t.children| && p[0] == q[0] {
      PutElsewhere(t.children[p[0]], p[1..], n, q[1..]);
    }
  }

  lemma {:induction false} AtSnoc(t: Tree, q: Path, r: nat)
    ensures At(t, q + [r]) ==
            if At(t, q).Some? && r < |At(t, q).value.children| then Some(At(t, q).value.children[r]) else None
    decreases q
  {
    var p := q + [r];
    if q == [] {
      assert p[1..] == [];
    } else if q[0] < |t.children| {
      assert p[1..] == q[1..] + [r];
      AtSnoc(t.children[q[0]], q[1..], r);
    }
  }

  /** `getIndexFromLocations`: where a list of rows leads.  A step that finds no row goes on from the root. */
  function Locate(t: Tree, p: Path): (q: Path)
    ensures At(t, q).Some?
    decreases |p|
  {
    if p == [] then []
    else
      var k := |p| - 1;
      var q := Locate(t, p[..k]);
      AtSnoc(t, q, p[k]);
      if p[k] < |At(t, q).value.children| then q + [p[k]] else []
  }

  /** A list whose rows all exist leads to its node. */
  lemma {:induction false} LocateExisting(t: Tree, p: Path)
    requires At(t, p).Some?
    ensures Locate(t, p) == p
    decreases |p|
  {
    if p != [] {
      var k := |p| - 1;
      assert p == p[..k] + [p[k]];
      AtSnoc(t, p[..k], p[k]);
      LocateExisting(t, p[..k]);
    }
  }

  /** A step that finds no row drops all that came before it: the rest of the list is followed from the root. */
  lemma {:induction false} LocateRestarts(t: Tree, p: Path, r: nat, rest: Path)
    requires At(t, p).Some? && r >= |At(t, p).value.children|
    ensures Locate(t, p + [r] + rest) == Locate(t, rest)
    decreases |rest|
  {
    var all := p + [r] + rest;
    if rest == [] {
      assert all == p + [r] && all[..|p|] == p;
      LocateExisting(t, p);
    } else {
      var k := |rest| - 1;
      assert all[..|all| - 1] == p + [r] + rest[..k];
      LocateRestarts(t, p, r, rest[..k]);
    }
  }

  /** A node below another is a smaller tree, and so a different one. */
  lemma {:induction false} BelowIsSmaller(t: Tree, p: Path)
    requires At(t, p).Some? && p != []
    ensures At(t, p).value < t
    decreases p
  {
    if p[1..] != [] {
      BelowIsSmaller(t.children[p[0]], p[1..]);
    }
  }

  // Rows

  function BlankRow(columns: nat): Tree {
    Node(seq(columns, _ => NoneCell), [])
  }

  function Copies(x: Tree, count: nat): seq<Tree> {
    seq(count, _ => x)
  }

  /** The children after `insertChildren`: refused beyond the end. */
  function InsertRows(cs: seq<Tree>, position: nat, count: nat, columns: nat): seq<Tree> {
    if position <= |cs| then cs[..position] + Copies(BlankRow(columns), count) + cs[position..] else cs
  }

  /** The children after `removeChildren`: refused unless the block exists. */
  function RemoveRows(cs: seq<Tree>, position: nat, count: nat): seq<Tree> {
    if position + count <= |cs| then cs[..position] + cs[position + count..] else cs
  }

  /** The children after the loop of `DeleteCommand.undo`: each saved row is appended and moved to its place. */
  function RestoreRows(cs: seq<Tree>, position: nat, saved: seq<Tree>): seq<Tree> {
    if saved == [] then cs
    else
      var k := |saved| - 1;
      var cs' := RestoreRows(cs, position, saved[..k]) + [saved[k]];
      MoveElem(cs', |cs'| - 1, position + k)
  }

  lemma RestoreStep(cs: seq<Tree>, position: nat, saved: seq<Tree>, x: Tree)
    ensures RestoreRows(cs, position, saved + [x]) == InsertAt(RestoreRows(cs, position, saved), position + |saved|, x)
  {
    hide MoveElem, InsertAt;
    assert (saved + [x])[..|saved|] == saved;
    AppendMove(RestoreRows(cs, position, saved), x, position + |saved|);
  }

  lemma {:induction false} RestoreRowsBlock(cs: seq<Tree>, position: nat, saved: seq<Tree>)
    requires position <= |cs|
    ensures RestoreRows(cs, position, saved) == cs[..position] + saved + cs[position..]
  {
    if saved == [] {
      assert cs == cs[..position] + [] + cs[position..];
    } else {
      hide RestoreRows, InsertAt;
      var k := |saved| - 1;
      RestoreRowsBlock(cs, position, saved[..k]);
      RestoreStep(cs, position, saved[..k], saved[k]);
      InsertBetween(cs[..position], saved[..k], cs[position..], saved[k]);
      assert saved == saved[..k] + [saved[k]];
    }
  }

  lemma InsertBetween(a: seq<Tree>, b: seq<Tree>, c: seq<Tree>, x: Tree)
    ensures InsertAt(a + b + c, |a| + |b|, x) == a + (b + [x]) + c
  {
    assert (a + b + c)[..|a| + |b|] == a + b && (a + b + c)[|a| + |b|..] == c;
  }

  lemma {:induction false} RestoreRowsLength(cs: seq<Tree>, position: nat, saved: seq<Tree>)
    ensures |RestoreRows(cs, position, saved)| == |cs| + |saved|
  {
    if saved != [] {
      RestoreRowsLength(cs, position, saved[..|saved| - 1]);
    }
  }

  /** Undoing an insertion restores the children, even one that was refused. */
  lemma InsertUndo(cs: seq<Tree>, position: nat, count: nat, columns: nat)
    ensures RemoveRows(InsertRows(cs, position, count, columns), position, count) == cs
  {
    if position <= |cs| {
      var cs' := InsertRows(cs, position, count, columns);
      assert cs'[..position] == cs[..position] && cs'[position + count..] == cs[position..];
    }
  }

  /** Undoing a move within the list restores it. */
  lemma MoveUndo(cs: seq<Tree>, from: nat, to: nat)
    requires from < |cs| && to < |cs|
    ensures |MoveElem(cs, from, to)| == |cs| && MoveElem(MoveElem(cs, from, to), to, from) == cs
    ensures MoveElem(cs, from, to)[to] == cs[from] && DeleteAt(MoveElem(cs, from, to), to) == DeleteAt(cs, from)
  {
    var mid := DeleteAt(cs, from);
    DeleteInsert(mid, to, cs[from]);
    InsertDelete(cs, from);
  }

  // Commands

  /** Deletions and modifications address their item by the list of rows that leads to it, each time anew.
      Additions and moves keep the index they were given, and with it the item; `parent` says where that item was when
      the command was made.  `column` is that of the index.  Moves are within one parent, as the view makes them. */
  datatype Command =
    | Delete(parent: Path, column: nat, position: nat, rows: nat, saved: seq<Tree>)
    | Modify(item: Path, column: nat, oldValue: Cell, newValue: Cell)
    | Add(parent: Path, position: nat, rows: nat)
    | Move(parent: Path, column: nat, row: nat, newRow: nat)

  function SetCell(n: Tree, column: nat, v: Cell): Tree {
    if column < |n.data| then n.(data := n.data[column := v]) else n
  }

  function GetCell(n: Tree, column: nat): Cell {
    if column < |n.data| then n.data[column] else Invalid
  }

  /** The node at `p` with other children. */
  function PutRows(t: Tree, p: Path, cs: seq<Tree>): Tree {
    match At(t, p)
    case None => t
    case Some(n) => Put(t, p, n.(children := cs))
  }

  function RowsAt(t: Tree, p: Path): seq<Tree> {
    match At(t, p)
    case None => []
    case Some(n) => n.children
  }

  function PutCell(t: Tree, p: Path, column: nat, v: Cell): Tree {
    match At(t, p)
    case None => t
    case Some(n) => Put(t, p, SetCell(n, column, v))
  }

  /** `_setData` on the index that the list leads to; the invalid index has no cell. */
  function SetData(t: Tree, p: Path, column: nat, v: Cell): Tree {
    if Locate(t, p) == [] then t else PutCell(t, Locate(t, p), column, v)
  }

  /** Rows can be found under an index of the first column, and under the invalid index. */
  predicate FirstColumn(p: Path, column: nat) {
    p == [] || column == 0
  }

  /** The item whose index the command keeps, where it is when the command is made. */
  function Held(c: Command): Option<Path> {
    if c.Add? || c.Move? then Some(c.parent) else None
  }

  /** The children after moving a row: without the row, or under an index of another column, the move takes the root
      instead and raises. */
  function MoveRows(cs: seq<Tree>, q: Path, column: nat, from: nat, to: nat): seq<Tree> {
    if FirstColumn(q, column) && from < |cs| then MoveElem(cs, from, to) else cs
  }

  /** `redo()`, also the first execution, on tree `t`.  `at` is the place of the item whose index the command keeps;
      an item that is no longer in the tree is edited without effect on the tree. */
  function Redo(t: Tree, c: Command, at: Option<Path>): Tree {
    match c
    case Delete(p, _, position, rows, _) =>
      var q := Locate(t, p);
      PutRows(t, q, RemoveRows(RowsAt(t, q), position, rows))
    case Modify(p, column, _, v) => SetData(t, p, column, v)
    case Add(_, position, rows) =>
      if at.None? then t else PutRows(t, at.value, InsertRows(RowsAt(t, at.value), position, rows, |t.data|))
    case Move(_, column, row, newRow) =>
      if at.None? then t else PutRows(t, at.value, MoveRows(RowsAt(t, at.value), at.value, column, row, newRow))
  }

  function Undo(t: Tree, c: Command, at: Option<Path>): Tree {
    match c
    case Delete(p, _, position, _, saved) =>
      var q := Locate(t, p);
      PutRows(t, q, RestoreRows(RowsAt(t, q), position, saved))
    case Modify(p, column, v, _) => SetData(t, p, column, v)
    case Add(_, position, rows) =>
      if at.None? then t else PutRows(t, at.value, RemoveRows(RowsAt(t, at.value), position, rows))
    case Move(_, column, row, newRow) =>
      if at.None? then t else PutRows(t, at.value, MoveRows(RowsAt(t, at.value), at.value, column, newRow, row))
  }

  lemma PutRowsTwice(t: Tree, p: Path, cs: seq<Tree>)
    requires At(t, p).Some?
    ensures At(PutRows(t, p, cs), p).Some? && RowsAt(PutRows(t, p, cs), p) == cs
    ensures PutRows(PutRows(t, p, cs), p, RowsAt(t, p)) == t
  {
    var n := At(t, p).value;
    PutThenAt(t, p, n.(children := cs));
    PutBack(t, p, n.(children := cs));
    assert n.(children := n.children) == n;
  }

  // Deletions

  /** What the constructor of `DeleteCommand` saves for one row: a row that its index does not find is saved as a
      copy of the whole tree, because the invalid index stands for the root. */
  function SavedRow(t: Tree, p: Path, column: nat, row: nat): Tree {
    if FirstColumn(p, column) && row < |RowsAt(t, p)| then RowsAt(t, p)[row] else t
  }

  function Saved(t: Tree, p: Path, column: nat, position: nat, rows: nat): seq<Tree> {
    seq(rows, i requires 0 <= i < rows => SavedRow(t, p, column, position + i))
  }

  /** The command as its constructor makes it for tree `t`. */
  function MakeDelete(t: Tree, p: Path, column: nat, position: nat, rows: nat): Command {
    Delete(p, column, position, rows, Saved(t, p, column, position, rows))
  }

  /** The rows to delete exist, and their indexes find them. */
  predicate Deletable(t: Tree, p: Path, column: nat, position: nat, rows: nat) {
    rows == 0 || (position + rows <= |RowsAt(t, p)| && FirstColumn(p, column))
  }

  lemma RemoveAndRestore(t: Tree, p: Path, column: nat, position: nat, rows: nat)
    requires At(t, p).Some?
    ensures var c, cs := MakeDelete(t, p, column, position, rows), RowsAt(t, p);
            Undo(Redo(t, c, None), c, None) == PutRows(PutRows(t, p, RemoveRows(cs, position, rows)), p,
                                           RestoreRows(RemoveRows(cs, position, rows), position, c.saved))
  {
    hide RemoveRows, RestoreRows, Saved;
    var cs' := RemoveRows(RowsAt(t, p), position, rows);
    LocateExisting(t, p);
    PutRowsTwice(t, p, cs');
    LocateExisting(PutRows(t, p, cs'), p);
  }

  lemma SavedExisting(t: Tree, p: Path, column: nat, position: nat, rows: nat)
    requires FirstColumn(p, column) && position + rows <= |RowsAt(t, p)|
    ensures Saved(t, p, column, position, rows) == RowsAt(t, p)[position..position + rows]
  {
    hide RowsAt;
    var saved := Saved(t, p, column, position, rows);
    assert forall i :: 0 <= i < rows ==> saved[i] == SavedRow(t, p, column, position + i);
  }

  lemma RemoveExisting(cs: seq<Tree>, position: nat, count: nat, saved: seq<Tree>)
    requires position + count <= |cs|
    ensures RestoreRows(RemoveRows(cs, position, count), position, saved)
            == cs[..position] + saved + cs[position + count..]
  {
    hide RestoreRows;
    var cs' := RemoveRows(cs, position, count);
    RestoreRowsBlock(cs', position, saved);
    assert cs'[..position] == cs[..position];
    assert cs'[position..] == cs[position + count..];
  }

  lemma RestoresIff(t: Tree, p: Path, column: nat, position: nat, rows: nat)
    requires At(t, p).Some?
    ensures var cs := RowsAt(t, p);
            RestoreRows(RemoveRows(cs, position, rows), position, Saved(t, p, column, position, rows)) == cs
            <==> Deletable(t, p, column, position, rows)
  {
    var cs, saved := RowsAt(t, p), Saved(t, p, column, position, rows);
    if rows == 0 {
      assert position <= |cs| ==> cs == cs[..position] + cs[position..];
    } else if position + rows > |cs| {
      hide RestoreRows;
      RestoreRowsLength(cs, position, saved);
    } else {
      RemoveExisting(cs, position, rows, saved);
      hide RestoreRows, RemoveRows, Saved;
      if FirstColumn(p, column) {
        SavedExisting(t, p, column, position, rows);
        assert cs == cs[..position] + cs[position..position + rows] + cs[position + rows..];
      } else {
        OtherRowSaved(t, p, column, position, rows);
        assert (cs[..position] + saved + cs[position + rows..])[position] == saved[0];
      }
    }
  }

  lemma OtherRowSaved(t: Tree, p: Path, column: nat, position: nat, rows: nat)
    requires At(t, p).Some? && !FirstColumn(p, column) && 0 < rows && position < |RowsAt(t, p)|
    ensures |Saved(t, p, column, position, rows)| == rows
    ensures Saved(t, p, column, position, rows)[0] == t != RowsAt(t, p)[position]
  {
    AtSnoc(t, p, position);
    var child := RowsAt(t, p)[position];
    assert At(t, p + [position]) == Some(child);
    BelowIsSmaller(t, p + [position]);
    assert child < t;
    assert Saved(t, p, column, position, rows)[0] == SavedRow(t, p, column, position + 0);
  }

  /** Deleting rows and undoing it restores the tree, in order and with all below the rows, exactly when no row is
      named, or the rows exist and the parent index is in the first column.  Otherwise copies of the whole tree take
      the place of the rows that were not found. */
  lemma DeleteUndoIff(t: Tree, p: Path, column: nat, position: nat, rows: nat)
    requires At(t, p).Some?
    ensures var c := MakeDelete(t, p, column, position, rows);
            Undo(Redo(t, c, None), c, None) == t <==> Deletable(t, p, column, position, rows)
  {
    hide Undo, Redo, RestoreRows, RemoveRows, Saved, Deletable;
    RemoveAndRestore(t, p, column, position, rows);
    RestoresIff(t, p, column, position, rows);
    var cs' := RemoveRows(RowsAt(t, p), position, rows);
    PutRowsTwice(t, p, cs');
    PutRowsTwice(PutRows(t, p, cs'), p, RestoreRows(cs', position, Saved(t, p, column, position, rows)));
  }

  /** The undo of a deletion that was refused puts a copy of the whole tree into it. */
  lemma DeleteBeyondEndExample()
    ensures var t := Node([], []);
            var c := MakeDelete(t, [], 0, 0, 1);
            Redo(t, c, None) == t && Undo(t, c, None) == Node([], [t])
  {
    var t := Node([], []);
    var c := MakeDelete(t, [], 0, 0, 1);
    assert c.saved == [t];
    RestoreRowsBlock([], 0, [t]);
  }

  /** A row is deleted under an index of the second column: it goes, and the undo puts a copy of the whole tree in
      its place. */
  lemma DeleteOtherColumnExample()
    ensures var t := Node([], [Node([], [Node([], [])])]);
            var c := MakeDelete(t, [0], 1, 0, 1);
            Redo(t, c, None) == Node([], [Node([], [])]) && Undo(Redo(t, c, None), c, None) == Node([], [Node([], [t])])
  {
    var row := Node([], []);
    var t := Node([], [Node([], [row])]);
    var c := MakeDelete(t, [0], 1, 0, 1);
    var u := Node([], [row]);
    assert c.saved == [t];
    SingleRow(Node([], [row]));
    SingleRow(row);
    LocateExisting(t, [0]);
    LocateExisting(u, [0]);
    hide Locate, Put, At;
    assert RemoveRows([row], 0, 1) == [];
    RestoreRowsBlock([], 0, [t]);
    assert RestoreRows([], 0, [t]) == [t];
  }

  lemma SingleRow(n: Tree)
    ensures At(Node([], [n]), [0]) == Some(n)
    ensures forall n' :: Put(Node([], [n]), [0], n') == Node([], [n'])
  {
    var t := Node([], [n]);
    var p: Path := [0];
    assert p[1..] == [];
    forall n'
      ensures Put(t, p, n') == Node([], [n'])
    {
      assert t.children[0 := n'] == [n'];
    }
  }

  // Commands that undo what they did

  /** The command as its constructor makes it for tree `t`, and not one of those whose undo goes wrong. */
  predicate Ready(t: Tree, c: Command) {
    match c
    case Delete(p, column, position, rows, _) =>
      At(t, p).Some? && c == MakeDelete(t, p, column, position, rows) && Deletable(t, p, column, position, rows)
    case Modify(p, column, old', _) =>
      At(t, p).Some? && old' == if p == [] then Invalid else GetCell(At(t, p).value, column)
    case Add(p, _, _) => At(t, p).Some?
    case Move(p, column, row, newRow) =>
      At(t, p).Some? && FirstColumn(p, column) && row < |RowsAt(t, p)| && newRow < |RowsAt(t, p)|
  }

  lemma RedoDelete(t: Tree, c: Command)
    requires c.Delete? && At(t, c.parent).Some?
    ensures Redo(t, c, None) == PutRows(t, c.parent, RemoveRows(RowsAt(t, c.parent), c.position, c.rows))
  {
    hide RemoveRows, PutRows;
    LocateExisting(t, c.parent);
  }

  /** A deletion takes exactly its block from under its parent, and leaves the rest of the tree alone. */
  lemma DeleteEffect(t: Tree, c: Command, q: Path)
    requires c.Delete? && Ready(t, c) && c.rows > 0
    ensures c.saved == RowsAt(t, c.parent)[c.position..c.position + c.rows]
    ensures var rest := RowsAt(Redo(t, c, None), c.parent);
            c.position <= |rest| && RowsAt(t, c.parent) == rest[..c.position] + c.saved + rest[c.position..]
    ensures Apart(c.parent, q) ==> At(Redo(t, c, None), q) == At(t, q)
  {
    var cs := RowsAt(t, c.parent);
    var cs' := RemoveRows(cs, c.position, c.rows);
    RedoDelete(t, c);
    PutRowsTwice(t, c.parent, cs');
    if Apart(c.parent, q) {
      PutElsewhere(t, c.parent, At(t, c.parent).value.(children := cs'), q);
    }
    hide Redo, Put, At, Locate, Apart;
    RestoresIff(t, c.parent, c.column, c.position, c.rows);
    RestoreRowsBlock(cs', c.position, c.saved);
  }

  /** An addition puts blank rows, as wide as the root, under its parent and nowhere else; beyond the end it is
      refused. */
  lemma AddEffect(t: Tree, c: Command, q: Path)
    requires c.Add? && Ready(t, c)
    ensures var cs, cs' := RowsAt(t, c.parent), RowsAt(Redo(t, c, Held(c)), c.parent);
            if c.position > |cs| then Redo(t, c, Held(c)) == t
            else && |cs'| == |cs| + c.rows
                 && (forall i :: 0 <= i < c.position ==> cs'[i] == cs[i])
                 && (forall i :: c.position <= i < c.position + c.rows ==>
                       && cs'[i].children == [] && |cs'[i].data| == |t.data|
                       && forall k :: 0 <= k < |t.data| ==> cs'[i].data[k] == NoneCell)
                 && (forall i :: c.position <= i < |cs| ==> cs'[i + c.rows] == cs[i])
    ensures Apart(c.parent, q) ==> At(Redo(t, c, Held(c)), q) == At(t, q)
  {
    var cs := RowsAt(t, c.parent);
    var cs' := InsertRows(cs, c.position, c.rows, |t.data|);
    PutRowsTwice(t, c.parent, cs');
    if Apart(c.parent, q) {
      PutElsewhere(t, c.parent, At(t, c.parent).value.(children := cs'), q);
    }
    if c.position > |cs| {
      PutRowsSame(t, c.parent);
    }
    hide Put, At, Apart;
  }

  lemma PutRowsSame(t: Tree, p: Path)
    requires At(t, p).Some?
    ensures PutRows(t, p, RowsAt(t, p)) == t
  {
    PutRowsTwice(t, p, RowsAt(t, p));
    PutRowsTwice(PutRows(t, p, RowsAt(t, p)), p, RowsAt(t, p));
    SameRows(t, p);
  }

  lemma {:induction false} SameRows(t: Tree, p: Path)
    requires At(t, p).Some?
    ensures Put(t, p, At(t, p).value) == t
    decreases p
  {
    if p != [] {
      SameRows(t.children[p[0]], p[1..]);
      assert t.children[p[0] := t.children[p[0]]] == t.children;
    }
  }

  /** A move takes one row of its parent to the row named, keeps the order of the others, and leaves the rest of the
      tree alone. */
  lemma MoveEffect(t: Tree, c: Command, q: Path)
    requires c.Move? && Ready(t, c)
    ensures var cs, cs' := RowsAt(t, c.parent), RowsAt(Redo(t, c, Held(c)), c.parent);
            && |cs'| == |cs| && cs'[c.newRow] == cs[c.row]
            && DeleteAt(cs', c.newRow) == DeleteAt(cs, c.row)
    ensures Apart(c.parent, q) ==> At(Redo(t, c, Held(c)), q) == At(t, q)
  {
    var cs := RowsAt(t, c.parent);
    var cs' := MoveElem(cs, c.row, c.newRow);
    MoveUndo(cs, c.row, c.newRow);
    PutRowsTwice(t, c.parent, cs');
    if Apart(c.parent, q) {
      PutElsewhere(t, c.parent, At(t, c.parent).value.(children := cs'), q);
    }
    hide Put, At, Apart, MoveElem;
  }

  lemma SetDataExisting(t: Tree, p: Path, column: nat, v: Cell)
    requires At(t, p).Some?
    ensures SetData(t, p, column, v) == if p == [] then t else PutCell(t, p, column, v)
  {
    hide PutCell;
    LocateExisting(t, p);
  }

  /** A modification writes its cell, and leaves the other cells, the children and the rest of the tree alone. */
  lemma ModifyEffect(t: Tree, c: Command, q: Path)
    requires c.Modify? && Ready(t, c) && c.item != []
    ensures var n, u := At(t, c.item).value, At(Redo(t, c, None), c.item);
            && u.Some? && u.value.children == n.children && |u.value.data| == |n.data|
            && forall k: nat ::
                 GetCell(u.value, k) == if k == c.column && k < |n.data| then c.newValue else GetCell(n, k)
    ensures Apart(c.item, q) ==> At(Redo(t, c, None), q) == At(t, q)
  {
    var n := At(t, c.item).value;
    SetDataExisting(t, c.item, c.column, c.newValue);
    PutThenAt(t, c.item, SetCell(n, c.column, c.newValue));
    if Apart(c.item, q) {
      PutElsewhere(t, c.item, SetCell(n, c.column, c.newValue), q);
    }
  }

  lemma SetCellBack(n: Tree, column: nat, v: Cell)
    ensures SetCell(SetCell(n, column, v), column, GetCell(n, column)) == n
  {
  }

  lemma PutCellBack(t: Tree, p: Path, column: nat, v: Cell)
    requires At(t, p).Some?
    ensures At(PutCell(t, p, column, v), p).Some?
    ensures PutCell(PutCell(t, p, column, v), p, column, GetCell(At(t, p).value, column)) == t
  {
    hide Put, At, SetCell, GetCell;
    var n := At(t, p).value;
    PutThenAt(t, p, SetCell(n, column, v));
    PutBack(t, p, SetCell(n, column, v));
    SetCellBack(n, column, v);
  }

  lemma ModifyUndone(t: Tree, p: Path, column: nat, v: Cell)
    requires At(t, p).Some?
    ensures var old' := if p == [] then Invalid else GetCell(At(t, p).value, column);
            SetData(SetData(t, p, column, v), p, column, old') == t
  {
    hide SetData, PutCell, At, GetCell;
    var old' := if p == [] then Invalid else GetCell(At(t, p).value, column);
    SetDataExisting(t, p, column, v);
    if p == [] {
      SetDataExisting(t, p, column, old');
    } else {
      PutCellBack(t, p, column, v);
      SetDataExisting(PutCell(t, p, column, v), p, column, old');
    }
  }

  /** What an addition or a move does to the children of its item, undone. */
  lemma RowsUndone(t: Tree, p: Path, cs: seq<Tree>)
    requires At(t, p).Some?
    ensures At(PutRows(t, p, cs), p).Some? && RowsAt(PutRows(t, p, cs), p) == cs
    ensures |PutRows(t, p, cs).data| == |t.data|
    ensures forall cs' :: PutRows(PutRows(t, p, cs), p, cs') == t <==> cs' == RowsAt(t, p)
  {
    PutRowsTwice(t, p, cs);
    forall cs' | PutRows(PutRows(t, p, cs), p, cs') == t
      ensures cs' == RowsAt(t, p)
    {
      PutRowsTwice(PutRows(t, p, cs), p, cs');
    }
  }

  /** Each command undoes what it did, if its item is where it was. */
  lemma UndoInvertsRedo(t: Tree, c: Command)
    requires Ready(t, c)
    ensures Undo(Redo(t, c, Held(c)), c, Held(c)) == t
  {
    hide PutRows, At, RowsAt, Locate;
    match c
    case Delete(p, column, position, rows, saved) =>
      DeleteUndoIff(t, p, column, position, rows);
    case Modify(p, column, v, w) =>
      ModifyUndone(t, p, column, w);
    case Add(p, position, rows) =>
      InsertUndo(RowsAt(t, p), position, rows, |t.data|);
      RowsUndone(t, p, InsertRows(RowsAt(t, p), position, rows, |t.data|));
    case Move(p, column, row, newRow) =>
      MoveUndo(RowsAt(t, p), row, newRow);
      RowsUndone(t, p, MoveElem(RowsAt(t, p), row, newRow));
  }
}
