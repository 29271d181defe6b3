/**
 The columns of tree values: their edits, which go past the undo stack, and what rows and columns do to each other.
 */
module Columns {
  import opened Strings
  import opened Lists
  import opened Trees
  import opened UndoStack

  // Columns

  /** Every row of the tree has `w` cells. */
  predicate Rect(t: Tree, w: nat) {
    |t.data| == w && forall i :: 0 <= i < |t.children| ==> Rect(t.children[i], w)
  }

  predicate AllRect(cs: seq<Tree>, w: nat) {
    forall i :: 0 <= i < |cs| ==> Rect(cs[i], w)
  }

  /** `insertColumns` of an item: its cells and, whatever they answer, its children's; refused beyond the end. */
  function InsertColumns(t: Tree, position: nat, count: nat): Tree {
    if position > |t.data| then t
    else Node(t.data[..position] + seq(count, _ => Invalid) + t.data[position..],
              InsertColumnsAll(t.children, position, count))
  }

  function InsertColumnsAll(cs: seq<Tree>, position: nat, count: nat): seq<Tree> {
    if cs == [] then [] else [InsertColumns(cs[0], position, count)] + InsertColumnsAll(cs[1..], position, count)
  }

  /** `removeColumns` of an item.  Popping past the end raises: the cells are gone up to there, and nothing
      after that is done. */
  function RemoveColumns(t: Tree, position: nat, count: nat): (Tree, bool) {
    if position > |t.data| then (t, false)
    else if position + count > |t.data| then (Node(t.data[..position], t.children), true)
    else
      var (cs, raised) := RemoveColumnsAll(t.children, position, count);
      (Node(t.data[..position] + t.data[position + count..], cs), raised)
  }

  function RemoveColumnsAll(cs: seq<Tree>, position: nat, count: nat): (seq<Tree>, bool) {
    if cs == [] then ([], false)
    else
      var (c, raised) := RemoveColumns(cs[0], position, count);
      if raised then ([c] + cs[1..], true)
      else
        var (rest, raised') := RemoveColumnsAll(cs[1..], position, count);
        ([c] + rest, raised')
  }

  lemma AllRectCons(c: Tree, cs: seq<Tree>, w: nat)
    ensures AllRect([c] + cs, w) <==> Rect(c, w) && AllRect(cs, w)
  {
    var all := [c] + cs;
    assert all[0] == c;
    assert forall i :: 0 <= i < |cs| ==> all[i + 1] == cs[i];
  }

  /** Inserting columns keeps a tree rectangular. */
  lemma {:induction false} InsertColumnsRect(t: Tree, w: nat, position: nat, count: nat)
    requires Rect(t, w) && position <= w
    ensures Rect(InsertColumns(t, position, count), w + count)
    decreases t, 1
  {
    InsertColumnsAllRect(t.children, w, position, count);
  }

  lemma {:induction false} InsertColumnsAllRect(cs: seq<Tree>, w: nat, position: nat, count: nat)
    requires AllRect(cs, w) && position <= w
    ensures AllRect(InsertColumnsAll(cs, position, count), w + count)
    decreases cs, 0
  {
    if cs != [] {
      assert cs == [cs[0]] + cs[1..];
      AllRectCons(cs[0], cs[1..], w);
      InsertColumnsRect(cs[0], w, position, count);
      InsertColumnsAllRect(cs[1..], w, position, count);
      AllRectCons(InsertColumns(cs[0], position, count), InsertColumnsAll(cs[1..], position, count), w + count);
    }
  }

  /** Inserting columns and removing them again restores every row of the tree. */
  lemma {:induction false} ColumnsInverse(t: Tree, w: nat, position: nat, count: nat)
    requires Rect(t, w) && position <= w
    ensures RemoveColumns(InsertColumns(t, position, count), position, count) == (t, false)
    decreases t, 1
  {
    ColumnsInverseAll(t.children, w, position, count);
    var d := InsertColumns(t, position, count).data;
    assert d[..position] + d[position + count..] == t.data;
  }

  lemma {:induction false} ColumnsInverseAll(cs: seq<Tree>, w: nat, position: nat, count: nat)
    requires AllRect(cs, w) && position <= w
    ensures RemoveColumnsAll(InsertColumnsAll(cs, position, count), position, count) == (cs, false)
    decreases cs, 0
  {
    if cs != [] {
      assert cs == [cs[0]] + cs[1..];
      AllRectCons(cs[0], cs[1..], w);
      ColumnsInverse(cs[0], w, position, count);
      ColumnsInverseAll(cs[1..], w, position, count);
    }
  }

  lemma {:induction false} RemoveColumnsRect(t: Tree, w: nat, position: nat, count: nat)
    requires Rect(t, w) && position + count <= w
    ensures Rect(RemoveColumns(t, position, count).0, w - count) && !RemoveColumns(t, position, count).1
    decreases t, 1
  {
    RemoveColumnsAllRect(t.children, w, position, count);
  }

  lemma {:induction false} RemoveColumnsAllRect(cs: seq<Tree>, w: nat, position: nat, count: nat)
    requires AllRect(cs, w) && position + count <= w
    ensures AllRect(RemoveColumnsAll(cs, position, count).0, w - count) && !RemoveColumnsAll(cs, position, count).1
    decreases cs, 0
  {
    if cs != [] {
      assert cs == [cs[0]] + cs[1..];
      AllRectCons(cs[0], cs[1..], w);
      RemoveColumnsRect(cs[0], w, position, count);
      RemoveColumnsAllRect(cs[1..], w, position, count);
      AllRectCons(RemoveColumns(cs[0], position, count).0, RemoveColumnsAll(cs[1..], position, count).0, w - count);
    }
  }

  lemma {:induction false} InsertedAt(cs: seq<Tree>, position: nat, count: nat, i: nat)
    requires i < |cs|
    ensures |InsertColumnsAll(cs, position, count)| == |cs|
    ensures InsertColumnsAll(cs, position, count)[i] == InsertColumns(cs[i], position, count)
    decreases |cs|
  {
    hide InsertColumns;
    if i > 0 {
      InsertedAt(cs[1..], position, count, i - 1);
    } else if |cs| > 1 {
      InsertedAt(cs[1..], position, count, 0);
    }
  }

  predicate CellInserted(n: Tree, n': Tree, position: nat, count: nat, k: nat) {
    GetCell(n', k) == if k < position then GetCell(n, k)
                      else if k < position + count then Invalid else GetCell(n, k - count)
  }

  /** `n'` has the cells of `n`, with `count` invalid ones put in at `position`. */
  ghost predicate CellsInserted(n: Tree, n': Tree, position: nat, count: nat) {
    && |n'.data| == |n.data| + count && |n'.children| == |n.children|
    && forall k: nat :: CellInserted(n, n', position, count, k)
  }

  lemma OwnCellsInserted(t: Tree, position: nat, count: nat)
    requires position <= |t.data|
    ensures CellsInserted(t, InsertColumns(t, position, count), position, count)
  {
    if t.children != [] {
      InsertedAt(t.children, position, count, 0);
    } else {
      assert InsertColumnsAll(t.children, position, count) == [];
    }
    var t' := InsertColumns(t, position, count);
    assert |t'.children| == |t.children|;
    forall k: nat
      ensures CellInserted(t, t', position, count, k)
    {
    }
  }

  /** Columns are inserted in every row of the tree, wherever it is, and no row comes or goes. */
  lemma {:induction false} InsertColumnsEverywhere(t: Tree, w: nat, position: nat, count: nat, p: Path)
    requires Rect(t, w) && position <= w
    ensures var t' := InsertColumns(t, position, count);
            && (At(t, p).None? <==> At(t', p).None?)
            && (At(t, p).Some? ==> CellsInserted(At(t, p).value, At(t', p).value, position, count))
    decreases p
  {
    if p == [] {
      OwnCellsInserted(t, position, count);
    } else if p[0] < |t.children| {
      OwnCellsInserted(t, position, count);
      InsertedAt(t.children, position, count, p[0]);
      InsertColumnsEverywhere(t.children[p[0]], w, position, count, p[1..]);
    } else {
      OwnCellsInserted(t, position, count);
    }
  }

  lemma {:induction false} RemovedAt(cs: seq<Tree>, position: nat, count: nat, i: nat)
    requires i < |cs| && !RemoveColumnsAll(cs, position, count).1
    ensures |RemoveColumnsAll(cs, position, count).0| == |cs|
    ensures RemoveColumnsAll(cs, position, count).0[i] == RemoveColumns(cs[i], position, count).0
    decreases |cs|
  {
    hide RemoveColumns;
    if i > 0 {
      RemovedAt(cs[1..], position, count, i - 1);
    } else if |cs| > 1 {
      RemovedAt(cs[1..], position, count, 0);
    }
  }

  /** Child `j` has lost its columns, as far as it goes, if it is not behind child `i`; and otherwise none. */
  predicate ChildDone(cs: seq<Tree>, cs': seq<Tree>, position: nat, count: nat, i: nat, j: nat)
    requires j < |cs| == |cs'|
  {
    if j > i then cs'[j] == cs[j]
    else cs'[j] == RemoveColumns(cs[j], position, count).0 && (j < i ==> !RemoveColumns(cs[j], position, count).1)
  }

  /** The exception in the first child that raises one keeps the children behind it from losing any column; those in
      front of it have lost theirs. */
  lemma {:induction false} RemovedUpTo(cs: seq<Tree>, position: nat, count: nat) returns (i: nat)
    ensures var (cs', raised) := RemoveColumnsAll(cs, position, count);
            && i <= |cs| == |cs'| && (raised <==> i < |cs|)
            && (i < |cs| ==> RemoveColumns(cs[i], position, count).1)
            && forall j :: 0 <= j < |cs| ==> ChildDone(cs, cs', position, count, i, j)
    decreases |cs|
  {
    hide RemoveColumns;
    if cs == [] {
      i := 0;
    } else {
      var (cs', raised) := RemoveColumnsAll(cs, position, count);
      if RemoveColumns(cs[0], position, count).1 {
        i := 0;
      } else {
        var k := RemovedUpTo(cs[1..], position, count);
        i := k + 1;
        forall j | 0 <= j < |cs|
          ensures ChildDone(cs, cs', position, count, i, j)
        {
          if j > 0 {
            assert ChildDone(cs[1..], cs'[1..], position, count, k, j - 1);
          }
        }
      }
    }
  }

  /** At `p`, under rows that all have the columns, stands a row in which they start and do not end. */
  predicate CutShort(t: Tree, p: Path, position: nat, count: nat) {
    if p == [] then position <= |t.data| < position + count
    else position + count <= |t.data| && p[0] < |t.children| && CutShort(t.children[p[0]], p[1..], position, count)
  }

  lemma {:induction false} RaisesWhere(t: Tree, position: nat, count: nat) returns (p: Path)
    requires RemoveColumns(t, position, count).1
    ensures CutShort(t, p, position, count)
  {
    if position + count > |t.data| {
      p := [];
    } else {
      var i := RemovedUpTo(t.children, position, count);
      var q := RaisesWhere(t.children[i], position, count);
      p := [i] + q;
      assert p[1..] == q;
    }
  }

  lemma {:induction false} ChildRaises(cs: seq<Tree>, i: nat, position: nat, count: nat)
    requires i < |cs| && RemoveColumns(cs[i], position, count).1
    ensures RemoveColumnsAll(cs, position, count).1
    decreases |cs|
  {
    hide RemoveColumns;
    if i > 0 {
      ChildRaises(cs[1..], i - 1, position, count);
    }
  }

  lemma {:induction false} CutShortRaises(t: Tree, p: Path, position: nat, count: nat)
    requires CutShort(t, p, position, count)
    ensures RemoveColumns(t, position, count).1
    decreases p
  {
    if p != [] {
      CutShortRaises(t.children[p[0]], p[1..], position, count);
      ChildRaises(t.children, p[0], position, count);
    }
  }

  /** Removing columns from any tree, of whatever widths, raises exactly when there is such a row. */
  lemma RemoveColumnsRaisesIff(t: Tree, position: nat, count: nat)
    ensures RemoveColumns(t, position, count).1 ==> exists p :: CutShort(t, p, position, count)
    ensures (exists p :: CutShort(t, p, position, count)) ==> RemoveColumns(t, position, count).1
  {
    if RemoveColumns(t, position, count).1 {
      var p := RaisesWhere(t, position, count);
      assert CutShort(t, p, position, count);
    }
    forall p: Path
      ensures CutShort(t, p, position, count) ==> RemoveColumns(t, position, count).1
    {
      if CutShort(t, p, position, count) {
        CutShortRaises(t, p, position, count);
      }
    }
  }

  /** A row that ends before the columns start refuses both edits, for itself and all below it. */
  lemma BeyondEndRefused(t: Tree, position: nat, count: nat)
    requires position > |t.data|
    ensures InsertColumns(t, position, count) == t && RemoveColumns(t, position, count) == (t, false)
  {
  }

  predicate CellRemoved(n: Tree, n': Tree, position: nat, count: nat, k: nat) {
    GetCell(n', k) == if k < position then GetCell(n, k) else GetCell(n, k + count)
  }

  /** `n'` has the cells of `n` without `count` of them from `position` on. */
  ghost predicate CellsRemoved(n: Tree, n': Tree, position: nat, count: nat) {
    && |n.data| == |n'.data| + count && |n'.children| == |n.children|
    && forall k: nat :: CellRemoved(n, n', position, count, k)
  }

  lemma OwnCellsRemoved(t: Tree, position: nat, count: nat)
    requires position + count <= |t.data| && !RemoveColumnsAll(t.children, position, count).1
    ensures CellsRemoved(t, RemoveColumns(t, position, count).0, position, count)
  {
    if t.children != [] {
      RemovedAt(t.children, position, count, 0);
    } else {
      assert RemoveColumnsAll(t.children, position, count) == ([], false);
    }
    var t' := RemoveColumns(t, position, count).0;
    assert |t'.children| == |t.children|;
    forall k: nat
      ensures CellRemoved(t, t', position, count, k)
    {
    }
  }

  /** Columns that exist are removed in every row of the tree, wherever it is, and no row comes or goes. */
  lemma {:induction false} RemoveColumnsEverywhere(t: Tree, w: nat, position: nat, count: nat, p: Path)
    requires Rect(t, w) && position + count <= w
    ensures var t' := RemoveColumns(t, position, count).0;
            && (At(t, p).None? <==> At(t', p).None?)
            && (At(t, p).Some? ==> CellsRemoved(At(t, p).value, At(t', p).value, position, count))
    decreases p
  {
    RemoveColumnsAllRect(t.children, w, position, count);
    if p == [] {
      OwnCellsRemoved(t, position, count);
    } else if p[0] < |t.children| {
      OwnCellsRemoved(t, position, count);
      RemovedAt(t.children, position, count, p[0]);
      RemoveColumnsEverywhere(t.children[p[0]], w, position, count, p[1..]);
    } else {
      OwnCellsRemoved(t, position, count);
    }
  }

  ghost predicate Rectangular(t: Tree) {
    exists w :: Rect(t, w)
  }

  /** Removing columns leaves a tree of one width exactly unless the range starts inside the row, runs past
      its end, and there are children: then the root has lost its tail and they have not. */
  lemma RemoveColumnsRectIff(t: Tree, w: nat, position: nat, count: nat)
    requires Rect(t, w)
    ensures Rectangular(RemoveColumns(t, position, count).0) <==>
            !(position < w < position + count && t.children != [])
  {
    var u := RemoveColumns(t, position, count).0;
    if position + count <= w {
      RemoveColumnsRect(t, w, position, count);
      assert Rect(u, w - count);
    } else if position >= w {
      assert u.data == t.data && u.children == t.children;
      assert u == t;
    } else if t.children == [] {
      assert Rect(u, |u.data|);
    } else {
      var c := u.children[0];
      assert |u.data| < w == |c.data|;
      forall v: nat
        ensures Rect(u, v) ==> |u.data| == v == |c.data|
      {
        assert Rect(u, v) ==> Rect(c, v);
      }
    }
  }

  /** Putting a node of the same width into a tree. */
  lemma {:induction false} PutRect(t: Tree, p: Path, n: Tree, w: nat)
    requires Rect(t, w) && At(t, p).Some?
    ensures Rect(At(t, p).value, w)
    ensures Rect(Put(t, p, n), w) <==> Rect(n, w)
    decreases p
  {
    if p != [] {
      PutRect(t.children[p[0]], p[1..], n, w);
      var u := Put(t, p, n);
      assert u.children[p[0]] == Put(t.children[p[0]], p[1..], n);
      assert forall i :: 0 <= i < |t.children| && i != p[0] ==> u.children[i] == t.children[i];
    }
  }

  lemma PutRowsRect(t: Tree, p: Path, cs: seq<Tree>, w: nat)
    requires Rect(t, w) && At(t, p).Some?
    ensures AllRect(RowsAt(t, p), w)
    ensures Rect(PutRows(t, p, cs), w) <==> AllRect(cs, w)
  {
    PutRect(t, p, At(t, p).value.(children := cs), w);
  }

  lemma PutRowsKeepsRect(t: Tree, p: Path, cs: seq<Tree>, w: nat)
    requires Rect(t, w)
    ensures AllRect(RowsAt(t, p), w)
    ensures AllRect(cs, w) ==> Rect(PutRows(t, p, cs), w)
  {
    if At(t, p).Some? {
      PutRowsRect(t, p, cs, w);
    }
  }

  /** Doing a command again, whatever the tree has become since it was made, and wherever its item is now, keeps all
      rows of one width. */
  lemma RedoKeepsRect(t: Tree, c: Command, at: Option<Path>, w: nat)
    requires Rect(t, w)
    ensures Rect(Redo(t, c, at), w)
  {
    RectWidth(t, w);
    hide Locate, AllRect, Rect, PutRows, RowsAt;
    match c
    case Delete(p, _, position, rows, _) =>
      var q := Locate(t, p);
      RemoveRowsRect(RowsAt(t, q), position, rows, w);
      PutRowsKeepsRect(t, q, RemoveRows(RowsAt(t, q), position, rows), w);
    case Modify(p, column, _, v) =>
      SetDataRect(t, p, column, v, w);
    case Add(_, position, rows) =>
      if at.Some? {
        InsertRowsRect(RowsAt(t, at.value), position, rows, w);
        PutRowsKeepsRect(t, at.value, InsertRows(RowsAt(t, at.value), position, rows, w), w);
      }
    case Move(_, column, row, newRow) =>
      if at.Some? {
        MoveRowsRect(t, at.value, column, row, newRow, w);
      }
  }

  lemma MoveRowsRect(t: Tree, q: Path, column: nat, from: nat, to: nat, w: nat)
    requires Rect(t, w)
    ensures Rect(PutRows(t, q, MoveRows(RowsAt(t, q), q, column, from, to)), w)
  {
    hide Rect, PutRows, RowsAt, AllRect;
    var cs := RowsAt(t, q);
    PutRowsKeepsRect(t, q, MoveRows(cs, q, column, from, to), w);
    if FirstColumn(q, column) && from < |cs| {
      MoveElemRect(cs, from, to, w);
    }
  }

  lemma SetDataRect(t: Tree, p: Path, column: nat, v: Cell, w: nat)
    requires Rect(t, w)
    ensures Rect(SetData(t, p, column, v), w)
  {
    hide Locate;
    var q := Locate(t, p);
    if q != [] {
      PutRect(t, q, SetCell(At(t, q).value, column, v), w);
    }
  }

  lemma RemoveRowsRect(cs: seq<Tree>, position: nat, count: nat, w: nat)
    ensures AllRect(cs, w) ==> AllRect(RemoveRows(cs, position, count), w)
  {
    hide Rect;
  }

  lemma InsertRowsRect(cs: seq<Tree>, position: nat, count: nat, w: nat)
    ensures AllRect(cs, w) ==> AllRect(InsertRows(cs, position, count, w), w)
  {
    assert Rect(BlankRow(w), w);
    hide Rect, BlankRow;
  }

  lemma MoveElemRect(cs: seq<Tree>, from: nat, to: nat, w: nat)
    requires from < |cs|
    ensures AllRect(cs, w) ==> AllRect(MoveElem(cs, from, to), w)
  {
    hide Rect;
  }

  lemma InsertAtRect(cs: seq<Tree>, i: nat, x: Tree, w: nat)
    ensures AllRect(InsertAt(cs, i, x), w) <==> AllRect(cs, w) && Rect(x, w)
  {
    hide Rect, InsertAt;
    InsertMembers(cs, i, x);
    AllRectMembers(cs, w);
    AllRectMembers(InsertAt(cs, i, x), w);
  }

  lemma AllRectMembers(cs: seq<Tree>, w: nat)
    ensures AllRect(cs, w) <==> forall c :: c in cs ==> Rect(c, w)
  {
    hide Rect;
    if forall c :: c in cs ==> Rect(c, w) {
      forall i | 0 <= i < |cs|
        ensures Rect(cs[i], w)
      {
        assert cs[i] in cs;
      }
    }
  }

  lemma {:induction false} RestoreRowsRect(cs: seq<Tree>, position: nat, saved: seq<Tree>, w: nat)
    ensures AllRect(RestoreRows(cs, position, saved), w) <==> AllRect(cs, w) && AllRect(saved, w)
    decreases |saved|
  {
    if saved != [] {
      hide Rect, RestoreRows, InsertAt, AllRect;
      var k := |saved| - 1;
      var before := saved[..k];
      assert saved == before + [saved[k]];
      RestoreRowsRect(cs, position, before, w);
      RestoreStep(cs, position, before, saved[k]);
      InsertAtRect(RestoreRows(cs, position, before), position + k, saved[k], w);
      AllRectSnoc(before, saved[k], w);
    }
  }

  lemma AllRectSnoc(cs: seq<Tree>, x: Tree, w: nat)
    ensures AllRect(cs + [x], w) <==> AllRect(cs, w) && Rect(x, w)
  {
    hide Rect;
    assert (cs + [x])[|cs|] == x;
    assert forall i :: 0 <= i < |cs| ==> (cs + [x])[i] == cs[i];
  }

  /** Columns change without the undo stack knowing.  Undoing a command, whatever the tree has become, keeps all rows
      of one width, except that the rows that the undo of a deletion puts back must have that width. */
  lemma UndoRectIff(t: Tree, c: Command, at: Option<Path>, w: nat)
    requires Rect(t, w)
    ensures Rect(Undo(t, c, at), w) <==> c.Delete? ==> AllRect(c.saved, w)
  {
    hide Locate, RestoreRows, AllRect, Rect, PutRows, RowsAt;
    match c
    case Delete(p, _, position, _, saved) =>
      var q := Locate(t, p);
      PutRowsRect(t, q, RestoreRows(RowsAt(t, q), position, saved), w);
      RestoreRowsRect(RowsAt(t, q), position, saved, w);
    case Modify(p, column, v, _) =>
      SetDataRect(t, p, column, v, w);
    case Add(_, position, rows) =>
      if at.Some? {
        RemoveRowsRect(RowsAt(t, at.value), position, rows, w);
        PutRowsKeepsRect(t, at.value, RemoveRows(RowsAt(t, at.value), position, rows), w);
      }
    case Move(_, column, row, newRow) =>
      if at.Some? {
        MoveRowsRect(t, at.value, column, newRow, row, w);
      }
  }

  lemma AllRectOfRect(t: Tree, w: nat)
    ensures Rect(t, w) <==> |t.data| == w && AllRect(t.children, w)
  {
  }

  // Runs of row and column edits

  /** All rows have the width of the root. */
  predicate Uniform(t: Tree) {
    Rect(t, |t.data|)
  }

  /** What happens to a model: an action of its undo stack, or an edit of columns, which goes past the stack. */
  datatype Edit =
    | StackAction(action: Action)
    | NewColumns(position: nat, columns: nat)
    | DropColumns(position: nat, columns: nat)

  function Apply(e: Editor, x: Edit): Editor {
    match x
    case StackAction(a) => Act(e, a)
    case NewColumns(position, columns) => e.(root := InsertColumns(e.root, position, columns))
    case DropColumns(position, columns) => RemoveModelColumns(e, position, columns)
  }

  /** `removeColumns` of the model: when no column is left, all rows go too, by a command. */
  function RemoveModelColumns(e: Editor, position: nat, columns: nat): Editor {
    var (t, raised) := RemoveColumns(e.root, position, columns);
    var e' := e.(root := t);
    if raised || t.data != [] then e' else Act(e', Push(MakeDelete(t, [], 0, 0, |t.children|)))
  }

  function RunEdits(e: Editor, xs: seq<Edit>): Editor {
    if xs == [] then e else Apply(RunEdits(e, xs[..|xs| - 1]), xs[|xs| - 1])
  }

  /** The edit finds what it needs: rows to restore have the present width, and columns to remove do not start inside
      the rows and run past their end, unless there are none below the root. */
  predicate Fits(e: Editor, x: Edit) {
    match x
    case StackAction(UndoLast) =>
      0 < e.index <= |e.commands| == |e.held| && e.commands[e.index - 1].Delete? ==>
        AllRect(e.commands[e.index - 1].saved, |e.root.data|)
    case DropColumns(position, columns) =>
      !(position < |e.root.data| < position + columns && e.root.children != [])
    case _ => true
  }

  lemma RectUniform(t: Tree, w: nat)
    requires |t.data| == w
    ensures Uniform(t) <==> Rect(t, w)
  {
  }

  lemma RectWidth(t: Tree, w: nat)
    ensures Rect(t, w) ==> |t.data| == w
  {
  }

  lemma ActUniformIff(e: Editor, a: Action)
    requires Uniform(e.root)
    ensures Uniform(Act(e, a).root) <==> Fits(e, StackAction(a))
  {
    hide Rect, Redo, Undo, AllRect, HeldAfterRedo, HeldAfterUndo;
    var w := |e.root.data|;
    if e.index <= |e.commands| == |e.held| {
      match a
      case Push(c) =>
        RedoUniform(e.root, c, Held(c));
      case UndoLast =>
        if e.index > 0 {
          var c, at := e.commands[e.index - 1], e.held[e.index - 1];
          UndoRectIff(e.root, c, at, w);
          UndoWidth(e.root, c, at);
        }
      case RedoNext =>
        if e.index < |e.commands| {
          RedoUniform(e.root, e.commands[e.index], e.held[e.index]);
        }
    }
  }

  lemma RedoUniform(t: Tree, c: Command, at: Option<Path>)
    requires Uniform(t)
    ensures Uniform(Redo(t, c, at))
  {
    hide Rect, Redo;
    RedoKeepsRect(t, c, at, |t.data|);
    RectWidth(Redo(t, c, at), |t.data|);
  }

  lemma UndoWidth(t: Tree, c: Command, at: Option<Path>)
    ensures |Undo(t, c, at).data| == |t.data|
  {
    hide Locate, RestoreRows, RemoveRows, MoveRows;
  }

  lemma AllRowsRemoved(t: Tree)
    ensures PutRows(t, [], RemoveRows(RowsAt(t, []), 0, |t.children|)) == t.(children := [])
    ensures At(t, []).Some? && Deletable(t, [], 0, 0, |t.children|)
  {
    assert RemoveRows(t.children, 0, |t.children|) == [];
  }

  /** Removing columns leaves the undo stack alone, unless no column is left and nothing raised: then no row is left
      either, and undoing the command on top of the stack brings the rows back as the removal left them. */
  lemma DropLastColumn(e: Editor, position: nat, columns: nat)
    requires e.index <= |e.commands| == |e.held|
    ensures var (t, raised) := RemoveColumns(e.root, position, columns);
            var e' := Apply(e, DropColumns(position, columns));
            if !raised && t.data == []
            then && e'.root.data == [] && e'.root.children == [] && e'.index == e.index + 1 == |e'.commands|
                 && e'.commands[..e.index] == e.commands[..e.index]
                 && Undo(e'.root, e'.commands[e.index], None) == t
            else e' == e.(root := t)
  {
    hide RemoveColumns, Redo, Undo, HeldAfterRedo, MakeDelete;
    var (t, raised) := RemoveColumns(e.root, position, columns);
    if !raised && t.data == [] {
      AllRowsRemoved(t);
      DeleteAll(t);
    }
  }

  lemma DeleteAll(t: Tree)
    ensures var c := MakeDelete(t, [], 0, 0, |t.children|);
            && Held(c) == None && Redo(t, c, None) == t.(children := []) && Undo(Redo(t, c, None), c, None) == t
  {
    var c := MakeDelete(t, [], 0, 0, |t.children|);
    AllRowsRemoved(t);
    RedoDelete(t, c);
    DeleteUndoIff(t, [], 0, 0, |t.children|);
  }

  lemma DropUniformIff(e: Editor, position: nat, columns: nat)
    requires Uniform(e.root)
    ensures Uniform(RemoveModelColumns(e, position, columns).root) <==> Fits(e, DropColumns(position, columns))
  {
    hide Rect, RemoveColumns, Redo, HeldAfterRedo;
    var w := |e.root.data|;
    var t := RemoveColumns(e.root, position, columns).0;
    RemoveColumnsRectIff(e.root, w, position, columns);
    if Rectangular(t) {
      var v :| Rect(t, v);
      RectWidth(t, v);
      RedoUniform(t, MakeDelete(t, [], 0, 0, |t.children|), None);
    } else {
      assert !Uniform(t);
      RemovedRaises(e.root, position, columns);
    }
  }

  lemma RemovedRaises(t: Tree, position: nat, count: nat)
    requires position < |t.data| < position + count
    ensures RemoveColumns(t, position, count).1
  {
  }

  /** An edit of a tree with rows of one width leaves one width exactly when it fits. */
  lemma ApplyUniformIff(e: Editor, x: Edit)
    requires Uniform(e.root)
    ensures Uniform(Apply(e, x).root) <==> Fits(e, x)
  {
    hide Uniform, Act, InsertColumns, RemoveModelColumns;
    match x
    case StackAction(a) =>
      ActUniformIff(e, a);
    case NewColumns(position, columns) =>
      InsertUniform(e.root, position, columns);
    case DropColumns(position, columns) =>
      DropUniformIff(e, position, columns);
  }

  lemma InsertUniform(t: Tree, position: nat, count: nat)
    requires Uniform(t)
    ensures Uniform(InsertColumns(t, position, count))
  {
    hide Rect;
    if position <= |t.data| {
      InsertColumnsRect(t, |t.data|, position, count);
      RectWidth(InsertColumns(t, position, count), |t.data| + count);
    }
  }

  /** After the first `k` edits all rows have one width. */
  predicate UniformAfter(e: Editor, xs: seq<Edit>, k: nat)
    requires k <= |xs|
  {
    Uniform(RunEdits(e, xs[..k]).root)
  }

  /** The edit after the first `k` fits. */
  predicate NextFits(e: Editor, xs: seq<Edit>, k: nat)
    requires k < |xs|
  {
    Fits(RunEdits(e, xs[..k]), xs[k])
  }

  lemma NextUniformIff(e: Editor, xs: seq<Edit>, k: nat)
    requires k < |xs| && UniformAfter(e, xs, k)
    ensures UniformAfter(e, xs, k + 1) <==> NextFits(e, xs, k)
  {
    hide Uniform, Fits, Apply;
    assert xs[..k + 1][..k] == xs[..k];
    ApplyUniformIff(RunEdits(e, xs[..k]), xs[k]);
  }

  /**
   Along every run of row edits, column edits, undos and redos, in any order: all rows have one width at all times if
   and only if every edit fits when it is made.
   */
  lemma RunUniformIff(e: Editor, xs: seq<Edit>)
    requires Uniform(e.root)
    ensures (forall k: nat :: k <= |xs| ==> UniformAfter(e, xs, k))
            <==> (forall k: nat :: k < |xs| ==> NextFits(e, xs, k))
  {
    if forall k: nat :: k < |xs| ==> NextFits(e, xs, k) {
      forall k: nat | k <= |xs|
        ensures UniformAfter(e, xs, k)
      {
        UniformUpTo(e, xs, k);
      }
    }
    if forall k: nat :: k <= |xs| ==> UniformAfter(e, xs, k) {
      hide UniformAfter, NextFits;
      forall k: nat | k < |xs|
        ensures NextFits(e, xs, k)
      {
        NextUniformIff(e, xs, k);
      }
    }
  }

  lemma {:induction false} UniformUpTo(e: Editor, xs: seq<Edit>, k: nat)
    requires Uniform(e.root) && k <= |xs|
    requires forall j: nat :: j < |xs| ==> NextFits(e, xs, j)
    ensures UniformAfter(e, xs, k)
  {
    if k > 0 {
      hide UniformAfter, NextFits;
      UniformUpTo(e, xs, k - 1);
      NextUniformIff(e, xs, k - 1);
    } else {
      assert xs[..0] == [];
    }
  }

  // Runs without column edits

  lemma SavedRect(t: Tree, p: Path, column: nat, position: nat, rows: nat, w: nat)
    requires Rect(t, w)
    ensures AllRect(Saved(t, p, column, position, rows), w)
  {
    if At(t, p).Some? {
      PutRect(t, p, At(t, p).value, w);
      AllRectOfRect(At(t, p).value, w);
    }
    hide Rect, At, RowsAt;
    AllRectOfRect(t, w);
    var saved := Saved(t, p, column, position, rows);
    assert forall i :: 0 <= i < rows ==> saved[i] == SavedRow(t, p, column, position + i);
  }

  /** A deletion pushed is one that its constructor makes for the present tree. */
  predicate Made(e: Editor, a: Action) {
    a.Push? && a.command.Delete? ==>
      var c := a.command;
      c == MakeDelete(e.root, c.parent, c.column, c.position, c.rows)
  }

  /** All rows have `w` cells, those that a deletion keeps for its undo too. */
  predicate AllWide(e: Editor, w: nat) {
    Rect(e.root, w) && forall k :: 0 <= k < |e.commands| && e.commands[k].Delete? ==> AllRect(e.commands[k].saved, w)
  }

  lemma ActKeepsWidth(e: Editor, a: Action, w: nat)
    requires AllWide(e, w) && Made(e, a)
    ensures AllWide(Act(e, a), w)
  {
    hide Rect, Redo, Undo, AllRect, Saved, HeldAfterRedo, HeldAfterUndo;
    if e.index <= |e.commands| == |e.held| {
      match a
      case Push(c) =>
        RedoKeepsRect(e.root, c, Held(c), w);
        if c.Delete? {
          SavedRect(e.root, c.parent, c.column, c.position, c.rows, w);
        }
      case UndoLast =>
        if e.index > 0 {
          UndoRectIff(e.root, e.commands[e.index - 1], e.held[e.index - 1], w);
        }
      case RedoNext =>
        if e.index < |e.commands| {
          RedoKeepsRect(e.root, e.commands[e.index], e.held[e.index], w);
        }
    }
  }

  predicate NextMade(e: Editor, actions: seq<Action>, k: nat)
    requires k < |actions|
  {
    Made(Run(e, actions[..k]), actions[k])
  }

  /** Without column edits every run of the undo stack keeps all rows of one width, also one of commands whose undo
      goes wrong. */
  lemma {:induction false} RunKeepsRect(initial: Tree, actions: seq<Action>, w: nat)
    requires Rect(initial, w)
    requires forall k: nat :: k < |actions| ==> NextMade(Start(initial), actions, k)
    ensures AllWide(Run(Start(initial), actions), w)
    decreases |actions|
  {
    hide Act, Made, Rect, AllRect;
    var e := Start(initial);
    if actions != [] {
      var k := |actions| - 1;
      forall j: nat | j < k
        ensures NextMade(e, actions[..k], j)
      {
        assert NextMade(e, actions, j);
        assert actions[..k][..j] == actions[..j];
      }
      RunKeepsRect(initial, actions[..k], w);
      assert NextMade(e, actions, k);
      ActKeepsWidth(Run(e, actions[..k]), actions[k], w);
    }
  }

  /** Deleting a row, inserting a column and undoing the deletion leaves rows of two widths. */
  lemma ColumnEditBreaksUndo()
    ensures var t := Node([NoneCell], [Node([NoneCell], [])]);
            var e := Act(Start(t), Push(MakeDelete(t, [], 0, 0, 1)));
            Uniform(t) && !Uniform(Apply(Apply(e, NewColumns(0, 1)), StackAction(UndoLast)).root)
  {
    var t := Node([NoneCell], [Node([NoneCell], [])]);
    var c := MakeDelete(t, [], 0, 0, 1);
    assert Uniform(t);
    OneRowDeleted();
    OneColumnInserted();
    hide InsertColumns, Redo, Undo, MakeDelete, Uniform;
    var e := Editor(Node([NoneCell], []), [c], [None], 1);
    assert Act(Start(t), Push(c)) == e;
    var e' := Editor(Node([Invalid, NoneCell], []), [c], [None], 1);
    assert Apply(e, NewColumns(0, 1)) == e';
    assert Uniform(e'.root) by {
      RectUniform(e'.root, 2);
    }
    ApplyUniformIff(e', StackAction(UndoLast));
  }

  lemma OneRowDeleted()
    ensures var t := Node([NoneCell], [Node([NoneCell], [])]);
            var c := MakeDelete(t, [], 0, 0, 1);
            && Redo(t, c, None) == Node([NoneCell], [])
            && c.Delete? && c.saved == t.children && !AllRect(c.saved, 2)
  {
    var row := Node([NoneCell], []);
    var t := Node([NoneCell], [row]);
    var c := MakeDelete(t, [], 0, 0, 1);
    assert c.saved == [row];
    assert !Rect(c.saved[0], 2);
    assert RemoveRows([row], 0, 1) == [];
  }

  lemma OneColumnInserted()
    ensures InsertColumns(Node([NoneCell], []), 0, 1) == Node([Invalid, NoneCell], [])
  {
  }

  /** Two columns are removed of which only the first exists in a row of two: the root loses its tail, the exception
      comes, and the row below keeps both cells. */
  lemma RemovePastEndExample()
    ensures var t := Node([NoneCell, NoneCell], [Node([NoneCell, NoneCell], [])]);
            && Uniform(t) && RemoveColumns(t, 1, 2) == (Node([NoneCell], t.children), true)
            && !Rectangular(RemoveColumns(t, 1, 2).0)
  {
    var row := Node([NoneCell, NoneCell], []);
    var t := Node([NoneCell, NoneCell], [row]);
    assert Rect(row, 2);
    RemoveColumnsRectIff(t, 2, 1, 2);
    assert t.data[..1] == [NoneCell];
  }
}
