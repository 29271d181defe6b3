/**
 Where an item of a tree goes when a command is executed or undone: edits shift it, or take it out of the tree.
 */
module ItemPlaces {
  import opened Strings
  import opened Lists
  import opened Trees

  // Where an item goes

  /** The item at `p` when `n` rows are inserted under `q` from `position` on. */
  function AfterInsert(p: Path, q: Path, position: nat, n: nat): Path {
    if q < p && position <= p[|q|] then p[|q| := p[|q|] + n] else p
  }

  /** The item at `p` when `n` rows are removed under `q` from `position` on: it may go with them. */
  function AfterRemove(p: Path, q: Path, position: nat, n: nat): Option<Path> {
    if !(q < p) || p[|q|] < position then Some(p)
    else if p[|q|] < position + n then None
    else Some(p[|q| := p[|q|] - n])
  }

  /** The row in which the element of row `i` is after `MoveElem(_, from, to)`. */
  function MovedRow(i: nat, from: nat, to: nat): nat {
    if i == from then to
    else if from < i <= to then i - 1
    else if to <= i < from then i + 1
    else i
  }

  function AfterMove(p: Path, q: Path, from: nat, to: nat): Path {
    if q < p then p[|q| := MovedRow(p[|q|], from, to)] else p
  }

  /** A move past the end goes to the last row. */
  function Landing(count: nat, to: nat): nat
    requires 0 < count
  {
    if to < count then to else count - 1
  }

  /** Where the item at `p` is after `Redo(t, c, at)`, if it is still in the tree. */
  function FollowRedo(t: Tree, c: Command, at: Option<Path>, p: Path): Option<Path> {
    match c
    case Delete(parent, _, position, rows, _) =>
      var q := Locate(t, parent);
      if position + rows <= |RowsAt(t, q)| then AfterRemove(p, q, position, rows) else Some(p)
    case Modify(_, _, _, _) => Some(p)
    case Add(_, position, rows) =>
      if at.Some? && position <= |RowsAt(t, at.value)| then Some(AfterInsert(p, at.value, position, rows)) else Some(p)
    case Move(_, column, row, newRow) =>
      if at.None? then Some(p) else Some(FollowMove(p, at.value, column, |RowsAt(t, at.value)|, row, newRow))
  }

  /** Where the item at `p` is after `Undo(t, c, at)`, if it is still in the tree.  Rows restored are new items. */
  function FollowUndo(t: Tree, c: Command, at: Option<Path>, p: Path): Option<Path> {
    match c
    case Delete(parent, _, position, _, saved) => Some(AfterInsert(p, Locate(t, parent), position, |saved|))
    case Modify(_, _, _, _) => Some(p)
    case Add(_, position, rows) =>
      if at.Some? && position + rows <= |RowsAt(t, at.value)| then AfterRemove(p, at.value, position, rows) else Some(p)
    case Move(_, column, row, newRow) =>
      if at.None? then Some(p) else Some(FollowMove(p, at.value, column, |RowsAt(t, at.value)|, newRow, row))
  }

  function FollowMove(p: Path, q: Path, column: nat, count: nat, from: nat, to: nat): Path {
    if FirstColumn(q, column) && from < count then AfterMove(p, q, from, Landing(count, to)) else p
  }

  /** An item leaves the tree with a deletion of the row that it is or is under, and otherwise never when a command is
      executed. */
  lemma LeavesOnRedoIff(t: Tree, c: Command, at: Option<Path>, p: Path)
    ensures FollowRedo(t, c, at, p).None? <==>
            c.Delete? &&
            var q := Locate(t, c.parent);
            && c.position + c.rows <= |RowsAt(t, q)|
            && q < p && c.position <= p[|q|] < c.position + c.rows
  {
    hide Locate;
  }

  /** And with the undo of an addition that made the row that it is or is under. */
  lemma LeavesOnUndoIff(t: Tree, c: Command, at: Option<Path>, p: Path)
    ensures FollowUndo(t, c, at, p).None? <==>
            c.Add? && at.Some? &&
            var q := at.value;
            && c.position + c.rows <= |RowsAt(t, q)|
            && q < p && c.position <= p[|q|] < c.position + c.rows
  {
    hide Locate;
  }

  // What is found there

  lemma {:induction false} AtThrough(t: Tree, q: Path, p: Path)
    ensures At(t, q + p) == if At(t, q).Some? then At(At(t, q).value, p) else None
    decreases q
  {
    if q == [] {
      assert q + p == p;
    } else if q[0] < |t.children| {
      assert (q + p)[1..] == q[1..] + p;
      AtThrough(t.children[q[0]], q[1..], p);
    }
  }

  /** Below `q`, what was under row `i` is under row `i'`, if that row holds the same tree. */
  lemma FoundInRow(t: Tree, q: Path, cs: seq<Tree>, p: Path, i': nat)
    requires At(t, q).Some? && q < p
    requires p[|q|] < |RowsAt(t, q)| && i' < |cs| && cs[i'] == RowsAt(t, q)[p[|q|]]
    ensures At(PutRows(t, q, cs), p[|q| := i']) == At(t, p)
  {
    var rest := p[|q|..];
    PutRowsTwice(t, q, cs);
    assert p == q + rest && p[|q| := i'] == q + rest[0 := i'];
    AtThrough(t, q, rest);
    AtThrough(PutRows(t, q, cs), q, rest[0 := i']);
    assert rest[0 := i'][1..] == rest[1..];
  }

  /** Apart from `q` nothing changes. */
  lemma {:induction false} FoundElsewhere(t: Tree, q: Path, cs: seq<Tree>, p: Path)
    requires !(q <= p) && !(p <= q)
    ensures At(PutRows(t, q, cs), p) == At(t, p)
  {
    if At(t, q).Some? {
      ApartPaths(q, p);
      PutElsewhere(t, q, At(t, q).value.(children := cs), p);
    }
  }

  lemma {:induction false} ApartPaths(q: Path, p: Path)
    requires !(q <= p) && !(p <= q)
    ensures Apart(q, p)
    decreases q
  {
    if q[0] == p[0] {
      assert q == [q[0]] + q[1..] && p == [p[0]] + p[1..];
      ApartPaths(q[1..], p[1..]);
    }
  }

  lemma BelowExists(t: Tree, q: Path, p: Path)
    requires At(t, p).Some? && q < p
    ensures At(t, q).Some? && p[|q|] < |RowsAt(t, q)|
  {
    var rest := p[|q|..];
    assert p == q + rest;
    AtThrough(t, q, rest);
  }

  /** The rows under `q` become `cs`; row `i` of them is now row `i'`. */
  lemma RowFollowed(t: Tree, q: Path, cs: seq<Tree>, p: Path, i': nat)
    requires At(t, p).Some? && !(p <= q)
    requires q < p ==> p[|q|] < |RowsAt(t, q)| && i' < |cs| && cs[i'] == RowsAt(t, q)[p[|q|]]
    ensures At(PutRows(t, q, cs), if q < p then p[|q| := i'] else p) == At(t, p)
  {
    if q < p {
      BelowExists(t, q, p);
      FoundInRow(t, q, cs, p, i');
    } else {
      FoundElsewhere(t, q, cs, p);
    }
  }

  /** The place whose rows a command edits. */
  function EditPlace(t: Tree, c: Command, at: Option<Path>): Option<Path> {
    if c.Delete? then Some(Locate(t, c.parent)) else if c.Modify? then None else at
  }

  /** The rows that a command leaves under the place it edits. */
  function RedoneRows(t: Tree, c: Command, q: Path): seq<Tree>
    requires !c.Modify?
  {
    var cs := RowsAt(t, q);
    match c
    case Delete(_, _, position, rows, _) => RemoveRows(cs, position, rows)
    case Add(_, position, rows) => InsertRows(cs, position, rows, |t.data|)
    case Move(_, column, row, newRow) => MoveRows(cs, q, column, row, newRow)
  }

  function UndoneRows(t: Tree, c: Command, q: Path): seq<Tree>
    requires !c.Modify?
  {
    var cs := RowsAt(t, q);
    match c
    case Delete(_, _, position, _, saved) => RestoreRows(cs, position, saved)
    case Add(_, position, rows) => RemoveRows(cs, position, rows)
    case Move(_, column, row, newRow) => MoveRows(cs, q, column, newRow, row)
  }

  /** What `FollowRedo` says is so: an item that is not the one edited or above it is found, with all below it, at the
      place named, whatever command is executed. */
  lemma FollowRedoFinds(t: Tree, c: Command, at: Option<Path>, p: Path)
    requires !c.Modify? && At(t, p).Some?
    requires EditPlace(t, c, at).Some? ==> !(p <= EditPlace(t, c, at).value)
    ensures FollowRedo(t, c, at, p).Some? ==> At(Redo(t, c, at), FollowRedo(t, c, at, p).value) == At(t, p)
  {
    hide At, PutRows, Locate, RemoveRows, InsertRows, MoveRows;
    var place := EditPlace(t, c, at);
    if place.Some? && FollowRedo(t, c, at, p).Some? {
      var q := place.value;
      if q < p {
        var i' := RowRedone(t, c, at, p);
        RowFollowed(t, q, RedoneRows(t, c, q), p, i');
      } else {
        RowFollowed(t, q, RedoneRows(t, c, q), p, 0);
      }
    }
  }

  lemma RowRedone(t: Tree, c: Command, at: Option<Path>, p: Path) returns (i': nat)
    requires !c.Modify? && At(t, p).Some? && EditPlace(t, c, at).Some? && EditPlace(t, c, at).value < p
    requires FollowRedo(t, c, at, p).Some?
    ensures var q := EditPlace(t, c, at).value;
            && FollowRedo(t, c, at, p) == Some(p[|q| := i'])
            && p[|q|] < |RowsAt(t, q)| && i' < |RedoneRows(t, c, q)|
            && RedoneRows(t, c, q)[i'] == RowsAt(t, q)[p[|q|]]
  {
    hide At, RowsAt, Locate;
    var q := EditPlace(t, c, at).value;
    BelowExists(t, q, p);
    var cs, i := RowsAt(t, q), p[|q|];
    assert p[|q| := i] == p;
    match c
    case Delete(_, _, position, rows, _) =>
      i' := if position + rows <= |cs| && position <= i then i - rows else i;
    case Add(_, position, rows) =>
      i' := if position <= |cs| && position <= i then i + rows else i;
    case Move(_, column, row, newRow) =>
      i' := MovedElem(cs, q, column, row, newRow, i);
  }

  lemma MovedElem(cs: seq<Tree>, q: Path, column: nat, from: nat, to: nat, i: nat) returns (i': nat)
    requires i < |cs|
    ensures i' < |MoveRows(cs, q, column, from, to)| && MoveRows(cs, q, column, from, to)[i'] == cs[i]
    ensures i' == if FirstColumn(q, column) && from < |cs| then MovedRow(i, from, Landing(|cs|, to)) else i
  {
    i' := if FirstColumn(q, column) && from < |cs| then MovedRow(i, from, Landing(|cs|, to)) else i;
  }

  /** The same for undoing. */
  lemma FollowUndoFinds(t: Tree, c: Command, at: Option<Path>, p: Path)
    requires !c.Modify? && At(t, p).Some?
    requires EditPlace(t, c, at).Some? ==> !(p <= EditPlace(t, c, at).value)
    ensures FollowUndo(t, c, at, p).Some? ==> At(Undo(t, c, at), FollowUndo(t, c, at, p).value) == At(t, p)
  {
    hide At, PutRows, Locate, RemoveRows, RestoreRows, MoveRows;
    var place := EditPlace(t, c, at);
    if place.Some? && FollowUndo(t, c, at, p).Some? {
      var q := place.value;
      if q < p {
        var i' := RowUndone(t, c, at, p);
        RowFollowed(t, q, UndoneRows(t, c, q), p, i');
      } else {
        RowFollowed(t, q, UndoneRows(t, c, q), p, 0);
      }
    }
  }

  lemma RowUndone(t: Tree, c: Command, at: Option<Path>, p: Path) returns (i': nat)
    requires !c.Modify? && At(t, p).Some? && EditPlace(t, c, at).Some? && EditPlace(t, c, at).value < p
    requires FollowUndo(t, c, at, p).Some?
    ensures var q := EditPlace(t, c, at).value;
            && FollowUndo(t, c, at, p) == Some(p[|q| := i'])
            && p[|q|] < |RowsAt(t, q)| && i' < |UndoneRows(t, c, q)|
            && UndoneRows(t, c, q)[i'] == RowsAt(t, q)[p[|q|]]
  {
    hide At, RowsAt, Locate, RestoreRows;
    var q := EditPlace(t, c, at).value;
    BelowExists(t, q, p);
    var cs, i := RowsAt(t, q), p[|q|];
    assert p[|q| := i] == p;
    match c
    case Delete(_, _, position, _, saved) =>
      RestoredAround(cs, position, saved);
      i' := if position <= i then i + |saved| else i;
    case Add(_, position, rows) =>
      i' := if position + rows <= |cs| && position <= i then i - rows else i;
    case Move(_, column, row, newRow) =>
      i' := MovedElem(cs, q, column, newRow, row, i);
  }

  lemma InsertLast(s: seq<Tree>, i: nat, x: Tree)
    requires |s| <= i
    ensures InsertAt(s, i, x) == s + [x]
  {
    if i == |s| {
      assert s[..i] == s && s[i..] == [];
    }
  }

  /** Rows restored past the end come last. */
  lemma {:induction false} RestoreRowsLast(cs: seq<Tree>, position: nat, saved: seq<Tree>)
    requires |cs| <= position
    ensures RestoreRows(cs, position, saved) == cs + saved
    decreases |saved|
  {
    if saved == [] {
      assert cs + saved == cs;
    } else {
      hide RestoreRows, InsertAt;
      var k := |saved| - 1;
      var before := saved[..k];
      RestoreRowsLast(cs, position, before);
      RestoreStep(cs, position, before, saved[k]);
      assert before + [saved[k]] == saved;
      assert InsertAt(cs + before, position + k, saved[k]) == cs + before + [saved[k]] by {
        InsertLast(cs + before, position + k, saved[k]);
      }
      assert cs + before + [saved[k]] == cs + saved;
    }
  }

  /** Restoring rows keeps the others, in front of the block and behind it. */
  lemma RestoredAround(cs: seq<Tree>, position: nat, saved: seq<Tree>)
    ensures |RestoreRows(cs, position, saved)| == |cs| + |saved|
    ensures forall i :: 0 <= i < |cs| ==>
              RestoreRows(cs, position, saved)[if position <= i then i + |saved| else i] == cs[i]
  {
    hide RestoreRows;
    if position <= |cs| {
      RestoreRowsBlock(cs, position, saved);
    } else {
      RestoreRowsLast(cs, position, saved);
    }
  }

  // Redo and undo follow in opposite directions

  lemma InsertThenRemove(p: Path, q: Path, position: nat, n: nat)
    ensures AfterRemove(AfterInsert(p, q, position, n), q, position, n) == Some(p)
  {
    var p' := AfterInsert(p, q, position, n);
    if q < p && position <= p[|q|] {
      assert q < p';
      assert p'[|q| := p[|q|]] == p;
    }
  }

  lemma InsertNothing(p: Path, q: Path, position: nat)
    ensures AfterInsert(p, q, position, 0) == p
  {
    if q < p {
      assert p[|q| := p[|q|]] == p;
    }
  }

  lemma RemoveThenInsert(p: Path, q: Path, position: nat, n: nat)
    ensures AfterRemove(p, q, position, n).Some? ==>
              AfterInsert(AfterRemove(p, q, position, n).value, q, position, n) == p
  {
    if AfterRemove(p, q, position, n).Some? && q < p && position <= p[|q|] {
      var p' := AfterRemove(p, q, position, n).value;
      assert q < p';
      assert p'[|q| := p[|q|]] == p;
    }
  }

  lemma MoveThenBack(p: Path, q: Path, from: nat, to: nat)
    ensures AfterMove(AfterMove(p, q, from, to), q, to, from) == p
  {
    var p' := AfterMove(p, q, from, to);
    if q < p {
      assert q < p';
      assert p'[|q| := p[|q|]] == p;
    }
  }

  /** A command ready for `t`, and the tree it makes. */
  lemma FollowBack(t: Tree, c: Command, p: Path)
    requires Ready(t, c)
    ensures var t' := Redo(t, c, Held(c));
            FollowRedo(t, c, Held(c), p).Some? ==>
              FollowUndo(t', c, Held(c), FollowRedo(t, c, Held(c), p).value) == Some(p)
  {
    var t' := Redo(t, c, Held(c));
    match c
    case Delete(parent, column, position, rows, saved) =>
      DeletePlaces(t, c);
      InsertNothing(p, parent, position);
      RemoveThenInsert(p, parent, position, rows);
    case Modify(_, _, _, _) =>
    case Add(parent, position, rows) =>
      AddPlaces(t, c);
      InsertThenRemove(p, parent, position, rows);
    case Move(parent, column, row, newRow) =>
      MovePlaces(t, c);
      MoveThenBack(p, parent, row, newRow);
  }

  lemma FollowForth(t: Tree, c: Command, p: Path)
    requires Ready(t, c)
    ensures var t' := Redo(t, c, Held(c));
            FollowUndo(t', c, Held(c), p).Some? ==>
              FollowRedo(t, c, Held(c), FollowUndo(t', c, Held(c), p).value) == Some(p)
  {
    var t' := Redo(t, c, Held(c));
    match c
    case Delete(parent, column, position, rows, saved) =>
      DeletePlaces(t, c);
      InsertNothing(p, parent, position);
      InsertThenRemove(p, parent, position, rows);
    case Modify(_, _, _, _) =>
    case Add(parent, position, rows) =>
      AddPlaces(t, c);
      RemoveThenInsert(p, parent, position, rows);
    case Move(parent, column, row, newRow) =>
      MovePlaces(t, c);
      MoveThenBack(p, parent, newRow, row);
  }

  lemma DeletePlaces(t: Tree, c: Command)
    requires c.Delete? && Ready(t, c)
    ensures Locate(t, c.parent) == c.parent == Locate(Redo(t, c, None), c.parent) && |c.saved| == c.rows
    ensures c.position + c.rows > |RowsAt(t, c.parent)| ==> c.rows == 0
  {
    hide RemoveRows, PutRows;
    RedoDelete(t, c);
    LocateExisting(t, c.parent);
    PutRowsTwice(t, c.parent, RemoveRows(RowsAt(t, c.parent), c.position, c.rows));
    LocateExisting(Redo(t, c, None), c.parent);
  }

  lemma AddPlaces(t: Tree, c: Command)
    requires c.Add? && Ready(t, c)
    ensures var n, n' := |RowsAt(t, c.parent)|, |RowsAt(Redo(t, c, Held(c)), c.parent)|;
            if c.position <= n then n' == n + c.rows else n' == n
  {
    hide PutRows, At, RowsAt;
    PutRowsTwice(t, c.parent, InsertRows(RowsAt(t, c.parent), c.position, c.rows, |t.data|));
  }

  lemma MovePlaces(t: Tree, c: Command)
    requires c.Move? && Ready(t, c)
    ensures |RowsAt(Redo(t, c, Held(c)), c.parent)| == |RowsAt(t, c.parent)|
  {
    hide PutRows, At, RowsAt;
    PutRowsTwice(t, c.parent, MoveElem(RowsAt(t, c.parent), c.row, c.newRow));
  }
}
