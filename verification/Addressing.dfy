/**
 Addressing cells by location lists: the (row, column) pairs that lead from the top of a tree to an index.
 The delete and modify commands keep such lists instead of indexes.
 */
module Addressing {
  import opened Strings
  import opened Lists
  import opened Forests

  /** A model index; `NoIndex` is the invalid one, which stands for the root. */
  datatype Index<!T(==)> = NoIndex | Index(row: nat, column: nat, item: T)

  type Location = (nat, nat)

  /** `index(row, column, parent)`: only the first column has children. */
  function Child<T(==)>(f: Links<T>, root: T, row: nat, column: nat, parent: Index<T>): Index<T> {
    if parent.Index? && parent.column != 0 then NoIndex
    else
      var p := if parent.Index? then parent.item else root;
      if p in f.kids && row < |f.kids[p]| then Index(row, column, f.kids[p][row]) else NoIndex
  }

  /** `getIndexFromLocations`. */
  function Resolve<T(==)>(f: Links<T>, root: T, locations: seq<Location>): Index<T> {
    if locations == [] then NoIndex
    else
      var k := |locations| - 1;
      Child(f, root, locations[k].0, locations[k].1, Resolve(f, root, locations[..k]))
  }

  /** An index as the model creates it: the item is a child in that row. */
  ghost predicate Proper<T>(f: Links<T>, root: T, ix: Index<T>) {
    ix.Index? ==>
      && ix.item in f.par && ix.item != root && f.par[ix.item].Some?
      && f.par[ix.item].value in f.kids && ix.item in f.kids[f.par[ix.item].value]
      && ix.row == Position(f.kids[f.par[ix.item].value], ix.item)
  }

  /** `parent(index)`: the index of the parent item, in its own row and the first column. */
  function Up<T(==)>(f: Links<T>, root: T, ix: Index<T>): Index<T> {
    if ix.NoIndex? || ix.item !in f.par || f.par[ix.item].None? || f.par[ix.item].value == root then NoIndex
    else
      var p := f.par[ix.item].value;
      Index(ChildNumber(f, p), 0, p)
  }

  /** `childNumber()`. */
  function ChildNumber<T(==)>(f: Links<T>, n: T): nat {
    if n in f.par && f.par[n].Some? && f.par[n].value in f.kids && n in f.kids[f.par[n].value]
    then Position(f.kids[f.par[n].value], n)
    else 0
  }

  /** `getIndexLocations`. */
  ghost function Locations<T>(f: Links<T>, rank: map<T, nat>, root: T, ix: Index<T>): seq<Location>
    requires Rooted(f, rank, root)
    decreases if ix.Index? && ix.item in rank then 1 + rank[ix.item] else 0
  {
    if ix.NoIndex? then []
    else if ix.item !in f.par then [(ix.row, ix.column)]
    else Locations(f, rank, root, Up(f, root, ix)) + [(ix.row, ix.column)]
  }

  lemma UpProper<T>(f: Links<T>, rank: map<T, nat>, root: T, ix: Index<T>)
    requires Rooted(f, rank, root) && Proper(f, root, ix)
    ensures Proper(f, root, Up(f, root, ix))
  {
    if ix.Index? && f.par[ix.item].value != root {
      var p := f.par[ix.item].value;
      assert ListedByParent(f, p);
      assert root in Chain(f.par, rank, p);
      ChainMembers(f.par, rank, p, root);
    }
  }

  lemma ChildOfUp<T>(f: Links<T>, rank: map<T, nat>, root: T, ix: Index<T>)
    requires Rooted(f, rank, root) && Proper(f, root, ix) && ix.Index?
    ensures Child(f, root, ix.row, ix.column, Up(f, root, ix)) == ix
  {
  }

  /** The location list of an index leads back to the index, its row, column and item. */
  lemma {:induction false} ResolveLocations<T>(f: Links<T>, rank: map<T, nat>, root: T, ix: Index<T>)
    requires Rooted(f, rank, root) && Proper(f, root, ix)
    ensures Resolve(f, root, Locations(f, rank, root, ix)) == ix
    decreases if ix.Index? then 1 + rank[ix.item] else 0
  {
    if ix.Index? {
      var up := Up(f, root, ix);
      UpProper(f, rank, root, ix);
      ResolveLocations(f, rank, root, up);
      ChildOfUp(f, rank, root, ix);
      var locations := Locations(f, rank, root, ix);
      assert locations[..|locations| - 1] == Locations(f, rank, root, up);
    }
  }

  /** Indexes with the same location list are the same. */
  lemma LocationsInjective<T>(f: Links<T>, rank: map<T, nat>, root: T, a: Index<T>, b: Index<T>)
    requires Rooted(f, rank, root) && Proper(f, root, a) && Proper(f, root, b)
    ensures Locations(f, rank, root, a) == Locations(f, rank, root, b) ==> a == b
  {
    hide Resolve, Locations;
    ResolveLocations(f, rank, root, a);
    ResolveLocations(f, rank, root, b);
  }

  lemma ChildProper<T>(f: Links<T>, rank: map<T, nat>, root: T, row: nat, column: nat, parent: Index<T>)
    requires Rooted(f, rank, root) && Proper(f, root, parent)
    ensures var ix := Child(f, root, row, column, parent);
            Proper(f, root, ix) && (ix.Index? ==> ix.row == row && ix.column == column
                                                  && Up(f, root, ix) == if parent.Index? then parent else NoIndex)
  {
    var ix := Child(f, root, row, column, parent);
    if ix.Index? {
      var p := if parent.Index? then parent.item else root;
      assert ListsChildren(f, p) && ix.item in f.kids[p];
      PositionUnique(f.kids[p], row);
    }
  }

  lemma {:induction false} ResolveProper<T>(f: Links<T>, rank: map<T, nat>, root: T, locations: seq<Location>)
    requires Rooted(f, rank, root)
    ensures Proper(f, root, Resolve(f, root, locations))
  {
    if locations != [] {
      var k := |locations| - 1;
      ResolveProper(f, rank, root, locations[..k]);
      ChildProper(f, rank, root, locations[k].0, locations[k].1, Resolve(f, root, locations[..k]));
    }
  }

  /** A list whose every step finds an index. */
  ghost predicate EveryStepFinds<T>(f: Links<T>, root: T, locations: seq<Location>) {
    forall k :: 0 < k <= |locations| ==> Resolve(f, root, locations[..k]).Index?
  }

  lemma EveryStepSnoc<T>(f: Links<T>, root: T, locations: seq<Location>)
    requires locations != []
    ensures EveryStepFinds(f, root, locations) <==>
            EveryStepFinds(f, root, locations[..|locations| - 1]) && Resolve(f, root, locations).Index?
  {
    hide Resolve;
    var k := |locations| - 1;
    var before := locations[..k];
    assert locations == locations[..k + 1];
    forall j | 0 < j <= k
      ensures before[..j] == locations[..j]
    {
    }
    if EveryStepFinds(f, root, before) && Resolve(f, root, locations).Index? {
      forall j | 0 < j <= k + 1
        ensures Resolve(f, root, locations[..j]).Index?
      {
        assert j <= k ==> before[..j] == locations[..j];
      }
    }
  }

  lemma LocationsOfChild<T>(f: Links<T>, rank: map<T, nat>, root: T, row: nat, column: nat, parent: Index<T>)
    requires Rooted(f, rank, root) && Proper(f, root, parent)
    ensures var ix := Child(f, root, row, column, parent);
            Locations(f, rank, root, ix) ==
            if ix.NoIndex? then []
            else (if parent.Index? then Locations(f, rank, root, parent) else []) + [(row, column)]
  {
    ChildProper(f, rank, root, row, column, parent);
  }

  /** A location list is the one of the index it resolves to exactly when each of its steps finds an index.
      A step that finds none does not stop the walk: it goes on from the root, so that a list gone stale
      can resolve to an unrelated item. */
  lemma {:induction false} LocationsOfResolve<T>(f: Links<T>, rank: map<T, nat>, root: T, locations: seq<Location>)
    requires Rooted(f, rank, root)
    ensures Locations(f, rank, root, Resolve(f, root, locations)) == locations
            <==> EveryStepFinds(f, root, locations)
    decreases |locations|
  {
    if locations != [] {
      var k := |locations| - 1;
      var before := locations[..k];
      var parent := Resolve(f, root, before);
      assert locations == before + [locations[k]];
      LocationsOfResolve(f, rank, root, before);
      ResolveProper(f, rank, root, before);
      LocationsOfChild(f, rank, root, locations[k].0, locations[k].1, parent);
      EveryStepSnoc(f, root, locations);
      assert Resolve(f, root, locations) == Child(f, root, locations[k].0, locations[k].1, parent);
      if parent.NoIndex? && before != [] {
        assert before == before[..k];
        assert !EveryStepFinds(f, root, before);
      }
      hide Resolve, Child, Proper, Rooted, EveryStepFinds;
      assert Locations(f, rank, root, parent) == before <==>
             Locations(f, rank, root, parent) + [locations[k]] == locations;
    }
  }

  /** Different lists whose every step finds an index lead to different indexes. */
  lemma ResolveInjective<T>(f: Links<T>, rank: map<T, nat>, root: T, a: seq<Location>, b: seq<Location>)
    requires Rooted(f, rank, root) && EveryStepFinds(f, root, a) && EveryStepFinds(f, root, b)
    requires Resolve(f, root, a) == Resolve(f, root, b)
    ensures a == b
  {
    hide Resolve, Locations, EveryStepFinds, Rooted;
    LocationsOfResolve(f, rank, root, a);
    LocationsOfResolve(f, rank, root, b);
  }

  /** Row 5 of the root does not exist, and yet the list goes on to the root's first child. */
  lemma StaleLocationsExample()
    ensures var f := Links(map[0 := [1], 1 := []], map[0 := None, 1 := Some(0)]);
            Resolve(f, 0, [(5, 0), (0, 0)]) == Index(0, 0, 1)
  {
    var f := Links(map[0 := [1], 1 := []], map[0 := None, 1 := Some(0)]);
    assert [(5, 0), (0, 0)][..1] == [(5, 0)];
    assert [(5, 0)][..0] == [];
    assert Resolve(f, 0, [(5, 0)]) == NoIndex;
  }

  // Moving a row

  /** `getItem`: the invalid index stands for the root. */
  function ItemOf<T(==)>(root: T, ix: Index<T>): T {
    if ix.Index? then ix.item else root
  }

  /** Rows can be found under this index. */
  predicate FirstColumn<T>(ix: Index<T>) {
    ix.Index? ==> ix.column == 0
  }

  predicate Within<T>(f: Links<T>, root: T, ix: Index<T>) {
    ItemOf(root, ix) in f.kids
  }

  /** `_moveRows` for one row, in a tree with top `root`: a row that is not found means the root, and hanging a
      node under itself or a descendant raises. */
  ghost function MoveRow<T>(f: Links<T>, rank: map<T, nat>, root: T, source: Index<T>, r: nat,
                            destination: Index<T>, q: nat): (Links<T>, bool)
    requires Coherent(f, rank) && Within(f, root, destination)
  {
    if source == destination && r == q then (f, true)
    else
      var x, d := ItemOf(root, Child(f, root, r, 0, source)), ItemOf(root, destination);
      if x in Chain(f.par, rank, d) then (f, false) else (MoveTo(f, x, d, q), true)
  }

  /** The row to move: a child of the source item, if the source is in the first column and has that row. */
  lemma RowFound<T>(f: Links<T>, root: T, source: Index<T>, r: nat)
    requires Within(f, root, source)
    ensures var s := ItemOf(root, source);
            ItemOf(root, Child(f, root, r, 0, source)) ==
            if FirstColumn(source) && r < |f.kids[s]| then f.kids[s][r] else root
  {
  }

  /** Undoing a move that was made restores the tree exactly when the row it made can be found again: the
      destination is in the first column, and its list of children has the row named.  Otherwise the undo takes the
      root instead, and raises. */
  lemma MoveUndoIff<T>(f: Links<T>, rank: map<T, nat>, root: T, source: Index<T>, r: nat,
                       destination: Index<T>, q: nat, rank': map<T, nat>)
    requires Rooted(f, rank, root) && Within(f, root, source) && Within(f, root, destination)
    requires MoveRow(f, rank, root, source, r, destination, q).1
    requires Rooted(MoveRow(f, rank, root, source, r, destination, q).0, rank', root)
    ensures var f' := MoveRow(f, rank, root, source, r, destination, q).0;
            var s, d := ItemOf(root, source), ItemOf(root, destination);
            && Within(f', root, source) && Within(f', root, destination)
            && (MoveRow(f', rank', root, destination, q, source, r) == (f, true) <==>
                || (source == destination && r == q)
                || (FirstColumn(destination) && if s == d then q < |f.kids[s]| else q <= |f.kids[d]|))
  {
    if !(source == destination && r == q) {
      var s, d := ItemOf(root, source), ItemOf(root, destination);
      RootAbove(f, rank, root, d);
      RowFound(f, root, source, r);
      MovedRows(f, rank, s, r, d, q);
      var x := f.kids[s][r];
      var f' := MoveTo(f, x, d, q);
      RootAbove(f', rank', root, s);
      RowFound(f', root, destination, q);
      hide Rooted, Coherent, MoveTo, Chain, Child;
      if FirstColumn(destination) && if s == d then q < |f.kids[s]| else q <= |f.kids[d]| {
        UndoneMove(f, rank, root, s, r, d, q, rank');
      }
    }
  }

  lemma RootAbove<T>(f: Links<T>, rank: map<T, nat>, root: T, n: T)
    requires Rooted(f, rank, root) && n in f.kids
    ensures Coherent(f, rank) && Ranked(f.par, rank) && n in f.par && root in Chain(f.par, rank, n)
  {
  }

  /** Moved back, the row is where it was; and nothing keeps it from going there. */
  lemma UndoneMove<T>(f: Links<T>, rank: map<T, nat>, root: T, s: T, r: nat, d: T, q: nat, rank': map<T, nat>)
    requires Coherent(f, rank) && s in f.kids && d in f.kids && r < |f.kids[s]|
    requires if s == d then q < |f.kids[s]| else q <= |f.kids[d]|
    requires f.kids[s][r] !in Chain(f.par, rank, d)
    requires Coherent(MoveTo(f, f.kids[s][r], d, q), rank')
    ensures var x := f.kids[s][r];
            var f' := MoveTo(f, x, d, q);
            && d in f'.kids && q < |f'.kids[d]| && f'.kids[d][q] == x && MoveTo(f', x, s, r) == f
            && s in f'.par && x !in Chain(f'.par, rank', s)
  {
    hide Chain, MoveTo, Coherent;
    ChildLinks(f, rank, s, r);
    MovedRows(f, rank, s, r, d, q);
    CoherentRanked(MoveTo(f, f.kids[s][r], d, q), rank');
    MoveBack(f, rank, s, r, d, q);
    SourceNotBelow(f, rank, rank', f.kids[s][r], s, d, q);
  }

  lemma RowOfRoot<T>(f: Links<T>, rank: map<T, nat>, root: T, r: nat)
    requires Rooted(f, rank, root) && root in f.kids && r < |f.kids[root]|
    ensures var x := f.kids[root][r];
            && Coherent(f, rank) && Chain(f.par, rank, root) == [root]
            && x != root && x in f.par && f.par[x] == Some(root) && x in f.kids && Chain(f.par, rank, x) == [x, root]
  {
    ChildLinks(f, rank, root, r);
  }

  /** The first row of the root is moved past the end: the move is made, and its undo raises. */
  lemma MovePastEndFails<T>(f: Links<T>, rank: map<T, nat>, root: T, q: nat) returns (rank': map<T, nat>)
    requires Rooted(f, rank, root) && root in f.kids && f.kids[root] != [] && q >= |f.kids[root]|
    ensures var f' := MoveTo(f, f.kids[root][0], root, q);
            && Rooted(f', rank', root) && MoveRow(f, rank, root, NoIndex, 0, NoIndex, q) == (f', true)
            && Within(f', root, NoIndex) && MoveRow(f', rank', root, NoIndex, q, NoIndex, 0) == (f', false)
  {
    RowOfRoot(f, rank, root, 0);
    RowFound(f, root, NoIndex, 0);
    MovedRows(f, rank, root, 0, root, q);
    hide MoveTo, Coherent, Rooted, Child;
    rank' := MoveRooted(f, rank, root, f.kids[root][0], root, q);
    var f' := MoveTo(f, f.kids[root][0], root, q);
    RowFound(f', root, NoIndex, q);
    RootAbove(f', rank', root, root);
  }

  /** The second row of the root is moved into the first, at its index in the second column: the move is made, and
      its undo raises. */
  lemma MoveOtherColumnFails<T>(f: Links<T>, rank: map<T, nat>, root: T) returns (rank': map<T, nat>)
    requires Rooted(f, rank, root) && root in f.kids && |f.kids[root]| == 2
    ensures var into := Index(0, 1, f.kids[root][0]);
            var f' := MoveTo(f, f.kids[root][1], f.kids[root][0], 0);
            && Within(f, root, into) && MoveRow(f, rank, root, NoIndex, 1, into, 0) == (f', true)
            && Rooted(f', rank', root)
            && Within(f', root, NoIndex) && MoveRow(f', rank', root, into, 0, NoIndex, 1) == (f', false)
  {
    RowOfRoot(f, rank, root, 0);
    RowOfRoot(f, rank, root, 1);
    RowFound(f, root, NoIndex, 1);
    var a, b := f.kids[root][0], f.kids[root][1];
    assert a != b by {
      assert ListsChildren(f, root);
    }
    MovedRows(f, rank, root, 1, a, 0);
    hide MoveTo, Coherent, Rooted, Child;
    rank' := MoveRooted(f, rank, root, b, a, 0);
    var f' := MoveTo(f, b, a, 0);
    RowFound(f', root, Index(0, 1, a), 0);
    RootAbove(f', rank', root, root);
  }

  /** One move of a drop, as `moveRow` makes it, from the index of the item's parent and the item's row. */
  lemma MoveRowOfItem<T>(f: Links<T>, rank: map<T, nat>, root: T, ix: Index<T>, destination: Index<T>, q: nat)
    requires Rooted(f, rank, root) && ix.Index? && ix.item in f.par && ix.item != root && Within(f, root, destination)
    requires ItemOf(root, destination) in f.par && ix.item !in Chain(f.par, rank, ItemOf(root, destination))
    ensures var x, d := ix.item, ItemOf(root, destination);
            MoveRow(f, rank, root, Up(f, root, ix), ChildNumber(f, x), destination, q) == (MoveTo(f, x, d, q), true)
  {
    var x, d := ix.item, ItemOf(root, destination);
    BelowRoot(f, rank, root, x);
    var s, source := f.par[x].value, Up(f, root, ix);
    assert ItemOf(root, source) == s && FirstColumn(source);
    assert ChildNumber(f, x) == Position(f.kids[s], x);
    RowFound(f, root, source, ChildNumber(f, x));
    hide Child, Up;
    if s == d && Position(f.kids[s], x) == q {
      MoveNowhere(f, rank, x, d, q);
    }
  }

  // Dropping on an index

  /** Where a drop goes: behind the last child of the root; into the category dropped on, in front; or among
      the siblings of the item dropped on, at its row. */
  function DropTarget<T(==)>(f: Links<T>, root: T, dropped: Index<T>, into: bool): (Index<T>, nat) {
    if dropped.NoIndex? then (NoIndex, if root in f.kids then |f.kids[root]| else 0)
    else if into then (dropped, 0)
    else (Up(f, root, dropped), dropped.row)
  }

  /** The items whose parent is not among `dragged`: a dragged folder takes its contents along. */
  function Tops<T(==)>(f: Links<T>, dragged: seq<T>, items: seq<T>): (kept: seq<T>)
    ensures forall x :: x in kept ==> x in items
  {
    if items == [] then []
    else
      var k := |items| - 1;
      var x := items[k];
      Tops(f, dragged, items[..k]) + if x in f.par && f.par[x].Some? && f.par[x].value in dragged then [] else [x]
  }

  lemma {:induction false} TopsConcat<T>(f: Links<T>, dragged: seq<T>, a: seq<T>, b: seq<T>)
    ensures Tops(f, dragged, a + b) == Tops(f, dragged, a) + Tops(f, dragged, b)
    decreases |b|
  {
    if b == [] {
      assert a + b == a;
    } else {
      var k := |b| - 1;
      assert (a + b)[..|a + b| - 1] == a + b[..k];
      TopsConcat(f, dragged, a, b[..k]);
    }
  }

  predicate Rides<T(==)>(f: Links<T>, dragged: seq<T>, x: T) {
    x in f.par && f.par[x].Some? && f.par[x].value in dragged
  }

  /** Exactly the items whose parent is not dragged are kept. */
  lemma {:induction false} TopsMembers<T>(f: Links<T>, dragged: seq<T>, items: seq<T>, x: T)
    ensures x in Tops(f, dragged, items) <==> x in items && !Rides(f, dragged, x)
  {
    if items != [] {
      var k := |items| - 1;
      TopsMembers(f, dragged, items[..k], x);
      assert items == items[..k] + [items[k]];
    }
  }

  lemma {:induction false} TopsNoDup<T>(f: Links<T>, dragged: seq<T>, items: seq<T>)
    requires NoDup(items)
    ensures NoDup(Tops(f, dragged, items))
  {
    if items != [] {
      var k := |items| - 1;
      TopsNoDup(f, dragged, items[..k]);
      TopsMembers(f, dragged, items[..k], items[k]);
    }
  }

  // What a drop does

  /** Where `x` is after a drop, `f` being the links before it and `f'` those after it: under the item dropped on, if
      that is an open category; else beside it; or under the root if nothing was hit.  But what rides along with its
      parent stays under it, and so does what was not dragged. */
  ghost predicate LandsIn<T>(f: Links<T>, f': Links<T>, root: T, dropped: Index<T>, into: bool, dragged: seq<T>, x: T) {
    && x in f.par && x in f'.par
    && (dropped.Index? ==> dropped.item in f.par)
    && if x !in dragged || Rides(f, dragged, x) then f'.par[x] == f.par[x]
       else if dropped.NoIndex? then f'.par[x] == Some(root)
       else if into then f'.par[x] == Some(dropped.item)
       else f'.par[x] == f.par[dropped.item]
  }

  lemma DropParents<T>(f: Links<T>, rank: map<T, nat>, f': Links<T>, rank': map<T, nat>, root: T,
                       dropped: Index<T>, into: bool, dragged: seq<T>, x: T)
    requires Rooted(f, rank, root) && Proper(f, root, dropped) && x in f.par
    requires ItemOf(root, DropTarget(f, root, dropped, into).0) in f.par
    requires Dropped(f, rank, f', rank', Tops(f, dragged, dragged), ItemOf(root, DropTarget(f, root, dropped, into).0))
    ensures LandsIn(f, f', root, dropped, into, dragged, x)
  {
    hide Tops, DropTarget, Rooted, Coherent, Chain, Proper;
    RootedCoherent(f, rank, root);
    CoherentRanked(f, rank);
    TopsMembers(f, dragged, dragged, x);
    TargetItem(f, root, dropped, into);
  }

  lemma TargetItem<T>(f: Links<T>, root: T, dropped: Index<T>, into: bool)
    requires Proper(f, root, dropped)
    ensures dropped.Index? ==> dropped.item in f.par
    ensures var (ix, q) := DropTarget(f, root, dropped, into);
            var d := ItemOf(root, ix);
            && (dropped.NoIndex? ==> d == root && (root in f.kids ==> q == |f.kids[root]|))
            && (dropped.Index? && into ==> d == dropped.item && q == 0)
            && (dropped.Index? && !into ==> Some(d) == f.par[dropped.item] && q == dropped.row)
  {
  }

  /** Where one item dropped stands: last under the root if nothing was hit; first in the category; or in the row that
      the item dropped on had, the last one at most, among its siblings.  The others keep their order. */
  ghost predicate LandsAt<T>(f: Links<T>, f': Links<T>, root: T, dropped: Index<T>, into: bool, x: T) {
    && (dropped.Index? ==> dropped.item in f.par)
    && var place := if dropped.NoIndex? then Some(root) else if into then Some(dropped.item) else f.par[dropped.item];
       && place.Some? && place.value in f.kids && place.value in f'.kids
       && var others, row := Without(f.kids[place.value], x), f'.kids[place.value];
          if dropped.NoIndex? then row == others + [x]
          else if into then row == [x] + others
          else x in row && Without(row, x) == others
               && Position(row, x) == if dropped.row < |others| then dropped.row else |others|
  }

  lemma DropOneRow<T>(f: Links<T>, rank: map<T, nat>, root: T, dropped: Index<T>, into: bool, x: T)
    requires Rooted(f, rank, root) && Proper(f, root, dropped) && x in f.par
    requires ItemOf(root, DropTarget(f, root, dropped, into).0) in f.par
    ensures var (ix, q) := DropTarget(f, root, dropped, into);
            LandsAt(f, Drop(f, [x], ItemOf(root, ix), q), root, dropped, into, x)
  {
    hide Rooted, Coherent, MoveTo, DropTarget, Proper, Position, Without, Drop;
    var (ix, q) := DropTarget(f, root, dropped, into);
    var d := ItemOf(root, ix);
    RootedCoherent(f, rank, root);
    TargetItem(f, root, dropped, into);
    DropSingle(f, x, d, q);
    MoveKeepsOrder(f, rank, x, d, q, d);
    MovedRow(f, rank, x, d, q);
    WithoutShorter(f.kids[d], x);
  }

  lemma RootedCoherent<T>(f: Links<T>, rank: map<T, nat>, root: T)
    requires Rooted(f, rank, root)
    ensures Coherent(f, rank) && f.kids.Keys == f.par.Keys && root in f.par
  {
  }

  lemma DropSingle<T>(f: Links<T>, x: T, d: T, q: nat)
    ensures Drop(f, [x], d, q) == MoveTo(f, x, d, q)
  {
    assert [x][..0] == [];
    assert Drop(f, [], d, q) == f;
  }

  lemma MovedRow<T>(f: Links<T>, rank: map<T, nat>, x: T, d: T, q: nat)
    requires Coherent(f, rank) && x in f.par && d in f.kids
    ensures var row := Without(f.kids[d], x);
            var f' := MoveTo(f, x, d, q);
            && d in f'.kids && f'.kids[d] == InsertAt(row, q, x)
            && (q == 0 ==> f'.kids[d] == [x] + row) && (|row| <= q ==> f'.kids[d] == row + [x])
  {
    DetachedRow(f, rank, x, d);
  }

  /** Several items that come from elsewhere stand in the target's list as a block, in the order in which they were
      dragged. */
  lemma {:induction false} DropBlock<T>(f: Links<T>, items: seq<T>, d: T, q: nat)
    requires NoDup(items) && d in f.kids && q <= |f.kids[d]|
    requires forall x :: x in items ==> x in f.par && f.par[x] != Some(d)
    ensures var f' := Drop(f, items, d, q);
            && d in f'.kids && f'.kids[d] == f.kids[d][..q] + items + f.kids[d][q..]
            && f'.par.Keys == f.par.Keys && forall x :: x in f.par && x !in items ==> f'.par[x] == f.par[x]
    decreases |items|
  {
    if items == [] {
      assert f.kids[d] == f.kids[d][..q] + [] + f.kids[d][q..];
    } else {
      var k := |items| - 1;
      var before, x := items[..k], items[k];
      assert items == before + [x];
      DropBlock(f, before, d, q);
      ForeignMove(Drop(f, before, d, q), x, d, q + k);
      var a, b := f.kids[d][..q], f.kids[d][q..];
      hide MoveTo, NoDup;
      InsertBehind(a, before, b, x);
    }
  }

  /** A block dropped stands behind the children of the root, in front of those of the category, or in front of the
      item dropped on. */
  lemma DropBlockLands<T>(f: Links<T>, rank: map<T, nat>, root: T, dropped: Index<T>, into: bool, items: seq<T>)
    requires Rooted(f, rank, root) && Proper(f, root, dropped) && NoDup(items)
    requires ItemOf(root, DropTarget(f, root, dropped, into).0) in f.par
    requires forall x :: x in items ==>
               x in f.par && f.par[x] != Some(ItemOf(root, DropTarget(f, root, dropped, into).0))
    ensures var (ix, q) := DropTarget(f, root, dropped, into);
            var d := ItemOf(root, ix);
            var f' := Drop(f, items, d, q);
            && d in f.kids && d in f'.kids
            && (dropped.NoIndex? ==> f'.kids[d] == f.kids[d] + items)
            && (dropped.Index? && into ==> f'.kids[d] == items + f.kids[d])
            && (dropped.Index? && !into ==>
                  && dropped.row < |f.kids[d]| && f.kids[d][dropped.row] == dropped.item
                  && f'.kids[d] == f.kids[d][..dropped.row] + items + f.kids[d][dropped.row..])
  {
    hide Rooted, Coherent, DropTarget, Proper, Drop, NoDup;
    var (ix, q) := DropTarget(f, root, dropped, into);
    var d := ItemOf(root, ix);
    RootedCoherent(f, rank, root);
    TargetItem(f, root, dropped, into);
    if dropped.Index? {
      ProperRow(f, root, dropped);
    }
    DropBlock(f, items, d, q);
    RowEnds(f.kids[d], items);
  }

  lemma RowEnds<T>(row: seq<T>, items: seq<T>)
    ensures row[..0] + items + row[0..] == items + row && row[..|row|] + items + row[|row|..] == row + items
  {
  }

  lemma ProperRow<T>(f: Links<T>, root: T, ix: Index<T>)
    requires Proper(f, root, ix) && ix.Index?
    ensures var p := f.par[ix.item];
            p.Some? && p.value in f.kids && ix.row < |f.kids[p.value]| && f.kids[p.value][ix.row] == ix.item
  {
  }

  lemma InsertBehind<T>(a: seq<T>, b: seq<T>, c: seq<T>, x: T)
    ensures InsertAt(a + b + c, |a| + |b|, x) == a + (b + [x]) + c
  {
    assert (a + b + c)[..|a| + |b|] == a + b && (a + b + c)[|a| + |b|..] == c;
  }

  lemma ForeignMove<T>(f: Links<T>, x: T, d: T, q: nat)
    requires d in f.kids && x in f.par && f.par[x] != Some(d)
    ensures var f' := MoveTo(f, x, d, q);
            && d in f'.kids && f'.kids[d] == InsertAt(f.kids[d], q, x)
            && f'.par.Keys == f.par.Keys && forall n :: n in f.par && n != x ==> f'.par[n] == f.par[n]
  {
    hide InsertAt, Without;
  }

  /** Some of `items` is `n` or above it. */
  ghost predicate Holds<T>(par: Parents<T>, rank: map<T, nat>, items: seq<T>, n: T)
    requires Ranked(par, rank) && n in par
  {
    exists x :: x in items && x in Chain(par, rank, n)
  }

  /** What is neither the item dropped on nor above it is not above the target either. */
  lemma TargetOutside<T>(f: Links<T>, rank: map<T, nat>, root: T, dropped: Index<T>, into: bool, items: seq<T>)
    requires Rooted(f, rank, root) && Proper(f, root, dropped) && root !in items
    requires dropped.Index? ==> !Holds(f.par, rank, items, dropped.item)
    ensures var d := ItemOf(root, DropTarget(f, root, dropped, into).0);
            d in f.par && !Holds(f.par, rank, items, d)
  {
    if dropped.NoIndex? {
      assert Chain(f.par, rank, root) == [root];
    } else if !into {
      forall x | x in items
        ensures x !in Chain(f.par, rank, f.par[dropped.item].value)
      {
        ChainMembers(f.par, rank, dropped.item, x);
      }
    }
  }

  /** Walking the parent indexes meets every ancestor but the root. */
  lemma NextAncestor<T>(f: Links<T>, rank: map<T, nat>, root: T, ix: Index<T>, items: seq<T>)
    requires Rooted(f, rank, root) && ix.Index? && ix.item in f.par && root !in items
    ensures ix.item in items ==> Holds(f.par, rank, items, ix.item)
    ensures var up := Up(f, root, ix);
            && (up.Index? ==> up.item in f.par)
            && (ix.item !in items ==>
                  (Holds(f.par, rank, items, ix.item) <==> up.Index? && Holds(f.par, rank, items, up.item)))
  {
    var up := Up(f, root, ix);
    if ix.item !in items {
      forall x | x in items
        ensures x in Chain(f.par, rank, ix.item) <==> up.Index? && x in Chain(f.par, rank, up.item)
      {
        ChainMembers(f.par, rank, ix.item, x);
        if f.par[ix.item] == Some(root) {
          assert Chain(f.par, rank, root) == [root];
        }
      }
    } else {
      assert ix.item in Chain(f.par, rank, ix.item);
    }
  }
}
