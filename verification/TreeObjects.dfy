/**
 The items and the models of the tree views: objects linked by `parent` and `children`, edited in place.
 What an edit does is stated by the functions of module `Forests` on the links of all items.

 `QAnyTreeModel` and `FavoriteModel` share the code of `index`, `parent`, `getItem` and of moving rows; one
 class stands for both.
 */
module TreeObjects {
  import opened Strings
  import opened Lists
  import opened Forests
  import opened Addressing

  /** An item.  The `parent` setter and the order of `children` are those of `anytree.NodeMixin`. */
  class QAnyTreeItem {
    var parent: QAnyTreeItem?
    var children: seq<QAnyTreeItem>

    /** `self.parent.children.index(self)`. */
    method ChildNumber() returns (i: nat)
      requires parent != null ==> this in parent.children
      ensures i == if parent == null then 0 else Position(parent.children, this)
    {
      i := 0;
      if parent != null {
        var all := parent.children;
        while all[i] != this
          invariant i < |all| && this !in all[..i]
          invariant i <= Position(all, this)
          decreases |all| - i
        {
          i := i + 1;
        }
      }
    }

    method MoveChild(from: nat, to: nat)
      requires from < |children|
      modifies this`children
      ensures children == MoveElem(old(children), from, to)
    {
      children := InsertAt(DeleteAt(children, from), to, children[from]);
    }

    /** The check of the `parent` setter: is the item the new parent, or one of its ancestors? */
    method ClosesLoop(value: QAnyTreeItem, ghost nodes: set<QAnyTreeItem>, ghost rank: map<QAnyTreeItem, nat>)
      returns (loop: bool)
      requires Coherent(LinksOf(nodes), rank) && value in nodes
      ensures loop <==> this in Chain(LinksOf(nodes).par, rank, value)
    {
      ghost var f := LinksOf(nodes);
      var a: QAnyTreeItem := value;
      while true
        invariant a in nodes
        invariant this in Chain(f.par, rank, value) <==> this in Chain(f.par, rank, a)
        decreases rank[a]
      {
        LinkOf(nodes, rank, a);
        ChainMembers(f.par, rank, a, this);
        if a == this {
          return true;
        }
        if a.parent == null {
          return false;
        }
        a := a.parent;
      }
    }

    /** Setting the parent: nothing if it is the parent already; an exception if the item is the new parent or
        one of its ancestors; otherwise the item leaves its siblings and becomes the last child. */
    method SetParent(value: QAnyTreeItem, ghost nodes: set<QAnyTreeItem>, ghost rank: map<QAnyTreeItem, nat>)
      returns (ok: bool)
      requires Coherent(LinksOf(nodes), rank) && this in nodes && value in nodes
      modifies nodes
      ensures ok <==> this !in Chain(old(LinksOf(nodes)).par, rank, value)
      ensures LinksOf(nodes) == if !ok || old(parent) == value then old(LinksOf(nodes))
                                else Hang(old(LinksOf(nodes)), this, value)
    {
      LinkOf(nodes, rank, this);
      if parent == value {
        NotOwnAncestor(LinksOf(nodes).par, rank, this);
        return true;
      }
      var loop := ClosesLoop(value, nodes, rank);
      if loop {
        return false;
      }
      Leave(nodes);
      Join(value, nodes);
      return true;
    }

    method Leave(ghost nodes: set<QAnyTreeItem>)
      requires this in nodes && (parent != null ==> parent in nodes)
      modifies this`parent, if parent == null then {} else {parent}
      ensures LinksOf(nodes) == Detach(old(LinksOf(nodes)), this) && parent == null
    {
      hide Without;
      ghost var f := LinksOf(nodes);
      if parent != null {
        var p: QAnyTreeItem := parent;
        DetachListed(f, this, p);
        p.children := Without(p.children, this);
        parent := null;
        assert LinksOf(nodes).kids == f.kids[p := Without(f.kids[p], this)];
        assert LinksOf(nodes).par == f.par[this := None];
      }
    }

    method Join(value: QAnyTreeItem, ghost nodes: set<QAnyTreeItem>)
      requires this in nodes && value in nodes
      modifies this`parent, value`children
      ensures var f := old(LinksOf(nodes));
              LinksOf(nodes) == Links(f.kids[value := f.kids[value] + [this]], f.par[this := Some(value)])
    {
      ghost var f := LinksOf(nodes);
      parent := value;
      value.children := value.children + [this];
      assert LinksOf(nodes).kids == f.kids[value := f.kids[value] + [this]];
      assert LinksOf(nodes).par == f.par[this := Some(value)];
    }
  }

  lemma LinkOf(nodes: set<QAnyTreeItem>, rank: map<QAnyTreeItem, nat>, n: QAnyTreeItem)
    requires Coherent(LinksOf(nodes), rank) && n in nodes
    ensures n in rank && (n.parent != null ==> n.parent in nodes && rank[n.parent] < rank[n] && n in n.parent.children)
    ensures ListsChildren(LinksOf(nodes), n)
  {
    assert ListedByParent(LinksOf(nodes), n);
  }

  function ParentOf(n: QAnyTreeItem): Option<QAnyTreeItem>
    reads n
  {
    if n.parent == null then None
    else
      var p: QAnyTreeItem := n.parent;
      Some(p)
  }

  ghost function LinksOf(nodes: set<QAnyTreeItem>): Links<QAnyTreeItem>
    reads nodes
  {
    Links(map n | n in nodes :: n.children,
          map n | n in nodes :: ParentOf(n))
  }

  /** `x` taken from its parent and appended to the children of `d`. */
  function Hang<T(==)>(f: Links<T>, x: T, d: T): Links<T> {
    var g := Detach(f, x);
    if d !in g.kids then f else Links(g.kids[d := g.kids[d] + [x]], g.par[x := Some(d)])
  }

  /** Hanging `x` under `d` and then moving it among the children to row `q`. */
  lemma HangAndMove<T>(f: Links<T>, rank: map<T, nat>, x: T, d: T, q: nat)
    requires Coherent(f, rank) && x in f.par && d in f.par
    ensures var g := if f.par[x] == Some(d) then f else Hang(f, x, d);
            && d in g.kids && x in g.kids[d] && g.par[x] == Some(d)
            && MoveTo(f, x, d, q) == Links(g.kids[d := MoveElem(g.kids[d], Position(g.kids[d], x), q)], g.par)
  {
    assert ListedByParent(f, x);
    CoherentRanked(f, rank);
    DetachCoherent(f, rank, x);
    hide Coherent, Ranked, MoveTo, Detach, MoveElem;
    if f.par[x] == Some(d) {
      MoveWithin(f, x, d, q);
    } else {
      HangThenMove(f, x, d, q);
    }
  }

  lemma MoveWithin<T>(f: Links<T>, x: T, d: T, q: nat)
    requires x in f.par && f.par[x] == Some(d) && d in f.kids && x in f.kids[d]
    ensures MoveTo(f, x, d, q) == Links(f.kids[d := MoveElem(f.kids[d], Position(f.kids[d], x), q)], f.par)
  {
    hide Position, InsertAt, DeleteAt;
    DetachListed(f, x, d);
    assert f.par[x := Some(d)] == f.par;
  }

  lemma HangThenMove<T>(f: Links<T>, x: T, d: T, q: nat)
    requires d in Detach(f, x).kids && x !in Detach(f, x).kids[d]
    ensures var g := Hang(f, x, d);
            && d in g.kids && x in g.kids[d] && x in g.par && g.par[x] == Some(d)
            && MoveTo(f, x, d, q) == Links(g.kids[d := MoveElem(g.kids[d], Position(g.kids[d], x), q)], g.par)
  {
    hide Detach, MoveElem, InsertAt;
    var row := Detach(f, x).kids[d];
    PositionLast(row, x);
    AppendMove(row, x, q);
  }

  lemma PositionLast<T>(s: seq<T>, x: T)
    requires x !in s
    ensures x in s + [x] && Position(s + [x], x) == |s|
  {
    var t := s + [x];
    assert t[|s|] == x;
    assert forall j :: 0 <= j < |s| ==> t[j] in s;
  }

  /** A model: the tree under `root`, of which `items` are all items.  The rankings that methods take and
      give witness that no item is its own ancestor. */
  class TreeModel {
    const root: QAnyTreeItem
    ghost const items: set<QAnyTreeItem>

    ghost function Tree(): Links<QAnyTreeItem>
      reads items
    {
      LinksOf(items)
    }

    ghost predicate Valid(rank: map<QAnyTreeItem, nat>)
      reads items
    {
      root in items && Rooted(Tree(), rank, root)
    }

    lemma TreeFacts(rank: map<QAnyTreeItem, nat>)
      requires Valid(rank)
      ensures Coherent(Tree(), rank) && Ranked(Tree().par, rank) && Rooted(Tree(), rank, root)
      ensures Tree().par.Keys == Tree().kids.Keys == rank.Keys == items
      ensures root in items
    {
    }

    lemma TreeLinks(n: QAnyTreeItem)
      requires n in items
      ensures n in Tree().par && n in Tree().kids && Tree().par[n] == ParentOf(n) && Tree().kids[n] == n.children
    {
    }

    constructor (root: QAnyTreeItem, ghost items: set<QAnyTreeItem>, ghost rank: map<QAnyTreeItem, nat>)
      requires root in items && Rooted(LinksOf(items), rank, root)
      ensures this.root == root && this.items == items && Valid(rank)
    {
      this.root := root;
      this.items := items;
    }

    /** `destination.moveChild(item.childNumber(), newRow)`. */
    method ToRow(item: QAnyTreeItem, destination: QAnyTreeItem, newRow: nat)
      requires destination in items && item.parent == destination && item in destination.children
      modifies destination`children
      ensures var f := old(Tree());
              var row := f.kids[destination];
              Tree() == Links(f.kids[destination := MoveElem(row, Position(row, item), newRow)], f.par)
    {
      hide MoveElem;
      ghost var f := Tree();
      var i := item.ChildNumber();
      destination.MoveChild(i, newRow);
      assert Tree().kids == f.kids[destination := MoveElem(f.kids[destination], i, newRow)];
      assert Tree().par == f.par;
    }

    /** Hanging an item under `destination` and moving it to its row there. */
    method Place(item: QAnyTreeItem, destination: QAnyTreeItem, newRow: nat, ghost rank: map<QAnyTreeItem, nat>)
      returns (ok: bool)
      requires Coherent(Tree(), rank) && item in items && destination in items
      modifies items
      ensures ok <==> item !in Chain(old(Tree()).par, rank, destination)
      ensures Tree() == if ok then MoveTo(old(Tree()), item, destination, newRow) else old(Tree())
    {
      ghost var f := Tree();
      HangAndMove(f, rank, item, destination, newRow);
      hide MoveTo, MoveElem, Hang, Coherent;
      ok := item.SetParent(destination, items, rank);
      if ok {
        HungHere(item, destination, Tree());
        ToRow(item, destination, newRow);
      }
    }

    lemma HungHere(item: QAnyTreeItem, destination: QAnyTreeItem, g: Links<QAnyTreeItem>)
      requires item in items && destination in items && g == Tree()
      ensures item.parent == destination <==> g.par[item] == Some(destination)
      ensures g.kids[destination] == destination.children
    {
    }

    // Addressing

    method IndexOf(row: nat, column: nat, parent: Index<QAnyTreeItem>) returns (ix: Index<QAnyTreeItem>)
      requires root in items && (parent.Index? ==> parent.item in items)
      ensures ix == Child(Tree(), root, row, column, parent)
    {
      if parent.Index? && parent.column != 0 {
        return NoIndex;
      }
      var p := if parent.Index? then parent.item else root;
      ix := if row < |p.children| then Index(row, column, p.children[row]) else NoIndex;
    }

    /** `getItem`. */
    method GetItem(ix: Index<QAnyTreeItem>) returns (item: QAnyTreeItem)
      requires root in items && (ix.Index? ==> ix.item in items)
      ensures item == ItemOf(root, ix) && item in items
    {
      item := if ix.Index? then ix.item else root;
    }

    /** `_moveRows` for one row, as `moveRow` calls it. */
    method MoveRows(source: Index<QAnyTreeItem>, row: nat, destination: Index<QAnyTreeItem>, newRow: nat,
                    ghost rank: map<QAnyTreeItem, nat>)
      returns (ok: bool, ghost rank': map<QAnyTreeItem, nat>)
      requires Valid(rank)
      requires (source.Index? ==> source.item in items) && (destination.Index? ==> destination.item in items)
      modifies items
      ensures Valid(rank') && Coherent(old(Tree()), rank) && Within(old(Tree()), root, destination)
      ensures (Tree(), ok) == MoveRow(old(Tree()), rank, root, source, row, destination, newRow)
    {
      hide Rooted, Coherent, MoveTo, Chain, Ranked, LinksOf, Child;
      ghost var f := Tree();
      TreeFacts(rank);
      rank' := rank;
      if source == destination && row == newRow {
        return true, rank;
      }
      var ix := IndexOf(row, 0, source);
      ChildWithin(f, rank, source, row);
      var item := GetItem(ix);
      var target := GetItem(destination);
      ok := Place(item, target, newRow, rank);
      if ok {
        rank' := MoveRooted(f, rank, root, item, target, newRow);
      }
    }

    lemma ChildWithin(f: Links<QAnyTreeItem>, rank: map<QAnyTreeItem, nat>, source: Index<QAnyTreeItem>, row: nat)
      requires f == Tree() && Valid(rank) && (source.Index? ==> source.item in items)
      ensures var ix := Child(f, root, row, 0, source); ix.Index? ==> ix.item in items
    {
      var s := ItemOf(root, source);
      LinkOf(items, rank, s);
      assert row < |s.children| ==> s.children[row] in f.kids[s];
    }

    /** `item.childNumber()`. */
    method RowOf(item: QAnyTreeItem, ghost rank: map<QAnyTreeItem, nat>) returns (row: nat)
      requires Valid(rank) && item in items
      ensures row == Addressing.ChildNumber(Tree(), item)
    {
      LinkOf(items, rank, item);
      row := item.ChildNumber();
    }

    method ParentIndex(ix: Index<QAnyTreeItem>, ghost rank: map<QAnyTreeItem, nat>) returns (up: Index<QAnyTreeItem>)
      requires Valid(rank) && (ix.Index? ==> ix.item in items)
      ensures up == Up(Tree(), root, ix) && (up.Index? ==> up.item in items && rank[up.item] < rank[ix.item])
    {
      if ix.NoIndex? {
        return NoIndex;
      }
      LinkOf(items, rank, ix.item);
      var p := ix.item.parent;
      if p == null || p == root {
        return NoIndex;
      }
      LinkOf(items, rank, p);
      var row := RowOf(p, rank);
      up := Index(row, 0, p);
    }

    /** The list is collected upwards and then reversed. */
    method GetIndexLocations(ix: Index<QAnyTreeItem>, ghost rank: map<QAnyTreeItem, nat>)
      returns (locations: seq<Location>)
      requires Valid(rank) && (ix.Index? ==> ix.item in items)
      ensures locations == Locations(Tree(), rank, root, ix)
    {
      hide Rooted, Coherent, Ranked, LinksOf, Up, Locations, Reversed;
      TreeFacts(rank);
      LocationsTop(Tree(), rank, root, ix);
      var upwards: seq<Location> := [];
      var index := ix;
      while index.Index?
        invariant index.Index? ==> index.item in items
        invariant Locations(Tree(), rank, root, ix) == Locations(Tree(), rank, root, index) + Reversed(upwards)
        decreases if index.Index? then 1 + rank[index.item] else 0
      {
        LocationsUp(Tree(), rank, root, index, upwards);
        upwards := upwards + [(index.row, index.column)];
        index := ParentIndex(index, rank);
      }
      LocationsTop(Tree(), rank, root, index);
      locations := Reversed(upwards);
      assert [] + locations == locations;
    }

    method GetIndexFromLocations(locations: seq<Location>, ghost rank: map<QAnyTreeItem, nat>)
      returns (ix: Index<QAnyTreeItem>)
      requires Valid(rank)
      ensures ix == Resolve(Tree(), root, locations)
    {
      hide Rooted, Coherent, Ranked, LinksOf, Child;
      TreeFacts(rank);
      ix := NoIndex;
      for k := 0 to |locations|
        invariant ix == Resolve(Tree(), root, locations[..k])
      {
        assert locations[..k + 1][..k] == locations[..k];
        ResolveProper(Tree(), rank, root, locations[..k]);
        ix := IndexOf(locations[k].0, locations[k].1, ix);
      }
      assert locations[..|locations|] == locations;
    }
  }

  lemma LocationsTop(f: Links<QAnyTreeItem>, rank: map<QAnyTreeItem, nat>, root: QAnyTreeItem, ix: Index<QAnyTreeItem>)
    requires Rooted(f, rank, root)
    ensures Locations(f, rank, root, ix) + Reversed([]) == Locations(f, rank, root, ix)
    ensures ix.NoIndex? ==> Locations(f, rank, root, ix) == []
  {
  }

  lemma LocationsUp(f: Links<QAnyTreeItem>, rank: map<QAnyTreeItem, nat>, root: QAnyTreeItem, ix: Index<QAnyTreeItem>,
                    upwards: seq<Location>)
    requires Rooted(f, rank, root) && ix.Index? && ix.item in f.par
    ensures Locations(f, rank, root, ix) + Reversed(upwards)
            == Locations(f, rank, root, Up(f, root, ix)) + Reversed(upwards + [(ix.row, ix.column)])
  {
    var u := upwards + [(ix.row, ix.column)];
    assert u[..|u| - 1] == upwards;
  }

  // Drag and drop

  /** The view's part in a drag: the items dragged, all of them below the root. */
  class FavoriteTreeView {
    const model: TreeModel
    var draggedItems: seq<QAnyTreeItem>

    constructor (model: TreeModel)
      ensures this.model == model && draggedItems == []
    {
      this.model := model;
      draggedItems := [];
    }

    ghost predicate Dragging(rank: map<QAnyTreeItem, nat>)
      reads this, model.items
    {
      model.Valid(rank) && forall x :: x in draggedItems ==> x in model.items && x != model.root
    }

    /** `dragMoveEvent`: is dropping here allowed? */
    method DragMoveEvent(dropped: Index<QAnyTreeItem>, ghost rank: map<QAnyTreeItem, nat>) returns (accepted: bool)
      requires Dragging(rank) && (dropped.Index? ==> dropped.item in model.items)
      ensures Coherent(model.Tree(), rank) && model.Tree().par.Keys == model.items
      ensures accepted <==> dropped.Index? ==> !Holds(model.Tree().par, rank, draggedItems, dropped.item)
    {
      hide Holds, Up, Rooted, Coherent, Ranked, LinksOf, Chain;
      ghost var f := model.Tree();
      model.TreeFacts(rank);
      if dropped.NoIndex? {
        return true;
      }
      NextAncestor(f, rank, model.root, dropped, draggedItems);
      if dropped.item in draggedItems {
        return false;
      }
      var parent := model.ParentIndex(dropped, rank);
      while parent.Index?
        invariant parent.Index? ==> parent.item in model.items
        invariant Holds(f.par, rank, draggedItems, dropped.item) <==>
                  parent.Index? && Holds(f.par, rank, draggedItems, parent.item)
        decreases if parent.Index? then 1 + rank[parent.item] else 0
      {
        NextAncestor(f, rank, model.root, parent, draggedItems);
        if parent.item in draggedItems {
          return false;
        }
        parent := model.ParentIndex(parent, rank);
      }
      return true;
    }

    /** The dragged items whose parent is not dragged as well. */
    method RealDragged() returns (kept: seq<QAnyTreeItem>)
      requires forall x :: x in draggedItems ==> x in model.items
      ensures kept == Tops(model.Tree(), draggedItems, draggedItems)
    {
      hide LinksOf;
      kept := [];
      for i := 0 to |draggedItems|
        invariant kept == Tops(model.Tree(), draggedItems, draggedItems[..i])
      {
        var x := draggedItems[i];
        model.TreeLinks(x);
        assert draggedItems[..i + 1][..i] == draggedItems[..i];
        if x.parent == null || x.parent !in draggedItems {
          kept := kept + [x];
        }
      }
      assert draggedItems[..|draggedItems|] == draggedItems;
    }

    /** `dropEvent`, where an accepting `dragMoveEvent` came before.  `into` says that the index dropped on
        is an expanded category. */
    method DropEvent(dropped: Index<QAnyTreeItem>, into: bool, ghost rank: map<QAnyTreeItem, nat>)
      returns (moved: seq<QAnyTreeItem>, destination: Index<QAnyTreeItem>, position: nat,
               ghost rank': map<QAnyTreeItem, nat>)
      requires Dragging(rank) && Coherent(model.Tree(), rank) && Proper(model.Tree(), model.root, dropped)
      requires dropped.Index? ==> !Holds(model.Tree().par, rank, draggedItems, dropped.item)
      modifies this, model.items
      ensures model.Valid(rank') && draggedItems == []
      ensures moved == Tops(old(model.Tree()), old(draggedItems), old(draggedItems))
      ensures (destination, position) == DropTarget(old(model.Tree()), model.root, dropped, into)
      ensures ItemOf(model.root, destination) in old(model.Tree()).par
      ensures model.Tree() == Drop(old(model.Tree()), moved, ItemOf(model.root, destination), position)
      ensures Dropped(old(model.Tree()), rank, model.Tree(), rank', moved, ItemOf(model.root, destination))
      ensures forall x :: x in model.items ==>
                LandsIn(old(model.Tree()), model.Tree(), model.root, dropped, into, old(draggedItems), x)
      ensures forall x :: moved == [x] ==> LandsAt(old(model.Tree()), model.Tree(), model.root, dropped, into, x)
    {
      hide Coherent, Rooted, Ranked, Chain, Drop, Dropped, LinksOf, Proper, Up, DropTarget, LandsIn, LandsAt, Tops;
      ghost var f := model.Tree();
      model.TreeFacts(rank);
      TargetOutside(f, rank, model.root, dropped, into, draggedItems);
      destination, position := Target(dropped, into, rank);
      moved := RealDragged();
      rank' := MoveAll(moved, destination, position, rank);
      forall x | x in model.items
        ensures LandsIn(f, model.Tree(), model.root, dropped, into, draggedItems, x)
      {
        DropParents(f, rank, model.Tree(), rank', model.root, dropped, into, draggedItems, x);
      }
      forall x | moved == [x]
        ensures LandsAt(f, model.Tree(), model.root, dropped, into, x)
      {
        TopsMembers(f, draggedItems, draggedItems, x);
        DropOneRow(f, rank, model.root, dropped, into, x);
      }
      draggedItems := [];
    }

    method Target(dropped: Index<QAnyTreeItem>, into: bool, ghost rank: map<QAnyTreeItem, nat>)
      returns (destination: Index<QAnyTreeItem>, position: nat)
      requires model.Valid(rank) && Proper(model.Tree(), model.root, dropped)
      ensures (destination, position) == DropTarget(model.Tree(), model.root, dropped, into)
      ensures destination.Index? ==> destination.item in model.items
    {
      if dropped.NoIndex? {
        return NoIndex, |model.root.children|;
      }
      if into {
        return dropped, 0;
      }
      destination := model.ParentIndex(dropped, rank);
      position := dropped.row;
    }

    method MoveAll(moved: seq<QAnyTreeItem>, destination: Index<QAnyTreeItem>, position: nat,
                   ghost rank: map<QAnyTreeItem, nat>)
      returns (ghost rank': map<QAnyTreeItem, nat>)
      requires model.Valid(rank) && Coherent(model.Tree(), rank)
      requires destination.Index? ==> destination.item in model.items
      requires forall x :: x in moved ==> x in model.items && x != model.root
                                          && x !in Chain(model.Tree().par, rank, ItemOf(model.root, destination))
      modifies model.items
      ensures model.Valid(rank')
      ensures model.Tree() == Drop(old(model.Tree()), moved, ItemOf(model.root, destination), position)
      ensures Dropped(old(model.Tree()), rank, model.Tree(), rank', moved, ItemOf(model.root, destination))
    {
      hide Coherent, Rooted, Chain, Dropped, LinksOf, MoveTo, Ranked;
      ghost var f, d := model.Tree(), ItemOf(model.root, destination);
      model.TreeFacts(rank);
      rank' := rank;
      DropNone(f, rank, d);
      for i := 0 to |moved|
        invariant model.Valid(rank')
        invariant model.Tree() == Drop(f, moved[..i], d, position)
        invariant Dropped(f, rank, model.Tree(), rank', moved[..i], d)
      {
        assert moved[..i + 1] == moved[..i] + [moved[i]] && moved[..i + 1][..i] == moved[..i];
        rank' := MoveOne(moved[i], destination, position + i, rank', f, rank, moved[..i]);
      }
      assert moved[..|moved|] == moved;
    }

    /** `moveRow` from the index of the item's present parent and from its present row. */
    method MoveOne(x: QAnyTreeItem, destination: Index<QAnyTreeItem>, newRow: nat, ghost rank: map<QAnyTreeItem, nat>,
                   ghost f0: Links<QAnyTreeItem>, ghost rank0: map<QAnyTreeItem, nat>, ghost moved: seq<QAnyTreeItem>)
      returns (ghost rank': map<QAnyTreeItem, nat>)
      requires model.Valid(rank) && x in model.items && x != model.root
      requires destination.Index? ==> destination.item in model.items
      requires Coherent(f0, rank0) && f0.par.Keys == model.items
      requires x !in Chain(f0.par, rank0, ItemOf(model.root, destination))
      requires Dropped(f0, rank0, model.Tree(), rank, moved, ItemOf(model.root, destination))
      modifies model.items
      ensures model.Valid(rank')
      ensures model.Tree() == MoveTo(old(model.Tree()), x, ItemOf(model.root, destination), newRow)
      ensures Dropped(f0, rank0, model.Tree(), rank', moved + [x], ItemOf(model.root, destination))
    {
      hide Coherent, Chain, Dropped, MoveTo, Ranked, Rooted, LinksOf, Up, Addressing.ChildNumber;
      ghost var g, d := model.Tree(), ItemOf(model.root, destination);
      model.TreeFacts(rank);
      CoherentRanked(f0, rank0);
      DroppedChain(f0, rank0, g, rank, moved, d);
      var row := model.RowOf(x, rank);
      var source := model.ParentIndex(Index(row, 0, x), rank);
      MoveRowOfItem(g, rank, model.root, Index(row, 0, x), destination, newRow);
      ghost var r := DropOne(f0, rank0, g, rank, moved, x, d, newRow);
      var ok;
      ok, rank' := model.MoveRows(source, row, destination, newRow, rank);
      model.TreeFacts(rank');
      DroppedRank(f0, rank0, model.Tree(), r, rank', moved + [x], d);
    }
  }
}
