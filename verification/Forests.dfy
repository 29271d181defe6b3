/**
 Trees of objects, as parent and children links: what a move does to them, when it would close a cycle,
 and how paths of row numbers address nodes.
 */
module Forests {
  import opened Strings
  import opened Lists

  type Parents<!T(==)> = map<T, Option<T>>

  // Ancestors

  /** Every parent has a smaller rank than its child, so that walking up ends. */
  ghost predicate Ranked<T>(par: Parents<T>, rank: map<T, nat>) {
    && rank.Keys == par.Keys
    && forall n :: n in par && par[n].Some? ==> par[n].value in par && rank[par[n].value] < rank[n]
  }

  /** `n` and its ancestors, upwards. */
  ghost function Chain<T>(par: Parents<T>, rank: map<T, nat>, n: T): (c: seq<T>)
    requires Ranked(par, rank) && n in par
    ensures c != [] && c[0] == n && forall m :: m in c ==> m in par
    decreases rank[n]
  {
    if par[n].None? then [n] else [n] + Chain(par, rank, par[n].value)
  }

  lemma ChainMembers<T>(par: Parents<T>, rank: map<T, nat>, n: T, m: T)
    requires Ranked(par, rank) && n in par
    ensures m in Chain(par, rank, n) <==> m == n || (par[n].Some? && m in Chain(par, rank, par[n].value))
  {
  }

  /** Ranks fall along the chain; so no node is among its own proper ancestors. */
  lemma {:induction false} ChainRanks<T>(par: Parents<T>, rank: map<T, nat>, n: T, m: T)
    requires Ranked(par, rank) && n in par && m in Chain(par, rank, n)
    ensures m in par && rank[m] <= rank[n] && (m != n ==> rank[m] < rank[n])
    decreases rank[n]
  {
    ChainMembers(par, rank, n, m);
    if m != n {
      ChainRanks(par, rank, par[n].value, m);
    }
  }

  lemma NotOwnAncestor<T>(par: Parents<T>, rank: map<T, nat>, n: T)
    requires Ranked(par, rank) && n in par && par[n].Some?
    ensures n !in Chain(par, rank, par[n].value)
  {
    if n in Chain(par, rank, par[n].value) {
      ChainRanks(par, rank, par[n].value, n);
    }
  }

  /** Hanging `x` under `p` leaves the chains of nodes outside the subtree of `x` as they are. */
  lemma {:induction false} ReparentKeepsChain<T>(par: Parents<T>, rank: map<T, nat>, rank': map<T, nat>,
                                                 x: T, p: T, n: T)
    requires Ranked(par, rank) && x in par && n in par && x !in Chain(par, rank, n)
    requires Ranked(par[x := Some(p)], rank')
    ensures Chain(par[x := Some(p)], rank', n) == Chain(par, rank, n)
    decreases rank[n]
  {
    ChainMembers(par, rank, n, x);
    if par[n].Some? {
      ReparentKeepsChain(par, rank, rank', x, p, par[n].value);
    }
  }

  /** Hanging `x` under a node outside its subtree closes no cycle: a ranking is given. */
  lemma ReparentRanked<T>(par: Parents<T>, rank: map<T, nat>, x: T, p: T) returns (rank': map<T, nat>)
    requires Ranked(par, rank) && x in par && p in par && x !in Chain(par, rank, p)
    ensures Ranked(par[x := Some(p)], rank')
  {
    rank' := map n | n in par :: if x in Chain(par, rank, n) then rank[n] + rank[p] + 1 else rank[n];
    var par' := par[x := Some(p)];
    forall n | n in par' && par'[n].Some?
      ensures par'[n].value in par' && rank'[par'[n].value] < rank'[n]
    {
      if n != x {
        ChainMembers(par, rank, n, x);
      }
    }
  }

  /** Hanging `x` under a node of its own subtree closes a cycle: then no ranking exists. */
  lemma ReparentCycle<T>(par: Parents<T>, rank: map<T, nat>, x: T, p: T, rank': map<T, nat>)
    requires Ranked(par, rank) && x in par && p in par && x in Chain(par, rank, p)
    ensures !Ranked(par[x := Some(p)], rank')
  {
    if Ranked(par[x := Some(p)], rank') {
      DescendantRanks(par, rank, x, p, rank', p);
    }
  }

  lemma {:induction false} DescendantRanks<T>(par: Parents<T>, rank: map<T, nat>, x: T, p: T, rank': map<T, nat>, n: T)
    requires Ranked(par, rank) && x in par && n in par && x in Chain(par, rank, n)
    requires Ranked(par[x := Some(p)], rank')
    ensures rank'[x] <= rank'[n]
    decreases rank[n]
  {
    ChainMembers(par, rank, n, x);
    if n != x {
      DescendantRanks(par, rank, x, p, rank', par[n].value);
    }
  }

  /** Every node lies under `root`. */
  ghost predicate OneTree<T>(par: Parents<T>, rank: map<T, nat>, root: T)
    requires Ranked(par, rank)
  {
    forall n :: n in par ==> root in Chain(par, rank, n)
  }

  lemma {:induction false} ReparentUnderRoot<T>(par: Parents<T>, rank: map<T, nat>, rank': map<T, nat>,
                                                x: T, p: T, root: T, n: T)
    requires Ranked(par, rank) && OneTree(par, rank, root) && x in par && p in par && x !in Chain(par, rank, p)
    requires Ranked(par[x := Some(p)], rank') && n in par
    ensures root in Chain(par[x := Some(p)], rank', n)
    decreases rank'[n]
  {
    var par' := par[x := Some(p)];
    assert root in Chain(par, rank, n);
    ChainMembers(par, rank, n, root);
    ChainMembers(par', rank', n, root);
    if n == x {
      ReparentKeepsChain(par, rank, rank', x, p, p);
      assert root in Chain(par, rank, p);
    } else if par[n].Some? {
      ReparentUnderRoot(par, rank, rank', x, p, root, par[n].value);
    }
  }

  /** A move keeps all nodes under the root. */
  lemma ReparentOneTree<T>(par: Parents<T>, rank: map<T, nat>, rank': map<T, nat>, x: T, p: T, root: T)
    requires Ranked(par, rank) && OneTree(par, rank, root) && x in par && p in par && x !in Chain(par, rank, p)
    requires Ranked(par[x := Some(p)], rank')
    ensures OneTree(par[x := Some(p)], rank', root)
  {
    forall n | n in par
      ensures root in Chain(par[x := Some(p)], rank', n)
    {
      ReparentUnderRoot(par, rank, rank', x, p, root, n);
    }
  }

  // Children

  /** The links of a set of nodes: the ordered children of each, and its parent if it has one. */
  datatype Links<!T(==)> = Links(kids: map<T, seq<T>>, par: Parents<T>)

  /** The children listed under `n` are listed once and name `n` as their parent. */
  ghost predicate ListsChildren<T>(f: Links<T>, n: T)
    requires n in f.kids
  {
    NoDup(f.kids[n]) && forall c :: c in f.kids[n] ==> c in f.par && f.par[c] == Some(n)
  }

  ghost predicate ListedByParent<T>(f: Links<T>, n: T)
    requires n in f.par
  {
    f.par[n].Some? ==> f.par[n].value in f.kids && n in f.kids[f.par[n].value]
  }

  /** Children and parents agree, nothing is listed twice, and there is no cycle. */
  ghost predicate Coherent<T>(f: Links<T>, rank: map<T, nat>) {
    && f.kids.Keys == f.par.Keys
    && Ranked(f.par, rank)
    && (forall n :: n in f.kids ==> ListsChildren(f, n))
    && (forall n :: n in f.par ==> ListedByParent(f, n))
  }

  lemma CoherentRanked<T>(f: Links<T>, rank: map<T, nat>)
    requires Coherent(f, rank)
    ensures f.kids.Keys == f.par.Keys && Ranked(f.par, rank)
  {
  }

  /** Taking `x` out of its parent's children. */
  function Detach<T(==)>(f: Links<T>, x: T): Links<T> {
    if x !in f.par || f.par[x].None? || f.par[x].value !in f.kids then f
    else
      var s := f.par[x].value;
      Links(f.kids[s := Without(f.kids[s], x)], f.par[x := None])
  }

  /** `x`, which is nobody's child, put among the children of `d`. */
  function Attach<T(==)>(f: Links<T>, x: T, d: T, q: nat): Links<T>
    requires d in f.kids
  {
    Links(f.kids[d := InsertAt(f.kids[d], q, x)], f.par[x := Some(d)])
  }

  /** Moving `x` to row `q` of the children of `d`: a row beyond the last means the end. */
  function MoveTo<T(==)>(f: Links<T>, x: T, d: T, q: nat): Links<T> {
    var f' := Detach(f, x);
    if d !in f'.kids then f else Attach(f', x, d, q)
  }

  lemma DetachKids<T>(f: Links<T>, rank: map<T, nat>, x: T, n: T)
    requires Coherent(f, rank) && x in f.par && n in f.kids
    ensures n in Detach(f, x).kids && NoDup(Detach(f, x).kids[n])
    ensures forall c :: c in Detach(f, x).kids[n] <==> c in f.kids[n] && c != x
  {
    assert ListsChildren(f, n) && ListedByParent(f, x);
    if f.par[x] == Some(n) {
      WithoutMembers(f.kids[n], x);
    }
  }

  lemma DetachLinks<T>(f: Links<T>, x: T)
    requires x in f.par && ListedByParent(f, x)
    ensures Detach(f, x).par == f.par[x := None]
    ensures Detach(f, x).kids.Keys == f.kids.Keys
  {
    hide Without;
  }

  lemma OrphanRanked<T>(par: Parents<T>, rank: map<T, nat>, x: T)
    requires Ranked(par, rank) && x in par
    ensures Ranked(par[x := None], rank)
  {
  }

  lemma DetachRanked<T>(f: Links<T>, rank: map<T, nat>, x: T)
    requires Coherent(f, rank) && x in f.par
    ensures Ranked(Detach(f, x).par, rank)
    ensures Detach(f, x).par == f.par[x := None] && Detach(f, x).kids.Keys == f.kids.Keys
  {
    assert ListedByParent(f, x);
    CoherentRanked(f, rank);
    hide Detach, Coherent, Ranked;
    DetachLinks(f, x);
    OrphanRanked(f.par, rank, x);
  }

  lemma DetachKid<T>(f: Links<T>, rank: map<T, nat>, x: T, n: T, c: T)
    requires Coherent(f, rank) && x in f.par && n in f.kids
    ensures n in Detach(f, x).kids && (c in Detach(f, x).kids[n] <==> c in f.kids[n] && c != x)
  {
    DetachKids(f, rank, x, n);
  }

  lemma CoherentAt<T>(f: Links<T>, rank: map<T, nat>, n: T)
    requires Coherent(f, rank) && n in f.par
    ensures n in f.kids && ListsChildren(f, n) && ListedByParent(f, n)
  {
  }

  lemma DetachedChildren<T>(f: Links<T>, rank: map<T, nat>, x: T, n: T)
    requires Coherent(f, rank) && x in f.par && n in f.kids
    ensures n in Detach(f, x).kids && ListsChildren(Detach(f, x), n) && x !in Detach(f, x).kids[n]
  {
    hide Detach, Coherent;
    CoherentRanked(f, rank);
    CoherentAt(f, rank, n);
    DetachKids(f, rank, x, n);
    DetachRanked(f, rank, x);
    forall c | c in Detach(f, x).kids[n]
      ensures c in Detach(f, x).par && Detach(f, x).par[c] == Some(n)
    {
      DetachKid(f, rank, x, n, c);
    }
    DetachKid(f, rank, x, n, x);
  }

  lemma DetachedParent<T>(f: Links<T>, rank: map<T, nat>, x: T, n: T)
    requires Coherent(f, rank) && x in f.par && n in f.par
    ensures n in Detach(f, x).par && ListedByParent(Detach(f, x), n)
  {
    hide Detach, Coherent;
    CoherentAt(f, rank, n);
    DetachRanked(f, rank, x);
    if n != x && f.par[n].Some? {
      DetachKids(f, rank, x, f.par[n].value);
    }
  }

  lemma DetachCoherent<T>(f: Links<T>, rank: map<T, nat>, x: T)
    requires Coherent(f, rank) && x in f.par
    ensures Coherent(Detach(f, x), rank)
    ensures forall n :: n in f.kids ==> n in Detach(f, x).kids && x !in Detach(f, x).kids[n]
  {
    hide Detach, ListsChildren, ListedByParent, Ranked;
    DetachRanked(f, rank, x);
    var f' := Detach(f, x);
    forall n | n in f.kids
      ensures ListsChildren(f', n) && x !in f'.kids[n]
    {
      DetachedChildren(f, rank, x, n);
    }
    forall n | n in f.par
      ensures ListedByParent(f', n)
    {
      DetachedParent(f, rank, x, n);
    }
  }

  lemma AttachedChildren<T>(f: Links<T>, x: T, d: T, q: nat, n: T)
    requires d in f.kids && n in f.kids && ListsChildren(f, n) && x !in f.kids[n]
    ensures ListsChildren(Attach(f, x, d, q), n)
  {
    hide InsertAt;
    if n == d {
      AttachedRow(f, x, d, q);
    }
  }

  lemma AttachedRow<T>(f: Links<T>, x: T, d: T, q: nat)
    requires d in f.kids && ListsChildren(f, d) && x !in f.kids[d]
    ensures ListsChildren(Attach(f, x, d, q), d)
  {
    hide InsertAt;
    var row := f.kids[d];
    InsertNoDup(row, q, x);
    var f' := Attach(f, x, d, q);
    forall c | c in f'.kids[d]
      ensures c in f'.par && f'.par[c] == Some(d)
    {
      InsertMember(row, q, x, c);
    }
  }

  lemma AttachedParent<T>(f: Links<T>, x: T, d: T, q: nat, n: T)
    requires d in f.kids && (n == x || (n in f.par && ListedByParent(f, n)))
    ensures ListedByParent(Attach(f, x, d, q), n)
  {
    hide InsertAt;
    InsertMember(f.kids[d], q, x, n);
  }

  lemma AttachCoherent<T>(f: Links<T>, rank: map<T, nat>, rank': map<T, nat>, x: T, d: T, q: nat)
    requires Coherent(f, rank) && x in f.par && d in f.kids
    requires forall n :: n in f.kids ==> x !in f.kids[n]
    requires Ranked(f.par[x := Some(d)], rank')
    ensures Coherent(Attach(f, x, d, q), rank')
  {
    hide InsertAt, Ranked, ListsChildren, ListedByParent;
    var f' := Attach(f, x, d, q);
    forall n | n in f'.kids
      ensures ListsChildren(f', n)
    {
      AttachedChildren(f, x, d, q, n);
    }
    forall n | n in f'.par
      ensures ListedByParent(f', n)
    {
      AttachedParent(f, x, d, q, n);
    }
  }

  lemma MoveIsAttach<T>(f: Links<T>, x: T, d: T, q: nat)
    requires d in Detach(f, x).kids
    ensures MoveTo(f, x, d, q) == Attach(Detach(f, x), x, d, q)
  {
  }

  /** A move out of the destination's ancestors keeps the links coherent, changes one parent link, and
      leaves the children of every other node alone. */
  lemma MoveCoherent<T>(f: Links<T>, rank: map<T, nat>, x: T, d: T, q: nat) returns (rank': map<T, nat>)
    requires Coherent(f, rank) && x in f.par && d in f.par && x !in Chain(f.par, rank, d)
    ensures Coherent(MoveTo(f, x, d, q), rank')
    ensures MoveTo(f, x, d, q).par == f.par[x := Some(d)]
    ensures forall n :: n in f.kids && n != d && f.par[x] != Some(n) ==> MoveTo(f, x, d, q).kids[n] == f.kids[n]
  {
    hide Coherent, Ranked, Detach, MoveTo, InsertAt, Chain;
    CoherentRanked(f, rank);
    rank' := ReparentRanked(f.par, rank, x, d);
    DetachCoherent(f, rank, x);
    DetachRanked(f, rank, x);
    DetachElsewhere(f, x);
    MoveIsAttach(f, x, d, q);
    var f' := Detach(f, x);
    assert f'.par[x := Some(d)] == f.par[x := Some(d)];
    AttachCoherent(f', rank, rank', x, d, q);
    CoherentRanked(Attach(f', x, d, q), rank');
  }

  lemma DetachElsewhere<T>(f: Links<T>, x: T)
    requires x in f.par
    ensures forall n :: n in f.kids && f.par[x] != Some(n) ==>
              n in Detach(f, x).kids && Detach(f, x).kids[n] == f.kids[n]
  {
  }

  /** A move puts the node into its row, the last one at most, and keeps the order of all other siblings, where
      it came from and where it goes. */
  lemma MoveKeepsOrder<T>(f: Links<T>, rank: map<T, nat>, x: T, d: T, q: nat, n: T)
    requires Coherent(f, rank) && x in f.par && d in f.kids && n in f.kids
    ensures var f' := MoveTo(f, x, d, q);
            && n in f'.kids && d in f'.kids && x in f'.kids[d]
            && Without(f'.kids[n], x) == Without(f.kids[n], x)
            && Position(f'.kids[d], x) == if q < |Without(f.kids[d], x)| then q else |Without(f.kids[d], x)|
  {
    hide Coherent, Detach, NoDup, Without, Position, InsertAt;
    DetachedRow(f, rank, x, n);
    DetachedRow(f, rank, x, d);
    LandingRow(Without(f.kids[d], x), q, x);
  }

  lemma LandingRow<T>(row: seq<T>, q: nat, x: T)
    requires NoDup(row) && x !in row
    ensures var t := InsertAt(row, q, x);
            x in t && Without(t, x) == row && Position(t, x) == if q < |row| then q else |row|
  {
    var k := if q < |row| then q else |row|;
    assert InsertAt(row, q, x) == InsertAt(row, k, x);
    InsertWithout(row, k, x);
    InsertNoDup(row, k, x);
    PositionUnique(InsertAt(row, k, x), k);
  }

  lemma DetachedRow<T>(f: Links<T>, rank: map<T, nat>, x: T, n: T)
    requires Coherent(f, rank) && x in f.par && n in f.kids
    ensures n in Detach(f, x).kids && Detach(f, x).kids[n] == Without(f.kids[n], x)
    ensures NoDup(Without(f.kids[n], x)) && x !in Without(f.kids[n], x)
    ensures Without(Without(f.kids[n], x), x) == Without(f.kids[n], x)
    ensures ListedByParent(f, x)
  {
    assert ListsChildren(f, n) && ListedByParent(f, x);
    WithoutMembers(f.kids[n], x);
  }

  /** A node moved to row `q` of `d`, detached again. */
  lemma DetachMoved<T>(f: Links<T>, rank: map<T, nat>, x: T, d: T, q: nat)
    requires Coherent(f, rank) && x in f.par && d in f.kids
    requires d in Detach(f, x).kids && q <= |Detach(f, x).kids[d]|
    ensures var f' := MoveTo(f, x, d, q);
            && q < |f'.kids[d]| && f'.kids[d][q] == x && Detach(f', x) == Detach(f, x).(par := f.par[x := None])
  {
    hide Coherent, NoDup, Ranked, Detach;
    DetachKids(f, rank, x, d);
    DetachRanked(f, rank, x);
    var g := Detach(f, x);
    InsertWithout(g.kids[d], q, x);
    hide InsertAt, Without;
    var f' := MoveTo(f, x, d, q);
    assert f' == Links(g.kids[d := InsertAt(g.kids[d], q, x)], g.par[x := Some(d)]);
    DetachListed(f', x, d);
    assert f'.kids[d := g.kids[d]] == g.kids;
    assert f'.par[x := None] == f.par[x := None];
  }

  lemma DetachListed<T>(f: Links<T>, x: T, s: T)
    requires x in f.par && f.par[x] == Some(s) && s in f.kids
    ensures Detach(f, x) == Links(f.kids[s := Without(f.kids[s], x)], f.par[x := None])
  {
  }

  /** Moving a node to a row that its new list has, and then moving it back from there to the row it
      came from, restores every list of children and every parent: within one list, in either direction,
      and across two. */
  lemma MoveBack<T>(f: Links<T>, rank: map<T, nat>, s: T, r: nat, d: T, q: nat)
    requires Coherent(f, rank) && s in f.kids && d in f.kids && r < |f.kids[s]|
    requires if s == d then q < |f.kids[s]| else q <= |f.kids[d]|
    ensures f.kids[s][r] in f.par && f.par[f.kids[s][r]] == Some(s)
    ensures var x := f.kids[s][r];
            var f' := MoveTo(f, x, d, q);
            q < |f'.kids[d]| && f'.kids[d][q] == x && MoveTo(f', x, s, r) == f
  {
    hide Coherent, Detach, NoDup, Ranked, InsertAt, DeleteAt;
    ChildLinks(f, rank, s, r);
    var x := f.kids[s][r];
    DetachMoved(f, rank, x, d, q);
    InsertDelete(f.kids[s], r);
    var f' := MoveTo(f, x, d, q);
    assert MoveTo(f', x, s, r).kids == f.kids;
    assert MoveTo(f', x, s, r).par == f.par;
  }

  /** The child in row `r` of `s`, and the links without it. */
  lemma ChildLinks<T>(f: Links<T>, rank: map<T, nat>, s: T, r: nat)
    requires Coherent(f, rank) && s in f.kids && r < |f.kids[s]|
    ensures var x := f.kids[s][r];
            && x in f.par && f.par[x] == Some(s)
            && Detach(f, x).kids == f.kids[s := DeleteAt(f.kids[s], r)]
            && |DeleteAt(f.kids[s], r)| == |f.kids[s]| - 1
  {
    assert ListsChildren(f, s) && f.kids[s][r] in f.kids[s];
    PositionUnique(f.kids[s], r);
  }

  /** One tree, with `root` at its top. */
  ghost predicate Rooted<T>(f: Links<T>, rank: map<T, nat>, root: T) {
    && Coherent(f, rank) && OneTree(f.par, rank, root)
    && root in f.par && f.par[root].None?
  }

  lemma MoveRooted<T>(f: Links<T>, rank: map<T, nat>, root: T, x: T, d: T, q: nat) returns (rank': map<T, nat>)
    requires Rooted(f, rank, root) && x in f.par && d in f.par && x !in Chain(f.par, rank, d)
    ensures Rooted(MoveTo(f, x, d, q), rank', root)
    ensures MoveTo(f, x, d, q).kids.Keys == f.kids.Keys
  {
    CoherentRanked(f, rank);
    assert root in Chain(f.par, rank, d);
    hide Coherent, MoveTo, OneTree;
    rank' := MoveCoherent(f, rank, x, d, q);
    CoherentRanked(MoveTo(f, x, d, q), rank');
    ReparentOneTree(f.par, rank, rank', x, d, root);
  }

  lemma MovedRows<T>(f: Links<T>, rank: map<T, nat>, s: T, r: nat, d: T, q: nat)
    requires Coherent(f, rank) && s in f.kids && d in f.kids && r < |f.kids[s]|
    ensures var f' := MoveTo(f, f.kids[s][r], d, q);
            && f'.kids.Keys == f.kids.Keys
            && |f'.kids[d]| == if s == d then |f.kids[d]| else |f.kids[d]| + 1
  {
    assert ListsChildren(f, s) && f.kids[s][r] in f.kids[s];
  }

  /** The node left behind is not below the node that moved. */
  lemma SourceNotBelow<T>(f: Links<T>, rank: map<T, nat>, rank': map<T, nat>, x: T, s: T, d: T, q: nat)
    requires Coherent(f, rank) && s in f.kids && d in f.kids && x in f.par && f.par[x] == Some(s)
    requires x !in Chain(f.par, rank, d)
    requires Coherent(MoveTo(f, x, d, q), rank')
    ensures s in MoveTo(f, x, d, q).par && x !in Chain(MoveTo(f, x, d, q).par, rank', s)
  {
    hide Coherent, Ranked, Chain, MoveTo, Detach;
    CoherentRanked(f, rank);
    CoherentRanked(MoveTo(f, x, d, q), rank');
    DetachRanked(f, rank, x);
    MoveIsAttach(f, x, d, q);
    assert MoveTo(f, x, d, q).par == f.par[x := Some(d)];
    NotOwnAncestor(f.par, rank, x);
    ReparentKeepsChain(f.par, rank, rank', x, d, s);
  }

  // Several moves

  /** The moves of a drop: the items in order, to consecutive rows of `d` from `q` on. */
  function Drop<T(==)>(f: Links<T>, items: seq<T>, d: T, q: nat): Links<T> {
    if items == [] then f
    else
      var k := |items| - 1;
      MoveTo(Drop(f, items[..k], d, q), items[k], d, q + k)
  }

  /** After some moves: no cycle, the items moved so far are children of `d`, every other parent
      link is as before, and so are the ancestors of `d`. */
  ghost predicate Dropped<T>(f0: Links<T>, rank0: map<T, nat>, f: Links<T>, rank: map<T, nat>, moved: seq<T>, d: T)
    requires Ranked(f0.par, rank0) && d in f0.par
  {
    && Coherent(f, rank) && f.par.Keys == f0.par.Keys
    && (forall n :: n in f0.par ==> f.par[n] == if n in moved then Some(d) else f0.par[n])
    && Chain(f.par, rank, d) == Chain(f0.par, rank0, d)
  }

  lemma DropOne<T>(f0: Links<T>, rank0: map<T, nat>, f: Links<T>, rank: map<T, nat>, moved: seq<T>, x: T, d: T, q: nat)
    returns (rank': map<T, nat>)
    requires Ranked(f0.par, rank0) && d in f0.par && Dropped(f0, rank0, f, rank, moved, d)
    requires x in f0.par && x !in Chain(f0.par, rank0, d)
    ensures Dropped(f0, rank0, MoveTo(f, x, d, q), rank', moved + [x], d)
  {
    hide Coherent, MoveTo, Chain, Ranked;
    CoherentRanked(f, rank);
    rank' := MoveCoherent(f, rank, x, d, q);
    CoherentRanked(MoveTo(f, x, d, q), rank');
    ReparentKeepsChain(f.par, rank, rank', x, d, d);
  }

  lemma DropNone<T>(f: Links<T>, rank: map<T, nat>, d: T)
    requires Coherent(f, rank) && d in f.par
    ensures Dropped(f, rank, f, rank, [], d)
  {
  }

  /** When no item is the destination or one of its ancestors, the drop, and every drop of only its first
      items, gives a proper tree in which just the items moved have changed parents. */
  lemma {:induction false} DropSafe<T>(f: Links<T>, rank: map<T, nat>, items: seq<T>, d: T, q: nat)
    returns (rank': map<T, nat>)
    requires Coherent(f, rank) && d in f.par
    requires forall x :: x in items ==> x in f.par && x !in Chain(f.par, rank, d)
    ensures Dropped(f, rank, Drop(f, items, d, q), rank', items, d)
    decreases |items|
  {
    hide Coherent, MoveTo, Chain, Dropped, Ranked;
    CoherentRanked(f, rank);
    if items == [] {
      rank' := rank;
      DropNone(f, rank, d);
    } else {
      var k := |items| - 1;
      var r := DropSafe(f, rank, items[..k], d, q);
      rank' := DropOne(f, rank, Drop(f, items[..k], d, q), r, items[..k], items[k], d, q + k);
      assert items[..k] + [items[k]] == items;
    }
  }

  /** A node moved to the row it is in stays there. */
  lemma MoveNowhere<T>(f: Links<T>, rank: map<T, nat>, x: T, d: T, q: nat)
    requires Coherent(f, rank) && x in f.par && f.par[x] == Some(d)
    requires d in f.kids && x in f.kids[d] && q == Position(f.kids[d], x)
    ensures MoveTo(f, x, d, q) == f
  {
    hide Coherent, Position, InsertAt, DeleteAt, Detach;
    DetachListed(f, x, d);
    InsertDelete(f.kids[d], q);
    assert MoveTo(f, x, d, q).kids == f.kids;
    assert MoveTo(f, x, d, q).par == f.par;
  }

  /** The chain does not depend on the ranking that shows it ends. */
  lemma {:induction false} ChainRankIrrelevant<T>(par: Parents<T>, r: map<T, nat>, r': map<T, nat>, n: T)
    requires Ranked(par, r) && Ranked(par, r') && n in par
    ensures Chain(par, r, n) == Chain(par, r', n)
    decreases r[n]
  {
    if par[n].Some? {
      ChainRankIrrelevant(par, r, r', par[n].value);
    }
  }

  lemma DroppedChain<T>(f0: Links<T>, rank0: map<T, nat>, f: Links<T>, r: map<T, nat>, moved: seq<T>, d: T)
    requires Ranked(f0.par, rank0) && d in f0.par && Dropped(f0, rank0, f, r, moved, d)
    ensures Coherent(f, r) && f.par.Keys == f0.par.Keys && Chain(f.par, r, d) == Chain(f0.par, rank0, d)
  {
  }

  lemma DroppedRank<T>(f0: Links<T>, rank0: map<T, nat>, f: Links<T>, r: map<T, nat>, r': map<T, nat>,
                       moved: seq<T>, d: T)
    requires Ranked(f0.par, rank0) && d in f0.par && Dropped(f0, rank0, f, r, moved, d) && Coherent(f, r')
    ensures Dropped(f0, rank0, f, r', moved, d)
  {
    ChainRankIrrelevant(f.par, r, r', d);
  }

  lemma BelowRoot<T>(f: Links<T>, rank: map<T, nat>, root: T, x: T)
    requires Rooted(f, rank, root) && x in f.par && x != root
    ensures f.par[x].Some? && f.par[x].value in f.par && f.par[x].value in f.kids && x in f.kids[f.par[x].value]
  {
    assert root in Chain(f.par, rank, x);
    ChainMembers(f.par, rank, x, root);
    assert ListedByParent(f, x);
  }
}
