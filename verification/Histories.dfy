/**
 The three most-recently-used lists: request history, recent sessions and searches.  Each is proved to stay
 free of duplicates and to be a beginning of the plain recency order, kept without any bound.
 */
module Histories {
  import opened Lists

  /** The recency order after adding `x`: `x` first, the others as they were. */
  function Touch<T(==)>(s: seq<T>, x: T): seq<T> {
    [x] + Without(s, x)
  }

  lemma TouchNoDup<T>(s: seq<T>, x: T)
    requires NoDup(s)
    ensures NoDup(Touch(s, x))
  {
    WithoutMembers(s, x);
  }

  /** Removing an element from a list and from a beginning of it keeps one a beginning of the other. */
  lemma WithoutPrefix<T>(a: seq<T>, b: seq<T>, x: T)
    requires a <= b && NoDup(b)
    ensures Without(a, x) <= Without(b, x)
  {
    hide DeleteAt;
    if x in a {
      var k := Position(a, x);
      PositionUnique(b, k);
      DeleteInPrefix(a, b, k);
    } else if x in b {
      PositionBehind(a, b, x);
      DeleteBehindPrefix(a, b, Position(b, x));
    }
  }

  lemma DeleteInPrefix<T>(a: seq<T>, b: seq<T>, k: nat)
    requires a <= b && k < |a|
    ensures DeleteAt(a, k) <= DeleteAt(b, k)
  {
  }

  lemma DeleteBehindPrefix<T>(a: seq<T>, b: seq<T>, k: nat)
    requires a <= b && |a| <= k < |b|
    ensures a <= DeleteAt(b, k)
  {
  }

  lemma PositionBehind<T>(a: seq<T>, b: seq<T>, x: T)
    requires a <= b && x !in a && x in b
    ensures |a| <= Position(b, x)
  {
    hide Position;
    forall i | 0 <= i < |a|
      ensures b[i] != x
    {
      assert a[i] == b[i] && a[i] in a;
    }
    assert b[Position(b, x)] == x;
  }

  lemma PrefixNoDup<T>(a: seq<T>, b: seq<T>)
    requires a <= b && NoDup(b)
    ensures NoDup(a)
  {
  }

  /** Adding to a list and to a beginning of it. */
  lemma TouchPrefix<T>(a: seq<T>, b: seq<T>, x: T)
    requires a <= b && NoDup(b)
    ensures Touch(a, x) <= Touch(b, x)
  {
    WithoutPrefix(a, b, x);
  }

  // Deleting while enumerating

  /** What `for idx, item in enumerate(s): if item == x: del s[idx]` leaves, from position `i` on: after a
      deletion the next element moves under the enumeration and is skipped. */
  function Purge<T(==)>(s: seq<T>, x: T, i: nat): seq<T>
    decreases |s| - i
  {
    if i >= |s| then s
    else if s[i] == x then Purge(DeleteAt(s, i), x, i + 1)
    else Purge(s, x, i + 1)
  }

  predicate Adjacent<T(==)>(s: seq<T>, x: T, i: nat) {
    exists j :: i <= j < |s| - 1 && s[j] == x && s[j + 1] == x
  }

  /** The loop keeps what it has passed. */
  lemma {:induction false} PurgeKeeps<T>(s: seq<T>, x: T, i: nat)
    requires i <= |s|
    ensures s[..i] <= Purge(s, x, i)
    decreases |s| - i
  {
    if i < |s| {
      if s[i] == x {
        var t := DeleteAt(s, i);
        if i < |t| {
          PurgeKeeps(t, x, i + 1);
          assert t[..i + 1][..i] == s[..i];
        } else {
          assert t == s[..i];
        }
      } else {
        PurgeKeeps(s, x, i + 1);
        assert s[..i + 1][..i] == s[..i];
      }
    }
  }

  /** Deleting an `x` that stands alone keeps and makes no equal neighbours behind it. */
  lemma AdjacentBehind<T>(s: seq<T>, x: T, i: nat)
    requires i + 1 < |s| && s[i] == x && s[i + 1] != x
    ensures Adjacent(DeleteAt(s, i), x, i + 1) <==> Adjacent(s, x, i)
  {
    var t := DeleteAt(s, i);
    if Adjacent(s, x, i) {
      var j :| i <= j < |s| - 1 && s[j] == x && s[j + 1] == x;
      assert t[j - 1] == x && t[j] == x;
    }
    if Adjacent(t, x, i + 1) {
      var j :| i + 1 <= j < |t| - 1 && t[j] == x && t[j + 1] == x;
      assert s[j + 1] == x && s[j + 2] == x;
    }
  }

  /** The loop removes every `x` exactly when no two stand next to each other: it is the absence of
      duplicates that makes deleting while enumerating correct. */
  lemma {:induction false} PurgeCompleteIff<T>(s: seq<T>, x: T, i: nat)
    requires i <= |s| && x !in s[..i]
    ensures x !in Purge(s, x, i) <==> !Adjacent(s, x, i)
    decreases |s| - i
  {
    if i == |s| {
      assert s == s[..i];
    } else if s[i] == x {
      var t := DeleteAt(s, i);
      if i < |t| {
        if s[i + 1] == x {
          PurgeKeeps(t, x, i + 1);
          assert t[..i + 1][i] == x;
          assert Purge(t, x, i + 1)[i] == x;
          assert Adjacent(s, x, i);
        } else {
          assert t[..i + 1] == s[..i] + [s[i + 1]];
          PurgeCompleteIff(t, x, i + 1);
          AdjacentBehind(s, x, i);
        }
      } else {
        assert t == s[..i];
        assert Purge(t, x, i + 1) == t;
      }
    } else {
      assert s[..i + 1] == s[..i] + [s[i]];
      PurgeCompleteIff(s, x, i + 1);
    }
  }

  /** Of two equal neighbours the loop leaves one. */
  lemma PurgeExample()
    ensures Purge(["b", "a", "a"], "a", 0) == ["b", "a"]
  {
    assert DeleteAt(["b", "a", "a"], 1) == ["b", "a"];
  }

  /** Without duplicates the loop removes the one occurrence. */
  lemma {:induction false} PurgeNoDup<T>(s: seq<T>, x: T, i: nat)
    requires NoDup(s) && i <= |s| && x !in s[..i]
    ensures Purge(s, x, i) == Without(s, x)
    decreases |s| - i
  {
    if i < |s| {
      if s[i] == x {
        PositionUnique(s, i);
        PurgeAbsent(DeleteAt(s, i), x, i + 1);
      } else {
        assert s[..i + 1] == s[..i] + [s[i]];
        PurgeNoDup(s, x, i + 1);
      }
    } else {
      assert s == s[..i];
    }
  }

  lemma {:induction false} PurgeAbsent<T>(s: seq<T>, x: T, i: nat)
    requires x !in s
    ensures Purge(s, x, i) == s
    decreases |s| - i
  {
    if i < |s| {
      PurgeAbsent(s, x, i + 1);
    }
  }

  // Request history

  /** `HistoryModel`.  `recency` is the order of all requests ever added and not removed. */
  class HistoryModel {
    var history: seq<string>
    ghost var recency: seq<string>

    ghost predicate Valid()
      reads this
    {
      NoDup(recency) && history <= recency && |history| <= 1001
    }

    constructor (his: seq<string>)
      requires NoDup(his) && |his| <= 1001
      ensures Valid() && history == recency == his
    {
      history, recency := his, his;
    }

    /** The loop stops at the first equal entry and removes it there. */
    method AddHistory(his: string)
      requires Valid()
      modifies this
      ensures Valid() && recency == Touch(old(recency), his)
      ensures var rest := Without(old(history), his);
              history == [his] + if |rest| > 1000 then rest[..999] else rest
    {
      TouchPrefix(history, recency, his);
      TouchNoDup(recency, his);
      var i := 0;
      while i < |history|
        invariant i <= |history| && history == old(history) && his !in history[..i]
      {
        if history[i] == his {
          break;
        }
        i := i + 1;
      }
      WithoutFirst(history, his, i);
      if i < |history| {
        history := DeleteAt(history, i);
      }
      if |history| > 1000 {
        history := history[..999];
      }
      history := [his] + history;
      recency := Touch(recency, his);
    }

    /** `self._history.remove(self._history[row])`, after refusing a negative row. */
    method RemoveRow(row: int) returns (r: Removal)
      requires Valid()
      modifies this
      ensures Valid() && r == if row < 0 then Refused else if row >= |old(history)| then IndexError else Removed
      ensures if r == Removed
              then history == DeleteAt(old(history), row) && recency == Without(old(recency), old(history)[row])
              else history == old(history) && recency == old(recency)
    {
      if row < 0 {
        return Refused;
      }
      if row >= |history| {
        return IndexError;
      }
      var x := history[row];
      WithoutPrefix(history, recency, x);
      WithoutMembers(recency, x);
      PositionUnique(history, row);
      history := Without(history, x);
      recency := Without(recency, x);
      return Removed;
    }

    /** The entries are looked up first and removed by value afterwards: a row that does not exist raises before
        anything is removed, a row named twice raises when its entry is missed.  `done` is the number of rows whose
        entries are gone. */
    method BatchRemoveRows(rows: seq<nat>) returns (r: Removal, ghost done: nat)
      requires Valid()
      modifies this
      ensures Valid()
      ensures r == if !RowsExist(old(history), rows) then IndexError else if NoDup(rows) then Removed else ValueError
      ensures done <= |rows| && RowsExist(old(history), rows[..done])
      ensures history == WithoutAll(old(history), Entries(old(history), rows[..done]))
      ensures recency == WithoutAll(old(recency), Entries(old(history), rows[..done]))
      ensures r == IndexError ==> done == 0
      ensures r == Removed ==> done == |rows|
      ensures r == ValueError ==> FirstRepeat(rows, done)
    {
      ghost var was := history;
      var items := [];
      for i := 0 to |rows|
        invariant history == was && recency == old(recency) && Valid()
        invariant RowsExist(was, rows[..i]) && items == Entries(was, rows[..i])
      {
        if rows[i] >= |history| {
          return IndexError, 0;
        }
        items := items + [history[rows[i]]];
        assert items == Entries(was, rows[..i + 1]);
      }
      assert rows[..|rows|] == rows;
      EntriesNoDup(was, rows);
      r, done := RemoveAll(items);
      EntriesPrefix(was, rows, done);
    }

    method RemoveAll(items: seq<string>) returns (r: Removal, ghost done: nat)
      requires Valid() && forall i :: 0 <= i < |items| ==> items[i] in history
      modifies this
      ensures Valid() && r == if NoDup(items) then Removed else ValueError
      ensures done <= |items| && history == WithoutAll(old(history), items[..done])
      ensures recency == WithoutAll(old(recency), items[..done])
      ensures if r == Removed then done == |items| else FirstRepeat(items, done)
    {
      hide Without, NoDup;
      NoDupStart<string>();
      for i := 0 to |items|
        invariant Valid() && NoDup(items[..i])
        invariant history == WithoutAll(old(history), items[..i]) && recency == WithoutAll(old(recency), items[..i])
      {
        PrefixNoDup(old(history), old(recency));
        WithoutAllMembers(old(history), items[..i]);
        NoDupNext(items, i);
        if items[i] !in history {
          return ValueError, i;
        }
        WithoutPrefix(history, recency, items[i]);
        WithoutMembers(recency, items[i]);
        WithoutShorter(history, items[i]);
        assert items[..i + 1][..i] == items[..i];
        history := Without(history, items[i]);
        recency := Without(recency, items[i]);
      }
      assert items[..|items|] == items;
      return Removed, |items|;
    }
  }

  datatype Removal = Removed | Refused | IndexError | ValueError

  predicate RowsExist<T>(s: seq<T>, rows: seq<nat>) {
    forall i :: 0 <= i < |rows| ==> rows[i] < |s|
  }

  /** Element `k` is the first that stands in the list before. */
  predicate FirstRepeat<T(==)>(s: seq<T>, k: nat) {
    k < |s| && NoDup(s[..k]) && s[k] in s[..k]
  }

  lemma EntriesPrefix<T>(s: seq<T>, rows: seq<nat>, k: nat)
    requires NoDup(s) && RowsExist(s, rows) && k <= |rows|
    ensures RowsExist(s, rows[..k]) && Entries(s, rows[..k]) == Entries(s, rows)[..k]
    ensures FirstRepeat(Entries(s, rows), k) ==> FirstRepeat(rows, k)
  {
    EntriesNoDup(s, rows[..k]);
    var es := Entries(s, rows);
    assert Entries(s, rows[..k]) == es[..k];
    if FirstRepeat(es, k) {
      var j :| 0 <= j < k && es[..k][j] == es[k];
      assert s[rows[j]] == s[rows[k]];
      assert rows[..k][j] == rows[k];
    }
  }

  lemma EntriesNoDup<T>(s: seq<T>, rows: seq<nat>)
    requires NoDup(s) && RowsExist(s, rows)
    ensures NoDup(Entries(s, rows)) <==> NoDup(rows)
    ensures forall i :: 0 <= i < |rows| ==> Entries(s, rows)[i] in s
  {
    var es := Entries(s, rows);
    assert forall i :: 0 <= i < |rows| ==> es[i] == s[rows[i]];
    forall i, j | 0 <= i < j < |rows|
      ensures es[i] == es[j] <==> rows[i] == rows[j]
    {
    }
    if NoDup(es) {
      forall i, j | 0 <= i < j < |rows|
        ensures rows[i] != rows[j]
      {
        assert es[i] != es[j];
      }
    }
  }

  lemma NoDupStart<T>()
    ensures NoDup<T>([])
  {
  }

  /** One more element keeps a list free of duplicates if and only if it is new. */
  lemma NoDupNext<T>(s: seq<T>, i: nat)
    requires i < |s| && NoDup(s[..i])
    ensures NoDup(s[..i + 1]) <==> s[i] !in s[..i]
    ensures NoDup(s) ==> s[i] !in s[..i]
  {
    var t := s[..i + 1];
    assert t[i] == s[i] && forall j :: 0 <= j < i ==> t[j] == s[..i][j];
    if s[i] in s[..i] {
      var j :| 0 <= j < i && s[..i][j] == s[i];
      assert t[j] == t[i] && s[j] == s[i];
    }
  }

  /** The elements at the given rows. */
  function Entries<T>(s: seq<T>, rows: seq<nat>): seq<T>
    requires RowsExist(s, rows)
  {
    seq(|rows|, i requires 0 <= i < |rows| => s[rows[i]])
  }

  /** `s` after removing the elements of `items` one by one. */
  function WithoutAll<T(==)>(s: seq<T>, items: seq<T>): seq<T> {
    if items == [] then s else Without(WithoutAll(s, items[..|items| - 1]), items[|items| - 1])
  }

  lemma {:induction false} WithoutAllMembers<T>(s: seq<T>, items: seq<T>)
    requires NoDup(s)
    ensures NoDup(WithoutAll(s, items))
    ensures forall x :: x in WithoutAll(s, items) <==> x in s && x !in items
    decreases |items|
  {
    if items != [] {
      var k := |items| - 1;
      WithoutAllMembers(s, items[..k]);
      WithoutMembers(WithoutAll(s, items[..k]), items[k]);
      assert items == items[..k] + [items[k]];
    }
  }

  /** Where the search for `x` stops, in the list or at its end. */
  lemma WithoutFirst<T>(s: seq<T>, x: T, i: nat)
    requires i <= |s| && x !in s[..i] && (i < |s| ==> s[i] == x)
    ensures Without(s, x) == if i < |s| then DeleteAt(s, i) else s
  {
    if i < |s| {
      PositionFirst(s, i);
    } else {
      assert s[..i] == s;
    }
  }

  lemma PositionFirst<T>(s: seq<T>, i: nat)
    requires i < |s| && s[i] !in s[..i]
    ensures Position(s, s[i]) == i
  {
    var p := Position(s, s[i]);
    assert forall q :: 0 <= q < i ==> s[q] in s[..i];
    assert forall q :: 0 <= q < p ==> s[q] in s[..p];
  }

  // Searches

  /** The list of `FindDialg.updateHistory`. */
  class SearchHistory {
    var history: seq<string>
    ghost var recency: seq<string>

    ghost predicate Valid()
      reads this
    {
      NoDup(recency) && history <= recency && |history| <= 30
    }

    constructor (saved: seq<string>)
      requires NoDup(saved) && |saved| <= 30
      ensures Valid() && history == recency == saved
    {
      history, recency := saved, saved;
    }

    method UpdateHistory(txt: string)
      requires Valid()
      modifies this
      ensures Valid()
      ensures recency == if txt == "" then old(recency) else Touch(old(recency), txt)
      ensures history == if txt == "" then old(history)
                         else var touched := Touch(old(history), txt); if |touched| > 30 then touched[..29] else touched
    {
      if txt == "" {
        return;
      }
      TouchPrefix(history, recency, txt);
      TouchNoDup(recency, txt);
      recency := Touch(recency, txt);
      ghost var was := history;
      PurgeNoDup(was, txt, 0);
      var idx := 0;
      while idx < |history|
        invariant recency == Touch(old(recency), txt)
        invariant Purge(history, txt, idx) == Purge(was, txt, 0)
        invariant idx == 0 ==> history == was
        invariant idx > 0 ==> was == [] || was[0] != txt
        decreases |history| - idx
      {
        if txt == history[idx] {
          if idx == 0 {
            TouchFirst(was, txt);
            TouchFirst(old(recency), txt);
            return;
          }
          history := DeleteAt(history, idx);
        }
        idx := idx + 1;
      }
      history := [txt] + history;
      if |history| > 30 {
        history := history[..29];
      }
    }
  }

  lemma TouchFirst<T>(s: seq<T>, x: T)
    requires s != [] && s[0] == x
    ensures Touch(s, x) == s
  {
    assert DeleteAt(s, 0) == s[1..];
    assert [x] + s[1..] == s;
  }

  // Recent sessions

  datatype Entry = Entry(name: string, data: string)

  function Names(es: seq<Entry>): seq<string> {
    seq(|es|, i requires 0 <= i < |es| => es[i].name)
  }

  /** The list of `RecentlySession.updateRecently`, keyed by name. */
  class RecentSessions {
    var entries: seq<Entry>
    ghost var recency: seq<string>

    ghost predicate Valid()
      reads this
    {
      NoDup(recency) && Names(entries) <= recency && |entries| <= 20
    }

    constructor (saved: seq<Entry>)
      requires NoDup(Names(saved)) && |saved| <= 20
      ensures Valid() && entries == saved && recency == Names(saved)
    {
      entries, recency := saved, Names(saved);
    }

    /** A session that is first already keeps its old data: the new data is not stored then. */
    method UpdateRecently(name: string, data: string)
      requires Valid()
      modifies this
      ensures Valid() && recency == Touch(old(recency), name)
      ensures var touched := Touch(Names(old(entries)), name);
              Names(entries) == if |touched| > 20 then touched[..20] else touched
      ensures entries[0] == if old(entries) != [] && old(entries)[0].name == name then old(entries)[0]
                            else Entry(name, data)
      ensures forall e :: e in entries[1..] ==> e in old(entries)
    {
      hide Without, Names, NoDup;
      NamesFirst(entries);
      PrefixNoDup(Names(entries), recency);
      TouchPrefix(Names(entries), recency, name);
      TouchNoDup(recency, name);
      if entries != [] && entries[0].name == name {
        TouchFirst(Names(entries), name);
        TouchFirst(recency, name);
      }
      recency := Touch(recency, name);
      var first := RemoveNamed(name);
      if first {
        return;
      }
      NamesCons(Entry(name, data), entries);
      entries := [Entry(name, data)] + entries;
      NamesFirst(entries);
      if |entries| > 20 {
        NamesTake(entries, 20);
        entries := entries[..20];
      }
    }

    /** The enumerating loop: it gives up when the first entry has the name, and deletes any other that has. */
    method RemoveNamed(name: string) returns (first: bool)
      requires NoDup(Names(entries))
      modifies this`entries
      ensures first <==> old(entries) != [] && old(entries)[0].name == name
      ensures first ==> entries == old(entries)
      ensures !first ==> Names(entries) == Without(Names(old(entries)), name)
      ensures forall e :: e in entries ==> e in old(entries)
    {
      ghost var was := Names(entries);
      PurgeNoDup(was, name, 0);
      var idx := 0;
      while idx < |entries|
        invariant idx == 0 ==> entries == old(entries)
        invariant idx > 0 ==> old(entries) != [] && old(entries)[0].name != name
        invariant Purge(Names(entries), name, idx) == Purge(was, name, 0)
        invariant forall e :: e in entries ==> e in old(entries)
        decreases |entries| - idx
      {
        if entries[idx].name == name {
          if idx == 0 {
            return true;
          }
          NamesDelete(entries, idx);
          entries := DeleteAt(entries, idx);
        }
        idx := idx + 1;
      }
      return false;
    }
  }

  lemma NamesFirst(es: seq<Entry>)
    ensures |Names(es)| == |es| && (es != [] ==> Names(es)[0] == es[0].name)
  {
  }

  lemma NamesCons(e: Entry, es: seq<Entry>)
    ensures Names([e] + es) == [e.name] + Names(es)
  {
  }

  lemma NamesDelete(es: seq<Entry>, i: nat)
    requires i < |es|
    ensures Names(DeleteAt(es, i)) == DeleteAt(Names(es), i)
  {
  }

  lemma NamesTake(es: seq<Entry>, k: nat)
    requires k <= |es|
    ensures Names(es[..k]) == Names(es)[..k]
  {
  }
}
