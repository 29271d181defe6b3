/** Python list operations on sequences. */
module Lists {

  predicate NoDup<T(==)>(s: seq<T>) {
    forall i, j :: 0 <= i < j < |s| ==> s[i] != s[j]
  }

  /** `s.insert(i, x)` for `i >= 0`: a position beyond the end means the end. */
  function InsertAt<T>(s: seq<T>, i: nat, x: T): seq<T> {
    if i <= |s| then s[..i] + [x] + s[i..] else s + [x]
  }

  /** `s` without the element at `i`, as `del s[i]` and `s.pop(i)` leave it. */
  function DeleteAt<T>(s: seq<T>, i: nat): seq<T>
    requires i < |s|
  {
    s[..i] + s[i + 1..]
  }

  /** `s.insert(to, s.pop(from))`. */
  function MoveElem<T>(s: seq<T>, from: nat, to: nat): seq<T>
    requires from < |s|
  {
    InsertAt(DeleteAt(s, from), to, s[from])
  }

  /** `s.index(x)`. */
  function Position<T(==)>(s: seq<T>, x: T): (i: nat)
    requires x in s
    ensures i < |s| && s[i] == x && x !in s[..i]
  {
    if s[0] == x then 0 else
      var i := 1 + Position(s[1..], x);
      assert s[..i] == [s[0]] + s[1..][..i - 1];
      i
  }

  /** `s.remove(x)`, which leaves a list without `x` as it is here. */
  function Without<T(==)>(s: seq<T>, x: T): seq<T> {
    if x in s then DeleteAt(s, Position(s, x)) else s
  }

  lemma PositionUnique<T>(s: seq<T>, i: nat)
    requires NoDup(s) && i < |s|
    ensures Position(s, s[i]) == i
  {
  }

  lemma DeleteInsert<T>(s: seq<T>, i: nat, x: T)
    requires i <= |s|
    ensures InsertAt(s, i, x)[i] == x && DeleteAt(InsertAt(s, i, x), i) == s
  {
  }

  lemma InsertDelete<T>(s: seq<T>, i: nat)
    requires i < |s|
    ensures InsertAt(DeleteAt(s, i), i, s[i]) == s
  {
  }

  lemma InsertMembers<T>(s: seq<T>, i: nat, x: T)
    ensures forall y :: y in InsertAt(s, i, x) <==> y == x || y in s
  {
    var k := if i <= |s| then i else |s|;
    var t := InsertAt(s, i, x);
    assert t == s[..k] + [x] + s[k..];
    assert s == s[..k] + s[k..];
  }

  lemma InsertMember<T>(s: seq<T>, i: nat, x: T, y: T)
    ensures y in InsertAt(s, i, x) <==> y == x || y in s
  {
    InsertMembers(s, i, x);
  }

  lemma DeleteMember<T>(s: seq<T>, k: nat, y: T)
    requires NoDup(s) && k < |s|
    ensures y in DeleteAt(s, k) <==> y != s[k] && y in s
  {
    var t := DeleteAt(s, k);
    if y in s && y != s[k] {
      var j :| 0 <= j < |s| && s[j] == y;
      assert t[if j < k then j else j - 1] == y;
    }
  }

  lemma DeleteNoDup<T>(s: seq<T>, k: nat)
    requires NoDup(s) && k < |s|
    ensures NoDup(DeleteAt(s, k))
  {
  }

  lemma WithoutMembers<T>(s: seq<T>, x: T)
    requires NoDup(s)
    ensures forall y :: y in Without(s, x) <==> y != x && y in s
    ensures NoDup(Without(s, x))
  {
    if x in s {
      var k := Position(s, x);
      DeleteNoDup(s, k);
      forall y
        ensures y in Without(s, x) <==> y != x && y in s
      {
        DeleteMember(s, k, y);
      }
    }
  }

  lemma WithoutShorter<T>(s: seq<T>, x: T)
    ensures |Without(s, x)| <= |s|
  {
  }

  lemma InsertNoDup<T>(s: seq<T>, i: nat, x: T)
    requires NoDup(s) && x !in s
    ensures NoDup(InsertAt(s, i, x))
  {
  }

  /** Appending and then moving the last element is inserting. */
  lemma AppendMove<T>(s: seq<T>, x: T, i: nat)
    ensures MoveElem(s + [x], |s|, i) == InsertAt(s, i, x)
  {
    assert DeleteAt(s + [x], |s|) == s;
  }

  /** What was inserted is removed again from where it was inserted. */
  lemma InsertWithout<T>(s: seq<T>, i: nat, x: T)
    requires NoDup(s) && x !in s && i <= |s|
    ensures var t := InsertAt(s, i, x); x in t && t[i] == x && Without(t, x) == s
  {
    DeleteInsert(s, i, x);
    InsertNoDup(s, i, x);
    PositionUnique(InsertAt(s, i, x), i);
  }

  function Reversed<T>(s: seq<T>): seq<T> {
    if s == [] then [] else [s[|s| - 1]] + Reversed(s[..|s| - 1])
  }
}
