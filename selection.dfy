/** The bookkeeping behind the row checkboxes: JavaScript's `Array.prototype.indexOf`
    (identity comparison, first match) and `splice(index, 1)`, over rows that are
    compared only for identity. */
module Selection {

  /** The rows with the first occurrence of `x` taken out; unchanged when `x` is absent. */
  function RemoveFirst<T(==)>(s: seq<T>, x: T): seq<T>
  {
    if s == [] then []
    else if s[0] == x then s[1..]
    else [s[0]] + RemoveFirst(s[1..], x)
  }

  /** The selection after a checkbox event: a check appends the row, with no test for
      whether it is already there; an uncheck removes its first occurrence. */
  function Toggled<T(==)>(s: seq<T>, x: T, checked: bool): seq<T>
  {
    if checked then s + [x] else RemoveFirst(s, x)
  }

  /** `indexOf`: the position of the first element equal to `x`, or -1. */
  method IndexOf<T(==)>(s: seq<T>, x: T) returns (index: int)
    ensures -1 <= index < |s|
    ensures index == -1 <==> x !in s
    ensures 0 <= index ==> s[index] == x && x !in s[..index]
  {
    index := 0;
    while index < |s|
      invariant 0 <= index <= |s|
      invariant x !in s[..index]
    {
      if s[index] == x {
        return;
      }
      assert s[..index + 1] == s[..index] + [s[index]];
      index := index + 1;
    }
    assert s[..index] == s;
    index := -1;
  }

  /** Removing the first occurrence is splicing out the element at its index. */
  lemma {:induction false} RemoveFirstAt<T>(s: seq<T>, x: T, i: nat)
    requires i < |s| && s[i] == x && x !in s[..i]
    ensures RemoveFirst(s, x) == s[..i] + s[i + 1..]
  {
    if i > 0 {
      assert s[0] in s[..i];
      assert s[1..][..i - 1] == s[1..i];
      RemoveFirstAt(s[1..], x, i - 1);
      assert s[..i] == [s[0]] + s[1..i];
      assert s[i + 1..] == s[1..][i..];
    }
  }

  /** A row that is in the selection has a first occurrence. */
  lemma {:induction false} FirstOccurrence<T>(s: seq<T>, x: T) returns (i: nat)
    requires x in s
    ensures i < |s| && s[i] == x && x !in s[..i]
  {
    if s[0] == x {
      i := 0;
    } else {
      var j := FirstOccurrence(s[1..], x);
      i := j + 1;
      assert s[..i] == [s[0]] + s[1..][..j];
    }
  }

  /** Unchecking a row that is not selected leaves the selection as it was. */
  lemma {:induction false} RemoveFirstAbsent<T>(s: seq<T>, x: T)
    requires x !in s
    ensures RemoveFirst(s, x) == s
  {
    if s != [] {
      assert x !in s[1..];
      RemoveFirstAbsent(s[1..], x);
    }
  }

  /** Unchecking takes exactly one copy of the row out of the selection, if any. */
  lemma {:induction false} RemoveFirstMultiset<T>(s: seq<T>, x: T)
    ensures multiset(RemoveFirst(s, x)) == multiset(s) - multiset{x}
  {
    if s != [] {
      assert s == [s[0]] + s[1..];
      RemoveFirstMultiset(s[1..], x);
    }
  }

  /** A check appends the row at the end and leaves every earlier row in place. */
  lemma CheckAppends<T>(s: seq<T>, x: T)
    ensures |Toggled(s, x, true)| == |s| + 1
    ensures Toggled(s, x, true)[..|s|] == s && Toggled(s, x, true)[|s|] == x
  {
  }

  /** An uncheck of a selected row shortens the selection by one and keeps the other
      rows in their relative order. */
  lemma UncheckRemovesOne<T>(s: seq<T>, x: T)
    requires x in s
    ensures exists i :: (0 <= i < |s| && s[i] == x && x !in s[..i]
                         && Toggled(s, x, false) == s[..i] + s[i + 1..])
    ensures |Toggled(s, x, false)| == |s| - 1
  {
    var i := FirstOccurrence(s, x);
    RemoveFirstAt(s, x, i);
  }

  /** Checking a row that was not selected and then unchecking it restores the
      selection exactly. */
  lemma CheckThenUncheck<T>(s: seq<T>, x: T)
    requires x !in s
    ensures Toggled(Toggled(s, x, true), x, false) == s
  {
    var t := s + [x];
    assert t[..|s|] == s;
    RemoveFirstAt(t, x, |s|);
    assert t[|s| + 1..] == [];
  }

  /** Whatever the selection held, checking then unchecking a row restores how many
      times each row is selected. */
  lemma CheckThenUncheckMultiset<T>(s: seq<T>, x: T)
    ensures multiset(Toggled(Toggled(s, x, true), x, false)) == multiset(s)
  {
    RemoveFirstMultiset(s + [x], x);
  }

  /** Without the precondition the order is not restored: checking an already
      selected row and unchecking it removes the earlier copy, not the new one. */
  lemma CheckThenUncheckReorders<T>(a: T, b: T)
    requires a != b
    ensures Toggled(Toggled([a, b], a, true), a, false) == [b, a]
  {
    RemoveFirstAt([a, b, a], a, 0);
  }
}
