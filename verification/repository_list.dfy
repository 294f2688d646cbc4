/** The list operations behind the repository list: membership-guarded
    append and Python's `list.remove`, which deletes the first occurrence. */
module RepositoryList {

  /** No entry occurs twice: the set-like shape that adding only absent URLs keeps. */
  predicate NoDuplicates<T(==)>(s: seq<T>) {
    forall i, j :: 0 <= i < j < |s| ==> s[i] != s[j]
  }

  /** The position of the first occurrence of `x`. */
  function IndexOf<T(==)>(s: seq<T>, x: T): (i: nat)
    requires x in s
    ensures i < |s| && s[i] == x
    ensures x !in s[..i]
  {
    if s[0] == x then 0 else 1 + IndexOf(s[1..], x)
  }

  /** `list.remove(x)` without the ValueError: the first occurrence of `x`
      is deleted, a list without `x` is returned as it is. */
  function RemoveFirst<T(==)>(s: seq<T>, x: T): (r: seq<T>)
    ensures x !in s ==> r == s
    ensures x in s ==> |r| == |s| - 1
    ensures multiset(r) == multiset(s) - multiset{x}
  {
    if |s| == 0 then s
    else
      assert s == [s[0]] + s[1..];
      if s[0] == x then s[1..]
      else [s[0]] + RemoveFirst(s[1..], x)
  }

  /** Removing keeps every other entry in order: when `i` is the position of
      the first occurrence of `x`, the result is the list with exactly that
      position cut out. */
  lemma {:induction false} RemoveFirstIsSplice<T>(s: seq<T>, x: T, i: nat)
    requires i < |s| && s[i] == x && x !in s[..i]
    ensures RemoveFirst(s, x) == s[..i] + s[i + 1..]
  {
    if i > 0 {
      var tail := s[1..];
      assert s[..i] == [s[0]] + tail[..i - 1];
      RemoveFirstIsSplice(tail, x, i - 1);
      assert tail[i..] == s[i + 1..];
    }
  }

  /** Removing an entry that was just appended to a list without it gives the list back. */
  lemma {:induction false} RemoveFirstUndoesAppend<T>(s: seq<T>, x: T)
    requires x !in s
    ensures RemoveFirst(s + [x], x) == s
  {
    if |s| > 0 {
      assert (s + [x])[1..] == s[1..] + [x];
      RemoveFirstUndoesAppend(s[1..], x);
    }
  }

  /** Appending an absent entry keeps the list free of duplicates and puts
      exactly one copy of it in the list. */
  lemma AppendAbsentKeepsNoDuplicates<T>(s: seq<T>, x: T)
    requires NoDuplicates(s) && x !in s
    ensures NoDuplicates(s + [x])
    ensures multiset(s + [x])[x] == 1
  {
  }

  /** In a list without duplicates an entry that is present occurs once. */
  lemma {:induction false} PresentOccursOnce<T>(s: seq<T>, x: T)
    requires NoDuplicates(s) && x in s
    ensures multiset(s)[x] == 1
  {
    if s[0] == x {
      assert x !in s[1..];
      assert s == [s[0]] + s[1..];
    } else {
      PresentOccursOnce(s[1..], x);
      assert s == [s[0]] + s[1..];
    }
  }

  /** Prepending an entry absent from a list without duplicates keeps it so. */
  lemma ConsKeepsNoDuplicates<T>(a: T, t: seq<T>)
    requires NoDuplicates(t) && a !in t
    ensures NoDuplicates([a] + t)
  {
  }

  /** Removing from a list without duplicates keeps it so, and leaves no copy
      of the removed entry behind. */
  lemma {:induction false} RemoveFirstKeepsNoDuplicates<T>(s: seq<T>, x: T)
    requires NoDuplicates(s)
    ensures NoDuplicates(RemoveFirst(s, x))
    ensures x !in RemoveFirst(s, x)
  {
    if |s| > 0 {
      var tail := s[1..];
      assert NoDuplicates(tail) by {
        forall i, j | 0 <= i < j < |tail|
          ensures tail[i] != tail[j]
        {
          assert tail[i] == s[i + 1] && tail[j] == s[j + 1];
        }
      }
      assert s[0] !in tail by {
        forall j | 0 <= j < |tail|
          ensures tail[j] != s[0]
        {
          assert tail[j] == s[j + 1];
        }
      }
      if s[0] != x {
        RemoveFirstKeepsNoDuplicates(tail, x);
        var rest := RemoveFirst(tail, x);
        assert s[0] !in rest by {
          assert multiset(rest)[s[0]] <= multiset(tail)[s[0]];
        }
        ConsKeepsNoDuplicates(s[0], rest);
      }
    }
  }
}
