/** Sequence operations that mirror java.util.List behaviour used by the transport. */
module Seqs {

  /** Index of the first element equal to `x`, or `|s|` when there is none (List.indexOf). */
  function IndexOf<T(==)>(s: seq<T>, x: T): (i: nat)
    ensures i <= |s|
    ensures i < |s| <==> x in s
    ensures i < |s| ==> s[i] == x
    ensures forall j :: 0 <= j < i ==> s[j] != x
  {
    if |s| == 0 then 0 else if s[0] == x then 0 else 1 + IndexOf(s[1..], x)
  }

  /**
   * List.remove(Object): drops the first element equal to `x` and keeps the
   * order of the rest; the list is unchanged when `x` does not occur.
   */
  function RemoveFirst<T(==)>(s: seq<T>, x: T): (r: seq<T>)
    ensures x !in s ==> r == s
    ensures x in s ==> r == s[..IndexOf(s, x)] + s[IndexOf(s, x) + 1..]
  {
    if |s| == 0 then []
    else if s[0] == x then s[1..]
    else
      var rest := RemoveFirst(s[1..], x);
      ghost var k := IndexOf(s[1..], x);
      assert x in s ==> x in s[1..] && IndexOf(s, x) == k + 1;
      assert x in s ==> s[..k + 1] == [s[0]] + s[1..][..k] && s[k + 2..] == s[1..][k + 1..];
      [s[0]] + rest
  }

  /** Removing an element that occurs shortens the list by exactly one. */
  lemma RemoveFirstLength<T>(s: seq<T>, x: T)
    ensures |RemoveFirst(s, x)| == if x in s then |s| - 1 else |s|
  {
  }

  /** List.remove(Object) takes away exactly one occurrence of `x`, when there is one, and nothing else. */
  lemma {:induction false} RemoveFirstMultiset<T>(s: seq<T>, x: T)
    ensures multiset(RemoveFirst(s, x)) == if x in s then multiset(s) - multiset{x} else multiset(s)
    decreases |s|
  {
    if |s| > 0 {
      assert s == [s[0]] + s[1..];
      RemoveFirstCons(s[0], s[1..], x);
      if s[0] != x {
        RemoveFirstMultiset(s[1..], x);
      }
    }
  }

  /** No element occurs twice. */
  predicate Distinct<T(==)>(s: seq<T>)
  {
    forall i, j :: 0 <= i < j < |s| ==> s[i] != s[j]
  }

  /** The elements `s[i]` with `keep[i]` set, in their original order. */
  function Select<T>(s: seq<T>, keep: seq<bool>): (r: seq<T>)
    requires |keep| == |s|
    ensures |r| <= |s|
  {
    if |s| == 0 then [] else (if keep[0] then [s[0]] else []) + Select(s[1..], keep[1..])
  }

  /** Number of set flags. */
  function CountTrue(flags: seq<bool>): (n: nat)
    ensures n <= |flags|
  {
    if |flags| == 0 then 0 else (if flags[0] then 1 else 0) + CountTrue(flags[1..])
  }

  /** A selection holds as many elements as there are set flags. */
  lemma {:induction false} SelectLength<T>(s: seq<T>, keep: seq<bool>)
    requires |keep| == |s|
    ensures |Select(s, keep)| == CountTrue(keep)
    decreases |s|
  {
    if |s| > 0 {
      SelectLength(s[1..], keep[1..]);
    }
  }

  /** Every selected element comes from the list. */
  lemma {:induction false} SelectSubset<T>(s: seq<T>, keep: seq<bool>, x: T)
    requires |keep| == |s|
    ensures x in Select(s, keep) ==> x in s
    decreases |s|
  {
    if |s| > 0 {
      SelectSubset(s[1..], keep[1..], x);
    }
  }

  /** In a list without duplicates, an element is selected exactly when its flag is set. */
  lemma {:induction false} SelectMembership<T>(s: seq<T>, keep: seq<bool>, i: nat)
    requires |keep| == |s| && Distinct(s) && i < |s|
    ensures s[i] in Select(s, keep) <==> keep[i]
    decreases |s|
  {
    if i == 0 {
      SelectSubset(s[1..], keep[1..], s[0]);
    } else {
      SelectMembership(s[1..], keep[1..], i - 1);
      assert s[1..][i - 1] == s[i];
    }
  }

  /** Selecting from a list without duplicates gives a list without duplicates. */
  lemma {:induction false} SelectDistinct<T>(s: seq<T>, keep: seq<bool>)
    requires |keep| == |s| && Distinct(s)
    ensures Distinct(Select(s, keep))
    decreases |s|
  {
    if |s| > 0 {
      SelectDistinct(s[1..], keep[1..]);
      SelectSubset(s[1..], keep[1..], s[0]);
    }
  }

  /** Selecting with every flag set gives the whole list. */
  lemma {:induction false} SelectAll<T>(s: seq<T>, keep: seq<bool>)
    requires |keep| == |s| && forall j :: 0 <= j < |keep| ==> keep[j]
    ensures Select(s, keep) == s
    decreases |s|
  {
    if |s| > 0 {
      SelectAll(s[1..], keep[1..]);
    }
  }

  /** Selecting with no flag set gives the empty list. */
  lemma {:induction false} SelectNone<T>(s: seq<T>, keep: seq<bool>)
    requires |keep| == |s| && forall j :: 0 <= j < |keep| ==> !keep[j]
    ensures Select(s, keep) == []
    decreases |s|
  {
    if |s| > 0 {
      SelectNone(s[1..], keep[1..]);
    }
  }

  /** List.remove(Object) on a list with a known head. */
  lemma RemoveFirstCons<T>(x: T, r: seq<T>, y: T)
    ensures RemoveFirst([x] + r, y) == if x == y then r else [x] + RemoveFirst(r, y)
  {
    assert ([x] + r)[0] == x && ([x] + r)[1..] == r;
  }

  /**
   * In a list without duplicates, List.remove(Object) of a selected element
   * is the selection with that element's flag cleared.
   */
  lemma {:induction false} SelectClear<T>(s: seq<T>, keep: seq<bool>, i: nat)
    requires |keep| == |s| && Distinct(s) && i < |s| && keep[i]
    ensures RemoveFirst(Select(s, keep), s[i]) == Select(s, keep[i := false])
    decreases |s|
  {
    var cleared := keep[i := false];
    var rest := Select(s[1..], keep[1..]);
    assert Select(s, keep) == (if keep[0] then [s[0]] else []) + rest;
    if i == 0 {
      assert cleared[1..] == keep[1..];
      assert Select(s, cleared) == rest;
      RemoveFirstCons(s[0], rest, s[0]);
    } else {
      assert s[1..][i - 1] == s[i] && s[0] != s[i];
      assert keep[1..][i - 1 := false] == cleared[1..];
      assert Distinct(s[1..]);
      SelectClear(s[1..], keep[1..], i - 1);
      assert Select(s, cleared) == (if keep[0] then [s[0]] else []) + Select(s[1..], cleared[1..]);
      if keep[0] {
        RemoveFirstCons(s[0], rest, s[i]);
      } else {
        assert Select(s, keep) == rest;
      }
    }
  }

  /**
   * Setting the flag of an element after every selected one appends that
   * element to the selection.
   */
  lemma {:induction false} SelectSetLast<T>(s: seq<T>, keep: seq<bool>, i: nat)
    requires |keep| == |s| && i < |s| && forall j :: i <= j < |s| ==> !keep[j]
    ensures Select(s, keep[i := true]) == Select(s, keep) + [s[i]]
    decreases |s|
  {
    var set1 := keep[i := true];
    if i == 0 {
      SelectNone(s[1..], keep[1..]);
      assert set1[1..] == keep[1..];
      assert Select(s, set1) == [s[0]] + Select(s[1..], set1[1..]);
      assert Select(s, keep) == Select(s[1..], keep[1..]);
    } else {
      assert s[1..][i - 1] == s[i];
      assert keep[1..][i - 1 := true] == set1[1..] && set1[0] == keep[0];
      SelectSetLast(s[1..], keep[1..], i - 1);
      var head := if keep[0] then [s[0]] else [];
      assert Select(s, set1) == head + Select(s[1..], set1[1..]);
      assert Select(s, keep) == head + Select(s[1..], keep[1..]);
    }
  }
}
