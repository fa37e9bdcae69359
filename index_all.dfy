/** `index_all(l, n)`: every position at which `n` occurs in `l`.

    The source serves two uses with one function: over a list it finds the
    elements equal to `n`, over a string the start positions of the
    substring `n`. Both are a search for a needle sequence in a haystack
    sequence: an element search is a search for the one-element needle
    `[n]` (lemma OccursAtSingle). */
module IndexAll {
  import opened Base

  /** `n` starts at position `i` of `l`. */
  predicate OccursAt<T(==)>(l: seq<T>, n: seq<T>, i: int)
  {
    0 <= i && i + |n| <= |l| && l[i..i + |n|] == n
  }

  lemma OccursAtSingle<T>(l: seq<T>, x: T, i: int)
    ensures OccursAt(l, [x], i) <==> 0 <= i < |l| && l[i] == x
  {
    if 0 <= i < |l| {
      assert l[i..i + 1] == [l[i]];
    }
  }

  /** `from + l[from:].index(n)`: the first start of `n` at or after
      `from`, or None where Python raises ValueError. */
  function FindFrom<T(==)>(l: seq<T>, n: seq<T>, from: nat): Option<nat>
    requires |n| > 0
    decreases |l| - from
  {
    if from + |n| > |l| then None
    else if l[from..from + |n|] == n then Some(from)
    else FindFrom(l, n, from + 1)
  }

  /** The search finds the first start at or after `from`, and finds
      nothing only when there is none. */
  lemma {:induction false} FindFromSpec<T>(l: seq<T>, n: seq<T>, from: nat)
    requires |n| > 0
    ensures var r := FindFrom(l, n, from);
      && (r.Some? ==> from <= r.value && OccursAt(l, n, r.value))
      && (r.Some? ==> forall k :: from <= k < r.value ==> !OccursAt(l, n, k))
      && (r.None? ==> forall k :: from <= k ==> !OccursAt(l, n, k))
    decreases |l| - from
  {
    if from + |n| <= |l| && l[from..from + |n|] != n {
      FindFromSpec(l, n, from + 1);
    }
  }

  /** The starts of `n` in `l` at or after `from`, found as index_all finds
      them: the first one, then the rest from one position past it. */
  function Occurrences<T(==)>(l: seq<T>, n: seq<T>, from: nat): seq<nat>
    requires |n| > 0
    decreases |l| + 1 - from
  {
    match FindFrom(l, n, from)
    case None => []
    case Some(i) => FindFromSpec(l, n, from); [i] + Occurrences(l, n, i + 1)
  }

  /** The positions found are strictly increasing and are exactly the
      starts of `n` at or after `from`: none is missed, overlapping ones
      included. */
  lemma {:induction false} OccurrencesExact<T>(l: seq<T>, n: seq<T>, from: nat)
    requires |n| > 0
    ensures StrictlyIncreasing(Occurrences(l, n, from))
    ensures forall i :: i in Occurrences(l, n, from) <==> from <= i && OccursAt(l, n, i)
    decreases |l| + 1 - from
  {
    var hit := FindFrom(l, n, from);
    FindFromSpec(l, n, from);
    if hit.Some? {
      var h := hit.value;
      var rest := Occurrences(l, n, h + 1);
      OccurrencesExact(l, n, h + 1);
      assert Occurrences(l, n, from) == [h] + rest;
      ConsIncreasing(h, rest);
    }
  }

  /** A list stays strictly increasing behind an entry below all of it. */
  lemma ConsIncreasing(h: int, rest: seq<int>)
    requires StrictlyIncreasing(rest) && forall x :: x in rest ==> h < x
    ensures StrictlyIncreasing([h] + rest)
  {
    forall a, b | 0 <= a < b < 1 + |rest| ensures ([h] + rest)[a] < ([h] + rest)[b] {
      assert ([h] + rest)[b] == rest[b - 1];
      if a > 0 {
        assert ([h] + rest)[a] == rest[a - 1];
      } else {
        assert rest[b - 1] in rest;
      }
    }
  }

  /** An element search: exactly the indices holding `x`, in increasing
      order. */
  lemma ElementOccurrences<T>(l: seq<T>, x: T)
    ensures StrictlyIncreasing(Occurrences(l, [x], 0))
    ensures forall i :: i in Occurrences(l, [x], 0) <==> 0 <= i < |l| && l[i] == x
  {
    OccurrencesExact(l, [x], 0);
    forall i ensures OccursAt(l, [x], i) <==> 0 <= i < |l| && l[i] == x {
      OccursAtSingle(l, x, i);
    }
  }

  lemma CountFromFirst<T>(l: seq<T>, x: T, from: nat, i: nat)
    requires from <= i < |l| && l[i] == x
    requires forall k :: from <= k < i ==> l[k] != x
    ensures Count(l[from..], x) == 1 + Count(l[i + 1..], x)
  {
    var before, after := l[from..i], l[i + 1..];
    assert x !in before;
    CountZero(before, x);
    assert l[from..] == (before + [x]) + after;
    CountAppend(before + [x], after, x);
    CountAppend(before, [x], x);
    assert [x][1..] == [];
  }

  /** An element search finds `l[from:].count(x)` positions. */
  lemma {:induction false} OccurrencesCount<T>(l: seq<T>, x: T, from: nat)
    requires from <= |l|
    ensures |Occurrences(l, [x], from)| == Count(l[from..], x)
    decreases |l| - from
  {
    var hit := FindFrom(l, [x], from);
    FindFromSpec(l, [x], from);
    if hit.None? {
      forall k | from <= k < |l| ensures l[k] != x {
        OccursAtSingle(l, x, k);
      }
      assert x !in l[from..];
      CountZero(l[from..], x);
    } else {
      var i := hit.value;
      OccursAtSingle(l, x, i);
      forall k | from <= k < i ensures l[k] != x {
        OccursAtSingle(l, x, k);
      }
      CountFromFirst(l, x, from, i);
      OccurrencesCount(l, x, i + 1);
      assert Occurrences(l, [x], from) == [i] + Occurrences(l, [x], i + 1);
    }
  }

  /** `done` followed by the starts at or after `from` are all the
      starts: the loop invariant of index_all. */
  predicate Collected<T(==)>(l: seq<T>, n: seq<T>, done: seq<nat>, from: nat)
    requires |n| > 0
  {
    done + Occurrences(l, n, from) == Occurrences(l, n, 0)
  }

  /** Recording a hit and resuming one past it keeps the invariant. */
  lemma CollectStep<T>(l: seq<T>, n: seq<T>, done: seq<nat>, from: nat, done': seq<nat>, from': nat)
    requires |n| > 0 && Collected(l, n, done, from) && FindFrom(l, n, from).Some?
    requires from' == FindFrom(l, n, from).value + 1 && done' == done + [from' - 1]
    ensures from < from' <= |l| + 1 && Collected(l, n, done', from')
  {
    var h := FindFrom(l, n, from).value;
    FindFromSpec(l, n, from);
    assert Occurrences(l, n, from) == [h] + Occurrences(l, n, h + 1);
    assert done + Occurrences(l, n, from) == (done + [h]) + Occurrences(l, n, h + 1);
  }

  /** With no hit left, what has been recorded is all of it. */
  lemma CollectDone<T>(l: seq<T>, n: seq<T>, done: seq<nat>, from: nat)
    requires |n| > 0 && Collected(l, n, done, from) && FindFrom(l, n, from).None?
    ensures done == Occurrences(l, n, 0)
  {
    assert Occurrences(l, n, from) == [];
    assert done + [] == done;
  }

  /** index_all: repeatedly search the rest of `l` and resume one position
      past each hit, so overlapping occurrences are all reported. */
  method IndexAll<T(==)>(l: seq<T>, n: seq<T>) returns (allindex: seq<nat>)
    requires |n| > 0
    ensures allindex == Occurrences(l, n, 0)
    ensures StrictlyIncreasing(allindex)
    ensures forall i :: i in allindex <==> OccursAt(l, n, i)
  {
    var indototal: nat := 0;
    allindex := [];
    while true
      invariant indototal <= |l| + 1
      invariant Collected(l, n, allindex, indototal)
      decreases |l| + 1 - indototal
    {
      var hit := FindFrom(l, n, indototal);
      if hit.None? {
        CollectDone(l, n, allindex, indototal);
        break;
      }
      ghost var done, from := allindex, indototal;
      var indno := hit.value - indototal;
      indototal := indototal + indno + 1;
      allindex := allindex + [indototal - 1];
      CollectStep(l, n, done, from, allindex, indototal);
    }
    OccurrencesExact(l, n, 0);
  }
}
