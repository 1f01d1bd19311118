/** The sort that orders events before they are folded: a stable ascending sort
    on `event.start.unix()`, done in place on the caller's array. */
module EventSort {
  import opened CalendarEvents

  /** The sort accessor: the event's start in whole seconds. */
  function StartKey(e: CalendarEvent): int {
    UnixSeconds(e.start)
  }

  predicate SortedByStart(s: seq<CalendarEvent>) {
    forall i, j :: 0 <= i < j < |s| ==> StartKey(s[i]) <= StartKey(s[j])
  }

  /** Inserts `e` after every element whose key is at most `e`'s key. */
  function Insert(e: CalendarEvent, s: seq<CalendarEvent>): (r: seq<CalendarEvent>)
    ensures |r| == |s| + 1
    ensures multiset(r) == multiset(s) + multiset{e}
  {
    if s == [] then [e]
    else if StartKey(e) < StartKey(s[0]) then [e] + s
    else
      assert s == [s[0]] + s[1..];
      [s[0]] + Insert(e, s[1..])
  }

  /** Inserting keeps a sorted sequence sorted. */
  lemma {:induction false} InsertSorted(e: CalendarEvent, s: seq<CalendarEvent>)
    ensures SortedByStart(s) ==> SortedByStart(Insert(e, s))
  {
    if s != [] && SortedByStart(s) && StartKey(s[0]) <= StartKey(e) {
      var t := Insert(e, s[1..]);
      assert SortedByStart(s[1..]);
      InsertSorted(e, s[1..]);
      assert multiset(t) == multiset(s[1..]) + multiset{e};
      forall i | 0 <= i < |t|
        ensures StartKey(s[0]) <= StartKey(t[i])
      {
        assert t[i] in multiset(t);
        assert t[i] in multiset(s[1..]) || t[i] == e;
      }
    }
  }

  /** The stable ascending sort by start: each element in turn is inserted
      after the already sorted ones with an equal or smaller key. */
  function SortByStart(s: seq<CalendarEvent>): (r: seq<CalendarEvent>)
    ensures |r| == |s|
    ensures multiset(r) == multiset(s)
    ensures SortedByStart(r)
  {
    if s == [] then []
    else
      assert s == s[..|s| - 1] + [s[|s| - 1]];
      InsertSorted(s[|s| - 1], SortByStart(s[..|s| - 1]));
      Insert(s[|s| - 1], SortByStart(s[..|s| - 1]))
  }

  /** The subsequence of `s` whose sort key is `k`, in the order of `s`. */
  function WithKey(s: seq<CalendarEvent>, k: int): seq<CalendarEvent> {
    if s == [] then []
    else WithKey(s[..|s| - 1], k) + (if StartKey(s[|s| - 1]) == k then [s[|s| - 1]] else [])
  }

  lemma {:induction false} WithKeyAppend(a: seq<CalendarEvent>, b: seq<CalendarEvent>, k: int)
    ensures WithKey(a + b, k) == WithKey(a, k) + WithKey(b, k)
    decreases |b|
  {
    if b == [] {
      assert a + b == a;
    } else {
      var b' := b[..|b| - 1];
      assert (a + b)[..|a + b| - 1] == a + b';
      WithKeyAppend(a, b', k);
    }
  }

  lemma {:induction false} WithKeyAbsent(s: seq<CalendarEvent>, k: int)
    requires forall i :: 0 <= i < |s| ==> StartKey(s[i]) != k
    ensures WithKey(s, k) == []
  {
    if s != [] {
      WithKeyAbsent(s[..|s| - 1], k);
    }
  }

  /** Inserting into a sorted sequence places `e` after every element with the
      same key. */
  lemma {:induction false} InsertStable(e: CalendarEvent, s: seq<CalendarEvent>, k: int)
    requires SortedByStart(s)
    ensures WithKey(Insert(e, s), k) == WithKey(s, k) + (if StartKey(e) == k then [e] else [])
  {
    WithKeySingle(e, k);
    if s == [] {
      assert Insert(e, s) == [e];
    } else if StartKey(e) < StartKey(s[0]) {
      InsertStableFront(e, s, k);
    } else {
      SortedTail(s);
      InsertStable(e, s[1..], k);
      InsertStableStep(e, s, k);
    }
  }

  lemma WithKeySingle(e: CalendarEvent, k: int)
    ensures WithKey([e], k) == (if StartKey(e) == k then [e] else [])
  {
    assert [e][..0] == [];
  }

  lemma SortedTail(s: seq<CalendarEvent>)
    requires s != [] && SortedByStart(s)
    ensures SortedByStart(s[1..])
  {
  }

  lemma InsertStableFront(e: CalendarEvent, s: seq<CalendarEvent>, k: int)
    requires SortedByStart(s) && s != [] && StartKey(e) < StartKey(s[0])
    requires WithKey([e], k) == (if StartKey(e) == k then [e] else [])
    ensures WithKey(Insert(e, s), k) == WithKey(s, k) + (if StartKey(e) == k then [e] else [])
  {
    assert Insert(e, s) == [e] + s;
    WithKeyAppend([e], s, k);
    if StartKey(e) == k {
      WithKeyAbsent(s, k);
    }
  }

  lemma InsertStableStep(e: CalendarEvent, s: seq<CalendarEvent>, k: int)
    requires s != [] && StartKey(s[0]) <= StartKey(e)
    requires WithKey(Insert(e, s[1..]), k) == WithKey(s[1..], k) + (if StartKey(e) == k then [e] else [])
    ensures WithKey(Insert(e, s), k) == WithKey(s, k) + (if StartKey(e) == k then [e] else [])
  {
    var rest := Insert(e, s[1..]);
    assert Insert(e, s) == [s[0]] + rest;
    WithKeyAppend([s[0]], rest, k);
    WithKeyAppend([s[0]], s[1..], k);
    assert s == [s[0]] + s[1..];
  }

  /** The sort is stable: for every key, the events with that key keep their
      input order. Together with the postconditions of SortByStart this fixes
      the result uniquely. */
  lemma {:induction false} SortByStartStable(s: seq<CalendarEvent>, k: int)
    ensures WithKey(SortByStart(s), k) == WithKey(s, k)
  {
    if s != [] {
      SortByStartStable(s[..|s| - 1], k);
      InsertStable(s[|s| - 1], SortByStart(s[..|s| - 1]), k);
    }
  }

  /** An input that is already in start order is left as it is. */
  lemma {:induction false} SortByStartOfSorted(s: seq<CalendarEvent>)
    requires SortedByStart(s)
    ensures SortByStart(s) == s
  {
    if s != [] {
      var init, last := s[..|s| - 1], s[|s| - 1];
      assert SortedByStart(init);
      SortByStartOfSorted(init);
      assert SortByStart(s) == Insert(last, init);
      assert forall k :: 0 <= k < |init| ==> StartKey(init[k]) <= StartKey(last) by {
        assert forall k :: 0 <= k < |init| ==> init[k] == s[k];
      }
      InsertAt(last, init, |init|);
      assert init[..|init|] + [last] + init[|init|..] == s;
    }
  }

  /** Where the insertion lands: after the first `j` elements when those have
      keys at most `e`'s and the rest have larger keys. */
  lemma {:induction false} InsertAt(e: CalendarEvent, s: seq<CalendarEvent>, j: int)
    requires 0 <= j <= |s|
    requires forall k :: 0 <= k < j ==> StartKey(s[k]) <= StartKey(e)
    requires forall k :: j <= k < |s| ==> StartKey(e) < StartKey(s[k])
    ensures Insert(e, s) == s[..j] + [e] + s[j..]
  {
    if j == 0 {
      InsertAtFront(e, s);
    } else {
      var t := s[1..];
      forall k | 0 <= k < j - 1
        ensures StartKey(t[k]) <= StartKey(e)
      {
        assert t[k] == s[k + 1];
      }
      forall k | j - 1 <= k < |t|
        ensures StartKey(e) < StartKey(t[k])
      {
        assert t[k] == s[k + 1];
      }
      InsertAt(e, t, j - 1);
      InsertAtStep(e, s, j);
    }
  }

  /** A key smaller than every key in `s` goes in front. */
  lemma InsertAtFront(e: CalendarEvent, s: seq<CalendarEvent>)
    requires forall k :: 0 <= k < |s| ==> StartKey(e) < StartKey(s[k])
    ensures Insert(e, s) == s[..0] + [e] + s[0..]
  {
    assert s[..0] == [] && s[0..] == s;
  }

  /** One step of `InsertAt`: a head with key at most `e`'s stays in front. */
  lemma InsertAtStep(e: CalendarEvent, s: seq<CalendarEvent>, j: int)
    requires 0 < j <= |s|
    requires StartKey(s[0]) <= StartKey(e)
    requires Insert(e, s[1..]) == s[1..][..j - 1] + [e] + s[1..][j - 1..]
    ensures Insert(e, s) == s[..j] + [e] + s[j..]
  {
    var t := s[1..];
    assert Insert(e, s) == [s[0]] + Insert(e, t);
    assert s[..j] == [s[0]] + t[..j - 1] by {
      assert s[..j] == [s[0]] + s[..j][1..];
      assert s[..j][1..] == t[..j - 1];
    }
    assert s[j..] == t[j - 1..];
    calc {
      Insert(e, s);
      [s[0]] + (t[..j - 1] + [e] + t[j - 1..]);
      ([s[0]] + t[..j - 1]) + [e] + t[j - 1..];
    }
  }

  /** `events.sort(sortByAccessor((x) => x.start.unix()))`: an insertion sort
      that moves each event left past the ones with a larger key. */
  method SortInPlace(a: array<CalendarEvent>)
    modifies a
    ensures a[..] == SortByStart(old(a[..]))
  {
    ghost var orig := a[..];
    var i := 0;
    while i < a.Length
      invariant 0 <= i <= a.Length
      invariant a[..i] == SortByStart(orig[..i])
      invariant a[i..] == orig[i..]
    {
      SortByStartSnoc(orig, i);
      assert a[i] == orig[i] && a[i + 1..] == orig[i + 1..] by {
        assert a[i..][0] == a[i] && a[i..][1..] == a[i + 1..];
      }
      InsertLast(a, i);
      i := i + 1;
    }
    assert orig[..a.Length] == orig;
  }

  /** Sorting one more element of `s` inserts it into the sorted prefix. */
  lemma SortByStartSnoc(s: seq<CalendarEvent>, i: int)
    requires 0 <= i < |s|
    ensures SortByStart(s[..i + 1]) == Insert(s[i], SortByStart(s[..i]))
  {
    assert s[..i + 1][..i] == s[..i];
  }

  /** One pass of the insertion sort: the event at index `i` is moved left
      into the sorted prefix `a[..i]`, past every event with a larger key. */
  method InsertLast(a: array<CalendarEvent>, i: int)
    requires 0 <= i < a.Length
    requires SortedByStart(a[..i])
    modifies a
    ensures a[..i + 1] == Insert(old(a[i]), old(a[..i]))
    ensures a[i + 1..] == old(a[i + 1..])
  {
    var x := a[i];
    ghost var sorted := a[..i];
    var j := i;
    while j > 0 && StartKey(x) < StartKey(a[j - 1])
      invariant 0 <= j <= i
      invariant forall k :: 0 <= k < j ==> a[k] == sorted[k]
      invariant forall k :: j < k <= i ==> a[k] == sorted[k - 1]
      invariant forall k :: j <= k < i ==> StartKey(x) < StartKey(sorted[k])
      invariant a[i + 1..] == old(a[i + 1..])
    {
      a[j] := a[j - 1];
      j := j - 1;
    }
    a[j] := x;
    ShiftedIsInsert(x, sorted, j, a[..i + 1]);
  }

  /** The array after `InsertLast`'s loop, read as a sequence: the sorted prefix
      with `x` placed after the keys at most its own. */
  lemma ShiftedIsInsert(x: CalendarEvent, sorted: seq<CalendarEvent>, j: int, b: seq<CalendarEvent>)
    requires SortedByStart(sorted)
    requires 0 <= j <= |sorted| && |b| == |sorted| + 1
    requires forall k :: 0 <= k < j ==> b[k] == sorted[k]
    requires b[j] == x
    requires forall k :: j < k < |b| ==> b[k] == sorted[k - 1]
    requires forall k :: j <= k < |sorted| ==> StartKey(x) < StartKey(sorted[k])
    requires j > 0 ==> StartKey(sorted[j - 1]) <= StartKey(x)
    ensures b == Insert(x, sorted)
  {
    var inserted := sorted[..j] + [x] + sorted[j..];
    forall k | 0 <= k < |b|
      ensures b[k] == inserted[k]
    {
      if k < j {
        assert inserted[k] == sorted[k];
      } else if k > j {
        assert inserted[k] == sorted[k - 1];
      }
    }
    forall k | 0 <= k < j
      ensures StartKey(sorted[k]) <= StartKey(x)
    {
      assert StartKey(sorted[k]) <= StartKey(sorted[j - 1]);
    }
    InsertAt(x, sorted, j);
  }
}
