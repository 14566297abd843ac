/**
 * `sortedBreakpoints`: the breakpoint names ordered by their pixel values with
 * the three-way comparator of Breaky.tsx. `Array.prototype.sort` is stable
 * (ECMA-262, section 23.1.3.30), so names with equal values keep their
 * `Object.keys` order. The order is specified by a functional insertion sort,
 * `StableSort`, and computed in place by `SortByThreshold`.
 */
module Sorting {

  /** Every name of `s` has a pixel value in the table. */
  predicate Keyed(s: seq<string>, value: map<string, nat>) {
    forall k :: 0 <= k < |s| ==> s[k] in value
  }

  /** Pixel values never decrease along `s`. */
  predicate Sorted(s: seq<string>, value: map<string, nat>) {
    Keyed(s, value) && forall i, j :: 0 <= i < j < |s| ==> value[s[i]] <= value[s[j]]
  }

  /** The names of `s` whose pixel value is `v`, in the order of `s`. */
  function Filter(s: seq<string>, value: map<string, nat>, v: nat): seq<string>
  {
    if s == [] then []
    else (if s[0] in value && value[s[0]] == v then [s[0]] else []) + Filter(s[1..], value, v)
  }

  /**
   * `s` and `r` hold the same names and every group of equal values appears in
   * the same order in both: `r` is a stable rearrangement of `s`.
   */
  ghost predicate SameGroups(s: seq<string>, r: seq<string>, value: map<string, nat>) {
    forall v: nat :: Filter(r, value, v) == Filter(s, value, v)
  }

  /** Inserts `x` into `t` after every name whose value is not greater than that of `x`. */
  function Insert(t: seq<string>, x: string, value: map<string, nat>): (r: seq<string>)
    requires Keyed(t, value) && x in value
    ensures Keyed(r, value)
  {
    if t == [] then [x]
    else if value[x] < value[t[0]] then [x] + t
    else [t[0]] + Insert(t[1..], x, value)
  }

  /** Insertion sort that takes the names of `s` from left to right. */
  function StableSort(s: seq<string>, value: map<string, nat>): (r: seq<string>)
    requires Keyed(s, value)
    ensures Keyed(r, value)
  {
    if s == [] then []
    else Insert(StableSort(s[..|s| - 1], value), s[|s| - 1], value)
  }

  lemma {:induction false} FilterAppend(a: seq<string>, b: seq<string>, value: map<string, nat>, v: nat)
    ensures Filter(a + b, value, v) == Filter(a, value, v) + Filter(b, value, v)
  {
    if a == [] {
      assert a + b == b;
    } else {
      assert (a + b)[1..] == a[1..] + b;
      FilterAppend(a[1..], b, value, v);
    }
  }

  lemma {:induction false} FilterMembers(s: seq<string>, value: map<string, nat>, v: nat)
    ensures forall y :: y in Filter(s, value, v) ==> y in s && y in value && value[y] == v
  {
    if s != [] {
      FilterMembers(s[1..], value, v);
    }
  }

  /** Keeps `Filter` from unfolding where it is not needed. */
  lemma FilterNone(s: seq<string>, value: map<string, nat>, v: nat)
    requires Keyed(s, value) && forall k :: 0 <= k < |s| ==> value[s[k]] != v
    ensures Filter(s, value, v) == []
  {
    if s != [] {
      FilterNone(s[1..], value, v);
    }
  }

  lemma {:induction false} InsertPermutes(t: seq<string>, x: string, value: map<string, nat>)
    requires Keyed(t, value) && x in value
    ensures multiset(Insert(t, x, value)) == multiset(t) + multiset{x}
  {
    if t != [] && value[x] >= value[t[0]] {
      InsertPermutes(t[1..], x, value);
      assert t == [t[0]] + t[1..];
    }
  }

  lemma {:induction false} InsertSorted(t: seq<string>, x: string, value: map<string, nat>)
    requires Sorted(t, value) && x in value
    ensures Sorted(Insert(t, x, value), value)
  {
    if t != [] && value[x] >= value[t[0]] {
      InsertSorted(t[1..], x, value);
      InsertPermutes(t[1..], x, value);
      var rest := Insert(t[1..], x, value);
      forall k | 0 <= k < |rest| ensures value[t[0]] <= value[rest[k]] {
        assert rest[k] in multiset(t[1..]) + multiset{x} by { assert rest[k] in multiset(rest); }
        if rest[k] != x {
          assert rest[k] in t[1..];
        }
      }
    }
  }

  /** `x` goes in front of `t` when its value is below all of theirs, so it ends its (empty) group in `t`. */
  lemma InsertFrontGroups(t: seq<string>, x: string, value: map<string, nat>, v: nat)
    requires Sorted(t, value) && x in value && t != [] && value[x] < value[t[0]]
    ensures Filter([x] + t, value, v) == Filter(t, value, v) + Filter([x], value, v)
  {
    FilterAppend([x], t, value, v);
    if v == value[x] {
      FilterNone(t, value, v);
    } else {
      assert Filter([x], value, v) == [];
    }
  }

  /** Inserting `x` adds it at the end of its own group and leaves the other groups alone. */
  lemma {:induction false} InsertGroups(t: seq<string>, x: string, value: map<string, nat>, v: nat)
    requires Sorted(t, value) && x in value
    ensures Filter(Insert(t, x, value), value, v) == Filter(t, value, v) + Filter([x], value, v)
  {
    if t == [] {
      assert [x] == [] + [x];
    } else if value[x] < value[t[0]] {
      InsertFrontGroups(t, x, value, v);
    } else {
      var rest := Insert(t[1..], x, value);
      InsertGroups(t[1..], x, value, v);
      FilterAppend([t[0]], t[1..], value, v);
      assert t == [t[0]] + t[1..];
      FilterAppend([t[0]], rest, value, v);
      assert Filter(t, value, v) + Filter([x], value, v)
          == Filter([t[0]], value, v) + (Filter(t[1..], value, v) + Filter([x], value, v));
    }
  }

  /** The sorted order is a permutation of the names, ordered by value, and stable. */
  lemma {:induction false} StableSortCorrect(s: seq<string>, value: map<string, nat>)
    requires Keyed(s, value)
    ensures multiset(StableSort(s, value)) == multiset(s)
    ensures Sorted(StableSort(s, value), value)
    ensures SameGroups(s, StableSort(s, value), value)
  {
    if s != [] {
      var init, last := s[..|s| - 1], s[|s| - 1];
      assert s == init + [last];
      StableSortCorrect(init, value);
      var t := StableSort(init, value);
      assert StableSort(s, value) == Insert(t, last, value);
      assert multiset(StableSort(s, value)) == multiset(s) by {
        InsertPermutes(t, last, value);
      }
      assert Sorted(StableSort(s, value), value) by {
        InsertSorted(t, last, value);
      }
      forall v: nat ensures Filter(StableSort(s, value), value, v) == Filter(s, value, v) {
        InsertGroups(t, last, value, v);
        FilterAppend(init, [last], value, v);
      }
    }
  }

  /** A name of a sorted sequence has a value no smaller than that of its first name. */
  lemma FirstIsLeast(r: seq<string>, value: map<string, nat>, y: string)
    requires Sorted(r, value) && y in r
    ensures value[r[0]] <= value[y]
  {
  }

  /** A sequence with the same groups as the empty sequence is empty. */
  lemma NoGroupsEmpty(r: seq<string>, value: map<string, nat>)
    requires Keyed(r, value) && SameGroups([], r, value)
    ensures r == []
  {
    if r != [] {
      FirstInOwnGroup(r, value);
      assert false;
    }
  }

  /** The first name of a sequence is the first name of its own group. */
  lemma FirstInOwnGroup(r: seq<string>, value: map<string, nat>)
    requires r != [] && r[0] in value
    ensures Filter(r, value, value[r[0]]) != [] && Filter(r, value, value[r[0]])[0] == r[0]
  {
  }

  /** Two nonempty sorted sequences with the same groups start with the same name. */
  lemma SameGroupsSameHead(r1: seq<string>, r2: seq<string>, value: map<string, nat>)
    requires Sorted(r1, value) && Sorted(r2, value) && r1 != [] && r2 != []
    requires SameGroups(r1, r2, value)
    ensures r1[0] == r2[0]
  {
    var k1, k2 := value[r1[0]], value[r2[0]];
    var g1, g2 := Filter(r1, value, k1), Filter(r2, value, k2);
    assert g1[0] == r1[0] && g2[0] == r2[0];
    FilterMembers(r1, value, k2);
    FilterMembers(r2, value, k1);
    var y1, y2 := Filter(r2, value, k1)[0], Filter(r1, value, k2)[0];
    assert y1 in Filter(r2, value, k1) && y2 in Filter(r1, value, k2);
    FirstIsLeast(r2, value, y1);
    FirstIsLeast(r1, value, y2);
  }

  /** Removing the same first name from two sequences with the same groups keeps their groups equal. */
  lemma SameGroupsTails(r1: seq<string>, r2: seq<string>, value: map<string, nat>)
    requires r1 != [] && r2 != [] && r1[0] == r2[0]
    requires SameGroups(r1, r2, value)
    ensures SameGroups(r1[1..], r2[1..], value)
  {
    forall v: nat ensures Filter(r1[1..], value, v) == Filter(r2[1..], value, v) {
      assert Filter(r1, value, v) == Filter(r2, value, v);
      var h := Filter([r1[0]], value, v);
      FilterAppend([r1[0]], r1[1..], value, v);
      assert r1 == [r1[0]] + r1[1..];
      FilterAppend([r2[0]], r2[1..], value, v);
      assert r2 == [r2[0]] + r2[1..];
      assert Filter(r1[1..], value, v) == (h + Filter(r1[1..], value, v))[|h|..];
      assert Filter(r2[1..], value, v) == (h + Filter(r2[1..], value, v))[|h|..];
    }
  }

  /**
   * A sorted stable rearrangement is unique: two sorted sequences with the same
   * groups are equal.
   */
  lemma {:induction false} SameGroupsUnique(r1: seq<string>, r2: seq<string>, value: map<string, nat>)
    requires Sorted(r1, value) && Sorted(r2, value)
    requires SameGroups(r1, r2, value)
    ensures r1 == r2
  {
    if r1 == [] {
      NoGroupsEmpty(r2, value);
    } else if r2 == [] {
      NoGroupsEmpty(r1, value);
    } else {
      SameGroupsSameHead(r1, r2, value);
      SameGroupsTails(r1, r2, value);
      SameGroupsUnique(r1[1..], r2[1..], value);
    }
  }

  /**
   * Any sorted stable rearrangement of the names, whatever algorithm produced it,
   * is the one `StableSort` gives.
   */
  lemma StableSortIsTheStableSort(s: seq<string>, r: seq<string>, value: map<string, nat>)
    requires Keyed(s, value) && Sorted(r, value) && SameGroups(s, r, value)
    ensures r == StableSort(s, value)
  {
    StableSortCorrect(s, value);
    SameGroupsUnique(r, StableSort(s, value), value);
  }

  /** Sorting names that are already in order changes nothing, so sorting twice is sorting once. */
  lemma StableSortIdempotent(s: seq<string>, value: map<string, nat>)
    requires Keyed(s, value)
    ensures Sorted(s, value) ==> StableSort(s, value) == s
    ensures Keyed(StableSort(s, value), value)
    ensures StableSort(StableSort(s, value), value) == StableSort(s, value)
  {
    StableSortCorrect(s, value);
    if Sorted(s, value) {
      StableSortIsTheStableSort(s, s, value);
    }
    StableSortIsTheStableSort(StableSort(s, value), StableSort(s, value), value);
  }

  /** Where the insertion loop stops, `x` is inserted. */
  lemma InsertStop(t: seq<string>, x: string, value: map<string, nat>, j: nat,
                   rest: seq<string>, shifted: seq<string>)
    requires Keyed(t, value) && x in value && j <= |t|
    requires forall k :: 0 <= k < j ==> value[t[k]] <= value[x]
    requires forall k :: j <= k < |t| ==> value[t[k]] > value[x]
    requires j < |shifted| && shifted[..j] == t[..j] && shifted[j + 1..] == t[j..] + rest
    ensures shifted[j := x] == Insert(t, x, value) + rest
  {
    var left, right := t[..j], t[j..];
    assert Insert(t, x, value) == left + [x] + right by {
      InsertAt(t, x, value, j);
    }
    assert shifted[j := x] == left + [x] + (right + rest) by {
      Splice(shifted, j, x, left, right + rest);
    }
    Regroup(left, x, right, rest);
  }

  lemma Regroup(left: seq<string>, x: string, right: seq<string>, rest: seq<string>)
    ensures left + [x] + (right + rest) == left + [x] + right + rest
  {
  }

  /** In a sorted sequence, everything before a name no greater than `x` is no greater than `x`. */
  lemma SortedBelow(t: seq<string>, x: string, value: map<string, nat>, j: nat)
    requires Sorted(t, value) && x in value && j <= |t|
    requires j > 0 ==> value[t[j - 1]] <= value[x]
    ensures forall k :: 0 <= k < j ==> value[t[k]] <= value[x]
  {
  }

  /** Overwriting position `j` of a sequence splices the new element between the two sides. */
  lemma Splice(shifted: seq<string>, j: nat, x: string, left: seq<string>, right: seq<string>)
    requires j < |shifted| && shifted[..j] == left && shifted[j + 1..] == right
    ensures shifted[j := x] == left + [x] + right
  {
  }

  /** Inserting `x` where the insertion loop stops: after the prefix `t[..j]`. */
  lemma {:induction false} InsertAt(t: seq<string>, x: string, value: map<string, nat>, j: nat)
    requires Keyed(t, value) && x in value && j <= |t|
    requires forall k :: 0 <= k < j ==> value[t[k]] <= value[x]
    requires forall k :: j <= k < |t| ==> value[t[k]] > value[x]
    ensures Insert(t, x, value) == t[..j] + [x] + t[j..]
  {
    if j > 0 {
      InsertAt(t[1..], x, value, j - 1);
      assert t[1..][..j - 1] == t[1..j] && t[1..][j - 1..] == t[j..];
      assert t[..j] == [t[0]] + t[1..j];
    }
  }

  /** Copying `b[j - 1]` one place right moves the gap of the insertion loop one place left. */
  lemma ShiftStep(b: seq<string>, j: nat, prefix: seq<string>, rest: seq<string>)
    requires 0 < j <= |prefix| && j < |b|
    requires b[..j] == prefix[..j] && b[j + 1..] == prefix[j..] + rest
    ensures b[j := b[j - 1]][..j - 1] == prefix[..j - 1]
    ensures b[j := b[j - 1]][j..] == prefix[j - 1..] + rest
  {
    var c := b[j := b[j - 1]];
    assert b[j - 1] == prefix[j - 1] by { assert b[..j][j - 1] == prefix[..j][j - 1]; }
    assert c[..j - 1] == b[..j][..j - 1];
    assert prefix[j - 1..] == [prefix[j - 1]] + prefix[j..];
    assert c[j..] == [b[j - 1]] + b[j + 1..];
  }

  /**
   * One step of the in-place insertion sort: the name at `a[i]` is moved left past
   * every name of the prefix `a[..i]` with a greater value.
   */
  method InsertNext(a: array<string>, i: nat, value: map<string, nat>)
    requires i < a.Length && a[i] in value && Sorted(a[..i], value)
    modifies a
    ensures a[..] == Insert(old(a[..i]), old(a[i]), value) + old(a[i + 1..])
  {
    ghost var prefix, rest := a[..i], a[i + 1..];
    var x := a[i];
    var j := i;
    while j > 0 && value[a[j - 1]] > value[x]
      invariant j <= i
      invariant a[..j] == prefix[..j]
      invariant a[j + 1..] == prefix[j..] + rest
      invariant forall k :: j <= k < i ==> value[prefix[k]] > value[x]
    {
      ghost var before := a[..];
      a[j] := a[j - 1];
      assert a[..] == before[j := before[j - 1]];
      ShiftStep(before, j, prefix, rest);
      j := j - 1;
    }
    ghost var shifted := a[..];
    a[j] := x;
    assert a[..] == shifted[j := x];
    SortedBelow(prefix, x, value, j);
    InsertStop(prefix, x, value, j, rest, shifted);
  }

  /**
   * The `sort` call of `sortedBreakpoints`, as an in-place insertion sort: the
   * array ends up holding the stable sorted order of its names.
   */
  method SortByThreshold(a: array<string>, value: map<string, nat>)
    requires Keyed(a[..], value)
    modifies a
    ensures a[..] == StableSort(old(a[..]), value)
  {
    ghost var names := a[..];
    var i := 0;
    while i < a.Length
      invariant i <= a.Length
      invariant a[..i] == StableSort(names[..i], value)
      invariant a[i..] == names[i..]
    {
      StableSortCorrect(names[..i], value);
      assert a[i] == names[i] && a[i + 1..] == names[i + 1..] by {
        assert a[i..][0] == names[i..][0] && a[i..][1..] == names[i..][1..];
      }
      InsertNext(a, i, value);
      SortStep(names, i, value, a[..]);
      i := i + 1;
    }
    assert a[..i] == a[..] && names[..i] == names;
  }

  /** After step `i` the first `i + 1` names are sorted and the rest are untouched. */
  lemma SortStep(names: seq<string>, i: nat, value: map<string, nat>, after: seq<string>)
    requires Keyed(names, value) && i < |names|
    requires after == Insert(StableSort(names[..i], value), names[i], value) + names[i + 1..]
    ensures |after| == |names| && after[..i + 1] == StableSort(names[..i + 1], value)
    ensures after[i + 1..] == names[i + 1..]
  {
    var t := StableSort(names[..i], value);
    assert names[..i + 1][..i] == names[..i] && names[..i + 1][i] == names[i];
    assert StableSort(names[..i + 1], value) == Insert(t, names[i], value);
    assert |Insert(t, names[i], value)| == i + 1 by {
      StableSortCorrect(names[..i], value);
      InsertPermutes(t, names[i], value);
      assert |multiset(Insert(t, names[i], value))| == |multiset(t)| + 1;
    }
  }
}
