/**
 * The order of the search result: the comparator the service picks for the
 * requested order, and the stable sort `List.sort` performs with it.
 */
module Ordering {
  import opened Wrappers
  import opened PlayerEntity
  import opened JavaStrings

  /** The orders a search can ask for. */
  datatype PlayerOrder = Id | Name | Experience | Birthday | Level

  /**
   * `a` may come before `b` under the comparator chosen for `order`:
   * `Comparator.comparing(key)` with the name, birthday, level or experience as
   * key, and the id for any other order or none.
   */
  predicate KeyLe(a: Record, b: Record, order: Option<PlayerOrder>) {
    if order == Some(Name) then LexLe(a.name, b.name)
    else if order == Some(Birthday) then a.birthday <= b.birthday
    else if order == Some(Level) then a.level <= b.level
    else if order == Some(Experience) then a.experience <= b.experience
    else a.id <= b.id
  }

  lemma KeyLeTotal(a: Record, b: Record, order: Option<PlayerOrder>)
    ensures KeyLe(a, b, order) || KeyLe(b, a, order)
  {
    if order == Some(Name) { LexLeTotal(a.name, b.name); }
  }

  lemma KeyLeTransitive(a: Record, b: Record, c: Record, order: Option<PlayerOrder>)
    requires KeyLe(a, b, order) && KeyLe(b, c, order)
    ensures KeyLe(a, c, order)
  {
    if order == Some(Name) { LexLeTransitive(a.name, b.name, c.name); }
  }

  /** The comparator finds `a` and `b` equal. */
  predicate SameKey(a: Record, b: Record, order: Option<PlayerOrder>) {
    KeyLe(a, b, order) && KeyLe(b, a, order)
  }

  /** Ascending under the comparator: no element is preceded by a larger one. */
  ghost predicate Sorted(s: seq<Record>, order: Option<PlayerOrder>) {
    forall i, j :: 0 <= i < j < |s| ==> KeyLe(s[i], s[j], order)
  }

  /** Inserts `x` into `t` after every element the comparator does not put after `x`. */
  function Insert(x: Record, t: seq<Record>, order: Option<PlayerOrder>): seq<Record>
    decreases |t|
  {
    if t == [] then [x]
    else if !KeyLe(t[0], x, order) then [x] + t
    else [t[0]] + Insert(x, t[1..], order)
  }

  /** The stable sort of `s`: each element in turn inserted after its equals. */
  function StableSort(s: seq<Record>, order: Option<PlayerOrder>): seq<Record>
    decreases |s|
  {
    if s == [] then []
    else Insert(s[|s| - 1], StableSort(s[..|s| - 1], order), order)
  }

  /** A head no greater than any element of a sorted tail keeps it sorted. */
  lemma ConsSorted(h: Record, r: seq<Record>, order: Option<PlayerOrder>)
    requires Sorted(r, order)
    requires forall j :: 0 <= j < |r| ==> KeyLe(h, r[j], order)
    ensures Sorted([h] + r, order)
  {
    var c := [h] + r;
    forall i, j | 0 <= i < j < |c| ensures KeyLe(c[i], c[j], order) {
      if i == 0 { assert c[j] == r[j - 1]; } else { assert c[i] == r[i - 1] && c[j] == r[j - 1]; }
    }
  }

  /** The elements of `s` the comparator finds equal to `y`, in their order in `s`. */
  function EqualKeys(s: seq<Record>, y: Record, order: Option<PlayerOrder>): seq<Record>
    decreases |s|
  {
    if s == [] then []
    else (if SameKey(s[0], y, order) then [s[0]] else []) + EqualKeys(s[1..], y, order)
  }

  lemma {:induction false} InsertPermutes(x: Record, t: seq<Record>, order: Option<PlayerOrder>)
    ensures multiset(Insert(x, t, order)) == multiset(t) + multiset{x}
    decreases |t|
  {
    if t != [] && KeyLe(t[0], x, order) {
      InsertPermutes(x, t[1..], order);
      assert t == [t[0]] + t[1..];
    }
  }

  lemma {:induction false} InsertSorted(x: Record, t: seq<Record>, order: Option<PlayerOrder>)
    requires Sorted(t, order)
    ensures Sorted(Insert(x, t, order), order)
    decreases |t|
  {
    if t == [] {
    } else if !KeyLe(t[0], x, order) {
      KeyLeTotal(t[0], x, order);
      forall j | 0 <= j < |t| ensures KeyLe(x, t[j], order) {
        if j > 0 { KeyLeTransitive(x, t[0], t[j], order); }
      }
      ConsSorted(x, t, order);
    } else {
      var rest := Insert(x, t[1..], order);
      InsertSorted(x, t[1..], order);
      InsertPermutes(x, t[1..], order);
      forall j | 0 <= j < |rest| ensures KeyLe(t[0], rest[j], order) {
        assert rest[j] in multiset(rest);
        if rest[j] != x {
          assert rest[j] in multiset(t[1..]);
          var k :| 0 <= k < |t[1..]| && t[1..][k] == rest[j];
          assert t[k + 1] == rest[j];
        }
      }
      ConsSorted(t[0], rest, order);
    }
  }

  /** The stable sort is ascending and a permutation of its input. */
  lemma {:induction false} StableSortSortedPermutation(s: seq<Record>, order: Option<PlayerOrder>)
    ensures Sorted(StableSort(s, order), order)
    ensures multiset(StableSort(s, order)) == multiset(s)
    decreases |s|
  {
    if s != [] {
      var init := s[..|s| - 1];
      StableSortSortedPermutation(init, order);
      InsertSorted(s[|s| - 1], StableSort(init, order), order);
      InsertPermutes(s[|s| - 1], StableSort(init, order), order);
      assert s == init + [s[|s| - 1]];
    }
  }

  lemma {:induction false} EqualKeysAppend(a: seq<Record>, b: seq<Record>, y: Record, order: Option<PlayerOrder>)
    ensures EqualKeys(a + b, y, order) == EqualKeys(a, y, order) + EqualKeys(b, y, order)
    decreases |a|
  {
    if a == [] {
      assert a + b == b;
    } else {
      EqualKeysAppend(a[1..], b, y, order);
      assert (a + b)[0] == a[0];
      assert (a + b)[1..] == a[1..] + b;
    }
  }

  lemma {:induction false} EqualKeysNone(t: seq<Record>, y: Record, order: Option<PlayerOrder>)
    requires forall k :: 0 <= k < |t| ==> !SameKey(t[k], y, order)
    ensures EqualKeys(t, y, order) == []
    decreases |t|
  {
    if t != [] {
      EqualKeysNone(t[1..], y, order);
    }
  }

  /** When `x` goes in front of a sorted `t`, no element of `t` has its key. */
  lemma InsertFrontEqualKeys(x: Record, t: seq<Record>, y: Record, order: Option<PlayerOrder>)
    requires Sorted(t, order) && t != [] && !KeyLe(t[0], x, order)
    ensures EqualKeys([x] + t, y, order) == EqualKeys(t, y, order) + (if SameKey(x, y, order) then [x] else [])
  {
    if SameKey(x, y, order) {
      forall k | 0 <= k < |t| ensures !SameKey(t[k], y, order) {
        if SameKey(t[k], y, order) {
          KeyLeTransitive(t[k], y, x, order);
          if k > 0 { KeyLeTransitive(t[0], t[k], x, order); }
        }
      }
      EqualKeysNone(t, y, order);
    }
    EqualKeysAppend([x], t, y, order);
  }

  /** Inserting into a sorted sequence puts `x` after all of its equals. */
  lemma {:induction false} InsertEqualKeys(x: Record, t: seq<Record>, y: Record, order: Option<PlayerOrder>)
    requires Sorted(t, order)
    ensures EqualKeys(Insert(x, t, order), y, order)
         == EqualKeys(t, y, order) + (if SameKey(x, y, order) then [x] else [])
    decreases |t|
  {
    if t == [] {
    } else if !KeyLe(t[0], x, order) {
      InsertFrontEqualKeys(x, t, y, order);
    } else {
      InsertEqualKeys(x, t[1..], y, order);
      assert Insert(x, t, order) == [t[0]] + Insert(x, t[1..], order);
      EqualKeysAppend([t[0]], Insert(x, t[1..], order), y, order);
      EqualKeysAppend([t[0]], t[1..], y, order);
      assert t == [t[0]] + t[1..];
    }
  }

  /** Stability: for every key, the elements with that key keep their relative order. */
  lemma {:induction false} StableSortIsStable(s: seq<Record>, y: Record, order: Option<PlayerOrder>)
    ensures EqualKeys(StableSort(s, order), y, order) == EqualKeys(s, y, order)
    decreases |s|
  {
    if s != [] {
      var init := s[..|s| - 1];
      var last := s[|s| - 1];
      StableSortIsStable(init, y, order);
      StableSortSortedPermutation(init, order);
      InsertEqualKeys(last, StableSort(init, order), y, order);
      EqualKeysAppend(init, [last], y, order);
      assert s == init + [last];
    }
  }

  lemma {:induction false} EqualKeysMembers(s: seq<Record>, y: Record, order: Option<PlayerOrder>, x: Record)
    ensures x in EqualKeys(s, y, order) <==> x in s && SameKey(x, y, order)
    decreases |s|
  {
    if s != [] {
      EqualKeysMembers(s[1..], y, order, x);
      assert s == [s[0]] + s[1..];
    }
  }

  /** In a sorted sequence, every element is at least the first. */
  lemma SortedHead(r: seq<Record>, x: Record, order: Option<PlayerOrder>)
    requires Sorted(r, order) && x in r
    ensures KeyLe(r[0], x, order)
  {
    var k :| 0 <= k < |r| && r[k] == x;
    if k == 0 { KeyLeTotal(x, x, order); }
  }

  /**
   * Two sorted sequences that agree, key by key, on the order of the elements
   * with that key are the same sequence.
   */
  lemma {:induction false} SortedUnique(r1: seq<Record>, r2: seq<Record>, order: Option<PlayerOrder>)
    requires Sorted(r1, order) && Sorted(r2, order)
    requires forall y :: EqualKeys(r1, y, order) == EqualKeys(r2, y, order)
    ensures r1 == r2
    decreases |r1|
  {
    if r1 == [] || r2 == [] {
      var w := if r1 == [] then r2 else r1;
      if w != [] {
        KeyLeTotal(w[0], w[0], order);
        EqualKeysMembers(r1, w[0], order, w[0]);
        EqualKeysMembers(r2, w[0], order, w[0]);
      }
    } else {
      var y, z := r1[0], r2[0];
      KeyLeTotal(y, y, order);
      KeyLeTotal(z, z, order);
      EqualKeysMembers(r1, y, order, y);
      EqualKeysMembers(r2, y, order, y);
      EqualKeysMembers(r1, z, order, z);
      EqualKeysMembers(r2, z, order, z);
      SortedHead(r2, y, order);
      SortedHead(r1, z, order);
      assert SameKey(z, y, order);
      assert EqualKeys(r1, y, order)[0] == y;
      assert EqualKeys(r2, y, order)[0] == z;
      assert EqualKeys(r1, y, order) == EqualKeys(r2, y, order);
      assert y == z;
      forall w ensures EqualKeys(r1[1..], w, order) == EqualKeys(r2[1..], w, order) {
        assert EqualKeys(r1, w, order) == EqualKeys(r2, w, order);
        assert EqualKeys(r1, w, order) == (if SameKey(y, w, order) then [y] else []) + EqualKeys(r1[1..], w, order);
        assert EqualKeys(r2, w, order) == (if SameKey(y, w, order) then [y] else []) + EqualKeys(r2[1..], w, order);
        if SameKey(y, w, order) {
          assert EqualKeys(r1[1..], w, order) == EqualKeys(r1, w, order)[1..];
          assert EqualKeys(r2[1..], w, order) == EqualKeys(r2, w, order)[1..];
        } else {
          assert EqualKeys(r1[1..], w, order) == EqualKeys(r1, w, order);
          assert EqualKeys(r2[1..], w, order) == EqualKeys(r2, w, order);
        }
      }
      SortedUnique(r1[1..], r2[1..], order);
      assert r1 == [y] + r1[1..] && r2 == [z] + r2[1..];
    }
  }

  /**
   * Any stable sort gives the same result: a sorted sequence that keeps the
   * relative order of equal elements of `s` is `StableSort(s)`.
   */
  lemma StableSortIsUnique(s: seq<Record>, r: seq<Record>, order: Option<PlayerOrder>)
    requires Sorted(r, order)
    requires forall y :: EqualKeys(r, y, order) == EqualKeys(s, y, order)
    ensures r == StableSort(s, order)
  {
    StableSortSortedPermutation(s, order);
    forall y ensures EqualKeys(r, y, order) == EqualKeys(StableSort(s, order), y, order) {
      StableSortIsStable(s, y, order);
    }
    SortedUnique(r, StableSort(s, order), order);
  }

  /**
   * Where the in-place insertion stops: `x` goes at `j` when every element from
   * `j` on is greater and the one before `j` is not.
   */
  lemma {:induction false} InsertAt(x: Record, t: seq<Record>, j: int, order: Option<PlayerOrder>)
    requires Sorted(t, order) && 0 <= j <= |t|
    requires forall k :: j <= k < |t| ==> !KeyLe(t[k], x, order)
    requires j > 0 ==> KeyLe(t[j - 1], x, order)
    ensures Insert(x, t, order) == t[..j] + [x] + t[j..]
    decreases |t|
  {
    if j > 0 {
      if j > 1 { KeyLeTransitive(t[0], t[j - 1], x, order); }
      InsertAt(x, t[1..], j - 1, order);
      assert t[..j] == [t[0]] + t[1..][..j - 1];
      assert t[j..] == t[1..][j - 1..];
    }
  }

  /**
   * The array contents after one insertion pass, as a sequence: the prefix before
   * `j` kept, `before[i]` at `j`, the rest of the sorted prefix shifted right by
   * one, the suffix after `i` untouched.
   */
  lemma Shifted(b: seq<Record>, before: seq<Record>, i: int, j: int, order: Option<PlayerOrder>)
    requires |b| == |before| && 0 <= j <= i < |b|
    requires forall k :: 0 <= k < j ==> b[k] == before[k]
    requires b[j] == before[i]
    requires forall k :: j < k <= i ==> b[k] == before[k - 1]
    requires forall k :: i < k < |b| ==> b[k] == before[k]
    requires Sorted(before[..i], order)
    requires forall k :: j <= k < i ==> !KeyLe(before[k], before[i], order)
    requires j > 0 ==> KeyLe(before[j - 1], before[i], order)
    ensures b[..i + 1] == Insert(before[i], before[..i], order)
    ensures b[i + 1..] == before[i + 1..]
  {
    var t, x := before[..i], before[i];
    InsertAt(x, t, j, order);
    forall k | 0 <= k <= i ensures b[k] == (t[..j] + [x] + t[j..])[k] {
      if k > j { assert (t[..j] + [x] + t[j..])[k] == t[k - 1]; }
    }
  }

  /**
   * One pass of insertion sort: shifts the elements of `a[..i]` that are greater
   * than `a[i]` one place right and puts `a[i]` in the gap at `j`.
   */
  method InsertInPlace(a: array<Record>, i: int, order: Option<PlayerOrder>) returns (j: int)
    requires 0 <= i < a.Length
    modifies a
    ensures 0 <= j <= i
    ensures forall k :: 0 <= k < j ==> a[k] == old(a[k])
    ensures a[j] == old(a[i])
    ensures forall k :: j < k <= i ==> a[k] == old(a[k - 1])
    ensures forall k :: i < k < a.Length ==> a[k] == old(a[k])
    ensures forall k :: j <= k < i ==> !KeyLe(old(a[k]), old(a[i]), order)
    ensures j > 0 ==> KeyLe(old(a[j - 1]), old(a[i]), order)
  {
    var x := a[i];
    j := i;
    while j > 0 && !KeyLe(a[j - 1], x, order)
      invariant 0 <= j <= i
      invariant forall k :: 0 <= k < j ==> a[k] == old(a[k])
      invariant forall k :: j < k <= i ==> a[k] == old(a[k - 1])
      invariant forall k :: i < k < a.Length ==> a[k] == old(a[k])
      invariant forall k :: j <= k < i ==> !KeyLe(old(a[k]), x, order)
    {
      a[j] := a[j - 1];
      j := j - 1;
    }
    a[j] := x;
  }

  /** `list.sort(comparator)` on the array that backs the list: insertion sort, in place. */
  method SortInPlace(a: array<Record>, order: Option<PlayerOrder>)
    modifies a
    ensures a[..] == StableSort(old(a[..]), order)
  {
    ghost var input := a[..];
    var i := 0;
    while i < a.Length
      invariant 0 <= i <= a.Length
      invariant a[..i] == StableSort(input[..i], order)
      invariant a[i..] == input[i..]
    {
      ghost var before := a[..];
      assert before[i] == input[i] && before[i + 1..] == input[i + 1..];
      StableSortSortedPermutation(input[..i], order);
      var j := InsertInPlace(a, i, order);
      Shifted(a[..], before, i, j, order);
      assert input[..i + 1][..i] == input[..i];
      i := i + 1;
    }
    assert input[..a.Length] == input;
  }
}
