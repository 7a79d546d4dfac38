/**
 * The order of the rows: ascending by `due - urgency / 1000`, a missing due
 * date counting as `MaxDue`, ties kept in input order (the host's sort is
 * stable).
 *
 * With urgency in hundredths the key scaled by 100000 is an exact integer:
 * `due * 100000 - urgency`.
 */
module Ordering {
  import opened Timestamp
  import opened Tasks

  /** 100000 days in milliseconds: the due value of a task without a due date. */
  const MaxDue := 100000 * MsDay

  /** One millisecond of due date is worth 100000 hundredths of urgency. */
  const KeyScale := 100000

  /** The due value the comparator uses: a difference, including 0, or `MaxDue`. */
  function EffectiveDue(d: Due): int {
    match d
    case DueMillis(ms) => ms
    case _ => MaxDue
  }

  function UrgencyOf(t: Task): int {
    match t.urgency
    case Some(h) => h
    case None => 0
  }

  /** The sort key, scaled by 100000. */
  function Key(t: Task): int {
    EffectiveDue(t.due) * KeyScale - UrgencyOf(t)
  }

  ghost predicate Sorted(s: seq<Task>) {
    forall i, j :: 0 <= i < j < |s| ==> Key(s[i]) <= Key(s[j])
  }

  /** The tasks of `s` whose key is `k`, in their order in `s`. */
  function WithKey(s: seq<Task>, k: int): seq<Task> {
    if |s| == 0 then []
    else WithKey(s[..|s| - 1], k) + (if Key(s[|s| - 1]) == k then [s[|s| - 1]] else [])
  }

  /** Inserts `x` after every element whose key is at most its own. */
  function Insert(s: seq<Task>, x: Task): seq<Task> {
    if |s| == 0 || Key(s[|s| - 1]) <= Key(x) then s + [x]
    else Insert(s[..|s| - 1], x) + [s[|s| - 1]]
  }

  /** Stable sort by key (insertion sort, one element at a time from the left). */
  function SortByKey(s: seq<Task>): seq<Task> {
    if |s| == 0 then [] else Insert(SortByKey(s[..|s| - 1]), s[|s| - 1])
  }

  lemma {:induction false} InsertPermutes(s: seq<Task>, x: Task)
    ensures multiset(Insert(s, x)) == multiset(s) + multiset{x}
  {
    if |s| > 0 && Key(s[|s| - 1]) > Key(x) {
      InsertPermutes(s[..|s| - 1], x);
      assert s == s[..|s| - 1] + [s[|s| - 1]];
    }
  }

  lemma {:induction false} InsertSorted(s: seq<Task>, x: Task)
    requires Sorted(s)
    ensures Sorted(Insert(s, x))
  {
    if |s| > 0 && Key(s[|s| - 1]) > Key(x) {
      var init, last := s[..|s| - 1], s[|s| - 1];
      InsertSorted(init, x);
      InsertPermutes(init, x);
      var r := Insert(init, x);
      forall i | 0 <= i < |r| ensures Key(r[i]) <= Key(last) {
        assert r[i] in multiset(init) + multiset{x};
      }
    }
  }

  /** Inserting adds `x` at the end of its own key's group and leaves the others alone. */
  lemma {:induction false} InsertWithKey(s: seq<Task>, x: Task, k: int)
    ensures WithKey(Insert(s, x), k) == WithKey(s, k) + (if Key(x) == k then [x] else [])
  {
    if |s| > 0 && Key(s[|s| - 1]) > Key(x) {
      var init, last := s[..|s| - 1], s[|s| - 1];
      InsertWithKey(init, x, k);
      var r := Insert(init, x) + [last];
      assert Insert(s, x) == r;
      assert r[..|r| - 1] == Insert(init, x) && r[|r| - 1] == last;
      WithKeyInit(r, k);
      WithKeyInit(s, k);
    } else {
      var r := s + [x];
      assert Insert(s, x) == r;
      assert r[..|r| - 1] == s && r[|r| - 1] == x;
      WithKeyInit(r, k);
    }
  }

  /** Where `Insert` puts `x`: after the prefix of keys at most its own. */
  lemma {:induction false} InsertAt(s: seq<Task>, x: Task, j: nat)
    requires j <= |s|
    requires j == 0 || Key(s[j - 1]) <= Key(x)
    requires forall k :: j <= k < |s| ==> Key(s[k]) > Key(x)
    ensures Insert(s, x) == s[..j] + [x] + s[j..]
    decreases |s| - j
  {
    if j < |s| {
      var init, last := s[..|s| - 1], s[|s| - 1];
      assert j > 0 ==> init[j - 1] == s[j - 1];
      InsertAt(init, x, j);
      assert Insert(s, x) == Insert(init, x) + [last];
      assert init[..j] == s[..j];
      assert s[j..] == init[j..] + [last] by {
        assert s == init + [last];
      }
    } else {
      assert s[..j] == s && s[j..] == [];
    }
  }

  /** The sorted list is in non-decreasing key order. */
  lemma {:induction false} SortByKeySorted(s: seq<Task>)
    ensures Sorted(SortByKey(s))
  {
    if |s| > 0 {
      SortByKeySorted(s[..|s| - 1]);
      InsertSorted(SortByKey(s[..|s| - 1]), s[|s| - 1]);
    }
  }

  /** The sorted list is a permutation of the input. */
  lemma {:induction false} SortByKeyPermutes(s: seq<Task>)
    ensures multiset(SortByKey(s)) == multiset(s)
  {
    if |s| > 0 {
      var init, last := s[..|s| - 1], s[|s| - 1];
      SortByKeyPermutes(init);
      InsertPermutes(SortByKey(init), last);
      assert SortByKey(s) == Insert(SortByKey(init), last);
      assert s == init + [last];
      assert multiset(s) == multiset(init) + multiset{last};
    }
  }

  /** Stability: the tasks sharing any one key keep their input order. */
  lemma {:induction false} SortByKeyStable(s: seq<Task>, k: int)
    ensures WithKey(SortByKey(s), k) == WithKey(s, k)
  {
    if |s| > 0 {
      SortByKeyStable(s[..|s| - 1], k);
      InsertWithKey(SortByKey(s[..|s| - 1]), s[|s| - 1], k);
    }
  }

  /** A task is in its key's group exactly when it is in the list with that key. */
  lemma {:induction false} WithKeyMembers(s: seq<Task>, k: int)
    ensures forall e :: e in WithKey(s, k) <==> e in s && Key(e) == k
  {
    if |s| > 0 {
      WithKeyMembers(s[..|s| - 1], k);
      assert s == s[..|s| - 1] + [s[|s| - 1]];
    }
  }

  /** Dropping the last task drops it from the end of its own group only. */
  lemma WithKeyInit(s: seq<Task>, k: int)
    requires |s| > 0
    ensures WithKey(s, k) == WithKey(s[..|s| - 1], k) + (if Key(s[|s| - 1]) == k then [s[|s| - 1]] else [])
  {
  }

  /** A non-empty list has a non-empty group for the key of its last task. */
  lemma LastInGroup(t: seq<Task>, u: seq<Task>)
    requires |t| > 0
    requires forall k :: WithKey(t, k) == WithKey(u, k)
    ensures t[|t| - 1] in u
  {
    var a := t[|t| - 1];
    WithKeyMembers(t, Key(a));
    WithKeyMembers(u, Key(a));
    assert a in WithKey(t, Key(a));
  }

  /** Two sorted lists with the same key groups end with the same task. */
  lemma SameLast(t: seq<Task>, u: seq<Task>)
    requires Sorted(t) && Sorted(u) && |t| > 0 && |u| > 0
    requires t[|t| - 1] in u && u[|u| - 1] in t
    requires WithKey(t, Key(t[|t| - 1])) == WithKey(u, Key(t[|t| - 1]))
    ensures t[|t| - 1] == u[|u| - 1]
  {
    var a, b := t[|t| - 1], u[|u| - 1];
    assert Key(a) <= Key(b) by {
      var i :| 0 <= i < |u| && u[i] == a;
    }
    assert Key(b) <= Key(a) by {
      var i :| 0 <= i < |t| && t[i] == b;
    }
    var k := Key(a);
    WithKeyInit(t, k);
    WithKeyInit(u, k);
    var g := WithKey(t, k);
    assert g == WithKey(t[..|t| - 1], k) + [a];
    assert g == WithKey(u[..|u| - 1], k) + [b];
    assert g[|g| - 1] == a && g[|g| - 1] == b;
  }

  lemma CancelSuffix(x: seq<Task>, y: seq<Task>, e: seq<Task>)
    requires x + e == y + e
    ensures x == y
  {
    assert x == (x + e)[..|x|];
    assert y == (y + e)[..|y|];
  }

  /** Removing the same last task from both keeps the groups equal. */
  lemma SameGroupsWithoutLast(t: seq<Task>, u: seq<Task>, k: int)
    requires |t| > 0 && |u| > 0 && t[|t| - 1] == u[|u| - 1]
    requires WithKey(t, k) == WithKey(u, k)
    ensures WithKey(t[..|t| - 1], k) == WithKey(u[..|u| - 1], k)
  {
    var a := t[|t| - 1];
    var x, y := WithKey(t[..|t| - 1], k), WithKey(u[..|u| - 1], k);
    var e: seq<Task> := if Key(a) == k then [a] else [];
    WithKeyInit(t, k);
    WithKeyInit(u, k);
    CancelSuffix(x, y, e);
  }

  /**
   * A sorted list is determined by its key groups: two sorted lists whose
   * groups agree key by key are equal.
   */
  lemma {:induction false} SortedByGroups(t: seq<Task>, u: seq<Task>)
    requires Sorted(t) && Sorted(u)
    requires forall k :: WithKey(t, k) == WithKey(u, k)
    ensures t == u
    decreases |t|
  {
    if |t| > 0 { LastInGroup(t, u); }
    if |u| > 0 { LastInGroup(u, t); }
    if |t| > 0 && |u| > 0 {
      SameLast(t, u);
      var t', u' := t[..|t| - 1], u[..|u| - 1];
      forall k ensures WithKey(t', k) == WithKey(u', k) {
        SameGroupsWithoutLast(t, u, k);
      }
      SortedByGroups(t', u');
      assert t == t' + [t[|t| - 1]] && u == u' + [u[|u| - 1]];
    }
  }

  /**
   * Any stable sort by the key gives `SortByKey`: a sorted list whose key
   * groups are those of the input is exactly the insertion sort of it.
   */
  lemma StableSortIsUnique(s: seq<Task>, t: seq<Task>)
    requires Sorted(t)
    requires forall k :: WithKey(t, k) == WithKey(s, k)
    ensures t == SortByKey(s)
  {
    SortByKeySorted(s);
    forall k ensures WithKey(t, k) == WithKey(SortByKey(s), k) {
      SortByKeyStable(s, k);
    }
    SortedByGroups(t, SortByKey(s));
  }

  /**
   * With urgencies in [0, 1000), i.e. [0, 100000) hundredths, a task due
   * strictly earlier sorts strictly earlier in a sorted list.
   */
  lemma EarlierDueFirst(s: seq<Task>, i: nat, j: nat)
    requires Sorted(s) && i < |s| && j < |s|
    requires 0 <= UrgencyOf(s[i]) < KeyScale && 0 <= UrgencyOf(s[j]) < KeyScale
    requires EffectiveDue(s[i].due) < EffectiveDue(s[j].due)
    ensures i < j
  {
    assert Key(s[i]) < Key(s[j]);
  }

  /** Among tasks due at the same time, the more urgent sorts earlier. */
  lemma MoreUrgentFirst(s: seq<Task>, i: nat, j: nat)
    requires Sorted(s) && i < |s| && j < |s|
    requires EffectiveDue(s[i].due) == EffectiveDue(s[j].due)
    requires UrgencyOf(s[i]) > UrgencyOf(s[j])
    ensures i < j
  {
    assert Key(s[i]) < Key(s[j]);
  }

  /**
   * A task without a due date, absent or left as the empty text, sorts after
   * every task due before `MaxDue`;
   * a due of exactly 0 counts as a real due date, not as a missing one.
   */
  lemma NoDueAfterDue(s: seq<Task>, i: nat, j: nat)
    requires Sorted(s) && i < |s| && j < |s|
    requires 0 <= UrgencyOf(s[i]) < KeyScale && 0 <= UrgencyOf(s[j]) < KeyScale
    requires s[i].due.DueMillis? && s[i].due.ms < MaxDue
    requires s[j].due == NoDue || s[j].due == DueText("")
    ensures i < j
  {
    EarlierDueFirst(s, i, j);
  }

  /** Two tasks given in the wrong order come out swapped. */
  lemma SortPair(a: Task, b: Task)
    requires Key(a) < Key(b)
    ensures SortByKey([b, a]) == [a, b]
  {
    assert [b, a][..1] == [b] && [b][..0] == [];
    assert SortByKey([b]) == [b];
    assert Insert([b], a) == Insert([], a) + [b];
  }

  /** One step of the in-place sort: moves `a[i]` back into the sorted prefix `a[..i]`. */
  method InsertInPlace(a: array<Task>, i: nat)
    requires i < a.Length
    modifies a
    ensures a[..i + 1] == Insert(old(a[..i]), old(a[i]))
    ensures a[i + 1..] == old(a[i + 1..])
  {
    ghost var s := a[..i];
    var x := a[i];
    var j := i;
    while j > 0 && Key(a[j - 1]) > Key(x)
      invariant 0 <= j <= i
      invariant forall k :: 0 <= k < j ==> a[k] == s[k]
      invariant forall k :: j < k <= i ==> a[k] == s[k - 1]
      invariant forall k :: j <= k < i ==> Key(s[k]) > Key(x)
      invariant forall k :: i < k < a.Length ==> a[k] == old(a[k])
    {
      assert a[j - 1] == s[j - 1];
      a[j] := a[j - 1];
      j := j - 1;
    }
    a[j] := x;
    InsertAt(s, x, j);
    Shifted(a[..i + 1], s, x, j);
    assert a[i + 1..] == old(a[i + 1..]);
  }

  /** A list that is `s` with `x` placed at position `j` and the rest moved up by one. */
  lemma Shifted(r: seq<Task>, s: seq<Task>, x: Task, j: nat)
    requires j <= |s| && |r| == |s| + 1
    requires forall k :: 0 <= k < j ==> r[k] == s[k]
    requires r[j] == x
    requires forall k :: j < k < |r| ==> r[k] == s[k - 1]
    ensures r == s[..j] + [x] + s[j..]
  {
  }

  /** `sort` in place: the array ends up as the stable sort of what it held. */
  method SortInPlace(a: array<Task>)
    modifies a
    ensures a[..] == SortByKey(old(a[..]))
  {
    ghost var input := a[..];
    var i := 0;
    while i < a.Length
      invariant 0 <= i <= a.Length
      invariant a[..i] == SortByKey(input[..i])
      invariant a[i..] == input[i..]
    {
      ghost var before := a[..];
      InsertInPlace(a, i);
      SortStep(input, before, a[..], i);
      i := i + 1;
    }
    assert input[..a.Length] == input;
  }

  /** One insertion extends the sorted prefix by the next input element. */
  lemma SortStep(input: seq<Task>, before: seq<Task>, after: seq<Task>, i: nat)
    requires i < |input| == |before| == |after|
    requires before[..i] == SortByKey(input[..i]) && before[i..] == input[i..]
    requires after[..i + 1] == Insert(before[..i], before[i]) && after[i + 1..] == before[i + 1..]
    ensures after[..i + 1] == SortByKey(input[..i + 1]) && after[i + 1..] == input[i + 1..]
  {
    assert before[i + 1..] == before[i..][1..] && input[i + 1..] == input[i..][1..];
    assert before[i] == before[i..][0] && input[i] == input[i..][0];
    assert input[..i + 1][..i] == input[..i];
  }
}
