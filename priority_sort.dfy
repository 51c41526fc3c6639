/**
 The view list_tasks prints: the stored tasks sorted by priority, highest
 first, with a stable sort (Python's sorted keeps the original order of equal
 keys even with reverse=True), so equal priorities stay in insertion order.
 */
module PrioritySort {
  import opened Tasks

  /** Priorities never increase from left to right. */
  ghost predicate SortedByPriorityDesc(s: seq<Task>)
  {
    forall i, j :: 0 <= i < j < |s| ==> s[i].priority >= s[j].priority
  }

  /** The tasks of s whose priority is p, in the order they have in s. */
  function WithPriority(s: seq<Task>, p: int): (r: seq<Task>)
  {
    if s == [] then []
    else (if s[0].priority == p then [s[0]] else []) + WithPriority(s[1..], p)
  }

  /**
   Puts t in front of the first task whose priority is not above its own, so
   that t comes before the tasks of equal priority already in s.
   */
  function Insert(t: Task, s: seq<Task>): (r: seq<Task>)
    ensures multiset(r) == multiset(s) + multiset{t}
  {
    if s == [] || s[0].priority <= t.priority then [t] + s
    else
      assert s == [s[0]] + s[1..];
      [s[0]] + Insert(t, s[1..])
  }

  lemma {:induction false} InsertSorted(t: Task, s: seq<Task>)
    requires SortedByPriorityDesc(s)
    ensures SortedByPriorityDesc(Insert(t, s))
  {
    if s != [] && s[0].priority > t.priority {
      var rest := Insert(t, s[1..]);
      InsertSorted(t, s[1..]);
      forall k | 0 <= k < |rest|
        ensures rest[k].priority <= s[0].priority
      {
        assert rest[k] in multiset(rest);
        if rest[k] != t {
          assert rest[k] in multiset(s[1..]);
          var j :| 0 <= j < |s[1..]| && s[1..][j] == rest[k];
          assert s[j + 1] == rest[k];
        }
      }
    }
  }

  /** sorted(tasks, key=priority, reverse=True), as an insertion sort. */
  function SortByPriority(s: seq<Task>): (r: seq<Task>)
    ensures multiset(r) == multiset(s) && |r| == |s|
    ensures SortedByPriorityDesc(r)
  {
    if s == [] then []
    else
      assert s == [s[0]] + s[1..];
      InsertSorted(s[0], SortByPriority(s[1..]));
      Insert(s[0], SortByPriority(s[1..]))
  }

  lemma WithPriorityCons(t: Task, x: seq<Task>, p: int)
    ensures WithPriority([t] + x, p) == (if t.priority == p then [t] else []) + WithPriority(x, p)
  {
    assert ([t] + x)[1..] == x;
  }

  lemma {:induction false} InsertWithPriority(t: Task, s: seq<Task>, p: int)
    ensures WithPriority(Insert(t, s), p) ==
            (if t.priority == p then [t] else []) + WithPriority(s, p)
  {
    if s == [] || s[0].priority <= t.priority {
      WithPriorityCons(t, s, p);
    } else {
      var rest := Insert(t, s[1..]);
      assert Insert(t, s) == [s[0]] + rest;
      InsertWithPriority(t, s[1..], p);
      WithPriorityCons(s[0], rest, p);
      assert s == [s[0]] + s[1..];
      WithPriorityCons(s[0], s[1..], p);
      if t.priority == p {
        assert s[0].priority != p;
      }
    }
  }

  /**
   Stability: within every priority the sorted view keeps the tasks in the
   order in which they were stored.
   */
  lemma {:induction false} SortIsStable(s: seq<Task>, p: int)
    ensures WithPriority(SortByPriority(s), p) == WithPriority(s, p)
  {
    if s != [] {
      SortIsStable(s[1..], p);
      InsertWithPriority(s[0], SortByPriority(s[1..]), p);
    }
  }

  lemma {:induction false} WithPriorityMembers(s: seq<Task>, p: int, t: Task)
    requires t in WithPriority(s, p)
    ensures t in s && t.priority == p
  {
    if s[0].priority != p || t != s[0] {
      WithPriorityMembers(s[1..], p, t);
    }
  }

  /** A non-empty sequence has at least one task of its first task's priority. */
  lemma FirstPriorityPresent(s: seq<Task>)
    ensures s != [] ==> WithPriority(s, s[0].priority) != []
  {
  }

  /**
   Two non-empty sequences ordered by descending priority that agree on every
   priority's subsequence start with the same task.
   */
  lemma SameFirstTask(a: seq<Task>, b: seq<Task>)
    requires a != [] && b != []
    requires SortedByPriorityDesc(a) && SortedByPriorityDesc(b)
    requires WithPriority(a, a[0].priority) == WithPriority(b, a[0].priority)
    requires WithPriority(a, b[0].priority) == WithPriority(b, b[0].priority)
    ensures a[0] == b[0]
  {
    var pa, pb := a[0].priority, b[0].priority;
    var wa, wb := WithPriority(a, pa), WithPriority(b, pb);
    assert wa == [a[0]] + WithPriority(a[1..], pa);
    assert wb == [b[0]] + WithPriority(b[1..], pb);
    assert b[0] in WithPriority(a, pb) by { assert WithPriority(a, pb)[0] == b[0]; }
    assert a[0] in WithPriority(b, pa) by { assert WithPriority(b, pa)[0] == a[0]; }
    WithPriorityMembers(a, pb, b[0]);
    WithPriorityMembers(b, pa, a[0]);
    assert pa == pb;
  }

  /**
   A sequence ordered by descending priority is determined by its
   per-priority subsequences: two such sequences that agree on every priority
   are equal.
   */
  lemma {:induction false} SortedStableUnique(a: seq<Task>, b: seq<Task>)
    requires SortedByPriorityDesc(a) && SortedByPriorityDesc(b)
    requires forall p :: WithPriority(a, p) == WithPriority(b, p)
    ensures a == b
  {
    FirstPriorityPresent(a);
    FirstPriorityPresent(b);
    if a != [] && b != [] {
      SameFirstTask(a, b);
      forall q
        ensures WithPriority(a[1..], q) == WithPriority(b[1..], q)
      {
        TailsAgree(a, b, q);
      }
      TailSorted(a);
      TailSorted(b);
      SortedStableUnique(a[1..], b[1..]);
      assert a == [a[0]] + a[1..];
      assert b == [b[0]] + b[1..];
    }
  }

  lemma TailSorted(a: seq<Task>)
    requires a != [] && SortedByPriorityDesc(a)
    ensures SortedByPriorityDesc(a[1..])
  {
    forall i, j | 0 <= i < j < |a| - 1
      ensures a[1..][i].priority >= a[1..][j].priority
    {
      assert a[1..][i] == a[i + 1] && a[1..][j] == a[j + 1];
    }
  }

  /** Two sequences with the same first task that agree on priority q agree on it after that task. */
  lemma TailsAgree(a: seq<Task>, b: seq<Task>, q: int)
    requires a != [] && b != [] && a[0] == b[0]
    requires WithPriority(a, q) == WithPriority(b, q)
    ensures WithPriority(a[1..], q) == WithPriority(b[1..], q)
  {
    var head := if a[0].priority == q then [a[0]] else [];
    assert WithPriority(a, q) == head + WithPriority(a[1..], q);
    assert WithPriority(b, q) == head + WithPriority(b[1..], q);
    assert WithPriority(a[1..], q) == (head + WithPriority(a[1..], q))[|head|..];
    assert WithPriority(b[1..], q) == (head + WithPriority(b[1..], q))[|head|..];
  }

  /**
   The sorted view is the only sequence that is ordered by descending priority
   and keeps each priority's tasks in storage order.
   */
  lemma SortByPriorityUnique(s: seq<Task>, r: seq<Task>)
    requires SortedByPriorityDesc(r)
    requires forall p :: WithPriority(r, p) == WithPriority(s, p)
    ensures r == SortByPriority(s)
  {
    forall p
      ensures WithPriority(r, p) == WithPriority(SortByPriority(s), p)
    {
      SortIsStable(s, p);
    }
    SortedStableUnique(r, SortByPriority(s));
  }

  lemma {:induction false} WithPriorityConcat(a: seq<Task>, b: seq<Task>, p: int)
    ensures WithPriority(a + b, p) == WithPriority(a, p) + WithPriority(b, p)
  {
    if a == [] {
      assert a + b == b;
    } else {
      WithPriorityConcat(a[1..], b, p);
      assert a + b == [a[0]] + (a[1..] + b);
      WithPriorityCons(a[0], a[1..] + b, p);
      assert a == [a[0]] + a[1..];
      WithPriorityCons(a[0], a[1..], p);
    }
  }

  /** Deleting one element keeps a sequence ordered by descending priority. */
  lemma DeleteKeepsSorted(x: seq<Task>, j: nat)
    requires j < |x| && SortedByPriorityDesc(x)
    ensures SortedByPriorityDesc(x[..j] + x[j + 1..])
  {
    var y := x[..j] + x[j + 1..];
    forall a, b | 0 <= a < b < |y|
      ensures y[a].priority >= y[b].priority
    {
      var a', b' := if a < j then a else a + 1, if b < j then b else b + 1;
      assert y[a] == x[a'] && y[b] == x[b'];
    }
  }

  /**
   Splitting s around position i splits every priority's subsequence the same
   way, and leaving position i out leaves out only its own contribution.
   */
  lemma WithPrioritySplit(s: seq<Task>, i: nat, p: int)
    requires i < |s|
    ensures WithPriority(s, p) ==
            WithPriority(s[..i], p) + (if s[i].priority == p then [s[i]] else []) + WithPriority(s[i + 1..], p)
    ensures WithPriority(s[..i] + s[i + 1..], p) == WithPriority(s[..i], p) + WithPriority(s[i + 1..], p)
  {
    assert s == s[..i] + ([s[i]] + s[i + 1..]);
    WithPriorityConcat(s[..i], [s[i]] + s[i + 1..], p);
    WithPriorityCons(s[i], s[i + 1..], p);
    WithPriorityConcat(s[..i], s[i + 1..], p);
  }

  /** The m-th task of priority q in x (counting from 0) sits at some position j. */
  lemma {:induction false} FindInPriorityClass(x: seq<Task>, q: int, m: nat) returns (j: nat)
    requires m < |WithPriority(x, q)|
    ensures j < |x| && x[j].priority == q && |WithPriority(x[..j], q)| == m
  {
    var head := if x[0].priority == q then [x[0]] else [];
    assert WithPriority(x, q) == head + WithPriority(x[1..], q);
    if x[0].priority == q && m == 0 {
      j := 0;
      assert x[..0] == [];
    } else {
      var j' := FindInPriorityClass(x[1..], q, m - |head|);
      j := j' + 1;
      assert x[..j] == [x[0]] + x[1..][..j'];
      WithPriorityCons(x[0], x[1..][..j'], q);
    }
  }

  /**
   Deleting the m-th task of priority q from x deletes exactly that task from
   the priority-q subsequence and leaves every other priority's subsequence
   alone.
   */
  lemma DeleteFromPriorityClass(x: seq<Task>, q: int, m: nat) returns (j: nat)
    requires m < |WithPriority(x, q)|
    ensures j < |x| && x[j] == WithPriority(x, q)[m]
    ensures WithPriority(x[..j] + x[j + 1..], q) ==
            WithPriority(x, q)[..m] + WithPriority(x, q)[m + 1..]
    ensures forall p :: p != q ==> WithPriority(x[..j] + x[j + 1..], p) == WithPriority(x, p)
  {
    j := FindInPriorityClass(x, q, m);
    WithPrioritySplit(x, j, q);
    var before, after := WithPriority(x[..j], q), WithPriority(x[j + 1..], q);
    assert (before + [x[j]] + after)[m] == x[j];
    assert (before + [x[j]] + after)[..m] == before;
    assert (before + [x[j]] + after)[m + 1..] == after;
    forall p | p != q
      ensures WithPriority(x[..j] + x[j + 1..], p) == WithPriority(x, p)
    {
      WithPrioritySplit(x, j, p);
    }
  }

  /**
   The listing after remove_task is the listing before it with the line of the
   removed task taken out; every other line keeps its relative order.
   */
  lemma ListingAfterRemove(s: seq<Task>, d: string) returns (j: nat)
    requires HasDescription(s, d)
    ensures j < |s| && SortByPriority(s)[j] == s[FirstMatch(s, d).value]
    ensures SortByPriority(RemoveFirstMatch(s, d)) ==
            SortByPriority(s)[..j] + SortByPriority(s)[j + 1..]
  {
    var i := FirstMatch(s, d).value;
    var v := SortByPriority(s);
    var r := s[..i] + s[i + 1..];
    RemoveFirstMatchAt(s, d, i);
    var q := s[i].priority;
    var before := WithPriority(s[..i], q);
    var after := WithPriority(s[i + 1..], q);
    WithPrioritySplit(s, i, q);
    SortIsStable(s, q);
    j := DeleteFromPriorityClass(v, q, |before|);
    var deleted := v[..j] + v[j + 1..];
    DeleteKeepsSorted(v, j);
    assert (before + [s[i]] + after)[..|before|] == before;
    assert (before + [s[i]] + after)[|before| + 1..] == after;
    forall p
      ensures WithPriority(deleted, p) == WithPriority(r, p)
    {
      WithPrioritySplit(s, i, p);
      SortIsStable(s, p);
    }
    SortByPriorityUnique(r, deleted);
  }

  /**
   A newly added task is listed after every stored task of the same priority,
   and the tasks of other priorities are listed as before.
   */
  lemma ListingAfterAdd(s: seq<Task>, t: Task)
    ensures WithPriority(SortByPriority(s + [t]), t.priority) ==
            WithPriority(SortByPriority(s), t.priority) + [t]
    ensures forall p :: p != t.priority ==>
              WithPriority(SortByPriority(s + [t]), p) == WithPriority(SortByPriority(s), p)
  {
    forall p
      ensures WithPriority(SortByPriority(s + [t]), p) ==
              WithPriority(SortByPriority(s), p) + (if p == t.priority then [t] else [])
    {
      SortIsStable(s + [t], p);
      SortIsStable(s, p);
      WithPriorityConcat(s, [t], p);
      assert WithPriority([t], p) == (if p == t.priority then [t] else []) + WithPriority([], p);
    }
  }

  /** A sequence with no task of priority p has an empty priority-p subsequence. */
  lemma {:induction false} WithPriorityAbsent(x: seq<Task>, p: int)
    requires forall k :: 0 <= k < |x| ==> x[k].priority < p
    ensures WithPriority(x, p) == []
  {
    if x != [] {
      assert forall k :: 0 <= k < |x[1..]| ==> x[1..][k] == x[k + 1];
      WithPriorityAbsent(x[1..], p);
    }
  }

  /**
   In a sequence ordered by descending priority, the tasks of priority at
   least p form a prefix; j is its length.
   */
  lemma {:induction false} PriorityBoundary(v: seq<Task>, p: int) returns (j: nat)
    requires SortedByPriorityDesc(v)
    ensures j <= |v|
    ensures forall k :: 0 <= k < j ==> v[k].priority >= p
    ensures forall k :: j <= k < |v| ==> v[k].priority < p
  {
    if v == [] || v[0].priority < p {
      j := 0;
    } else {
      TailSorted(v);
      var j' := PriorityBoundary(v[1..], p);
      j := j' + 1;
      forall k | 1 <= k < |v|
        ensures v[k] == v[1..][k - 1]
      {
      }
    }
  }

  /** Putting t at the boundary of its priority keeps a descending sequence descending. */
  lemma InsertAtBoundarySorted(v: seq<Task>, j: nat, t: Task)
    requires j <= |v| && SortedByPriorityDesc(v)
    requires forall k :: 0 <= k < j ==> v[k].priority >= t.priority
    requires forall k :: j <= k < |v| ==> v[k].priority < t.priority
    ensures SortedByPriorityDesc(v[..j] + [t] + v[j..])
  {
    var w := v[..j] + [t] + v[j..];
    forall a, b | 0 <= a < b < |w|
      ensures w[a].priority >= w[b].priority
    {
      if a < j {
        assert w[a] == v[a];
      } else if a > j {
        assert w[a] == v[a - 1];
      }
      if b < j {
        assert w[b] == v[b];
      } else if b > j {
        assert w[b] == v[b - 1];
      }
    }
  }

  /** Inserting t at position j contributes t to its own priority's subsequence only. */
  lemma WithPriorityInsertAt(v: seq<Task>, j: nat, t: Task, p: int)
    requires j <= |v|
    ensures WithPriority(v[..j] + [t] + v[j..], p) ==
            WithPriority(v[..j], p) + (if t.priority == p then [t] else []) + WithPriority(v[j..], p)
    ensures WithPriority(v, p) == WithPriority(v[..j], p) + WithPriority(v[j..], p)
  {
    assert v == v[..j] + v[j..];
    WithPriorityConcat(v[..j] + [t], v[j..], p);
    WithPriorityConcat(v[..j], [t], p);
    WithPriorityConcat(v[..j], v[j..], p);
    WithPriorityCons(t, [], p);
    assert [t] + [] == [t];
  }

  /** Appending t adds t to the end of its own priority's subsequence only. */
  lemma WithPriorityAppend(s: seq<Task>, t: Task, p: int)
    ensures WithPriority(s + [t], p) == WithPriority(s, p) + (if t.priority == p then [t] else [])
  {
    WithPriorityConcat(s, [t], p);
    WithPriorityCons(t, [], p);
    assert [t] + [] == [t];
  }

  /**
   The whole listing after add_task: the listing before it with the new task
   inserted right after the last stored task whose priority is at least its
   own.
   */
  lemma ListingAfterAddAt(s: seq<Task>, t: Task) returns (j: nat)
    ensures j <= |s|
    ensures forall k :: 0 <= k < j ==> SortByPriority(s)[k].priority >= t.priority
    ensures forall k :: j <= k < |s| ==> SortByPriority(s)[k].priority < t.priority
    ensures SortByPriority(s + [t]) == SortByPriority(s)[..j] + [t] + SortByPriority(s)[j..]
  {
    var v := SortByPriority(s);
    j := PriorityBoundary(v, t.priority);
    var w := v[..j] + [t] + v[j..];
    InsertAtBoundarySorted(v, j, t);
    assert forall k :: 0 <= k < |v[j..]| ==> v[j..][k] == v[j + k];
    WithPriorityAbsent(v[j..], t.priority);
    forall p
      ensures WithPriority(w, p) == WithPriority(s + [t], p)
    {
      InsertAtBoundaryAgrees(s, t, j, p);
    }
    SortByPriorityUnique(s + [t], w);
  }

  /**
   With no task of t's priority after position j of the sorted view, inserting
   t there gives every priority the subsequence it has after appending t.
   */
  lemma InsertAtBoundaryAgrees(s: seq<Task>, t: Task, j: nat, p: int)
    requires j <= |s|
    requires WithPriority(SortByPriority(s)[j..], t.priority) == []
    ensures WithPriority(SortByPriority(s)[..j] + [t] + SortByPriority(s)[j..], p) ==
            WithPriority(s + [t], p)
  {
    var v := SortByPriority(s);
    WithPriorityInsertAt(v, j, t, p);
    WithPriorityAppend(s, t, p);
    SortIsStable(s, p);
  }
}
