/**
 The task record kept by the task manager and the rules that find and
 delete a task by its description.
 */
module Tasks {

  datatype Option<T> = None | Some(value: T)

  /** One stored task. Descriptions need not be unique; priorities are unbounded. */
  datatype Task = Task(description: string, priority: int)

  /** The priority a task gets when add_task is called without one. */
  const DefaultPriority: int := 1

  /** The descriptions of the tasks, in storage order. */
  function Descriptions(s: seq<Task>): (r: seq<string>)
    ensures |r| == |s|
    ensures forall k :: 0 <= k < |s| ==> r[k] == s[k].description
  {
    seq(|s|, k requires 0 <= k < |s| => s[k].description)
  }

  /** Some stored task has exactly the description d. */
  ghost predicate HasDescription(s: seq<Task>, d: string)
  {
    exists k :: 0 <= k < |s| && s[k].description == d
  }

  /** i is the position of the first task, in storage order, whose description is d. */
  ghost predicate IsFirstMatch(s: seq<Task>, d: string, i: int)
  {
    0 <= i < |s| && s[i].description == d &&
    forall k :: 0 <= k < i ==> s[k].description != d
  }

  /** The number of stored tasks whose description is d. */
  function CountMatches(s: seq<Task>, d: string): (n: nat)
  {
    if s == [] then 0
    else (if s[0].description == d then 1 else 0) + CountMatches(s[1..], d)
  }

  /** The position of the first task whose description is d, if there is one. */
  function FirstMatch(s: seq<Task>, d: string): (r: Option<nat>)
    ensures r.None? <==> !HasDescription(s, d)
    ensures r.Some? ==> IsFirstMatch(s, d, r.value)
  {
    if s == [] then None
    else if s[0].description == d then Some(0)
    else match FirstMatch(s[1..], d)
      case None =>
        assert forall k :: 1 <= k < |s| ==> s[k] == s[1..][k - 1];
        None
      case Some(i) => Some(i + 1)
  }

  /**
   What remove_task leaves behind: the sequence without its first task whose
   description is d, or the sequence itself when no task has that description.
   */
  function RemoveFirstMatch(s: seq<Task>, d: string): (r: seq<Task>)
    ensures |r| == if HasDescription(s, d) then |s| - 1 else |s|
  {
    match FirstMatch(s, d)
    case None => s
    case Some(i) => s[..i] + s[i + 1..]
  }

  /**
   What deque.remove(t) does: delete the first element equal to t (records
   are compared field by field). The deque raises an error when t is absent,
   which the caller never lets happen.
   */
  function RemoveValue(s: seq<Task>, t: Task): (r: seq<Task>)
    requires t in s
  {
    if s[0] == t then s[1..] else [s[0]] + RemoveValue(s[1..], t)
  }

  lemma {:induction false} CountMatchesConcat(a: seq<Task>, b: seq<Task>, d: string)
    ensures CountMatches(a + b, d) == CountMatches(a, d) + CountMatches(b, d)
  {
    if a == [] {
      assert a + b == b;
    } else {
      assert (a + b)[1..] == a[1..] + b;
      CountMatchesConcat(a[1..], b, d);
    }
  }

  /** No task has description d exactly when none is counted. */
  lemma {:induction false} CountMatchesZero(s: seq<Task>, d: string)
    ensures CountMatches(s, d) == 0 <==> !HasDescription(s, d)
  {
    if s != [] {
      CountMatchesZero(s[1..], d);
      if s[0].description != d && HasDescription(s, d) {
        var k :| 0 <= k < |s| && s[k].description == d;
        assert s[1..][k - 1].description == d;
      }
    }
  }

  /**
   deque.remove(t) on a deque that holds t takes out exactly one copy of t and
   nothing else, so the deque gets one shorter.
   */
  lemma {:induction false} RemoveValueRemovesOne(s: seq<Task>, t: Task)
    requires t in s
    ensures |RemoveValue(s, t)| == |s| - 1
    ensures multiset(RemoveValue(s, t)) == multiset(s) - multiset{t}
  {
    assert s == [s[0]] + s[1..];
    if s[0] != t {
      RemoveValueRemovesOne(s[1..], t);
    }
  }

  /**
   Taking a record out of the deque by value deletes exactly the element the
   scan stopped at, provided no earlier element is equal to it.
   */
  lemma {:induction false} RemoveValueAt(s: seq<Task>, i: nat)
    requires i < |s|
    requires forall k :: 0 <= k < i ==> s[k] != s[i]
    ensures RemoveValue(s, s[i]) == s[..i] + s[i + 1..]
  {
    if i > 0 {
      assert s[1..][i - 1] == s[i];
      RemoveValueAt(s[1..], i - 1);
      assert s[1..][..i - 1] + s[1..][i..] == s[1..i] + s[i + 1..];
      assert [s[0]] + s[1..i] == s[..i];
    }
  }

  /**
   remove_task deletes exactly the first task with description d: everything
   before it and everything after it, including later tasks with the same
   description, stays in place and in order.
   */
  lemma RemoveFirstMatchAt(s: seq<Task>, d: string, i: nat)
    requires IsFirstMatch(s, d, i)
    ensures RemoveFirstMatch(s, d) == s[..i] + s[i + 1..]
    ensures |RemoveFirstMatch(s, d)| == |s| - 1
  {
    assert HasDescription(s, d);
  }

  /** When no task has description d, remove_task leaves the sequence as it was. */
  lemma RemoveFirstMatchAbsent(s: seq<Task>, d: string)
    requires !HasDescription(s, d)
    ensures RemoveFirstMatch(s, d) == s
  {
  }

  /**
   remove_task lowers the number of tasks with description d by exactly one
   when there is one, and leaves the count of every other description alone.
   */
  lemma RemoveFirstMatchCounts(s: seq<Task>, d: string, e: string)
    ensures HasDescription(s, d) ==>
      CountMatches(RemoveFirstMatch(s, d), d) == CountMatches(s, d) - 1
    ensures e != d ==> CountMatches(RemoveFirstMatch(s, d), e) == CountMatches(s, e)
  {
    match FirstMatch(s, d)
    case None =>
    case Some(i) =>
      assert s == s[..i] + ([s[i]] + s[i + 1..]);
      CountMatchesConcat(s[..i], [s[i]] + s[i + 1..], d);
      CountMatchesConcat(s[..i], [s[i]] + s[i + 1..], e);
      CountMatchesConcat(s[..i], s[i + 1..], d);
      CountMatchesConcat(s[..i], s[i + 1..], e);
      assert ([s[i]] + s[i + 1..])[1..] == s[i + 1..];
  }

  /**
   remove_task takes out exactly one copy of the first matching task and
   nothing else; with no match the tasks are the same.
   */
  lemma RemoveFirstMatchMultiset(s: seq<Task>, d: string)
    ensures !HasDescription(s, d) ==> multiset(RemoveFirstMatch(s, d)) == multiset(s)
    ensures HasDescription(s, d) ==>
      multiset(RemoveFirstMatch(s, d)) + multiset{s[FirstMatch(s, d).value]} == multiset(s)
  {
    if HasDescription(s, d) {
      var i := FirstMatch(s, d).value;
      RemoveFirstMatchAt(s, d, i);
      MultisetDelete(s, i);
    } else {
      RemoveFirstMatchAbsent(s, d);
    }
  }

  /** Leaving out position i leaves out exactly one copy of s[i]. */
  lemma MultisetDelete(s: seq<Task>, i: nat)
    requires i < |s|
    ensures multiset(s[..i] + s[i + 1..]) + multiset{s[i]} == multiset(s)
  {
    assert s == s[..i] + [s[i]] + s[i + 1..];
  }

  /** A description held by exactly one task is gone after remove_task. */
  lemma RemoveUniqueDescription(s: seq<Task>, d: string)
    requires CountMatches(s, d) == 1
    ensures !HasDescription(RemoveFirstMatch(s, d), d)
  {
    CountMatchesZero(s, d);
    RemoveFirstMatchCounts(s, d, d);
    CountMatchesZero(RemoveFirstMatch(s, d), d);
  }

  /** Adding a task with a new description and then removing it restores the sequence. */
  lemma AddThenRemoveNew(s: seq<Task>, d: string, p: int)
    requires !HasDescription(s, d)
    ensures RemoveFirstMatch(s + [Task(d, p)], d) == s
  {
    var s' := s + [Task(d, p)];
    assert IsFirstMatch(s', d, |s|) by {
      assert forall k :: 0 <= k < |s| ==> s'[k] == s[k];
    }
    RemoveFirstMatchAt(s', d, |s|);
    assert s'[..|s|] == s;
  }

  /**
   When the description is already stored, removing it after an add takes out
   the older task and keeps the newly appended one at the end.
   */
  lemma AddThenRemoveExisting(s: seq<Task>, t: Task, d: string)
    requires HasDescription(s, d)
    ensures RemoveFirstMatch(s + [t], d) == RemoveFirstMatch(s, d) + [t]
  {
    var i := FirstMatch(s, d).value;
    var s' := s + [t];
    assert IsFirstMatch(s', d, i) by {
      assert forall k :: 0 <= k < |s| ==> s'[k] == s[k];
    }
    RemoveFirstMatchAt(s', d, i);
    RemoveFirstMatchAt(s, d, i);
    assert s'[..i] == s[..i];
    assert s'[i + 1..] == s[i + 1..] + [t];
    assert s[..i] + (s[i + 1..] + [t]) == (s[..i] + s[i + 1..]) + [t];
  }
}
