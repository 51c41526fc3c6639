/**
 The task manager object: one sequence of tasks, changed in place by adding
 and removing, read by the sorted listing and by the recommendation.
 */
module TaskStore {
  import opened Tasks
  import opened PrioritySort
  import opened Selection

  /** One numbered line of the listing: its 1-based number and the task shown. */
  datatype Entry = Entry(number: nat, task: Task)

  /**
   What recommend_task ends with: the empty-store message, a failure raised by
   the similarity library, or the recommended description it prints.
   */
  datatype Recommendation = NoTasks | LibraryFailure | Recommended(description: string)

  class TaskManager {
    /** The stored tasks in insertion order (the deque that add_task and remove_task change). */
    var tasks: seq<Task>

    /** A new manager holds no tasks. */
    constructor ()
      ensures tasks == []
    {
      tasks := [];
    }

    /** Appends one task; the priority defaults to 1. */
    method AddTask(description: string, priority: int := DefaultPriority)
      modifies this
      ensures tasks == old(tasks) + [Task(description, priority)]
      ensures |tasks| == |old(tasks)| + 1 && tasks[..|old(tasks)|] == old(tasks)
    {
      tasks := tasks + [Task(description, priority)];
    }

    /**
     Scans the tasks in storage order and deletes the first one whose
     description is the argument; reports whether one was found.
     */
    method RemoveTask(description: string) returns (removed: bool)
      modifies this
      ensures removed <==> HasDescription(old(tasks), description)
      ensures tasks == RemoveFirstMatch(old(tasks), description)
      ensures removed ==> |tasks| == |old(tasks)| - 1
      ensures !removed ==> tasks == old(tasks)
    {
      for i := 0 to |tasks|
        invariant tasks == old(tasks)
        invariant forall k :: 0 <= k < i ==> tasks[k].description != description
      {
        var task := tasks[i];
        if task.description == description {
          assert IsFirstMatch(tasks, description, i);
          RemoveFirstMatchAt(tasks, description, i);
          RemoveValueAt(tasks, i);
          tasks := RemoveValue(tasks, task);
          return true;
        }
      }
      RemoveFirstMatchAbsent(tasks, description);
      return false;
    }

    /**
     The listing: nothing when there are no tasks; otherwise the sorted view,
     numbered from 1. The stored sequence is not changed.
     */
    method ListTasks() returns (listing: Option<seq<Entry>>)
      ensures listing.None? <==> tasks == []
      ensures listing.Some? ==> |listing.value| == |tasks|
      ensures listing.Some? ==>
                forall k :: 0 <= k < |listing.value| ==>
                              listing.value[k] == Entry(k + 1, SortByPriority(tasks)[k])
    {
      if tasks == [] {
        return None;
      }
      var sortedTasks := SortByPriority(tasks);
      var lines: seq<Entry> := [];
      for i := 0 to |sortedTasks|
        invariant |lines| == i
        invariant forall k :: 0 <= k < i ==> lines[k] == Entry(k + 1, sortedTasks[k])
      {
        lines := lines + [Entry(i + 1, sortedTasks[i])];
      }
      return Some(lines);
    }

    /**
     The recommendation: nothing when there are no tasks; otherwise the
     documents are the stored descriptions followed by the query, and
     `similarity` stands for the library call that scores the last document
     against each earlier one. That call may fail (for instance when no
     document has a word the vectorizer keeps); the failure then reaches the
     caller. Otherwise the description at the first best-scoring index is the
     one recommended. That index is below the number of tasks, so the result
     is a stored description and never the appended query.
     */
    method RecommendTask(query: string, similarity: seq<string> -> Option<seq<real>>)
      returns (outcome: Recommendation)
      requires tasks != [] && similarity(Descriptions(tasks) + [query]).Some? ==>
                 |similarity(Descriptions(tasks) + [query]).value| == |tasks|
      ensures outcome.NoTasks? <==> tasks == []
      ensures outcome.LibraryFailure? <==>
                tasks != [] && similarity(Descriptions(tasks) + [query]).None?
      ensures outcome.Recommended? ==>
                exists k :: 0 <= k < |tasks| &&
                            IsFirstMax(similarity(Descriptions(tasks) + [query]).value, k) &&
                            outcome.description == tasks[k].description
    {
      if tasks == [] {
        return NoTasks;
      }
      var descriptions := Descriptions(tasks) + [query];
      match similarity(descriptions) {
        case None =>
          return LibraryFailure;
        case Some(similarities) =>
          var bestMatchIdx := ArgMax(similarities);
          return Recommended(descriptions[bestMatchIdx]);
      }
    }
  }

  const Python := Task("Complete Python project", 2)
  const Exams := Task("Prepare for exams", 3)
  const Learning := Task("Read about machine learning", 1)

  /** The listing order of the three sample tasks, before and after the removal. */
  lemma SampleOrder()
    ensures SortByPriority([Python, Exams, Learning]) == [Exams, Python, Learning]
    ensures SortByPriority([Exams, Learning]) == [Exams, Learning]
  {
    assert SortByPriority([Learning]) == [Learning] by {
      assert [Learning][1..] == [];
    }
    assert SortByPriority([Exams, Learning]) == [Exams, Learning] by {
      assert [Exams, Learning][1..] == [Learning];
    }
    assert Insert(Python, [Exams, Learning]) == [Exams, Python, Learning] by {
      assert [Exams, Learning][1..] == [Learning];
      assert Insert(Python, [Learning]) == [Python, Learning];
    }
    assert [Python, Exams, Learning][1..] == [Exams, Learning];
  }

  /** Removing "Complete Python project" from the three sample tasks. */
  lemma SampleRemoval()
    ensures HasDescription([Python, Exams, Learning], Python.description)
    ensures RemoveFirstMatch([Python, Exams, Learning], Python.description) == [Exams, Learning]
  {
    var s := [Python, Exams, Learning];
    assert s[0].description == Python.description;
    RemoveFirstMatchAt(s, Python.description, 0);
    assert s[1..] == [Exams, Learning];
  }
}
