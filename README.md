# Task store of a minimal to-do list manager

This project models the `TaskManager` class of a small Python to-do list
manager. The class keeps tasks in one sequence, in the order they were added.
Each task is a description and an integer priority. The operations are:

- `add_task` appends a task. The priority defaults to 1.
- `remove_task` scans the tasks in storage order and deletes the first one
  whose description equals the argument exactly. If no task matches, it
  changes nothing.
- `list_tasks` shows a view of the tasks sorted by priority, highest first,
  numbered from 1. When the store is empty it shows no listing, only a message.
- `recommend_task` prints the stored description whose library-computed
  similarity to a query phrase is highest; the model returns the printed
  value. When the store is empty it shows no recommendation, only a message,
  and a failure inside the
  similarity library reaches the caller.

Files:

- `tasks.dfy` (module `Tasks`): the `Task` record, first-match search, what
  `remove_task` leaves behind (`RemoveFirstMatch`), and what the deque's
  `remove(value)` does (`RemoveValue`). Beside them are lemmas on counts,
  order, and add followed by remove.
- `priority_sort.dfy` (module `PrioritySort`): the sorted view as a stable
  insertion sort. It is proved to be a permutation, ordered by descending
  priority, and stable. It is also proved to be the *only* sequence with those
  properties. Further lemmas say how the listing changes after an add and
  after a remove.
- `selection.dfy` (module `Selection`): the first-maximum index choice that
  numpy's `argmax` performs on the similarity scores.
- `task_manager.dfy` (module `TaskStore`): the class `TaskManager`. Its field
  `tasks: seq<Task>` is updated in place by `AddTask` and `RemoveTask` and is
  read by `ListTasks` and `RecommendTask`. The module also states and proves
  the listings and the removal of the sample session at the end of the source
  file.

How the model follows the code:

- `remove_task` has two steps. First an early-exit loop finds the task. Then
  `self.tasks.remove(task)` deletes the first element *equal* to that record.
  `RemoveTask` does the same: a loop, then `RemoveValue`. `RemoveValueAt`
  proves that the value-based removal deletes the very position the loop
  stopped at. No earlier record can be equal to the found one, because its
  description would have matched first.
- `ListTasks` has no `modifies` clause. Dafny therefore guarantees that listing
  does not change the stored sequence, as `sorted` returns a new list.
- The empty-store branches of `list_tasks` and `recommend_task` print a message
  and return. In the model `ListTasks` returns `None` and `RecommendTask`
  returns `NoTasks`.
- `add_task` accepts any string as a description, including the empty one
  and duplicates, and so does the model.

## Model

| member | source | states |
|---|---|---|
| TaskStore.TaskManager.constructor | TaskManager.py:6-7 | a new manager holds the empty task sequence |
| TaskStore.TaskManager.AddTask | TaskManager.py:9-11 | appends exactly `Task(description, priority)` at the end (priority 1 when omitted); the length grows by one and the earlier tasks stay as they were, in order |
| TaskStore.TaskManager.RemoveTask | TaskManager.py:14-21 | reports a removal exactly when some stored description equals the argument; the new sequence is `RemoveFirstMatch` of the old one, one shorter after a removal and identical otherwise |
| TaskStore.TaskManager.ListTasks | TaskManager.py:23-32 | no listing exactly when the store is empty; otherwise one entry per task, where entry k is numbered k + 1 and shows the k-th task of the priority-sorted view; the stored sequence is not modified |
| TaskStore.TaskManager.RecommendTask | TaskManager.py:34-49 | the empty-store outcome exactly when the store is empty; a library failure exactly when the store is non-empty and the similarity call fails; otherwise the printed description is that of the stored task at the first index of a maximum score, an index below the number of tasks, so never the appended query |
| Tasks.Descriptions | TaskManager.py:40 | the document list holds one entry per stored task, the k-th being the k-th task's description, in storage order |
| Tasks.RemoveFirstMatch | TaskManager.py:14-21 | what `remove_task` leaves behind: one task fewer exactly when some stored description matches, the same number of tasks otherwise |
| Tasks.RemoveFirstMatchMultiset | TaskManager.py:14-21 | `remove_task` takes out exactly one copy of the first matching task and nothing else; with no match the same tasks remain |
| Tasks.RemoveValueRemovesOne | TaskManager.py:18 | `deque.remove(task)` (the function `RemoveValue`) on a deque that holds the task takes out exactly one copy of that task (multiset difference), so the deque is one shorter; the absent-value error is excluded by `requires t in s` and is never reached from `remove_task` |
| Tasks.FirstMatch | TaskManager.py:16-17 | returns no index exactly when no task has the description; otherwise the returned index holds the description and no earlier task does |
| Tasks.RemoveValueAt | TaskManager.py:16-18 | removing the found record by value (deque.remove) deletes exactly the position the scan stopped at |
| Tasks.RemoveFirstMatchAt | TaskManager.py:14-20 | when i is the first match, the result is the sequence with position i deleted: one shorter, with everything before and after i, later duplicates included, kept in order |
| Tasks.RemoveFirstMatchAbsent | TaskManager.py:16-21 | when no description matches, the sequence is unchanged |
| Tasks.RemoveFirstMatchCounts | TaskManager.py:14-20 | the number of tasks with the removed description drops by exactly one when present; the count of every other description is unchanged |
| Tasks.RemoveUniqueDescription | TaskManager.py:14-20 | a description held by exactly one task no longer appears after removal |
| Tasks.AddThenRemoveNew | TaskManager.py:9-20 | adding a task with a fresh description and then removing that description restores the previous sequence |
| Tasks.AddThenRemoveExisting | TaskManager.py:9-20 | if the description was already stored, add then remove deletes the older task and keeps the new one at the end |
| PrioritySort.Insert | TaskManager.py:29 | the insertion step of the sort adds exactly one copy of the task (multiset) and nothing that was not there |
| PrioritySort.SortByPriority | TaskManager.py:29 | the sorted view is a permutation of the stored tasks (multiset equality, same length) ordered by non-increasing priority |
| PrioritySort.InsertSorted | TaskManager.py:29 | inserting into a descending sequence keeps it descending |
| PrioritySort.InsertWithPriority | TaskManager.py:29 | the inserted task comes before every task of equal priority already present, and the other priorities' subsequences are untouched |
| PrioritySort.SortIsStable | TaskManager.py:29 | stability: for every priority, the tasks of that priority appear in the sorted view in storage order |
| PrioritySort.SortedStableUnique | TaskManager.py:29 | two descending sequences that agree on every priority's subsequence are equal |
| PrioritySort.SortByPriorityUnique | TaskManager.py:29 | the sorted view is the only sequence that is descending by priority and keeps each priority's tasks in storage order |
| PrioritySort.DeleteFromPriorityClass | TaskManager.py:29 | deleting the m-th task of priority q from a sequence deletes exactly that task from the priority-q subsequence and leaves the others alone |
| PrioritySort.ListingAfterRemove | TaskManager.py:14-29 | the sorted view after `remove_task` is the sorted view before it with the removed task's line taken out, so the remaining lines keep their relative order |
| PrioritySort.ListingAfterAdd | TaskManager.py:9-11 | after `add_task`, the new task is listed after every stored task of its priority, and the lines of every other priority are as before |
| PrioritySort.ListingAfterAddAt | TaskManager.py:9-29 | the whole listing after `add_task` is the listing before it with the new task inserted at position j, where the j lines before it are exactly those of priority at least the new task's and every later line has a lower priority |
| Selection.ArgMax | TaskManager.py:47 | the chosen index lies in range, holds a maximal score, and every earlier index holds a strictly smaller score |
| Selection.FirstMaxUnique | TaskManager.py:47 | the first maximum is unique, so the scores determine the recommendation |
| TaskStore.SampleOrder | TaskManager.py:52-62 | the sample tasks are listed as "Prepare for exams" (3), "Complete Python project" (2), "Read about machine learning" (1); after the removal they are listed as "Prepare for exams", "Read about machine learning" |
| TaskStore.SampleRemoval | TaskManager.py:61 | removing "Complete Python project" from the three sample tasks leaves the other two in their order |

## Left out

- Console output (every `print`, TaskManager.py:12, 19, 21, 26, 30-32, 37, 49): message text is not behaviour. The model returns the values that the messages report: a found/not-found flag, the numbered listing, and the recommended description.
- TF-IDF vectorisation and cosine similarity (TaskManager.py:2-3, 43-45): these are foreign library code working on floating point. `RecommendTask` receives them as a function parameter `similarity` from the document list to either a failure or one real score per stored task. Its only requirement is that a successful call returns one score per task. When the call fails (for example the vectorizer's empty-vocabulary error on documents with no word of two or more characters, such as the task "a" and the query "b"), the model returns `LibraryFailure` where the source raises; which inputs make the library fail is not modelled. NaN scores are not modelled.
- RecommendTask: uses first-maximum tie-breaking, which is numpy's documented `argmax` rule. Which index wins when the library produces degenerate (all-equal) scores depends on the library and is not modelled beyond that rule.
- The module-level sample script (TaskManager.py:51-62): it is not modelled as a program. Its expected listings and its removal are stated and proved as the lemmas `SampleOrder` and `SampleRemoval`. The recommendation in that script depends on library scores.
- Deque performance: the deque is modelled as a sequence.
- Python dynamic typing: priorities are modelled as unbounded integers and descriptions as strings. The model fixes priorities as integers; the source would also accept and sort float priorities (or mixed ints and floats, ordered by value), which the model does not cover.
