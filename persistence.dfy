/**
 * Deduplication of the task list by id (first occurrence wins) and the
 * decision the provider's save effect takes after every change: repair the
 * state with the deduplicated list, or write the list to storage.
 */
module Persistence {
  import opened TaskModel
  import opened TaskList

  /**
   * The first occurrence of each id, in list order.  Defined from the end of
   * the list so that it follows the scan of `DeduplicateTasks` step by step.
   */
  ghost function Dedup(s: seq<Task>): seq<Task>
  {
    if s == [] then []
    else
      var front := s[..|s| - 1];
      var t := s[|s| - 1];
      if t.id in IdSet(front) then Dedup(front) else Dedup(front) + [t]
  }

  /** `deduplicateTasks`: one pass over the list with a set of ids already seen. */
  method DeduplicateTasks(tasks: seq<Task>) returns (uniqueTasks: seq<Task>)
    ensures uniqueTasks == Dedup(tasks)
    ensures UniqueIds(uniqueTasks)
    ensures |uniqueTasks| == |tasks| <==> UniqueIds(tasks)
  {
    var seen: set<string> := {};
    uniqueTasks := [];
    var i := 0;
    while i < |tasks|
      invariant 0 <= i <= |tasks|
      invariant seen == IdSet(tasks[..i])
      invariant uniqueTasks == Dedup(tasks[..i])
    {
      var task := tasks[i];
      assert tasks[..i + 1][..i] == tasks[..i];
      assert IdSet(tasks[..i + 1]) == seen + {task.id} by {
        assert tasks[..i + 1] == tasks[..i] + [task];
      }
      if task.id !in seen {
        seen := seen + {task.id};
        uniqueTasks := uniqueTasks + [task];
      }
      i := i + 1;
    }
    assert tasks[..i] == tasks;
    DedupUniqueIds(tasks);
    DedupLength(tasks);
  }

  /** The ids of a list grow by the id of an appended task. */
  lemma IdSetAppend(s: seq<Task>, t: Task)
    ensures IdSet(s + [t]) == IdSet(s) + {t.id}
  {
    assert forall u :: u in s + [t] <==> u in s || u == t;
  }

  /** Deduplication keeps every id. */
  lemma {:induction false} DedupIdSet(s: seq<Task>)
    ensures IdSet(Dedup(s)) == IdSet(s)
    decreases |s|
  {
    if s != [] {
      var front, t := s[..|s| - 1], s[|s| - 1];
      assert s == front + [t];
      DedupIdSet(front);
      IdSetAppend(front, t);
      if t.id !in IdSet(front) {
        IdSetAppend(Dedup(front), t);
      }
    }
  }

  /** The ids of the deduplicated list are pairwise distinct. */
  lemma {:induction false} DedupUniqueIds(s: seq<Task>)
    ensures UniqueIds(Dedup(s))
    decreases |s|
  {
    if s != [] {
      var front, t := s[..|s| - 1], s[|s| - 1];
      DedupUniqueIds(front);
      DedupIdSet(front);
      var d := Dedup(front);
      if t.id !in IdSet(front) {
        forall i | 0 <= i < |d|
          ensures (d + [t])[i].id != t.id
        {
          assert d[i] in d;
        }
      }
    }
  }

  /** Deduplication only drops tasks: what it keeps stays in the original relative order. */
  lemma {:induction false} DedupSubsequence(s: seq<Task>)
    ensures Subsequence(Dedup(s), s)
    decreases |s|
  {
    if s != [] {
      var front, t := s[..|s| - 1], s[|s| - 1];
      DedupSubsequence(front);
      var d := Dedup(s);
      if t.id !in IdSet(front) {
        assert d[..|d| - 1] == Dedup(front);
      } else if d != [] {
        assert d == Dedup(front);
      }
    }
  }

  /** Every task the deduplicated list holds is the first occurrence of its id in the input. */
  lemma {:induction false} DedupKeepsFirst(s: seq<Task>)
    ensures forall k :: 0 <= k < |Dedup(s)| ==>
      Dedup(s)[k].id in IdSet(s) && Dedup(s)[k] == s[FindIndex(s, Dedup(s)[k].id)]
    decreases |s|
  {
    if s != [] {
      var front, t := s[..|s| - 1], s[|s| - 1];
      assert s == front + [t];
      DedupKeepsFirst(front);
      DedupIdSet(front);
      var d := Dedup(front);
      forall k | 0 <= k < |Dedup(s)|
        ensures Dedup(s)[k].id in IdSet(s) && Dedup(s)[k] == s[FindIndex(s, Dedup(s)[k].id)]
      {
        if k < |d| {
          assert Dedup(s)[k] == d[k] && d[k] in d;
          FindIndexPrefix(front, [t], d[k].id);
        } else {
          FindIndexAppend(front, t);
        }
      }
    }
  }

  /** The kept tasks appear in the order of the first occurrences of their ids. */
  lemma {:induction false} DedupFirstOccurrenceOrder(s: seq<Task>)
    ensures forall j, k :: 0 <= j < k < |Dedup(s)| ==>
      FindIndex(s, Dedup(s)[j].id) < FindIndex(s, Dedup(s)[k].id)
    decreases |s|
  {
    if s != [] {
      var front, t := s[..|s| - 1], s[|s| - 1];
      assert s == front + [t];
      DedupFirstOccurrenceOrder(front);
      DedupIdSet(front);
      var d := Dedup(front);
      forall j, k | 0 <= j < k < |Dedup(s)|
        ensures FindIndex(s, Dedup(s)[j].id) < FindIndex(s, Dedup(s)[k].id)
      {
        assert Dedup(s)[j] == d[j] && d[j] in d;
        FindIndexPrefix(front, [t], d[j].id);
        if k < |d| {
          assert Dedup(s)[k] == d[k] && d[k] in d;
          FindIndexPrefix(front, [t], d[k].id);
        } else {
          FindIndexAppend(front, t);
        }
      }
    }
  }

  /** A list without duplicate ids is left as it is. */
  lemma {:induction false} DedupOfUnique(s: seq<Task>)
    requires UniqueIds(s)
    ensures Dedup(s) == s
    decreases |s|
  {
    if s != [] {
      var front, t := s[..|s| - 1], s[|s| - 1];
      DedupOfUnique(front);
      assert s == front + [t];
    }
  }

  /** Deduplicating twice is deduplicating once. */
  lemma DedupIdempotent(s: seq<Task>)
    ensures Dedup(Dedup(s)) == Dedup(s)
  {
    DedupUniqueIds(s);
    DedupOfUnique(Dedup(s));
  }

  /** Deduplication never lengthens the list, and keeps its length exactly when there is nothing to drop. */
  lemma {:induction false} DedupLength(s: seq<Task>)
    ensures |Dedup(s)| <= |s|
    ensures |Dedup(s)| == |s| <==> UniqueIds(s)
    decreases |s|
  {
    if s != [] {
      var front, t := s[..|s| - 1], s[|s| - 1];
      DedupLength(front);
      if UniqueIds(s) {
        DedupOfUnique(s);
      } else if |Dedup(s)| == |s| {
        assert t.id !in IdSet(front) && UniqueIds(front);
        forall i, j | 0 <= i < j < |s|
          ensures s[i].id != s[j].id
        {
          if j == |s| - 1 {
            assert s[i] == front[i] && front[i] in front;
          } else {
            assert s[i] == front[i] && s[j] == front[j];
          }
        }
        assert false;
      }
    }
  }

  /** What the save effect does with the current list. */
  datatype Effect =
    | Repair(replacement: seq<Task>)  // the state is replaced; nothing is written
    | Save(written: seq<Task>)        // the list is written to storage unchanged

  /** The save effect: compare the deduplicated list with the current one by length. */
  ghost function SyncEffect(tasks: seq<Task>): Effect
  {
    var unique := Dedup(tasks);
    if |unique| != |tasks| then Repair(unique) else Save(tasks)
  }

  /**
   * The effect writes exactly when the list has no duplicate ids, and then writes
   * the list itself; otherwise it repairs the state with the shorter, duplicate-free
   * deduplication.
   */
  lemma SyncEffectDecision(tasks: seq<Task>)
    ensures SyncEffect(tasks).Save? <==> UniqueIds(tasks)
    ensures SyncEffect(tasks).Save? ==> SyncEffect(tasks).written == tasks
    ensures SyncEffect(tasks).Repair? ==>
      var r := SyncEffect(tasks).replacement;
      r == Dedup(tasks) && |r| < |tasks| && UniqueIds(r) && IdSet(r) == IdSet(tasks)
  {
    DedupLength(tasks);
    DedupUniqueIds(tasks);
    DedupIdSet(tasks);
  }

  /** After a repair the effect runs again on the replacement, and that run saves it. */
  lemma RepairThenSave(tasks: seq<Task>)
    requires SyncEffect(tasks).Repair?
    ensures SyncEffect(SyncEffect(tasks).replacement) == Save(Dedup(tasks))
  {
    DedupUniqueIds(tasks);
    DedupOfUnique(Dedup(tasks));
  }
}
