/**
 * The flat, ordered task list and the list primitives the provider builds on:
 * lookup by id (`find`, `findIndex`), filtering (`filter`), and the
 * single-element positional move (`splice` and dnd-kit's `arrayMove`).
 */
module TaskList {
  import opened TaskModel

  /** The ids of the list, in list order. */
  function Ids(s: seq<Task>): (r: seq<string>)
    ensures |r| == |s|
    ensures forall i :: 0 <= i < |s| ==> r[i] == s[i].id
  {
    seq(|s|, i requires 0 <= i < |s| => s[i].id)
  }

  /** The set of ids occurring in the list. */
  function IdSet(s: seq<Task>): set<string>
  {
    set t | t in s :: t.id
  }

  /** No two tasks of the list share an id. */
  ghost predicate UniqueIds(s: seq<Task>)
  {
    forall i, j :: 0 <= i < j < |s| ==> s[i].id != s[j].id
  }

  /** `tasks.findIndex(t => t.id === id)`: the first index holding `id`, or -1. */
  function FindIndex(s: seq<Task>, id: string): (r: int)
    ensures -1 <= r < |s|
    ensures 0 <= r ==> s[r].id == id && forall j :: 0 <= j < r ==> s[j].id != id
    ensures r == -1 <==> id !in IdSet(s)
  {
    if s == [] then -1
    else if s[0].id == id then 0
    else
      var k := FindIndex(s[1..], id);
      assert s[0] in s && forall t :: t in s[1..] ==> t in s;
      assert forall t :: t in s && t != s[0] ==> t in s[1..];
      if k == -1 then -1 else k + 1
  }

  /** `tasks.find(t => t.id === id)`: the first task holding `id`, if any. */
  function Find(s: seq<Task>, id: string): (r: Option<Task>)
    ensures r.Some? <==> id in IdSet(s)
    ensures r.Some? ==> r.value == s[FindIndex(s, id)] && r.value.id == id
  {
    var k := FindIndex(s, id);
    if k == -1 then None else Some(s[k])
  }

  /** The lookup of an id that occurs in a prefix is not affected by what follows the prefix. */
  lemma FindIndexPrefix(s: seq<Task>, u: seq<Task>, id: string)
    requires id in IdSet(s)
    ensures FindIndex(s + u, id) == FindIndex(s, id)
  {
    var a, b := FindIndex(s, id), FindIndex(s + u, id);
    assert (s + u)[a] == s[a];
    assert s[a] in s + u;
  }

  /** An id that first occurs in the appended task is found at the end. */
  lemma FindIndexAppend(s: seq<Task>, t: Task)
    requires t.id !in IdSet(s)
    ensures FindIndex(s + [t], t.id) == |s|
  {
    var b := FindIndex(s + [t], t.id);
    assert (s + [t])[|s|] == t;
  }

  /** The two list filters of the board: by stage (a column) and by "id differs" (deletion). */
  datatype Criterion = HasStage(stage: Stage) | IdOtherThan(id: string)

  predicate Keeps(c: Criterion, t: Task)
  {
    match c
    case HasStage(st) => t.stage == st
    case IdOtherThan(id) => t.id != id
  }

  /** `s.filter(...)`: the tasks of `s` that `c` keeps, in their order in `s`. */
  function Filter(s: seq<Task>, c: Criterion): (r: seq<Task>)
    ensures |r| <= |s|
    ensures forall t :: t in r <==> t in s && Keeps(c, t)
  {
    if s == [] then []
    else
      var front := s[..|s| - 1];
      assert s == front + [s[|s| - 1]];
      Filter(front, c) + if Keeps(c, s[|s| - 1]) then [s[|s| - 1]] else []
  }

  /** The tasks shown in the column of `stage`, top to bottom. */
  function StageView(s: seq<Task>, stage: Stage): seq<Task>
  {
    Filter(s, HasStage(stage))
  }

  /** `t` is obtained from `s` by dropping elements: the relative order of what is kept is unchanged. */
  ghost predicate Subsequence<T>(t: seq<T>, s: seq<T>)
    decreases |s|
  {
    if t == [] then true
    else if s == [] then false
    else
      (t[|t| - 1] == s[|s| - 1] && Subsequence(t[..|t| - 1], s[..|s| - 1]))
      || Subsequence(t, s[..|s| - 1])
  }

  /** Filtering distributes over concatenation. */
  lemma {:induction false} FilterConcat(a: seq<Task>, b: seq<Task>, c: Criterion)
    ensures Filter(a + b, c) == Filter(a, c) + Filter(b, c)
    decreases |b|
  {
    if b == [] {
      assert a + b == a;
    } else {
      var b' := b[..|b| - 1];
      assert (a + b)[..|a + b| - 1] == a + b';
      assert (a + b)[|a + b| - 1] == b[|b| - 1];
      FilterConcat(a, b', c);
    }
  }

  /** A filter keeps its survivors in their original relative order. */
  lemma {:induction false} FilterSubsequence(s: seq<Task>, c: Criterion)
    ensures Subsequence(Filter(s, c), s)
    decreases |s|
  {
    if s != [] {
      var front := s[..|s| - 1];
      FilterSubsequence(front, c);
      var r := Filter(s, c);
      if Keeps(c, s[|s| - 1]) {
        assert r[..|r| - 1] == Filter(front, c);
      } else if r != [] {
        assert r == Filter(front, c);
      }
    }
  }

  /** A filter that keeps every task is the identity. */
  lemma {:induction false} FilterKeepsAll(s: seq<Task>, c: Criterion)
    requires forall k :: 0 <= k < |s| ==> Keeps(c, s[k])
    ensures Filter(s, c) == s
    decreases |s|
  {
    if s != [] {
      var front, last := s[..|s| - 1], s[|s| - 1];
      assert s == front + [last];
      FilterKeepsAll(front, c);
    }
  }

  /** Two filters applied one after the other commute. */
  lemma {:induction false} FilterCommutes(s: seq<Task>, c: Criterion, d: Criterion)
    ensures Filter(Filter(s, c), d) == Filter(Filter(s, d), c)
    decreases |s|
  {
    if s != [] {
      var front := s[..|s| - 1];
      var t := s[|s| - 1];
      FilterCommutes(front, c, d);
      var one := if Keeps(c, t) then [t] else [];
      var two := if Keeps(d, t) then [t] else [];
      var both := if Keeps(c, t) && Keeps(d, t) then [t] else [];
      assert Filter(s, c) == Filter(front, c) + one;
      assert Filter(s, d) == Filter(front, d) + two;
      FilterConcat(Filter(front, c), one, d);
      FilterConcat(Filter(front, d), two, c);
      assert Filter(one, d) == both by {
        if Keeps(c, t) {
          assert one[..0] == [];
        }
      }
      assert Filter(two, c) == both by {
        if Keeps(d, t) {
          assert two[..0] == [];
        }
      }
    }
  }

  /** Filtering is idempotent. */
  lemma FilterIdempotent(s: seq<Task>, c: Criterion)
    ensures Filter(Filter(s, c), c) == Filter(s, c)
  {
    FilterKeepsAll(Filter(s, c), c);
  }

  /** `splice(i, 1)`: the list without its element at `i`. */
  function RemoveAt<T>(s: seq<T>, i: nat): (r: seq<T>)
    requires i < |s|
    ensures |r| == |s| - 1
    ensures forall k :: 0 <= k < |r| ==> r[k] == if k < i then s[k] else s[k + 1]
  {
    s[..i] + s[i + 1..]
  }

  /** `splice(i, 0, x)`: the list with `x` inserted so that it sits at index `i`. */
  function InsertAt<T>(s: seq<T>, i: nat, x: T): (r: seq<T>)
    requires i <= |s|
    ensures |r| == |s| + 1 && r[i] == x
    ensures forall k :: 0 <= k < |r| && k != i ==> r[k] == if k < i then s[k] else s[k - 1]
  {
    s[..i] + [x] + s[i..]
  }

  /** Removing what was just inserted gives back the list. */
  lemma RemoveInserted<T>(s: seq<T>, i: nat, x: T)
    requires i <= |s|
    ensures RemoveAt(InsertAt(s, i, x), i) == s
  {
  }

  /** Re-inserting an element where it was removed gives back the list. */
  lemma InsertRemoved<T>(s: seq<T>, i: nat)
    requires i < |s|
    ensures InsertAt(RemoveAt(s, i), i, s[i]) == s
  {
  }

  /**
   * The single-element move: remove the element at `from`, then insert `x` at `to`,
   * where `to` is an index of the list before the removal.  The element lands at
   * `to`, the elements between the two positions shift by one, the rest stay.
   */
  function MoveTo<T>(s: seq<T>, from: nat, to: nat, x: T): (r: seq<T>)
    requires from < |s| && to < |s|
    ensures |r| == |s| && r[to] == x
    ensures RemoveAt(r, to) == RemoveAt(s, from)
    ensures forall k :: 0 <= k < |s| && k != to ==>
      r[k] == if k < from && k < to then s[k]
              else if k > from && k > to then s[k]
              else if from < to then s[k + 1]
              else s[k - 1]
  {
    var u := RemoveAt(s, from);
    RemoveInserted(u, to, x);
    InsertAt(u, to, x)
  }

  /** After a move the element displaced from the target index is the moved element's neighbour. */
  lemma MoveToNeighbour<T>(s: seq<T>, from: nat, to: nat, x: T)
    requires from < |s| && to < |s| && from != to
    ensures from < to ==> MoveTo(s, from, to, x)[to - 1] == s[to]
    ensures to < from ==> MoveTo(s, from, to, x)[to + 1] == s[to]
  {
  }

  /** dnd-kit's `arrayMove(s, from, to)`: the move of `s[from]` itself. */
  function ArrayMove<T>(s: seq<T>, from: nat, to: nat): (r: seq<T>)
    requires from < |s| && to < |s|
    ensures |r| == |s| && r[to] == s[from]
  {
    MoveTo(s, from, to, s[from])
  }

  /** Moving an element back to where it came from undoes the move. */
  lemma ArrayMoveInverse<T>(s: seq<T>, from: nat, to: nat)
    requires from < |s| && to < |s|
    ensures ArrayMove(ArrayMove(s, from, to), to, from) == s
  {
    var r := ArrayMove(s, from, to);
    InsertRemoved(s, from);
    assert ArrayMove(r, to, from) == InsertAt(RemoveAt(r, to), from, r[to]);
  }

  /** A move replaces one element and keeps the others: the multiset changes only by that element. */
  lemma MoveToMultiset<T>(s: seq<T>, from: nat, to: nat, x: T)
    requires from < |s| && to < |s|
    ensures multiset(MoveTo(s, from, to, x)) == multiset(s) - multiset{s[from]} + multiset{x}
  {
    var u := RemoveAt(s, from);
    assert s == s[..from] + [s[from]] + s[from + 1..];
    assert multiset(u) == multiset(s) - multiset{s[from]};
    assert u == u[..to] + u[to..];
    assert multiset(InsertAt(u, to, x)) == multiset(u) + multiset{x};
  }
}
