// The display order of client/src/App.tsx: the comparator handed to
// `tasks.sort`, and the sorted list it produces.

module ClientApp {
  import opened ItemRecords

  /**
   * The comparator: tasks with the same flag compare by id (`a.id - b.id`);
   * otherwise the completed one is greater (1) and the open one smaller (-1).
   */
  function Compare(a: Record, b: Record): (c: int)
    ensures a.completed == b.completed ==> (c < 0 <==> a.id < b.id) && (c == 0 <==> a.id == b.id)
    ensures a.completed != b.completed ==> c != 0 && (c < 0 <==> !a.completed)
  {
    if a.completed == b.completed then a.id - b.id
    else if a.completed then 1
    else -1
  }

  function Sign(x: int): int
  {
    if x < 0 then -1 else if x > 0 then 1 else 0
  }

  /** Swapping the arguments flips the sign of the comparison. */
  lemma CompareAntisymmetric(a: Record, b: Record)
    ensures Sign(Compare(a, b)) == -Sign(Compare(b, a))
  {
  }

  /** "Not after" is transitive, so the comparator is a consistent total preorder. */
  lemma CompareTransitive(a: Record, b: Record, c: Record)
    requires Compare(a, b) <= 0 && Compare(b, c) <= 0
    ensures Compare(a, c) <= 0
  {
  }

  /** Every task is placed no later than each task after it. */
  predicate Ordered(s: seq<Record>)
  {
    forall i, j :: 0 <= i < j < |s| ==> Compare(s[i], s[j]) <= 0
  }

  /**
   * Inserts `x` after every task that is not greater than it, so that
   * tasks comparing equal keep their input order.
   */
  function Insert(x: Record, s: seq<Record>): (r: seq<Record>)
    requires Ordered(s)
    ensures Ordered(r)
    ensures multiset(r) == multiset(s) + multiset{x}
  {
    if s == [] then [x]
    else if Compare(x, s[0]) < 0 then
      assert forall j :: 0 <= j < |s| ==> Compare(x, s[j]) <= 0 by {
        forall j | 1 <= j < |s| ensures Compare(x, s[j]) <= 0 {
          CompareTransitive(x, s[0], s[j]);
        }
      }
      ConsOrdered(x, s);
      [x] + s
    else
      OrderedTail(s);
      var rest := Insert(x, s[1..]);
      assert s == [s[0]] + s[1..];
      HeadBeforeAll(s[0], s[1..], x, rest);
      ConsOrdered(s[0], rest);
      [s[0]] + rest
  }

  /** A task placed before every task of an ordered list keeps it ordered. */
  lemma ConsOrdered(h: Record, t: seq<Record>)
    requires Ordered(t)
    requires forall j :: 0 <= j < |t| ==> Compare(h, t[j]) <= 0
    ensures Ordered([h] + t)
  {
    var r := [h] + t;
    forall i, j | 0 <= i < j < |r| ensures Compare(r[i], r[j]) <= 0 {
      assert r[j] == t[j - 1];
      if i > 0 {
        assert r[i] == t[i - 1];
      }
    }
  }

  /** The tail of an ordered list is ordered. */
  lemma OrderedTail(s: seq<Record>)
    requires Ordered(s) && s != []
    ensures Ordered(s[1..])
  {
    forall i, j | 0 <= i < j < |s[1..]| ensures Compare(s[1..][i], s[1..][j]) <= 0 {
      assert s[1..][i] == s[i + 1] && s[1..][j] == s[j + 1];
    }
  }

  /**
   * A task not after any task of `t`, nor after `x`, is not after any
   * task of a list holding exactly `t`'s tasks and `x`.
   */
  lemma HeadBeforeAll(h: Record, t: seq<Record>, x: Record, rest: seq<Record>)
    requires Ordered([h] + t) && Compare(h, x) <= 0
    requires multiset(rest) == multiset(t) + multiset{x}
    ensures forall j :: 0 <= j < |rest| ==> Compare(h, rest[j]) <= 0
  {
    forall j | 0 <= j < |rest| ensures Compare(h, rest[j]) <= 0 {
      assert rest[j] in multiset(rest);
      if rest[j] != x {
        assert rest[j] in multiset(t);
        var m :| 0 <= m < |t| && t[m] == rest[j];
        assert ([h] + t)[0] == h && ([h] + t)[m + 1] == t[m];
      }
    }
  }

  /**
   * The list `tasks.sort(comparator)` leaves: a permutation of the input,
   * ordered by the comparator, built by stable insertion.
   */
  function SortTasks(s: seq<Record>): (r: seq<Record>)
    ensures Ordered(r)
    ensures multiset(r) == multiset(s)
  {
    if s == [] then []
    else
      assert s == s[..|s| - 1] + [s[|s| - 1]];
      Insert(s[|s| - 1], SortTasks(s[..|s| - 1]))
  }

  /**
   * After sorting, every open task comes before every completed task, and
   * within each group the ids never decrease; the result is a permutation
   * of the input.
   */
  lemma SortedOpenFirstThenById(s: seq<Record>)
    ensures var r := SortTasks(s);
      multiset(r) == multiset(s) &&
      (forall i, j :: 0 <= i < j < |r| && r[i].completed ==> r[j].completed) &&
      (forall i, j :: 0 <= i < j < |r| && r[i].completed == r[j].completed ==> r[i].id <= r[j].id)
  {
    var r := SortTasks(s);
    forall i, j | 0 <= i < j < |r| ensures (r[i].completed ==> r[j].completed) &&
      (r[i].completed == r[j].completed ==> r[i].id <= r[j].id)
    {
      assert Compare(r[i], r[j]) <= 0;
    }
  }

  /** Tasks that share an id are the same task (true of any list with distinct ids). */
  predicate IdsDetermineTasks(s: seq<Record>)
  {
    forall x, y :: x in s && y in s && x.id == y.id ==> x == y
  }

  /**
   * When ids determine tasks the order is fully determined: two ordered
   * permutations of the same tasks are equal, whatever sorting algorithm
   * produced them.
   */
  lemma {:induction false} OrderedPermutationUnique(a: seq<Record>, b: seq<Record>)
    requires IdsDetermineTasks(a)
    requires Ordered(a) && Ordered(b)
    requires multiset(a) == multiset(b)
    ensures a == b
  {
    assert |a| == |multiset(a)| == |multiset(b)| == |b|;
    if a != [] {
      var ta, tb := a[1..], b[1..];
      assert a[0] == b[0] by { OrderedHeadsEqual(a, b); }
      MultisetTail(a);
      MultisetTail(b);
      assert Ordered(ta) && Ordered(tb) by { OrderedTail(a); OrderedTail(b); }
      assert IdsDetermineTasks(ta) by { IdsDetermineTail(a); }
      OrderedPermutationUnique(ta, tb);
    }
  }

  /** The tail of a list whose ids determine its tasks has the same property. */
  lemma IdsDetermineTail(s: seq<Record>)
    requires IdsDetermineTasks(s) && s != []
    ensures IdsDetermineTasks(s[1..])
  {
    forall x | x in s[1..] ensures x in s { }
  }

  /** Two ordered permutations start with the same task. */
  lemma OrderedHeadsEqual(a: seq<Record>, b: seq<Record>)
    requires IdsDetermineTasks(a)
    requires Ordered(a) && Ordered(b)
    requires multiset(a) == multiset(b) && a != [] && b != []
    ensures a[0] == b[0]
  {
    assert a[0] in multiset(b) && b[0] in multiset(a);
    var m :| 0 <= m < |b| && b[m] == a[0];
    var n :| 0 <= n < |a| && a[n] == b[0];
    assert Compare(a[0], a[n]) <= 0 && Compare(b[0], b[m]) <= 0;
  }

  lemma MultisetTail<T>(s: seq<T>)
    requires s != []
    ensures s == [s[0]] + s[1..]
    ensures multiset(s[1..]) == multiset(s) - multiset{s[0]}
  {
    assert s == [s[0]] + s[1..];
  }

  /**
   * Any correct sort of a task list whose ids determine its tasks (in
   * particular one with distinct ids) produces exactly SortTasks.
   */
  lemma SortTasksIsTheSortedOrder(s: seq<Record>, r: seq<Record>)
    requires IdsDetermineTasks(s)
    requires Ordered(r) && multiset(r) == multiset(s)
    ensures r == SortTasks(s)
  {
    var t := SortTasks(s);
    assert IdsDetermineTasks(t) by {
      forall x | x in t ensures x in s {
        assert x in multiset(t);
      }
    }
    OrderedPermutationUnique(t, r);
  }

  /** Open tasks 1 and 3 and completed task 2 are shown as 1, 3, 2. */
  lemma SortExample()
    ensures SortTasks([Record(2, "b", true), Record(3, "c", false), Record(1, "a", false)])
      == [Record(1, "a", false), Record(3, "c", false), Record(2, "b", true)]
  {
    var s := [Record(2, "b", true), Record(3, "c", false), Record(1, "a", false)];
    assert s[..2] == [Record(2, "b", true), Record(3, "c", false)];
    assert s[..2][..1] == [Record(2, "b", true)];
    assert s[..2][..1][..0] == [];
  }
}
