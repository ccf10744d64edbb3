// The shared lists (`TaskList`, `TodoList` in shared/models) as a function
// of the calls made on them: each call's effect on the stored records, and
// what whole histories of calls produce, in particular which ids they issue.

module ListHistory {
  import opened ItemRecords

  /** A state-changing call on a shared list. */
  datatype Call = AddCall(title: string) | RemoveCall(id: int)

  /**
   * The records after one call: `add` with an empty title throws and
   * changes nothing, otherwise appends `{id: length + 1, title, completed:
   * false}`; `removeById` cuts out the first match.
   */
  function Step(s: seq<Record>, c: Call): (r: seq<Record>)
    ensures c.AddCall? && |c.title| == 0 ==> r == s
    ensures c.AddCall? && |c.title| > 0 ==>
      |r| == |s| + 1 && r[..|s|] == s && r[|s|] == Record(|s| + 1, c.title, false)
    ensures c.RemoveCall? ==> r == RemoveFirst(s, c.id)
  {
    match c
    case AddCall(title) => if |title| == 0 then s else s + [Record(|s| + 1, title, false)]
    case RemoveCall(id) => RemoveFirst(s, id)
  }

  /** The records after the given calls, in order, starting from `s`. */
  function Run(s: seq<Record>, calls: seq<Call>): seq<Record>
    decreases calls
  {
    if calls == [] then s else Run(Step(s, calls[0]), calls[1..])
  }

  /** The records of a fresh list after the given calls. */
  function Replay(calls: seq<Call>): seq<Record>
  {
    Run([], calls)
  }

  /** The titles of the adds that succeed (those with a non-empty title). */
  function AcceptedTitles(calls: seq<Call>): seq<string>
  {
    if calls == [] then []
    else
      (if calls[0].AddCall? && |calls[0].title| > 0 then [calls[0].title] else []) +
        AcceptedTitles(calls[1..])
  }

  predicate AddsOnly(calls: seq<Call>)
  {
    forall i :: 0 <= i < |calls| ==> calls[i].AddCall?
  }

  /**
   * Adds alone keep the existing records and append one record per
   * accepted title, numbered on from the current length.
   */
  lemma {:induction false} AddsOnlyAppend(s: seq<Record>, calls: seq<Call>)
    requires AddsOnly(calls)
    ensures |Run(s, calls)| == |s| + |AcceptedTitles(calls)|
    ensures Run(s, calls)[..|s|] == s
    ensures forall i :: 0 <= i < |AcceptedTitles(calls)| ==>
      Run(s, calls)[|s| + i] == Record(|s| + i + 1, AcceptedTitles(calls)[i], false)
    decreases calls
  {
    if calls != [] {
      var rest := calls[1..];
      assert AddsOnly(rest) by {
        forall i | 0 <= i < |rest| ensures rest[i].AddCall? { assert rest[i] == calls[i + 1]; }
      }
      var s' := Step(s, calls[0]);
      AddsOnlyAppend(s', rest);
      assert Run(s, calls) == Run(s', rest);
      if |calls[0].title| > 0 {
        assert AcceptedTitles(calls) == [calls[0].title] + AcceptedTitles(rest);
        AppendedRecords(s, s', calls[0].title, Run(s', rest), AcceptedTitles(rest));
      } else {
        assert AcceptedTitles(calls) == AcceptedTitles(rest);
      }
    }
  }

  /**
   * The inductive step of AddsOnlyAppend: a list that extends `s` by one
   * new record and then numbers `ts` on from there extends `s` by `[t] + ts`.
   */
  lemma AppendedRecords(s: seq<Record>, s': seq<Record>, t: string, r: seq<Record>, ts: seq<string>)
    requires |s'| == |s| + 1 && s'[..|s|] == s && s'[|s|] == Record(|s| + 1, t, false)
    requires |r| == |s'| + |ts| && r[..|s'|] == s'
    requires forall i :: 0 <= i < |ts| ==> r[|s'| + i] == Record(|s'| + i + 1, ts[i], false)
    ensures r[..|s|] == s
    ensures forall i :: 0 <= i < |[t] + ts| ==> r[|s| + i] == Record(|s| + i + 1, ([t] + ts)[i], false)
  {
    assert r[..|s'|][..|s|] == r[..|s|];
    assert r[|s|] == s'[|s|];
    forall i | 1 <= i < |[t] + ts| ensures r[|s| + i] == Record(|s| + i + 1, ([t] + ts)[i], false) {
      assert ([t] + ts)[i] == ts[i - 1];
      assert |s| + i == |s'| + (i - 1);
    }
  }

  /**
   * Without removals, the i-th accepted add holds id i + 1, its title and
   * `completed == false`, in insertion order; the size is the number of
   * accepted adds.
   */
  lemma AddsOnlyIssueConsecutiveIds(calls: seq<Call>)
    requires AddsOnly(calls)
    ensures |Replay(calls)| == |AcceptedTitles(calls)|
    ensures forall i :: 0 <= i < |Replay(calls)| ==>
      Replay(calls)[i] == Record(i + 1, AcceptedTitles(calls)[i], false)
  {
    var empty: seq<Record> := [];
    AddsOnlyAppend(empty, calls);
    var r, ts := Replay(calls), AcceptedTitles(calls);
    forall i | 0 <= i < |r| ensures r[i] == Record(i + 1, ts[i], false) {
      assert r[|empty| + i] == Record(|empty| + i + 1, ts[i], false);
    }
  }

  /** Without removals, no two records share an id. */
  lemma AddsOnlyIdsDistinct(calls: seq<Call>)
    requires AddsOnly(calls)
    ensures IdsDistinct(Replay(calls))
  {
    AddsOnlyIssueConsecutiveIds(calls);
  }

  /**
   * Without removals, `getById` on the id `add` just issued finds the
   * record that add built.
   */
  lemma AddsOnlyGetByIdFindsNewRecord(calls: seq<Call>, title: string)
    requires AddsOnly(calls)
    requires |title| > 0
    ensures var s := Replay(calls);
      var after := Step(s, AddCall(title));
      FindIndex(after, |s| + 1) == |s| && after[|s|] == Record(|s| + 1, title, false)
  {
    AddsOnlyIssueConsecutiveIds(calls);
    var s := Replay(calls);
    var after := Step(s, AddCall(title));
    forall j | 0 <= j < |s| ensures after[j].id != |s| + 1 {
      assert after[j] == s[j];
    }
    assert after[|s|].id == |s| + 1;
  }

  /**
   * Ids are not unique once something was removed: add three, remove id 1,
   * add again, and the new record gets id 3, which the old third record
   * still holds; `getById(3)` then finds the old one.
   */
  lemma IdReusedAfterRemoval()
    ensures var after := Replay([AddCall("a"), AddCall("b"), AddCall("c"), RemoveCall(1), AddCall("d")]);
      after == [Record(2, "b", false), Record(3, "c", false), Record(3, "d", false)] &&
      !IdsDistinct(after) &&
      after[FindIndex(after, 3)].title == "c"
  {
    RemoveFirstThenAdd();
    RepeatedIdFindsFirst();
  }

  /** The list that history leaves holds id 3 twice, and looking up 3 finds "c". */
  lemma RepeatedIdFindsFirst()
    ensures var after := [Record(2, "b", false), Record(3, "c", false), Record(3, "d", false)];
      !IdsDistinct(after) && FindIndex(after, 3) == 1 && after[1].title == "c"
  {
    var after := [Record(2, "b", false), Record(3, "c", false), Record(3, "d", false)];
    assert after[0].id == 2 && after[1].id == 3 && after[2].id == 3;
    assert !IdsDistinct(after);
    assert FindIndex(after, 3) == 1;
  }

  /** The run behind IdReusedAfterRemoval: three adds, remove id 1, one more add. */
  lemma RemoveFirstThenAdd()
    ensures Replay([AddCall("a"), AddCall("b"), AddCall("c"), RemoveCall(1), AddCall("d")])
      == [Record(2, "b", false), Record(3, "c", false), Record(3, "d", false)]
  {
    ReplayThreeAdds("a", "b", "c", [RemoveCall(1), AddCall("d")]);
    assert [AddCall("a"), AddCall("b"), AddCall("c")] + [RemoveCall(1), AddCall("d")]
      == [AddCall("a"), AddCall("b"), AddCall("c"), RemoveCall(1), AddCall("d")];
    RemoveOneThenAdd();
  }

  /** From ids 1, 2, 3: remove id 1, then add "d", which gets id 3. */
  lemma RemoveOneThenAdd()
    ensures Run([Record(1, "a", false), Record(2, "b", false), Record(3, "c", false)],
                [RemoveCall(1), AddCall("d")])
      == [Record(2, "b", false), Record(3, "c", false), Record(3, "d", false)]
  {
    var s3 := [Record(1, "a", false), Record(2, "b", false), Record(3, "c", false)];
    var s4 := [Record(2, "b", false), Record(3, "c", false)];
    RunTwo(s3, RemoveCall(1), AddCall("d"));
    assert FindIndex(s3, 1) == 0;
    assert Step(s3, RemoveCall(1)) == s3[1..] == s4;
    assert Step(s4, AddCall("d")) == s4 + [Record(3, "d", false)];
  }

  /** Running one call is taking one step. */
  lemma RunOne(s: seq<Record>, c: Call)
    ensures Run(s, [c]) == Step(s, c)
  {
    assert [c][1..] == [];
  }

  /** Running two calls is taking two steps. */
  lemma RunTwo(s: seq<Record>, c1: Call, c2: Call)
    ensures Run(s, [c1, c2]) == Step(Step(s, c1), c2)
  {
    assert [c1, c2][1..] == [c2];
    RunOne(Step(s, c1), c2);
  }

  /** A fresh list after three accepted adds, followed by further calls. */
  lemma ReplayThreeAdds(t1: string, t2: string, t3: string, more: seq<Call>)
    requires |t1| > 0 && |t2| > 0 && |t3| > 0
    ensures Replay([AddCall(t1), AddCall(t2), AddCall(t3)] + more)
      == Run([Record(1, t1, false), Record(2, t2, false), Record(3, t3, false)], more)
  {
    var calls := [AddCall(t1), AddCall(t2), AddCall(t3)] + more;
    assert calls[1..] == [AddCall(t2), AddCall(t3)] + more;
    assert calls[1..][1..] == [AddCall(t3)] + more;
    assert calls[1..][1..][1..] == more;
    var r1 := [Record(1, t1, false)];
    var r2 := r1 + [Record(2, t2, false)];
    var r3 := r2 + [Record(3, t3, false)];
    assert Step([], calls[0]) == r1;
    assert Run([], calls) == Run(r1, calls[1..]);
    assert Step(r1, calls[1..][0]) == r2;
    assert Run(r1, calls[1..]) == Run(r2, calls[1..][1..]);
    assert Step(r2, calls[1..][1..][0]) == r3;
    assert Run(r2, calls[1..][1..]) == Run(r3, more);
    assert r3 == [Record(1, t1, false), Record(2, t2, false), Record(3, t3, false)];
  }

  /** Three adds, as in server/src/__tests__/TaskList.models.test.ts:59-69, give ids 1, 2, 3 in order. */
  lemma ThreeAddsGiveIdsOneToThree()
    ensures Replay([AddCall("Task 1"), AddCall("Task 2"), AddCall("Task 3")])
      == [Record(1, "Task 1", false), Record(2, "Task 2", false), Record(3, "Task 3", false)]
  {
    var adds := [AddCall("Task 1"), AddCall("Task 2"), AddCall("Task 3")];
    ReplayThreeAdds("Task 1", "Task 2", "Task 3", []);
    assert adds + [] == adds;
  }

  /** That list after `removeById(2)` holds ids 1 and 3, in order. */
  lemma ThreeAddsThenRemoveMiddle()
    ensures Replay([AddCall("Task 1"), AddCall("Task 2"), AddCall("Task 3"), RemoveCall(2)])
      == [Record(1, "Task 1", false), Record(3, "Task 3", false)]
  {
    ReplayThreeAdds("Task 1", "Task 2", "Task 3", [RemoveCall(2)]);
    assert [AddCall("Task 1"), AddCall("Task 2"), AddCall("Task 3")] + [RemoveCall(2)]
      == [AddCall("Task 1"), AddCall("Task 2"), AddCall("Task 3"), RemoveCall(2)];
    RemoveMiddleOfThree();
  }

  /** From ids 1, 2, 3: removing id 2 leaves ids 1 and 3. */
  lemma RemoveMiddleOfThree()
    ensures Run([Record(1, "Task 1", false), Record(2, "Task 2", false), Record(3, "Task 3", false)],
                [RemoveCall(2)])
      == [Record(1, "Task 1", false), Record(3, "Task 3", false)]
  {
    var s3 := [Record(1, "Task 1", false), Record(2, "Task 2", false), Record(3, "Task 3", false)];
    RunOne(s3, RemoveCall(2));
    assert FindIndex(s3, 2) == 1;
    assert Step(s3, RemoveCall(2)) == s3[..1] + s3[2..];
  }

  /** One call keeps every id at least 1. */
  lemma StepKeepsIdsPositive(s: seq<Record>, c: Call)
    requires forall i :: 0 <= i < |s| ==> s[i].id >= 1
    ensures forall i :: 0 <= i < |Step(s, c)| ==> Step(s, c)[i].id >= 1
  {
    if c.RemoveCall? && FindIndex(s, c.id) >= 0 {
      var k := FindIndex(s, c.id);
      var r := RemoveAt(s, k);
      forall i | 0 <= i < |r| ensures r[i].id >= 1 {
        if i < k { assert r[i] == s[i]; } else { assert r[i] == s[i + 1]; }
      }
    }
  }

  /** Every id a shared list ever holds is at least 1. */
  lemma {:induction false} IdsPositive(s: seq<Record>, calls: seq<Call>)
    requires forall i :: 0 <= i < |s| ==> s[i].id >= 1
    ensures forall i :: 0 <= i < |Run(s, calls)| ==> Run(s, calls)[i].id >= 1
    decreases calls
  {
    if calls != [] {
      StepKeepsIdsPositive(s, calls[0]);
      IdsPositive(Step(s, calls[0]), calls[1..]);
    }
  }
}
