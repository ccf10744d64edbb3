// The item record shared by every list ({id, title, completed}) and the
// pure sequence operations the three list classes and the client are built
// from: first-match search by id, removal by splice, in-place field update.

module ItemRecords {

  /** The value of a task or todo: what `TaskType` and `Todo` hold. */
  datatype Record = Record(id: int, title: string, completed: bool)

  /** A thrown error carries its message; a successful call its value. */
  datatype Result<T> = Success(value: T) | Failure(message: string)

  /**
   * A task or todo object. Lists store references to these objects and
   * hand the same references out again, so a caller that writes to the
   * fields of an item it got back writes into the list.
   */
  class Item {
    var id: int
    var title: string
    var completed: bool

    constructor (id: int, title: string, completed: bool)
      ensures this.id == id && this.title == title && this.completed == completed
    {
      this.id := id;
      this.title := title;
      this.completed := completed;
    }

    function Value(): Record
      reads this
    {
      Record(id, title, completed)
    }
  }

  /** The records currently held by a sequence of item objects. */
  function Records(s: seq<Item>): (r: seq<Record>)
    reads s
    ensures |r| == |s|
    ensures forall i :: 0 <= i < |s| ==> r[i] == s[i].Value()
  {
    if s == [] then [] else [s[0].Value()] + Records(s[1..])
  }

  /** Cutting an object out of the array cuts its record out of the records. */
  lemma RecordsRemoveAt(s: seq<Item>, k: nat)
    requires k < |s|
    ensures Records(RemoveAt(s, k)) == RemoveAt(Records(s), k)
  {
    var a := Records(RemoveAt(s, k));
    var b := RemoveAt(Records(s), k);
    assert |a| == |b|;
    forall i | 0 <= i < |a| ensures a[i] == b[i] {
      if i < k {
        assert RemoveAt(s, k)[i] == s[i];
      } else {
        assert RemoveAt(s, k)[i] == s[i + 1];
      }
    }
  }

  /** Cutting an element out keeps the others pairwise different. */
  lemma DistinctRemoveAt<T>(s: seq<T>, k: nat)
    requires k < |s| && Distinct(s)
    ensures Distinct(RemoveAt(s, k))
  {
    var r := RemoveAt(s, k);
    forall i, j | 0 <= i < j < |r| ensures r[i] != r[j] {
      var i' := if i < k then i else i + 1;
      var j' := if j < k then j else j + 1;
      assert r[i] == s[i'] && r[j] == s[j'];
    }
  }

  /** The records of an array are fixed by the value of each of its objects. */
  lemma RecordsFromValues(s: seq<Item>, r: seq<Record>)
    requires |r| == |s|
    requires forall i :: 0 <= i < |s| ==> r[i] == s[i].Value()
    ensures Records(s) == r
  {
  }

  /** No two records share an id. */
  predicate IdsDistinct(s: seq<Record>)
  {
    forall i, j :: 0 <= i < j < |s| ==> s[i].id != s[j].id
  }

  /** No two positions hold the same object. */
  predicate Distinct<T(==)>(s: seq<T>)
  {
    forall i, j :: 0 <= i < j < |s| ==> s[i] != s[j]
  }

  /**
   * `findIndex(t => t.id === id)`: the first position whose record has the
   * given id, or -1 when none has it.
   */
  function FindIndex(s: seq<Record>, id: int): (k: int)
    ensures -1 <= k < |s|
    ensures k == -1 <==> forall j :: 0 <= j < |s| ==> s[j].id != id
    ensures k >= 0 ==> s[k].id == id && forall j :: 0 <= j < k ==> s[j].id != id
  {
    if s == [] then -1
    else if s[0].id == id then 0
    else
      var k := FindIndex(s[1..], id);
      if k == -1 then -1 else k + 1
  }

  /** `splice(k, 1)` on an array: the element at k is cut out. */
  function RemoveAt<T>(s: seq<T>, k: nat): (r: seq<T>)
    requires k < |s|
    ensures |r| == |s| - 1
    ensures forall i :: 0 <= i < k ==> r[i] == s[i]
    ensures forall i :: k <= i < |r| ==> r[i] == s[i + 1]
    ensures multiset(r) + multiset{s[k]} == multiset(s)
  {
    assert s == s[..k] + [s[k]] + s[k + 1..];
    s[..k] + s[k + 1..]
  }

  /**
   * What `removeById(id)` leaves: the first record with that id cut out, if
   * any; what comes before and after it stays in place.
   */
  function RemoveFirst(s: seq<Record>, id: int): (r: seq<Record>)
    ensures FindIndex(s, id) == -1 ==> r == s
    ensures var k := FindIndex(s, id);
      k >= 0 ==> |r| == |s| - 1 && r[..k] == s[..k] && r[k..] == s[k + 1..]
  {
    var k := FindIndex(s, id);
    if k == -1 then s else RemoveAt(s, k)
  }

  /**
   * What assigning `title` and `completed` to the object `getById(id)`
   * returned does to the list's records.
   */
  function SetFirst(s: seq<Record>, id: int, title: string, completed: bool): (r: seq<Record>)
    ensures |r| == |s|
    ensures forall i :: 0 <= i < |s| ==> r[i].id == s[i].id
    ensures forall i :: 0 <= i < |s| && i != FindIndex(s, id) ==> r[i] == s[i]
    ensures FindIndex(s, id) >= 0 ==> r[FindIndex(s, id)] == Record(id, title, completed)
  {
    var k := FindIndex(s, id);
    if k == -1 then s else s[k := Record(s[k].id, title, completed)]
  }

  /**
   * Removal without a match changes nothing; with a match it cuts out
   * exactly the first record with that id, so putting that record back at
   * its position gives the original list.
   */
  lemma RemoveFirstSpec(s: seq<Record>, id: int)
    ensures FindIndex(s, id) == -1 ==> RemoveFirst(s, id) == s
    ensures var k := FindIndex(s, id);
      k >= 0 ==>
        |RemoveFirst(s, id)| == |s| - 1 &&
        s == RemoveFirst(s, id)[..k] + [s[k]] + RemoveFirst(s, id)[k..] &&
        multiset(RemoveFirst(s, id)) + multiset{s[k]} == multiset(s)
  {
    var k := FindIndex(s, id);
    if k >= 0 {
      var r := RemoveFirst(s, id);
      assert r[..k] == s[..k];
      assert r[k..] == s[k + 1..];
      assert s == s[..k] + [s[k]] + s[k + 1..];
    }
  }

  /** When ids are distinct, after removing an id nothing with that id is left. */
  lemma RemoveFirstLeavesNoMatch(s: seq<Record>, id: int)
    requires IdsDistinct(s)
    ensures FindIndex(RemoveFirst(s, id), id) == -1
    ensures IdsDistinct(RemoveFirst(s, id))
  {
    var k := FindIndex(s, id);
    if k >= 0 {
      var r := RemoveFirst(s, id);
      forall j | 0 <= j < |r| ensures r[j].id != id {
        if j < k { assert r[j] == s[j]; } else { assert r[j] == s[j + 1]; }
      }
    }
  }

  /**
   * The update through the reference keeps every id, length and all other
   * records, and `getById(id)` afterwards finds the same position, now
   * carrying the new title and flag.
   */
  lemma SetFirstSpec(s: seq<Record>, id: int, title: string, completed: bool)
    ensures var r := SetFirst(s, id, title, completed);
      |r| == |s| &&
      (forall i :: 0 <= i < |s| ==> r[i].id == s[i].id) &&
      FindIndex(r, id) == FindIndex(s, id) &&
      (forall i :: 0 <= i < |s| && i != FindIndex(s, id) ==> r[i] == s[i]) &&
      (FindIndex(s, id) >= 0 ==> r[FindIndex(s, id)] == Record(id, title, completed))
  {
    var r := SetFirst(s, id, title, completed);
    var k := FindIndex(s, id);
    assert forall i :: 0 <= i < |s| ==> r[i].id == s[i].id;
    FindIndexSameIds(s, r, id);
  }

  /** With a match, the update writes the new record at the first match. */
  lemma SetFirstFound(s: seq<Record>, id: int, title: string, completed: bool)
    requires FindIndex(s, id) >= 0
    ensures SetFirst(s, id, title, completed) == s[FindIndex(s, id) := Record(id, title, completed)]
  {
  }

  /** Search by id only looks at ids. */
  lemma {:induction false} FindIndexSameIds(s: seq<Record>, t: seq<Record>, id: int)
    requires |s| == |t|
    requires forall i :: 0 <= i < |s| ==> s[i].id == t[i].id
    ensures FindIndex(s, id) == FindIndex(t, id)
  {
    if s != [] && s[0].id != id {
      FindIndexSameIds(s[1..], t[1..], id);
    }
  }
}
