/**
 * `process(data, amount)`: check and aggregate the students' free slots,
 * then run the covering passes for 1, 2, ... up to `amount` slots and
 * return the first pass's schedule, or the empty list when none succeeds.
 */
module LilSched {
  import opened Wrappers
  import opened Errors
  import opened Names
  import opened Slots
  import opened Records
  import opened Cover

  /** The `students` table of the document is present and is a table. */
  predicate HasStudents(data: seq<(string, Value)>)
  {
    Get(data, "students").Some? && Get(data, "students").value.Table?
  }

  /** The document is accepted: a `students` table whose every entry is well formed. */
  ghost predicate Acceptable(data: seq<(string, Value)>)
  {
    && HasStudents(data)
    && forall i :: 0 <= i < |Get(data, "students").value.fields| ==>
         WellFormedStudent(Get(data, "students").value.fields[i].1)
  }

  /** What `process(data, amount)` returns, or the error it stops with. */
  ghost function ProcessSpec(data: seq<(string, Value)>, amount: int): (r: Result<seq<Entry>, Error>)
    ensures r.Ok? ==> HasStudents(data)
    ensures r.Ok? && amount < 1 ==> r.value == []
  {
    if !HasStudents(data) then Err(StudentsNotTable)
    else
      match CollectStudents(Get(data, "students").value.fields, {}, [])
      case Err(e) => Err(e)
      case Ok(built) => Ok(Schedule(built.1, built.0, amount))
  }

  /** The driver: passes of growing size while none has succeeded and `n <= amount`. */
  method Process(data: seq<(string, Value)>, amount: int) returns (r: Result<seq<Entry>, Error>)
    ensures r == ProcessSpec(data, amount)
  {
    var students := Get(data, "students");
    if students.None? || !students.value.Table? {
      return Err(StudentsNotTable);
    }
    var built := Aggregate(students.value.fields);
    if built.Err? {
      return Err(built.error);
    }
    var allStudents := built.value.0;
    var availabilities := built.value.1;
    var allSlots := KeysOf(availabilities);
    var n: nat := 1;
    var res: Option<seq<Entry>> := None;
    while res.None? && n <= amount
      invariant 1 <= n
      invariant res.None? ==>
                  SearchFrom(availabilities, allStudents, n, amount) == Schedule(availabilities, allStudents, amount)
      invariant res.Some? ==> res.value == Schedule(availabilities, allStudents, amount)
      decreases amount + 1 - n
    {
      SearchFromStep(availabilities, allStudents, n, amount);
      res := SearchPass(availabilities, allStudents, allSlots, n, amount);
      n := n + 1;
    }
    SearchFromStep(availabilities, allStudents, n, amount);
    if res.None? {
      res := Some([]);
    }
    return Ok(res.value);
  }

  /**
   * `process` stops with an error exactly when `students` is missing or not
   * a table, or some student entry or slot is malformed; the first case is
   * reported as such.
   */
  lemma ProcessRejects(data: seq<(string, Value)>, amount: int)
    ensures ProcessSpec(data, amount).Ok? <==> Acceptable(data)
    ensures !HasStudents(data) ==> ProcessSpec(data, amount) == Err(StudentsNotTable)
  {
    if HasStudents(data) {
      CollectStudentsAccepts(Get(data, "students").value.fields, {}, []);
    }
  }

  /**
   * A document with a `students` table that is rejected reports the error of
   * its first malformed student entry (a missing `slots` list, or that
   * entry's first malformed slot); every entry before it is well formed.
   */
  lemma ProcessFirstError(data: seq<(string, Value)>, amount: int)
    requires HasStudents(data) && ProcessSpec(data, amount).Err?
    ensures exists i :: 0 <= i < |Get(data, "students").value.fields| &&
              (forall i' :: 0 <= i' < i ==> WellFormedStudent(Get(data, "students").value.fields[i'].1)) &&
              ReportsStudent(Get(data, "students").value.fields[i].0, Get(data, "students").value.fields[i].1,
                             ProcessSpec(data, amount).error)
  {
    CollectStudentsFirstError(Get(data, "students").value.fields, {}, []);
  }

  /**
   * Every entry of an accepted document's result is a slot with, in
   * ascending order, exactly the students who list it; the slots ascend
   * (so none repeats),
   * there are at most `amount` of them, and a non-empty result names every
   * student.
   */
  lemma ProcessEntries(data: seq<(string, Value)>, amount: int)
    requires ProcessSpec(data, amount).Ok?
    ensures KeyAscending(ProcessSpec(data, amount).value)
    ensures DistinctKeys(ProcessSpec(data, amount).value)
    ensures forall i :: 0 <= i < |ProcessSpec(data, amount).value| ==>
              Ascending(ProcessSpec(data, amount).value[i].1)
    ensures forall i, n :: 0 <= i < |ProcessSpec(data, amount).value| ==>
              (n in ProcessSpec(data, amount).value[i].1 <==>
               Declares(Get(data, "students").value.fields, n, ProcessSpec(data, amount).value[i].0))
    ensures amount >= 0 ==> |ProcessSpec(data, amount).value| <= amount
    ensures ProcessSpec(data, amount).value != [] ==>
              NamesListed(ProcessSpec(data, amount).value) == NamesOf(Get(data, "students").value.fields)
  {
    var fs := Get(data, "students").value.fields;
    var built := CollectStudents(fs, {}, []).value;
    var av := built.1;
    var r := ProcessSpec(data, amount).value;
    Aggregated(fs);
    assert WellFormed(av, built.0);
    ScheduleShape(av, built.0, amount);
    forall i, n | 0 <= i < |r|
      ensures n in r[i].1 <==> Declares(fs, n, r[i].0)
    {
      assert r[i] in r && EntryOfTable(av, r[i]);
      var j :| 0 <= j < |av| && av[j].0 == r[i].0 && r[i].1 == SortedNames(av[j].1);
      SortedNamesFacts(av[j].1);
      LookupAt(av, j);
    }
  }

  /** A student who lists no slot at all can share no slot: the result is empty. */
  lemma UnlistedStudentFails(data: seq<(string, Value)>, amount: int, name: string)
    requires ProcessSpec(data, amount).Ok?
    requires name in NamesOf(Get(data, "students").value.fields)
    requires forall k :: !Declares(Get(data, "students").value.fields, name, k)
    ensures ProcessSpec(data, amount).value == []
  {
    ProcessEntries(data, amount);
  }
}
