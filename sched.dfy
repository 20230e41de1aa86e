/**
 * The fixed-three scheduler: the same aggregation and passes, with the number
 * of slots fixed at three and the passes for one, two and three slots
 * written out one after another.
 */
module Sched {
  import opened Wrappers
  import opened Errors
  import opened Slots
  import opened Records
  import opened Cover
  import LilSched

  /** The number of slots this scheduler picks. */
  const Amount: int := 3

  /** `process(data)`: behaves as the general driver does with three slots. */
  method Process(data: seq<(string, Value)>) returns (r: Result<seq<Entry>, Error>)
    ensures r == LilSched.ProcessSpec(data, Amount)
  {
    var students := Get(data, "students");
    if students.None? || !students.value.Table? {
      return Err(StudentsNotTable);
    }
    var built := Aggregate(students.value.fields);
    if built.Err? {
      return Err(built.error);
    }
    var allStudents := built.value.0;
    var availabilities := built.value.1;
    var allSlots := KeysOf(availabilities);
    var res := SearchPass(availabilities, allStudents, allSlots, 1, Amount);
    if res.None? {
      res := SearchPass(availabilities, allStudents, allSlots, 2, Amount);
    }
    if res.None? {
      res := SearchPass(availabilities, allStudents, allSlots, 3, Amount);
    }
    if res.None? {
      res := Some([]);
    }
    return Ok(res.value);
  }
}
