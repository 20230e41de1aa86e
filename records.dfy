/**
 * The input document and the first half of `process`: checking each
 * student's record and grouping students by slot key into
 * `availabilities` and `all_students`.
 */
module Records {
  import opened Wrappers
  import opened Errors
  import opened Weekdays
  import opened Slots

  /** A value of the parsed TOML document. Tables keep their keys in document order. */
  datatype Value =
    | Str(s: string)
    | Integer(i: int)
    | Float(f: real)
    | Boolean(b: bool)
    | DateTime
    | Array(items: seq<Value>)
    | Table(fields: seq<(string, Value)>)

  /** `d[k]` when `k in d`, `None` otherwise. */
  function Get(fields: seq<(string, Value)>, k: string): (r: Option<Value>)
    ensures r.Some? <==> exists i :: 0 <= i < |fields| && fields[i].0 == k
    ensures r.Some? ==> (k, r.value) in fields
  {
    if fields == [] then None
    else if fields[0].0 == k then Some(fields[0].1)
    else
      assert fields == [fields[0]] + fields[1..];
      Get(fields[1..], k)
  }

  /** `float(slot["slot"])` for an integer or a float. */
  function Hours(v: Value): (r: real)
    requires v.Integer? || v.Float?
    ensures v.Integer? ==> r.Floor == v.i && r == r.Floor as real
    ensures v.Float? ==> r == v.f
  {
    if v.Integer? then v.i as real else v.f
  }

  /** A slot table whose `weekday` is a day token and whose `slot` is a number. */
  ghost predicate WellFormedSlot(v: Value)
  {
    && v.Table?
    && Get(v.fields, "weekday").Some?
    && Get(v.fields, "weekday").value.Str?
    && IsWeekdayToken(Get(v.fields, "weekday").value.s)
    && Get(v.fields, "slot").Some?
    && (Get(v.fields, "slot").value.Integer? || Get(v.fields, "slot").value.Float?)
  }

  /** Slot table `v` names day `k.day` (by either token) at time `k.time`. */
  ghost predicate Denotes(v: Value, k: Key)
  {
    && v.Table?
    && Get(v.fields, "weekday") in {Some(Str(Abbrev(k.day))), Some(Str(FullName(k.day)))}
    && Get(v.fields, "slot").Some?
    && (Get(v.fields, "slot").value.Integer? || Get(v.fields, "slot").value.Float?)
    && Hours(Get(v.fields, "slot").value) == k.time
  }

  /** A student entry that is a table whose `slots` is an array of well-formed slots. */
  ghost predicate WellFormedStudent(info: Value)
  {
    && info.Table?
    && Get(info.fields, "slots").Some?
    && Get(info.fields, "slots").value.Array?
    && forall j :: 0 <= j < |Get(info.fields, "slots").value.items| ==>
         WellFormedSlot(Get(info.fields, "slots").value.items[j])
  }

  /** The student entry `info` lists a slot that denotes `k`. */
  ghost predicate ListsKey(info: Value, k: Key)
  {
    && info.Table?
    && Get(info.fields, "slots").Some?
    && Get(info.fields, "slots").value.Array?
    && exists j :: 0 <= j < |Get(info.fields, "slots").value.items| &&
         Denotes(Get(info.fields, "slots").value.items[j], k)
  }

  /** Some student called `name` lists a slot that denotes `k`. */
  ghost predicate Declares(students: seq<(string, Value)>, name: string, k: Key)
  {
    exists i :: 0 <= i < |students| && students[i].0 == name && ListsKey(students[i].1, k)
  }

  /** The names of the students, whether or not they list any slot. */
  function NamesOf(students: seq<(string, Value)>): set<string>
  {
    set i | 0 <= i < |students| :: students[i].0
  }

  /** The `slots` list of a student entry, or the failure for a malformed entry. */
  function StudentSlots(name: string, info: Value): (r: Result<seq<Value>, Error>)
    ensures r.Ok? <==> info.Table? && Get(info.fields, "slots").Some? && Get(info.fields, "slots").value.Array?
    ensures r.Ok? ==> r.value == Get(info.fields, "slots").value.items
    ensures r.Err? ==> r.error == MissingSlots(name)
  {
    if !info.Table? || Get(info.fields, "slots").None? || !Get(info.fields, "slots").value.Array? then
      Err(MissingSlots(name))
    else
      Ok(Get(info.fields, "slots").value.items)
  }

  /** A slot table with both a `weekday` and a `slot` key. */
  predicate HasSlotKeys(v: Value)
  {
    v.Table? && Get(v.fields, "weekday").Some? && Get(v.fields, "slot").Some?
  }

  /** A slot table whose `weekday` is a string and whose `slot` is an integer or a float. */
  predicate SlotTyped(v: Value)
  {
    && HasSlotKeys(v)
    && Get(v.fields, "weekday").value.Str?
    && (Get(v.fields, "slot").value.Integer? || Get(v.fields, "slot").value.Float?)
  }

  /**
   * The key of one slot of student `name`: the shape is checked first, then
   * the value types, then the weekday token; each check has its own error.
   */
  function ParseSlot(name: string, v: Value): (r: Result<Key, Error>)
    ensures r.Ok? <==> WellFormedSlot(v)
    ensures r.Ok? ==> Denotes(v, r.value)
    ensures r == Err(SlotMissingKeys(name)) <==> !HasSlotKeys(v)
    ensures r == Err(SlotMistyped(name)) <==> HasSlotKeys(v) && !SlotTyped(v)
    ensures (r.Err? && r.error.InvalidWeekday?) <==>
              SlotTyped(v) && !IsWeekdayToken(Get(v.fields, "weekday").value.s)
    ensures r.Err? && r.error.InvalidWeekday? ==>
              SlotTyped(v) && r.error == InvalidWeekday(Get(v.fields, "weekday").value.s)
  {
    if !v.Table? || Get(v.fields, "weekday").None? || Get(v.fields, "slot").None? then
      Err(SlotMissingKeys(name))
    else
      var w := Get(v.fields, "weekday").value;
      var t := Get(v.fields, "slot").value;
      if !w.Str? || !(t.Integer? || t.Float?) then
        Err(SlotMistyped(name))
      else
        match ParseWeekday(w.s)
        case Err(e) => Err(e)
        case Ok(d) => Ok(Key(d, Hours(t)))
  }

  /** `b` is `a`, or `a` is an integer and `b` the float with the same value. */
  predicate SameNumber(a: Value, b: Value)
  {
    a == b || (a.Integer? && b == Float(a.i as real))
  }

  /** Two tables with the same keys in the same order whose values differ at most in number form. */
  predicate SameUpToNumberForm(fs: seq<(string, Value)>, gs: seq<(string, Value)>)
  {
    |fs| == |gs| && forall j :: 0 <= j < |fs| ==> fs[j].0 == gs[j].0 && SameNumber(fs[j].1, gs[j].1)
  }

  /** `float(9) == 9.0`: an integer slot and the float with its value give the same time. */
  lemma SameHours(i: int)
    ensures Hours(Integer(i)) == Hours(Float(i as real))
  {
  }

  /** Looking a key up in two such tables finds it in both or neither, with values of the same number. */
  lemma {:induction false} GetSameNumber(fs: seq<(string, Value)>, gs: seq<(string, Value)>, k: string)
    requires SameUpToNumberForm(fs, gs)
    ensures Get(fs, k).Some? <==> Get(gs, k).Some?
    ensures Get(fs, k).Some? ==> SameNumber(Get(fs, k).value, Get(gs, k).value)
  {
    if fs != [] && fs[0].0 != k {
      assert SameUpToNumberForm(fs[1..], gs[1..]) by {
        forall j | 0 <= j < |fs[1..]|
          ensures fs[1..][j].0 == gs[1..][j].0 && SameNumber(fs[1..][j].1, gs[1..][j].1)
        {
          assert fs[1..][j] == fs[j + 1] && gs[1..][j] == gs[j + 1];
        }
      }
      GetSameNumber(fs[1..], gs[1..], k);
    }
  }

  /**
   * Writing a slot's number as an integer or as the float of the same value
   * (`slot = 9` or `slot = 9.0`) makes no difference: both parse to the same
   * key, or fail with the same error, so both land on one `availabilities` key.
   */
  lemma ParseSlotNumberForm(name: string, fs: seq<(string, Value)>, gs: seq<(string, Value)>)
    requires SameUpToNumberForm(fs, gs)
    ensures ParseSlot(name, Table(fs)) == ParseSlot(name, Table(gs))
  {
    GetSameNumber(fs, gs, "weekday");
    GetSameNumber(fs, gs, "slot");
  }

  /** A slot table denotes one key only, the one `ParseSlot` reads from it. */
  lemma DenotesParsed(name: string, v: Value, k: Key)
    requires Denotes(v, k)
    ensures ParseSlot(name, v) == Ok(k)
  {
    ParseWeekdayRoundTrip(k.day);
  }

  /**
   * `availabilities[key].add(name)`, first creating `availabilities[key] =
   * set()` at the end of the insertion order when the key is new.
   */
  function AddAvailability(av: Availabilities, k: Key, name: string): (r: Availabilities)
    ensures |av| <= |r| <= |av| + 1
    ensures forall j :: 0 <= j < |av| ==> r[j].0 == av[j].0
  {
    if av == [] then [(k, {name})]
    else if av[0].0 == k then [(k, av[0].1 + {name})] + av[1..]
    else [av[0]] + AddAvailability(av[1..], k, name)
  }

  /** An existing key keeps its place; a new key goes last. */
  lemma {:induction false} AddAvailabilityKeys(av: Availabilities, k: Key, name: string)
    ensures KeysOf(AddAvailability(av, k, name)) == if k in KeysOf(av) then KeysOf(av) else KeysOf(av) + [k]
  {
    var r := AddAvailability(av, k, name);
    if av == [] {
    } else if av[0].0 == k {
      KeysOfCons(av);
      KeysOfCons(r);
    } else {
      var tail := AddAvailability(av[1..], k, name);
      AddAvailabilityKeys(av[1..], k, name);
      assert r == [av[0]] + tail;
      KeysOfCons(av);
      KeysOfCons(r);
      assert r[1..] == tail;
    }
  }

  /** Only the set at `k` changes, and it gains `name`. */
  lemma {:induction false} AddAvailabilityLookup(av: Availabilities, k: Key, name: string, k': Key)
    ensures Lookup(AddAvailability(av, k, name), k') == if k' == k then Lookup(av, k') + {name} else Lookup(av, k')
  {
    if av != [] && av[0].0 != k {
      AddAvailabilityLookup(av[1..], k, name, k');
    }
  }

  lemma AddAvailabilityDistinct(av: Availabilities, k: Key, name: string)
    requires DistinctKeys(av)
    ensures DistinctKeys(AddAvailability(av, k, name))
  {
    var r := AddAvailability(av, k, name);
    AddAvailabilityKeys(av, k, name);
    assert forall i :: 0 <= i < |r| ==> KeysOf(r)[i] == r[i].0;
    assert forall i :: 0 <= i < |av| ==> KeysOf(av)[i] == av[i].0;
  }

  /** The inner loop: records student `name` at the key of each of their slots. */
  function CollectSlots(name: string, slots: seq<Value>, av: Availabilities): (r: Result<Availabilities, Error>)
    ensures r.Err? ==> slots != []
    ensures r.Ok? ==> |av| <= |r.value| && forall j :: 0 <= j < |av| ==> r.value[j].0 == av[j].0
  {
    if slots == [] then Ok(av)
    else
      match ParseSlot(name, slots[0])
      case Err(e) => Err(e)
      case Ok(k) => CollectSlots(name, slots[1..], AddAvailability(av, k, name))
  }

  /**
   * The outer loop over `students.items()`: each name joins `all_students`,
   * then the entry is checked and its slots recorded.
   */
  function CollectStudents(students: seq<(string, Value)>, all: set<string>, av: Availabilities)
    : (r: Result<(set<string>, Availabilities), Error>)
    ensures r.Err? ==> students != []
    ensures r.Ok? ==> all <= r.value.0 && |av| <= |r.value.1|
    ensures r.Ok? ==> forall j :: 0 <= j < |av| ==> r.value.1[j].0 == av[j].0
  {
    if students == [] then Ok((all, av))
    else
      var name := students[0].0;
      match StudentSlots(name, students[0].1)
      case Err(e) => Err(e)
      case Ok(slots) =>
        match CollectSlots(name, slots, av)
        case Err(e) => Err(e)
        case Ok(av') => CollectStudents(students[1..], all + {name}, av')
  }

  /** The inner loop fails exactly when some slot of the list is malformed. */
  lemma {:induction false} CollectSlotsAccepts(name: string, slots: seq<Value>, av: Availabilities)
    ensures CollectSlots(name, slots, av).Ok? <==> forall j :: 0 <= j < |slots| ==> WellFormedSlot(slots[j])
  {
    if slots != [] {
      match ParseSlot(name, slots[0])
      case Err(_) =>
      case Ok(k) =>
        CollectSlotsAccepts(name, slots[1..], AddAvailability(av, k, name));
        assert forall j :: 1 <= j < |slots| ==> slots[j] == slots[1..][j - 1];
    }
  }

  /** `e` is the error of the first malformed slot of the list; the slots before it are well formed. */
  ghost predicate ReportsSlot(name: string, slots: seq<Value>, e: Error)
  {
    exists j :: 0 <= j < |slots| && (forall j' :: 0 <= j' < j ==> WellFormedSlot(slots[j'])) &&
                ParseSlot(name, slots[j]) == Err(e)
  }

  /** `e` is the error of the student entry: a missing `slots` list, or its first malformed slot. */
  ghost predicate ReportsStudent(name: string, info: Value, e: Error)
  {
    || StudentSlots(name, info) == Err(e)
    || (StudentSlots(name, info).Ok? && ReportsSlot(name, StudentSlots(name, info).value, e))
  }

  /** A failing inner loop reports the error of the first malformed slot. */
  lemma {:induction false} CollectSlotsFirstError(name: string, slots: seq<Value>, av: Availabilities)
    requires CollectSlots(name, slots, av).Err?
    ensures ReportsSlot(name, slots, CollectSlots(name, slots, av).error)
  {
    var e := CollectSlots(name, slots, av).error;
    match ParseSlot(name, slots[0])
    case Err(_) =>
      assert ParseSlot(name, slots[0]) == Err(e);
    case Ok(k) =>
      var rest := slots[1..];
      CollectSlotsFirstError(name, rest, AddAvailability(av, k, name));
      var j :| 0 <= j < |rest| && (forall j' :: 0 <= j' < j ==> WellFormedSlot(rest[j'])) &&
               ParseSlot(name, rest[j]) == Err(e);
      forall j' | 0 <= j' < j + 1
        ensures WellFormedSlot(slots[j'])
      {
        if j' > 0 {
          assert slots[j'] == rest[j' - 1];
        }
      }
      assert slots[j + 1] == rest[j];
  }

  /**
   * A failing outer loop reports the error of the first malformed student
   * entry; every entry before it is well formed.
   */
  lemma {:induction false} CollectStudentsFirstError(students: seq<(string, Value)>, all: set<string>, av: Availabilities)
    requires CollectStudents(students, all, av).Err?
    ensures exists i :: 0 <= i < |students| &&
              (forall i' :: 0 <= i' < i ==> WellFormedStudent(students[i'].1)) &&
              ReportsStudent(students[i].0, students[i].1, CollectStudents(students, all, av).error)
  {
    var e := CollectStudents(students, all, av).error;
    var name := students[0].0;
    match StudentSlots(name, students[0].1)
    case Err(_) =>
      assert ReportsStudent(students[0].0, students[0].1, e);
    case Ok(slots) =>
      match CollectSlots(name, slots, av)
      case Err(_) =>
        CollectSlotsFirstError(name, slots, av);
        assert ReportsStudent(students[0].0, students[0].1, e);
      case Ok(av') =>
        var rest := students[1..];
        CollectStudentsFirstError(rest, all + {name}, av');
        CollectSlotsAccepts(name, slots, av);
        assert WellFormedStudent(students[0].1);
        var i :| 0 <= i < |rest| && (forall i' :: 0 <= i' < i ==> WellFormedStudent(rest[i'].1)) &&
                 ReportsStudent(rest[i].0, rest[i].1, e);
        WellFormedPrefixCons(students, i);
        assert students[i + 1] == rest[i];
  }

  /** A well-formed first entry followed by `i` well-formed entries makes `i + 1` of them. */
  lemma WellFormedPrefixCons(students: seq<(string, Value)>, i: nat)
    requires i < |students| - 1 && WellFormedStudent(students[0].1)
    requires forall i' :: 0 <= i' < i ==> WellFormedStudent(students[1..][i'].1)
    ensures forall i' :: 0 <= i' < i + 1 ==> WellFormedStudent(students[i'].1)
  {
    forall i' | 0 <= i' < i + 1
      ensures WellFormedStudent(students[i'].1)
    {
      if i' > 0 {
        assert students[i'] == students[1..][i' - 1];
      }
    }
  }

  /** The inner loop keeps the keys distinct. */
  lemma {:induction false} CollectSlotsDistinct(name: string, slots: seq<Value>, av: Availabilities)
    requires DistinctKeys(av) && CollectSlots(name, slots, av).Ok?
    ensures DistinctKeys(CollectSlots(name, slots, av).value)
  {
    if slots != [] {
      var k := ParseSlot(name, slots[0]).value;
      AddAvailabilityDistinct(av, k, name);
      CollectSlotsDistinct(name, slots[1..], AddAvailability(av, k, name));
    }
  }

  /** After the inner loop, `name` is free at `k` when it was before or one of the slots denotes `k`. */
  lemma {:induction false} CollectSlotsLookup(name: string, slots: seq<Value>, av: Availabilities, k: Key, n: string)
    requires CollectSlots(name, slots, av).Ok?
    ensures n in Lookup(CollectSlots(name, slots, av).value, k) <==>
            n in Lookup(av, k) || (n == name && exists j :: 0 <= j < |slots| && Denotes(slots[j], k))
  {
    if slots != [] {
      var k0 := ParseSlot(name, slots[0]).value;
      var av1 := AddAvailability(av, k0, name);
      CollectSlotsLookup(name, slots[1..], av1, k, n);
      AddAvailabilityLookup(av, k0, name, k);
      if Denotes(slots[0], k) {
        DenotesParsed(name, slots[0], k);
      }
      if exists j :: 0 <= j < |slots| && Denotes(slots[j], k) {
        var j :| 0 <= j < |slots| && Denotes(slots[j], k);
        if j > 0 {
          assert slots[1..][j - 1] == slots[j];
        }
      }
      if exists j :: 0 <= j < |slots[1..]| && Denotes(slots[1..][j], k) {
        var j :| 0 <= j < |slots[1..]| && Denotes(slots[1..][j], k);
        assert slots[j + 1] == slots[1..][j];
      }
    }
  }

  /** The outer loop fails exactly when some student entry is malformed. */
  lemma {:induction false} CollectStudentsAccepts(students: seq<(string, Value)>, all: set<string>, av: Availabilities)
    ensures CollectStudents(students, all, av).Ok? <==>
            forall i :: 0 <= i < |students| ==> WellFormedStudent(students[i].1)
  {
    if students != [] {
      var name := students[0].0;
      match StudentSlots(name, students[0].1)
      case Err(_) =>
      case Ok(slots) =>
        CollectSlotsAccepts(name, slots, av);
        match CollectSlots(name, slots, av)
        case Err(_) =>
        case Ok(av') =>
          CollectStudentsAccepts(students[1..], all + {name}, av');
          assert forall i :: 1 <= i < |students| ==> students[i] == students[1..][i - 1];
    }
  }

  /**
   * What the outer loop builds: every student joins the set of names, the
   * keys stay distinct, and a student is free at a key exactly when it was
   * before or they list a slot that denotes the key.
   */
  lemma CollectStudentsBuilds(students: seq<(string, Value)>, all: set<string>, av: Availabilities, k: Key, n: string)
    requires CollectStudents(students, all, av).Ok?
    ensures CollectStudents(students, all, av).value.0 == all + NamesOf(students)
    ensures DistinctKeys(av) ==> DistinctKeys(CollectStudents(students, all, av).value.1)
    ensures n in Lookup(CollectStudents(students, all, av).value.1, k) <==>
            n in Lookup(av, k) || Declares(students, n, k)
  {
    CollectStudentsNames(students, all, av);
    if DistinctKeys(av) {
      CollectStudentsDistinct(students, all, av);
    }
    CollectStudentsLookup(students, all, av, k, n);
  }

  /** The names of a non-empty student table: the first name, then the rest. */
  lemma NamesOfCons(students: seq<(string, Value)>)
    requires students != []
    ensures NamesOf(students) == {students[0].0} + NamesOf(students[1..])
  {
    forall x | x in NamesOf(students)
      ensures x in {students[0].0} + NamesOf(students[1..])
    {
      var i :| 0 <= i < |students| && students[i].0 == x;
      if i > 0 {
        assert students[1..][i - 1] == students[i];
      }
    }
    forall x | x in NamesOf(students[1..])
      ensures x in NamesOf(students)
    {
      var i :| 0 <= i < |students[1..]| && students[1..][i].0 == x;
      assert students[i + 1] == students[1..][i];
    }
  }

  /** A student declares a key in a non-empty table through its first entry or the rest. */
  lemma DeclaresCons(students: seq<(string, Value)>, n: string, k: Key)
    requires students != []
    ensures Declares(students, n, k) <==>
            (students[0].0 == n && ListsKey(students[0].1, k)) || Declares(students[1..], n, k)
  {
    if Declares(students, n, k) {
      var i :| 0 <= i < |students| && students[i].0 == n && ListsKey(students[i].1, k);
      if i > 0 {
        assert students[1..][i - 1] == students[i];
      }
    }
    if Declares(students[1..], n, k) {
      var i :| 0 <= i < |students[1..]| && students[1..][i].0 == n && ListsKey(students[1..][i].1, k);
      assert students[i + 1] == students[1..][i];
    }
  }

  /** The outer loop adds every student's name to `all_students`. */
  lemma {:induction false} CollectStudentsNames(students: seq<(string, Value)>, all: set<string>, av: Availabilities)
    requires CollectStudents(students, all, av).Ok?
    ensures CollectStudents(students, all, av).value.0 == all + NamesOf(students)
  {
    if students != [] {
      var name := students[0].0;
      var slots := StudentSlots(name, students[0].1).value;
      var av' := CollectSlots(name, slots, av).value;
      CollectStudentsNames(students[1..], all + {name}, av');
      NamesOfCons(students);
    }
  }

  /** The outer loop never makes a key appear twice. */
  lemma {:induction false} CollectStudentsDistinct(students: seq<(string, Value)>, all: set<string>, av: Availabilities)
    requires CollectStudents(students, all, av).Ok? && DistinctKeys(av)
    ensures DistinctKeys(CollectStudents(students, all, av).value.1)
  {
    if students != [] {
      var name := students[0].0;
      var slots := StudentSlots(name, students[0].1).value;
      var av' := CollectSlots(name, slots, av).value;
      CollectSlotsDistinct(name, slots, av);
      CollectStudentsDistinct(students[1..], all + {name}, av');
    }
  }

  /** After the outer loop a name is free at a key when it was before or that student lists the key. */
  lemma {:induction false} CollectStudentsLookup(students: seq<(string, Value)>, all: set<string>, av: Availabilities, k: Key, n: string)
    requires CollectStudents(students, all, av).Ok?
    ensures n in Lookup(CollectStudents(students, all, av).value.1, k) <==>
            n in Lookup(av, k) || Declares(students, n, k)
  {
    if students != [] {
      var name := students[0].0;
      var slots := StudentSlots(name, students[0].1).value;
      var av' := CollectSlots(name, slots, av).value;
      CollectStudentsLookup(students[1..], all + {name}, av', k, n);
      CollectSlotsLookup(name, slots, av, k, n);
      DeclaresCons(students, n, k);
      assert ListsKey(students[0].1, k) <==> exists j :: 0 <= j < |slots| && Denotes(slots[j], k);
    }
  }

  /**
   * Aggregation from empty: `all_students` is the set of all student names,
   * even those listing no slot; keys are distinct; and a name is in a key's
   * set exactly when that student lists a slot denoting the key, so every
   * name in any set is a student.
   */
  lemma Aggregated(students: seq<(string, Value)>)
    requires CollectStudents(students, {}, []).Ok?
    ensures CollectStudents(students, {}, []).value.0 == NamesOf(students)
    ensures DistinctKeys(CollectStudents(students, {}, []).value.1)
    ensures forall k, n :: n in Lookup(CollectStudents(students, {}, []).value.1, k) <==> Declares(students, n, k)
    ensures forall i :: 0 <= i < |CollectStudents(students, {}, []).value.1| ==>
              CollectStudents(students, {}, []).value.1[i].1 <= NamesOf(students)
  {
    var res := CollectStudents(students, {}, []).value;
    var av := res.1;
    var k0: Key, n0: string :| true;
    CollectStudentsBuilds(students, {}, [], k0, n0);
    forall k, n
      ensures n in Lookup(av, k) <==> Declares(students, n, k)
    {
      CollectStudentsBuilds(students, {}, [], k, n);
    }
    forall i | 0 <= i < |av|
      ensures av[i].1 <= NamesOf(students)
    {
      LookupAt(av, i);
      forall n | n in av[i].1
        ensures n in NamesOf(students)
      {
        assert Declares(students, n, av[i].0);
        var j :| 0 <= j < |students| && students[j].0 == n && ListsKey(students[j].1, av[i].0);
      }
    }
  }

  /** The nested loops of `process` that check the records and fill `availabilities` and `all_students`. */
  method Aggregate(students: seq<(string, Value)>) returns (r: Result<(set<string>, Availabilities), Error>)
    ensures r == CollectStudents(students, {}, [])
  {
    var availabilities: Availabilities := [];
    var allStudents: set<string> := {};
    var i := 0;
    while i < |students|
      invariant 0 <= i <= |students|
      invariant CollectStudents(students[i..], allStudents, availabilities) == CollectStudents(students, {}, [])
    {
      var name := students[i].0;
      var info := students[i].1;
      assert students[i..][0] == students[i] && students[i..][1..] == students[i + 1..];
      allStudents := allStudents + {name};
      if !info.Table? || Get(info.fields, "slots").None? || !Get(info.fields, "slots").value.Array? {
        return Err(MissingSlots(name));
      }
      var slots := Get(info.fields, "slots").value.items;
      var j := 0;
      ghost var before := availabilities;
      while j < |slots|
        invariant 0 <= j <= |slots|
        invariant CollectSlots(name, slots[j..], availabilities) == CollectSlots(name, slots, before)
      {
        var slot := slots[j];
        assert slots[j..][0] == slot && slots[j..][1..] == slots[j + 1..];
        if !slot.Table? || Get(slot.fields, "weekday").None? || Get(slot.fields, "slot").None? {
          return Err(SlotMissingKeys(name));
        }
        var weekdayValue := Get(slot.fields, "weekday").value;
        var slotValue := Get(slot.fields, "slot").value;
        if !weekdayValue.Str? || !(slotValue.Integer? || slotValue.Float?) {
          return Err(SlotMistyped(name));
        }
        var weekday := ParseWeekday(weekdayValue.s);
        if weekday.Err? {
          return Err(weekday.error);
        }
        var timeslot := Hours(slotValue);
        var key := Key(weekday.value, timeslot);
        availabilities := AddAvailability(availabilities, key, name);
        j := j + 1;
      }
      i := i + 1;
    }
    return Ok((allStudents, availabilities));
  }
}
