# lilsched — a verified model of the slot-picking core

`lilsched` reads a TOML document that lists, for each student, the weekly
time slots (a weekday and a time of day) at which they are free. It picks a
few slots so that every student is free in at least one of them. `process`
works in two halves:

1. **Validation and aggregation.** It checks that the document has a
   `students` table, that each student has a `slots` list, and that each slot
   has a string `weekday` and a numeric `slot`. The weekday token is parsed,
   and the result is grouped into `availabilities`, a map from
   `(weekday, time)` to the set of students free then, kept in
   first-insertion order. `all_students` collects every name.
2. **Iterative-deepening set cover.** For `n = 1, 2, … amount`,
   `search_combinatorial_pass(n)` walks the combinations of `n` distinct
   slots in `itertools.combinations` order. It takes the first combination
   whose students together are everyone, records its slots, and pads the
   choice up to `amount` distinct slots by popping keys off the end of
   `all_slots`. It returns the list sorted by key, each with its students
   sorted. When no pass succeeds the result is `[]`.

`sched.py` is the fixed-three variant. It fixes the number of slots at three and
writes the three passes out one after another.

The model has one module per concern:

- `Weekdays` models the `Weekday` enumeration and `parse_weekday`.
- `Names` models `sorted()` on a set of names, as a selection loop proved
  equal to the unique ascending listing of the set.
- `Slots` holds slot keys, the tuple order on them, the availability table
  and `sorted(…, key=…)`.
- `Combinations` lists `itertools.combinations` of table positions.
- `Records` models the input document, the validation checks and the
  aggregation loops (`Aggregate`).
- `Cover` models the union reduce, a search pass (`SearchPass`, with
  `RecordCover` and `PadCover`) and the driver's outcome (`Schedule`).
- `LilSched` models `process(data, amount)`.
- `Sched` models the three-pass `process(data)`, proved to equal
  `LilSched.ProcessSpec` with three slots.

Errors that the program reports through `error(...)` (which prints and exits)
are `Err` values of `Errors.Error`, one constructor per message.

## Model

| member | source | states |
|---|---|---|
| Weekdays.Index | lilsched.py:12-19 | the weekday's integer value is below 7 |
| Weekdays.IndexInjective | lilsched.py:12-19 | distinct weekdays have distinct values, so tuple order on keys is total |
| Weekdays.ParseWeekday | lilsched.py:25-42 | succeeds exactly on the fourteen tokens "Mon"/"Monday" … "Sun"/"Sunday", returning the day the token names; every other string gives the invalid-weekday error carrying the string |
| Weekdays.ParseWeekdayRoundTrip | lilsched.py:25-42 | both tokens of every day parse back to that day |
| Names.NameLtTransitive | lilsched.py:90 | the string order `sorted` uses is transitive |
| Names.NameLtTotal | lilsched.py:90 | the string order is total on distinct strings |
| Names.SortedNamesFacts | lilsched.py:90 | the sorted listing of a set is strictly ascending and holds exactly the set's members |
| Names.AscendingUnique | lilsched.py:90 | two strictly ascending lists with the same members are equal, so the sorted listing is unique |
| Names.SortNames | lilsched.py:90 | the selection loop returns the sorted listing of the set |
| Slots.KeyLtTotal | lilsched.py:98 | any two distinct `(weekday, time)` keys are ordered one way or the other |
| Slots.KeysOf | lilsched.py:79 | `list(availabilities.keys())` has one key per entry, position by position |
| Slots.Lookup | lilsched.py:97 | `availabilities.get(key, set())` is non-empty only for a key of the table |
| Slots.LookupAt | lilsched.py:97 | with distinct keys, `availabilities.get(key)` of a present key is that key's set |
| Slots.LookupAbsent | lilsched.py:97 | `availabilities.get(key, set())` of an absent key is the empty set |
| Slots.Insert | lilsched.py:98 | inserting an entry adds exactly that entry (as a multiset) |
| Slots.InsertAscending | lilsched.py:98 | inserting an entry with a new key into a key-ascending list keeps it key-ascending |
| Slots.SortByKey | lilsched.py:98 | the sorted list is a permutation of the input and, when no key repeats, strictly ascending by key |
| Combinations.Combs | lilsched.py:82 | asking for more positions than the table has lists no combination at all |
| Combinations.CombsSound | lilsched.py:82 | every listed combination has `n` strictly increasing positions within the table |
| Combinations.CombsComplete | lilsched.py:82 | every strictly increasing choice of `n` positions within the table is listed |
| Combinations.CombsLexOrdered | lilsched.py:82 | combinations come in lexicographic order of their positions: each listed choice is lexicographically smaller than every later one |
| Combinations.CombsDistinct | lilsched.py:82 | no choice of positions is listed twice |
| Records.Get | lilsched.py:50 | a key lookup succeeds exactly when the key is present, and returns a value stored under it |
| Records.SameHours | lilsched.py:71 | `float()` gives an integer slot and the float of the same value (`9` and `9.0`) the same time |
| Records.GetSameNumber | lilsched.py:65-67 | in two tables that differ only in writing numbers as integers or as equal floats, a key is present in both or neither, with values of the same number |
| Records.ParseSlotNumberForm | lilsched.py:65-73 | a slot written with `slot = 9` and one written with `slot = 9.0` (otherwise alike) parse to the same key or fail with the same error, so both land on one `availabilities` key |
| Records.StudentSlots | lilsched.py:60-61 | a student entry is accepted exactly when it is a table with a `slots` array, which is returned; otherwise the missing-slots error for that student |
| Records.ParseSlot | lilsched.py:65-73 | a slot is accepted exactly when it is a table with a string weekday token and an integer or float `slot`, and the key returned is the one the slot denotes; it reports the missing-keys error exactly when the slot is not a table with both `weekday` and `slot`, the mistyped error exactly when it has both but a non-string weekday or a non-numeric `slot`, and the invalid-weekday error, carrying the token, exactly when it is well typed but the token names no weekday |
| Records.DenotesParsed | lilsched.py:69-73 | a slot denotes only the key it is parsed to |
| Records.AddAvailability | lilsched.py:74-76 | adding a name adds at most one entry and leaves every existing key at its position |
| Records.AddAvailabilityKeys | lilsched.py:74-76 | adding a name keeps the key order, appending the key only when it is new |
| Records.AddAvailabilityLookup | lilsched.py:74-76 | adding a name puts it in that key's set and changes no other key's set |
| Records.AddAvailabilityDistinct | lilsched.py:74-76 | adding a name never makes a key appear twice |
| Records.CollectSlots | lilsched.py:64-76 | the slot loop fails only on a non-empty list, and on success keeps every existing key at its position |
| Records.CollectSlotsAccepts | lilsched.py:64-68 | the slot loop succeeds exactly when every slot of the list is well formed |
| Records.CollectSlotsFirstError | lilsched.py:64-70 | a failing slot loop reports the error of its first malformed slot; every slot before it is well formed |
| Records.CollectSlotsLookup | lilsched.py:64-76 | after the slot loop a name is free at a key exactly when it was before, or it is the student's own name and one of their slots denotes the key |
| Records.CollectStudents | lilsched.py:55-76 | aggregation fails only on a non-empty table, and on success keeps `all_students` growing and every existing key at its position |
| Records.CollectStudentsAccepts | lilsched.py:58-68 | aggregation succeeds exactly when every student entry, and every slot in it, is well formed |
| Records.CollectStudentsFirstError | lilsched.py:58-70 | failing aggregation reports the error of the first malformed student entry (missing `slots` list, or its first malformed slot); every entry before it is well formed |
| Records.CollectStudentsBuilds | lilsched.py:55-76 | aggregation adds every student's name, keeps keys distinct, and makes a name free at a key exactly when that student lists a slot denoting it |
| Records.CollectStudentsNames | lilsched.py:58-59 | every student's name joins `all_students`, whether or not they list slots |
| Records.CollectStudentsLookup | lilsched.py:58-76 | after the outer loop a name is free at a key exactly when it was before or that student lists a slot denoting the key |
| Records.Aggregated | lilsched.py:55-76 | from empty collections: `all_students` is every student's name, including one with no slots; keys are distinct; each key's set is exactly its declarers; every set is within `all_students` |
| Records.Aggregate | lilsched.py:55-76 | the nested loops build what `Records.CollectStudents` builds from empty collections, error included |
| Cover.Union | lilsched.py:83 | the union contains the students of every slot of the combination |
| Cover.UnionMembers | lilsched.py:83 | a name is in the union of a combination's sets exactly when it is in one of them |
| Cover.FirstCover | lilsched.py:82-84 | the chosen combination covers everyone and every earlier combination misses somebody; `None` means none covers |
| Cover.Padding | lilsched.py:92-97 | the padding loop pops at most the keys there are and never takes the chosen keys past `amount` |
| Cover.PaddingFacts | lilsched.py:92-97 | padding keys are new and distinct, and with the chosen keys they number `amount`, or all keys when there are fewer |
| Cover.RecordCover | lilsched.py:85-90 | the loop records the combination's keys and lists each of its slots with its students sorted |
| Cover.PadCover | lilsched.py:92-97 | the popping loop appends, in pop order, the padding keys, each with its students sorted |
| Cover.Pass | lilsched.py:81-99 | a pass over more slots than the table has fails |
| Cover.SearchPass | lilsched.py:81-99 | the loop over combinations returns the finished first cover of `n` slots, or `None` |
| Cover.PassNone | lilsched.py:81-99 | a pass fails exactly when no `n` distinct slots cover everyone |
| Cover.PassSome | lilsched.py:81-99 | a successful pass finishes a covering combination of `n` distinct slots that comes first in combination order |
| Cover.FirstCoverLeast | lilsched.py:82-84 | in a lexicographically ordered list of combinations, the first cover is lexicographically smaller than every other cover in the list |
| Cover.PassLexLeast | lilsched.py:81-99 | a successful pass finishes, of all covering choices of `n` distinct slots, the lexicographically least one |
| Cover.ListedFromTable | lilsched.py:88-90 | each slot of the cover is recorded with exactly its own students, sorted |
| Cover.TabulatedFromTable | lilsched.py:94-97 | each padding key is a key of the table, recorded with exactly its own students, sorted |
| Cover.FinishFacts | lilsched.py:85-98 | a finished cover is key-ascending with sorted name lists; each entry is a slot with its own students; it has `amount` entries, or one per slot when there are fewer; it contains the cover's keys; its names are exactly `all_students` |
| Cover.Schedule | lilsched.py:101-113 | with `amount` below 1 no pass runs and the result is `[]` |
| Cover.SearchFromStep | lilsched.py:104-108 | one turn of the driver loop: past `amount` the outcome is `[]`, a successful pass is the outcome, and a failed pass hands over to the next size |
| Cover.FirstSuccessAt | lilsched.py:101-111 | the driver loop's outcome is the result of the pass it stops at when that pass is at most `amount`, and `[]` otherwise |
| Cover.FirstSuccessBefore | lilsched.py:104-108 | every pass the loop runs before the one it stops at fails and is at most `amount` |
| Cover.StoppingPassResult | lilsched.py:101-113 | `process` stops at the first successful pass size and returns that pass's list, or returns `[]` once `amount` is passed |
| Cover.PassesBefore | lilsched.py:104-108 | every pass size below the stopping one is at most `amount` and fails |
| Cover.ScheduleEmpty | lilsched.py:104-113 | the result is `[]` exactly when no combination of 1 to `amount` distinct slots covers everyone |
| Cover.ScheduleMinimal | lilsched.py:101-108 | a non-empty result contains the keys of a cover that is first in combination order among covers of its size, and no cover with fewer slots exists |
| Cover.ScheduleShape | lilsched.py:88-98 | the result is key-ascending with sorted name lists, each entry is a slot with its own students, and it has at most `amount` entries; a non-empty result has `amount` entries, or one per slot when there are fewer, and its names are exactly `all_students` |
| LilSched.ProcessSpec | lilsched.py:45-113 | a result is produced only for a document with a `students` table, and with `amount` below 1 it is `[]` |
| LilSched.Process | lilsched.py:45-113 | `process(data, amount)` returns what `LilSched.ProcessSpec` composes: the students check, aggregation, then the passes |
| LilSched.ProcessRejects | lilsched.py:50-68 | `process` fails exactly when `students` is missing or not a table or some student or slot is malformed; a missing `students` gives that error |
| LilSched.ProcessFirstError | lilsched.py:50-70 | a document with a `students` table that is rejected reports the error of its first malformed student entry; every entry before it is well formed |
| LilSched.ProcessEntries | lilsched.py:45-113 | an accepted document's result has ascending, distinct keys; each entry's names are sorted and are exactly the students who list that slot; there are at most `amount` entries; a non-empty result names every student |
| LilSched.UnlistedStudentFails | lilsched.py:58-59 | a student with no slot at all forces the empty result |
| Sched.Process | sched.py:45-111 | the fixed-three `process(data)`, whose weekday parsing, checks, aggregation and passes are those of the general driver with padding to three, returns exactly what `process(data, 3)` of the general driver returns |

## Left out

- `main` in both files is not modelled: argument parsing, TOML file loading and printing are I/O.
- The `formatted_time` rendering is left out. It only formats output, using float `% 1`.
- `positive_int` is left out. It is command-line parsing; `process` itself returns `[]` for any `amount` below 1, and the model keeps that.
- The printing and exit in `error` are left out; each error becomes an `Err` value.
- Times of day are exact reals. Floating-point rounding, NaN and infinity of TOML floats, and the precision of `float()` on very large integers are not modelled.
- Running time and the cost of the combinatorial search are not modelled.
- TOML tables are sequences of (key, value) pairs in document order, and a lookup takes the first match. TOML forbids duplicate keys, and no property relies on their absence.
- `all_slots` is a single list shared by every pass. Only a pass that succeeds pops from it, and that pass then returns, so the model gives each pass its own copy.
- Names.SortNames: models `sorted()` on a set of strings by a selection loop, without timsort's algorithm. Strings are ordered by code point, as Python orders them.
- Slots.SortByKey: an insertion sort stands for `sorted(…, key=…)`. Stability does not matter, because the keys it sorts are distinct.
