/**
 * Slot keys `(weekday, time)`, the availability table keyed by them, and
 * `sorted(found_cover, key=lambda x: x[0])`.
 */
module Slots {
  import opened Weekdays

  /**
   * A slot key `(weekday, timeslot)`. The time of day is the number of hours
   * (13.5 is 13:30), kept exact.
   */
  datatype Key = Key(day: Weekday, time: real)

  /** Python's `<` on the tuple `(weekday, time)`: by weekday value, then by time. */
  predicate KeyLt(a: Key, b: Key)
  {
    Index(a.day) < Index(b.day) || (Index(a.day) == Index(b.day) && a.time < b.time)
  }

  lemma KeyLtTotal(a: Key, b: Key)
    ensures a == b || KeyLt(a, b) || KeyLt(b, a)
  {
    IndexInjective(a.day, b.day);
  }

  /**
   * `availabilities`: each key with the set of students free then, in the
   * order the keys were first inserted.
   */
  type Availabilities = seq<(Key, set<string>)>

  /** One line of the result: a key and the sorted names of the students free then. */
  type Entry = (Key, seq<string>)

  /** No key occurs twice. */
  predicate DistinctKeys<V>(s: seq<(Key, V)>)
  {
    forall i, j :: 0 <= i < j < |s| ==> s[i].0 != s[j].0
  }

  /** Strictly ascending by key. */
  predicate KeyAscending<V>(s: seq<(Key, V)>)
  {
    forall i, j :: 0 <= i < j < |s| ==> KeyLt(s[i].0, s[j].0)
  }

  /** `list(availabilities.keys())`. */
  function KeysOf(av: Availabilities): (r: seq<Key>)
    ensures |r| == |av| && forall i :: 0 <= i < |av| ==> r[i] == av[i].0
  {
    seq(|av|, i requires 0 <= i < |av| => av[i].0)
  }

  /** `availabilities.get(k, set())`. */
  function Lookup(av: Availabilities, k: Key): (r: set<string>)
    ensures r != {} ==> k in KeysOf(av)
  {
    if av == [] then {}
    else if av[0].0 == k then av[0].1
    else Lookup(av[1..], k)
  }

  /** The keys of a non-empty table: the first key, then the keys of the rest. */
  lemma KeysOfCons(av: Availabilities)
    requires av != []
    ensures KeysOf(av) == [av[0].0] + KeysOf(av[1..])
  {
  }

  /** With distinct keys, looking up the key at position `i` gives that position's set. */
  lemma {:induction false} LookupAt(av: Availabilities, i: nat)
    requires DistinctKeys(av) && i < |av|
    ensures Lookup(av, av[i].0) == av[i].1
  {
    if i > 0 {
      assert av[1..][i - 1] == av[i];
      LookupAt(av[1..], i - 1);
    }
  }

  /** A key that is not in the table looks up the empty set. */
  lemma {:induction false} LookupAbsent(av: Availabilities, k: Key)
    requires k !in KeysOf(av)
    ensures Lookup(av, k) == {}
  {
    if av != [] {
      KeysOfCons(av);
      LookupAbsent(av[1..], k);
    }
  }

  /** Places `x` before the first entry whose key is not below its own. */
  function Insert(x: Entry, s: seq<Entry>): (r: seq<Entry>)
    ensures multiset(r) == multiset(s) + multiset{x}
    ensures forall e :: e in r <==> e == x || e in s
  {
    if s == [] then [x]
    else if KeyLt(s[0].0, x.0) then
      assert s == [s[0]] + s[1..];
      [s[0]] + Insert(x, s[1..])
    else
      [x] + s
  }

  lemma {:induction false} InsertAscending(x: Entry, s: seq<Entry>)
    requires KeyAscending(s)
    requires forall e :: e in s ==> e.0 != x.0
    ensures KeyAscending(Insert(x, s))
  {
    if s == [] {
    } else if KeyLt(s[0].0, x.0) {
      var tail := Insert(x, s[1..]);
      InsertAscending(x, s[1..]);
      forall j | 0 <= j < |tail|
        ensures KeyLt(s[0].0, tail[j].0)
      {
        assert tail[j] in tail;
        if tail[j] != x {
          var k :| 0 <= k < |s[1..]| && s[1..][k] == tail[j];
          assert s[k + 1] == tail[j];
        }
      }
    } else {
      KeyLtTotal(s[0].0, x.0);
      assert s[0] in s;
      var r := [x] + s;
      forall i, j | 0 <= i < j < |r|
        ensures KeyLt(r[i].0, r[j].0)
      {
        if i == 0 && j > 1 {
          assert KeyLt(s[0].0, s[j - 1].0);
        }
      }
    }
  }

  /**
   * `sorted(..., key=lambda x: x[0])`, as an insertion sort: a permutation of
   * the input which, when no key repeats, is strictly ascending by key.
   */
  function SortByKey(s: seq<Entry>): (r: seq<Entry>)
    ensures multiset(r) == multiset(s)
    ensures DistinctKeys(s) ==> KeyAscending(r)
  {
    if s == [] then []
    else
      var rest := SortByKey(s[1..]);
      assert s == [s[0]] + s[1..];
      InsertHeadAscending(s, rest);
      Insert(s[0], rest)
  }

  /**
   * Inserting the first entry into the sorted rest keeps it ascending when no
   * key of the whole list repeats.
   */
  lemma InsertHeadAscending(s: seq<Entry>, rest: seq<Entry>)
    requires s != [] && multiset(rest) == multiset(s[1..])
    requires DistinctKeys(s[1..]) ==> KeyAscending(rest)
    ensures DistinctKeys(s) ==> KeyAscending(Insert(s[0], rest))
  {
    if DistinctKeys(s) {
      assert DistinctKeys(s[1..]) by {
        forall i, j | 0 <= i < j < |s[1..]|
          ensures s[1..][i].0 != s[1..][j].0
        {
          assert s[1..][i] == s[i + 1] && s[1..][j] == s[j + 1];
        }
      }
      forall e | e in rest
        ensures e.0 != s[0].0
      {
        assert e in multiset(rest);
        var k :| 0 <= k < |s[1..]| && s[1..][k] == e;
        assert s[k + 1] == e;
      }
      InsertAscending(s[0], rest);
    }
  }
}
