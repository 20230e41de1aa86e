/**
 * The search half of `process`: `search_combinatorial_pass`, the padding of
 * a cover up to `amount` slots, and the final ordering.
 */
module Cover {
  import opened Wrappers
  import opened Names
  import opened Slots
  import opened Combinations

  function Min(a: int, b: int): int
  {
    if a <= b then a else b
  }

  /** The elements of a sequence, as a set. */
  function Elems<T>(s: seq<T>): set<T>
  {
    set x | x in s
  }

  /** No element occurs twice. */
  predicate Distinct<T(==)>(s: seq<T>)
  {
    forall i, j :: 0 <= i < j < |s| ==> s[i] != s[j]
  }

  /**
   * `functools.reduce(set.union, map(lambda x: x[1], items), set())`: the
   * students free in at least one of the chosen slots, folded from the left.
   */
  function Union(av: Availabilities, c: seq<nat>): (r: set<string>)
    requires Within(c, 0, |av|)
    ensures forall j :: 0 <= j < |c| ==> av[c[j]].1 <= r
  {
    if c == [] then {}
    else Union(av, c[..|c| - 1]) + av[c[|c| - 1]].1
  }

  /** The combination `c` covers everyone: the union of its sets is `all_students`. */
  predicate Covers(av: Availabilities, all: set<string>, c: seq<nat>)
  {
    Within(c, 0, |av|) && Union(av, c) == all
  }

  /** What aggregation guarantees: distinct keys, and every listed student is in `all`. */
  ghost predicate WellFormed(av: Availabilities, all: set<string>)
  {
    DistinctKeys(av) && forall i :: 0 <= i < |av| ==> av[i].1 <= all
  }

  /**
   * The first combination of `cs`, in order, whose union is `all`; every
   * combination before it misses somebody.
   */
  function FirstCover(av: Availabilities, all: set<string>, cs: seq<seq<nat>>): (r: Option<seq<nat>>)
    ensures r.Some? ==> exists i :: 0 <= i < |cs| && cs[i] == r.value && Covers(av, all, cs[i]) &&
                          forall j :: 0 <= j < i ==> !Covers(av, all, cs[j])
    ensures r.None? ==> forall c :: c in cs ==> !Covers(av, all, c)
  {
    if cs == [] then None
    else if Covers(av, all, cs[0]) then Some(cs[0])
    else
      var r := FirstCover(av, all, cs[1..]);
      assert forall j :: 1 <= j < |cs| ==> cs[j] == cs[1..][j - 1];
      r
  }

  /** The keys of the slots in combination `c`: `found_cover_keys` before padding. */
  function ChosenKeys(av: Availabilities, c: seq<nat>): set<Key>
    requires Within(c, 0, |av|)
  {
    set i | 0 <= i < |c| :: av[c[i]].0
  }

  /**
   * The keys the padding loop appends: it pops keys off the end of `pending`
   * and keeps those not chosen yet, until `amount` keys are chosen or nothing
   * is left.
   */
  function Padding(pending: seq<Key>, chosen: set<Key>, amount: int): (r: seq<Key>)
    ensures |r| <= |pending|
    ensures |chosen| <= amount ==> |chosen| + |r| <= amount
    decreases |pending|
  {
    if |chosen| >= amount || pending == [] then []
    else
      var k := pending[|pending| - 1];
      var rest := pending[..|pending| - 1];
      if k in chosen then Padding(rest, chosen, amount)
      else [k] + Padding(rest, chosen + {k}, amount)
  }

  /**
   * Padding keys are new and distinct, and together with the keys already
   * chosen they number `amount`, or every key there is when there are fewer.
   */
  lemma {:induction false} PaddingFacts(pending: seq<Key>, chosen: set<Key>, amount: int)
    ensures forall k :: k in Padding(pending, chosen, amount) ==> k in pending && k !in chosen
    ensures Distinct(Padding(pending, chosen, amount))
    ensures |chosen| <= amount ==>
              |chosen| + |Padding(pending, chosen, amount)| == Min(amount, |chosen + Elems(pending)|)
    decreases |pending|
  {
    if |chosen| >= amount || pending == [] {
      assert pending == [] ==> Elems(pending) == {};
      SubsetCard(chosen, chosen + Elems(pending));
    } else {
      var k := pending[|pending| - 1];
      var rest := pending[..|pending| - 1];
      assert pending == rest + [k];
      assert Elems(pending) == Elems(rest) + {k};
      if k in chosen {
        PaddingFacts(rest, chosen, amount);
        assert chosen + Elems(pending) == chosen + Elems(rest);
      } else {
        PaddingFacts(rest, chosen + {k}, amount);
        assert chosen + Elems(pending) == (chosen + {k}) + Elems(rest);
      }
    }
  }

  lemma SubsetCard<T>(a: set<T>, b: set<T>)
    requires a <= b
    ensures |a| <= |b|
  {
    assert b == a + (b - a);
  }

  /** `(slot, sorted(available))` for each slot of the combination, in its order. */
  ghost function Listed(av: Availabilities, c: seq<nat>): (r: seq<Entry>)
    requires Within(c, 0, |av|)
  {
    seq(|c|, i requires 0 <= i < |c| => (av[c[i]].0, SortedNames(av[c[i]].1)))
  }

  /** `(new_slot, sorted(availabilities.get(new_slot, set())))` for each padding key. */
  ghost function Tabulate(av: Availabilities, ks: seq<Key>): (r: seq<Entry>)
  {
    seq(|ks|, i requires 0 <= i < |ks| => (ks[i], SortedNames(Lookup(av, ks[i]))))
  }

  /** The list a successful pass returns for covering combination `c`. */
  ghost function Finish(av: Availabilities, c: seq<nat>, amount: int): seq<Entry>
    requires Within(c, 0, |av|)
  {
    SortByKey(Listed(av, c) + Tabulate(av, Padding(KeysOf(av), ChosenKeys(av, c), amount)))
  }

  lemma CombsWithin(av: Availabilities, n: nat)
    ensures forall c :: c in Combs(0, |av|, n) ==> Increasing(c) && Within(c, 0, |av|) && |c| == n
  {
    forall c | c in Combs(0, |av|, n)
      ensures Increasing(c) && Within(c, 0, |av|) && |c| == n
    {
      CombsSound(0, |av|, n, c);
    }
  }

  /** `search_combinatorial_pass(n)`: the finished first covering combination of `n` slots, if any. */
  ghost function Pass(av: Availabilities, all: set<string>, n: nat, amount: int): (r: Option<seq<Entry>>)
    ensures n > |av| ==> r.None?
  {
    match FirstCover(av, all, Combs(0, |av|, n))
    case None => None
    case Some(c) => Some(Finish(av, c, amount))
  }

  /** The driver from pass `n` on: the first pass that succeeds, or `[]` once `n` exceeds `amount`. */
  ghost function SearchFrom(av: Availabilities, all: set<string>, n: nat, amount: int): seq<Entry>
  {
    FirstSuccess(Passes(av, all, amount), n, amount)
  }

  /** Pass `j` for every `j`, as one function. */
  ghost function Passes(av: Availabilities, all: set<string>, amount: int): nat -> Option<seq<Entry>>
  {
    (j: nat) => Pass(av, all, j, amount)
  }

  /** The outcome of the first of passes `n`, `n + 1`, ... `amount` that succeeds, or `[]`. */
  ghost function FirstSuccess(pass: nat -> Option<seq<Entry>>, n: nat, amount: int): seq<Entry>
    decreases amount + 1 - n
  {
    if n > amount then []
    else
      match pass(n)
      case Some(r) => r
      case None => FirstSuccess(pass, n + 1, amount)
  }

  /** What `process` returns once `availabilities` and `all_students` are built. */
  ghost function Schedule(av: Availabilities, all: set<string>, amount: int): (r: seq<Entry>)
    ensures amount < 1 ==> r == []
  {
    SearchFrom(av, all, 1, amount)
  }

  /** One step of the driver: stop past `amount`, return a successful pass, or go on to the next. */
  lemma SearchFromStep(av: Availabilities, all: set<string>, n: nat, amount: int)
    ensures n > amount ==> SearchFrom(av, all, n, amount) == []
    ensures n <= amount && Pass(av, all, n, amount).Some? ==>
              SearchFrom(av, all, n, amount) == Pass(av, all, n, amount).value
    ensures n <= amount && Pass(av, all, n, amount).None? ==>
              SearchFrom(av, all, n, amount) == SearchFrom(av, all, n + 1, amount)
  {
    assert Passes(av, all, amount)(n) == Pass(av, all, n, amount);
  }

  /** The loop `for slot, available in items` that records the covering combination. */
  method RecordCover(av: Availabilities, c: seq<nat>) returns (keys: set<Key>, cover: seq<Entry>)
    requires Within(c, 0, |av|)
    ensures keys == ChosenKeys(av, c)
    ensures cover == Listed(av, c)
  {
    keys := {};
    cover := [];
    for i := 0 to |c|
      invariant keys == ChosenKeys(av, c[..i])
      invariant cover == Listed(av, c[..i])
    {
      var slot := av[c[i]].0;
      var available := av[c[i]].1;
      keys := keys + {slot};
      var names := SortNames(available);
      cover := cover + [(slot, names)];
      assert c[..i + 1][..i] == c[..i];
    }
    assert c[..|c|] == c;
  }

  /** The padding loop: pops keys off `all_slots` and appends the unchosen ones. */
  method PadCover(av: Availabilities, allSlots: seq<Key>, keys: set<Key>, cover: seq<Entry>, amount: int)
    returns (result: seq<Entry>)
    ensures result == cover + Tabulate(av, Padding(allSlots, keys, amount))
  {
    var pending := allSlots;
    var found := keys;
    result := cover;
    ghost var emitted: seq<Key> := [];
    while |found| < amount && |pending| > 0
      invariant result == cover + Tabulate(av, emitted)
      invariant emitted + Padding(pending, found, amount) == Padding(allSlots, keys, amount)
      decreases |pending|
    {
      var newSlot := pending[|pending| - 1];
      pending := pending[..|pending| - 1];
      if newSlot !in found {
        found := found + {newSlot};
        var names := SortNames(Lookup(av, newSlot));
        assert Tabulate(av, emitted + [newSlot]) == Tabulate(av, emitted) + [(newSlot, names)];
        result := result + [(newSlot, names)];
        emitted := emitted + [newSlot];
      }
    }
    assert emitted == Padding(allSlots, keys, amount);
  }

  /** `search_combinatorial_pass(n)` over the combinations in `itertools.combinations` order. */
  method SearchPass(av: Availabilities, all: set<string>, allSlots: seq<Key>, n: nat, amount: int)
    returns (res: Option<seq<Entry>>)
    requires allSlots == KeysOf(av)
    ensures res == Pass(av, all, n, amount)
  {
    var combos := Combs(0, |av|, n);
    CombsWithin(av, n);
    var i := 0;
    while i < |combos|
      invariant 0 <= i <= |combos|
      invariant FirstCover(av, all, combos[i..]) == FirstCover(av, all, combos)
    {
      var items := combos[i];
      assert combos[i..][0] == items && combos[i..][1..] == combos[i + 1..];
      var allAvailable := Union(av, items);
      if allAvailable == all {
        var keys, cover := RecordCover(av, items);
        cover := PadCover(av, allSlots, keys, cover, amount);
        return Some(SortByKey(cover));
      }
      i := i + 1;
    }
    return None;
  }

  /** A student is in the union exactly when some chosen slot lists them. */
  lemma {:induction false} UnionMembers(av: Availabilities, c: seq<nat>, n: string)
    requires Within(c, 0, |av|)
    ensures n in Union(av, c) <==> exists i :: 0 <= i < |c| && n in av[c[i]].1
  {
    if c != [] {
      var p := c[..|c| - 1];
      UnionMembers(av, p, n);
      assert forall i :: 0 <= i < |p| ==> p[i] == c[i];
    }
  }

  /** Cardinality of the elements of a sequence without repetitions. */
  lemma {:induction false} DistinctCard<T>(s: seq<T>)
    requires Distinct(s)
    ensures |Elems(s)| == |s|
  {
    if s != [] {
      var t := s[1..];
      assert Distinct(t) by {
        forall i, j | 0 <= i < j < |t|
          ensures t[i] != t[j]
        {
          assert t[i] == s[i + 1] && t[j] == s[j + 1];
        }
      }
      DistinctCard(t);
      assert Elems(s) == {s[0]} + Elems(t);
      assert s[0] !in Elems(t);
    }
  }

  /** A pass fails exactly when no combination of `n` distinct slots covers everyone. */
  lemma PassNone(av: Availabilities, all: set<string>, n: nat, amount: int)
    ensures Pass(av, all, n, amount).None? <==>
            forall c :: Increasing(c) && Within(c, 0, |av|) && |c| == n ==> !Covers(av, all, c)
  {
    CombsWithin(av, n);
    if Pass(av, all, n, amount).None? {
      forall c | Increasing(c) && Within(c, 0, |av|) && |c| == n
        ensures !Covers(av, all, c)
      {
        CombsComplete(0, |av|, n, c);
      }
    }
  }

  /**
   * A pass that succeeds finishes the first covering combination of `n`
   * distinct slots in `itertools.combinations` order.
   */
  lemma PassSome(av: Availabilities, all: set<string>, n: nat, amount: int) returns (c: seq<nat>)
    requires Pass(av, all, n, amount).Some?
    ensures Increasing(c) && Within(c, 0, |av|) && |c| == n && Covers(av, all, c)
    ensures FirstCover(av, all, Combs(0, |av|, n)) == Some(c)
    ensures Pass(av, all, n, amount).value == Finish(av, c, amount)
  {
    CombsWithin(av, n);
    c := FirstCover(av, all, Combs(0, |av|, n)).value;
  }

  /** In a lexicographically ordered list, the first cover comes before every other cover. */
  lemma FirstCoverLeast(av: Availabilities, all: set<string>, cs: seq<seq<nat>>, d: seq<nat>)
    requires forall i, j :: 0 <= i < j < |cs| ==> LexLt(cs[i], cs[j])
    requires FirstCover(av, all, cs).Some?
    requires d in cs && Covers(av, all, d) && d != FirstCover(av, all, cs).value
    ensures LexLt(FirstCover(av, all, cs).value, d)
  {
    var c := FirstCover(av, all, cs).value;
    var i :| 0 <= i < |cs| && cs[i] == c && forall j :: 0 <= j < i ==> !Covers(av, all, cs[j]);
    var j :| 0 <= j < |cs| && cs[j] == d;
    NoCoverBefore(av, all, cs, i, j);
  }

  /** A cover in the list sits at or after every position before which nothing covers. */
  lemma NoCoverBefore(av: Availabilities, all: set<string>, cs: seq<seq<nat>>, i: nat, j: nat)
    requires i <= |cs| && j < |cs| && Covers(av, all, cs[j])
    requires forall k :: 0 <= k < i ==> !Covers(av, all, cs[k])
    ensures i <= j
  {
  }

  /**
   * Since `itertools.combinations` lists choices in lexicographic order, the
   * choice a successful pass finishes is the lexicographically least of all
   * covering choices of `n` distinct slots.
   */
  lemma PassLexLeast(av: Availabilities, all: set<string>, n: nat, amount: int) returns (c: seq<nat>)
    requires Pass(av, all, n, amount).Some?
    ensures Increasing(c) && Within(c, 0, |av|) && |c| == n && Covers(av, all, c)
    ensures Pass(av, all, n, amount).value == Finish(av, c, amount)
    ensures forall d :: Increasing(d) && Within(d, 0, |av|) && |d| == n && Covers(av, all, d) && d != c ==>
              LexLt(c, d)
  {
    c := PassSome(av, all, n, amount);
    CombsLexOrdered(0, |av|, n);
    forall d | Increasing(d) && Within(d, 0, |av|) && |d| == n && Covers(av, all, d) && d != c
      ensures LexLt(c, d)
    {
      CombsComplete(0, |av|, n, d);
      FirstCoverLeast(av, all, Combs(0, |av|, n), d);
    }
  }

  /** The keys of a result list, as a set. */
  function ResultKeys(r: seq<Entry>): set<Key>
  {
    set i | 0 <= i < |r| :: r[i].0
  }

  /** The union of a result list's name lists. */
  function NamesListed(r: seq<Entry>): set<string>
  {
    set i, x | 0 <= i < |r| && x in r[i].1 :: x
  }

  /** Every entry carries a key of the table and, sorted, that key's own set. */
  ghost predicate FromTable(av: Availabilities, r: seq<Entry>)
  {
    forall e :: e in r ==> EntryOfTable(av, e)
  }

  /** An entry whose key is in the table and whose names are that key's set, sorted. */
  ghost predicate EntryOfTable(av: Availabilities, e: Entry)
  {
    exists j :: 0 <= j < |av| && av[j].0 == e.0 && e.1 == SortedNames(av[j].1)
  }

  /** `found_cover` before sorting: the combination's entries, then the padding entries. */
  ghost function Unsorted(av: Availabilities, c: seq<nat>, amount: int): seq<Entry>
    requires Within(c, 0, |av|)
  {
    Listed(av, c) + Tabulate(av, Padding(KeysOf(av), ChosenKeys(av, c), amount))
  }

  lemma ChosenCard(av: Availabilities, c: seq<nat>)
    requires DistinctKeys(av) && Increasing(c) && Within(c, 0, |av|)
    ensures |ChosenKeys(av, c)| == |c|
  {
    var picked := seq(|c|, i requires 0 <= i < |c| => av[c[i]].0);
    assert Distinct(picked);
    assert Elems(picked) == ChosenKeys(av, c) by {
      forall k | k in ChosenKeys(av, c)
        ensures k in Elems(picked)
      {
        var i :| 0 <= i < |c| && av[c[i]].0 == k;
        assert picked[i] == k;
      }
    }
    DistinctCard(picked);
  }

  lemma UnsortedSize(av: Availabilities, c: seq<nat>, amount: int)
    requires DistinctKeys(av) && Increasing(c) && Within(c, 0, |av|) && |c| <= amount
    ensures |Unsorted(av, c, amount)| == Min(amount, |av|)
  {
    var chosen := ChosenKeys(av, c);
    PaddingFacts(KeysOf(av), chosen, amount);
    ChosenCard(av, c);
    assert Distinct(KeysOf(av));
    DistinctCard(KeysOf(av));
    assert chosen + Elems(KeysOf(av)) == Elems(KeysOf(av));
  }

  lemma UnsortedDistinct(av: Availabilities, c: seq<nat>, amount: int)
    requires DistinctKeys(av) && Increasing(c) && Within(c, 0, |av|)
    ensures DistinctKeys(Unsorted(av, c, amount))
  {
    var chosen := ChosenKeys(av, c);
    var P := Padding(KeysOf(av), chosen, amount);
    var pre := Unsorted(av, c, amount);
    PaddingFacts(KeysOf(av), chosen, amount);
    forall i, j | 0 <= i < j < |pre|
      ensures pre[i].0 != pre[j].0
    {
      UnsortedKeyAt(av, c, amount, i);
      UnsortedKeyAt(av, c, amount, j);
      if j < |c| {
        assert c[i] < c[j];
      } else if i < |c| {
        assert av[c[i]].0 in chosen;
        assert P[j - |c|] in P;
      }
    }
  }

  /** The key at position `i` of the unsorted list: a chosen slot's, then a padding key. */
  lemma UnsortedKeyAt(av: Availabilities, c: seq<nat>, amount: int, i: nat)
    requires Within(c, 0, |av|) && i < |Unsorted(av, c, amount)|
    ensures i < |c| ==> Unsorted(av, c, amount)[i].0 == av[c[i]].0
    ensures i >= |c| ==> Unsorted(av, c, amount)[i].0 == Padding(KeysOf(av), ChosenKeys(av, c), amount)[i - |c|]
  {
  }

  lemma UnsortedFromTable(av: Availabilities, c: seq<nat>, amount: int)
    requires DistinctKeys(av) && Within(c, 0, |av|)
    ensures FromTable(av, Unsorted(av, c, amount))
  {
    var P := Padding(KeysOf(av), ChosenKeys(av, c), amount);
    PaddingFacts(KeysOf(av), ChosenKeys(av, c), amount);
    ListedFromTable(av, c);
    TabulatedFromTable(av, P);
    ConcatFromTable(av, Listed(av, c), Tabulate(av, P));
  }

  /** Two lists of entries drawn from the table make one. */
  lemma ConcatFromTable(av: Availabilities, L: seq<Entry>, T: seq<Entry>)
    requires forall i :: 0 <= i < |L| ==> EntryOfTable(av, L[i])
    requires forall i :: 0 <= i < |T| ==> EntryOfTable(av, T[i])
    ensures FromTable(av, L + T)
  {
    forall e | e in L + T
      ensures EntryOfTable(av, e)
    {
      var i :| 0 <= i < |L + T| && (L + T)[i] == e;
      if i < |L| {
        assert (L + T)[i] == L[i];
      } else {
        assert (L + T)[i] == T[i - |L|];
      }
    }
  }

  /** Each slot of the combination is listed with its own students. */
  lemma ListedFromTable(av: Availabilities, c: seq<nat>)
    requires Within(c, 0, |av|)
    ensures forall i :: 0 <= i < |c| ==> EntryOfTable(av, Listed(av, c)[i])
  {
    forall i | 0 <= i < |c|
      ensures EntryOfTable(av, Listed(av, c)[i])
    {
      assert av[c[i]].0 == Listed(av, c)[i].0;
    }
  }

  /** Each padding key is a key of the table, listed with its own students. */
  lemma TabulatedFromTable(av: Availabilities, ks: seq<Key>)
    requires DistinctKeys(av)
    requires forall k :: k in ks ==> k in KeysOf(av)
    ensures forall i :: 0 <= i < |ks| ==> EntryOfTable(av, Tabulate(av, ks)[i])
  {
    forall i | 0 <= i < |ks|
      ensures EntryOfTable(av, Tabulate(av, ks)[i])
    {
      assert ks[i] in ks;
      var j :| 0 <= j < |av| && KeysOf(av)[j] == ks[i];
      LookupAt(av, j);
      assert av[j].0 == Tabulate(av, ks)[i].0;
    }
  }

  lemma UnsortedChosen(av: Availabilities, c: seq<nat>, amount: int)
    requires Within(c, 0, |av|)
    ensures ChosenKeys(av, c) <= ResultKeys(Unsorted(av, c, amount))
  {
    var pre := Unsorted(av, c, amount);
    forall k | k in ChosenKeys(av, c)
      ensures k in ResultKeys(pre)
    {
      var i :| 0 <= i < |c| && av[c[i]].0 == k;
      assert pre[i].0 == k;
    }
  }

  /** Sorting keeps the entries: the same elements and the same length. */
  lemma SortedKeeps(pre: seq<Entry>)
    ensures |SortByKey(pre)| == |pre|
    ensures forall e :: e in SortByKey(pre) <==> e in pre
  {
    var r := SortByKey(pre);
    assert |multiset(r)| == |multiset(pre)|;
    forall e
      ensures e in r <==> e in pre
    {
      assert e in r <==> e in multiset(r);
      assert e in pre <==> e in multiset(pre);
    }
  }

  /**
   * What a pass returns for a covering combination `c` of at most `amount`
   * slots: ascending by key without repeats, each name list ascending, every
   * entry a slot of the table with its own students, `amount` entries (or all
   * slots when there are fewer), containing `c`'s slots, and listing exactly
   * the students of `all` between them.
   */
  lemma FinishFacts(av: Availabilities, all: set<string>, c: seq<nat>, amount: int)
    requires WellFormed(av, all)
    requires Increasing(c) && Within(c, 0, |av|) && 1 <= |c| <= amount && Covers(av, all, c)
    ensures KeyAscending(Finish(av, c, amount))
    ensures forall i :: 0 <= i < |Finish(av, c, amount)| ==> Ascending(Finish(av, c, amount)[i].1)
    ensures FromTable(av, Finish(av, c, amount))
    ensures |Finish(av, c, amount)| == Min(amount, |av|)
    ensures ChosenKeys(av, c) <= ResultKeys(Finish(av, c, amount))
    ensures NamesListed(Finish(av, c, amount)) == all
  {
    var pre := Unsorted(av, c, amount);
    var r := Finish(av, c, amount);
    UnsortedSize(av, c, amount);
    UnsortedDistinct(av, c, amount);
    UnsortedFromTable(av, c, amount);
    UnsortedChosen(av, c, amount);
    UnsortedNamesListed(av, all, c, amount);
    SortedKeeps(pre);
    SameElements(av, pre, r);
    FromTableAscending(av, r);
  }

  lemma UnsortedNamesListed(av: Availabilities, all: set<string>, c: seq<nat>, amount: int)
    requires WellFormed(av, all) && Covers(av, all, c)
    ensures NamesListed(Unsorted(av, c, amount)) == all
  {
    var pre := Unsorted(av, c, amount);
    UnsortedFromTable(av, c, amount);
    forall x
      ensures x in NamesListed(pre) <==> x in all
    {
      if x in NamesListed(pre) {
        var i :| 0 <= i < |pre| && x in pre[i].1;
        assert pre[i] in pre && EntryOfTable(av, pre[i]);
        var j :| 0 <= j < |av| && av[j].0 == pre[i].0 && pre[i].1 == SortedNames(av[j].1);
        SortedNamesFacts(av[j].1);
      }
      if x in all {
        UnionMembers(av, c, x);
        var i :| 0 <= i < |c| && x in av[c[i]].1;
        SortedNamesFacts(av[c[i]].1);
        assert pre[i] == (av[c[i]].0, SortedNames(av[c[i]].1));
      }
    }
  }

  /** Two lists with the same entries have the same keys and names and are both drawn from the table. */
  lemma SameElements(av: Availabilities, pre: seq<Entry>, r: seq<Entry>)
    requires forall e :: e in r <==> e in pre
    ensures FromTable(av, pre) ==> FromTable(av, r)
    ensures ResultKeys(r) == ResultKeys(pre)
    ensures NamesListed(r) == NamesListed(pre)
  {
    FewerElements(av, r, pre);
    FewerElements(av, pre, r);
  }

  lemma FewerElements(av: Availabilities, a: seq<Entry>, b: seq<Entry>)
    requires forall e :: e in a ==> e in b
    ensures FromTable(av, b) ==> FromTable(av, a)
    ensures ResultKeys(a) <= ResultKeys(b)
    ensures NamesListed(a) <= NamesListed(b)
  {
    forall k | k in ResultKeys(a)
      ensures k in ResultKeys(b)
    {
      var i :| 0 <= i < |a| && a[i].0 == k;
      assert a[i] in b;
      var p :| 0 <= p < |b| && b[p] == a[i];
    }
    forall x | x in NamesListed(a)
      ensures x in NamesListed(b)
    {
      var i :| 0 <= i < |a| && x in a[i].1;
      assert a[i] in b;
      var p :| 0 <= p < |b| && b[p] == a[i];
      assert x in b[p].1;
    }
  }

  lemma FromTableAscending(av: Availabilities, r: seq<Entry>)
    requires FromTable(av, r)
    ensures forall i :: 0 <= i < |r| ==> Ascending(r[i].1)
  {
    forall i | 0 <= i < |r|
      ensures Ascending(r[i].1)
    {
      assert r[i] in r && EntryOfTable(av, r[i]);
      var j :| 0 <= j < |av| && av[j].0 == r[i].0 && r[i].1 == SortedNames(av[j].1);
      SortedNamesFacts(av[j].1);
    }
  }

  /** The number of the first pass from `n` on that succeeds, or `amount + 1` (at least `n`). */
  ghost function FirstSuccessIndex(pass: nat -> Option<seq<Entry>>, n: nat, amount: int): nat
    decreases amount + 1 - n
  {
    if n > amount || pass(n).Some? then n else FirstSuccessIndex(pass, n + 1, amount)
  }

  /**
   * The driver's outcome from pass `n`: either the pass it stops at succeeds
   * and gives the outcome, or it ran past `amount` and the outcome is `[]`.
   */
  lemma {:induction false} FirstSuccessAt(pass: nat -> Option<seq<Entry>>, n: nat, amount: int)
    ensures n <= FirstSuccessIndex(pass, n, amount)
    ensures FirstSuccessIndex(pass, n, amount) <= amount ==>
              pass(FirstSuccessIndex(pass, n, amount)).Some? &&
              FirstSuccess(pass, n, amount) == pass(FirstSuccessIndex(pass, n, amount)).value
    ensures FirstSuccessIndex(pass, n, amount) > amount ==> FirstSuccess(pass, n, amount) == []
    decreases amount + 1 - n
  {
    if n <= amount && pass(n).None? {
      FirstSuccessAt(pass, n + 1, amount);
    }
  }

  /** Every pass the driver runs before the one it stops at fails. */
  lemma {:induction false} FirstSuccessBefore(pass: nat -> Option<seq<Entry>>, n: nat, amount: int, j: nat)
    requires n <= j < FirstSuccessIndex(pass, n, amount)
    ensures j <= amount && pass(j).None?
    decreases amount + 1 - n
  {
    if j > n {
      FirstSuccessBefore(pass, n + 1, amount, j);
    }
  }

  /** The number of the pass `process` stops at, or `amount + 1` when every pass fails. */
  ghost function StoppingPass(av: Availabilities, all: set<string>, amount: int): nat
  {
    FirstSuccessIndex(Passes(av, all, amount), 1, amount)
  }

  /** The stopping pass succeeds and gives the result, or the result is `[]`. */
  lemma StoppingPassResult(av: Availabilities, all: set<string>, amount: int)
    ensures 1 <= StoppingPass(av, all, amount)
    ensures StoppingPass(av, all, amount) <= amount ==>
              Pass(av, all, StoppingPass(av, all, amount), amount).Some? &&
              Schedule(av, all, amount) == Pass(av, all, StoppingPass(av, all, amount), amount).value
    ensures StoppingPass(av, all, amount) > amount ==> Schedule(av, all, amount) == []
  {
    FirstSuccessAt(Passes(av, all, amount), 1, amount);
  }

  /** Every pass before the stopping one fails. */
  lemma PassesBefore(av: Availabilities, all: set<string>, amount: int, j: nat)
    requires 1 <= j < StoppingPass(av, all, amount)
    ensures j <= amount && Pass(av, all, j, amount).None?
  {
    FirstSuccessBefore(Passes(av, all, amount), 1, amount, j);
  }

  /**
   * The result is `[]` exactly when no combination of between 1 and `amount`
   * distinct slots covers everyone.
   */
  lemma ScheduleEmpty(av: Availabilities, all: set<string>, amount: int)
    ensures Schedule(av, all, amount) == [] <==>
            forall c :: Increasing(c) && Within(c, 0, |av|) && 1 <= |c| <= amount ==> !Covers(av, all, c)
  {
    var m := StoppingPass(av, all, amount);
    StoppingPassResult(av, all, amount);
    forall c | Increasing(c) && Within(c, 0, |av|) && 1 <= |c| < m
      ensures !Covers(av, all, c)
    {
      PassesBefore(av, all, amount, |c|);
      PassNone(av, all, |c|, amount);
    }
    if m <= amount {
      var c := PassSome(av, all, m, amount);
      SortedKeeps(Unsorted(av, c, amount));
    }
  }

  /**
   * A non-empty result contains a covering combination of minimal size
   * (no combination of fewer distinct slots covers everyone), and that
   * combination is the first of its size in `itertools.combinations` order.
   */
  lemma ScheduleMinimal(av: Availabilities, all: set<string>, amount: int) returns (c: seq<nat>)
    requires WellFormed(av, all)
    requires Schedule(av, all, amount) != []
    ensures Increasing(c) && Within(c, 0, |av|) && 1 <= |c| <= amount && Covers(av, all, c)
    ensures FirstCover(av, all, Combs(0, |av|, |c|)) == Some(c)
    ensures ChosenKeys(av, c) <= ResultKeys(Schedule(av, all, amount))
    ensures forall c' :: Increasing(c') && Within(c', 0, |av|) && 1 <= |c'| < |c| ==> !Covers(av, all, c')
  {
    var m := StoppingPass(av, all, amount);
    StoppingPassResult(av, all, amount);
    forall c' | Increasing(c') && Within(c', 0, |av|) && 1 <= |c'| < m
      ensures !Covers(av, all, c')
    {
      PassesBefore(av, all, amount, |c'|);
      PassNone(av, all, |c'|, amount);
    }
    c := PassSome(av, all, m, amount);
    FinishFacts(av, all, c, amount);
  }

  /**
   * The shape of every result: strictly ascending by key (so no key twice),
   * name lists ascending, every entry a slot of the table with its own
   * students, at most `amount` entries; a non-empty result has exactly
   * `amount` entries, or one per slot when there are fewer slots, and its
   * name lists together hold exactly `all_students`.
   */
  lemma ScheduleShape(av: Availabilities, all: set<string>, amount: int)
    requires WellFormed(av, all)
    ensures KeyAscending(Schedule(av, all, amount))
    ensures forall i :: 0 <= i < |Schedule(av, all, amount)| ==> Ascending(Schedule(av, all, amount)[i].1)
    ensures FromTable(av, Schedule(av, all, amount))
    ensures amount >= 0 ==> |Schedule(av, all, amount)| <= amount
    ensures Schedule(av, all, amount) != [] ==>
              |Schedule(av, all, amount)| == Min(amount, |av|) && NamesListed(Schedule(av, all, amount)) == all
  {
    var m := StoppingPass(av, all, amount);
    StoppingPassResult(av, all, amount);
    if m <= amount {
      var c := PassSome(av, all, m, amount);
      FinishFacts(av, all, c, amount);
    }
  }
}
