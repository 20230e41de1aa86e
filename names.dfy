/**
 * Student names and `sorted(...)` over a set of names. Python orders strings
 * lexicographically by code point, a proper prefix before its extensions.
 */
module Names {

  /** Python's `<` on `str`. */
  predicate NameLt(a: string, b: string)
    decreases |a|
  {
    if a == [] then b != []
    else if b == [] then false
    else a[0] < b[0] || (a[0] == b[0] && NameLt(a[1..], b[1..]))
  }

  lemma {:induction false} NameLtIrreflexive(a: string)
    ensures !NameLt(a, a)
    decreases |a|
  {
    if a != [] {
      NameLtIrreflexive(a[1..]);
    }
  }

  lemma {:induction false} NameLtTransitive(a: string, b: string, c: string)
    requires NameLt(a, b) && NameLt(b, c)
    ensures NameLt(a, c)
    decreases |a|
  {
    if a != [] && a[0] == b[0] && b[0] == c[0] {
      NameLtTransitive(a[1..], b[1..], c[1..]);
    }
  }

  lemma {:induction false} NameLtTotal(a: string, b: string)
    ensures a == b || NameLt(a, b) || NameLt(b, a)
    decreases |a|
  {
    if a != [] && b != [] && a[0] == b[0] {
      NameLtTotal(a[1..], b[1..]);
      if a[1..] == b[1..] {
        assert a == [a[0]] + a[1..] && b == [b[0]] + b[1..];
      }
    }
  }

  lemma NameLtAsymmetric(a: string, b: string)
    requires NameLt(a, b)
    ensures !NameLt(b, a)
  {
    if NameLt(b, a) {
      NameLtTransitive(a, b, a);
      NameLtIrreflexive(a);
    }
  }

  /** Strictly ascending, hence without repetitions. */
  predicate Ascending(r: seq<string>)
  {
    forall i, j :: 0 <= i < j < |r| ==> NameLt(r[i], r[j])
  }

  /** `m` is the smallest element of `s`. */
  ghost predicate IsLeast(m: string, s: set<string>)
  {
    m in s && forall y :: y in s ==> !NameLt(y, m)
  }

  lemma {:induction false} LeastExists(s: set<string>)
    requires s != {}
    ensures exists m :: IsLeast(m, s)
    decreases |s|
  {
    var x :| x in s;
    if s != {x} {
      LeastExists(s - {x});
      var m :| IsLeast(m, s - {x});
      if NameLt(x, m) {
        forall y | y in s
          ensures !NameLt(y, x)
        {
          if y != x && NameLt(y, x) {
            NameLtTransitive(y, x, m);
          }
          NameLtIrreflexive(x);
        }
        assert IsLeast(x, s);
      } else {
        assert IsLeast(m, s);
      }
    } else {
      NameLtIrreflexive(x);
      assert IsLeast(x, s);
    }
  }

  /** `sorted(s)` for a set of names: the least name first, then the rest sorted. */
  ghost function SortedNames(s: set<string>): seq<string>
    decreases s
  {
    if s == {} then []
    else
      LeastExists(s);
      var m :| IsLeast(m, s);
      [m] + SortedNames(s - {m})
  }

  /** `sorted(s)` lists exactly the names of `s`, strictly ascending. */
  lemma {:induction false} SortedNamesFacts(s: set<string>)
    ensures Ascending(SortedNames(s))
    ensures forall x :: x in SortedNames(s) <==> x in s
    decreases s
  {
    if s != {} {
      LeastExists(s);
      assert exists m :: IsLeast(m, s) && SortedNames(s) == [m] + SortedNames(s - {m});
      var m :| IsLeast(m, s) && SortedNames(s) == [m] + SortedNames(s - {m});
      var rest := SortedNames(s - {m});
      SortedNamesFacts(s - {m});
      forall y | y in rest
        ensures NameLt(m, y)
      {
        NameLtTotal(m, y);
      }
    }
  }

  /** A set has one ascending listing only. */
  lemma {:induction false} AscendingUnique(a: seq<string>, b: seq<string>)
    requires Ascending(a) && Ascending(b)
    requires forall x :: x in a <==> x in b
    ensures a == b
    decreases |a|
  {
    if b != [] {
      assert b[0] in b;
    }
    if a != [] {
      assert a[0] in b;
      assert b != [];
      if a[0] != b[0] {
        assert b[0] in a;
        var i :| 0 <= i < |a| && a[i] == b[0];
        var j :| 0 <= j < |b| && b[j] == a[0];
        NameLtAsymmetric(a[0], a[i]);
      }
      forall x
        ensures x in a[1..] <==> x in b[1..]
      {
        NameLtIrreflexive(x);
        if x in a[1..] {
          var k :| 1 <= k < |a| && a[k] == x;
          assert x in b;
          var m :| 0 <= m < |b| && b[m] == x;
          assert NameLt(a[0], a[k]);
          assert m != 0;
        }
        if x in b[1..] {
          var k :| 1 <= k < |b| && b[k] == x;
          assert x in a;
          var m :| 0 <= m < |a| && a[m] == x;
          assert NameLt(b[0], b[k]);
          assert m != 0;
        }
      }
      AscendingUnique(a[1..], b[1..]);
      assert a == [a[0]] + a[1..] && b == [b[0]] + b[1..];
    }
  }

  /** `sorted(available)`: lists the names by repeatedly taking the least left. */
  method SortNames(s: set<string>) returns (r: seq<string>)
    ensures r == SortedNames(s)
  {
    r := [];
    var rest := s;
    while rest != {}
      invariant rest <= s
      invariant Ascending(r)
      invariant forall x :: x in r <==> x in s && x !in rest
      invariant forall x, y :: x in r && y in rest ==> NameLt(x, y)
      decreases rest
    {
      var m :| m in rest;
      var todo := rest - {m};
      NameLtIrreflexive(m);
      while todo != {}
        invariant todo <= rest && m in rest && m !in todo
        invariant forall y :: y in rest && y !in todo ==> !NameLt(y, m)
        decreases todo
      {
        var y :| y in todo;
        if NameLt(y, m) {
          forall z | z in rest && z !in todo
            ensures !NameLt(z, y)
          {
            if NameLt(z, y) {
              NameLtTransitive(z, y, m);
            }
          }
          NameLtAsymmetric(y, m);
          m := y;
        }
        NameLtIrreflexive(y);
        todo := todo - {y};
      }
      forall y | y in rest - {m}
        ensures NameLt(m, y)
      {
        NameLtTotal(m, y);
      }
      r := r + [m];
      rest := rest - {m};
    }
    SortedNamesFacts(s);
    AscendingUnique(r, SortedNames(s));
  }
}
