/** Python's ordering of `str` values and `sorted()` over a set of them. */
module Order {

  /** `a < b` on `str`: code point by code point, a proper prefix first. */
  predicate Less(a: string, b: string)
    decreases |a|
  {
    if a == [] then b != []
    else if b == [] then false
    else if a[0] != b[0] then a[0] < b[0]
    else Less(a[1..], b[1..])
  }

  lemma {:induction false} LessIrreflexive(a: string)
    ensures !Less(a, a)
    decreases |a|
  {
    if a != [] {
      LessIrreflexive(a[1..]);
    }
  }

  lemma {:induction false} LessTransitive(a: string, b: string, c: string)
    requires Less(a, b) && Less(b, c)
    ensures Less(a, c)
    decreases |a|
  {
    if a != [] && a[0] == b[0] && b[0] == c[0] {
      LessTransitive(a[1..], b[1..], c[1..]);
    }
  }

  /** Any two distinct strings are ordered one way or the other. */
  lemma {:induction false} LessTotal(a: string, b: string)
    ensures a == b || Less(a, b) || Less(b, a)
    decreases |a|
  {
    if a != [] && b != [] && a[0] == b[0] {
      LessTotal(a[1..], b[1..]);
      if a[1..] == b[1..] {
        assert a == [a[0]] + a[1..] && b == [b[0]] + b[1..];
      }
    }
  }

  lemma {:induction false} LessAsymmetric(a: string, b: string)
    requires Less(a, b)
    ensures !Less(b, a)
  {
    if Less(b, a) {
      LessTransitive(a, b, a);
      LessIrreflexive(a);
    }
  }

  /** The elements of a sequence. */
  function Elements(s: seq<string>): set<string> {
    set x | x in s
  }

  /** Each element is smaller than every later one. */
  predicate StrictlySorted(s: seq<string>) {
    forall i, j | 0 <= i < j < |s| :: Less(s[i], s[j])
  }

  /** `m` is the smallest element of `s`. */
  predicate IsLeast(m: string, s: set<string>) {
    m in s && forall y | y in s :: !Less(y, m)
  }

  /** A non-empty finite set of strings has a smallest element. */
  lemma {:induction false} LeastExists(s: set<string>)
    requires s != {}
    ensures exists m :: IsLeast(m, s)
    decreases |s|
  {
    var x :| x in s;
    var rest := s - {x};
    if rest == {} {
      assert s == {x};
      LessIrreflexive(x);
      assert IsLeast(x, s);
    } else {
      LeastExists(rest);
      var m :| IsLeast(m, rest);
      if Less(x, m) {
        forall y | y in s ensures !Less(y, x) {
          if y == x {
            LessIrreflexive(x);
          } else if Less(y, x) {
            LessTransitive(y, x, m);
          }
        }
        assert IsLeast(x, s);
      } else {
        assert IsLeast(m, s);
      }
    }
  }

  lemma LeastUnique(m1: string, m2: string, s: set<string>)
    requires IsLeast(m1, s) && IsLeast(m2, s)
    ensures m1 == m2
  {
    LessTotal(m1, m2);
  }

  /** The smallest element of a non-empty set. */
  ghost function Least(s: set<string>): (m: string)
    requires s != {}
    ensures IsLeast(m, s)
  {
    LeastExists(s);
    var m :| IsLeast(m, s);
    m
  }

  /** `sorted(s)`: the elements of `s` in ascending order. */
  ghost function Sorted(s: set<string>): seq<string>
    decreases |s|
  {
    if s == {} then []
    else
      var m := Least(s);
      [m] + Sorted(s - {m})
  }

  /** `sorted(s)` lists every element of `s` once, in strictly ascending order. */
  lemma {:induction false} SortedSpec(s: set<string>)
    ensures StrictlySorted(Sorted(s))
    ensures Elements(Sorted(s)) == s
    ensures |Sorted(s)| == |s|
    decreases |s|
  {
    if s != {} {
      var m := Least(s);
      var rest := Sorted(s - {m});
      SortedSpec(s - {m});
      assert Sorted(s) == [m] + rest;
      forall j | 0 <= j < |rest| ensures Less(m, rest[j]) {
        assert rest[j] in s - {m};
        LessTotal(m, rest[j]);
      }
      assert Elements([m] + rest) == {m} + Elements(rest);
    }
  }

  /** A strictly ascending listing of the elements of `s` is `sorted(s)`. */
  lemma {:induction false} SortedUnique(r: seq<string>, s: set<string>)
    requires StrictlySorted(r) && Elements(r) == s
    ensures r == Sorted(s)
    decreases |r|
  {
    if r == [] {
    } else {
      var m := r[0];
      forall y | y in s ensures !Less(y, m) {
        var j :| 0 <= j < |r| && r[j] == y;
        if j == 0 {
          LessIrreflexive(m);
        } else {
          LessAsymmetric(m, y);
        }
      }
      assert IsLeast(m, s);
      LeastUnique(m, Least(s), s);
      assert m !in r[1..] by {
        forall j | 1 <= j < |r| ensures r[j] != m {
          LessIrreflexive(m);
        }
      }
      assert Elements(r[1..]) == s - {m} by {
        assert r == [m] + r[1..];
      }
      SortedUnique(r[1..], s - {m});
    }
  }

  /** `sorted(s)`, by repeatedly taking the smallest remaining element. */
  method SortSet(s: set<string>) returns (r: seq<string>)
    ensures r == Sorted(s)
  {
    var rest := s;
    r := [];
    while rest != {}
      invariant StrictlySorted(r)
      invariant Elements(r) + rest == s && Elements(r) !! rest
      invariant forall x, y | x in r && y in rest :: Less(x, y)
      decreases |rest|
    {
      LeastExists(rest);
      var m :| IsLeast(m, rest);
      forall y | y in rest - {m} ensures Less(m, y) {
        LessTotal(m, y);
      }
      r := r + [m];
      rest := rest - {m};
    }
    SortedUnique(r, s);
  }
}
