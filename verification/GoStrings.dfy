/** Go string order and sorting.

A Go string is a sequence of bytes and `<` compares it byte by byte.  Here a
string is a Dafny `string` whose characters stand for those bytes.
*/
module GoStrings {

  /** Go's `a < b`. */
  predicate Less(a: string, b: string)
  {
    |b| > 0 && (|a| == 0 || a[0] < b[0] || (a[0] == b[0] && Less(a[1..], b[1..])))
  }

  predicate LessEq(a: string, b: string)
  {
    a == b || Less(a, b)
  }

  /** The first byte that differs decides, and a proper prefix comes first. */
  lemma {:induction false} LessByFirstDifference(p: string, a: string, b: string)
    requires |b| > 0 && (|a| == 0 || a[0] < b[0])
    ensures Less(p + a, p + b) && !Less(p + b, p + a)
  {
    if p == "" {
      assert p + a == a && p + b == b;
    } else {
      assert (p + a)[1..] == p[1..] + a && (p + b)[1..] == p[1..] + b;
      LessByFirstDifference(p[1..], a, b);
    }
  }

  lemma LessIrreflexive(a: string)
    ensures !Less(a, a)
  {}

  lemma {:induction false} LessTransitive(a: string, b: string, c: string)
    requires Less(a, b) && Less(b, c)
    ensures Less(a, c)
  {
    if |a| > 0 && a[0] == b[0] && b[0] == c[0] {
      LessTransitive(a[1..], b[1..], c[1..]);
    }
  }

  lemma {:induction false} LessTotal(a: string, b: string)
    ensures a == b || Less(a, b) || Less(b, a)
  {
    if |a| > 0 && |b| > 0 && a[0] == b[0] {
      LessTotal(a[1..], b[1..]);
      assert a == [a[0]] + a[1..] && b == [b[0]] + b[1..];
    }
  }

  lemma LessAsymmetric(a: string, b: string)
    requires Less(a, b)
    ensures !Less(b, a) && a != b
  {
    LessIrreflexive(a);
    if Less(b, a) { LessTransitive(a, b, a); }
  }

  lemma LessEqTransitive(a: string, b: string, c: string)
    requires LessEq(a, b) && LessEq(b, c)
    ensures LessEq(a, c)
  {
    if a != b && b != c { LessTransitive(a, b, c); }
  }

  ghost predicate IsLowest(x: string, s: set<string>)
  {
    x in s && forall y :: y in s ==> LessEq(x, y)
  }

  lemma {:induction false} LowestExists(s: set<string>)
    requires s != {}
    ensures exists x :: IsLowest(x, s)
  {
    var x :| x in s;
    var rest := s - {x};
    if rest == {} {
      assert s == {x};
      assert IsLowest(x, s);
    } else {
      LowestExists(rest);
      var y :| IsLowest(y, rest);
      LessTotal(x, y);
      if LessEq(x, y) {
        forall z | z in s ensures LessEq(x, z) {
          if z != x {
            assert z in rest;
            LessEqTransitive(x, y, z);
          }
        }
        assert IsLowest(x, s);
      } else {
        assert IsLowest(y, s);
      }
    }
  }

  lemma LowestUnique(x: string, y: string, s: set<string>)
    requires IsLowest(x, s) && IsLowest(y, s)
    ensures x == y
  {
    if x != y { LessAsymmetric(x, y); }
  }

  ghost function LowestOf(s: set<string>): (x: string)
    requires s != {}
    ensures IsLowest(x, s)
  {
    LowestExists(s);
    var x :| IsLowest(x, s);
    x
  }

  ghost predicate Sorted(s: seq<string>)
  {
    forall i, j :: 0 <= i < j < |s| ==> LessEq(s[i], s[j])
  }

  ghost predicate Distinct(s: seq<string>)
  {
    forall i, j :: 0 <= i < j < |s| ==> s[i] != s[j]
  }

  ghost function Elements(s: seq<string>): set<string>
  {
    set x | x in s
  }

  lemma HeadAndTail(s: seq<string>)
    requires Sorted(s) && s != []
    ensures Sorted(s[1..]) && multiset(s) == multiset(s[1..]) + multiset{s[0]}
    ensures forall x :: x in multiset(s) ==> LessEq(s[0], x)
  {
    assert s == [s[0]] + s[1..];
    forall x | x in multiset(s) ensures LessEq(s[0], x) {
      assert x in s;
    }
  }

  lemma ConsSorted(x: string, s: seq<string>)
    requires Sorted(s) && forall y :: y in multiset(s) ==> LessEq(x, y)
    ensures Sorted([x] + s)
  {
    var r := [x] + s;
    forall i, j | 0 <= i < j < |r| ensures LessEq(r[i], r[j]) {
      assert r[j] == s[j-1] && s[j-1] in multiset(s);
      if i > 0 { assert r[i] == s[i-1]; }
    }
  }

  lemma SameHead(s: seq<string>, t: seq<string>)
    requires Sorted(s) && Sorted(t) && s != [] && t != [] && multiset(s) == multiset(t)
    ensures s[0] == t[0]
  {
    HeadAndTail(s);
    HeadAndTail(t);
    assert s[0] in multiset(s) && t[0] in multiset(t);
    assert LessEq(s[0], t[0]) && LessEq(t[0], s[0]);
    if s[0] != t[0] { LessAsymmetric(s[0], t[0]); }
  }

  lemma SameTail(s: seq<string>, t: seq<string>)
    requires s != [] && t != [] && s[0] == t[0] && multiset(s) == multiset(t)
    ensures multiset(s[1..]) == multiset(t[1..])
  {
    assert s == [s[0]] + s[1..] && t == [t[0]] + t[1..];
    assert multiset(s[1..]) == multiset(s) - multiset{s[0]};
    assert multiset(t[1..]) == multiset(t) - multiset{t[0]};
  }

  lemma SameLength(s: seq<string>, t: seq<string>)
    requires multiset(s) == multiset(t)
    ensures |s| == |t|
  {
    assert |s| == |multiset(s)| && |t| == |multiset(t)|;
  }

  /** Two sorted rearrangements of the same strings are the same sequence. */
  lemma {:induction false} SortedUnique(s: seq<string>, t: seq<string>)
    requires Sorted(s) && Sorted(t) && multiset(s) == multiset(t)
    ensures s == t
  {
    SameLength(s, t);
    if s != [] {
      SameHead(s, t);
      SameTail(s, t);
      SortedUnique(s[1..], t[1..]);
      assert s == [s[0]] + s[1..] && t == [t[0]] + t[1..];
    }
  }

  function Insert(x: string, s: seq<string>): (r: seq<string>)
    requires Sorted(s)
    ensures Sorted(r) && multiset(r) == multiset(s) + multiset{x}
  {
    if s == [] then [x]
    else
      HeadAndTail(s);
      if Less(x, s[0]) then
        InsertFront(x, s);
        [x] + s
      else
        var rest := Insert(x, s[1..]);
        LessTotal(x, s[0]);
        ConsSorted(s[0], rest);
        [s[0]] + rest
  }

  lemma InsertFront(x: string, s: seq<string>)
    requires Sorted(s) && s != [] && Less(x, s[0])
    ensures Sorted([x] + s)
  {
    HeadAndTail(s);
    forall y | y in multiset(s) ensures LessEq(x, y) {
      LessEqTransitive(x, s[0], y);
    }
    ConsSorted(x, s);
  }

  /** Go's sort.Strings, as the value it leaves in the slice. */
  function SortStrings(s: seq<string>): (r: seq<string>)
    ensures Sorted(r) && multiset(r) == multiset(s)
  {
    if s == [] then [] else
      assert s == [s[0]] + s[1..];
      Insert(s[0], SortStrings(s[1..]))
  }

  /** The members of a set in ascending order. */
  ghost function Ascending(s: set<string>): (r: seq<string>)
    ensures Sorted(r) && Distinct(r) && Elements(r) == s
  {
    if s == {} then [] else
      var x := LowestOf(s);
      var rest := Ascending(s - {x});
      AscendingStep(x, s, rest);
      [x] + rest
  }

  lemma AscendingStep(x: string, s: set<string>, rest: seq<string>)
    requires IsLowest(x, s) && Sorted(rest) && Distinct(rest) && Elements(rest) == s - {x}
    ensures Sorted([x] + rest) && Distinct([x] + rest) && Elements([x] + rest) == s
  {
    forall y | y in multiset(rest) ensures y in s && y != x && LessEq(x, y) {
      assert y in rest;
      assert y in Elements(rest);
    }
    ConsSorted(x, rest);
    var r := [x] + rest;
    forall y | y in s ensures y in Elements(r) {
      if y != x { assert y in Elements(rest); }
    }
    forall y | y in Elements(r) ensures y in s {
      if y != x { assert y in rest; }
    }
    forall i | 0 < i < |r| ensures r[i] == rest[i-1] && r[i] != x {
      assert rest[i-1] in multiset(rest);
    }
  }

  lemma {:induction false} DistinctMultiset(s: seq<string>)
    requires Distinct(s)
    ensures multiset(s) == multiset(Elements(s))
  {
    if s != [] {
      var t := s[..|s|-1];
      assert s == t + [s[|s|-1]];
      DistinctMultiset(t);
      assert Elements(s) == Elements(t) + {s[|s|-1]};
    }
  }

  lemma RepeatedTwice(b: seq<string>, i: nat, j: nat)
    requires i < j < |b|
    ensures b[i] == b[j] ==> multiset(b)[b[i]] >= 2
  {
    assert b == b[..i] + [b[i]] + b[i+1..j] + [b[j]] + b[j+1..];
  }

  /** Sorting a duplicate-free list gives its members in ascending order. */
  lemma SortDistinct(s: seq<string>)
    requires Distinct(s)
    ensures SortStrings(s) == Ascending(Elements(s))
  {
    DistinctMultiset(s);
    DistinctMultiset(Ascending(Elements(s)));
    SortedUnique(SortStrings(s), Ascending(Elements(s)));
  }
}
