/**
 * Ordinal lexicographic order on strings, and the listing of a finite set of
 * strings in that order. The rate table lists its currency codes this way
 * (Models/RateTable.cs:16-17 orders the dictionary keys by the keys themselves).
 */
module Lexicographic {

  /** `a` comes strictly before `b`: the first differing character decides
      by its code point, and a proper prefix comes before its extensions. */
  predicate Less(a: string, b: string)
  {
    if |a| == 0 then |b| > 0
    else if |b| == 0 then false
    else if a[0] != b[0] then a[0] < b[0]
    else Less(a[1..], b[1..])
  }

  lemma {:induction false} LessIrreflexive(a: string)
    ensures !Less(a, a)
  {
    if |a| > 0 {
      LessIrreflexive(a[1..]);
    }
  }

  lemma {:induction false} LessTransitive(a: string, b: string, c: string)
    requires Less(a, b) && Less(b, c)
    ensures Less(a, c)
  {
    if |a| > 0 && a[0] == b[0] && b[0] == c[0] {
      LessTransitive(a[1..], b[1..], c[1..]);
    }
  }

  lemma {:induction false} LessTrichotomy(a: string, b: string)
    ensures a == b || Less(a, b) || Less(b, a)
  {
    if |a| > 0 && |b| > 0 && a[0] == b[0] {
      LessTrichotomy(a[1..], b[1..]);
      if a[1..] == b[1..] {
        assert a == [a[0]] + a[1..];
        assert b == [b[0]] + b[1..];
      }
    }
  }

  /** Every element comes strictly before every later one: sorted and without duplicates. */
  predicate StrictlySorted(s: seq<string>)
  {
    forall i, j :: 0 <= i < j < |s| ==> Less(s[i], s[j])
  }

  /** `m` is the element of `s` that comes before all the others. */
  predicate IsLeast(m: string, s: set<string>)
  {
    m in s && forall x :: x in s && x != m ==> Less(m, x)
  }

  lemma {:induction false} LeastExists(s: set<string>)
    requires s != {}
    ensures exists m :: IsLeast(m, s)
    decreases |s|
  {
    var y :| y in s;
    var rest := s - {y};
    if rest == {} {
      assert s == {y};
      assert IsLeast(y, s);
    } else {
      LeastExists(rest);
      var m :| IsLeast(m, rest);
      LessTrichotomy(y, m);
      if Less(y, m) {
        forall x | x in s && x != y
          ensures Less(y, x)
        {
          if x != m {
            LessTransitive(y, m, x);
          }
        }
        assert IsLeast(y, s);
      } else {
        assert IsLeast(m, s);
      }
    }
  }

  lemma LeastUnique(s: set<string>)
    ensures forall m1, m2 :: IsLeast(m1, s) && IsLeast(m2, s) ==> m1 == m2
  {
    forall m1, m2 | IsLeast(m1, s) && IsLeast(m2, s)
      ensures m1 == m2
    {
      if m1 != m2 {
        LessTransitive(m1, m2, m1);
        LessIrreflexive(m1);
      }
    }
  }

  /** The elements of `s`, each once, in ascending order: repeatedly take the least. */
  function SortSet(s: set<string>): (r: seq<string>)
    ensures StrictlySorted(r)
    ensures forall x :: x in r <==> x in s
    ensures |r| == |s|
    decreases |s|
  {
    if s == {} then []
    else
      LeastExists(s);
      LeastUnique(s);
      var m :| IsLeast(m, s);
      var tail := SortSet(s - {m});
      assert forall j :: 0 <= j < |tail| ==> tail[j] in s - {m};
      [m] + tail
  }

  /** Past the first element of a strictly sorted sequence are exactly the other elements. */
  lemma TailMembers(s: seq<string>)
    requires StrictlySorted(s) && s != []
    ensures forall x :: x in s[1..] <==> x in s && x != s[0]
  {
    forall x
      ensures x in s[1..] <==> x in s && x != s[0]
    {
      if x in s[1..] {
        var k :| 0 <= k < |s| - 1 && s[1..][k] == x;
        assert Less(s[0], s[k + 1]);
        LessIrreflexive(x);
      }
      if x in s && x != s[0] {
        var i :| 0 <= i < |s| && s[i] == x;
        assert s[1..][i - 1] == x;
      }
    }
  }

  /** A strictly sorted sequence is determined by its elements. */
  lemma {:induction false} SortedUnique(a: seq<string>, b: seq<string>)
    requires StrictlySorted(a) && StrictlySorted(b)
    requires forall x :: x in a <==> x in b
    ensures a == b
  {
    assert a != [] ==> a[0] in b;
    assert b != [] ==> b[0] in a;
    if a != [] && b != [] {
      if a[0] != b[0] {
        assert a[0] in b;
        var j :| 0 <= j < |b| && b[j] == a[0];
        assert b[0] in a;
        var i :| 0 <= i < |a| && a[i] == b[0];
        LessTransitive(a[0], b[0], a[0]);
        LessIrreflexive(a[0]);
      }
      TailMembers(a);
      TailMembers(b);
      SortedUnique(a[1..], b[1..]);
      assert a == [a[0]] + a[1..];
      assert b == [b[0]] + b[1..];
    }
  }
}
