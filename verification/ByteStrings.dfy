/** Byte strings under the order that Go's `<` and SQLite's BINARY collation share. */
module ByteStrings {
  type Byte = x: int | 0 <= x < 256

  type Bytes = seq<Byte>

  /** Strict lexicographic order. */
  predicate Less(a: Bytes, b: Bytes)
  {
    b != [] && (a == [] || a[0] < b[0] || (a[0] == b[0] && Less(a[1..], b[1..])))
  }

  predicate Leq(a: Bytes, b: Bytes)
  {
    a == b || Less(a, b)
  }

  predicate HasPrefix(s: Bytes, p: Bytes)
  {
    |p| <= |s| && s[..|p|] == p
  }

  predicate HasSuffix(s: Bytes, p: Bytes)
  {
    |p| <= |s| && s[|s| - |p|..] == p
  }

  predicate OccursAt(s: Bytes, d: Bytes, j: int)
  {
    0 <= j <= |s| - |d| && s[j..j + |d|] == d
  }

  /** The position of the first occurrence of `d` in `s`, or -1 (Go's strings.Index). */
  function Index(s: Bytes, d: Bytes): (i: int)
    ensures i == -1 || OccursAt(s, d, i)
    ensures forall j :: OccursAt(s, d, j) ==> 0 <= i <= j
  {
    if HasPrefix(s, d) then
      assert OccursAt(s, d, 0);
      0
    else if s == [] then -1
    else
      var r := Index(s[1..], d);
      assert forall j :: OccursAt(s, d, j) ==> j != 0 && OccursAt(s[1..], d, j - 1);
      assert r >= 0 ==> OccursAt(s, d, r + 1);
      if r < 0 then -1 else r + 1
  }

  lemma {:induction false} LessIrreflexive(a: Bytes)
    ensures !Less(a, a)
  {
    if a != [] {
      LessIrreflexive(a[1..]);
    }
  }

  lemma {:induction false} LessTransitive(a: Bytes, b: Bytes, c: Bytes)
    requires Less(a, b) && Less(b, c)
    ensures Less(a, c)
  {
    if a != [] && a[0] == b[0] == c[0] {
      LessTransitive(a[1..], b[1..], c[1..]);
    }
  }

  lemma {:induction false} LessTotal(a: Bytes, b: Bytes)
    ensures Less(a, b) || a == b || Less(b, a)
  {
    if a != [] && b != [] && a[0] == b[0] {
      LessTotal(a[1..], b[1..]);
      assert a == [a[0]] + a[1..] && b == [b[0]] + b[1..];
    }
  }

  lemma LeqTransitive(a: Bytes, b: Bytes, c: Bytes)
    requires Leq(a, b) && Leq(b, c)
    ensures Leq(a, c)
    ensures Less(a, b) || Less(b, c) ==> Less(a, c)
  {
    if Less(a, b) && Less(b, c) {
      LessTransitive(a, b, c);
    }
  }

  /** The order is a strict total one: exactly one of the two comparisons holds. */
  lemma NotLess(a: Bytes, b: Bytes)
    ensures Less(a, b) <==> !Leq(b, a)
  {
    LessTotal(a, b);
    LessIrreflexive(a);
    if Less(a, b) && Less(b, a) {
      LessTransitive(a, b, a);
    }
  }

  /** A common front does not matter to the order. */
  lemma {:induction false} LessSharedFront(q: Bytes, a: Bytes, b: Bytes)
    ensures Less(q + a, q + b) <==> Less(a, b)
  {
    if q == [] {
      assert q + a == a && q + b == b;
    } else {
      LessSharedFront(q[1..], a, b);
      assert (q + a)[1..] == q[1..] + a && (q + b)[1..] == q[1..] + b;
    }
  }

  lemma {:induction false} PrefixLeq(n: Bytes, p: Bytes)
    requires HasPrefix(n, p)
    ensures Leq(p, n)
  {
    if p != [] {
      PrefixLeq(n[1..], p[1..]);
      assert n == [n[0]] + n[1..] && p == [p[0]] + p[1..];
    }
  }

  /** What lies between a prefix and a string that has it, has it too. */
  lemma {:induction false} PrefixesAreConvex(p: Bytes, a: Bytes, b: Bytes)
    requires Leq(p, a) && Leq(a, b) && HasPrefix(b, p)
    ensures HasPrefix(a, p)
  {
    if p != [] && a != p && a != b {
      assert a[0] == p[0] == b[0];
      assert a == [a[0]] + a[1..] && p == [p[0]] + p[1..] && b == [b[0]] + b[1..];
      PrefixesAreConvex(p[1..], a[1..], b[1..]);
    }
  }

  /** Appending a zero byte gives the least string above `s`: this turns an exclusive bound into an inclusive one. */
  lemma {:induction false} LeastAbove(s: Bytes, n: Bytes)
    ensures Leq(s + [0], n) <==> Less(s, n)
  {
    if s == [] {
      assert s + [0] == [0];
      if n != [] {
        var zero: Bytes := [0];
        assert zero[1..] == [] && n == [n[0]] + n[1..];
        assert Less(zero, n) <==> 0 < n[0] || n[1..] != [];
      }
    } else if n != [] {
      LeastAbove(s[1..], n[1..]);
      assert (s + [0])[1..] == s[1..] + [0];
      assert n == [n[0]] + n[1..];
      assert s + [0] == [s[0]] + (s[1..] + [0]);
    }
  }

  /** An occurrence of `d` in `s` stays the first one in every string that agrees with `s` up to its end. */
  lemma {:induction false} FirstOccurrenceIsStable(s: Bytes, t: Bytes, d: Bytes)
    requires Index(s, d) >= 0
    requires HasPrefix(t, s[..Index(s, d) + |d|])
    ensures Index(t, d) == Index(s, d)
  {
    var i, k := Index(s, d), Index(t, d);
    var shared := s[..i + |d|];
    assert t[..i + |d|] == shared;
    assert t[i..i + |d|] == shared[i..] == s[i..i + |d|];
    assert OccursAt(t, d, i);
    assert s[k..k + |d|] == shared[k..k + |d|] == t[k..k + |d|];
    assert OccursAt(s, d, k);
  }

  // --- finite sets of byte strings in order ---------------------------------------------

  predicate IsLeast(s: set<Bytes>, m: Bytes)
  {
    m in s && forall x :: x in s ==> Leq(m, x)
  }

  lemma LeastExists(s: set<Bytes>)
    requires s != {}
    ensures exists m :: IsLeast(s, m)
  {
    var x :| x in s;
    if s - {x} == {} {
      assert s == {x};
      assert IsLeast(s, x);
    } else {
      LeastExists(s - {x});
      var m :| IsLeast(s - {x}, m);
      LessTotal(x, m);
      if Less(x, m) {
        forall y | y in s ensures Leq(x, y) {
          if y != x {
            LeqTransitive(x, m, y);
          }
        }
        assert IsLeast(s, x);
      } else {
        assert IsLeast(s, m);
      }
    }
  }

  lemma LeastIsUnique(s: set<Bytes>, a: Bytes, b: Bytes)
    requires IsLeast(s, a) && IsLeast(s, b)
    ensures a == b
  {
    NotLess(a, b);
  }

  function Least(s: set<Bytes>): (m: Bytes)
    requires s != {}
    ensures IsLeast(s, m)
  {
    LeastExists(s);
    assert forall a, b :: IsLeast(s, a) && IsLeast(s, b) ==> a == b by {
      forall a, b | IsLeast(s, a) && IsLeast(s, b) ensures a == b { LeastIsUnique(s, a, b); }
    }
    var m :| IsLeast(s, m);
    m
  }

  predicate StrictlyAscending(xs: seq<Bytes>)
  {
    forall i, j :: 0 <= i < j < |xs| ==> Less(xs[i], xs[j])
  }

  /** The members of a finite set in ascending order, each once: the rows of a table in primary-key order. */
  function Sorted(s: set<Bytes>): seq<Bytes>
  {
    if s == {} then [] else var m := Least(s); [m] + Sorted(s - {m})
  }

  lemma {:induction false} SortedIsSorted(s: set<Bytes>)
    ensures |Sorted(s)| == |s|
    ensures forall x :: x in Sorted(s) <==> x in s
    ensures StrictlyAscending(Sorted(s))
    decreases s
  {
    if s != {} {
      var m := Least(s);
      SortedIsSorted(s - {m});
      forall x | x in s - {m} ensures Less(m, x) { LessIrreflexive(m); }
    }
  }

  /** Sorting a set that falls into a lower and an upper part sorts the parts one after the other. */
  lemma {:induction false} SortedSplit(lo: set<Bytes>, hi: set<Bytes>)
    requires forall a, b :: a in lo && b in hi ==> Less(a, b)
    ensures Sorted(lo + hi) == Sorted(lo) + Sorted(hi)
    decreases lo
  {
    if lo == {} {
      assert lo + hi == hi;
    } else {
      var m := Least(lo);
      LeastOfUnion(lo, hi);
      SortedSplit(lo - {m}, hi);
      calc {
        Sorted(lo + hi);
        { SortedCons(lo + hi); }
        [m] + Sorted(lo + hi - {m});
        { assert lo + hi - {m} == (lo - {m}) + hi by { LessIrreflexive(m); } }
        [m] + (Sorted(lo - {m}) + Sorted(hi));
        [m] + Sorted(lo - {m}) + Sorted(hi);
        { SortedCons(lo); }
        Sorted(lo) + Sorted(hi);
      }
    }
  }

  lemma SortedCons(s: set<Bytes>)
    requires s != {}
    ensures Sorted(s) == [Least(s)] + Sorted(s - {Least(s)})
  {
  }

  lemma LeastOfUnion(lo: set<Bytes>, hi: set<Bytes>)
    requires lo != {}
    requires forall a, b :: a in lo && b in hi ==> Less(a, b)
    ensures Least(lo + hi) == Least(lo)
  {
    assert IsLeast(lo + hi, Least(lo));
    LeastIsUnique(lo + hi, Least(lo), Least(lo + hi));
  }
}
