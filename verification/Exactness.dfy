/** When a listing can be trusted: the exact condition on a bucket, and the exact condition on a request. */
module Exactness {
  import opened ByteStrings
  import opened Types
  import opened Successor
  import opened Listing
  import opened Scan

  // --- one bucket --------------------------------------------------------------------------------------

  /** Every page of this bucket is what it should be, whatever the token and the limit. */
  ghost predicate ListsRightly(q: Query, names: set<Bytes>)
  {
    forall token, maxResults {:trigger List(q, names, token, maxResults)} ::
      List(q, names, token, maxResults) == PageOf(q, Matching(q, names, token), Clamp(maxResults))
  }

  lemma NonemptyPage(q: Query, m: set<Bytes>)
    requires m != {}
    ensures PageOf(q, m, 1).entries != []
  {
    ListingCovers(q, m);
    assert EntryOf(q, Least(m)) in SimpleListing(q, m);
  }

  /** The page that starts at a name which the range of the prefix gets wrong. */
  lemma {:induction false} WrongPrefixRange(q: Query, names: set<Bytes>, n: Bytes)
    requires n in names && !Bounds(q.prefix, n)
    ensures List(q, names, n, 1) != PageOf(q, Matching(q, names, n), 1)
  {
    var end := PrefixSuccessor(q.prefix);
    var m := Matching(q, names, n);
    if HasPrefix(n, q.prefix) {
      PrefixLeq(n, q.prefix);
      NotLess(n, end);
      forall x | x in names && Leq(n, x) ensures !Less(x, end) {
        LeqTransitive(end, n, x);
        NotLess(x, end);
      }
      assert Rows(names, n, end) == {};
      assert n in m;
      NonemptyPage(q, m);
    } else {
      forall x | x in m ensures false { PrefixesAreConvex(q.prefix, n, x); }
      assert m == {};
      PageOfNothing(q, 1);
      assert n in Rows(names, n, end);
    }
  }

  /** The page of one entry from a matching name on, as it is and as it should be. */
  lemma {:induction false} PageFrom(q: Query, names: set<Bytes>, n: Bytes)
    requires n in names && HasPrefix(n, q.prefix) && forall x :: x in names ==> Bounds(q.prefix, x)
    ensures var m, after := Matching(q, names, n), Behind(EntryOf(q, n));
            var rows := if after == [] then {} else Rows(names, after, PrefixSuccessor(q.prefix));
            var beyond := Beyond(q, m, n);
            List(q, names, n, 1) == Page([EntryOf(q, n)], if rows == {} then [] else Least(rows)) &&
            PageOf(q, m, 1) == Page([EntryOf(q, n)], if beyond == {} then [] else Least(beyond))
  {
    hide SimpleListing, EntryOf;
    var end := PrefixSuccessor(q.prefix);
    var m := Matching(q, names, n);
    PrefixLeq(n, q.prefix);
    assert Start(q, n) == n;
    RowsAreMatching(q, names, n);
    assert IsLeast(m, n);
    LeastIsUnique(m, n, Least(m));
    WalkStep(q, names, end, n, 1, n);
    PageStep(q, m, 1);
    assert FirstN(SimpleListing(q, Beyond(q, m, n)), 0) == [];
    assert Pending(q, Beyond(q, m, n), []) == Beyond(q, m, n);
  }

  /** The page whose group has a range that gets a name wrong. */
  lemma {:induction false} WrongGroupRange(q: Query, names: set<Bytes>, n: Bytes, x: Bytes) returns (token: Bytes)
    requires [] !in names && n in names && x in names && HasPrefix(n, q.prefix) && HasPrefix(x, q.prefix)
    requires forall y :: y in names ==> Bounds(q.prefix, y)
    requires EntryOf(q, n).Group? && !Bounds(EntryOf(q, n).prefix, x)
    ensures List(q, names, token, 1) != PageOf(q, Matching(q, names, token), 1)
  {
    hide EntryOf, List, PageOf;
    var cp := EntryOf(q, n).prefix;
    var after, end := PrefixSuccessor(cp), PrefixSuccessor(q.prefix);
    GroupMembers(q, n, x);
    GroupMembers(q, n, n);
    if HasPrefix(x, cp) {
      PrefixLeq(x, cp);
      NotLess(x, after);
      PageFrom(q, names, x);
      PrefixLeq(x, q.prefix);
      assert Bounds(q.prefix, x);
      assert x in Rows(names, after, end);
      NotLess(x, Least(Rows(names, after, end)));
      return x;
    } else {
      if Leq(x, n) {
        PrefixesAreConvex(cp, x, n);
        assert false;
      }
      NotLess(n, x);
      PageFrom(q, names, n);
      assert x in Beyond(q, Matching(q, names, n), n);
      if after != [] && Rows(names, after, end) != {} {
        var t := Least(Rows(names, after, end));
        LeqTransitive(x, after, t);
        NotLess(x, t);
      }
      return n;
    }
  }

  /** A bucket is listed rightly exactly if the ranges that the listing computes are right about its names. */
  lemma {:induction false} ListsRightlyIffExact(q: Query, names: set<Bytes>)
    requires [] !in names
    ensures ListsRightly(q, names) <==> ExactFor(q, names)
  {
    hide List, PageOf, Bounds, EntryOf;
    if ExactFor(q, names) {
      forall token, maxResults
        ensures List(q, names, token, maxResults) == PageOf(q, Matching(q, names, token), Clamp(maxResults))
      {
        ExactForFewer(q, names, Ahead(names, token));
        ListIsPage(q, names, token, maxResults);
      }
    } else if n :| n in names && !Bounds(q.prefix, n) {
      WrongPrefixRange(q, names, n);
      assert Clamp(1) == 1;
    } else {
      var n :| n in names && HasPrefix(n, q.prefix) && !GroupExact(q, names, n);
      var x :| x in names && HasPrefix(x, q.prefix) && !Bounds(EntryOf(q, n).prefix, x);
      var token := WrongGroupRange(q, names, n, x);
      assert Clamp(1) == 1;
    }
  }

  // --- any bucket: which requests can be trusted ----------------------------------------------------------

  ghost predicate ValidNames(names: set<Bytes>)
  {
    forall n :: n in names ==> ValidObjectName(n)
  }

  /** No byte that the store refuses in a name. */
  predicate Clean(s: Bytes)
  {
    0 !in s && 10 !in s && 13 !in s
  }

  lemma ValidIfClean(s: Bytes, k: nat)
    requires Clean(s) && |s| <= 1024 && k < |s| && s[k] >= 0x7f
    ensures ValidObjectName(s)
  {
  }

  lemma CleanFront(n: Bytes, p: Bytes)
    requires ValidObjectName(n) && HasPrefix(n, p)
    ensures Clean(p) && |p| <= 1024
  {
  }

  /** What lies between two strings with the same front has that front too. */
  lemma {:induction false} BetweenSharesFront(q: Bytes, a: Bytes, b: Bytes, n: Bytes)
    requires Leq(q + a, n) && Less(n, q + b)
    ensures HasPrefix(n, q) && Leq(a, n[|q|..]) && Less(n[|q|..], b)
  {
    if q == [] {
      assert q + a == a && q + b == b && n[0..] == n;
    } else {
      assert (q + a)[1..] == q[1..] + a && (q + b)[1..] == q[1..] + b;
      assert n != [] && n[0] == q[0];
      assert n == [n[0]] + n[1..] && q + a == [q[0]] + (q[1..] + a);
      BetweenSharesFront(q[1..], a, b, n[1..]);
      assert n[1..][|q| - 1..] == n[|q|..];
    }
  }

  /** If the range of p is wrong about any valid name, then the misplaced name is valid as well. */
  lemma {:induction false} WrongAboutAValidName(p: Bytes, n: Bytes)
    requires ValidObjectName(n) && !Bounds(p, n)
    ensures !Safe(p) && ValidObjectName(Misplaced(p))
  {
    hide ValidObjectName, Clean;
    if Safe(p) {
      SafeRange(p, n);
      assert false;
    }
    if HasPrefix(n, p) {
      WrongWithPrefix(p, n);
    } else {
      WrongInRange(p, n);
    }
  }

  lemma {:induction false} WrongWithPrefix(p: Bytes, n: Bytes)
    requires !Safe(p) && ValidObjectName(n) && HasPrefix(n, p) && !Bounds(p, n)
    ensures ValidObjectName(Misplaced(p))
  {
    var i := Pivot(p);
    var b, q, tail, u := p[i], p[..i], p[i + 1..], Utf8(p[i] + 1);
    assert n == q + n[i..] && n[i] == b;
    LessSharedFront(q, n[i..], u);
    PrefixLeq(n, p);
    CleanFront(n, p);
    assert b >= 0xc3;
    if b == 0xc3 && tail == [] {
      assert Less([b], u) && n[i..] != [b];
      ValidIfClean(p + [0xff], i);
    } else {
      ValidIfClean(p, i);
    }
  }

  /** From 0xc3 on the range of an unsafe prefix holds at most names that begin with it. */
  lemma {:induction false} HighRange(b: Byte, tail: Bytes, rest: Bytes)
    requires 0xc3 <= b < 0xff && (tail != [] ==> tail[0] == 0xff)
    requires Leq([b] + tail, rest) && Less(rest, Utf8(b + 1))
    ensures HasPrefix(rest, [b] + tail)
  {
    var u := Utf8(b + 1);
    assert u[0] == 0xc3 && ([b] + tail)[1..] == tail;
    assert rest != [] && b <= rest[0] <= 0xc3;
    assert u[1..] == [0x84] && Less(rest[1..], u[1..]);
    assert Leq(tail, rest[1..]);
  }

  lemma SomeBehind(a: Bytes, b: Bytes)
    requires a != [] && Leq(a, b)
    ensures b != []
  {
  }

  lemma PrefixBehind(q: Bytes, a: Bytes, b: Bytes)
    requires HasPrefix(b, a)
    ensures HasPrefix(q + b, q + a)
  {
    assert b == a + b[|a|..];
  }

  /** What lies in the range of an unsafe prefix shares the bytes before the last that is not 0xff. */
  lemma {:induction false} RangeSharesFront(p: Bytes, n: Bytes)
    requires !Safe(p) && InRange(n, p, PrefixSuccessor(p))
    ensures var i := Pivot(p);
            HasPrefix(n, p[..i]) && i < |n| &&
            Leq([p[i]] + p[i + 1..], n[i..]) && Less(n[i..], Utf8(p[i] + 1))
  {
    hide Less;
    var i := Pivot(p);
    var tail := [p[i]] + p[i + 1..];
    assert p == p[..i] + tail;
    BetweenSharesFront(p[..i], tail, Utf8(p[i] + 1), n);
    SomeBehind(tail, n[i..]);
  }

  lemma {:induction false} HighRangeHasPrefix(p: Bytes, n: Bytes)
    requires !Safe(p) && p[Pivot(p)] >= 0xc3 && InRange(n, p, PrefixSuccessor(p))
    ensures HasPrefix(n, p)
  {
    hide Less, InRange, PrefixSuccessor;
    var i := Pivot(p);
    RangeSharesFront(p, n);
    FrontAndRest(n, p[..i]);
    HighRange(p[i], p[i + 1..], n[i..]);
    PrefixBehind(p[..i], [p[i]] + p[i + 1..], n[i..]);
    assert p == p[..i] + ([p[i]] + p[i + 1..]);
  }

  lemma {:induction false} WrongInRange(p: Bytes, n: Bytes)
    requires !Safe(p) && ValidObjectName(n) && !HasPrefix(n, p) && !Bounds(p, n)
    ensures ValidObjectName(Misplaced(p))
  {
    hide ValidObjectName, Clean, Less, HasPrefix, InRange;
    var i := Pivot(p);
    if p[i] >= 0xc3 {
      HighRangeHasPrefix(p, n);
      assert false;
    }
    RangeSharesFront(p, n);
    FrontAndRest(n, p[..i]);
    BumpedIsValid(p[..i], n[i..], p[i] + 1);
  }

  lemma BumpedIsValid(q: Bytes, rest: Bytes, c: Byte)
    requires ValidObjectName(q + rest) && rest != [] && c >= 0x7f
    ensures ValidObjectName(q + [c])
  {
    var s := q + [c];
    assert s[|q|] == c;
    ValidIfClean(s, |q|);
  }

  lemma FrontAndRest(n: Bytes, q: Bytes)
    requires HasPrefix(n, q)
    ensures n == q + n[|q|..]
  {
  }

  /** The range of a prefix is right about all valid names exactly if it is safe or its misplaced name is not valid. */
  lemma {:induction false} RangeExactOnValidNamesIff(p: Bytes)
    ensures (forall n :: ValidObjectName(n) ==> Bounds(p, n)) <==> Safe(p) || !ValidObjectName(Misplaced(p))
  {
    hide ValidObjectName, Misplaced, Bounds;
    forall n | ValidObjectName(n) ensures Bounds(p, n) || (!Safe(p) && ValidObjectName(Misplaced(p))) {
      if !Bounds(p, n) { WrongAboutAValidName(p, n); }
    }
    if !Safe(p) { UnsafeRange(p); }
  }

  /** The end of a common prefix that this query can form and whose range is wrong. */
  function UpsetTail(d: Bytes): Bytes
  {
    if Pivot(d) < 0 then [0x80] + d else d
  }

  /** The shortest common prefix of that kind. */
  function UpsetPrefix(q: Query): Bytes
  {
    q.prefix + UpsetTail(q.delimiter)
  }

  /** Requests that are listed rightly on every bucket: the safe ones, and those whose misplaced names the store
      refuses, for their bytes or their length. */
  predicate Trusted(q: Query)
  {
    if !Safe(q.prefix) then !ValidObjectName(Misplaced(q.prefix))
    else SafeQuery(q) || !ValidObjectName(UpsetPrefix(q)) || !ValidObjectName(Misplaced(UpsetPrefix(q)))
  }

  lemma UpsetPrefixIsUnsafe(q: Query)
    requires Safe(q.prefix) && !SafeQuery(q)
    ensures !Safe(UpsetPrefix(q)) && Pivot(UpsetPrefix(q)) >= |q.prefix|
  {
    var d := q.delimiter;
    if Pivot(d) < 0 {
      PivotIsUnique(UpsetPrefix(q), |q.prefix|);
    } else {
      SafetyIsDecidedByTheEnd(q.prefix, d);
    }
  }

  lemma UpsetPrefixIsItsOwnGroup(q: Query)
    requires q.delimiter != []
    ensures EntryOf(q, UpsetPrefix(q)) == Group(UpsetPrefix(q))
  {
    hide Index, PrefixSuccessor, UpsetTail;
    var tail := UpsetTail(q.delimiter);
    UpsetTailEndsInDelimiter(q.delimiter);
    assert UpsetPrefix(q)[|q.prefix|..] == tail;
    assert tail[..|tail|] == tail;
  }

  lemma UpsetTailEndsInDelimiter(d: Bytes)
    requires d != []
    ensures Index(UpsetTail(d), d) >= 0 && Index(UpsetTail(d), d) + |d| == |UpsetTail(d)|
  {
    if Pivot(d) < 0 {
      PaddingMovesOccurrence(d);
    }
  }

  lemma {:induction false} PaddingMovesOccurrence(d: Bytes)
    requires d != [] && d[0] == 0xff
    ensures Index([0x80] + d, d) == 1
  {
    var rest := [0x80] + d;
    assert OccursAt(rest, d, 1);
    assert rest[0..|d|][0] == 0x80;
    assert !OccursAt(rest, d, 0);
  }

  /** On this bucket an untrusted request is listed wrongly. */
  lemma {:induction false} UntrustedBucket(q: Query) returns (names: set<Bytes>)
    requires !Trusted(q)
    ensures ValidNames(names) && !ExactFor(q, names)
  {
    hide ValidObjectName, Bounds, Misplaced, EntryOf, UpsetPrefix, HasPrefix, Safe, SafeQuery;
    if !Safe(q.prefix) {
      names := {Misplaced(q.prefix)};
      UnsafeRange(q.prefix);
    } else {
      var cp := UpsetPrefix(q);
      names := {cp, Misplaced(cp)};
      UpsetPrefixIsUnsafe(q);
      assert q.delimiter != [] by { DelimiterOfUnsafe(q); }
      UpsetPrefixIsItsOwnGroup(q);
      UnsafeRange(cp);
      UpsetNamesMatch(q);
      assert !GroupExact(q, names, cp);
    }
  }

  lemma DelimiterOfUnsafe(q: Query)
    requires Safe(q.prefix) && !SafeQuery(q)
    ensures q.delimiter != []
  {
  }

  lemma UpsetNamesMatch(q: Query)
    requires Safe(q.prefix) && !SafeQuery(q)
    ensures HasPrefix(UpsetPrefix(q), q.prefix) && HasPrefix(Misplaced(UpsetPrefix(q)), q.prefix)
  {
    var cp, p := UpsetPrefix(q), q.prefix;
    UpsetPrefixIsUnsafe(q);
    assert cp[..|p|] == p;
    assert Misplaced(cp)[..|p|] == cp[..|p|];
  }

  /** If the misplaced name of an unsafe prefix is not valid, no other valid name than the prefix itself has it. */
  lemma {:induction false} OnlyThePrefixItself(p: Bytes, n: Bytes)
    requires !Safe(p) && !ValidObjectName(Misplaced(p)) && ValidObjectName(n) && HasPrefix(n, p)
    ensures n == p
  {
    var i := Pivot(p);
    CleanFront(n, p);
    if p[i] < 0xc3 {
      ValidIfClean(p[..i] + [p[i] + 1], i);
    } else if i == |p| - 1 && p[i] == 0xc3 {
      if |p| < 1024 {
        ValidIfClean(p + [0xff], i);
      }
      assert n == p + n[|p|..];
    } else {
      ValidIfClean(p, i);
    }
  }

  /** Any valid common prefix whose misplaced name is valid is at least as long as the upset one, for which the same
      then holds. */
  lemma {:induction false} UpsetIsShortest(q: Query, cp: Bytes)
    requires Safe(q.prefix) && q.delimiter != [] && !Safe(cp) && Clean(cp) && |cp| <= 1024
    requires ValidObjectName(Misplaced(cp))
    requires HasPrefix(cp, q.prefix) && HasSuffix(cp, q.delimiter) && |cp| >= |q.prefix| + |q.delimiter|
    ensures ValidObjectName(UpsetPrefix(q)) && ValidObjectName(Misplaced(UpsetPrefix(q)))
  {
    hide ValidObjectName, Clean, Pivot, Misplaced, Safe;
    var p, d := q.prefix, q.delimiter;
    var front := cp[..|cp| - |d|];
    assert cp == front + d && front[..|p|] == p;
    CleanParts(p, front, d);
    if Pivot(d) >= 0 {
      SafetyIsDecidedByTheEnd(front, d);
      ShorterMisplaced(front, p, d);
    } else {
      if |front| == |p| {
        assert front == p;
        TopBytesBehind(p, d);
        assert false;
      }
      PaddedIsValid(p, d);
    }
  }

  lemma {:induction false} PaddedIsValid(p: Bytes, d: Bytes)
    requires Pivot(d) < 0 && Clean(p + ([0x80] + d)) && Clean(p + [0x81]) && |p| + |d| < 1024
    ensures ValidObjectName(p + ([0x80] + d)) && ValidObjectName(Misplaced(p + ([0x80] + d)))
  {
    hide Clean, ValidObjectName;
    var u := p + ([0x80] + d);
    PivotIsUnique(u, |p|);
    ValidIfClean(u, |p|);
    assert u[..|p|] == p;
    ValidIfClean(p + [0x81], |p|);
  }

  lemma CleanParts(p: Bytes, front: Bytes, d: Bytes)
    requires Clean(front + d) && HasPrefix(front, p)
    ensures Clean(p) && Clean(d) && Clean(p + d) && Clean(p + ([0x80] + d)) && Clean(p + [0x81])
  {
    forall c: Byte | c !in front + d ensures c !in p && c !in d {
      assert c !in front;
    }
  }

  lemma {:induction false} TopBytesBehind(p: Bytes, d: Bytes)
    requires Pivot(d) < 0
    ensures Safe(p + d) <==> Safe(p)
  {
    PivotIsUnique(p + d, Pivot(p));
  }

  /** With the same end, the shorter of two strings has the shorter misplaced name. */
  lemma {:induction false} ShorterMisplaced(front: Bytes, p: Bytes, d: Bytes)
    requires Pivot(d) >= 0 && !Safe(d) && |p| <= |front| && |front + d| <= 1024 && Clean(p + d)
    requires ValidObjectName(Misplaced(front + d))
    ensures ValidObjectName(p + d) && ValidObjectName(Misplaced(p + d))
  {
    var u, i := p + d, |p| + Pivot(d);
    PivotIsUnique(u, i);
    PivotIsUnique(front + d, |front| + Pivot(d));
    ValidIfClean(u, i);
    if u[i] < 0xc3 {
      ValidIfClean(u[..i] + [u[i] + 1], i);
    } else if i == |u| - 1 && u[i] == 0xc3 {
      ValidIfClean(u + [0xff], i);
    }
  }

  lemma {:induction false} TrustedIsExact(q: Query, names: set<Bytes>)
    requires Trusted(q) && ValidNames(names)
    ensures ExactFor(q, names)
  {
    hide ValidObjectName, Misplaced, Clean, Bounds, UpsetPrefix;
    if SafeQuery(q) {
      SafeQueryIsExactFor(q, names);
    } else {
      RangeExactOnValidNamesIff(q.prefix);
      forall n | n in names && HasPrefix(n, q.prefix) ensures GroupExact(q, names, n) {
        TrustedGroupIsExact(q, names, n);
      }
    }
  }

  lemma PrefixItselfIsNoGroup(q: Query)
    ensures EntryOf(q, q.prefix).Object?
  {
  }

  lemma {:induction false} TrustedGroupIsExact(q: Query, names: set<Bytes>, n: Bytes)
    requires Trusted(q) && !SafeQuery(q) && ValidNames(names) && n in names && HasPrefix(n, q.prefix)
    ensures GroupExact(q, names, n)
  {
    hide ValidObjectName, Misplaced, Clean, Bounds, UpsetPrefix;
    if EntryOf(q, n).Group? {
      var cp := EntryOf(q, n).prefix;
      GroupEndsWithDelimiter(q, n);
      if !Safe(q.prefix) {
        OnlyThePrefixItself(q.prefix, n);
        PrefixItselfIsNoGroup(q);
        assert false;
      }
      KeyIsPrefix(q, n);
      CleanFront(n, cp);
      forall x | x in names && HasPrefix(x, q.prefix) ensures Bounds(cp, x) {
        if !Bounds(cp, x) {
          WrongAboutAValidName(cp, x);
          UpsetIsShortest(q, cp);
        }
      }
    }
  }

  /** A request is listed rightly on every bucket that the store can hold exactly if it is trusted. */
  lemma {:induction false} TrustedIff(q: Query)
    ensures Trusted(q) <==> forall names :: ValidNames(names) ==> ListsRightly(q, names)
  {
    hide Trusted, ListsRightly, ExactFor;
    if Trusted(q) {
      forall names | ValidNames(names) ensures ListsRightly(q, names) {
        TrustedIsExact(q, names);
        ListsRightlyIffExact(q, names);
      }
    } else {
      var names := UntrustedBucket(q);
      ListsRightlyIffExact(q, names);
    }
  }
}
