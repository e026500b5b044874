/** Which requests can hold a chain of pages up on a bucket that the store can hold. */
module Stalling {
  import opened ByteStrings
  import opened Types
  import opened Successor
  import opened Listing
  import opened Exactness
  import opened Progress

  /** The prefix with its last byte that is not 0xff bumped, and the bytes behind it small. */
  function Bumped(p: Bytes): (s: Bytes)
    requires !Safe(p)
    ensures |s| == |p|
  {
    p[..Pivot(p)] + [p[Pivot(p)] + 1] + seq(|p| - Pivot(p) - 1, _ => 0x80)
  }

  /** If any name holds the request up, then one of these does. */
  function StallNames(q: Query): seq<Bytes>
  {
    var p, d := q.prefix, q.delimiter;
    [p + d, p + d + [0xff], p + ([0x80] + d), p + ([0x80] + d) + [0xff], p + ([0xc4] + d), p + ([0x80, 0xc4] + d)] +
    if Safe(p) then [] else [Bumped(p) + d, Bumped(p) + ([0x80] + d)]
  }

  predicate Stalls(q: Query, n: Bytes)
  {
    ValidObjectName(n) && !StepsForward(q, n)
  }

  predicate CanStall(q: Query)
  {
    exists n :: n in StallNames(q) && Stalls(q, n)
  }

  // --- ranges that admit a name ----------------------------------------------------------------------------

  /** Below 0xc3 the range holds all names with the prefix. */
  lemma {:induction false} LowRangeHasNames(p: Bytes, n: Bytes)
    requires !Safe(p) && p[Pivot(p)] < 0xc3 && HasPrefix(n, p)
    ensures InRange(n, p, PrefixSuccessor(p))
  {
    var i := Pivot(p);
    PrefixLeq(n, p);
    assert n[..i] == p[..i] && n[i] == p[i];
    LessAt(n, PrefixSuccessor(p), i);
  }

  /** Below 0xc3 it also holds names with the bumped byte, unless they run into its upper end. */
  lemma {:induction false} LowRangeHasBumped(p: Bytes, s: Bytes)
    requires !Safe(p) && p[Pivot(p)] < 0xc3 && s != []
    requires p[Pivot(p)] == 0xc2 && Pivot(p) == |p| - 1 ==> s[0] < 0x83
    ensures InRange(Bumped(p) + s, p, PrefixSuccessor(p))
  {
    hide Less;
    var i, c, u := Pivot(p), Bumped(p) + s, Utf8(p[Pivot(p)] + 1);
    assert c[..i] == p[..i] && c[i] == p[i] + 1;
    LessAt(p, c, i);
    if p[i] < 0xc2 {
      LessAt(c, PrefixSuccessor(p), i);
    } else {
      assert c[..i + 1] == p[..i] + [0xc3] == PrefixSuccessor(p)[..i + 1];
      assert c[i + 1] < 0x83;
      LessAt(c, PrefixSuccessor(p), i + 1);
    }
  }

  /** With 0xc3 as its last byte, it holds those of them that go on with a small byte, and otherwise none. */
  lemma {:induction false} HighRangeHolds(p: Bytes, n: Bytes)
    requires !Safe(p) && p[Pivot(p)] >= 0xc3 && HasPrefix(n, p)
    ensures InRange(n, p, PrefixSuccessor(p)) <==>
            Pivot(p) == |p| - 1 && p[|p| - 1] == 0xc3 && (n == p || n[|p|] < 0x84)
  {
    hide Less;
    var i := Pivot(p);
    var end := PrefixSuccessor(p);
    PrefixLeq(n, p);
    NotLess(n, end);
    assert n[..i] == p[..i] && n[i] == p[i];
    if p[i] > 0xc3 {
      LessAt(end, n, i);
    } else {
      assert end == p[..i] + [0xc3, 0x84];
      HighRangeEnd(p, n, end, i);
    }
  }

  lemma {:induction false} HighRangeEnd(p: Bytes, n: Bytes, end: Bytes, i: nat)
    requires !Safe(p) && i == Pivot(p) && p[i] == 0xc3 && HasPrefix(n, p) && end == p[..i] + [0xc3, 0x84]
    ensures Less(n, end) <==> i == |p| - 1 && (n == p || n[|p|] < 0x84)
  {
    hide Less;
    var q := p[..i + 1];
    assert q == p[..i] + [0xc3] && end == q + [0x84] && n[..i + 1] == q;
    FrontAndRest(n, q);
    LessSharedFront(q, n[i + 1..], [0x84]);
    LessThanByte(n[i + 1..], 0x84);
    assert i < |p| - 1 ==> n[i + 1] == p[i + 1] == 0xff;
    assert i == |p| - 1 ==> q == p && (n == p <==> n[i + 1..] == []);
  }

  lemma LessThanByte(s: Bytes, b: Byte)
    ensures Less(s, [b]) <==> s == [] || s[0] < b
  {
    NoneBelowEmpty(if s == [] then [] else s[1..]);
  }

  // --- names that hold the request up ----------------------------------------------------------------------

  lemma {:induction false} EntryOfCut(q: Query, front: Bytes, y: Bytes, z: Bytes)
    requires |front| == |q.prefix| && q.delimiter != [] && Index(y + q.delimiter, q.delimiter) == |y|
    ensures EntryOf(q, front + (y + q.delimiter) + z) == Group(q.prefix + (y + q.delimiter))
  {
    hide Index;
    var d := q.delimiter;
    var n, rest := front + (y + d) + z, y + d + z;
    assert n[|q.prefix|..] == rest;
    assert (y + d)[..|y| + |d|] == y + d == rest[..|y| + |d|];
    FirstOccurrenceIsStable(y + d, rest, d);
  }

  /** A name in a group whose range stops short of it. */
  lemma {:induction false} MemberStalls(q: Query, y: Bytes, z: Bytes)
    requires q.delimiter != [] && Index(y + q.delimiter, q.delimiter) == |y|
    requires var cp := q.prefix + (y + q.delimiter);
             !Safe(cp) && cp[Pivot(cp)] >= 0xc3 && cp + z == Misplaced(cp) && InRange(cp + z, q.prefix, End(q))
    ensures !StepsForward(q, q.prefix + (y + q.delimiter) + z)
  {
    hide Index, EntryOf, Less, Misplaced;
    var cp := q.prefix + (y + q.delimiter);
    EntryOfCut(q, q.prefix, y, z);
    UnsafeRange(cp);
    NotLess(cp + z, PrefixSuccessor(cp));
  }

  /** A name without the prefix that is cut as if it had it. */
  lemma {:induction false} BumpedStalls(q: Query, y: Bytes)
    requires !Safe(q.prefix) && q.prefix[Pivot(q.prefix)] < 0xc3
    requires q.delimiter != [] && Index(y + q.delimiter, q.delimiter) == |y| && Pivot(y + q.delimiter) >= 0
    requires InRange(Bumped(q.prefix) + (y + q.delimiter), q.prefix, End(q))
    ensures !StepsForward(q, Bumped(q.prefix) + (y + q.delimiter))
  {
    hide Index, EntryOf, Less;
    var p, s := q.prefix, y + q.delimiter;
    var i, c, cp := Pivot(p), Bumped(p) + s, p + s;
    assert c == Bumped(p) + s + [];
    EntryOfCut(q, Bumped(p), y, []);
    PivotIsUnique(cp, |p| + Pivot(s));
    var after := PrefixSuccessor(cp);
    assert after[..|p|] == p;
    assert after[..i] == after[..|p|][..i] == p[..i] == c[..i] && after[i] == after[..|p|][i] == p[i];
    LessAt(after, c, i);
    NotLess(c, after);
  }

  lemma {:induction false} IndexBehind(y: Bytes, d: Bytes)
    requires d != []
    requires y == [] || (y == [0x80] && d[0] != 0x80) || (y == [0xc4] && d[0] == 0xff) ||
             (y == [0x80, 0xc4] && d[0] == 0xff)
    ensures Index(y + d, d) == |y|
  {
    var s := y + d;
    assert OccursAt(s, d, |y|);
    forall j | 0 <= j < |y| ensures !OccursAt(s, d, j) {
      assert s[j] != d[0];
      assert j + |d| <= |s| ==> s[j..j + |d|][0] == s[j];
    }
  }

  // --- any of them is no shorter than one of the list --------------------------------------------------------

  /** How a row with a common prefix is cut. */
  lemma {:induction false} CutRow(q: Query, n: Bytes) returns (front: Bytes, r: Bytes, z: Bytes)
    requires |q.prefix| <= |n| && EntryOf(q, n).Group?
    ensures q.delimiter != [] && n == front + (r + q.delimiter) + z && |front| == |q.prefix|
    ensures EntryOf(q, n) == Group(q.prefix + (r + q.delimiter))
  {
    var p, d := q.prefix, q.delimiter;
    var rest := n[|p|..];
    var j := Index(rest, d);
    hide Index;
    front, r, z := n[..|p|], rest[..j], rest[j + |d|..];
    assert rest[..j + |d|] == r + d;
    assert rest == r + d + z;
    assert n == front + rest;
  }

  /** A row that does not step forward is cut like that, and the successor of its common prefix is not behind it. */
  lemma {:induction false} StalledRow(q: Query, n: Bytes) returns (front: Bytes, r: Bytes, z: Bytes)
    requires !StepsForward(q, n)
    ensures InRange(n, q.prefix, End(q)) && q.delimiter != []
    ensures n == front + (r + q.delimiter) + z && |front| == |q.prefix|
    ensures var cp := q.prefix + (r + q.delimiter);
            EntryOf(q, n) == Group(cp) && PrefixSuccessor(cp) != [] && Leq(PrefixSuccessor(cp), n)
  {
    hide Less, PrefixSuccessor, EntryOf, InRange;
    front, r, z := CutRow(q, n);
    NotLess(n, PrefixSuccessor(EntryOf(q, n).prefix));
  }

  lemma CleanMiddle(a: Bytes, b: Bytes, c: Bytes)
    requires ValidObjectName(a + b + c)
    ensures Clean(a) && Clean(b) && Clean(c) && |a| + |b| + |c| <= 1024
  {
    forall x: Byte | x !in a + b + c ensures x !in a && x !in b && x !in c {
      assert x !in a + b;
    }
  }

  /** A stalled row with the prefix is in a group from 0xc3 on whose misplaced name is valid. */
  lemma {:induction false} StalledMember(q: Query, n: Bytes, cp: Bytes)
    requires ValidObjectName(n) && HasPrefix(n, cp) && PrefixSuccessor(cp) != [] && Leq(PrefixSuccessor(cp), n)
    ensures !Safe(cp) && cp[Pivot(cp)] >= 0xc3 && ValidObjectName(Misplaced(cp))
  {
    hide ValidObjectName, Less, Misplaced;
    NotLess(n, PrefixSuccessor(cp));
    assert !Bounds(cp, n);
    WrongAboutAValidName(cp, n);
    if cp[Pivot(cp)] < 0xc3 {
      LowRangeHasNames(cp, n);
      assert false;
    }
  }

  /** Where the range admits all names with the prefix, or those that go on with a small byte. */
  predicate Admits(p: Bytes, s: Bytes)
  {
    Safe(p) || p[Pivot(p)] < 0xc3 || (Pivot(p) == |p| - 1 && p[|p| - 1] == 0xc3 && (s == [] || s[0] < 0x84))
  }

  lemma {:induction false} AdmitsIff(p: Bytes, s: Bytes)
    ensures Admits(p, s) <==> InRange(p + s, p, PrefixSuccessor(p))
  {
    hide Less, InRange;
    assert HasPrefix(p + s, p);
    if Safe(p) {
      SafeRange(p, p + s);
    } else if p[Pivot(p)] < 0xc3 {
      LowRangeHasNames(p, p + s);
    } else {
      HighRangeHolds(p, p + s);
    }
  }

  lemma {:induction false} Listed(q: Query, n: Bytes)
    requires n in StallNames(q) && Stalls(q, n)
    ensures CanStall(q)
  {
  }

  /** The common prefix with the least in front of the delimiter is valid and misplaced as the row's own is. */
  lemma {:induction false} LeastGroup(q: Query, n: Bytes, r: Bytes, z: Bytes, y: Bytes)
    requires ValidObjectName(n) && n == q.prefix + (r + q.delimiter) + z && Pivot(q.delimiter) >= 0
    requires var cp := q.prefix + (r + q.delimiter);
             !Safe(cp) && cp[Pivot(cp)] >= 0xc3 && ValidObjectName(Misplaced(cp))
    requires |y| <= |r| && forall x :: x in y ==> x >= 0x80
    ensures var cp := q.prefix + (y + q.delimiter);
            !Safe(cp) && cp[Pivot(cp)] >= 0xc3 && ValidObjectName(Misplaced(cp))
  {
    hide ValidObjectName, Clean, Misplaced, Safe, Pivot;
    var p, d := q.prefix, q.delimiter;
    CleanMiddle(p, r + d, z);
    CleanEnds(r, d);
    PaddedIsClean(p, y, d);
    Associate(p, r, d);
    Associate(p, y, d);
    EndByte(p + r, d);
    EndByte(p + y, d);
    ShorterMisplaced(p + r, p + y, d);
  }

  lemma Associate(a: Bytes, b: Bytes, c: Bytes)
    ensures a + (b + c) == a + b + c
  {
  }

  lemma {:induction false} EndByte(front: Bytes, d: Bytes)
    requires Pivot(d) >= 0
    ensures Pivot(front + d) >= 0 && (front + d)[Pivot(front + d)] == d[Pivot(d)] && (Safe(front + d) <==> Safe(d))
  {
    SafetyIsDecidedByTheEnd(front, d);
  }

  /** A stalled row with the prefix, when the delimiter has a byte that is not 0xff. */
  lemma {:induction false} MemberIsListed(q: Query, n: Bytes, r: Bytes, z: Bytes)
    requires Stalls(q, n) && q.delimiter != [] && Pivot(q.delimiter) >= 0
    requires n == q.prefix + (r + q.delimiter) + z && Admits(q.prefix, r + q.delimiter + z)
    requires var cp := q.prefix + (r + q.delimiter);
             !Safe(cp) && cp[Pivot(cp)] >= 0xc3 && ValidObjectName(Misplaced(cp))
    ensures CanStall(q)
  {
    hide ValidObjectName, Clean, StepsForward, StallNames, CanStall, Index, Utf8, InRange, Misplaced;
    var p, d := q.prefix, q.delimiter;
    var tight := !Safe(p) && p[Pivot(p)] >= 0xc3 && d[0] >= 0x84;
    var y: Bytes := if tight then [0x80] else [];
    assert (r + d + z)[0] == if r == [] then d[0] else r[0];
    LeastGroup(q, n, r, z, y);
    var cp := p + (y + d);
    var more: Bytes := if Misplaced(cp) == cp then [] else [0xff];
    MisplacedAbove(cp);
    IndexBehind(y, d);
    assert Admits(p, y + d + more) by { assert (y + d + more)[0] == if y == [] then d[0] else 0x80; }
    AdmitsIff(p, y + d + more);
    assert p + (y + d + more) == cp + more;
    MemberStalls(q, y, more);
    NamesOfList(q, y, more);
    Listed(q, cp + more);
  }

  lemma MisplacedAbove(cp: Bytes)
    requires !Safe(cp) && cp[Pivot(cp)] >= 0xc3
    ensures Misplaced(cp) == cp || Misplaced(cp) == cp + [0xff]
  {
  }

  lemma CleanEnds(r: Bytes, d: Bytes)
    requires Clean(r + d)
    ensures Clean(r) && Clean(d)
  {
    forall x: Byte | x !in r + d ensures x !in r && x !in d {}
  }

  lemma PaddedIsClean(p: Bytes, y: Bytes, d: Bytes)
    requires Clean(p) && Clean(d) && (forall x :: x in y ==> x >= 0x80)
    ensures Clean(p + y + d)
  {
  }

  lemma {:induction false} NamesOfList(q: Query, y: Bytes, more: Bytes)
    requires y in {[], [0x80]} && more in {[], [0xff]}
    ensures q.prefix + (y + q.delimiter) + more in StallNames(q)
  {
    var p, d, l := q.prefix, q.delimiter, StallNames(q);
    assert [] + d == d;
    assert p + (y + d) + [] == p + (y + d);
    assert l[0] == p + d && l[1] == p + d + [0xff] && l[2] == p + ([0x80] + d) && l[3] == p + ([0x80] + d) + [0xff];
  }

  lemma {:induction false} OtherNamesOfList(q: Query)
    ensures var p, d, l := q.prefix, q.delimiter, StallNames(q);
            p + ([0xc4] + d) in l && p + ([0x80, 0xc4] + d) in l &&
            (!Safe(p) ==> Bumped(p) + d in l && Bumped(p) + ([0x80] + d) in l)
  {
    var p, d, l := q.prefix, q.delimiter, StallNames(q);
    assert l[4] == p + ([0xc4] + d) && l[5] == p + ([0x80, 0xc4] + d);
    if !Safe(p) {
      assert l[6] == Bumped(p) + d && l[7] == Bumped(p) + ([0x80] + d);
    }
  }

  /** And when the delimiter has none: then the name has one before it. */
  lemma {:induction false} TopMemberIsListed(q: Query, n: Bytes, r: Bytes, z: Bytes)
    requires Stalls(q, n) && q.delimiter != [] && Pivot(q.delimiter) < 0
    requires n == q.prefix + (r + q.delimiter) + z && Admits(q.prefix, r + q.delimiter + z)
    requires var cp := q.prefix + (r + q.delimiter); !Safe(cp) && cp[Pivot(cp)] >= 0xc3
    ensures CanStall(q)
  {
    hide ValidObjectName, Clean, StepsForward, StallNames, CanStall, Index, Utf8;
    var p, d := q.prefix, q.delimiter;
    var tight := !Safe(p) && p[Pivot(p)] >= 0xc3;
    var y: Bytes := if tight then [0x80, 0xc4] else [0xc4];
    assert |y| <= |r| by { TopMemberHasMore(p, r, d, z); }
    CleanMiddle(p, r + d, z);
    CleanEnds(r, d);
    PaddedIsClean(p, y, d);
    var cp := p + (y + d);
    assert p + y + d == cp;
    PivotIsUnique(cp, |p| + |y| - 1);
    ValidIfClean(cp, |p| + |y| - 1);
    assert cp + [] == cp == Misplaced(cp);
    IndexBehind(y, d);
    AdmitsIff(p, y + d);
    MemberStalls(q, y, []);
    OtherNamesOfList(q);
    Listed(q, cp);
  }

  lemma {:induction false} TopMemberHasMore(p: Bytes, r: Bytes, d: Bytes, z: Bytes)
    requires d != [] && Pivot(d) < 0 && Admits(p, r + d + z)
    requires var cp := p + (r + d); !Safe(cp) && cp[Pivot(cp)] >= 0xc3
    ensures |r| >= if !Safe(p) && p[Pivot(p)] >= 0xc3 then 2 else 1
  {
    var cp := p + (r + d);
    assert (r + d + z)[0] == if r == [] then 0xff else r[0];
    PivotIsUnique(cp, if Pivot(r) < 0 then Pivot(p) else |p| + Pivot(r));
  }

  /** A stalled row without the prefix. */
  lemma {:induction false} StrangerIsListed(q: Query, n: Bytes, front: Bytes, r: Bytes, z: Bytes)
    requires Stalls(q, n) && !HasPrefix(n, q.prefix) && InRange(n, q.prefix, End(q)) && q.delimiter != []
    requires n == front + (r + q.delimiter) + z && |front| == |q.prefix|
    requires var cp := q.prefix + (r + q.delimiter); PrefixSuccessor(cp) != [] && Leq(PrefixSuccessor(cp), n)
    ensures CanStall(q)
  {
    hide ValidObjectName, Clean, StepsForward, StallNames, CanStall, Index, Utf8, Less, PrefixSuccessor, HasPrefix,
      Bumped;
    var p, d := q.prefix, q.delimiter;
    if Safe(p) {
      SafeRange(p, n);
      assert false;
    }
    var i := Pivot(p);
    if p[i] >= 0xc3 {
      HighRangeHasPrefix(p, n);
      assert false;
    }
    var y: Bytes := if Pivot(d) < 0 || (p[i] == 0xc2 && i == |p| - 1 && d[0] >= 0x83) then [0x80] else [];
    assert |y| <= |r| by {
      if Pivot(d) < 0 {
        TopStrangerHasMore(p, n, r, d);
      } else if y != [] {
        TightStrangerHasMore(p, n, front, r, d, z);
      }
    }
    assert Clean(p[..i]) && Clean(d) && |p| + |r| + |d| <= 1024 by {
      CleanMiddle(front, r + d, z);
      CleanEnds(r, d);
      RangeSharesFront(p, n);
      CleanFront(n, p[..i]);
    }
    LowRangeHasBumped(p, y + d);
    IndexBehind(y, d);
    assert Pivot(y + d) >= 0 by { PivotOfPadded(y, d); }
    BumpedStalls(q, y);
    PaddedIsClean([], y, d);
    assert [] + y + d == y + d;
    BumpedIsClean(p, y + d);
    assert y == [] ==> [] + d == d;
    OtherNamesOfList(q);
    Listed(q, Bumped(p) + (y + d));
  }

  lemma {:induction false} PivotOfPadded(y: Bytes, d: Bytes)
    requires y == [0x80] || (y == [] && Pivot(d) >= 0)
    ensures Pivot(y + d) >= 0
  {
    if y == [] {
      assert y + d == d;
    } else {
      PivotIsUnique(y + d, if Pivot(d) < 0 then 0 else 1 + Pivot(d));
    }
  }

  lemma {:induction false} BumpedIsClean(p: Bytes, s: Bytes)
    requires !Safe(p) && Clean(p[..Pivot(p)]) && Clean(s) && |p| + |s| <= 1024
    ensures ValidObjectName(Bumped(p) + s)
  {
    hide ValidObjectName;
    ValidIfClean(Bumped(p) + s, Pivot(p));
  }

  lemma {:induction false} TopStrangerHasMore(p: Bytes, n: Bytes, r: Bytes, d: Bytes)
    requires !Safe(p) && InRange(n, p, PrefixSuccessor(p)) && Pivot(d) < 0
    requires var cp := p + (r + d); PrefixSuccessor(cp) != [] && Leq(PrefixSuccessor(cp), n)
    ensures r != []
  {
    hide Less;
    if r == [] {
      TopBytesKeepSuccessor(p, d);
      assert p + ([] + d) == p + d;
      NotLess(n, PrefixSuccessor(p));
      assert false;
    }
  }

  lemma {:induction false} TopBytesKeepSuccessor(p: Bytes, d: Bytes)
    requires Pivot(d) < 0
    ensures PrefixSuccessor(p + d) == PrefixSuccessor(p)
  {
    PivotIsUnique(p + d, Pivot(p));
    assert Pivot(p) >= 0 ==> (p + d)[..Pivot(p)] == p[..Pivot(p)];
  }

  lemma {:induction false} TightStrangerHasMore(p: Bytes, n: Bytes, front: Bytes, r: Bytes, d: Bytes, z: Bytes)
    requires !Safe(p) && !HasPrefix(n, p) && InRange(n, p, PrefixSuccessor(p)) && d != []
    requires n == front + (r + d) + z && |front| == |p|
    requires p[Pivot(p)] == 0xc2 && Pivot(p) == |p| - 1 && d[0] >= 0x83
    ensures r != []
  {
    hide Less, InRange, PrefixSuccessor;
    var i := Pivot(p);
    RangeSharesFront(p, n);
    var rest := n[i..];
    assert [p[i]] + p[i + 1..] == [0xc2];
    assert |rest| > 1 && rest[1] == n[|p|];
    if r == [] {
      assert n[|p|] == d[0];
      AboveLow(rest);
      BackToPrefix(p, n);
      assert false;
    }
  }

  lemma BackToPrefix(p: Bytes, n: Bytes)
    requires p != [] && HasPrefix(n, p[..|p| - 1]) && |n| >= |p| && n[|p| - 1] == p[|p| - 1]
    ensures HasPrefix(n, p)
  {
    assert n[..|p|] == n[..|p| - 1] + [n[|p| - 1]];
  }

  lemma {:induction false} AboveLow(rest: Bytes)
    requires |rest| > 1 && rest[1] >= 0x83 && Leq([0xc2], rest) && Less(rest, Utf8(0xc3))
    ensures rest[0] == 0xc2
  {
    LessThanByte(rest[1..], 0x83);
    assert Utf8(0xc3) == [0xc3, 0x83] && [0xc3, 0x83][1..] == [0x83];
  }

  lemma {:induction false} StalledIsListed(q: Query, n: Bytes)
    requires Stalls(q, n)
    ensures CanStall(q)
  {
    hide ValidObjectName, StepsForward, CanStall, Less, PrefixSuccessor, EntryOf, Misplaced;
    var p, d := q.prefix, q.delimiter;
    var front, r, z := StalledRow(q, n);
    if HasPrefix(n, p) {
      assert front == n[..|p|] == p;
      assert n[..|p + (r + d)|] == p + (r + d);
      StalledMember(q, n, p + (r + d));
      assert n == p + (r + d + z);
      AdmitsIff(p, r + d + z);
      if Pivot(d) >= 0 {
        MemberIsListed(q, n, r, z);
      } else {
        TopMemberIsListed(q, n, r, z);
      }
    } else {
      StrangerIsListed(q, n, front, r, z);
    }
  }

  /** Some bucket of valid names holds a chain of this request up exactly if one of at most eight names does. */
  lemma {:induction false} StallsIff(q: Query)
    ensures (exists names :: ValidNames(names) && !ChainsEnd(q, names)) <==> CanStall(q)
  {
    hide ValidObjectName, StepsForward, StallNames, ChainsEnd;
    forall names | ValidNames(names) && !ChainsEnd(q, names) ensures CanStall(q) {
      assert [] !in names by { NoEmptyName(names); }
      ChainsEndIffForward(q, names);
      var n :| n in names && !StepsForward(q, n);
      StalledIsListed(q, n);
    }
    if CanStall(q) {
      var n :| n in StallNames(q) && Stalls(q, n);
      NoEmptyName({n});
      StalledIsNotEnded(q, n);
      assert ValidNames({n});
    }
  }

  lemma NoEmptyName(names: set<Bytes>)
    ensures forall n :: n in names && ValidObjectName(n) ==> n != []
  {
  }
}
