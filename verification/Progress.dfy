/** Whether a listing gets anywhere: when a call panics, and when a chain of pages stands still. */
module Progress {
  import opened ByteStrings
  import opened Types
  import opened Successor
  import opened Listing
  import opened Scan
  import opened Paging
  import opened Exactness

  function End(q: Query): Bytes
  {
    PrefixSuccessor(q.prefix)
  }

  // --- panics ------------------------------------------------------------------------------------------

  /** A row that the query brings up and that is too short to have the prefix cut off. */
  predicate ShortRow(q: Query, n: Bytes)
  {
    InRange(n, q.prefix, End(q)) && |n| < |q.prefix|
  }

  /** Behind a group the scan goes on above the prefix, or at the end of its range, or nowhere. */
  lemma {:induction false} SkipStaysInRange(q: Query, n: Bytes)
    requires |q.prefix| <= |n| && EntryOf(q, n).Group?
    ensures var after := Behind(EntryOf(q, n)); after == [] || after == End(q) || Leq(q.prefix, after)
  {
    hide Less, PrefixSuccessor, Index;
    SuccessorOfLonger(q.prefix, EntryOf(q, n).prefix);
  }

  lemma {:induction false} SuccessorOfLonger(p: Bytes, cp: Bytes)
    requires HasPrefix(cp, p)
    ensures PrefixSuccessor(cp) == PrefixSuccessor(p) || Leq(p, PrefixSuccessor(cp))
  {
    hide Less;
    var s := cp[|p|..];
    assert cp == p + s;
    if Pivot(s) >= 0 {
      PivotIsUnique(cp, |p| + Pivot(s));
      assert PrefixSuccessor(cp)[..|p|] == p;
      PrefixLeq(PrefixSuccessor(cp), p);
    } else {
      PivotIsUnique(cp, Pivot(p));
      assert Pivot(p) >= 0 ==> cp[..Pivot(p)] == p[..Pivot(p)];
    }
  }

  lemma {:induction false} NothingAtEnd(names: set<Bytes>, end: Bytes)
    requires end != []
    ensures Rows(names, end, end) == {}
  {
    forall n ensures !InRange(n, end, end) { NotLess(n, end); }
  }

  /** A scan from within the range panics only over a short row. */
  lemma {:induction false} PanicNeedsShortRow(q: Query, names: set<Bytes>, next: Bytes, room: nat)
    requires Leq(q.prefix, next) && Walk(q, names, End(q), next, room).Panicked?
    ensures exists n :: n in names && ShortRow(q, n)
    decreases room
  {
    hide EntryOf, Less, PrefixSuccessor;
    var rows := Rows(names, next, End(q));
    var n := Least(rows);
    LeqTransitive(q.prefix, next, n);
    if |n| < |q.prefix| {
      assert ShortRow(q, n);
    } else if EntryOf(q, n).Group? {
      var after := Behind(EntryOf(q, n));
      SkipStaysInRange(q, n);
      if after == End(q) && after != [] {
        NothingAtEnd(names, after);
      } else {
        PanicNeedsShortRow(q, names, after, room - 1);
      }
    } else {
      LeastAbove(n, n + [0]);
      LeqTransitive(q.prefix, n, n + [0]);
      PanicNeedsShortRow(q, names, n + [0], room - 1);
    }
  }

  lemma {:induction false} StartIsAbovePrefix(q: Query, token: Bytes)
    ensures Leq(q.prefix, Start(q, token))
  {
  }

  lemma {:induction false} ShortRowPanics(q: Query, names: set<Bytes>, n: Bytes)
    requires n in names && ShortRow(q, n)
    ensures List(q, names, n, 1).Panicked?
  {
    var rows := Rows(names, n, End(q));
    assert Start(q, n) == n && n in rows;
    assert IsLeast(rows, n);
    LeastIsUnique(rows, n, Least(rows));
  }

  /** Some page of the bucket panics exactly if it has a short row. */
  lemma {:induction false} PanicsIffShortRow(q: Query, names: set<Bytes>)
    ensures (exists token, limit :: List(q, names, token, limit).Panicked?) <==>
            exists n :: n in names && ShortRow(q, n)
  {
    hide Walk, ShortRow;
    forall token, limit | List(q, names, token, limit).Panicked? ensures exists n :: n in names && ShortRow(q, n) {
      StartIsAbovePrefix(q, token);
      PanicNeedsShortRow(q, names, Start(q, token), Clamp(limit));
    }
    forall n | n in names && ShortRow(q, n) ensures List(q, names, n, 1).Panicked? {
      ShortRowPanics(q, names, n);
    }
  }

  /** Requests for which the store can hold a short row: the range begins before the end of the prefix. */
  predicate CanPanic(q: Query)
  {
    var p := q.prefix;
    !Safe(p) && p[Pivot(p)] < 0xc3 && Pivot(p) + 1 < |p| && ValidObjectName(Misplaced(p))
  }

  lemma {:induction false} ShortValidRow(q: Query, n: Bytes)
    requires ValidObjectName(n) && ShortRow(q, n)
    ensures CanPanic(q)
  {
    hide ValidObjectName, Less, Misplaced;
    var p := q.prefix;
    assert !HasPrefix(n, p) && !Bounds(p, n);
    WrongAboutAValidName(p, n);
    if p[Pivot(p)] >= 0xc3 {
      HighRangeHasPrefix(p, n);
      assert false;
    }
    RangeSharesFront(p, n);
  }

  /** A request panics on some bucket of valid names exactly if this condition on its prefix holds. */
  lemma {:induction false} PanicsIff(q: Query)
    ensures (exists names, token, limit :: ValidNames(names) && List(q, names, token, limit).Panicked?) <==> CanPanic(q)
  {
    hide ValidObjectName, List, ShortRow, CanPanic;
    forall names, token, limit | ValidNames(names) && List(q, names, token, limit).Panicked? ensures CanPanic(q) {
      PanicsIffShortRow(q, names);
      var n :| n in names && ShortRow(q, n);
      ShortValidRow(q, n);
    }
    if CanPanic(q) {
      var n := Misplaced(q.prefix);
      assert ValidObjectName(n) && ShortRow(q, n) by { MisplacedIsShort(q); }
      ShortRowPanics(q, {n}, n);
      assert ValidNames({n});
    }
  }

  lemma {:induction false} MisplacedIsShort(q: Query)
    requires CanPanic(q)
    ensures ValidObjectName(Misplaced(q.prefix)) && ShortRow(q, Misplaced(q.prefix))
  {
    hide ValidObjectName;
    UnsafeRange(q.prefix);
  }

  /** For example this one, over the valid name 0x81. */
  lemma {:induction false} PanicExample()
    ensures List(Query([0x80, 0xff], []), {[0x81]}, [], 1) == Panicked
    ensures ValidObjectName([0x81])
  {
    var p: Bytes, n: Bytes := [0x80, 0xff], [0x81];
    PivotIsUnique(p, 0);
    assert p[..0] == [] && PrefixSuccessor(p) == [0xc2, 0x81];
    assert Less(p, n) && Less(n, [0xc2, 0x81]);
    assert Rows({n}, p, [0xc2, 0x81]) == {n};
    assert Start(Query(p, []), []) == p;
  }

  // --- chains that stand still ---------------------------------------------------------------------------

  /** From the row `n` the scan goes forward: it has no common prefix, or the successor of that lies behind it. */
  predicate StepsForward(q: Query, n: Bytes)
  {
    InRange(n, q.prefix, End(q)) && |q.prefix| <= |n| && EntryOf(q, n).Group? ==>
      var after := Behind(EntryOf(q, n));
      after == [] || Less(n, after)
  }

  /** The chain is through: no token to follow, or no page at all. */
  predicate Ended(pages: seq<Outcome>)
  {
    pages != [] && (pages[|pages| - 1].Panicked? || pages[|pages| - 1].token == [])
  }

  ghost predicate EndsWithin(q: Query, names: set<Bytes>, k: nat)
  {
    forall limits :: |limits| >= k ==> Ended(TokenPages(q, names, [], limits))
  }

  /** A client that asks often enough comes to an end, whatever the limits. */
  ghost predicate ChainsEnd(q: Query, names: set<Bytes>)
  {
    exists k: nat :: EndsWithin(q, names, k)
  }

  /** If all rows step forward, a token lies behind some row of the scan that it ends. */
  lemma {:induction false} WalkMovesOn(q: Query, names: set<Bytes>, next: Bytes, room: nat)
    requires Leq(q.prefix, next) && forall n :: n in names ==> StepsForward(q, n)
    requires var o := Walk(q, names, End(q), next, room); o.Page? && o.token != []
    ensures var rows, t := Rows(names, next, End(q)), Walk(q, names, End(q), next, room).token;
            t in rows && (room > 0 ==> Less(Least(rows), t))
    decreases room
  {
    hide EntryOf, Less, PrefixSuccessor;
    var rows := Rows(names, next, End(q));
    var n := Least(rows);
    LeqTransitive(q.prefix, next, n);
    if room > 0 {
      var after := if EntryOf(q, n).Group? then Behind(EntryOf(q, n)) else n + [0];
      assert StepsForward(q, n);
      LeastAbove(n, n + [0]);
      LeqTransitive(q.prefix, n, after);
      WalkMovesOn(q, names, after, room - 1);
      var t := Walk(q, names, End(q), after, room - 1).token;
      LeqTransitive(n, after, t);
      LeqTransitive(next, n, t);
    }
  }

  lemma {:induction false} ChainEndsWithin(q: Query, names: set<Bytes>, token: Bytes, limits: seq<int>)
    requires forall n :: n in names ==> StepsForward(q, n)
    requires |limits| > |Rows(names, Start(q, token), End(q))|
    ensures Ended(TokenPages(q, names, token, limits))
    decreases |limits|
  {
    hide StepsForward, Walk, Less, PrefixSuccessor;
    var page := List(q, names, token, limits[0]);
    if page.Page? && page.token != [] {
      var next, t := Start(q, token), page.token;
      StartIsAbovePrefix(q, token);
      WalkMovesOn(q, names, next, Clamp(limits[0]));
      var rows, fewer := Rows(names, next, End(q)), Rows(names, Start(q, t), End(q));
      var n := Least(rows);
      LeqTransitive(q.prefix, next, t);
      assert Leq(t, Start(q, t)) by { NotLess(q.prefix, t); }
      forall x | x in fewer ensures x in rows && x != n {
        LeqTransitive(t, Start(q, t), x);
        LeqTransitive(next, t, x);
        NotLess(n, t);
      }
      FewerRows(fewer, rows, n);
      ChainEndsWithin(q, names, t, limits[1..]);
      var tail := TokenPages(q, names, t, limits[1..]);
      assert ([page] + tail)[|tail|] == tail[|tail| - 1];
    }
  }

  lemma FewerRows(fewer: set<Bytes>, rows: set<Bytes>, n: Bytes)
    requires n in rows && forall x :: x in fewer ==> x in rows && x != n
    ensures |fewer| < |rows|
  {
    assert fewer <= rows - {n};
    assert rows - {n} == fewer + (rows - {n} - fewer);
  }

  lemma {:induction false} StalledPages(q: Query, names: set<Bytes>, token: Bytes, k: nat, page: Outcome)
    requires page.Page? && page.token != []
    requires List(q, names, token, 1) == page == List(q, names, page.token, 1)
    ensures TokenPages(q, names, token, seq(k, _ => 1)) == seq(k, _ => page)
    decreases k
  {
    hide List;
    if k > 0 {
      StalledPages(q, names, page.token, k - 1, page);
      assert seq(k, _ => 1)[1..] == seq(k - 1, _ => 1);
    }
  }

  /** A row that does not step forward holds the chain of its bucket up for ever. */
  lemma {:induction false} OneNameStalls(q: Query, n: Bytes, k: nat)
    requires n != [] && !StepsForward(q, n)
    ensures TokenPages(q, {n}, [], seq(k, _ => 1)) == seq(k, _ => Page([EntryOf(q, n)], n))
  {
    hide Less, EntryOf, PrefixSuccessor;
    var after := Behind(EntryOf(q, n));
    NotLess(n, after);
    forall token | token == [] || token == n ensures List(q, {n}, token, 1) == Page([EntryOf(q, n)], n) {
      NoneBelowEmpty(q.prefix);
      NotLess(q.prefix, n);
      assert Rows({n}, Start(q, token), End(q)) == {n} == Rows({n}, after, End(q));
      assert Walk(q, {n}, End(q), after, 0) == Page([], n);
    }
    StalledPages(q, {n}, [], k, Page([EntryOf(q, n)], n));
  }

  lemma {:induction false} StalledIsNotEnded(q: Query, n: Bytes)
    requires n != [] && !StepsForward(q, n)
    ensures !ChainsEnd(q, {n})
  {
    hide StepsForward, TokenPages;
    forall k: nat ensures !EndsWithin(q, {n}, k) {
      OneNameStalls(q, n, k);
      assert |seq(k, _ => 1)| >= k && !Ended(TokenPages(q, {n}, [], seq(k, _ => 1)));
    }
  }

  /** Chains over a bucket and over whatever is left of it when names go all come to an end exactly if every name steps
      forward. */
  lemma {:induction false} ChainsEndIffForward(q: Query, names: set<Bytes>)
    requires [] !in names
    ensures (forall some :: some <= names ==> ChainsEnd(q, some)) <==> forall n :: n in names ==> StepsForward(q, n)
  {
    hide StepsForward, TokenPages, Ended;
    if forall n :: n in names ==> StepsForward(q, n) {
      forall some | some <= names ensures ChainsEnd(q, some) {
        var k := |Rows(some, Start(q, []), End(q))| + 1;
        forall limits | |limits| >= k ensures Ended(TokenPages(q, some, [], limits)) {
          ChainEndsWithin(q, some, [], limits);
        }
        assert EndsWithin(q, some, k);
      }
    } else {
      var n :| n in names && !StepsForward(q, n);
      StalledIsNotEnded(q, n);
    }
  }

  /** The request for "é" and "/", and the name "ñ/x". */
  const ACCENTED := Query([0xc3, 0xa9], [0x2f])
  const OTHER_NAME: Bytes := [0xc3, 0xb1, 0x2f, 0x78]

  lemma {:induction false} AccentedEntry()
    ensures EntryOf(ACCENTED, OTHER_NAME) == Group([0xc3, 0xa9, 0x2f])
  {
    var d: Bytes, rest: Bytes := [0x2f], [0x2f, 0x78];
    assert OTHER_NAME[2..] == rest && OccursAt(rest, d, 0) && rest[..1] == d;
  }

  lemma {:induction false} AccentedRanges()
    ensures End(ACCENTED) == [0xc3, 0xc2, 0xaa] && PrefixSuccessor([0xc3, 0xa9, 0x2f]) == [0xc3, 0xa9, 0x30]
  {
    PivotIsUnique([0xc3, 0xa9], 1);
    PivotIsUnique([0xc3, 0xa9, 0x2f], 2);
    assert [0xc3, 0xa9][..1] == [0xc3] && [0xc3, 0xa9, 0x2f][..2] == [0xc3, 0xa9];
  }

  /** A prefix and a name outside ASCII, with a safe delimiter: the name does not match, but is cut like one that does,
      and the scan goes back to before it. */
  lemma {:induction false} AccentedPrefixStalls(k: nat)
    ensures ValidObjectName(OTHER_NAME) && Matching(ACCENTED, {OTHER_NAME}, []) == {}
    ensures TokenPages(ACCENTED, {OTHER_NAME}, [], seq(k, _ => 1)) ==
            seq(k, _ => Page([Group([0xc3, 0xa9, 0x2f])], OTHER_NAME))
  {
    hide Less, PrefixSuccessor, EntryOf, TokenPages, End;
    AccentedEntry();
    AccentedRanges();
    LessAt(ACCENTED.prefix, OTHER_NAME, 1);
    LessAt(OTHER_NAME, [0xc3, 0xc2, 0xaa], 1);
    LessAt([0xc3, 0xa9, 0x30], OTHER_NAME, 1);
    NotLess(OTHER_NAME, [0xc3, 0xa9, 0x30]);
    assert OTHER_NAME[..2] != ACCENTED.prefix;
    OneNameStalls(ACCENTED, OTHER_NAME, k);
  }

  /** Strings that differ first at position i compare as they do there. */
  lemma {:induction false} LessAt(a: Bytes, b: Bytes, i: nat)
    requires i < |a| && i < |b| && a[..i] == b[..i] && a[i] < b[i]
    ensures Less(a, b)
  {
    if i > 0 {
      assert a[0] == a[..i][0] == b[..i][0] == b[0];
      assert a[1..][..i - 1] == a[..i][1..] && b[1..][..i - 1] == b[..i][1..];
      LessAt(a[1..], b[1..], i - 1);
    }
  }

  /** Or a delimiter of 0xc4, whose successor lies before it. */
  lemma {:induction false} HighDelimiterStalls(k: nat)
    ensures TokenPages(Query([], [0xc4]), {[0xc4]}, [], seq(k, _ => 1)) == seq(k, _ => Page([Group([0xc4])], [0xc4]))
  {
    var n: Bytes := [0xc4];
    var q := Query([], n);
    PivotIsUnique(n, 0);
    assert n[..0] == [] && PrefixSuccessor(n) == [0xc3, 0x85];
    assert n[0..] == n && OccursAt(n, n, 0) && n[..1] == n && EntryOf(q, n) == Group(n);
    NotLess(n, PrefixSuccessor(n));
    NoneBelowEmpty(n);
    assert InRange(n, [], []);
    OneNameStalls(q, n, k);
  }
}
