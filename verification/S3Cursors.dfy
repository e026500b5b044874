/** The cursors of the S3 front end: V2's tokens and start-after, and V1's exclusive marker. */
module S3Cursors {
  import opened ByteStrings
  import opened Successor
  import opened Listing
  import opened Scan
  import opened Paging

  /** The page token that a V2 request stands for. */
  function V2Token(continuation: Bytes, startAfter: Bytes): Bytes
  {
    if continuation != [] then continuation
    else if startAfter != [] then startAfter + [0]
    else []
  }

  predicate LooksLikeGroup(delimiter: Bytes, marker: Bytes)
  {
    delimiter != [] && HasSuffix(marker, delimiter)
  }

  /** The page token that a V1 marker stands for: behind the group if it looks like one, else behind the name. */
  function MarkerToken(delimiter: Bytes, marker: Bytes): Bytes
  {
    if marker == [] then []
    else if LooksLikeGroup(delimiter, marker) then PrefixSuccessor(marker)
    else marker + [0]
  }

  /** The larger of the last object and the last common prefix of a page. */
  function NextMarker(objects: seq<Bytes>, prefixes: seq<Bytes>): Bytes
  {
    var last := if objects != [] then objects[|objects| - 1] else [];
    if prefixes != [] && Less(last, prefixes[|prefixes| - 1]) then prefixes[|prefixes| - 1] else last
  }

  /** The pages a V1 client sees that follows NextMarker. */
  function MarkerPages(q: Query, names: set<Bytes>, marker: Bytes, limits: seq<int>): seq<Outcome>
    decreases |limits|
  {
    if limits == [] then []
    else
      var page := List(q, names, MarkerToken(q.delimiter, marker), limits[0]);
      if page.Panicked? || page.token == [] then [page]
      else [page] + MarkerPages(q, names, NextMarker(Objects(page.entries), Prefixes(page.entries)), limits[1..])
  }

  lemma StartAfterIsExclusive(q: Query, names: set<Bytes>, startAfter: Bytes)
    requires startAfter != []
    ensures Matching(q, names, V2Token([], startAfter)) ==
            set n | n in names && HasPrefix(n, q.prefix) && Less(startAfter, n)
  {
    forall n ensures Leq(startAfter + [0], n) <==> Less(startAfter, n) { LeastAbove(startAfter, n); }
  }

  // --- the marker names the last entry of the page -----------------------------------------

  lemma EntriesBeforeLast(es: seq<Entry>, e: Entry)
    requires es != [] && AscendingKeys(es) && e in es[..|es| - 1]
    ensures Less(e.Key(), es[|es| - 1].Key()) && !Less(es[|es| - 1].Key(), e.Key())
  {
    NotLess(e.Key(), es[|es| - 1].Key());
  }

  lemma {:induction false} LastOfPage(es: seq<Entry>)
    requires es != []
    ensures var init, last := es[..|es| - 1], es[|es| - 1];
            if last.Object? then Objects(es) == Objects(init) + [last.name] && Prefixes(es) == Prefixes(init)
            else Objects(es) == Objects(init) && Prefixes(es) == Prefixes(init) + [last.prefix]
  {
  }

  lemma {:induction false} NextMarkerIsLastKey(es: seq<Entry>)
    requires es != [] && AscendingKeys(es)
    ensures NextMarker(Objects(es), Prefixes(es)) == es[|es| - 1].Key()
  {
    hide Objects, Prefixes, AscendingKeys;
    var init, last := es[..|es| - 1], es[|es| - 1];
    var os, ps := Objects(init), Prefixes(init);
    LastOfPage(es);
    assert ps != [] ==> Group(ps[|ps| - 1]) in init by { ListsHoldEntries(init); }
    assert os != [] ==> Object(os[|os| - 1]) in init by { ListsHoldEntries(init); }
    if last.Object? && ps != [] {
      EntriesBeforeLast(es, Group(ps[|ps| - 1]));
    }
    if last.Group? && os != [] {
      EntriesBeforeLast(es, Object(os[|os| - 1]));
    }
  }

  // --- where a marker resumes -----------------------------------------------------------------

  /** What a page leaves over is what lies above any member of its last entry, outside that entry. */
  lemma {:induction false} RestIsAboveLast(q: Query, m: set<Bytes>, k: nat, a: Bytes, x: Bytes)
    requires Under(q, m) && a in m && x in m
    requires var es := Served(q, m, k); es != [] && EntryOf(q, a) == es[|es| - 1]
    ensures x in Pending(q, m, Served(q, m, k)) <==> Less(a, x) && EntryOf(q, x) != EntryOf(q, a)
  {
    var es := Served(q, m, k);
    var rest := Pending(q, m, es);
    PendingIsRest(q, m, k);
    if Less(a, x) && EntryOf(q, x) != EntryOf(q, a) && x !in rest {
      KeysAscendWithNames(q, a, x);
      ListingAscends(q, m);
      var i :| 0 <= i < |es| && es[i] == EntryOf(q, x);
      assert i < |es| - 1;
      LessTransitive(es[i].Key(), EntryOf(q, a).Key(), es[i].Key());
      LessIrreflexive(es[i].Key());
    }
  }

  /** The range of a key that looks like a common prefix is right about a name. */
  predicate MarkerExact(q: Query, key: Bytes, x: Bytes)
  {
    LooksLikeGroup(q.delimiter, key) ==> Bounds(key, x)
  }

  /** The key looks like a common prefix and has no successor: as a marker it stands for the front of the listing. */
  predicate Endless(q: Query, last: Entry)
  {
    LooksLikeGroup(q.delimiter, last.Key()) && Pivot(last.Key()) < 0
  }

  predicate MarkersExact(q: Query, names: set<Bytes>, n: Bytes)
  {
    forall x :: x in names && HasPrefix(x, q.prefix) ==> MarkerExact(q, EntryOf(q, n).Key(), x)
  }

  /** The ranges that both cursors compute are right about these names. */
  predicate CursorsExact(q: Query, names: set<Bytes>)
  {
    ExactFor(q, names) && forall n :: n in names && HasPrefix(n, q.prefix) ==> MarkersExact(q, names, n)
  }

  lemma SafeQueryIsCursorsExact(q: Query, names: set<Bytes>)
    requires SafeQuery(q)
    ensures CursorsExact(q, names)
  {
    SafeQueryIsExactFor(q, names);
    forall n, x ensures MarkerExact(q, EntryOf(q, n).Key(), x) {
      var k, d := EntryOf(q, n).Key(), q.delimiter;
      if LooksLikeGroup(d, k) {
        assert k[..|k| - |d|] + d == k;
        SafetyIsDecidedByTheEnd(k[..|k| - |d|], d);
        SafeRange(k, x);
      }
    }
  }

  lemma MarkerBehindGroup(q: Query, a: Bytes, x: Bytes)
    requires HasPrefix(a, q.prefix) && HasPrefix(x, q.prefix) && EntryOf(q, a).Group? && !Endless(q, EntryOf(q, a))
    requires MarkerExact(q, EntryOf(q, a).prefix, a) && MarkerExact(q, EntryOf(q, a).prefix, x)
    ensures var t := MarkerToken(q.delimiter, EntryOf(q, a).prefix);
            Less(a, t) && (Leq(t, x) <==> Less(a, x) && EntryOf(q, x) != EntryOf(q, a))
  {
    hide Pivot, EntryOf;
    var cp := EntryOf(q, a).prefix;
    GroupEndsWithDelimiter(q, a);
    var t := PrefixSuccessor(cp);
    assert cp != [] && t != [];
    KeyIsPrefix(q, a);
    GroupIsRange(q, a, a);
    GroupIsRange(q, a, x);
    NotLess(x, t);
    if Leq(t, x) { LeqTransitive(a, t, x); }
    if Less(a, x) { LeqTransitive(cp, a, x); }
  }

  lemma {:induction false} MarkerBehindObject(q: Query, n: Bytes, x: Bytes)
    requires n != [] && MarkerExact(q, n, n) && MarkerExact(q, n, x) && !Endless(q, Object(n))
    ensures var t := MarkerToken(q.delimiter, n);
            Less(n, t) && (Leq(t, x) <==> Less(n, x) && !(LooksLikeGroup(q.delimiter, n) && HasPrefix(x, n)))
  {
    hide Pivot;
    if LooksLikeGroup(q.delimiter, n) {
      var t := PrefixSuccessor(n);
      assert HasPrefix(n, n) && t != [];
      NotLess(x, t);
      if Leq(t, x) { LeqTransitive(n, t, x); }
    } else {
      LeastAbove(n, x);
      LeastAbove(n, n + [0]);
    }
  }

  /** A name that a marker hides because the object it names looks like a common prefix. */
  predicate Hidden(q: Query, last: Entry, x: Bytes)
  {
    last.Object? && LooksLikeGroup(q.delimiter, last.name) && HasPrefix(x, last.name)
  }

  lemma MarkerBehindEntry(q: Query, a: Bytes, x: Bytes)
    requires HasPrefix(a, q.prefix) && HasPrefix(x, q.prefix) && a != [] && !Endless(q, EntryOf(q, a))
    requires MarkerExact(q, EntryOf(q, a).Key(), a) && MarkerExact(q, EntryOf(q, a).Key(), x)
    ensures var e := EntryOf(q, a);
            var t := MarkerToken(q.delimiter, e.Key());
            Less(a, t) && (Leq(t, x) <==> Less(a, x) && EntryOf(q, x) != e && !Hidden(q, e, x))
  {
    if EntryOf(q, a).Group? {
      MarkerBehindGroup(q, a, x);
    } else {
      MarkerBehindObject(q, a, x);
      LessIrreflexive(a);
    }
  }

  lemma MarkerAdmits(q: Query, names: set<Bytes>, token: Bytes, k: nat, a: Bytes, x: Bytes)
    requires CursorsExact(q, names) && [] !in names && x in names && HasPrefix(x, q.prefix)
    requires var m := Matching(q, names, token); var es := Served(q, m, k);
             a in m && es != [] && EntryOf(q, a) == es[|es| - 1] && !Endless(q, EntryOf(q, a))
    ensures var m := Matching(q, names, token);
            Leq(MarkerToken(q.delimiter, EntryOf(q, a).Key()), x) <==>
            x in Pending(q, m, Served(q, m, k)) && !Hidden(q, EntryOf(q, a), x)
  {
    var m := Matching(q, names, token);
    assert MarkersExact(q, names, a);
    MarkerBehindEntry(q, a, x);
    if Less(a, x) {
      LeqTransitive(token, a, x);
    }
    if x in m {
      RestIsAboveLast(q, m, k, a, x);
    }
  }

  /** Whatever comes behind an entry without a successor is hidden by it. */
  lemma {:induction false} EndlessHidesAll(q: Query, a: Bytes, x: Bytes)
    requires HasPrefix(a, q.prefix) && HasPrefix(x, q.prefix) && Endless(q, EntryOf(q, a))
    requires MarkerExact(q, EntryOf(q, a).Key(), x) && Less(a, x) && EntryOf(q, x) != EntryOf(q, a)
    ensures Hidden(q, EntryOf(q, a), x)
  {
    hide EntryOf, Less;
    KeyIsPrefix(q, a);
    LeqTransitive(EntryOf(q, a).Key(), a, x);
    EntryOfObject(q, a);
    if EntryOf(q, a).Group? {
      GroupMembers(q, a, x);
      assert false;
    }
  }

  lemma EntryOfObject(q: Query, n: Bytes)
    ensures EntryOf(q, n).Object? ==> EntryOf(q, n) == Object(n)
  {
  }

  /** The marker of a page resumes where its token does, but for the names that a look-alike object hides. One without a
      successor hides all, and its marker starts over. */
  lemma {:induction false} MarkerResumes(q: Query, names: set<Bytes>, token: Bytes, k: nat)
    requires CursorsExact(q, names) && [] !in names && Served(q, Matching(q, names, token), k) != []
    ensures var m := Matching(q, names, token);
            var es := Served(q, m, k);
            var last := es[|es| - 1];
            if Endless(q, last) then
              MarkerToken(q.delimiter, last.Key()) == [] && forall x :: x in Pending(q, m, es) ==> Hidden(q, last, x)
            else
              Matching(q, names, MarkerToken(q.delimiter, last.Key())) ==
              set x | x in Pending(q, m, es) && !Hidden(q, last, x)
  {
    hide EntryOf, ExactFor, Less, Hidden, SimpleListing, MarkerExact;
    var m := Matching(q, names, token);
    var es := Served(q, m, k);
    var last := es[|es| - 1];
    ListingCovers(q, m);
    assert last in SimpleListing(q, m);
    var a :| a in m && EntryOf(q, a) == last;
    assert MarkersExact(q, names, a);
    if Endless(q, last) {
      forall x | x in Pending(q, m, es) ensures Hidden(q, last, x) {
        RestIsAboveLast(q, m, k, a, x);
        EndlessHidesAll(q, a, x);
      }
    } else {
      forall x | x in names && HasPrefix(x, q.prefix)
        ensures Leq(MarkerToken(q.delimiter, last.Key()), x) <==> x in Pending(q, m, es) && !Hidden(q, last, x)
      {
        MarkerAdmits(q, names, token, k, a, x);
      }
    }
  }

  // --- whole chains ---------------------------------------------------------------------------

  /** Cursors that range over the same names give the same page. */
  lemma SameNamesSamePage(q: Query, names: set<Bytes>, t: Bytes, u: Bytes, limit: int)
    requires ExactFor(q, names) && Matching(q, names, t) == Matching(q, names, u)
    ensures List(q, names, t, limit) == List(q, names, u, limit)
  {
    ExactForFewer(q, names, Ahead(names, t));
    ExactForFewer(q, names, Ahead(names, u));
    ListIsPage(q, names, t, limit);
    ListIsPage(q, names, u, limit);
  }

  function PageMarker(page: Outcome): Bytes
    requires page.Page?
  {
    NextMarker(Objects(page.entries), Prefixes(page.entries))
  }

  /** Where the two ways to ask for the page after this one differ. */
  lemma MarkerStep(q: Query, names: set<Bytes>, token: Bytes, limit: int)
    requires CursorsExact(q, names) && [] !in names
    requires var page := List(q, names, token, limit); page.Page? && page.token != []
    ensures var page := List(q, names, token, limit);
            page.entries != [] && page.entries[|page.entries| - 1] in SimpleListing(q, Matching(q, names, token)) &&
            Matching(q, names, page.token) == Pending(q, Matching(q, names, token), page.entries) &&
            page.token in Matching(q, names, page.token) &&
            var last, rest := page.entries[|page.entries| - 1], Matching(q, names, page.token);
            if Endless(q, last) then
              MarkerToken(q.delimiter, PageMarker(page)) == [] && forall x :: x in rest ==> Hidden(q, last, x)
            else
              Matching(q, names, MarkerToken(q.delimiter, PageMarker(page))) == set x | x in rest && !Hidden(q, last, x)
  {
    var m := Matching(q, names, token);
    var k := Clamp(limit);
    ExactForFewer(q, names, Ahead(names, token));
    ListIsPage(q, names, token, limit);
    NothingPending(q, m, k);
    ResumeAtToken(q, names, token, k);
    ListingAscends(q, m);
    NextMarkerIsLastKey(Served(q, m, k));
    MarkerResumes(q, names, token, k);
  }

  /** An object `n` that ends in the delimiter, and another matching name `x` that begins with all of `n`. */
  predicate Split(q: Query, m: set<Bytes>, n: Bytes, x: Bytes)
  {
    n in m && x in m && x != n && EntryOf(q, n).Object? && Hidden(q, EntryOf(q, n), x)
  }

  ghost predicate SomeSplit(q: Query, m: set<Bytes>)
  {
    exists n, x :: Split(q, m, n, x)
  }

  /** Without a split name the marker of a page resumes exactly where its token does. */
  lemma {:induction false} MarkerStepUnsplit(q: Query, names: set<Bytes>, token: Bytes, limit: int)
    requires CursorsExact(q, names) && [] !in names && !SomeSplit(q, Matching(q, names, token))
    requires var page := List(q, names, token, limit); page.Page? && page.token != []
    ensures var page := List(q, names, token, limit);
            Matching(q, names, MarkerToken(q.delimiter, PageMarker(page))) == Matching(q, names, page.token) &&
            !SomeSplit(q, Matching(q, names, page.token))
  {
    hide List, Split, SimpleListing, Hidden, Objects, Prefixes, NextMarker, MarkerToken, Endless;
    var m := Matching(q, names, token);
    var page := List(q, names, token, limit);
    MarkerStep(q, names, token, limit);
    var last := page.entries[|page.entries| - 1];
    var rest := Matching(q, names, page.token);
    assert forall x :: x in rest ==> !Hidden(q, last, x) by { LastHidesNothing(q, m, page.entries); }
    assert !Endless(q, last);
    assert !SomeSplit(q, rest) by { SplitsShrink(q, m, rest); }
  }

  lemma {:induction false} LastHidesNothing(q: Query, m: set<Bytes>, es: seq<Entry>)
    requires !SomeSplit(q, m) && es != [] && es[|es| - 1] in SimpleListing(q, m)
    ensures forall x :: x in Pending(q, m, es) ==> !Hidden(q, es[|es| - 1], x)
  {
    ListingCovers(q, m);
    var a :| a in m && EntryOf(q, a) == es[|es| - 1];
    forall x | x in Pending(q, m, es) ensures !Hidden(q, EntryOf(q, a), x) { assert !Split(q, m, a, x); }
  }

  lemma SplitsShrink(q: Query, m: set<Bytes>, rest: set<Bytes>)
    requires rest <= m && !SomeSplit(q, m)
    ensures !SomeSplit(q, rest)
  {
    forall n, x ensures !Split(q, rest, n, x) { assert !Split(q, m, n, x); }
  }

  lemma {:induction false} MarkersFollowTokens(q: Query, names: set<Bytes>, marker: Bytes, token: Bytes,
                                               limits: seq<int>)
    requires CursorsExact(q, names) && [] !in names && !SomeSplit(q, Matching(q, names, token))
    requires Matching(q, names, MarkerToken(q.delimiter, marker)) == Matching(q, names, token)
    ensures MarkerPages(q, names, marker, limits) == TokenPages(q, names, token, limits)
    decreases |limits|
  {
    if limits != [] {
      var page := List(q, names, token, limits[0]);
      SameNamesSamePage(q, names, MarkerToken(q.delimiter, marker), token, limits[0]);
      if page.Page? && page.token != [] {
        MarkerStepUnsplit(q, names, token, limits[0]);
        MarkersFollowTokens(q, names, PageMarker(page), page.token, limits[1..]);
      }
    }
  }

  lemma {:induction false} OneEntryPage(q: Query, names: set<Bytes>, token: Bytes)
    requires CursorsExact(q, names) && [] !in names && Matching(q, names, token) != {}
    ensures var m := Matching(q, names, token);
            var page := List(q, names, token, 1);
            page.Page? && page.entries == [EntryOf(q, Least(m))] &&
            (Beyond(q, m, Least(m)) != {} ==>
              page.token != [] && Matching(q, names, page.token) == Beyond(q, m, Least(m)))
  {
    hide ExactFor, List, EntryOf, SimpleListing, Less, MarkersExact;
    var m := Matching(q, names, token);
    ExactForFewer(q, names, Ahead(names, token));
    ListIsPage(q, names, token, 1);
    PageStep(q, m, 1);
    var e := EntryOf(q, Least(m));
    assert Served(q, m, 1) == [e] by { ListingStep(q, m); }
    assert Pending(q, m, [e]) == Beyond(q, m, Least(m));
    if Beyond(q, m, Least(m)) != {} {
      ResumeAtToken(q, names, token, 1);
    }
  }

  /** No common prefix covers both a name behind `n` that begins with `n` and one that does not. */
  lemma HiddenIsApart(q: Query, n: Bytes, y: Bytes, z: Bytes)
    requires HasPrefix(n, q.prefix) && HasPrefix(y, q.prefix) && HasPrefix(z, q.prefix)
    requires EntryOf(q, n).Object? && HasPrefix(y, n) && !HasPrefix(z, n)
    ensures EntryOf(q, y) != EntryOf(q, z)
  {
    if EntryOf(q, y).Group? {
      var cp := EntryOf(q, y).prefix;
      GroupMembers(q, y, y);
      PrefixesNest(y, cp, n);
      GroupMembers(q, y, n);
      GroupMembers(q, y, z);
      PrefixesCompose(z, cp, n);
    }
  }

  lemma PrefixesCompose(z: Bytes, a: Bytes, b: Bytes)
    ensures HasPrefix(z, a) && HasPrefix(a, b) ==> HasPrefix(z, b)
  {
    if HasPrefix(z, a) && HasPrefix(a, b) {
      assert z[..|b|] == z[..|a|][..|b|];
    }
  }

  lemma PrefixesNest(y: Bytes, a: Bytes, b: Bytes)
    requires HasPrefix(y, a) && HasPrefix(y, b)
    ensures if |a| <= |b| then HasPrefix(b, a) else HasPrefix(a, b)
  {
    if |a| <= |b| {
      assert b[..|a|] == y[..|b|][..|a|];
    } else {
      assert a[..|b|] == y[..|a|][..|b|];
    }
  }

  lemma {:induction false} HiddenIsARange(q: Query, n: Bytes, y: Bytes, x: Bytes)
    requires EntryOf(q, n) == Object(n) && Hidden(q, EntryOf(q, n), x)
    requires Less(n, y) && Leq(y, x)
    ensures Hidden(q, EntryOf(q, n), y)
  {
    PrefixesAreConvex(n, y, x);
  }

  lemma SecondPagesDiffer(q: Query, names: set<Bytes>, n: Bytes, t: Bytes, u: Bytes, x: Bytes)
    requires CursorsExact(q, names) && [] !in names && HasPrefix(n, q.prefix) && EntryOf(q, n) == Object(n)
    requires var rest := Matching(q, names, t);
             x in rest && Hidden(q, EntryOf(q, n), x) && (forall y :: y in rest ==> Less(n, y)) &&
             Matching(q, names, u) == set y | y in rest && !Hidden(q, EntryOf(q, n), y)
    ensures var page, other := List(q, names, t, 1), List(q, names, u, 1);
            page.Page? && other.Page? && page.entries != other.entries
  {
    var rest, resumed := Matching(q, names, t), Matching(q, names, u);
    var y := Least(rest);
    OneEntryPage(q, names, t);
    HiddenIsARange(q, n, y, x);
    if resumed == {} {
      ExactForFewer(q, names, Ahead(names, u));
      ListIsPage(q, names, u, 1);
      PageOfNothing(q, 1);
    } else {
      OneEntryPage(q, names, u);
      HiddenIsApart(q, n, y, Least(resumed));
    }
  }

  /** The first entry of all is not the first behind `n`. */
  lemma {:induction false} StartingOverDiffers(q: Query, names: set<Bytes>, n: Bytes, t: Bytes)
    requires CursorsExact(q, names) && [] !in names && n in names && HasPrefix(n, q.prefix)
    requires var rest := Matching(q, names, t);
             rest != {} && forall y :: y in rest ==> Less(n, y) && EntryOf(q, y) != EntryOf(q, n)
    ensures var page, other := List(q, names, t, 1), List(q, names, [], 1);
            page.Page? && other.Page? && page.entries != other.entries
  {
    hide List, EntryOf, ExactFor, MarkersExact, Less;
    var rest, all := Matching(q, names, t), Matching(q, names, []);
    NoneBelowEmpty(n);
    NotLess(n, []);
    assert n in all;
    var y, z := Least(rest), Least(all);
    OneEntryPage(q, names, t);
    OneEntryPage(q, names, []);
    KeyIsPrefix(q, z);
    LeqTransitive(EntryOf(q, z).Key(), z, n);
    if EntryOf(q, y) == EntryOf(q, z) {
      GroupsAreConvex(q, z, n, y);
      assert false;
    }
  }

  /** The two chains put the same entries on their pages. */
  predicate SamePages(q: Query, names: set<Bytes>, marker: Bytes, token: Bytes, limits: seq<int>)
  {
    Contents(MarkerPages(q, names, marker, limits)) == Contents(TokenPages(q, names, token, limits))
  }

  /** Some page limits show a difference between the two chains. */
  ghost predicate Diverges(q: Query, names: set<Bytes>, marker: Bytes, token: Bytes)
  {
    exists limits :: !SamePages(q, names, marker, token, limits)
  }

  lemma {:induction false} ContentsBehind(page: Outcome, pages: seq<Outcome>)
    ensures Contents([page] + pages)[1..] == Contents(pages)
  {
    assert ([page] + pages)[1..] == pages;
  }

  lemma {:induction false} SecondsTellApart(ps: seq<Outcome>, ts: seq<Outcome>, p: Outcome, t: Outcome)
    requires ps != [] && ts != [] && ps[1..] == [p] && ts[1..] == [t]
    requires p.Page? && t.Page? && p.entries != t.entries
    ensures Contents(ps) != Contents(ts)
  {
    assert ps[1] == p && ts[1] == t;
    ContentsAt(ps, 1);
    ContentsAt(ts, 1);
  }

  /** If the first object is a look-alike with hidden names, the second page of one entry each already differs. */
  lemma {:induction false} SplitAtFront(q: Query, names: set<Bytes>, marker: Bytes, token: Bytes, x: Bytes)
    requires CursorsExact(q, names) && [] !in names && Matching(q, names, token) != {}
    requires Matching(q, names, MarkerToken(q.delimiter, marker)) == Matching(q, names, token)
    requires var m := Matching(q, names, token); Split(q, m, Least(m), x)
    ensures Diverges(q, names, marker, token)
  {
    hide List, SimpleListing, Objects, Prefixes, NextMarker, MarkerToken, Less, Rows, ExactFor, MarkersExact, Contents,
      MarkerPages, TokenPages, GroupExact, Walk;
    var m := Matching(q, names, token);
    var n := Least(m);
    var page := List(q, names, token, 1);
    SameNamesSamePage(q, names, MarkerToken(q.delimiter, marker), token, 1);
    OneEntryPage(q, names, token);
    assert x in Beyond(q, m, n);
    MarkerStep(q, names, token, 1);
    var t := MarkerToken(q.delimiter, PageMarker(page));
    forall y | y in Beyond(q, m, n) ensures Less(n, y) { LessIrreflexive(n); }
    if Endless(q, EntryOf(q, n)) {
      StartingOverDiffers(q, names, n, page.token);
    } else {
      SecondPagesDiffer(q, names, n, page.token, t, x);
    }
    SecondPages(q, names, marker, token, page);
    SecondsTellApart(MarkerPages(q, names, marker, [1, 1]), TokenPages(q, names, token, [1, 1]),
                     List(q, names, t, 1), List(q, names, page.token, 1));
    assert !SamePages(q, names, marker, token, [1, 1]);
  }

  lemma SecondPages(q: Query, names: set<Bytes>, marker: Bytes, token: Bytes, page: Outcome)
    requires page.Page? && page.token != []
    requires List(q, names, token, 1) == page == List(q, names, MarkerToken(q.delimiter, marker), 1)
    ensures MarkerPages(q, names, marker, [1, 1]) != [] && TokenPages(q, names, token, [1, 1]) != []
    ensures MarkerPages(q, names, marker, [1, 1])[1..] ==
            [List(q, names, MarkerToken(q.delimiter, PageMarker(page)), 1)]
    ensures TokenPages(q, names, token, [1, 1])[1..] == [List(q, names, page.token, 1)]
  {
    var one: seq<int> := [1];
    var two: seq<int> := [1, 1];
    assert two[1..] == one;
    assert MarkerPages(q, names, PageMarker(page), one) ==
           [List(q, names, MarkerToken(q.delimiter, PageMarker(page)), 1)];
    assert TokenPages(q, names, page.token, one) == [List(q, names, page.token, 1)];
  }

  /** A split name shows up as a difference when the client asks for one entry at a time. */
  lemma {:induction false} SplitBreaksChain(q: Query, names: set<Bytes>, marker: Bytes, token: Bytes, n: Bytes,
                                            x: Bytes)
    requires CursorsExact(q, names) && [] !in names
    requires Matching(q, names, MarkerToken(q.delimiter, marker)) == Matching(q, names, token)
    requires Split(q, Matching(q, names, token), n, x)
    ensures Diverges(q, names, marker, token)
    decreases |Matching(q, names, token)|
  {
    hide List, SimpleListing, MarkerToken, Less, ExactFor, MarkersExact, Contents, MarkerPages, TokenPages, EntryOf,
      PageMarker;
    var m := Matching(q, names, token);
    if Least(m) == n {
      SplitAtFront(q, names, marker, token, x);
    } else {
      var page := List(q, names, token, 1);
      PageBeforeSplit(q, names, marker, token, n, x);
      if h :| h in Matching(q, names, page.token) && Hidden(q, EntryOf(q, Least(m)), h) {
        SplitAtFront(q, names, marker, token, h);
      } else {
        SplitBreaksChain(q, names, PageMarker(page), page.token, n, x);
        DivergesLater(q, names, marker, token, page);
      }
    }
  }

  lemma {:induction false} DivergesLater(q: Query, names: set<Bytes>, marker: Bytes, token: Bytes, page: Outcome)
    requires page.Page? && page.token != []
    requires List(q, names, token, 1) == page == List(q, names, MarkerToken(q.delimiter, marker), 1)
    requires Diverges(q, names, PageMarker(page), page.token)
    ensures Diverges(q, names, marker, token)
  {
    var later :| !SamePages(q, names, PageMarker(page), page.token, later);
    assert ([1] + later)[1..] == later;
    FirstPages(q, names, marker, token, page, [1] + later);
    assert !SamePages(q, names, marker, token, [1] + later);
  }

  lemma {:induction false} PageBeforeSplit(q: Query, names: set<Bytes>, marker: Bytes, token: Bytes, n: Bytes, x: Bytes)
    requires CursorsExact(q, names) && [] !in names
    requires Matching(q, names, MarkerToken(q.delimiter, marker)) == Matching(q, names, token)
    requires Split(q, Matching(q, names, token), n, x) && Least(Matching(q, names, token)) != n
    ensures var m, page := Matching(q, names, token), List(q, names, token, 1);
            page == List(q, names, MarkerToken(q.delimiter, marker), 1) && page.Page? && page.token != [] &&
            var rest := Matching(q, names, page.token);
            |rest| < |m| && Split(q, rest, n, x) &&
            (forall h :: h in rest && Hidden(q, EntryOf(q, Least(m)), h) ==> Split(q, m, Least(m), h)) &&
            ((forall h :: h in rest ==> !Hidden(q, EntryOf(q, Least(m)), h)) ==>
              Matching(q, names, MarkerToken(q.delimiter, PageMarker(page))) == rest)
  {
    hide ExactFor, MarkersExact, List, EntryOf, MarkerToken, PageMarker, SimpleListing, Less, LooksLikeGroup;
    var m := Matching(q, names, token);
    var a := Least(m);
    var rest := Beyond(q, m, a);
    SameNamesSamePage(q, names, MarkerToken(q.delimiter, marker), token, 1);
    SplitStaysBehind(q, m, n, x);
    OneEntryPage(q, names, token);
    MarkerStep(q, names, token, 1);
    assert a !in rest && rest < m;
    SmallerSet(rest, m);
  }

  lemma SmallerSet(s: set<Bytes>, t: set<Bytes>)
    requires s < t
    ensures |s| < |t|
  {
    assert |t| == |t - s| + |s|;
  }

  lemma {:induction false} FirstPages(q: Query, names: set<Bytes>, marker: Bytes, token: Bytes, page: Outcome,
                                      limits: seq<int>)
    requires limits != [] && limits[0] == 1 && page.Page? && page.token != []
    requires List(q, names, token, 1) == page == List(q, names, MarkerToken(q.delimiter, marker), 1)
    ensures SamePages(q, names, marker, token, limits) ==>
            SamePages(q, names, PageMarker(page), page.token, limits[1..])
  {
    hide List, Contents, MarkerPages, TokenPages;
    TokenPagesStep(q, names, token, limits, page);
    MarkerPagesStep(q, names, marker, limits, page);
    ContentsBehind(page, TokenPages(q, names, page.token, limits[1..]));
    ContentsBehind(page, MarkerPages(q, names, PageMarker(page), limits[1..]));
  }

  lemma {:induction false} MarkerPagesStep(q: Query, names: set<Bytes>, marker: Bytes, limits: seq<int>, page: Outcome)
    requires limits != [] && page.Page? && page.token != []
    requires List(q, names, MarkerToken(q.delimiter, marker), limits[0]) == page
    ensures MarkerPages(q, names, marker, limits) == [page] + MarkerPages(q, names, PageMarker(page), limits[1..])
  {
  }

  /** A split that is not at the front lies wholly behind the first entry. */
  lemma SplitStaysBehind(q: Query, m: set<Bytes>, n: Bytes, x: Bytes)
    requires Under(q, m) && Split(q, m, n, x) && Least(m) != n
    ensures var rest := Beyond(q, m, Least(m)); Split(q, rest, n, x)
  {
    var a := Least(m);
    var rest := Beyond(q, m, a);
    PrefixLeq(x, n);
    if EntryOf(q, a) == EntryOf(q, x) {
      FirstEntryComesFirst(q, m, x, n);
      LessTransitive(x, n, x);
      LessIrreflexive(x);
    }
  }

  /** The V1 chain gives the pages of the V2 chain for all page limits exactly when the bucket has no split name. */
  lemma V1MatchesV2IffUnsplit(q: Query, names: set<Bytes>)
    requires CursorsExact(q, names) && [] !in names
    ensures (forall limits :: SamePages(q, names, [], [], limits)) <==>
            !SomeSplit(q, Matching(q, names, []))
  {
    if SomeSplit(q, Matching(q, names, [])) {
      var n, x :| Split(q, Matching(q, names, []), n, x);
      SplitBreaksChain(q, names, [], [], n, x);
    } else {
      forall limits ensures SamePages(q, names, [], [], limits) {
        MarkersFollowTokens(q, names, [], [], limits);
      }
    }
  }

  /** The folder marker object "a/", listed under its own prefix, is such a name. */
  lemma FolderMarkerSplits()
    ensures var slash: Byte, a: Byte, b: Byte := 0x2f, 0x61, 0x62;
            var q := Query([a, slash], [slash]);
            SafeQuery(q) && SomeSplit(q, {[a, slash], [a, slash, b]})
  {
    var folder: Bytes, file: Bytes, delimiter: Bytes := [0x61, 0x2f], [0x61, 0x2f, 0x62], [0x2f];
    var q := Query(folder, delimiter);
    PivotIsUnique(folder, 1);
    PivotIsUnique(delimiter, 0);
    assert folder[2..] == [] && Index([], delimiter) == -1;
    assert EntryOf(q, folder) == Object(folder);
    assert folder[1..] == delimiter && file[..2] == folder;
    assert Split(q, {folder, file}, folder, file);
  }
}
