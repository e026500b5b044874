/** Chains of list requests over a bucket that changes all the time, between the pages and within a call. */
module PagingUnderChange {
  import opened ByteStrings
  import opened Successor
  import opened Listing
  import opened Scan
  import opened Paging

  /** The names in the bucket as the queries of one call see them, one after the other. */
  type World = nat -> set<Bytes>

  /** The scan, with a query of its own for each row; rows of one batch are those of queries that see the same names. */
  function WalkOver(q: Query, w: World, k: nat, end: Bytes, next: Bytes, room: nat): Outcome
    decreases room
  {
    var rows := Rows(w(k), next, end);
    if rows == {} then Page([], [])
    else
      var n := Least(rows);
      if room == 0 then Page([], n)
      else if |n| < |q.prefix| then Panicked
      else
        var after := Behind(EntryOf(q, n));
        if after == [] then Page([EntryOf(q, n)], [])
        else Prepend([EntryOf(q, n)], WalkOver(q, w, k + 1, end, after, room - 1))
  }

  function ListOver(q: Query, w: World, token: Bytes, maxResults: int): Outcome
  {
    WalkOver(q, w, 0, PrefixSuccessor(q.prefix), Start(q, token), Clamp(maxResults))
  }

  /** The pages a client sees that follows the tokens, page i over `worlds[i]`. */
  function ChangingPages(q: Query, worlds: seq<World>, token: Bytes, limits: seq<int>): seq<Outcome>
    requires |worlds| == |limits|
    decreases |limits|
  {
    if limits == [] then []
    else
      var page := ListOver(q, worlds[0], token, limits[0]);
      if page.Panicked? || page.token == [] then [page]
      else [page] + ChangingPages(q, worlds[1..], page.token, limits[1..])
  }

  /** Over names that stay as they are this is the scan of before. */
  lemma {:induction false} SteadyWalk(q: Query, w: World, k: nat, names: set<Bytes>, end: Bytes, next: Bytes, room: nat)
    requires forall j :: w(j) == names
    ensures WalkOver(q, w, k, end, next, room) == Walk(q, names, end, next, room)
    decreases room
  {
    hide EntryOf, Rows;
    var rows := Rows(names, next, end);
    if rows != {} && room > 0 {
      var n := Least(rows);
      if |n| >= |q.prefix| {
        EntryOrSelf(q, n);
        SteadyWalk(q, w, k + 1, names, end, Behind(EntryOf(q, n)), room - 1);
      }
    }
  }

  lemma EntryOrSelf(q: Query, n: Bytes)
    ensures EntryOf(q, n).Object? ==> EntryOf(q, n).name == n && Behind(EntryOf(q, n)) == n + [0] != []
  {
  }

  lemma SteadyList(q: Query, w: World, names: set<Bytes>, token: Bytes, maxResults: int)
    requires forall j :: w(j) == names
    ensures ListOver(q, w, token, maxResults) == List(q, names, token, maxResults)
  {
    SteadyWalk(q, w, 0, names, PrefixSuccessor(q.prefix), Start(q, token), Clamp(maxResults));
  }

  /** The ranges are right about every state of the bucket that a query sees. */
  ghost predicate ExactWorld(q: Query, w: World)
  {
    forall k :: [] !in w(k) && ExactFor(q, w(k))
  }

  ghost predicate AllExact(q: Query, worlds: seq<World>)
  {
    forall i :: 0 <= i < |worlds| ==> ExactWorld(q, worlds[i])
  }

  ghost predicate Seen(w: World, a: Bytes)
  {
    exists k :: a in w(k)
  }

  ghost predicate Stays(w: World, a: Bytes)
  {
    forall k :: a in w(k)
  }

  /** The entry stands for a name from `lo` on that a query of the call saw. */
  ghost predicate StandsFrom(q: Query, w: World, lo: Bytes, e: Entry)
  {
    exists a :: HasPrefix(a, q.prefix) && Leq(lo, a) && EntryOf(q, a) == e && Seen(w, a)
  }

  /** The entry stands for a matching name before `hi`. */
  ghost predicate StandsBefore(q: Query, hi: Bytes, e: Entry)
  {
    exists a :: HasPrefix(a, q.prefix) && Less(a, hi) && EntryOf(q, a) == e
  }

  // --- one call ------------------------------------------------------------------------------------------

  /** Behind an entry there is no name of that entry, whenever one looks. */
  lemma {:induction false} BehindIsBeyond(q: Query, names: set<Bytes>, n: Bytes, b: Bytes)
    requires ExactFor(q, names) && b in names && HasPrefix(b, q.prefix) && HasPrefix(n, q.prefix)
    requires var after := Behind(EntryOf(q, n)); after != [] && Leq(after, b)
    ensures EntryOf(q, b) != EntryOf(q, n)
  {
    hide Less, PrefixSuccessor;
    if EntryOf(q, n).Group? {
      var cp := EntryOf(q, n).prefix;
      NotLess(b, PrefixSuccessor(cp));
      if EntryOf(q, b) == EntryOf(q, n) {
        assert GroupExact(q, names, b) && Bounds(cp, b);
        GroupMembers(q, n, b);
        assert false;
      }
    } else {
      LeastAbove(n, b);
      LessIrreflexive(n);
    }
  }

  /** A row, and what the query that brought it up tells about names of its time. */
  lemma {:induction false} RowOfQuery(q: Query, names: set<Bytes>, next: Bytes, n: Bytes)
    requires ExactFor(q, names) && Leq(q.prefix, next)
    requires var rows := Rows(names, next, PrefixSuccessor(q.prefix)); rows != {} && n == Least(rows)
    ensures n in names && HasPrefix(n, q.prefix) && Leq(next, n)
    ensures var after := Behind(EntryOf(q, n));
            (after != [] ==> Less(n, after)) &&
            forall x :: x in names && HasPrefix(x, q.prefix) && Leq(next, x) ==>
              Leq(n, x) && (EntryOf(q, x) == EntryOf(q, n) || (after != [] && Leq(after, x)))
  {
    hide Less, EntryOf, PrefixSuccessor;
    LeqTransitive(q.prefix, next, n);
    assert Bounds(q.prefix, n) && GroupExact(q, names, n);
    var after := Behind(EntryOf(q, n));
    KeyIsPrefix(q, n);
    EntryOrSelf(q, n);
    if EntryOf(q, n).Object? {
      LeastAbove(n, n);
      LeastAbove(n, n + [0]);
    } else {
      GroupIsRange(q, n, n);
    }
    forall x | x in names && HasPrefix(x, q.prefix) && Leq(next, x)
      ensures Leq(n, x) && (EntryOf(q, x) == EntryOf(q, n) || (after != [] && Leq(after, x)))
    {
      LeqTransitive(q.prefix, next, x);
      assert x in Rows(names, next, PrefixSuccessor(q.prefix));
      LeastAbove(n, x);
      NotLess(x, after);
      LeqTransitive(EntryOf(q, n).Key(), n, x);
      if EntryOf(q, n).Group? {
        GroupIsRange(q, n, x);
      }
    }
  }

  lemma {:induction false} NoRow(q: Query, names: set<Bytes>, next: Bytes, x: Bytes)
    requires ExactFor(q, names) && Leq(q.prefix, next) && Rows(names, next, PrefixSuccessor(q.prefix)) == {}
    requires HasPrefix(x, q.prefix) && Leq(next, x)
    ensures x !in names
  {
    hide Less, PrefixSuccessor;
    LeqTransitive(q.prefix, next, x);
    assert x in names ==> Bounds(q.prefix, x);
    assert x in names && InRange(x, next, PrefixSuccessor(q.prefix)) <==>
           x in Rows(names, next, PrefixSuccessor(q.prefix));
  }

  /** What a scan over changing names comes to: ascending keys, entries for names that were seen, a token behind all of
      them, and no name left out that was there all the time. */
  ghost predicate GoodPage(q: Query, w: World, lo: Bytes, o: Outcome)
  {
    o.Page? && AscendingKeys(o.entries) &&
    (forall e :: e in o.entries ==> StandsFrom(q, w, lo, e)) &&
    (o.token != [] ==> HasPrefix(o.token, q.prefix) && Leq(lo, o.token) && Seen(w, o.token)) &&
    (o.token != [] ==> EntryOf(q, o.token) !in o.entries) &&
    (o.token != [] ==> forall e :: e in o.entries ==> StandsBefore(q, o.token, e)) &&
    (forall x :: HasPrefix(x, q.prefix) && Leq(lo, x) && Stays(w, x) ==>
       EntryOf(q, x) in o.entries || (o.token != [] && Leq(o.token, x)))
  }

  lemma {:induction false} WalkOverIsGood(q: Query, w: World, k: nat, next: Bytes, room: nat)
    requires ExactWorld(q, w) && Leq(q.prefix, next)
    ensures GoodPage(q, w, next, WalkOver(q, w, k, PrefixSuccessor(q.prefix), next, room))
    decreases room
  {
    hide EntryOf, Less, PrefixSuccessor, ExactFor, Rows, GoodPage;
    var end := PrefixSuccessor(q.prefix);
    var rows := Rows(w(k), next, end);
    if rows == {} {
      LastPage(q, w, k, next);
    } else {
      var n := Least(rows);
      RowOfQuery(q, w(k), next, n);
      if room == 0 {
        FullPage(q, w, k, next, n);
      } else {
        var after := Behind(EntryOf(q, n));
        if after == [] {
          GroupToTheEnd(q, w, k, next, n);
        } else {
          LeqTransitive(q.prefix, next, n);
          LeqTransitive(q.prefix, n, after);
          WalkOverIsGood(q, w, k + 1, after, room - 1);
          OneMoreRow(q, w, k, next, n, WalkOver(q, w, k + 1, end, after, room - 1));
        }
      }
    }
  }

  lemma {:induction false} LastPage(q: Query, w: World, k: nat, next: Bytes)
    requires ExactWorld(q, w) && Leq(q.prefix, next) && Rows(w(k), next, PrefixSuccessor(q.prefix)) == {}
    ensures GoodPage(q, w, next, Page([], []))
  {
    hide EntryOf, Less, PrefixSuccessor, ExactFor, Rows;
    forall x | HasPrefix(x, q.prefix) && Leq(next, x) ensures !Stays(w, x) { NoRow(q, w(k), next, x); }
  }

  lemma {:induction false} FullPage(q: Query, w: World, k: nat, next: Bytes, n: Bytes)
    requires ExactWorld(q, w) && n in w(k) && HasPrefix(n, q.prefix) && Leq(next, n)
    requires forall x :: x in w(k) && HasPrefix(x, q.prefix) && Leq(next, x) ==> Leq(n, x)
    ensures GoodPage(q, w, next, Page([], n))
  {
    hide EntryOf, Less, ExactFor;
    assert Seen(w, n);
    forall x | HasPrefix(x, q.prefix) && Leq(next, x) && Stays(w, x) ensures Leq(n, x) { assert x in w(k); }
  }

  lemma {:induction false} GroupToTheEnd(q: Query, w: World, k: nat, next: Bytes, n: Bytes)
    requires n in w(k) && HasPrefix(n, q.prefix) && Leq(next, n)
    requires forall x :: x in w(k) && HasPrefix(x, q.prefix) && Leq(next, x) ==> EntryOf(q, x) == EntryOf(q, n)
    ensures GoodPage(q, w, next, Page([EntryOf(q, n)], []))
  {
    hide EntryOf, Less;
    assert Seen(w, n) && StandsFrom(q, w, next, EntryOf(q, n));
    forall x | HasPrefix(x, q.prefix) && Leq(next, x) && Stays(w, x) ensures EntryOf(q, x) == EntryOf(q, n) {
      assert x in w(k);
    }
  }

  /** One more row in front of a good page. */
  lemma {:induction false} OneMoreRow(q: Query, w: World, k: nat, next: Bytes, n: Bytes, o: Outcome)
    requires ExactWorld(q, w) && n in w(k) && HasPrefix(n, q.prefix) && Leq(next, n)
    requires var after := Behind(EntryOf(q, n));
             after != [] && Less(n, after) && GoodPage(q, w, after, o) &&
             forall x :: x in w(k) && HasPrefix(x, q.prefix) && Leq(next, x) ==>
               EntryOf(q, x) == EntryOf(q, n) || Leq(after, x)
    ensures GoodPage(q, w, next, Prepend([EntryOf(q, n)], o))
  {
    hide EntryOf, Less, ExactFor, AscendingKeys, Behind;
    var e, after := EntryOf(q, n), Behind(EntryOf(q, n));
    LeqTransitive(next, n, after);
    assert Seen(w, n) && StandsFrom(q, w, next, e);
    forall f | f in o.entries ensures StandsFrom(q, w, next, f) && Less(e.Key(), f.Key()) {
      var b :| HasPrefix(b, q.prefix) && Leq(after, b) && EntryOf(q, b) == f && Seen(w, b);
      RowBefore(q, w, n, b);
      LeqTransitive(next, after, b);
    }
    AscendingJoinOne(e, o.entries);
    if o.token != [] {
      RowBefore(q, w, n, o.token);
      assert StandsBefore(q, o.token, e);
      LeqTransitive(next, after, o.token);
    }
    forall x | HasPrefix(x, q.prefix) && Leq(next, x) && Stays(w, x)
      ensures EntryOf(q, x) == e || EntryOf(q, x) in o.entries || (o.token != [] && Leq(o.token, x))
    {
      assert x in w(k);
    }
  }

  /** A row comes before whatever is seen behind its entry. */
  lemma {:induction false} RowBefore(q: Query, w: World, n: Bytes, b: Bytes)
    requires ExactWorld(q, w) && HasPrefix(n, q.prefix) && HasPrefix(b, q.prefix) && Seen(w, b)
    requires var after := Behind(EntryOf(q, n)); after != [] && Less(n, after) && Leq(after, b)
    ensures Less(n, b) && EntryOf(q, b) != EntryOf(q, n) && Less(EntryOf(q, n).Key(), EntryOf(q, b).Key())
  {
    hide EntryOf, Less, ExactFor, Behind;
    var j :| b in w(j);
    BehindIsBeyond(q, w(j), n, b);
    LeqTransitive(n, Behind(EntryOf(q, n)), b);
    KeysAscendWithNames(q, n, b);
  }

  lemma AscendingJoinOne(e: Entry, fs: seq<Entry>)
    requires AscendingKeys(fs) && forall f :: f in fs ==> Less(e.Key(), f.Key())
    ensures AscendingKeys([e] + fs)
  {
  }

  lemma {:induction false} ListOverIsGood(q: Query, w: World, token: Bytes, maxResults: int)
    requires ExactWorld(q, w)
    ensures GoodPage(q, w, token, ListOver(q, w, token, maxResults))
  {
    hide WalkOver, PrefixSuccessor, ExactFor, Less, AscendingKeys, EntryOf;
    var start := Start(q, token);
    NotLess(q.prefix, token);
    WalkOverIsGood(q, w, 0, start, Clamp(maxResults));
    var o := ListOver(q, w, token, maxResults);
    forall e | e in o.entries ensures StandsFrom(q, w, token, e) {
      var a :| HasPrefix(a, q.prefix) && Leq(start, a) && EntryOf(q, a) == e && Seen(w, a);
      LeqTransitive(token, start, a);
    }
    if o.token != [] {
      LeqTransitive(token, start, o.token);
    }
    forall x | HasPrefix(x, q.prefix) && Leq(token, x) ensures Leq(start, x) { PrefixLeq(x, q.prefix); }
  }

  // --- chains --------------------------------------------------------------------------------------------

  lemma {:induction false} PageThenRest(q: Query, t: Bytes, a: Bytes, b: Bytes)
    requires HasPrefix(a, q.prefix) && HasPrefix(t, q.prefix) && HasPrefix(b, q.prefix)
    requires Less(a, t) && Leq(t, b) && EntryOf(q, t) != EntryOf(q, a)
    ensures Less(EntryOf(q, a).Key(), EntryOf(q, b).Key())
  {
    KeyIsPrefix(q, a);
    LeqTransitive(EntryOf(q, a).Key(), a, t);
    LeqTransitive(a, t, b);
    if EntryOf(q, a) == EntryOf(q, b) {
      GroupsAreConvex(q, a, t, b);
      assert false;
    }
    KeysAscendWithNames(q, a, b);
  }

  lemma AscendingJoin(es: seq<Entry>, fs: seq<Entry>)
    requires AscendingKeys(es) && AscendingKeys(fs)
    requires forall e, f :: e in es && f in fs ==> Less(e.Key(), f.Key())
    ensures AscendingKeys(es + fs)
  {
  }

  /** The entry stands for a matching name from `lo` on. */
  ghost predicate Stands(q: Query, lo: Bytes, e: Entry)
  {
    exists a :: HasPrefix(a, q.prefix) && Leq(lo, a) && EntryOf(q, a) == e
  }

  /** Whatever happens to the bucket meanwhile, keys ascend through the whole chain: nothing comes twice. */
  lemma {:induction false} ChainAscends(q: Query, worlds: seq<World>, token: Bytes, limits: seq<int>)
    requires |worlds| == |limits| && AllExact(q, worlds)
    ensures var all := Flatten(Contents(ChangingPages(q, worlds, token, limits)));
            AscendingKeys(all) && forall e :: e in all ==> Stands(q, token, e)
    decreases |limits|
  {
    hide ListOver, EntryOf, ExactFor, AscendingKeys, Flatten, Contents, Less;
    FlattenFirst(ChangingPages(q, worlds, token, limits));
    if limits != [] {
      var page := ListOver(q, worlds[0], token, limits[0]);
      ListOverIsGood(q, worlds[0], token, limits[0]);
      var later := if page.token == [] then [] else ChangingPages(q, worlds[1..], page.token, limits[1..]);
      assert ChangingPages(q, worlds, token, limits) == [page] + later;
      assert ([page] + later)[1..] == later;
      if page.token == [] {
        FlattenFirst([]);
        assert page.entries + [] == page.entries;
        StandsSomewhere(q, worlds[0], token, page.entries);
      } else {
        ChainAscends(q, worlds[1..], page.token, limits[1..]);
        JoinPages(q, worlds[0], token, page, Flatten(Contents(later)));
      }
    }
  }

  lemma {:induction false} JoinPages(q: Query, w: World, token: Bytes, page: Outcome, fs: seq<Entry>)
    requires GoodPage(q, w, token, page) && page.token != []
    requires AscendingKeys(fs) && forall f :: f in fs ==> Stands(q, page.token, f)
    ensures AscendingKeys(page.entries + fs) && forall e :: e in page.entries + fs ==> Stands(q, token, e)
  {
    hide EntryOf, AscendingKeys, Less;
    var t := page.token;
    forall e, f | e in page.entries && f in fs ensures Less(e.Key(), f.Key()) {
      var a :| HasPrefix(a, q.prefix) && Less(a, t) && EntryOf(q, a) == e;
      var b :| HasPrefix(b, q.prefix) && Leq(t, b) && EntryOf(q, b) == f;
      PageThenRest(q, t, a, b);
    }
    AscendingJoin(page.entries, fs);
    StandsSomewhere(q, w, token, page.entries);
    forall f | f in fs ensures Stands(q, token, f) {
      var b :| HasPrefix(b, q.prefix) && Leq(t, b) && EntryOf(q, b) == f;
      LeqTransitive(token, t, b);
    }
  }

  lemma {:induction false} StandsSomewhere(q: Query, w: World, lo: Bytes, es: seq<Entry>)
    requires forall e :: e in es ==> StandsFrom(q, w, lo, e)
    ensures forall e :: e in es ==> Stands(q, lo, e)
  {
    forall e | e in es ensures Stands(q, lo, e) {
      var a :| HasPrefix(a, q.prefix) && Leq(lo, a) && EntryOf(q, a) == e && Seen(w, a);
    }
  }

  lemma {:induction false} FlattenFirst(pages: seq<Outcome>)
    ensures pages == [] ==> Flatten(Contents(pages)) == [] && AscendingKeys([])
    ensures pages != [] && pages[0].Page? ==>
            Flatten(Contents(pages)) == pages[0].entries + Flatten(Contents(pages[1..]))
  {
  }

  /** The name is in the bucket for as long as the chain takes. */
  ghost predicate StaysThroughout(worlds: seq<World>, pages: seq<Outcome>, x: Bytes)
  {
    forall i :: 0 <= i < |pages| && i < |worlds| ==> Stays(worlds[i], x)
  }

  /** A name that is there all the time is stood for when the chain is through. */
  lemma {:induction false} StayingNameIsCovered(q: Query, worlds: seq<World>, token: Bytes, limits: seq<int>, x: Bytes)
    requires |worlds| == |limits| && AllExact(q, worlds)
    requires HasPrefix(x, q.prefix) && Leq(token, x)
    requires var pages := ChangingPages(q, worlds, token, limits); Finished(pages) && StaysThroughout(worlds, pages, x)
    ensures EntryOf(q, x) in Flatten(Contents(ChangingPages(q, worlds, token, limits)))
    decreases |limits|
  {
    hide ListOver, EntryOf, ExactFor, AscendingKeys, Flatten, Contents, Less;
    var page := ListOver(q, worlds[0], token, limits[0]);
    var pages := ChangingPages(q, worlds, token, limits);
    ListOverIsGood(q, worlds[0], token, limits[0]);
    FlattenFirst(pages);
    assert Stays(worlds[0], x);
    if EntryOf(q, x) !in page.entries {
      var later := ChangingPages(q, worlds[1..], page.token, limits[1..]);
      assert pages == [page] + later && pages[1..] == later;
      assert later != [] && later[|later| - 1] == pages[|pages| - 1];
      forall i | 0 <= i < |later| && i < |worlds[1..]| ensures Stays(worlds[1..][i], x) {
        assert Stays(worlds[i + 1], x);
      }
      StayingNameIsCovered(q, worlds[1..], page.token, limits[1..], x);
    }
  }

  lemma {:induction false} EachKeyOnce(es: seq<Entry>, e: Entry)
    requires AscendingKeys(es) && e in es
    ensures exists i :: 0 <= i < |es| && es[i] == e && forall j :: 0 <= j < |es| && es[j].Key() == e.Key() ==> j == i
  {
    var i :| 0 <= i < |es| && es[i] == e;
    forall j | 0 <= j < |es| && es[j].Key() == e.Key() ensures j == i {
      LessIrreflexive(e.Key());
    }
  }

  /** What a page lists was in the bucket when a query of that call looked. */
  lemma {:induction false} ListedWasThere(q: Query, worlds: seq<World>, token: Bytes, limits: seq<int>, i: nat,
                                          e: Entry)
    requires |worlds| == |limits| && AllExact(q, worlds)
    requires var pages := ChangingPages(q, worlds, token, limits);
             i < |pages| && pages[i].Page? && e in pages[i].entries
    ensures i < |worlds| && exists a :: Seen(worlds[i], a) && HasPrefix(a, q.prefix) && EntryOf(q, a) == e
    decreases |limits|
  {
    hide ListOver, EntryOf, ExactFor, AscendingKeys;
    var page := ListOver(q, worlds[0], token, limits[0]);
    ListOverIsGood(q, worlds[0], token, limits[0]);
    if i == 0 {
      assert StandsFrom(q, worlds[0], token, e);
    } else {
      ListedWasThere(q, worlds[1..], page.token, limits[1..], i - 1, e);
      assert worlds[1..][i - 1] == worlds[i];
    }
  }

  /** Paging through a changing bucket: keys ascend strictly from the first page to the last, and a name that is there
      from the first query to the last is stood for exactly once, an object under its own name. */
  lemma {:induction false} PagingSurvivesChange(q: Query, worlds: seq<World>, limits: seq<int>, x: Bytes)
    requires |worlds| == |limits| && AllExact(q, worlds) && HasPrefix(x, q.prefix)
    requires var pages := ChangingPages(q, worlds, [], limits); Finished(pages) && StaysThroughout(worlds, pages, x)
    ensures var all := Flatten(Contents(ChangingPages(q, worlds, [], limits)));
            AscendingKeys(all) &&
            exists i :: 0 <= i < |all| && all[i] == EntryOf(q, x) &&
              forall j :: 0 <= j < |all| && all[j].Key() == EntryOf(q, x).Key() ==> j == i
  {
    hide ChangingPages, EntryOf, ExactFor, AscendingKeys, Flatten, Contents;
    NoneBelowEmpty(x);
    NotLess(x, []);
    ChainAscends(q, worlds, [], limits);
    StayingNameIsCovered(q, worlds, [], limits, x);
    EachKeyOnce(Flatten(Contents(ChangingPages(q, worlds, [], limits))), EntryOf(q, x));
  }
}
