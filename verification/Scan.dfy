/** The listing scan of the store, one row at a time, against the simple listing. */
module Scan {
  import opened ByteStrings
  import opened Successor
  import opened Listing

  const DEFAULT_MAX_RESULTS: nat := 1000

  function Clamp(maxResults: int): nat
  {
    if maxResults <= 0 || maxResults > DEFAULT_MAX_RESULTS then DEFAULT_MAX_RESULTS else maxResults
  }

  /** One page, its objects and common prefixes still in one list; or the run-time panic of a slice out of range. */
  datatype Outcome = Page(entries: seq<Entry>, token: Bytes) | Panicked

  function Prepend(es: seq<Entry>, o: Outcome): Outcome
  {
    match o
    case Page(rest, token) => Page(es + rest, token)
    case Panicked => Panicked
  }

  function Rows(names: set<Bytes>, next: Bytes, end: Bytes): set<Bytes>
  {
    set n | n in names && InRange(n, next, end)
  }

  /** The scan from `next` with room for that many more entries. It re-queries after every row and so has no batches. */
  function Walk(q: Query, names: set<Bytes>, end: Bytes, next: Bytes, room: nat): Outcome
    decreases room
  {
    var rows := Rows(names, next, end);
    if rows == {} then Page([], [])
    else
      var n := Least(rows);
      if room == 0 then Page([], n)
      else if |n| < |q.prefix| then Panicked
      else
        var e := EntryOf(q, n);
        if e.Group? then
          var after := PrefixSuccessor(e.prefix);
          if after == [] then Page([e], []) else Prepend([e], Walk(q, names, end, after, room - 1))
        else
          Prepend([e], Walk(q, names, end, n + [0], room - 1))
  }

  function Start(q: Query, token: Bytes): Bytes
  {
    if Less(q.prefix, token) then token else q.prefix
  }

  function List(q: Query, names: set<Bytes>, token: Bytes, maxResults: int): Outcome
  {
    Walk(q, names, PrefixSuccessor(q.prefix), Start(q, token), Clamp(maxResults))
  }

  /** A page holds no more than what was asked for, 1000 at most and by default; one with a token holds just that. */
  lemma {:induction false} PageFits(q: Query, names: set<Bytes>, token: Bytes, limit: int)
    ensures var page := List(q, names, token, limit);
            var wanted := if 1 <= limit <= 1000 then limit else 1000;
            page.Page? ==> |page.entries| <= wanted && (page.token != [] ==> |page.entries| == wanted)
  {
    WalkFits(q, names, PrefixSuccessor(q.prefix), Start(q, token), Clamp(limit));
  }

  lemma {:induction false} WalkFits(q: Query, names: set<Bytes>, end: Bytes, next: Bytes, room: nat)
    ensures var o := Walk(q, names, end, next, room);
            o.Page? ==> |o.entries| <= room && (o.token != [] ==> |o.entries| == room)
    decreases room
  {
    hide EntryOf, Rows;
    var rows := Rows(names, next, end);
    if rows != {} && room > 0 {
      var e := EntryOf(q, Least(rows));
      WalkFits(q, names, end, if e.Group? then PrefixSuccessor(e.prefix) else Least(rows) + [0], room - 1);
    }
  }

  // --- what a page should be -------------------------------------------------------------

  function Pending(q: Query, m: set<Bytes>, es: seq<Entry>): set<Bytes>
  {
    set n | n in m && EntryOf(q, n) !in es
  }

  function FirstN(es: seq<Entry>, k: nat): seq<Entry>
  {
    if k <= |es| then es[..k] else es
  }

  /** The first k entries of the simple listing, and the least name that none of them stands for. */
  function PageOf(q: Query, m: set<Bytes>, k: nat): Outcome
  {
    var es := FirstN(SimpleListing(q, m), k);
    var pending := Pending(q, m, es);
    Page(es, if pending == {} then [] else Least(pending))
  }

  lemma PageStep(q: Query, m: set<Bytes>, k: nat)
    requires Under(q, m) && m != {} && k > 0
    ensures PageOf(q, m, k) == Prepend([EntryOf(q, Least(m))], PageOf(q, Beyond(q, m, Least(m)), k - 1))
  {
    var n := Least(m);
    var hi := Beyond(q, m, n);
    ListingStep(q, m);
    var es := FirstN(SimpleListing(q, hi), k - 1);
    assert FirstN(SimpleListing(q, m), k) == [EntryOf(q, n)] + es;
    assert Pending(q, m, [EntryOf(q, n)] + es) == Pending(q, hi, es);
  }

  lemma PageOfNothing(q: Query, k: nat)
    ensures PageOf(q, {}, k) == Page([], [])
  {
    ListingOfNothing(q);
  }

  // --- the scan returns that page ---------------------------------------------------------

  lemma RowsAreMatching(q: Query, names: set<Bytes>, next: Bytes)
    requires Leq(q.prefix, next) && forall n :: n in Ahead(names, next) ==> Bounds(q.prefix, n)
    ensures Rows(names, next, PrefixSuccessor(q.prefix)) == Matching(q, names, next)
  {
    forall n | n in names && Leq(next, n)
      ensures HasPrefix(n, q.prefix) <==> InRange(n, next, PrefixSuccessor(q.prefix))
    {
      assert n in Ahead(names, next) && Bounds(q.prefix, n);
      LeqTransitive(q.prefix, next, n);
    }
  }

  /** Behind an object the scan goes on with exactly the remaining names. */
  lemma RowsBehindObject(q: Query, names: set<Bytes>, next: Bytes, end: Bytes)
    requires var m := Rows(names, next, end); m != {} && Under(q, m) && EntryOf(q, Least(m)).Object?
    ensures var m := Rows(names, next, end); Rows(names, Least(m) + [0], end) == Beyond(q, m, Least(m))
  {
    var m := Rows(names, next, end);
    var n := Least(m);
    forall x | x in names
      ensures x in Rows(names, n + [0], end) <==> x in m && x != n
    {
      LeastAbove(n, x);
      if Less(n, x) {
        LeqTransitive(next, n, x);
      }
      LessIrreflexive(n);
      NotLess(n, x);
    }
    forall x | x in m ensures EntryOf(q, x) == EntryOf(q, n) <==> x == n {}
  }

  /** Skipping to the successor of a common prefix with the right range passes exactly the members of its group. */
  lemma RowsBehindGroup(q: Query, names: set<Bytes>, next: Bytes, end: Bytes)
    requires var m := Rows(names, next, end);
             m != {} && Under(q, m) && EntryOf(q, Least(m)).Group? && GroupExact(q, m, Least(m))
    ensures var m := Rows(names, next, end);
            var after := PrefixSuccessor(EntryOf(q, Least(m)).prefix);
            if after == [] then Beyond(q, m, Least(m)) == {}
            else Rows(names, after, end) == Beyond(q, m, Least(m))
  {
    var m := Rows(names, next, end);
    var n := Least(m);
    var cp := EntryOf(q, n).prefix;
    var after := PrefixSuccessor(cp);
    KeyIsPrefix(q, n);
    GroupIsRange(q, n, n);
    forall x | x in m
      ensures EntryOf(q, x) == EntryOf(q, n) <==> after == [] || Less(x, after)
    {
      GroupIsRange(q, n, x);
      LeqTransitive(cp, n, x);
    }
    if after != [] {
      forall x | x in names
        ensures x in Rows(names, after, end) <==> x in m && !Less(x, after)
      {
        NotLess(x, after);
        if Leq(after, x) {
          LeqTransitive(n, after, x);
          LeqTransitive(next, n, x);
        }
      }
    }
  }

  /** Where the scan goes on behind an entry; "" means nowhere. */
  function Behind(e: Entry): Bytes
  {
    match e
    case Object(n) => n + [0]
    case Group(p) => PrefixSuccessor(p)
  }

  lemma {:induction false} RowsBehindEntry(q: Query, names: set<Bytes>, next: Bytes, end: Bytes, n: Bytes)
    requires var m := Rows(names, next, end); m != {} && Under(q, m) && ExactFor(q, m) && n == Least(m)
    ensures var m := Rows(names, next, end);
            var after := Behind(EntryOf(q, n));
            if after == [] then Beyond(q, m, n) == {} else Rows(names, after, end) == Beyond(q, m, n)
  {
    if EntryOf(q, n).Object? {
      RowsBehindObject(q, names, next, end);
    } else {
      RowsBehindGroup(q, names, next, end);
    }
  }

  lemma {:induction false} WalkStep(q: Query, names: set<Bytes>, end: Bytes, next: Bytes, room: nat, n: Bytes)
    requires room > 0 && Rows(names, next, end) != {} && n == Least(Rows(names, next, end)) && HasPrefix(n, q.prefix)
    ensures var after := Behind(EntryOf(q, n));
            Walk(q, names, end, next, room) ==
            if after == [] then Page([EntryOf(q, n)], [])
            else Prepend([EntryOf(q, n)], Walk(q, names, end, after, room - 1))
  {
    assert n + [0] != [];
  }

  lemma {:induction false} WalkIsPage(q: Query, names: set<Bytes>, end: Bytes, next: Bytes, room: nat)
    requires var m := Rows(names, next, end); Under(q, m) && ExactFor(q, m)
    ensures Walk(q, names, end, next, room) == PageOf(q, Rows(names, next, end), room)
    decreases room
  {
    var m := Rows(names, next, end);
    if m == {} {
      PageOfNothing(q, room);
    } else if room == 0 {
      assert Pending(q, m, []) == m;
    } else {
      WalkOnIsPage(q, names, end, next, room, Least(m));
    }
  }

  lemma {:induction false} WalkOnIsPage(q: Query, names: set<Bytes>, end: Bytes, next: Bytes, room: nat, n: Bytes)
    requires var m := Rows(names, next, end); Under(q, m) && ExactFor(q, m) && m != {} && n == Least(m)
    requires room > 0
    ensures Walk(q, names, end, next, room) == PageOf(q, Rows(names, next, end), room)
    decreases room, 0
  {
    hide PageOf, Walk, SimpleListing, ExactFor, EntryOf, Rows;
    var m := Rows(names, next, end);
    var after := Behind(EntryOf(q, n));
    ExactForFewer(q, m, Beyond(q, m, n));
    RowsBehindEntry(q, names, next, end, n);
    if after == [] {
      PageOfNothing(q, room - 1);
    } else {
      WalkIsPage(q, names, end, after, room - 1);
    }
    PageStep(q, m, room);
    WalkStep(q, names, end, next, room, n);
  }

  lemma StartIsMatching(q: Query, names: set<Bytes>, token: Bytes)
    requires ExactFor(q, Ahead(names, token))
    ensures Rows(names, Start(q, token), PrefixSuccessor(q.prefix)) == Matching(q, names, token)
  {
    var next := Start(q, token);
    NotLess(q.prefix, token);
    forall n | n in names && Leq(next, n) ensures Leq(token, n) {
      LeqTransitive(token, next, n);
    }
    ExactForFewer(q, Ahead(names, token), Ahead(names, next));
    RowsAreMatching(q, names, next);
    forall n | n in names && HasPrefix(n, q.prefix) ensures Leq(next, n) <==> Leq(token, n) {
      PrefixLeq(n, q.prefix);
      if next != token {
        LeqTransitive(token, q.prefix, n);
      }
    }
  }

  /** The listing theorem: where the ranges are right, the scan returns the page of the simple listing. */
  lemma ListIsPage(q: Query, names: set<Bytes>, token: Bytes, maxResults: int)
    requires ExactFor(q, Ahead(names, token))
    ensures List(q, names, token, maxResults) == PageOf(q, Matching(q, names, token), Clamp(maxResults))
  {
    StartIsMatching(q, names, token);
    ExactForFewer(q, Ahead(names, token), Matching(q, names, token));
    WalkIsPage(q, names, PrefixSuccessor(q.prefix), Start(q, token), Clamp(maxResults));
  }
}
