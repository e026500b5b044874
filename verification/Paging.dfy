/** Chains of list requests: the store's inclusive page token, which S3 V2 hands out unchanged. */
module Paging {
  import opened ByteStrings
  import opened Successor
  import opened Listing
  import opened Scan

  /** The pages a client sees that follows NextPageToken, asking for `limits[i]` results on page i. */
  function TokenPages(q: Query, names: set<Bytes>, token: Bytes, limits: seq<int>): seq<Outcome>
    decreases |limits|
  {
    if limits == [] then []
    else
      var page := List(q, names, token, limits[0]);
      if page.Panicked? || page.token == [] then [page]
      else [page] + TokenPages(q, names, page.token, limits[1..])
  }

  lemma {:induction false} TokenPagesStep(q: Query, names: set<Bytes>, token: Bytes, limits: seq<int>, page: Outcome)
    requires limits != [] && page.Page? && page.token != []
    requires List(q, names, token, limits[0]) == page
    ensures TokenPages(q, names, token, limits) == [page] + TokenPages(q, names, page.token, limits[1..])
  {
  }

  /** A list cut into pages of the wanted sizes, up to the page that exhausts it. */
  function Cut(all: seq<Entry>, limits: seq<int>): seq<seq<Entry>>
    decreases |limits|
  {
    if limits == [] then []
    else if |all| <= Clamp(limits[0]) then [all]
    else [all[..Clamp(limits[0])]] + Cut(all[Clamp(limits[0])..], limits[1..])
  }

  /** Whether those sizes reach the end of the list. */
  predicate Exhausts(all: seq<Entry>, limits: seq<int>)
    decreases |limits|
  {
    limits != [] && (|all| <= Clamp(limits[0]) || Exhausts(all[Clamp(limits[0])..], limits[1..]))
  }

  function Flatten(pages: seq<seq<Entry>>): seq<Entry>
  {
    if pages == [] then [] else pages[0] + Flatten(pages[1..])
  }

  function Contents(pages: seq<Outcome>): seq<seq<Entry>>
  {
    if pages == [] then []
    else [if pages[0].Page? then pages[0].entries else []] + Contents(pages[1..])
  }

  lemma {:induction false} ContentsAt(pages: seq<Outcome>, i: nat)
    requires i < |pages|
    ensures |Contents(pages)| == |pages|
    ensures Contents(pages)[i] == if pages[i].Page? then pages[i].entries else []
  {
    if i > 0 {
      ContentsAt(pages[1..], i - 1);
    } else if |pages| > 1 {
      ContentsAt(pages[1..], 0);
    }
  }

  lemma {:induction false} SameLength(pages: seq<Outcome>)
    ensures |Contents(pages)| == |pages|
  {
    if pages != [] {
      SameLength(pages[1..]);
    }
  }

  predicate Finished(pages: seq<Outcome>)
  {
    pages != [] && pages[|pages| - 1].Page? && pages[|pages| - 1].token == []
  }

  // --- what is left after a page ------------------------------------------------------------

  function Served(q: Query, m: set<Bytes>, k: nat): seq<Entry>
  {
    FirstN(SimpleListing(q, m), k)
  }

  /** What a page leaves over is listed as the rest of the listing, and all of it comes after what was served. */
  lemma {:induction false} PendingIsRest(q: Query, m: set<Bytes>, k: nat)
    requires Under(q, m)
    ensures var rest := Pending(q, m, Served(q, m, k));
            SimpleListing(q, rest) == SimpleListing(q, m)[|Served(q, m, k)|..] &&
            (forall a, b :: a in m - rest && b in rest ==> Less(a, b))
    decreases k
  {
    hide SimpleListing, Less, EntryOf;
    var rest := Pending(q, m, Served(q, m, k));
    if m == {} {
      ListingOfNothing(q);
      assert rest == {};
    } else if k == 0 {
      assert rest == m;
    } else {
      var n := Least(m);
      var hi := Beyond(q, m, n);
      ListingStep(q, m);
      PendingIsRest(q, hi, k - 1);
      assert Served(q, m, k) == [EntryOf(q, n)] + Served(q, hi, k - 1);
      assert rest == Pending(q, hi, Served(q, hi, k - 1));
      forall a, b | a in m - rest && b in rest ensures Less(a, b) {
        if EntryOf(q, a) == EntryOf(q, n) {
          FirstEntryComesFirst(q, m, a, b);
        }
      }
    }
  }

  /** Resuming at the least pending name ranges over exactly the pending names. */
  lemma ResumeAtToken(q: Query, names: set<Bytes>, token: Bytes, k: nat)
    requires var m := Matching(q, names, token); Pending(q, m, Served(q, m, k)) != {}
    ensures var m := Matching(q, names, token);
            var rest := Pending(q, m, Served(q, m, k));
            Matching(q, names, Least(rest)) == rest
  {
    var m := Matching(q, names, token);
    var rest := Pending(q, m, Served(q, m, k));
    var t := Least(rest);
    PendingIsRest(q, m, k);
    forall n | n in names && HasPrefix(n, q.prefix) ensures Leq(t, n) <==> n in rest {
      if Leq(t, n) {
        LeqTransitive(token, t, n);
        NotLess(n, t);
      }
    }
  }

  lemma NothingPending(q: Query, m: set<Bytes>, k: nat)
    requires Under(q, m)
    ensures Pending(q, m, Served(q, m, k)) == {} <==> |SimpleListing(q, m)| <= k
  {
    var rest := Pending(q, m, Served(q, m, k));
    PendingIsRest(q, m, k);
    if rest == {} {
      ListingOfNothing(q);
    } else {
      ListingCovers(q, rest);
      assert EntryOf(q, Least(rest)) in SimpleListing(q, rest);
    }
  }

  /** The page of a listing has the wanted size, if there is that much, and a token iff a matching name is left over. */
  lemma {:induction false} PageHasWantedSize(q: Query, names: set<Bytes>, token: Bytes, limit: int)
    requires [] !in names && ExactFor(q, Ahead(names, token))
    ensures var m := set n | n in names && HasPrefix(n, q.prefix) && Leq(token, n);
            var page, all := List(q, names, token, limit), SimpleListing(q, m);
            var wanted := if 1 <= limit <= 1000 then limit else 1000;
            page.Page? && page.entries == (if |all| <= wanted then all else all[..wanted]) &&
            (page.token != [] <==> |all| > wanted) &&
            (page.token != [] <==> exists n :: n in m && EntryOf(q, n) !in page.entries) &&
            (page.token != [] ==>
              page.token in m && EntryOf(q, page.token) !in page.entries &&
              forall n :: n in m && EntryOf(q, n) !in page.entries ==> Leq(page.token, n))
  {
    hide SimpleListing, EntryOf, Walk, Less;
    var m := Matching(q, names, token);
    ListIsPage(q, names, token, limit);
    NothingPending(q, m, Clamp(limit));
    var pending := Pending(q, m, Served(q, m, Clamp(limit)));
    assert pending != {} ==> Least(pending) in pending && Least(pending) in names;
    forall n | n in m && EntryOf(q, n) !in Served(q, m, Clamp(limit)) ensures n in pending {}
  }

  /** A page is the front of the listing; its token is empty if that is all, and otherwise lists the rest. */
  lemma PageAndRest(q: Query, names: set<Bytes>, token: Bytes, limit: int)
    requires [] !in names && ExactFor(q, Ahead(names, token))
    ensures var page, all, k := List(q, names, token, limit), SimpleListing(q, Matching(q, names, token)), Clamp(limit);
            page.Page? &&
            (if |all| <= k then page == Page(all, [])
             else page.entries == all[..k] && page.token != [] &&
                  ExactFor(q, Ahead(names, page.token)) &&
                  SimpleListing(q, Matching(q, names, page.token)) == all[k..])
  {
    var m := Matching(q, names, token);
    var k := Clamp(limit);
    var rest := Pending(q, m, Served(q, m, k));
    ListIsPage(q, names, token, limit);
    NothingPending(q, m, k);
    if rest != {} {
      PendingIsRest(q, m, k);
      ResumeAtToken(q, names, token, k);
      var t := Least(rest);
      assert t in names && Leq(token, t);
      forall n | n in names && Leq(t, n) ensures Leq(token, n) { LeqTransitive(token, t, n); }
      ExactForFewer(q, Ahead(names, token), Ahead(names, t));
    }
  }

  /** Following the tokens cuts the listing into pages of the wanted sizes. */
  lemma {:induction false} PagesCutTheListing(q: Query, names: set<Bytes>, token: Bytes, limits: seq<int>)
    requires [] !in names && ExactFor(q, Ahead(names, token))
    ensures Contents(TokenPages(q, names, token, limits)) == Cut(SimpleListing(q, Matching(q, names, token)), limits)
    decreases |limits|
  {
    hide List, SimpleListing, ExactFor, Matching, Ahead;
    if limits != [] {
      var page := List(q, names, token, limits[0]);
      PageAndRest(q, names, token, limits[0]);
      if page.token != [] {
        PagesCutTheListing(q, names, page.token, limits[1..]);
      }
    }
  }

  lemma {:induction false} NoPagePanics(q: Query, names: set<Bytes>, token: Bytes, limits: seq<int>)
    requires [] !in names && ExactFor(q, Ahead(names, token))
    ensures forall i :: 0 <= i < |TokenPages(q, names, token, limits)| ==> TokenPages(q, names, token, limits)[i].Page?
    decreases |limits|
  {
    hide List, SimpleListing, ExactFor, Matching, Ahead;
    if limits != [] {
      PageAndRest(q, names, token, limits[0]);
      var page := List(q, names, token, limits[0]);
      if page.token != [] {
        NoPagePanics(q, names, page.token, limits[1..]);
      }
    }
  }

  lemma {:induction false} PagesFinishWhenExhausted(q: Query, names: set<Bytes>, token: Bytes, limits: seq<int>)
    requires [] !in names && ExactFor(q, Ahead(names, token))
    ensures Finished(TokenPages(q, names, token, limits)) <==>
            Exhausts(SimpleListing(q, Matching(q, names, token)), limits)
    decreases |limits|
  {
    hide List, SimpleListing, ExactFor, Matching, Ahead;
    if limits != [] {
      var page := List(q, names, token, limits[0]);
      PageAndRest(q, names, token, limits[0]);
      if page.token != [] {
        var tail := TokenPages(q, names, page.token, limits[1..]);
        PagesFinishWhenExhausted(q, names, page.token, limits[1..]);
        assert Finished([page] + tail) <==> Finished(tail);
      }
    }
  }

  /** Cutting loses and repeats nothing, and as many cuts as there are entries always suffice. */
  lemma {:induction false} CutIsComplete(all: seq<Entry>, limits: seq<int>)
    ensures Flatten(Cut(all, limits)) <= all
    ensures Exhausts(all, limits) ==> Flatten(Cut(all, limits)) == all
    ensures |limits| > 0 && |limits| >= |all| ==> Exhausts(all, limits)
    decreases |limits|
  {
    if limits != [] {
      var k := Clamp(limits[0]);
      if |all| <= k {
        assert Flatten([all]) == all + Flatten([]);
      } else {
        CutIsComplete(all[k..], limits[1..]);
        assert all == all[..k] + all[k..];
      }
    }
  }

  /** Paging theorem: whatever the limits, the pages put together are the listing, and as many as it has entries finish
      it. */
  lemma PagingIsComplete(q: Query, names: set<Bytes>, token: Bytes, limits: seq<int>)
    requires [] !in names && ExactFor(q, Ahead(names, token))
    ensures var pages, all := TokenPages(q, names, token, limits), SimpleListing(q, Matching(q, names, token));
            Flatten(Contents(pages)) <= all &&
            (Finished(pages) ==> Flatten(Contents(pages)) == all) &&
            (|limits| > 0 && |limits| >= |all| ==> Finished(pages))
  {
    PagesCutTheListing(q, names, token, limits);
    PagesFinishWhenExhausted(q, names, token, limits);
    CutIsComplete(SimpleListing(q, Matching(q, names, token)), limits);
  }
}
