/** Object requests of the S3 front end: listing with either cursor, and uploads in aws-chunked framing. */
module S3Server {
  import opened ByteStrings
  import opened Types
  import Successor
  import Listing
  import Scan
  import Paging
  import opened S3Cursors
  import opened Cas
  import opened BucketStore
  import CasRun
  import AwsChunked

  datatype ListRequest = ListRequest(
    isV2: bool,
    query: Listing.Query,
    maxKeys: int,
    continuation: Bytes,
    startAfter: Bytes,
    marker: Bytes)

  /** `next` is NextContinuationToken or NextMarker, and empty if the page is the last. */
  datatype ListReply = Panicked | Reply(objects: seq<ObjectInfo>, prefixes: seq<Bytes>, truncated: bool, next: Bytes)

  /** The store's inclusive token for a request's cursor. */
  function StoreToken(r: ListRequest): Bytes
  {
    if r.isV2 then V2Token(r.continuation, r.startAfter) else MarkerToken(r.query.delimiter, r.marker)
  }

  /** The reply for a page of the scan. */
  function ReplyOf(isV2: bool, objects: map<Bytes, Row>, page: Scan.Outcome): ListReply
  {
    match page
    case Panicked => Panicked
    case Page(es, token) =>
      Reply(Infos(objects, Listing.Objects(es)), Listing.Prefixes(es), token != [],
            if isV2 then token else if token != [] then NextMarker(Listing.Objects(es), Listing.Prefixes(es)) else [])
  }

  /** The reply to a request, from the page that the store scans for it. */
  function ReplyTo(r: ListRequest, objects: map<Bytes, Row>): ListReply
  {
    ReplyOf(r.isV2, objects, Scan.List(r.query, objects.Keys, StoreToken(r), r.maxKeys))
  }

  /** The names that a V2 request asks for: from its continuation token on, or else behind start-after. */
  function Asked(r: ListRequest, objects: map<Bytes, Row>): (m: set<Bytes>)
    ensures r.continuation != [] ==>
              forall n :: n in m <==> n in objects && HasPrefix(n, r.query.prefix) && Leq(r.continuation, n)
    ensures r.continuation == [] && r.startAfter != [] ==>
              forall n :: n in m <==> n in objects && HasPrefix(n, r.query.prefix) && Less(r.startAfter, n)
    ensures r.continuation == [] && r.startAfter == [] ==>
              forall n :: n in m <==> n in objects && HasPrefix(n, r.query.prefix)
  {
    set n | n in objects && HasPrefix(n, r.query.prefix) &&
            (if r.continuation != [] then Leq(r.continuation, n) else r.startAfter == [] || Less(r.startAfter, n))
  }

  /** The names that a V1 request asks for: those behind its marker, and behind all of its group if it looks like
      one. */
  function BehindMarker(r: ListRequest, objects: map<Bytes, Row>): (m: set<Bytes>)
    ensures r.marker == [] ==> forall n :: n in m <==> n in objects && HasPrefix(n, r.query.prefix)
    ensures r.marker != [] ==>
              var group := r.query.delimiter != [] && HasSuffix(r.marker, r.query.delimiter);
              forall n :: n in m <==> n in objects && HasPrefix(n, r.query.prefix) && Less(r.marker, n) &&
                                      (group ==> !HasPrefix(n, r.marker))
  {
    set n | n in objects && HasPrefix(n, r.query.prefix) &&
            (r.marker == [] ||
             (Less(r.marker, n) &&
              !(r.query.delimiter != [] && HasSuffix(r.marker, r.query.delimiter) && HasPrefix(n, r.marker))))
  }

  method ListObjects(b: Bucket, r: ListRequest) returns (reply: ListReply)
    ensures reply == ReplyTo(r, b.objects)
    ensures reply.Reply? ==>
              forall i :: 0 <= i < |reply.objects| ==>
                reply.objects[i].name in b.objects && reply.objects[i].row == b.objects[reply.objects[i].name]
    ensures r.isV2 && [] !in b.objects && Listing.ExactFor(r.query, b.objects.Keys) ==>
              var q := r.query;
              var m := Asked(r, b.objects);
              var all := Listing.SimpleListing(q, m);
              var wanted := if 1 <= r.maxKeys <= 1000 then r.maxKeys else 1000;
              var es := if |all| <= wanted then all else all[..wanted];
              reply.Reply? && Names(reply.objects) == Listing.Objects(es) && reply.prefixes == Listing.Prefixes(es) &&
              (reply.truncated <==> exists n :: n in m && Listing.EntryOf(q, n) !in es) &&
              (reply.truncated ==>
                reply.next in m && Listing.EntryOf(q, reply.next) !in es &&
                forall n :: n in m && Listing.EntryOf(q, n) !in es ==> Leq(reply.next, n)) &&
              (!reply.truncated ==> reply.next == [])
    ensures !r.isV2 && [] !in b.objects && Listing.ExactFor(r.query, b.objects.Keys) &&
            (r.query.delimiter != [] && HasSuffix(r.marker, r.query.delimiter) ==>
              Successor.Safe(r.marker) && Successor.Pivot(r.marker) >= 0) ==>
              var q := r.query;
              var m := BehindMarker(r, b.objects);
              var all := Listing.SimpleListing(q, m);
              var wanted := if 1 <= r.maxKeys <= 1000 then r.maxKeys else 1000;
              var es := if |all| <= wanted then all else all[..wanted];
              reply.Reply? && Names(reply.objects) == Listing.Objects(es) && reply.prefixes == Listing.Prefixes(es) &&
              (reply.truncated <==> exists n :: n in m && Listing.EntryOf(q, n) !in es) &&
              reply.next == if reply.truncated then es[|es| - 1].Key() else []
  {
    hide *;
    ReplyRows(r, b.objects);
    if [] !in b.objects && Listing.ExactFor(r.query, b.objects.Keys) {
      if r.isV2 {
        V2Reply(r, b.objects);
      } else if r.query.delimiter == [] || !HasSuffix(r.marker, r.query.delimiter) ||
                (Successor.Safe(r.marker) && Successor.Pivot(r.marker) >= 0) {
        V1Reply(r, b.objects);
      }
    }
    var token: Bytes := [];
    if r.isV2 {
      if r.continuation != [] {
        token := r.continuation;
      } else if r.startAfter != [] {
        token := r.startAfter + [0];
      }
    } else if r.marker != [] {
      if r.query.delimiter != [] && HasSuffix(r.marker, r.query.delimiter) {
        token := Successor.ComputePrefixSuccessor(r.marker);
      } else {
        token := r.marker + [0];
      }
    }
    CursorOf(r);
    var page := b.ListObjects(r.query, token, r.maxKeys);
    DeliveredReply(r, token, b.objects);
    if page.ListPanicked? {
      return Panicked;
    }
    var result := page.result;
    var truncated := result.nextPageToken != [];
    if r.isV2 {
      return Reply(result.objects, result.prefixes, truncated, result.nextPageToken);
    }
    var next: Bytes := [];
    if truncated {
      if |result.objects| > 0 {
        next := result.objects[|result.objects| - 1].name;
      }
      if |result.prefixes| > 0 && Less(next, result.prefixes[|result.prefixes| - 1]) {
        next := result.prefixes[|result.prefixes| - 1];
      }
    }
    return Reply(result.objects, result.prefixes, truncated, next);
  }

  lemma {:induction false} CursorOf(r: ListRequest)
    ensures StoreToken(r) ==
            if r.isV2 then (if r.continuation != [] then r.continuation
                            else if r.startAfter != [] then r.startAfter + [0] else [])
            else if r.marker == [] then []
            else if r.query.delimiter != [] && HasSuffix(r.marker, r.query.delimiter)
            then Successor.PrefixSuccessor(r.marker) else r.marker + [0]
  {
  }

  /** How the reply is put together from what the store delivers. */
  lemma {:induction false} DeliveredReply(r: ListRequest, token: Bytes, objects: map<Bytes, Row>)
    requires token == StoreToken(r)
    ensures var page := Deliver(objects, Scan.List(r.query, objects.Keys, token, r.maxKeys));
            var reply := ReplyTo(r, objects);
            match page
            case ListPanicked => reply == Panicked
            case Listed(result) =>
              var os, ps := result.objects, result.prefixes;
              var last := if |os| > 0 then os[|os| - 1].name else [];
              var marker := if |ps| > 0 && Less(last, ps[|ps| - 1]) then ps[|ps| - 1] else last;
              var truncated := result.nextPageToken != [];
              reply == Reply(os, ps, truncated,
                             if r.isV2 then result.nextPageToken else if truncated then marker else [])
  {
    hide Scan.Walk, Infos, Listing.Objects, Listing.Prefixes, Less;
    DeliveredFits(r.query, objects, token, r.maxKeys);
    var o := Scan.List(r.query, objects.Keys, token, r.maxKeys);
    if o.Page? {
      var infos, ns := Infos(objects, Listing.Objects(o.entries)), Listing.Objects(o.entries);
      assert |Names(infos)| == |infos| && (ns != [] ==> Names(infos)[|ns| - 1] == infos[|ns| - 1].name);
    }
  }

  lemma {:induction false} ReplyRows(r: ListRequest, objects: map<Bytes, Row>)
    ensures var reply := ReplyTo(r, objects);
            reply.Reply? ==>
              forall i :: 0 <= i < |reply.objects| ==>
                reply.objects[i].name in objects && reply.objects[i].row == objects[reply.objects[i].name]
  {
    hide Scan.List, Infos, Listing.Objects, Listing.Prefixes, NextMarker, StoreToken;
    DeliveredFits(r.query, objects, StoreToken(r), r.maxKeys);
  }

  /** A reply from the names from a token on. */
  lemma {:induction false} ReplyIsPage(r: ListRequest, objects: map<Bytes, Row>, m: set<Bytes>)
    requires [] !in objects && Listing.ExactFor(r.query, objects.Keys)
    requires m == set n | n in objects && HasPrefix(n, r.query.prefix) && Leq(StoreToken(r), n)
    ensures var q, reply := r.query, ReplyTo(r, objects);
            var all := Listing.SimpleListing(q, m);
            var wanted := if 1 <= r.maxKeys <= 1000 then r.maxKeys else 1000;
            var es := if |all| <= wanted then all else all[..wanted];
            reply.Reply? && Names(reply.objects) == Listing.Objects(es) && reply.prefixes == Listing.Prefixes(es) &&
            (reply.truncated <==> |all| > wanted) &&
            (reply.truncated <==> exists n :: n in m && Listing.EntryOf(q, n) !in es) &&
            (r.isV2 && reply.truncated ==>
              reply.next in m && Listing.EntryOf(q, reply.next) !in es &&
              forall n :: n in m && Listing.EntryOf(q, n) !in es ==> Leq(reply.next, n)) &&
            (!reply.truncated ==> reply.next == []) &&
            (!r.isV2 && reply.truncated ==> reply.next == NextMarker(Listing.Objects(es), Listing.Prefixes(es)))
  {
    hide Scan.List, Infos, Listing.Objects, Listing.Prefixes, NextMarker, StoreToken, Listing.SimpleListing,
      Listing.EntryOf, Less, Names, Listing.ExactFor;
    var t := StoreToken(r);
    Listing.ExactForFewer(r.query, objects.Keys, Listing.Ahead(objects.Keys, t));
    Paging.PageHasWantedSize(r.query, objects.Keys, t, r.maxKeys);
    DeliveredFits(r.query, objects, t, r.maxKeys);
    assert m == set n | n in objects.Keys && HasPrefix(n, r.query.prefix) && Leq(t, n);
  }

  lemma {:induction false} AskedIsAhead(r: ListRequest, objects: map<Bytes, Row>)
    requires r.isV2
    ensures Asked(r, objects) == set n | n in objects && HasPrefix(n, r.query.prefix) && Leq(StoreToken(r), n)
  {
    hide Less;
    forall n
      ensures Leq(StoreToken(r), n) <==>
              if r.continuation != [] then Leq(r.continuation, n) else r.startAfter == [] || Less(r.startAfter, n)
    {
      LeastAbove(r.startAfter, n);
      NothingBefore(n);
    }
  }

  lemma NothingBefore(n: Bytes)
    ensures Leq([], n)
  {
  }

  lemma {:induction false} V2Reply(r: ListRequest, objects: map<Bytes, Row>)
    requires r.isV2 && [] !in objects && Listing.ExactFor(r.query, objects.Keys)
    ensures var q, reply := r.query, ReplyTo(r, objects);
            var m := Asked(r, objects);
            var all := Listing.SimpleListing(q, m);
            var wanted := if 1 <= r.maxKeys <= 1000 then r.maxKeys else 1000;
            var es := if |all| <= wanted then all else all[..wanted];
            reply.Reply? && Names(reply.objects) == Listing.Objects(es) && reply.prefixes == Listing.Prefixes(es) &&
            (reply.truncated <==> exists n :: n in m && Listing.EntryOf(q, n) !in es) &&
            (reply.truncated ==>
              reply.next in m && Listing.EntryOf(q, reply.next) !in es &&
              forall n :: n in m && Listing.EntryOf(q, n) !in es ==> Leq(reply.next, n)) &&
            (!reply.truncated ==> reply.next == [])
  {
    hide ReplyTo, Listing.Objects, Listing.Prefixes, Listing.SimpleListing, Listing.EntryOf, Less, Names, StoreToken,
      Listing.ExactFor;
    AskedIsAhead(r, objects);
    var m := Asked(r, objects);
    ReplyIsPage(r, objects, m);
  }

  lemma {:induction false} BehindMarkerIsAhead(r: ListRequest, objects: map<Bytes, Row>)
    requires !r.isV2
    requires r.query.delimiter != [] && HasSuffix(r.marker, r.query.delimiter) ==>
               Successor.Safe(r.marker) && Successor.Pivot(r.marker) >= 0
    ensures BehindMarker(r, objects) == set n | n in objects && HasPrefix(n, r.query.prefix) && Leq(StoreToken(r), n)
  {
    hide Less, Successor.PrefixSuccessor;
    var q, k := r.query, r.marker;
    forall n ensures (k == [] || (Less(k, n) && !(q.delimiter != [] && HasSuffix(k, q.delimiter) && HasPrefix(n, k))))
                     <==> Leq(StoreToken(r), n)
    {
      NothingBefore(n);
      if k != [] {
        if LooksLikeGroup(q.delimiter, k) {
          Successor.SafeRange(k, k);
          Successor.SafeRange(k, n);
        }
        MarkerBehindObject(q, k, n);
      }
    }
  }

  lemma {:induction false} V1Reply(r: ListRequest, objects: map<Bytes, Row>)
    requires !r.isV2 && [] !in objects && Listing.ExactFor(r.query, objects.Keys)
    requires r.query.delimiter != [] && HasSuffix(r.marker, r.query.delimiter) ==>
               Successor.Safe(r.marker) && Successor.Pivot(r.marker) >= 0
    ensures var q, reply := r.query, ReplyTo(r, objects);
            var m := BehindMarker(r, objects);
            var all := Listing.SimpleListing(q, m);
            var wanted := if 1 <= r.maxKeys <= 1000 then r.maxKeys else 1000;
            var es := if |all| <= wanted then all else all[..wanted];
            reply.Reply? && Names(reply.objects) == Listing.Objects(es) && reply.prefixes == Listing.Prefixes(es) &&
            (reply.truncated <==> exists n :: n in m && Listing.EntryOf(q, n) !in es) &&
            (reply.truncated ==> es != []) &&
            reply.next == if reply.truncated then es[|es| - 1].Key() else []
  {
    hide ReplyTo, Listing.Objects, Listing.Prefixes, Listing.SimpleListing, Listing.EntryOf, Less, Names, StoreToken,
      Listing.ExactFor, NextMarker;
    BehindMarkerIsAhead(r, objects);
    var m := BehindMarker(r, objects);
    ReplyIsPage(r, objects, m);
    var all := Listing.SimpleListing(r.query, m);
    var wanted := if 1 <= r.maxKeys <= 1000 then r.maxKeys else 1000;
    Listing.ListingAscends(r.query, m);
    if |all| > wanted {
      NextMarkerIsLastKey(all[..wanted]);
    }
  }

  // --- chains of requests ------------------------------------------------------------------------------

  /** What a client gets that keeps its request and puts `next` where it belongs: in the continuation token or in the
      marker. */
  function ReplyChain(r: ListRequest, objects: map<Bytes, Row>, limits: seq<int>): seq<ListReply>
    decreases |limits|
  {
    if limits == [] then []
    else
      var reply := ReplyTo(r.(maxKeys := limits[0]), objects);
      if reply.Panicked? || !reply.truncated then [reply]
      else
        [reply] +
        ReplyChain(if r.isV2 then r.(continuation := reply.next) else r.(marker := reply.next), objects, limits[1..])
  }

  predicate AreReplies(isV2: bool, objects: map<Bytes, Row>, pages: seq<Scan.Outcome>, replies: seq<ListReply>)
  {
    |replies| == |pages| && forall i :: 0 <= i < |pages| ==> replies[i] == ReplyOf(isV2, objects, pages[i])
  }

  lemma {:induction false} V2ChainFollowsTokens(r: ListRequest, objects: map<Bytes, Row>, limits: seq<int>)
    requires r.isV2
    ensures AreReplies(true, objects, Paging.TokenPages(r.query, objects.Keys, StoreToken(r), limits),
                       ReplyChain(r, objects, limits))
    decreases |limits|
  {
    hide Scan.List, Infos, Listing.Objects, Listing.Prefixes, NextMarker;
    if limits != [] {
      var page := Scan.List(r.query, objects.Keys, StoreToken(r), limits[0]);
      if page.Page? && page.token != [] {
        V2ChainFollowsTokens(r.(continuation := page.token), objects, limits[1..]);
      }
    }
  }

  lemma {:induction false} V1ChainFollowsMarkers(r: ListRequest, objects: map<Bytes, Row>, limits: seq<int>)
    requires !r.isV2
    ensures AreReplies(false, objects, MarkerPages(r.query, objects.Keys, r.marker, limits),
            ReplyChain(r, objects, limits))
    decreases |limits|
  {
    hide Scan.List, Infos, Listing.Objects, Listing.Prefixes, NextMarker, MarkerToken;
    if limits != [] {
      var page := Scan.List(r.query, objects.Keys, StoreToken(r), limits[0]);
      if page.Page? && page.token != [] {
        V1ChainFollowsMarkers(r.(marker := NextMarker(Listing.Objects(page.entries), Listing.Prefixes(page.entries))),
                              objects, limits[1..]);
      }
    }
  }

  /** The replies hold the pieces of the listing, one after the other. */
  predicate HoldPieces(replies: seq<ListReply>, pieces: seq<seq<Listing.Entry>>)
  {
    |replies| == |pieces| &&
    forall i :: 0 <= i < |replies| ==>
      replies[i].Reply? && Names(replies[i].objects) == Listing.Objects(pieces[i]) &&
      replies[i].prefixes == Listing.Prefixes(pieces[i])
  }

  lemma {:induction false} PagesListNames(q: Listing.Query, names: set<Bytes>, token: Bytes, limits: seq<int>)
    ensures forall i :: 0 <= i < |Paging.TokenPages(q, names, token, limits)| ==>
              var page := Paging.TokenPages(q, names, token, limits)[i];
              page.Page? ==> forall e :: e in page.entries && e.Object? ==> e.name in names
    decreases |limits|
  {
    hide Scan.Walk;
    if limits != [] {
      var page := Scan.List(q, names, token, limits[0]);
      WalkListsNames(q, names, Successor.PrefixSuccessor(q.prefix), Scan.Start(q, token), Scan.Clamp(limits[0]));
      if page.Page? && page.token != [] {
        PagesListNames(q, names, page.token, limits[1..]);
      }
    }
  }

  lemma {:induction false} PagesHoldPieces(isV2: bool, objects: map<Bytes, Row>, q: Listing.Query, token: Bytes,
                                           limits: seq<int>, replies: seq<ListReply>)
    requires [] !in objects && Listing.ExactFor(q, objects.Keys)
    requires AreReplies(isV2, objects, Paging.TokenPages(q, objects.Keys, token, limits), replies)
    ensures HoldPieces(replies,
                       Paging.Cut(Listing.SimpleListing(q, Listing.Matching(q, objects.Keys, token)), limits))
  {
    hide Scan.List, Infos, Listing.Objects, Listing.Prefixes, NextMarker, Listing.SimpleListing, Paging.Cut,
      Paging.TokenPages, Paging.Contents, Listing.ExactFor, Names;
    var pages := Paging.TokenPages(q, objects.Keys, token, limits);
    Listing.ExactForFewer(q, objects.Keys, Listing.Ahead(objects.Keys, token));
    Paging.PagesCutTheListing(q, objects.Keys, token, limits);
    Paging.NoPagePanics(q, objects.Keys, token, limits);
    PagesListNames(q, objects.Keys, token, limits);
    Paging.SameLength(pages);
    forall i | 0 <= i < |pages|
      ensures replies[i].Reply? && Names(replies[i].objects) == Listing.Objects(Paging.Contents(pages)[i]) &&
              replies[i].prefixes == Listing.Prefixes(Paging.Contents(pages)[i])
    {
      Paging.ContentsAt(pages, i);
      Listing.ListsHoldEntries(pages[i].entries);
      InfosAreRows(objects, Listing.Objects(pages[i].entries));
    }
  }

  /** A V2 client that keeps start-after and follows the continuation token gets the pages of the listing behind
      start-after, whatever the limits. */
  lemma {:induction false} V2ChainIsListing(r: ListRequest, objects: map<Bytes, Row>, limits: seq<int>)
    requires r.isV2 && [] !in objects && Listing.ExactFor(r.query, objects.Keys)
    ensures var m := Asked(r, objects);
            HoldPieces(ReplyChain(r, objects, limits), Paging.Cut(Listing.SimpleListing(r.query, m), limits))
  {
    hide ReplyChain, StoreToken, Listing.SimpleListing, Paging.Cut, Paging.TokenPages, HoldPieces, AreReplies,
      Listing.ExactFor, Less;
    V2ChainFollowsTokens(r, objects, limits);
    PagesHoldPieces(true, objects, r.query, StoreToken(r), limits, ReplyChain(r, objects, limits));
    AskedIsAhead(r, objects);
    assert Asked(r, objects) == Listing.Matching(r.query, objects.Keys, StoreToken(r));
  }

  /** And so does a V1 client that follows the marker, unless a name is split. */
  lemma {:induction false} V1ChainIsListing(r: ListRequest, objects: map<Bytes, Row>, limits: seq<int>)
    requires !r.isV2 && [] !in objects && CursorsExact(r.query, objects.Keys)
    requires !SomeSplit(r.query, BehindMarker(r, objects))
    requires r.query.delimiter != [] && HasSuffix(r.marker, r.query.delimiter) ==>
               Successor.Safe(r.marker) && Successor.Pivot(r.marker) >= 0
    ensures var m := BehindMarker(r, objects);
            HoldPieces(ReplyChain(r, objects, limits), Paging.Cut(Listing.SimpleListing(r.query, m), limits))
  {
    hide ReplyChain, Listing.SimpleListing, Paging.Cut, Paging.TokenPages, HoldPieces, AreReplies, MarkerPages,
      Listing.ExactFor, Less, SomeSplit, MarkerToken;
    var t := StoreToken(r);
    BehindMarkerIsAhead(r, objects);
    assert BehindMarker(r, objects) == Listing.Matching(r.query, objects.Keys, t);
    V1ChainFollowsMarkers(r, objects, limits);
    MarkersFollowTokens(r.query, objects.Keys, r.marker, t, limits);
    PagesHoldPieces(false, objects, r.query, t, limits, ReplyChain(r, objects, limits));
  }

  /** If-None-Match: * becomes the store's condition for an absent object. */
  function CreateOnly(createOnly: bool): (c: Conditions)
    ensures c.generationNotMatch.None? && c.metagenerationMatch.None? && c.metagenerationNotMatch.None?
    ensures c.generationMatch == if createOnly then Some(0) else None
  {
    Conditions(if createOnly then Some(0) else None, None, None, None)
  }

  /** putObject with an aws-chunked body; `createOnly` is If-None-Match: *. A read error aborts the upload. */
  method PutObject(b: Bucket, key: Bytes, c: AwsChunked.AwsChunkedReader, contentType: Bytes,
                   metadata: map<Bytes, Bytes>, createOnly: bool, now: int, fault: Fault, ghost used: set<Bytes>)
    returns (r: Result<Row>)
    requires b.TempsFresh() && b.Healthy(used) && CollisionFree(b.hs, used) && c.Left().payload in used
    modifies b, c, c.br`input
    ensures b.TempsFresh() && b.Healthy(used) && b.tmp == old(b.tmp)
    ensures r.Ok? <==>
              old(c.Left()).err == AwsChunked.EOF &&
              !FailsEarly(b.hs, old(b.OnDisk()), key, old(c.Left()).payload, fault) && !TxFails(fault) &&
              Passes(CreateOnly(createOnly), CasRun.Current(old(b.View()), key))
    ensures b.View() == if r.Ok? then old(b.View())[key := Object(old(c.Left()).payload, r.value.attributes)]
                        else old(b.View())
    ensures r.Ok? ==>
              r.value == NewRow(b.hs, old(c.Left()).payload,
                                NewAttributes(CasRun.Current(old(b.View()), key),
                                              PutOptions(contentType, metadata, CreateOnly(createOnly)), now))
    ensures r.Ok? ==>
              var payload, before := old(c.Left()).payload, old(b.View());
              r.value.hash == b.hs.sha256(payload) && r.value.size == |payload| &&
              r.value.md5 == b.hs.md5(payload) && r.value.crc32c == b.hs.crc32c(payload) &&
              var a := r.value.attributes;
              a.contentType == contentType && a.metadata == metadata && a.metageneration == 1 &&
              a.created == now == a.updated &&
              a.generation == if key in before && before[key].attributes.generation >= now
                              then before[key].attributes.generation + 1 else now
    ensures old(c.Left()).err == AwsChunked.EOF && fault in {NoFault, RemoveFails} ==>
              (r.Ok? <==>
                ValidObjectName(key) &&
                (createOnly && key in old(b.View()) ==> old(b.View())[key].attributes.generation == 0))
    ensures r.Ok? && createOnly && (forall n :: n in old(b.View()) ==> old(b.View())[n].attributes.generation > 0) ==>
              key !in old(b.View())
  {
    hide CasRun.Good, Cas.View, AwsChunked.Remainder, FailsEarly, ValidObjectName, TxFails;
    var opts := PutOptions(contentType, metadata, CreateOnly(createOnly));
    var payload, err := AwsChunked.CopyAll(c, i => 0x8000, i => 0, i => false);
    r := BucketStore.PutObject(b, key, payload, err != AwsChunked.EOF, opts, now, fault, used);
  }

  /** What is stored for an encoded upload that reaches the server whole is its payload. */
  method PutEncoded(b: Bucket, key: Bytes, cs: seq<AwsChunked.Chunk>, lastExtension: Bytes, trailers: seq<Bytes>,
                    now: int, ghost used: set<Bytes>)
    returns (r: Result<Row>)
    requires b.TempsFresh() && b.Healthy(used) && CollisionFree(b.hs, used) && AwsChunked.Payload(cs) in used
    requires AwsChunked.Good(cs, lastExtension, trailers)
    modifies b
    ensures r.Ok? <==> ValidObjectName(key)
    ensures b.View() == if r.Ok? then old(b.View())[key := Object(AwsChunked.Payload(cs), r.value.attributes)]
                        else old(b.View())
  {
    hide CasRun.Good, Cas.View, AwsChunked.Remainder, AwsChunked.Encode, ValidObjectName;
    var stream := AwsChunked.Encode(cs, lastExtension, trailers);
    var br := new AwsChunked.Source(stream, AwsChunked.Clean);
    var c := new AwsChunked.AwsChunkedReader(br);
    AwsChunked.DecodeOfEncode(cs, lastExtension, trailers, [], AwsChunked.Clean);
    assert stream + [] == stream;
    r := PutObject(b, key, c, [], map[], false, now, NoFault, used);
  }
}
