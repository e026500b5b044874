/** Resumable uploads: the offset protocol of one session, and all interleavings of its requests. */
module Resumable {
  import opened ByteStrings
  import opened Types

  /** A Content-Range header after parsing; a total of None is "*". */
  datatype ContentRange =
    | NoRange
    | Probe(total: Option<nat>)
    | Chunk(start: nat, end: nat, total: Option<nat>)
    | Malformed

  /** What io.Copy gets out of a request body before it ends or breaks off. */
  datatype Body = Body(delivered: Bytes, broken: bool)

  datatype Request = Request(range: ContentRange, body: Body)

  /** `content` is what the session's writer has been fed. */
  datatype Session = Session(content: Bytes, offset: nat, done: bool)

  datatype Reply =
    | NoSuchSession
    | AlreadyFinalized
    | Incomplete(offset: nat)
    | InvalidRange
    | WrongLength
    | CopyFailed
    | Finalize

  const FRESH := Session([], 0, false)

  function Settle(s: Session, total: Option<nat>): (Session, Reply)
  {
    if total.Some? && s.offset == total.value then (s.(done := true), Finalize) else (s, Incomplete(s.offset))
  }

  /** handleResumableChunk from the moment it holds the session's lock. */
  function Handle(s: Session, r: Request): (Session, Reply)
  {
    if s.done then (s, AlreadyFinalized)
    else
      var fed := s.(content := s.content + r.body.delivered);
      var n := |r.body.delivered|;
      match r.range
      case Probe(total) => Settle(s, total)
      case Chunk(start, end, total) =>
        if start != s.offset then (s, Incomplete(s.offset))
        else if r.body.broken then (fed, CopyFailed)
        else if n != end - start + 1 then (fed, WrongLength)
        else Settle(fed.(offset := s.offset + n), total)
      case NoRange =>
        if r.body.broken then (fed, CopyFailed) else Settle(fed.(offset := s.offset + n), Some(s.offset + n))
      case Malformed => (s, InvalidRange)
  }

  /** What each request does to a session that is not finished. */
  lemma {:induction false} RequestsMean(s: Session, r: Request)
    requires !s.done
    ensures var (t, reply) := Handle(s, r);
            var n := |r.body.delivered|;
            match r.range
            case NoRange =>
              t.content == s.content + r.body.delivered &&
              if r.body.broken then reply == CopyFailed && t.offset == s.offset && !t.done
              else reply == Finalize && t.offset == s.offset + n && t.done
            case Chunk(start, end, total) =>
              if start != s.offset then reply == Incomplete(s.offset) && t == s
              else
                t.content == s.content + r.body.delivered &&
                if r.body.broken then reply == CopyFailed && t.offset == s.offset && !t.done
                else if n != end - start + 1 then reply == WrongLength && t.offset == s.offset && !t.done
                else
                  t.offset == s.offset + n && (t.done <==> total == Some(s.offset + n)) &&
                  reply == if total == Some(s.offset + n) then Finalize else Incomplete(s.offset + n)
            case Probe(total) =>
              t.content == s.content && t.offset == s.offset && (t.done <==> total == Some(s.offset)) &&
              reply == if total == Some(s.offset) then Finalize else Incomplete(s.offset)
            case Malformed => reply == InvalidRange && t == s
  {
  }

  // --- the step machine ------------------------------------------------------------------------------

  /** What the request that finalised the session still has to do, with the session's lock held. */
  datatype Lock = Free | Unlisting | Committing

  datatype State = State(session: Session, listed: bool, pending: seq<Request>, lock: Lock, commits: seq<Bytes>)

  datatype Event =
    | Arrive(request: Request)   // a request reaches the server and looks the session up; lost ones never do
    | Process(i: nat)            // one of those waiting gets the session's lock
    | Unlist                     // the finaliser takes the session out of the map
    | Commit                     // and hands the writer to commitUpload

  const STARTED := State(FRESH, true, [], Free, [])

  /** An event that is not possible in the state changes nothing. */
  function Apply(s: State, e: Event): State
  {
    match e
    case Arrive(r) => if s.listed then s.(pending := s.pending + [r]) else s
    case Process(i) =>
      if i < |s.pending| && s.lock.Free? then
        var (session, reply) := Handle(s.session, s.pending[i]);
        s.(session := session, pending := s.pending[..i] + s.pending[i + 1..],
           lock := if reply.Finalize? then Unlisting else Free)
      else s
    case Unlist => if s.lock.Unlisting? then s.(listed := false, lock := Committing) else s
    case Commit => if s.lock.Committing? then s.(lock := Free, commits := s.commits + [s.session.content]) else s
  }

  function Run(events: seq<Event>): State
  {
    if events == [] then STARTED else Apply(Run(events[..|events| - 1]), events[|events| - 1])
  }

  /** The bytes an event appends without moving the offset: the body broke off or had the wrong length. */
  function Spill(s: State, e: Event): nat
  {
    if e.Process? && e.i < |s.pending| && s.lock.Free? then
      var (session, reply) := Handle(s.session, s.pending[e.i]);
      if reply.CopyFailed? || reply.WrongLength? then |s.pending[e.i].body.delivered| else 0
    else 0
  }

  function Spilled(events: seq<Event>): nat
  {
    if events == [] then 0
    else Spilled(events[..|events| - 1]) + Spill(Run(events[..|events| - 1]), events[|events| - 1])
  }

  // --- safety, whatever the clients send ---------------------------------------------------------------

  predicate Orderly(s: State)
  {
    (s.listed ==> !s.session.done || s.lock.Unlisting?) &&
    (s.lock != Free ==> s.session.done && s.commits == []) &&
    (!s.session.done ==> s.commits == [] && s.listed) &&
    |s.commits| <= 1 &&
    (s.commits != [] ==> s.commits == [s.session.content])
  }

  lemma OrderlyAfterEvent(s: State, e: Event)
    requires Orderly(s)
    ensures Orderly(Apply(s, e))
  {
  }

  lemma {:induction false} AlwaysOrderly(events: seq<Event>)
    ensures Orderly(Run(events))
    decreases |events|
  {
    if events != [] {
      var n := |events| - 1;
      AlwaysOrderly(events[..n]);
      OrderlyAfterEvent(Run(events[..n]), events[n]);
    }
  }

  /** Conservation: the writer is ahead of the offset by exactly the bytes that were spilled. */
  lemma {:induction false} WriterIsAheadBySpill(events: seq<Event>)
    ensures |Run(events).session.content| == Run(events).session.offset + Spilled(events)
    decreases |events|
  {
    if events != [] {
      WriterIsAheadBySpill(events[..|events| - 1]);
    }
  }

  lemma {:induction false} RunSplit(before: seq<Event>, after: seq<Event>)
    requires after != []
    ensures Run(before + after) == Apply(Run(before + after[..|after| - 1]), after[|after| - 1])
  {
    assert (before + after)[..|before + after| - 1] == before + after[..|after| - 1];
  }

  /** Once finalised, a session's content and offset stay as they are, and at most one commit is attempted. */
  lemma {:induction false} FinalisedStays(before: seq<Event>, after: seq<Event>)
    requires Run(before).session.done
    ensures Run(before + after).session == Run(before).session
    ensures Run(before).commits <= Run(before + after).commits && |Run(before + after).commits| <= 1
    decreases |after|
  {
    AlwaysOrderly(before + after);
    if after == [] {
      assert before + after == before;
    } else {
      FinalisedStays(before, after[..|after| - 1]);
      RunSplit(before, after);
    }
  }

  // --- clients that upload one content ---------------------------------------------------------------------

  /** A chunk or probe request of a client with content c: true totals, and a body that delivers the right bytes, or
      the first of them. */
  predicate Sends(c: Bytes, r: Request)
  {
    match r.range
    case Probe(total) => total.Some? ==> total.value == |c|
    case Chunk(start, end, total) =>
      start <= end < |c| && (total.Some? ==> total.value == |c|) && HasPrefix(c[start..end + 1], r.body.delivered)
    case _ => false
  }

  predicate Whole(r: Request)
  {
    r.range.Chunk? ==> !r.body.broken && |r.body.delivered| == r.range.end - r.range.start + 1
  }

  predicate SentBy(c: Bytes, events: seq<Event>)
  {
    forall i :: 0 <= i < |events| && events[i].Arrive? ==> Sends(c, events[i].request)
  }

  predicate AllWhole(events: seq<Event>)
  {
    forall i :: 0 <= i < |events| && events[i].Arrive? ==> Whole(events[i].request)
  }

  predicate Tracks(c: Bytes, s: State, spilled: nat)
  {
    s.session.offset <= |c| &&
    (s.session.done ==> s.session.offset == |c|) &&
    (spilled == 0 ==> s.session.content == c[..s.session.offset]) &&
    forall i :: 0 <= i < |s.pending| ==> Sends(c, s.pending[i])
  }

  lemma HandleTracks(c: Bytes, s: Session, r: Request)
    requires s.offset <= |c| && Sends(c, r) && (s.done ==> s.offset == |c|)
    ensures var (s', reply) := Handle(s, r);
            s'.offset <= |c| && (s'.done ==> s'.offset == |c|) &&
            (s.content == c[..s.offset] && (reply.CopyFailed? || reply.WrongLength? ==> r.body.delivered == []) ==>
              s'.content == c[..s'.offset])
  {
    if r.range.Chunk? && r.range.start == s.offset && |r.body.delivered| == r.range.end - r.range.start + 1 {
      assert r.body.delivered == c[s.offset..r.range.end + 1];
      assert c[..s.offset] + c[s.offset..r.range.end + 1] == c[..r.range.end + 1];
    }
  }

  lemma TracksAfterEvent(c: Bytes, s: State, e: Event, spilled: nat)
    requires Tracks(c, s, spilled) && (e.Arrive? ==> Sends(c, e.request))
    ensures Tracks(c, Apply(s, e), spilled + Spill(s, e))
  {
    if e.Process? && e.i < |s.pending| && s.lock.Free? {
      HandleTracks(c, s.session, s.pending[e.i]);
    }
  }

  lemma {:induction false} AlwaysTracks(c: Bytes, events: seq<Event>)
    requires SentBy(c, events)
    ensures Tracks(c, Run(events), Spilled(events))
    decreases |events|
  {
    if events != [] {
      var n := |events| - 1;
      AlwaysTracks(c, events[..n]);
      TracksAfterEvent(c, Run(events[..n]), events[n], Spilled(events[..n]));
    }
  }

  lemma {:induction false} WholeNeverSpills(c: Bytes, events: seq<Event>)
    requires SentBy(c, events) && AllWhole(events)
    ensures Spilled(events) == 0
    ensures forall i :: 0 <= i < |Run(events).pending| ==>
            Whole(Run(events).pending[i]) && Sends(c, Run(events).pending[i])
    decreases |events|
  {
    if events != [] {
      WholeNeverSpills(c, events[..|events| - 1]);
    }
  }

  /** End to end: however the requests are lost, repeated or reordered, as long as bodies arrive whole the writer holds
      the first `offset` bytes of the content, and what is committed is the content. */
  lemma UploadIsFaithful(c: Bytes, events: seq<Event>)
    requires SentBy(c, events) && AllWhole(events)
    ensures var s := Run(events);
            s.session.offset <= |c| && s.session.content == c[..s.session.offset] &&
            (s.commits == [] || s.commits == [c])
  {
    AlwaysTracks(c, events);
    WholeNeverSpills(c, events);
    AlwaysOrderly(events);
    assert c[..|c|] == c;
  }

  /** With bodies that can break off, a commit is of the right content exactly if nothing was spilled on the way. */
  lemma CommitIsExactIffNoSpill(c: Bytes, events: seq<Event>)
    requires SentBy(c, events) && Run(events).commits != []
    ensures Run(events).commits == [c] <==> Spilled(events) == 0
  {
    AlwaysTracks(c, events);
    AlwaysOrderly(events);
    WriterIsAheadBySpill(events);
    assert c[..|c|] == c;
  }

  /** A client that resumes at the reported offset with the rest of its content finishes the upload. */
  lemma ResumeFinishes(c: Bytes, s: Session)
    requires !s.done && s.offset <= |c| && s.content == c[..s.offset]
    ensures Handle(s, Request(Probe(None), Body([], false))) == (s, Incomplete(s.offset))
    ensures var r := if s.offset == |c| then Request(Probe(Some(|c|)), Body([], false))
                     else Request(Chunk(s.offset, |c| - 1, Some(|c|)), Body(c[s.offset..], false));
            Sends(c, r) && Whole(r) && Handle(s, r) == (Session(c, |c|, true), Finalize)
  {
    if s.offset == |c| {
      assert c[..|c|] == c;
    } else {
      assert c[s.offset..|c|] == c[s.offset..];
      assert c[..s.offset] + c[s.offset..] == c;
    }
  }

  /** A body that breaks off stays in the writer: the retry commits its first byte twice. */
  lemma BrokenBodyCorrupts(a: Byte, b: Byte)
    ensures var chunk := Chunk(0, 1, Some(2));
            var first, retry := Request(chunk, Body([a], true)), Request(chunk, Body([a, b], false));
            var events := [Arrive(first), Process(0), Arrive(retry), Process(0), Unlist, Commit];
            SentBy([a, b], events) && Run(events).commits == [[a, a, b]]
  {
    var chunk := Chunk(0, 1, Some(2));
    var first, retry := Request(chunk, Body([a], true)), Request(chunk, Body([a, b], false));
    var events := [Arrive(first), Process(0), Arrive(retry), Process(0), Unlist, Commit];
    var c: Bytes := [a, b];
    assert c[0..2] == c && c[..1] == [a];
    assert events[..5][..4] == events[..4] && events[..4][..3] == events[..3] && events[..3][..2] == events[..2];
    assert events[..2][..1] == events[..1];
    assert Run(events[..1]) == STARTED.(pending := [first]);
    assert Run(events[..2]) == STARTED.(session := Session([a], 0, false));
    assert Run(events[..3]) == STARTED.(session := Session([a], 0, false), pending := [retry]);
    assert Run(events[..4]) == State(Session([a, a, b], 2, true), true, [], Unlisting, []);
  }
}
