/** The multipart handlers of the S3 front end, each from its lookup to its reply. */
module MultipartServer {
  import opened ByteStrings
  import opened Types
  import opened Cas
  import opened BucketStore
  import CasRun
  import opened Multipart
  import opened MultipartSolo

  datatype Reply =
    | Done
    | NoSuchUpload
    | InvalidArgument
    | InvalidRequest
    | InvalidPartOrder
    | InvalidPart(number: int)
    | InternalError
    | Refused(error: StoreError)

  const NO_CONDITIONS := Conditions(None, None, None, None)

  lemma HasMember(s: set<int>)
    requires s != {}
    ensures exists n :: n in s
  {
    assert (forall n :: n !in s) ==> s == {};
  }

  lemma RowAttributes(hs: Hashers, content: Bytes, a: Attributes)
    ensures NewRow(hs, content, a).attributes == a
  {
  }

  lemma NothingStaged(hs: Hashers, tmp: map<Path, Bytes>)
    ensures PartsOnDisk(hs, tmp, map[])
  {
  }

  /** Each part has a staged file of its own that it describes. */
  predicate PartsOnDisk(hs: Hashers, tmp: map<Path, Bytes>, parts: map<int, Part>)
  {
    (forall n :: n in parts ==>
      var p := parts[n]; p.path in tmp && p.size == |tmp[p.path]| && p.md5 == hs.md5(tmp[p.path])) &&
    (forall m, n :: m in parts && n in parts && parts[m].path == parts[n].path ==> m == n)
  }

  function WithoutPart(tmp: map<Path, Bytes>, parts: map<int, Part>, number: int): map<Path, Bytes>
  {
    if number in parts then tmp - {parts[number].path} else tmp
  }

  lemma PartReplaced(hs: Hashers, tmp: map<Path, Bytes>, parts: map<int, Part>, number: int, t: Path, body: Bytes)
    requires PartsOnDisk(hs, tmp, parts) && t !in tmp
    ensures PartsOnDisk(hs, WithoutPart(tmp, parts, number)[t := body], parts[number := Part(t, |body|, hs.md5(body))])
    ensures WithoutPart(tmp, parts, number)[t := body] ==
            if number in parts then tmp[t := body] - {parts[number].path} else tmp[t := body]
  {
    if number in parts {
      assert (tmp - {parts[number].path})[t := body] == tmp[t := body] - {parts[number].path};
    }
  }

  lemma TempCycle(before: map<Path, Bytes>, after: map<Path, Bytes>, t: Path, body: Bytes)
    requires t !in before && after == before[t := []][t := body]
    ensures after == before[t := body] && after - {t} == before
  {
  }

  lemma NothingAsked(existing: Option<Attributes>)
    ensures Passes(NO_CONDITIONS, existing)
  {
  }

  // --- one upload as a state of the step machine --------------------------------------------------------

  predicate DistinctPaths(parts: map<int, Part>)
  {
    forall m, n :: m in parts && n in parts && parts[m].path == parts[n].path ==> m == n
  }

  function StagedFiles(tmp: map<Path, Bytes>, parts: map<int, Part>): map<Path, Bytes>
  {
    map p | p in tmp && p in PathsOf(parts) :: tmp[p]
  }

  ghost function NumberOf(parts: map<int, Part>, p: Path): (n: int)
    requires p in PathsOf(parts)
    ensures n in parts && parts[n].path == p
  {
    var n :| n in parts && parts[n].path == p;
    n
  }

  ghost function Owners(parts: map<int, Part>, id: Id): map<Path, Owner>
  {
    map p | p in PathsOf(parts) :: ByPart(id, NumberOf(parts, p))
  }

  ghost function StateOf(tmp: map<Path, Bytes>, parts: map<int, Part>, done: bool, commits: seq<Bytes>, id: Id,
                         listed: bool, next: Path): State
  {
    State(StagedFiles(tmp, parts), Owners(parts, id), map[id := Upload(parts, done, None, commits)],
          if listed then {id} else {}, map[], next)
  }

  /** What the class keeps true is the invariant of the step machine. */
  lemma {:induction false} StateIsGood(hs: Hashers, tmp: map<Path, Bytes>, parts: map<int, Part>, done: bool,
                                       commits: seq<Bytes>, id: Id, listed: bool, next: Path)
    requires PartsOnDisk(hs, tmp, parts) && (forall p :: p in tmp ==> p < next)
    requires (done ==> parts == map[]) && |commits| <= 1 && (commits != [] ==> done)
    ensures Multipart.Good(hs, StateOf(tmp, parts, done, commits, id, listed, next))
  {
    var s := StateOf(tmp, parts, done, commits, id, listed, next);
    assert s.owner.Keys == s.files.Keys == PathsOf(parts);
  }

  lemma {:induction false} StagedAfterPart(tmp: map<Path, Bytes>, parts: map<int, Part>, number: int, part: Part,
                                           body: Bytes)
    requires DistinctPaths(parts) && part.path !in PathsOf(parts)
    ensures StagedFiles(WithoutPart(tmp, parts, number)[part.path := body], parts[number := part]) ==
            (StagedFiles(tmp, parts) - Replaced(parts, number))[part.path := body]
  {
    hide DistinctPaths, PathsOf;
    PathsOfMore(parts, number, part);
  }

  lemma {:induction false} OwnersAfterPart(parts: map<int, Part>, number: int, part: Part, id: Id)
    requires DistinctPaths(parts) && part.path !in PathsOf(parts)
    ensures DistinctPaths(parts[number := part])
    ensures Owners(parts[number := part], id) ==
            (Owners(parts, id) - Replaced(parts, number))[part.path := ByPart(id, number)]
  {
    var more := parts[number := part];
    PathsOfMore(parts, number, part);
    forall n | n in parts ensures parts[n].path != part.path { assert parts[n].path in PathsOf(parts); }
    var owners := (Owners(parts, id) - Replaced(parts, number))[part.path := ByPart(id, number)];
    hide PathsOf;
    assert owners.Keys == PathsOf(more);
    forall p | p in PathsOf(more) ensures Owners(more, id)[p] == owners[p] {
      var n := NumberOf(more, p);
      if p == part.path {
        assert n == number;
      } else {
        assert n in parts && parts[n].path == p && NumberOf(parts, p) == n;
      }
    }
  }

  lemma {:induction false} PathsOfMore(parts: map<int, Part>, number: int, part: Part)
    requires DistinctPaths(parts) && part.path !in PathsOf(parts)
    ensures PathsOf(parts[number := part]) == PathsOf(parts) - Replaced(parts, number) + {part.path}
  {
    var more := parts[number := part];
    assert more[number].path == part.path;
    forall p | p in PathsOf(parts) - Replaced(parts, number) ensures p in PathsOf(more) {
      var n :| n in parts && parts[n].path == p;
      assert more[n].path == p;
    }
  }

  /** A part upload from this state, start to end. */
  lemma {:induction false} PartIsRun(hs: Hashers, tmp: map<Path, Bytes>, parts: map<int, Part>, done: bool,
                                     commits: seq<Bytes>, id: Id, next: Path, tid: Tid, number: int, body: Bytes,
                                       broken: bool)
    requires PartsOnDisk(hs, tmp, parts) && next !in tmp
    ensures RunFrom(hs, StateOf(tmp, parts, done, commits, id, true, next), PartSteps(tid, id, number, body, broken)) ==
            if !(1 <= number <= 10000) then StateOf(tmp, parts, done, commits, id, true, next)
            else if broken || done then StateOf(tmp, parts, done, commits, id, true, next + 1)
            else StateOf(WithoutPart(tmp, parts, number)[next := body],
                         parts[number := Part(next, |body|, hs.md5(body))],
                         done, commits, id, true, next + 1)
  {
    hide RunFrom, PartSteps, WithoutPart;
    var s := StateOf(tmp, parts, done, commits, id, true, next);
    var part := Part(next, |body|, hs.md5(body));
    assert PathsOf(parts) <= tmp.Keys;
    assert number in parts ==> parts[number].path in PathsOf(parts);
    PartRuns(hs, s, tid, id, number, body, broken);
    StagedAfterPart(tmp, parts, number, part, body);
    OwnersAfterPart(parts, number, part, id);
  }

  lemma {:induction false} GoneAbstracts(tmp: map<Path, Bytes>, parts: map<int, Part>, done: bool, before: seq<Bytes>,
                                         commits: seq<Bytes>, id: Id, next: Path)
    ensures Gone(StateOf(tmp, parts, done, before, id, true, next), id, commits) ==
            StateOf(tmp - PathsOf(parts), map[], true, commits, id, false, next)
  {
    assert StagedFiles(tmp, parts) - PathsOf(parts) == map[] == StagedFiles(tmp - PathsOf(parts), map[]);
    assert Owners(parts, id) - PathsOf(parts) == map[] == Owners(map[], id);
  }

  lemma {:induction false} JoinedOfStaged(hs: Hashers, tmp: map<Path, Bytes>, parts: map<int, Part>, req: seq<PartRef>)
    requires PartsOnDisk(hs, tmp, parts)
    ensures Joined(StagedFiles(tmp, parts), parts, req) == Joined(tmp, parts, req)
  {
    JoinedElsewhere(tmp, StagedFiles(tmp, parts), parts, req);
  }

  /** A completion from this state, start to end. */
  lemma {:induction false} CompleteIsRun(hs: Hashers, tmp: map<Path, Bytes>, parts: map<int, Part>, done: bool,
                                         commits: seq<Bytes>, id: Id, next: Path, tid: Tid, req: seq<PartRef>,
                                           failAt: Option<nat>, ok: bool)
    requires PartsOnDisk(hs, tmp, parts)
    ensures RunFrom(hs, StateOf(tmp, parts, done, commits, id, true, next), CompleteSteps(tid, id, req, failAt, ok)) ==
            if req == [] || !Ascending(req) || done || !AllCheck(parts, req) ||
            (failAt.Some? && failAt.value < |req|) || !ok
            then StateOf(tmp, parts, done, commits, id, true, next)
            else StateOf(tmp - PathsOf(parts), map[], true, commits + [Joined(tmp, parts, req)], id, false, next)
  {
    hide RunFrom, CompleteSteps, Joined, Gone, AllCheck, Ascending;
    var s := StateOf(tmp, parts, done, commits, id, true, next);
    CompleteRuns(hs, s, tid, id, req, failAt, ok);
    JoinedOfStaged(hs, tmp, parts, req);
    GoneAbstracts(tmp, parts, done, commits, commits + [Joined(tmp, parts, req)], id, next);
  }

  lemma {:induction false} AbortIsRun(hs: Hashers, tmp: map<Path, Bytes>, parts: map<int, Part>, done: bool,
                                      commits: seq<Bytes>, id: Id, next: Path, tid: Tid)
    ensures RunFrom(hs, StateOf(tmp, parts, done, commits, id, true, next), AbortSteps(tid, id)) ==
            StateOf(tmp - PathsOf(parts), map[], true, commits, id, false, next)
  {
    hide RunFrom, AbortSteps, Gone;
    AbortRuns(hs, StateOf(tmp, parts, done, commits, id, true, next), tid, id);
    GoneAbstracts(tmp, parts, done, commits, commits, id, next);
  }

  class MultipartUpload {
    const b: Bucket
    const key: Bytes
    const opts: PutOptions
    var parts: map<int, Part>
    var done: bool
    ghost var commits: seq<Bytes>   // the contents that completions have committed

    constructor (b: Bucket, key: Bytes, contentType: Bytes, metadata: map<Bytes, Bytes>)
      ensures this.b == b && this.key == key && this.opts == PutOptions(contentType, metadata, NO_CONDITIONS)
      ensures parts == map[] && !done && commits == []
    {
      this.b, this.key, this.opts := b, key, PutOptions(contentType, metadata, NO_CONDITIONS);
      parts, done, commits := map[], false, [];
    }

    ghost predicate Valid()
      reads this, b
    {
      b.TempsFresh() && opts.conditions == NO_CONDITIONS && PartsOnDisk(b.hs, b.tmp, parts) &&
      (done ==> parts == map[]) &&
      |commits| <= 1 && (commits != [] ==> done)
    }

    /** The upload as a state of the step machine in which it is the only one and no handler is at work. */
    ghost function View(id: Id, listed: bool): State
      reads this, b
    {
      StateOf(b.tmp, parts, done, commits, id, listed, b.nextTemp)
    }

    /** The invariant of the step machine holds of it. */
    lemma ViewIsGood(id: Id, listed: bool)
      requires Valid()
      ensures Multipart.Good(b.hs, View(id, listed))
    {
      StateIsGood(b.hs, b.tmp, parts, done, commits, id, listed, b.nextTemp);
    }

    /** removePartsLocked */
    method RemoveParts()
      modifies this`parts, b`tmp
      ensures parts == map[] && b.tmp == old(b.tmp) - PathsOf(old(parts))
    {
      var left: set<int> := parts.Keys;
      ghost var removed: set<Path> := {};
      while left != {}
        invariant left <= parts.Keys && parts == old(parts)
        invariant removed == set n | n in parts && n !in left :: parts[n].path
        invariant b.tmp == old(b.tmp) - removed
        decreases |left|
      {
        HasMember(left);
        var n :| n in left;
        removed := removed + {parts[n].path};
        b.tmp := b.tmp - {parts[n].path};
        left := left - {n};
      }
      assert removed == PathsOf(parts);
      parts := map[];
    }

    method UploadPart(number: int, body: Bytes, broken: bool, ghost id: Id, ghost tid: Tid) returns (r: Reply)
      requires Valid()
      modifies this`parts, b`tmp, b`nextTemp
      ensures Valid() && done == old(done)
      ensures r == if !(1 <= number <= 10000) then InvalidArgument
                   else if broken then InternalError
                   else if done then NoSuchUpload
                   else Done
      ensures !r.Done? ==> parts == old(parts) && b.tmp == old(b.tmp)
      ensures r.Done? ==>
                number in parts && parts == old(parts)[number := parts[number]] &&
                parts[number].path !in old(b.tmp) && parts[number].md5 == b.hs.md5(body) &&
                parts[number].size == |body| &&
                b.tmp == WithoutPart(old(b.tmp), old(parts), number)[parts[number].path := body]
      ensures View(id, true) == RunFrom(b.hs, old(View(id, true)), PartSteps(tid, id, number, body, broken))
    {
      hide PartsOnDisk, WithoutPart, RunFrom, PartSteps, Multipart.Run, Owners, StagedFiles;
      PartIsRun(b.hs, b.tmp, parts, done, commits, id, b.nextTemp, tid, number, body, broken);
      if !(1 <= number <= 10000) {
        return InvalidArgument;
      }
      ghost var staged := b.tmp;
      var t := b.TempFile();
      b.tmp := b.tmp[t := body];
      TempCycle(staged, b.tmp, t, body);
      if broken {
        b.tmp := b.tmp - {t};
        return InternalError;
      }
      var part := Part(t, |body|, b.hs.md5(body));
      if done {
        b.tmp := b.tmp - {part.path};
        return NoSuchUpload;
      }
      PartReplaced(b.hs, staged, parts, number, t, body);
      if number in parts {
        b.tmp := b.tmp - {parts[number].path};
      }
      parts := parts[number := part];
      return Done;
    }

    /** sort.SliceIsSorted by part number: equal numbers may follow each other. */
    method IsSorted(req: seq<PartRef>) returns (sorted: bool)
      ensures sorted == Ascending(req)
    {
      var i := |req| - 1;
      while i > 0
        invariant i < |req|
        invariant forall j :: i < j < |req| && j > 0 ==> req[j - 1].number <= req[j].number
      {
        if req[i].number < req[i - 1].number {
          return false;
        }
        i := i - 1;
      }
      return true;
    }

    /** The first part of the request that is missing or whose ETag does not match, if any. */
    method CheckParts(req: seq<PartRef>) returns (bad: Option<int>)
      ensures bad.None? <==> AllCheck(parts, req)
      ensures bad.None? <==>
                forall i :: 0 <= i < |req| ==>
                  req[i].number in parts && (req[i].tag == [] || req[i].tag == parts[req[i].number].md5)
      ensures bad.Some? ==>
                exists i :: 0 <= i < |req| && req[i].number == bad.value &&
                            !Checks(parts, req[i]) && AllCheck(parts, req[..i])
    {
      var i := 0;
      while i < |req|
        invariant 0 <= i <= |req| && AllCheck(parts, req[..i])
      {
        if req[i].number !in parts {
          return Some(req[i].number);
        }
        if req[i].tag != [] && req[i].tag != parts[req[i].number].md5 {
          return Some(req[i].number);
        }
        assert Checks(parts, req[i]);
        i := i + 1;
      }
      assert req[..i] == req;
      return None;
    }

    /** Streams the parts into a writer, in request order; opening or reading one of them may fail. */
    method CopyParts(w: BlobWriter, req: seq<PartRef>, failAt: Option<nat>) returns (ok: bool)
      requires w.b == b && w.Valid() && !w.done && w.hashed == [] && AllCheck(parts, req)
      requires forall n :: n in parts ==> parts[n].path in b.tmp && parts[n].path != w.temp
      modifies w`hashed, w`size, b`tmp
      ensures w.Valid() && !w.done && b.tmp == old(b.tmp)[w.temp := w.hashed]
      ensures ok <==> failAt.None? || failAt.value >= |req|
      ensures ok ==> w.hashed == Joined(old(b.tmp), parts, req)
    {
      var i := 0;
      assert b.tmp == b.tmp[w.temp := w.hashed];
      while i < |req|
        invariant 0 <= i <= |req|
        invariant failAt.Some? ==> failAt.value >= i
        invariant w.Valid() && !w.done && b.tmp == old(b.tmp)[w.temp := w.hashed]
        invariant w.hashed == Joined(old(b.tmp), parts, req[..i])
      {
        if failAt == Some(i) {
          return false;
        }
        assert Checks(parts, req[i]);
        var path := parts[req[i].number].path;
        var content := b.tmp[path];
        assert req[..i + 1][..i] == req[..i];
        var n, err := w.Write(content, |content|);
        assert content[..|content|] == content;
        i := i + 1;
      }
      assert req[..i] == req;
      return true;
    }

    /** Joins the checked parts and commits them; the staged files and the upload stay as they are. */
    method CommitParts(req: seq<PartRef>, failAt: Option<nat>, now: int, fault: Fault, ghost used: set<Bytes>)
      returns (r: Reply)
      requires Valid() && b.Healthy(used) && CollisionFree(b.hs, used) && AllCheck(parts, req)
      requires Joined(b.tmp, parts, req) in used
      modifies b
      ensures b.TempsFresh() && b.Healthy(used) && b.tmp == old(b.tmp)
      ensures r.Done? || r.InternalError? || r.Refused?
      ensures r.Done? <==>
                (failAt.None? || failAt.value >= |req|) &&
                !FailsEarly(b.hs, old(b.OnDisk()), key, Joined(old(b.tmp), parts, req), fault) && !TxFails(fault)
      ensures b.View() == if r.Done?
                          then old(b.View())[key := Object(Joined(old(b.tmp), parts, req),
                                                           NewAttributes(CasRun.Current(old(b.View()), key), opts,
                                                             now))]
                          else old(b.View())
    {
      hide CasRun.Good, Cas.View, CasRun.Run, CommitSteps, CasRun.Current, NewAttributes, NewRow, FailsEarly, Joined,
        AllCheck, Ascending, PathsOf, Passes, CollisionFree;
      NothingAsked(CasRun.Current(b.View(), key));
      var w := new BlobWriter(b);
      JoinedElsewhere(old(b.tmp), b.tmp, parts, req);
      var copied := CopyParts(w, req, failAt);
      if !copied {
        w.Abort();
        return InternalError;
      }
      var result := w.Commit(key, opts, now, fault, used);
      if result.Err? {
        return Refused(result.error);
      }
      RowAttributes(b.hs, w.hashed, NewAttributes(CasRun.Current(old(b.View()), key), opts, now));
      return Done;
    }

    method Complete(req: seq<PartRef>, failAt: Option<nat>, now: int, fault: Fault, ghost used: set<Bytes>,
                    ghost id: Id, ghost tid: Tid)
      returns (r: Reply)
      requires Valid() && b.Healthy(used) && CollisionFree(b.hs, used) && Joined(b.tmp, parts, req) in used
      modifies this`parts, this`done, this`commits, b
      ensures Valid() && b.Healthy(used)
      ensures r.Done? <==>
                req != [] && Ascending(req) && !old(done) && AllCheck(old(parts), req) &&
                (failAt.None? || failAt.value >= |req|) &&
                !FailsEarly(b.hs, old(b.OnDisk()), key, Joined(old(b.tmp), old(parts), req), fault) && !TxFails(fault)
      ensures r.Done? ==>
                done && b.tmp == old(b.tmp) - PathsOf(old(parts)) &&
                b.View() == old(b.View())[key := Object(Joined(old(b.tmp), old(parts), req),
                                                        NewAttributes(CasRun.Current(old(b.View()), key), opts, now))]
      ensures !r.Done? ==> done == old(done) && parts == old(parts) && b.tmp == old(b.tmp) && b.View() == old(b.View())
      ensures r == InvalidPartOrder <==> req != [] && !Ascending(req)
      ensures r.Done? ==>
                key in b.View() && var o := b.View()[key];
                o.attributes.contentType == opts.contentType && o.attributes.metadata == opts.metadata &&
                o.attributes.metageneration == 1 && o.attributes.created == now == o.attributes.updated &&
                var before := old(b.View());
                o.attributes.generation == if key in before && before[key].attributes.generation >= now
                                           then before[key].attributes.generation + 1 else now
      ensures r == InvalidRequest <==> req == []
      ensures r == NoSuchUpload <==> req != [] && Ascending(req) && old(done)
      ensures r.InvalidPart? <==> req != [] && Ascending(req) && !old(done) && !AllCheck(old(parts), req)
      ensures r.InvalidPart? <==>
                req != [] && Ascending(req) && !old(done) &&
                exists i :: 0 <= i < |req| &&
                            (req[i].number !in old(parts) ||
                             (req[i].tag != [] && req[i].tag != old(parts)[req[i].number].md5))
      ensures r.InvalidPart? ==>
                exists i :: 0 <= i < |req| && req[i].number == r.number &&
                            !Checks(old(parts), req[i]) && AllCheck(old(parts), req[..i])
      ensures View(id, !r.Done?) ==
              RunFrom(b.hs, old(View(id, true)), CompleteSteps(tid, id, req, failAt, r.Done?)).(nextPath := b.nextTemp)
    {
      hide RunFrom, CompleteSteps, Multipart.Run, Owners, StagedFiles, PartsOnDisk, CasRun.Good, Cas.View, CasRun.Run,
        CasRun.Current, NewAttributes, FailsEarly, Joined,
        AllCheck, Ascending, PathsOf, CollisionFree;
      CompleteIsRun(b.hs, b.tmp, parts, done, commits, id, b.nextTemp, tid, req, failAt, false);
      CompleteIsRun(b.hs, b.tmp, parts, done, commits, id, b.nextTemp, tid, req, failAt, true);
      ghost var content := Joined(b.tmp, parts, req);
      if req == [] {
        return InvalidRequest;
      }
      var sorted := IsSorted(req);
      if !sorted {
        return InvalidPartOrder;
      }
      if done {
        return NoSuchUpload;
      }
      var bad := CheckParts(req);
      if bad.Some? {
        return InvalidPart(bad.value);
      }
      r := CommitParts(req, failAt, now, fault, used);
      if r.Done? {
        done, commits := true, commits + [content];
        NothingStaged(b.hs, b.tmp - PathsOf(parts));
        RemoveParts();
      }
    }

    /** Marks the upload finished and removes its parts, whatever state it is in. */
    method Abort(ghost id: Id, ghost tid: Tid)
      requires Valid()
      modifies this`parts, this`done, b`tmp
      ensures Valid() && done && parts == map[] && b.tmp == old(b.tmp) - PathsOf(old(parts))
      ensures View(id, false) == RunFrom(b.hs, old(View(id, true)), AbortSteps(tid, id))
    {
      hide RunFrom, AbortSteps, Owners, StagedFiles;
      AbortIsRun(b.hs, b.tmp, parts, done, commits, id, b.nextTemp, tid);
      done := true;
      RemoveParts();
    }
  }
}
