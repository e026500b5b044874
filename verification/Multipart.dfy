/** S3 multipart uploads as a step machine: any number of part uploads, completions and aborts, interleaved. */
module Multipart {
  import opened ByteStrings
  import opened Types

  type Id = Bytes
  type Path = nat
  type Tid = nat

  datatype Part = Part(path: Path, size: nat, md5: Bytes)

  /** A part named in a completion request; the tag is the unquoted ETag, in the form in which md5 sums are compared. */
  datatype PartRef = PartRef(number: int, tag: Bytes)

  /** What a request handler has done so far. Those past CheckParts hold the upload's lock until they end. */
  datatype Thread =
    | Writing(id: Id, number: int, path: Path)
    | Staged(id: Id, number: int, part: Part)
    | Completing(id: Id, req: seq<PartRef>)
    | Copying(id: Id, req: seq<PartRef>, copied: nat, content: Bytes)
    | Cleaning(id: Id)
    | Unlisting(id: Id)
    | Aborting(id: Id)
    | Leaving(id: Id)

  datatype Upload = Upload(parts: map<int, Part>, done: bool, holder: Option<Tid>, commits: seq<Bytes>)

  /** Who is to remove a staged file: the handler that writes it, or the upload that it is a part of. */
  datatype Owner = ByThread(tid: Tid) | ByPart(id: Id, number: int)

  /** `owner` is bookkeeping of the model; no step reads it. */
  datatype State = State(
    files: map<Path, Bytes>,
    owner: map<Path, Owner>,
    uploads: map<Id, Upload>,
    listed: set<Id>,
    threads: map<Tid, Thread>,
    nextPath: Path)

  datatype Event =
    | Initiate(id: Id)
    | BeginPart(tid: Tid, id: Id, number: int)
    | WritePart(tid: Tid, bytes: Bytes)
    | ClosePart(tid: Tid)
    | FailPart(tid: Tid)
    | InstallPart(tid: Tid)
    | BeginComplete(tid: Tid, id: Id, req: seq<PartRef>)
    | CheckParts(tid: Tid)
    | CopyPart(tid: Tid)
    | FailCopy(tid: Tid)
    | CommitObject(tid: Tid, ok: bool)
    | CleanUp(tid: Tid)
    | Unlist(tid: Tid)
    | BeginAbort(tid: Tid, id: Id)
    | AbortParts(tid: Tid)

  const INITIAL := State(map[], map[], map[], {}, map[], 0)

  predicate Ascending(req: seq<PartRef>)
  {
    forall i :: 0 < i < |req| ==> req[i - 1].number <= req[i].number
  }

  predicate Checks(parts: map<int, Part>, r: PartRef)
  {
    r.number in parts && (r.tag != [] ==> r.tag == parts[r.number].md5)
  }

  predicate AllCheck(parts: map<int, Part>, req: seq<PartRef>)
  {
    forall i :: 0 <= i < |req| ==> Checks(parts, req[i])
  }

  function PathsOf(parts: map<int, Part>): set<Path>
  {
    set n | n in parts :: parts[n].path
  }

  function End(s: State, tid: Tid): State
  {
    s.(threads := s.threads - {tid})
  }

  function SetThread(s: State, tid: Tid, t: Thread): State
  {
    s.(threads := s.threads[tid := t])
  }

  function SetUpload(s: State, id: Id, u: Upload): State
  {
    s.(uploads := s.uploads[id := u])
  }

  function RemoveFiles(s: State, ps: set<Path>): State
  {
    s.(files := s.files - ps, owner := s.owner - ps)
  }

  /** The upload of a handler is free for it to lock. */
  predicate CanLock(s: State, id: Id)
  {
    id in s.uploads && s.uploads[id].holder.None?
  }

  function Release(s: State, tid: Tid, id: Id): State
  {
    if id in s.uploads then End(SetUpload(s, id, s.uploads[id].(holder := None)), tid) else End(s, tid)
  }

  /** uploadPart under the lock: a finished upload turns the part away, and a part replaces its predecessor. */
  function Install(s: State, tid: Tid, t: Thread): State
    requires t.Staged? && t.id in s.uploads
  {
    var u := s.uploads[t.id];
    if u.done then End(RemoveFiles(s, {t.part.path}), tid)
    else
      var gone := if t.number in u.parts then {u.parts[t.number].path} else {};
      var s1 := RemoveFiles(s, gone);
      var s2 := SetUpload(s1, t.id, u.(parts := u.parts[t.number := t.part]));
      End(s2.(owner := s2.owner[t.part.path := ByPart(t.id, t.number)]), tid)
  }

  /** removePartsLocked, with the upload marked done. */
  function Finish(s: State, id: Id): State
    requires id in s.uploads
  {
    var u := s.uploads[id];
    SetUpload(RemoveFiles(s, PathsOf(u.parts)), id, u.(done := true, parts := map[]))
  }

  /** The start of a request: a fresh handler, and an upload that is listed. */
  function Begin(s: State, e: Event): State
  {
    match e
    case Initiate(id) =>
      if id in s.uploads then s
      else s.(uploads := s.uploads[id := Upload(map[], false, None, [])], listed := s.listed + {id})
    case BeginPart(tid, id, number) =>
      if tid in s.threads || id !in s.listed || !(1 <= number <= 10000) then s
      else
        SetThread(s, tid, Writing(id, number, s.nextPath))
        .(files := s.files[s.nextPath := []], owner := s.owner[s.nextPath := ByThread(tid)], nextPath := s.nextPath + 1)
    case BeginComplete(tid, id, req) =>
      if tid in s.threads || id !in s.listed || req == [] || !Ascending(req) then s
      else SetThread(s, tid, Completing(id, req))
    case BeginAbort(tid, id) =>
      if tid in s.threads || id !in s.listed then s else SetThread(s, tid, Aborting(id))
    case _ => s
  }

  /** A step of the handler `t`, which is registered as `tid`. */
  function Proceed(s: State, tid: Tid, t: Thread, e: Event): State
  {
    match (e, t)
    case (WritePart(_, bytes), Writing(_, _, path)) =>
      if path in s.files then s.(files := s.files[path := s.files[path] + bytes]) else s
    case (FailPart(_), Writing(_, _, path)) => End(RemoveFiles(s, {path}), tid)
    case (InstallPart(_), Staged(id, _, _)) => if CanLock(s, id) then Install(s, tid, t) else s
    case (CheckParts(_), Completing(id, req)) =>
      if !CanLock(s, id) then s
      else if s.uploads[id].done || !AllCheck(s.uploads[id].parts, req) then End(s, tid)
      else SetThread(SetUpload(s, id, s.uploads[id].(holder := Some(tid))), tid, Copying(id, req, 0, []))
    case (CopyPart(_), Copying(id, req, k, content)) =>
      if k < |req| && id in s.uploads && req[k].number in s.uploads[id].parts &&
         s.uploads[id].parts[req[k].number].path in s.files
      then SetThread(s, tid, Copying(id, req, k + 1, content + s.files[s.uploads[id].parts[req[k].number].path]))
      else s
    case (FailCopy(_), Copying(id, _, _, _)) => Release(s, tid, id)
    case (CommitObject(_, ok), Copying(id, req, k, content)) =>
      if k < |req| || id !in s.uploads then s
      else if !ok then Release(s, tid, id)
      else SetThread(SetUpload(s, id, s.uploads[id].(commits := s.uploads[id].commits + [content])), tid, Cleaning(id))
    case (CleanUp(_), Cleaning(id)) =>
      if id in s.uploads then SetThread(Finish(s, id), tid, Unlisting(id)) else s
    case (Unlist(_), Unlisting(id)) => Release(s.(listed := s.listed - {id}), tid, id)
    case (AbortParts(_), Aborting(id)) =>
      if CanLock(s, id) then SetThread(Finish(s, id), tid, Leaving(id)) else s
    case (Unlist(_), Leaving(id)) => End(s.(listed := s.listed - {id}), tid)
    case _ => s
  }

  /** Closing the file fixes the part's size and md5. */
  function Close(hs: Hashers, s: State, tid: Tid): State
  {
    if tid in s.threads && s.threads[tid].Writing? && s.threads[tid].path in s.files then
      var t := s.threads[tid];
      var content := s.files[t.path];
      SetThread(s, tid, Staged(t.id, t.number, Part(t.path, |content|, hs.md5(content))))
    else s
  }

  predicate Begins(e: Event)
  {
    e.Initiate? || e.BeginPart? || e.BeginComplete? || e.BeginAbort?
  }

  /** An event that is not possible in the state changes nothing. */
  function Apply(hs: Hashers, s: State, e: Event): State
  {
    if Begins(e) then Begin(s, e)
    else if e.ClosePart? then Close(hs, s, e.tid)
    else if e.tid in s.threads then Proceed(s, e.tid, s.threads[e.tid], e)
    else s
  }

  function Run(hs: Hashers, events: seq<Event>): State
  {
    if events == [] then INITIAL else Apply(hs, Run(hs, events[..|events| - 1]), events[|events| - 1])
  }

  // --- the invariant -----------------------------------------------------------------------------------

  function FileOf(t: Thread): Option<Path>
  {
    match t
    case Writing(_, _, path) => Some(path)
    case Staged(_, _, part) => Some(part.path)
    case _ => None
  }

  predicate Holds(t: Thread)
  {
    t.Copying? || t.Cleaning? || t.Unlisting?
  }

  /** Every staged file has one owner, which knows it. */
  predicate Owned(s: State)
  {
    s.owner.Keys == s.files.Keys &&
    (forall p :: p in s.files ==> p < s.nextPath) &&
    (forall p :: p in s.owner ==>
      match s.owner[p]
      case ByThread(tid) => tid in s.threads && FileOf(s.threads[tid]) == Some(p)
      case ByPart(id, n) => id in s.uploads && n in s.uploads[id].parts && s.uploads[id].parts[n].path == p) &&
    (forall tid :: tid in s.threads && FileOf(s.threads[tid]).Some? ==>
      FileOf(s.threads[tid]).value in s.owner && s.owner[FileOf(s.threads[tid]).value] == ByThread(tid)) &&
    (forall id, n :: id in s.uploads && n in s.uploads[id].parts ==>
      s.uploads[id].parts[n].path in s.owner && s.owner[s.uploads[id].parts[n].path] == ByPart(id, n))
  }

  predicate Describes(hs: Hashers, s: State, p: Part)
  {
    p.path in s.files && p.md5 == hs.md5(s.files[p.path]) && p.size == |s.files[p.path]|
  }

  predicate Described(hs: Hashers, s: State)
  {
    (forall id, n :: id in s.uploads && n in s.uploads[id].parts ==> Describes(hs, s, s.uploads[id].parts[n])) &&
    (forall tid :: tid in s.threads && s.threads[tid].Staged? ==> Describes(hs, s, s.threads[tid].part))
  }

  predicate Locked(s: State)
  {
    s.listed <= s.uploads.Keys &&
    (forall tid :: tid in s.threads ==> s.threads[tid].id in s.uploads) &&
    (forall tid :: tid in s.threads && Holds(s.threads[tid]) ==> s.uploads[s.threads[tid].id].holder == Some(tid)) &&
    (forall id :: id in s.uploads && s.uploads[id].holder.Some? ==>
      s.uploads[id].holder.value in s.threads && Holds(s.threads[s.uploads[id].holder.value]) &&
      s.threads[s.uploads[id].holder.value].id == id)
  }

  /** The staged contents that a list of part numbers stands for, one after the other. */
  function Joined(files: map<Path, Bytes>, parts: map<int, Part>, req: seq<PartRef>): Bytes
  {
    if req == [] then []
    else
      var r := req[|req| - 1];
      Joined(files, parts, req[..|req| - 1]) +
      (if r.number in parts && parts[r.number].path in files then files[parts[r.number].path] else [])
  }

  /** A finished upload has no parts, and a commit is made once, right before the upload is finished. */
  predicate UploadOk(s: State, id: Id)
    requires id in s.uploads
  {
    var u := s.uploads[id];
    (u.done ==> u.parts == map[]) && |u.commits| <= 1 &&
    (u.commits != [] ==>
      u.done || (u.holder.Some? && u.holder.value in s.threads && s.threads[u.holder.value].Cleaning?))
  }

  /** A completion under way has copied the first of its checked parts. */
  predicate ThreadOk(s: State, tid: Tid)
    requires tid in s.threads
  {
    match s.threads[tid]
    case Copying(id, req, k, content) =>
      id in s.uploads && !s.uploads[id].done && s.uploads[id].commits == [] && AllCheck(s.uploads[id].parts, req) &&
      Ascending(req) && k <= |req| && content == Joined(s.files, s.uploads[id].parts, req[..k])
    case Completing(_, req) => Ascending(req)
    case Unlisting(id) => id in s.uploads && s.uploads[id].done
    case _ => true
  }

  predicate Progresses(s: State)
  {
    (forall id :: id in s.uploads ==> UploadOk(s, id)) && (forall tid :: tid in s.threads ==> ThreadOk(s, tid))
  }

  predicate Good(hs: Hashers, s: State)
  {
    Owned(s) && Described(hs, s) && Locked(s) && Progresses(s)
  }

  /** Handlers without a file may come, go and change. */
  lemma {:induction false} OwnedSetThread(s: State, tid: Tid, t: Thread)
    requires Owned(s) && FileOf(t).None? && (tid in s.threads ==> FileOf(s.threads[tid]).None?)
    ensures Owned(SetThread(s, tid, t)) && Owned(End(s, tid))
  {
  }

  /** Locks, marks and commits of an upload do not matter to its files. */
  lemma {:induction false} OwnedSetUpload(s: State, id: Id, u: Upload)
    requires Owned(s) && id in s.uploads && u.parts == s.uploads[id].parts
    ensures Owned(SetUpload(s, id, u))
  {
  }

  lemma {:induction false} OwnedNewFile(s: State, tid: Tid, t: Thread)
    requires Owned(s) && tid !in s.threads && FileOf(t) == Some(s.nextPath)
    ensures Owned(SetThread(s, tid, t)
                  .(files := s.files[s.nextPath := []], owner := s.owner[s.nextPath := ByThread(tid)],
                    nextPath := s.nextPath + 1))
  {
    assert s.nextPath !in s.files;
  }

  lemma {:induction false} OwnedInitiate(s: State, id: Id)
    requires Owned(s)
    ensures Owned(Begin(s, Initiate(id)))
  {
  }

  lemma {:induction false} OwnedAfterBegin(s: State, e: Event)
    requires Owned(s)
    ensures Owned(Begin(s, e))
  {
    hide Owned, Ascending;
    match e
    case BeginPart(tid, id, number) => if tid !in s.threads { OwnedNewFile(s, tid, Writing(id, number, s.nextPath)); }
    case Initiate(id) => OwnedInitiate(s, id);
    case BeginComplete(tid, id, req) => if tid !in s.threads { OwnedSetThread(s, tid, Completing(id, req)); }
    case BeginAbort(tid, id) => if tid !in s.threads { OwnedSetThread(s, tid, Aborting(id)); }
    case _ =>
  }

  function DropPart(s: State, id: Id, n: int): State
    requires id in s.uploads && n in s.uploads[id].parts
  {
    var u := s.uploads[id];
    SetUpload(RemoveFiles(s, {u.parts[n].path}), id, u.(parts := u.parts - {n}))
  }

  lemma {:induction false} OwnedDropPart(s: State, id: Id, n: int)
    requires Owned(s) && id in s.uploads && n in s.uploads[id].parts
    ensures Owned(DropPart(s, id, n))
  {
  }

  lemma {:induction false} OwnedAddPart(s: State, tid: Tid, t: Thread)
    requires Owned(s) && tid in s.threads && s.threads[tid] == t && t.Staged? && t.id in s.uploads
    requires !s.uploads[t.id].done && t.number !in s.uploads[t.id].parts
    ensures Owned(Install(s, tid, t))
  {
    assert t.part.path in s.owner && s.owner[t.part.path] == ByThread(tid);
    assert s.files - {} == s.files && s.owner - {} == s.owner;
  }

  lemma ReplaceIsDropAndAdd(s: State, tid: Tid, t: Thread)
    requires t.Staged? && t.id in s.uploads && !s.uploads[t.id].done && t.number in s.uploads[t.id].parts
    ensures Install(s, tid, t) == Install(DropPart(s, t.id, t.number), tid, t)
  {
    var parts, n := s.uploads[t.id].parts, t.number;
    var d := DropPart(s, t.id, n);
    assert (parts - {n})[n := t.part] == parts[n := t.part];
    assert d.files - {} == d.files && d.owner - {} == d.owner;
    assert d.uploads[t.id := s.uploads[t.id].(parts := parts[n := t.part])] ==
           s.uploads[t.id := s.uploads[t.id].(parts := parts[n := t.part])];
  }

  /** A part moves from its handler to its upload, in place of the one before it. */
  lemma {:induction false} OwnedAfterHandOver(s: State, tid: Tid, t: Thread)
    requires Owned(s) && tid in s.threads && s.threads[tid] == t && t.Staged? && t.id in s.uploads
    requires !s.uploads[t.id].done
    ensures Owned(Install(s, tid, t))
  {
    hide Owned, Install;
    if t.number in s.uploads[t.id].parts {
      OwnedDropPart(s, t.id, t.number);
      ReplaceIsDropAndAdd(s, tid, t);
      OwnedAddPart(DropPart(s, t.id, t.number), tid, t);
    } else {
      OwnedAddPart(s, tid, t);
    }
  }

  lemma {:induction false} OwnedAfterInstall(s: State, tid: Tid, t: Thread)
    requires Owned(s) && tid in s.threads && s.threads[tid] == t && t.Staged? && t.id in s.uploads
    ensures Owned(Install(s, tid, t))
  {
    hide Owned;
    if s.uploads[t.id].done {
      OwnedWhileWriting(s, tid, t.part.path, []);
    } else {
      OwnedAfterHandOver(s, tid, t);
    }
  }

  lemma {:induction false} OwnedAfterFinish(s: State, id: Id)
    requires Owned(s) && id in s.uploads
    ensures Owned(Finish(s, id))
  {
  }

  lemma {:induction false} OwnedAfterRelease(s: State, tid: Tid, id: Id)
    requires Owned(s) && tid in s.threads && FileOf(s.threads[tid]).None?
    ensures Owned(Release(s, tid, id))
  {
    hide Owned;
    if id in s.uploads {
      OwnedSetUpload(s, id, s.uploads[id].(holder := None));
      OwnedSetThread(SetUpload(s, id, s.uploads[id].(holder := None)), tid, s.threads[tid]);
    } else {
      OwnedSetThread(s, tid, s.threads[tid]);
    }
  }

  lemma {:induction false} OwnedWhileWriting(s: State, tid: Tid, path: Path, bytes: Bytes)
    requires Owned(s) && tid in s.threads && FileOf(s.threads[tid]) == Some(path)
    ensures path in s.files && Owned(s.(files := s.files[path := s.files[path] + bytes]))
    ensures Owned(End(RemoveFiles(s, {path}), tid))
  {
  }

  lemma {:induction false} OwnedAfterProceed(s: State, tid: Tid, t: Thread, e: Event)
    requires Owned(s) && tid in s.threads && s.threads[tid] == t
    ensures Owned(Proceed(s, tid, t, e))
  {
    hide Install, Finish, Release, Owned, Joined, AllCheck;
    match (e, t)
    case (WritePart(_, bytes), Writing(_, _, path)) => OwnedWhileWriting(s, tid, path, bytes);
    case (FailPart(_), Writing(_, _, path)) => OwnedWhileWriting(s, tid, path, []);
    case (InstallPart(_), Staged(id, _, _)) => if CanLock(s, id) { OwnedAfterInstall(s, tid, t); }
    case (CheckParts(_), Completing(id, req)) =>
      OwnedSetThread(s, tid, t);
      if CanLock(s, id) {
        var u := s.uploads[id].(holder := Some(tid));
        OwnedSetUpload(s, id, u);
        OwnedSetThread(SetUpload(s, id, u), tid, Copying(id, req, 0, []));
      }
    case (CommitObject(_, ok), Copying(id, _, _, content)) =>
      OwnedAfterRelease(s, tid, id);
      if id in s.uploads {
        var u := s.uploads[id].(commits := s.uploads[id].commits + [content]);
        OwnedSetUpload(s, id, u);
        OwnedSetThread(SetUpload(s, id, u), tid, Cleaning(id));
      }
    case (CopyPart(_), Copying(id, req, k, content)) =>
      if k < |req| && id in s.uploads && req[k].number in s.uploads[id].parts {
        var path := s.uploads[id].parts[req[k].number].path;
        if path in s.files {
          OwnedSetThread(s, tid, Copying(id, req, k + 1, content + s.files[path]));
        }
      }
    case (FailCopy(_), Copying(id, _, _, _)) => OwnedAfterRelease(s, tid, id);
    case (CleanUp(_), Cleaning(id)) => OwnedAfterFinishing(s, tid, id, Unlisting(id));
    case (AbortParts(_), Aborting(id)) => OwnedAfterFinishing(s, tid, id, Leaving(id));
    case (Unlist(_), Unlisting(id)) =>
      OwnedUnlist(s, id);
      OwnedAfterRelease(s.(listed := s.listed - {id}), tid, id);
    case (Unlist(_), Leaving(id)) =>
      OwnedUnlist(s, id);
      OwnedSetThread(s.(listed := s.listed - {id}), tid, t);
    case _ =>
  }

  lemma OwnedUnlist(s: State, id: Id)
    requires Owned(s)
    ensures Owned(s.(listed := s.listed - {id}))
  {
  }

  lemma {:induction false} OwnedAfterFinishing(s: State, tid: Tid, id: Id, t: Thread)
    requires Owned(s) && tid in s.threads && FileOf(s.threads[tid]).None? && FileOf(t).None?
    ensures id in s.uploads ==> Owned(SetThread(Finish(s, id), tid, t))
  {
    hide Owned, Finish;
    if id in s.uploads {
      OwnedAfterFinish(s, id);
      FinishKeepsThreads(s, id);
      OwnedSetThread(Finish(s, id), tid, t);
    }
  }

  lemma FinishKeepsThreads(s: State, id: Id)
    requires id in s.uploads
    ensures Finish(s, id).threads == s.threads && Finish(s, id).uploads.Keys == s.uploads.Keys
  {
  }

  lemma {:induction false} OwnedAfterEvent(hs: Hashers, s: State, e: Event)
    requires Owned(s)
    ensures Owned(Apply(hs, s, e))
  {
    hide Begin, Proceed;
    if Begins(e) {
      OwnedAfterBegin(s, e);
    } else if !e.ClosePart? && e.tid in s.threads {
      OwnedAfterProceed(s, e.tid, s.threads[e.tid], e);
    }
  }

  // --- staged contents do not change -----------------------------------------------------------------------

  predicate BeingWritten(s: State, p: Path)
  {
    p in s.owner && s.owner[p].ByThread? && s.owner[p].tid in s.threads && s.threads[s.owner[p].tid].Writing?
  }

  lemma {:induction false} FrozenInProceed(s: State, tid: Tid, t: Thread, e: Event, p: Path)
    requires tid in s.threads && s.threads[tid] == t && p in s.files && p in Proceed(s, tid, t, e).files
    requires FileOf(t) == Some(p) ==> !t.Writing?
    ensures Proceed(s, tid, t, e).files[p] == s.files[p]
  {
    hide Ascending, AllCheck, Joined;
  }

  lemma {:induction false} FrozenInBegin(s: State, e: Event, p: Path)
    requires p in s.files && p < s.nextPath
    ensures p in Begin(s, e).files && Begin(s, e).files[p] == s.files[p]
  {
    hide Ascending;
  }

  /** Only the handler that writes a file changes it; all that can happen to a staged one is its removal. */
  lemma {:induction false} ContentsFrozen(hs: Hashers, s: State, e: Event)
    requires Owned(s)
    ensures forall p :: p in s.files && p in Apply(hs, s, e).files && !BeingWritten(s, p) ==>
              Apply(hs, s, e).files[p] == s.files[p]
  {
    hide Begin, Proceed;
    forall p | p in s.files && p in Apply(hs, s, e).files && !BeingWritten(s, p)
      ensures Apply(hs, s, e).files[p] == s.files[p]
    {
      if Begins(e) {
        FrozenInBegin(s, e, p);
      } else if !e.ClosePart? && e.tid in s.threads {
        FrozenInProceed(s, e.tid, s.threads[e.tid], e, p);
      }
    }
  }

  /** A part is one that was there before or comes from the handler that staged it. */
  lemma {:induction false} PartOrigins(hs: Hashers, s: State, e: Event)
    ensures var s' := Apply(hs, s, e);
            forall id, n :: id in s'.uploads && n in s'.uploads[id].parts ==>
              (id in s.uploads && n in s.uploads[id].parts && s.uploads[id].parts[n] == s'.uploads[id].parts[n]) ||
              (e.InstallPart? && e.tid in s.threads && s.threads[e.tid].Staged? &&
               s.threads[e.tid].part == s'.uploads[id].parts[n])
  {
    hide Ascending, AllCheck;
  }

  lemma {:induction false} StagedOrigins(hs: Hashers, s: State, e: Event)
    ensures var s' := Apply(hs, s, e);
            forall tid :: tid in s'.threads && s'.threads[tid].Staged? ==>
              (tid in s.threads && s.threads[tid] == s'.threads[tid]) ||
              (e == ClosePart(tid) && s' == Close(hs, s, tid) && Describes(hs, s', s'.threads[tid].part))
  {
    hide Ascending, AllCheck;
  }

  lemma {:induction false} DescribedAfterEvent(hs: Hashers, s: State, e: Event)
    requires Owned(s) && Described(hs, s)
    ensures Described(hs, Apply(hs, s, e))
  {
    hide Apply, Describes;
    OwnedAfterEvent(hs, s, e);
    PartOrigins(hs, s, e);
    StagedOrigins(hs, s, e);
    var s' := Apply(hs, s, e);
    forall id, n | id in s'.uploads && n in s'.uploads[id].parts ensures Describes(hs, s', s'.uploads[id].parts[n]) {
      StaysDescribed(hs, s, e, s'.uploads[id].parts[n]);
    }
    forall tid | tid in s'.threads && s'.threads[tid].Staged? ensures Describes(hs, s', s'.threads[tid].part) {
      StaysDescribed(hs, s, e, s'.threads[tid].part);
    }
  }

  lemma {:induction false} StaysDescribed(hs: Hashers, s: State, e: Event, p: Part)
    requires Owned(s) && p.path in Apply(hs, s, e).files
    ensures Describes(hs, s, p) && !BeingWritten(s, p.path) ==> Describes(hs, Apply(hs, s, e), p)
  {
    hide Apply, Owned;
    ContentsFrozen(hs, s, e);
  }

  // --- locks ---------------------------------------------------------------------------------------------------

  predicate HoldsIn(s: State, tid: Tid, id: Id)
  {
    tid in s.threads && Holds(s.threads[tid]) && s.threads[tid].id == id
  }

  /** From s to s' only handler tid has moved, and of the locks at most that of id, which it has taken, kept or let
      go. */
  ghost predicate OneMoves(s: State, s': State, tid: Tid, id: Id)
  {
    s'.listed <= s.listed && s'.uploads.Keys == s.uploads.Keys &&
    (forall x :: x != tid ==>
      (x in s'.threads <==> x in s.threads) && (x in s.threads ==> s'.threads[x] == s.threads[x])) &&
    (tid in s.threads ==> s.threads[tid].id == id) && (tid in s'.threads ==> s'.threads[tid].id == id) &&
    id in s.uploads &&
    (forall i :: i in s.uploads && i != id ==> s'.uploads[i].holder == s.uploads[i].holder) &&
    (if HoldsIn(s', tid, id)
     then s'.uploads[id].holder == Some(tid) && s.uploads[id].holder in {None, Some(tid)}
     else s'.uploads[id].holder == if s.uploads[id].holder == Some(tid) then None else s.uploads[id].holder)
  }

  lemma {:induction false} LockedAfterMove(s: State, s': State, tid: Tid, id: Id)
    requires Locked(s) && OneMoves(s, s', tid, id)
    ensures Locked(s')
  {
  }

  lemma {:induction false} OneMovesInBegin(s: State, e: Event)
    requires Locked(s) && Begins(e) && !e.Initiate?
    ensures Begin(s, e) == s || OneMoves(s, Begin(s, e), e.tid, e.id)
  {
    hide Ascending;
  }

  lemma InstallKeepsLocks(s: State, tid: Tid, t: Thread)
    requires t.Staged? && t.id in s.uploads
    ensures var s' := Install(s, tid, t);
            s'.listed == s.listed && s'.uploads.Keys == s.uploads.Keys && s'.threads == s.threads - {tid} &&
            forall i :: i in s.uploads ==> s'.uploads[i].holder == s.uploads[i].holder
  {
  }

  lemma FinishKeepsLocks(s: State, id: Id)
    requires id in s.uploads
    ensures var s' := Finish(s, id);
            s'.listed == s.listed && s'.uploads.Keys == s.uploads.Keys && s'.threads == s.threads &&
            forall i :: i in s.uploads ==> s'.uploads[i].holder == s.uploads[i].holder
  {
  }

  lemma {:induction false} OneMovesInRelease(s: State, s': State, tid: Tid, id: Id)
    requires Locked(s) && HoldsIn(s, tid, id)
    requires s' == s || s' == s.(listed := s.listed - {id})
    ensures OneMoves(s, Release(s', tid, id), tid, id)
  {
  }

  lemma LockOf(s: State, tid: Tid)
    requires Locked(s) && tid in s.threads
    ensures var id := s.threads[tid].id;
            id in s.uploads && (s.uploads[id].holder == Some(tid) <==> Holds(s.threads[tid]))
  {
  }

  /** Handlers without the lock can at most take it. */
  lemma {:induction false} OneMovesWithoutLock(s: State, tid: Tid, t: Thread, e: Event)
    requires tid in s.threads && t == s.threads[tid] && t.id in s.uploads && !Holds(t) &&
             s.uploads[t.id].holder != Some(tid)
    ensures OneMoves(s, Proceed(s, tid, t, e), tid, t.id)
  {
    hide AllCheck, Install, Finish, Release;
    if t.Staged? {
      InstallKeepsLocks(s, tid, t);
    } else if t.Aborting? {
      FinishKeepsLocks(s, t.id);
    }
  }

  /** Handlers with the lock keep it or let it go. */
  lemma {:induction false} OneMovesWithLock(s: State, tid: Tid, t: Thread, e: Event)
    requires Locked(s) && tid in s.threads && t == s.threads[tid] && Holds(t)
    ensures OneMoves(s, Proceed(s, tid, t, e), tid, t.id)
  {
    hide Locked, Finish, Release;
    LockOf(s, tid);
    if t.Copying? {
      OneMovesInCopying(s, tid, t, e);
    } else if t.Cleaning? {
      FinishKeepsLocks(s, t.id);
    } else {
      OneMovesInRelease(s, s.(listed := s.listed - {t.id}), tid, t.id);
    }
  }

  lemma {:induction false} OneMovesInCopying(s: State, tid: Tid, t: Thread, e: Event)
    requires Locked(s) && tid in s.threads && t == s.threads[tid] && t.Copying?
    ensures OneMoves(s, Proceed(s, tid, t, e), tid, t.id)
  {
    hide Locked, Release;
    LockOf(s, tid);
    OneMovesInRelease(s, s, tid, t.id);
  }

  lemma {:induction false} OneMovesInProceed(s: State, tid: Tid, t: Thread, e: Event)
    requires Locked(s) && tid in s.threads && t == s.threads[tid]
    ensures OneMoves(s, Proceed(s, tid, t, e), tid, t.id)
  {
    hide Proceed, OneMoves, Locked;
    LockOf(s, tid);
    if Holds(t) {
      OneMovesWithLock(s, tid, t, e);
    } else {
      OneMovesWithoutLock(s, tid, t, e);
    }
  }

  lemma {:induction false} LockedAfterInitiate(s: State, id: Id)
    requires Locked(s)
    ensures Locked(Begin(s, Initiate(id)))
  {
  }

  lemma {:induction false} LockedAfterEvent(hs: Hashers, s: State, e: Event)
    requires Locked(s)
    ensures Locked(Apply(hs, s, e))
  {
    hide Proceed, Begin;
    if e.Initiate? {
      LockedAfterInitiate(s, e.id);
    } else if Begins(e) {
      OneMovesInBegin(s, e);
      if Begin(s, e) != s { LockedAfterMove(s, Begin(s, e), e.tid, e.id); }
    } else if e.tid in s.threads {
      var t := s.threads[e.tid];
      if e.ClosePart? {
        LockedAfterMove(s, Close(hs, s, e.tid), e.tid, t.id);
      } else {
        OneMovesInProceed(s, e.tid, t, e);
        LockedAfterMove(s, Proceed(s, e.tid, t, e), e.tid, t.id);
      }
    }
  }

  lemma {:induction false} BlockedByLock(s: State, tid: Tid, t: Thread, e: Event)
    requires tid in s.threads && s.threads[tid] == t && t.id in s.uploads
    requires !Holds(t) && s.uploads[t.id].holder.Some?
    ensures t.id in Proceed(s, tid, t, e).uploads && Proceed(s, tid, t, e).uploads[t.id] == s.uploads[t.id]
  {
    hide AllCheck, Joined, Ascending, Install, Finish, Release;
  }

  /** A handler changes no upload but its own, and no other handler. */
  lemma {:induction false} ElsewhereUntouched(s: State, tid: Tid, t: Thread, e: Event)
    requires tid in s.threads && s.threads[tid] == t && t.id in s.uploads
    ensures var s' := Proceed(s, tid, t, e);
            (forall id :: id in s.uploads && id != t.id ==> id in s'.uploads && s'.uploads[id] == s.uploads[id]) &&
            (forall x :: x in s.threads && x != tid ==> x in s'.threads && s'.threads[x] == s.threads[x]) &&
            s'.uploads.Keys == s.uploads.Keys
  {
    hide AllCheck, Joined, Ascending;
  }

  lemma BeginKeepsUploads(s: State, e: Event, id: Id)
    requires id in s.uploads
    ensures id in Begin(s, e).uploads && Begin(s, e).uploads[id] == s.uploads[id]
  {
    hide Ascending;
  }

  /** What a handler holds, nobody else changes. */
  lemma {:induction false} HeldUploadsStand(hs: Hashers, s: State, e: Event, id: Id)
    requires Locked(s) && id in s.uploads && s.uploads[id].holder.Some?
    requires Begins(e) || e.tid != s.uploads[id].holder.value
    ensures id in Apply(hs, s, e).uploads && Apply(hs, s, e).uploads[id] == s.uploads[id]
  {
    hide Begin, Proceed, Locked;
    if Begins(e) {
      BeginKeepsUploads(s, e, id);
    } else if e.tid in s.threads {
      LockOf(s, e.tid);
      ElsewhereUntouched(s, e.tid, s.threads[e.tid], e);
      if s.threads[e.tid].id == id {
        BlockedByLock(s, e.tid, s.threads[e.tid], e);
      }
    }
  }

  // --- progress ------------------------------------------------------------------------------------------------

  lemma {:induction false} JoinedElsewhere(files: map<Path, Bytes>, files': map<Path, Bytes>, parts: map<int, Part>,
                                           req: seq<PartRef>)
    requires forall n :: n in parts ==>
               var p := parts[n].path; p in files && p in files' && files'[p] == files[p]
    ensures Joined(files', parts, req) == Joined(files, parts, req)
    decreases |req|
  {
    if req != [] {
      JoinedElsewhere(files, files', parts, req[..|req| - 1]);
    }
  }

  lemma {:induction false} UploadsOnlyAdvance(s: State, tid: Tid, t: Thread, e: Event, id: Id)
    requires tid in s.threads && s.threads[tid] == t && id in s.uploads
    ensures var s' := Proceed(s, tid, t, e);
            id in s'.uploads && (s.uploads[id].done ==> s'.uploads[id].done) &&
            s.uploads[id].commits <= s'.uploads[id].commits
  {
    hide AllCheck, Joined, Ascending, PathsOf;
  }

  /** Finished uploads stay finished, and commits stand. */
  lemma {:induction false} UploadsAdvance(hs: Hashers, s: State, e: Event, id: Id)
    requires id in s.uploads
    ensures var s' := Apply(hs, s, e);
            id in s'.uploads && (s.uploads[id].done ==> s'.uploads[id].done) &&
            s.uploads[id].commits <= s'.uploads[id].commits
  {
    hide Proceed, Begin;
    if Begins(e) {
      BeginKeepsUploads(s, e, id);
    } else if e.tid in s.threads {
      UploadsOnlyAdvance(s, e.tid, s.threads[e.tid], e, id);
    }
  }

  /** A completion that somebody else interrupts finds its upload and the staged contents as they were. */
  lemma {:induction false} CopyUndisturbed(hs: Hashers, s: State, e: Event, tid: Tid)
    requires Good(hs, s) && tid in s.threads && s.threads[tid].Copying?
    requires Begins(e) || e.tid != tid
    ensures var s' := Apply(hs, s, e);
            tid in s'.threads && s'.threads[tid] == s.threads[tid] ==> ThreadOk(s', tid)
  {
    hide Apply, Described, AllCheck, Joined;
    var id := s.threads[tid].id;
    HeldUploadsStand(hs, s, e, id);
    OwnedAfterEvent(hs, s, e);
    ContentsFrozen(hs, s, e);
    assert ThreadOk(s, tid);
    JoinedElsewhere(s.files, Apply(hs, s, e).files, s.uploads[id].parts, s.threads[tid].req[..s.threads[tid].copied]);
  }

  /** The next part is appended to what has been copied. */
  lemma {:induction false} CopyGoesOn(s: State, tid: Tid, t: Thread, e: Event)
    requires Progresses(s) && tid in s.threads && s.threads[tid] == t
    requires t.Completing? || t.Copying?
    ensures tid in Proceed(s, tid, t, e).threads ==> ThreadOk(Proceed(s, tid, t, e), tid)
  {
    hide AllCheck, Ascending;
    assert ThreadOk(s, tid);
    if t.id in s.uploads {
      assert UploadOk(s, t.id);
    }
    if t.Copying? && t.copied < |t.req| {
      assert t.req[..t.copied + 1][..t.copied] == t.req[..t.copied];
    }
  }

  lemma {:induction false} ThreadsAfterEvent(hs: Hashers, s: State, e: Event, tid: Tid)
    requires Good(hs, s) && tid in Apply(hs, s, e).threads
    ensures ThreadOk(Apply(hs, s, e), tid)
  {
    hide Owned, Described, Locked, Joined, AllCheck, Ascending;
    var s' := Apply(hs, s, e);
    if Begins(e) || e.tid != tid {
      OthersStand(hs, s, e, tid);
      if tid in s.threads && s.threads[tid].Copying? {
        CopyUndisturbed(hs, s, e, tid);
      } else if tid in s.threads && s.threads[tid].Completing? {
        assert ThreadOk(s, tid);
      } else if tid in s.threads && s.threads[tid].Unlisting? {
        assert ThreadOk(s, tid);
        UploadsAdvance(hs, s, e, s.threads[tid].id);
      }
    } else {
      var t := s.threads[tid];
      if e.ClosePart? {
        assert s' == Close(hs, s, tid);
      } else if t.Completing? || t.Copying? {
        CopyGoesOn(s, tid, t, e);
      } else {
        OwnStep(s, tid, t, e);
      }
    }
  }

  /** A step of one handler leaves the others alone; a new one starts without the lock. */
  lemma OthersStand(hs: Hashers, s: State, e: Event, tid: Tid)
    requires tid in Apply(hs, s, e).threads && (Begins(e) || e.tid != tid)
    ensures if tid in s.threads then Apply(hs, s, e).threads[tid] == s.threads[tid]
            else
              var t := Apply(hs, s, e).threads[tid];
              !t.Copying? && !t.Unlisting? && (t.Completing? ==> Ascending(t.req))
  {
    hide AllCheck, Joined, Ascending;
  }

  lemma OwnStep(s: State, tid: Tid, t: Thread, e: Event)
    requires tid in s.threads && s.threads[tid] == t && !t.Completing? && !t.Copying? && ThreadOk(s, tid)
    requires tid in Proceed(s, tid, t, e).threads
    ensures ThreadOk(Proceed(s, tid, t, e), tid)
  {
    hide AllCheck, Joined, Ascending;
  }

  lemma {:induction false} OwnUploadOk(s: State, tid: Tid, t: Thread, e: Event)
    requires tid in s.threads && s.threads[tid] == t && t.id in s.uploads
    requires UploadOk(s, t.id) && ThreadOk(s, tid)
    requires s.uploads[t.id].holder == Some(tid) <==> Holds(t)
    requires t.id in Proceed(s, tid, t, e).uploads
    ensures UploadOk(Proceed(s, tid, t, e), t.id)
  {
    hide AllCheck, Joined, Ascending;
  }

  lemma {:induction false} UploadsAfterProceed(s: State, tid: Tid, t: Thread, e: Event, id: Id)
    requires Locked(s) && Progresses(s) && tid in s.threads && s.threads[tid] == t && id in s.uploads
    ensures id in Proceed(s, tid, t, e).uploads && UploadOk(Proceed(s, tid, t, e), id)
  {
    hide Proceed, ThreadOk;
    LockOf(s, tid);
    ElsewhereUntouched(s, tid, t, e);
    assert ThreadOk(s, tid) && UploadOk(s, id);
    if id == t.id {
      OwnUploadOk(s, tid, t, e);
    } else if s.uploads[id].holder.Some? {
      assert s.uploads[id].holder.value != tid;
    }
  }

  lemma {:induction false} UploadsAfterBegin(s: State, e: Event, id: Id)
    requires Begins(e) && id in Begin(s, e).uploads && (id in s.uploads ==> UploadOk(s, id))
    ensures UploadOk(Begin(s, e), id)
  {
    hide Ascending;
  }

  lemma {:induction false} UploadsAfterEvent(hs: Hashers, s: State, e: Event, id: Id)
    requires Locked(s) && Progresses(s) && id in Apply(hs, s, e).uploads
    ensures UploadOk(Apply(hs, s, e), id)
  {
    hide Locked, Begin, Proceed, ThreadOk;
    if Begins(e) {
      UploadsAfterBegin(s, e, id);
    } else if e.ClosePart? {
      assert UploadOk(s, id);
    } else if e.tid in s.threads {
      ElsewhereUntouchedKeys(s, e.tid, s.threads[e.tid], e);
      UploadsAfterProceed(s, e.tid, s.threads[e.tid], e, id);
    }
  }

  lemma ElsewhereUntouchedKeys(s: State, tid: Tid, t: Thread, e: Event)
    requires Locked(s) && tid in s.threads && s.threads[tid] == t
    ensures Proceed(s, tid, t, e).uploads.Keys == s.uploads.Keys
  {
    hide Proceed;
    LockOf(s, tid);
    ElsewhereUntouched(s, tid, t, e);
  }

  lemma {:induction false} GoodAfterEvent(hs: Hashers, s: State, e: Event)
    requires Good(hs, s)
    ensures Good(hs, Apply(hs, s, e))
  {
    hide Apply, Owned, Described, Locked, UploadOk, ThreadOk;
    OwnedAfterEvent(hs, s, e);
    DescribedAfterEvent(hs, s, e);
    LockedAfterEvent(hs, s, e);
    forall id | id in Apply(hs, s, e).uploads ensures UploadOk(Apply(hs, s, e), id) { UploadsAfterEvent(hs, s, e, id); }
    forall tid | tid in Apply(hs, s, e).threads ensures ThreadOk(Apply(hs, s, e), tid) {
      ThreadsAfterEvent(hs, s, e, tid);
    }
  }

  /** The invariant holds after every sequence of events. */
  lemma {:induction false} AlwaysGood(hs: Hashers, events: seq<Event>)
    ensures Good(hs, Run(hs, events))
    decreases |events|
  {
    hide Apply, Owned, Described, Locked, UploadOk, ThreadOk;
    if events == [] {
      InitIsGood(hs);
    } else {
      AlwaysGood(hs, events[..|events| - 1]);
      GoodAfterEvent(hs, Run(hs, events[..|events| - 1]), events[|events| - 1]);
    }
  }

  lemma InitIsGood(hs: Hashers)
    ensures Good(hs, INITIAL)
  {
  }

  // --- what the uploads promise ---------------------------------------------------------------------------------

  /** The staged files of unfinished uploads. */
  function PartFiles(s: State): set<Path>
  {
    set id, n | id in s.uploads && !s.uploads[id].done && n in s.uploads[id].parts :: s.uploads[id].parts[n].path
  }

  /** The files that part uploads under way have yet to hand over or to remove. */
  function HandlerFiles(s: State): set<Path>
  {
    set tid | tid in s.threads && FileOf(s.threads[tid]).Some? :: FileOf(s.threads[tid]).value
  }

  /** Conservation of staged files, in every reachable state: none is lost, shared or left behind. */
  lemma {:induction false} FilesAreConserved(hs: Hashers, events: seq<Event>)
    ensures var s := Run(hs, events);
            s.files.Keys == PartFiles(s) + HandlerFiles(s) && PartFiles(s) !! HandlerFiles(s) &&
            (forall a, b, m, n ::
              (a in s.uploads && b in s.uploads && m in s.uploads[a].parts && n in s.uploads[b].parts &&
               s.uploads[a].parts[m].path == s.uploads[b].parts[n].path) ==> a == b && m == n)
  {
    hide Run, Locked, Described, ThreadOk;
    var s := Run(hs, events);
    AlwaysGood(hs, events);
    forall p | p in s.files ensures p in PartFiles(s) + HandlerFiles(s) {
      match s.owner[p]
      case ByThread(tid) => assert FileOf(s.threads[tid]) == Some(p);
      case ByPart(id, n) => assert UploadOk(s, id) && s.uploads[id].parts[n].path == p;
    }
    forall p | p in PartFiles(s) ensures p in s.files && p !in HandlerFiles(s) {
      var id, n :| id in s.uploads && !s.uploads[id].done && n in s.uploads[id].parts &&
                 s.uploads[id].parts[n].path == p;
      assert s.owner[p] == ByPart(id, n);
    }
  }

  /** So a server without unfinished uploads and part handlers has no staged files. */
  lemma {:induction false} NothingLeftBehind(hs: Hashers, events: seq<Event>)
    requires var s := Run(hs, events);
             (forall id :: id in s.uploads ==> s.uploads[id].done) &&
             (forall tid :: tid in s.threads ==> FileOf(s.threads[tid]).None?)
    ensures Run(hs, events).files == map[]
  {
    hide Run;
    FilesAreConserved(hs, events);
    var s := Run(hs, events);
    assert PartFiles(s) == {} && HandlerFiles(s) == {};
  }

  /** A completion that commits does so with the staged parts in request order, each with the md5 it was checked for,
      and no other completion of that upload has committed before. */
  lemma {:induction false} CommitIsChecked(hs: Hashers, events: seq<Event>, tid: Tid)
    requires var s := Run(hs, events);
             tid in s.threads && s.threads[tid].Copying? && s.threads[tid].copied == |s.threads[tid].req|
    ensures var s := Run(hs, events);
            var t := s.threads[tid];
            t.id in s.uploads &&
            var parts := s.uploads[t.id].parts;
            var s' := Apply(hs, s, CommitObject(tid, true));
            t.id in s'.uploads && s'.uploads[t.id].commits == [Joined(s.files, parts, t.req)] &&
            Ascending(t.req) &&
            forall i :: 0 <= i < |t.req| ==>
              t.req[i].number in parts && parts[t.req[i].number].path in s.files &&
              (t.req[i].tag != [] ==> t.req[i].tag == hs.md5(s.files[parts[t.req[i].number].path]))
  {
    hide Run, Joined, Ascending, Owned, Locked;
    AlwaysGood(hs, events);
    var s := Run(hs, events);
    var t := s.threads[tid];
    assert ThreadOk(s, tid);
    assert t.req[..|t.req|] == t.req;
    forall i | 0 <= i < |t.req| ensures Checks(s.uploads[t.id].parts, t.req[i]) {}
  }

  lemma {:induction false} RunOn(hs: Hashers, before: seq<Event>, after: seq<Event>)
    requires after != []
    ensures Run(hs, before + after) == Apply(hs, Run(hs, before + after[..|after| - 1]), after[|after| - 1])
  {
    assert (before + after)[..|before + after| - 1] == before + after[..|after| - 1];
  }

  /** At most one completion of an upload succeeds, and what it committed stands. */
  lemma {:induction false} CommittedOnce(hs: Hashers, before: seq<Event>, after: seq<Event>, id: Id)
    requires id in Run(hs, before).uploads
    ensures id in Run(hs, before + after).uploads
    ensures Run(hs, before).uploads[id].commits <= Run(hs, before + after).uploads[id].commits
    ensures |Run(hs, before + after).uploads[id].commits| <= 1
    decreases |after|
  {
    hide Run, Apply, Owned, Described, Locked, ThreadOk;
    if after == [] {
      assert before + after == before;
    } else {
      var last := |after| - 1;
      CommittedOnce(hs, before, after[..last], id);
      RunOn(hs, before, after);
      UploadsAdvance(hs, Run(hs, before + after[..last]), after[last], id);
    }
    AlwaysGood(hs, before + after);
    assert UploadOk(Run(hs, before + after), id);
  }

  /** A completion that fails, at its check, while copying or in its commit, leaves the upload ready for another. */
  lemma {:induction false} FailureKeepsUpload(hs: Hashers, events: seq<Event>, tid: Tid, e: Event)
    requires tid in Run(hs, events).threads &&
             (Run(hs, events).threads[tid].Completing? || Run(hs, events).threads[tid].Copying?)
    requires e in {CheckParts(tid), FailCopy(tid), CommitObject(tid, false)}
    requires tid !in Apply(hs, Run(hs, events), e).threads
    ensures var s := Run(hs, events);
            var id := s.threads[tid].id;
            var s' := Apply(hs, s, e);
            s'.files == s.files && s'.listed == s.listed && id in s'.uploads && s'.uploads[id].holder.None? &&
            s'.uploads[id].parts == s.uploads[id].parts && s'.uploads[id].done == s.uploads[id].done &&
            s'.uploads[id].commits == s.uploads[id].commits
  {
    hide Run, Owned, Described, Joined, AllCheck, Progresses;
    AlwaysGood(hs, events);
    LockOf(Run(hs, events), tid);
  }
}
