/** A multipart handler from its first step to its last, when nothing comes in between. */
module MultipartSolo {
  import opened ByteStrings
  import opened Types
  import opened Multipart

  /** The events one after the other, from any state. */
  function RunFrom(hs: Hashers, s: State, events: seq<Event>): State
    decreases |events|
  {
    if events == [] then s else RunFrom(hs, Apply(hs, s, events[0]), events[1..])
  }

  lemma {:induction false} RunFromSplit(hs: Hashers, s: State, before: seq<Event>, after: seq<Event>)
    ensures RunFrom(hs, s, before + after) == RunFrom(hs, RunFrom(hs, s, before), after)
    decreases |before|
  {
    hide Apply;
    if before == [] {
      assert before + after == after;
    } else {
      assert (before + after)[1..] == before[1..] + after;
      RunFromSplit(hs, Apply(hs, s, before[0]), before[1..], after);
    }
  }

  /** So what a handler does in one go is part of a run. */
  lemma {:induction false} RunFromIsRun(hs: Hashers, before: seq<Event>, after: seq<Event>)
    ensures Run(hs, before + after) == RunFrom(hs, Run(hs, before), after)
    decreases |after|
  {
    hide Apply;
    if after == [] {
      assert before + after == before;
    } else {
      assert before + after == before + [after[0]] + after[1..];
      assert (before + [after[0]])[..|before|] == before;
      RunFromIsRun(hs, before + [after[0]], after[1..]);
    }
  }

  lemma {:induction false} RunOne(hs: Hashers, s: State, a: Event)
    ensures RunFrom(hs, s, [a]) == Apply(hs, s, a)
  {
    hide Apply;
    assert [a][1..] == [];
  }

  lemma {:induction false} RunTwo(hs: Hashers, s: State, a: Event, b: Event)
    ensures RunFrom(hs, s, [a, b]) == Apply(hs, Apply(hs, s, a), b)
  {
    hide Apply;
    assert [a, b][1..] == [b];
    RunOne(hs, Apply(hs, s, a), b);
  }

  lemma {:induction false} RunThree(hs: Hashers, s: State, a: Event, b: Event, c: Event)
    ensures RunFrom(hs, s, [a, b, c]) == Apply(hs, Apply(hs, Apply(hs, s, a), b), c)
  {
    hide Apply;
    assert [a, b, c][1..] == [b, c];
    RunTwo(hs, Apply(hs, s, a), b, c);
  }

  // --- the steps ---------------------------------------------------------------------------------------

  function PartSteps(tid: Tid, id: Id, number: int, body: Bytes, broken: bool): seq<Event>
  {
    [BeginPart(tid, id, number), WritePart(tid, body)] +
    (if broken then [FailPart(tid)] else [ClosePart(tid), InstallPart(tid)])
  }

  function Copies(tid: Tid, k: nat): seq<Event>
  {
    if k == 0 then [] else Copies(tid, k - 1) + [CopyPart(tid)]
  }

  /** Copying fails at part `failAt`, if there is one; `ok` is whether the writer's commit succeeds. */
  function CompleteSteps(tid: Tid, id: Id, req: seq<PartRef>, failAt: Option<nat>, ok: bool): seq<Event>
  {
    [BeginComplete(tid, id, req), CheckParts(tid)] +
    (if failAt.Some? && failAt.value < |req| then Copies(tid, failAt.value) + [FailCopy(tid)]
     else Copies(tid, |req|) + [CommitObject(tid, ok), CleanUp(tid), Unlist(tid)])
  }

  function AbortSteps(tid: Tid, id: Id): seq<Event>
  {
    [BeginAbort(tid, id), AbortParts(tid), Unlist(tid)]
  }

  /** A handler can start on this upload: it is listed, and nobody has locked it. */
  predicate Ready(s: State, tid: Tid, id: Id)
  {
    tid !in s.threads && id in s.listed && CanLock(s, id)
  }

  // --- what they come to ---------------------------------------------------------------------------------

  function Replaced(parts: map<int, Part>, number: int): set<Path>
  {
    if number in parts then {parts[number].path} else {}
  }

  function AfterPart(hs: Hashers, s: State, id: Id, number: int, body: Bytes, broken: bool): State
    requires id in s.uploads
  {
    var u, path := s.uploads[id], s.nextPath;
    if !(1 <= number <= 10000) then s
    else if broken || u.done then s.(nextPath := path + 1)
    else
      State((s.files - Replaced(u.parts, number))[path := body],
            (s.owner - Replaced(u.parts, number))[path := ByPart(id, number)],
            s.uploads[id := u.(parts := u.parts[number := Part(path, |body|, hs.md5(body))])],
            s.listed, s.threads, path + 1)
  }

  predicate CanComplete(u: Upload, req: seq<PartRef>)
  {
    req != [] && Ascending(req) && !u.done && AllCheck(u.parts, req)
  }

  function AfterComplete(s: State, id: Id, req: seq<PartRef>, failAt: Option<nat>, ok: bool): State
    requires id in s.uploads
  {
    var u := s.uploads[id];
    if !CanComplete(u, req) || (failAt.Some? && failAt.value < |req|) || !ok then s
    else Gone(s, id, u.commits + [Joined(s.files, u.parts, req)])
  }

  function AfterAbort(s: State, id: Id): State
    requires id in s.uploads
  {
    Gone(s, id, s.uploads[id].commits)
  }

  /** The upload is finished and no longer listed, and its files are removed. */
  function Gone(s: State, id: Id, commits: seq<Bytes>): State
    requires id in s.uploads
  {
    var u := s.uploads[id];
    State(s.files - PathsOf(u.parts), s.owner - PathsOf(u.parts), s.uploads[id := Upload(map[], true, None, commits)],
          s.listed - {id}, s.threads, s.nextPath)
  }

  lemma ThreadComesAndGoes(threads: map<Tid, Thread>, tid: Tid, t: Thread)
    requires tid !in threads
    ensures threads[tid := t] - {tid} == threads
  {
  }

  lemma FileComesAndGoes<V>(m: map<Path, V>, p: Path, a: V, b: V)
    requires p !in m
    ensures m[p := a][p := b] == m[p := b] && m[p := a] - {p} == m
  {
  }

  lemma {:induction false} Written(s: State, tid: Tid, id: Id, number: int, body: Bytes, hs: Hashers)
    requires Ready(s, tid, id) && 1 <= number <= 10000
    ensures var p := s.nextPath;
            Apply(hs, Apply(hs, s, BeginPart(tid, id, number)), WritePart(tid, body)) ==
            State(s.files[p := body], s.owner[p := ByThread(tid)], s.uploads, s.listed,
              s.threads[tid := Writing(id, number, p)], p + 1)
  {
    var s1 := Apply(hs, s, BeginPart(tid, id, number));
    assert s1.files[s.nextPath] + body == body;
  }

  lemma {:induction false} FailedPart(hs: Hashers, s: State, tid: Tid, id: Id, number: int, body: Bytes)
    requires Ready(s, tid, id) && 1 <= number <= 10000 && s.nextPath !in s.files && s.nextPath !in s.owner
    ensures var p := s.nextPath;
            var w := State(s.files[p := body], s.owner[p := ByThread(tid)], s.uploads, s.listed,
                           s.threads[tid := Writing(id, number, p)], p + 1);
            Apply(hs, w, FailPart(tid)) == s.(nextPath := p + 1)
  {
    var p := s.nextPath;
    ThreadComesAndGoes(s.threads, tid, Writing(id, number, p));
    FileComesAndGoes(s.files, p, body, body);
    FileComesAndGoes(s.owner, p, ByThread(tid), ByThread(tid));
  }

  lemma {:induction false} InstalledPart(hs: Hashers, s: State, tid: Tid, id: Id, number: int, body: Bytes)
    requires Ready(s, tid, id) && 1 <= number <= 10000 && s.nextPath !in s.files && s.nextPath !in s.owner
    requires s.nextPath !in Replaced(s.uploads[id].parts, number)
    ensures var p := s.nextPath;
            var w := State(s.files[p := body], s.owner[p := ByThread(tid)], s.uploads, s.listed,
                           s.threads[tid := Writing(id, number, p)], p + 1);
            Apply(hs, Apply(hs, w, ClosePart(tid)), InstallPart(tid)) == AfterPart(hs, s, id, number, body, false)
  {
    var p := s.nextPath;
    var part := Part(p, |body|, hs.md5(body));
    var gone := Replaced(s.uploads[id].parts, number);
    ThreadComesAndGoes(s.threads, tid, Staged(id, number, part));
    FileComesAndGoes(s.files, p, body, body);
    FileComesAndGoes(s.owner, p, ByThread(tid), ByPart(id, number));
    assert s.files[p := body] - gone == (s.files - gone)[p := body];
    assert (s.owner[p := ByThread(tid)] - gone)[p := ByPart(id, number)] == (s.owner - gone)[p := ByPart(id, number)];
    assert s.threads[tid := Writing(id, number, p)][tid := Staged(id, number, part)] ==
           s.threads[tid := Staged(id, number, part)];
  }

  /** uploadPart, start to end. */
  lemma {:induction false} PartRuns(hs: Hashers, s: State, tid: Tid, id: Id, number: int, body: Bytes, broken: bool)
    requires Ready(s, tid, id) && s.nextPath !in s.files && s.nextPath !in s.owner
    requires s.nextPath !in Replaced(s.uploads[id].parts, number)
    ensures RunFrom(hs, s, PartSteps(tid, id, number, body, broken)) == AfterPart(hs, s, id, number, body, broken)
  {
    hide Run, RunFrom, Install, Finish;
    var first := [BeginPart(tid, id, number), WritePart(tid, body)];
    var later := if broken then [FailPart(tid)] else [ClosePart(tid), InstallPart(tid)];
    RunTwo(hs, s, first[0], first[1]);
    RunFromSplit(hs, s, first, later);
    var w := RunFrom(hs, s, first);
    if broken {
      RunOne(hs, w, FailPart(tid));
    } else {
      RunTwo(hs, w, ClosePart(tid), InstallPart(tid));
    }
    if 1 <= number <= 10000 {
      Written(s, tid, id, number, body, hs);
      if broken {
        FailedPart(hs, s, tid, id, number, body);
      } else {
        InstalledPart(hs, s, tid, id, number, body);
      }
    }
  }

  /** Events of a handler that is not there do nothing. */
  lemma {:induction false} NobodyThere(hs: Hashers, s: State, tid: Tid, events: seq<Event>)
    requires tid !in s.threads
    requires forall i :: 0 <= i < |events| ==> !Begins(events[i]) && events[i].tid == tid
    ensures RunFrom(hs, s, events) == s
    decreases |events|
  {
    hide Proceed, Begin;
    if events != [] {
      NobodyThere(hs, s, tid, events[1..]);
    }
  }

  lemma {:induction false} CopiesAre(tid: Tid, k: nat)
    ensures |Copies(tid, k)| == k && forall i :: 0 <= i < k ==> Copies(tid, k)[i] == CopyPart(tid)
  {
    if k > 0 {
      CopiesAre(tid, k - 1);
    }
  }

  /** The state of a completion that has locked the upload and copied the first k parts. */
  function Midway(s: State, tid: Tid, id: Id, req: seq<PartRef>, k: nat): State
    requires id in s.uploads && k <= |req|
  {
    var u := s.uploads[id];
    SetThread(SetUpload(s, id, u.(holder := Some(tid))), tid, Copying(id, req, k, Joined(s.files, u.parts, req[..k])))
  }

  lemma {:induction false} CopyOne(hs: Hashers, s: State, tid: Tid, id: Id, req: seq<PartRef>, k: nat)
    requires id in s.uploads && k < |req| && AllCheck(s.uploads[id].parts, req) &&
             PathsOf(s.uploads[id].parts) <= s.files.Keys
    ensures Apply(hs, Midway(s, tid, id, req, k), CopyPart(tid)) == Midway(s, tid, id, req, k + 1)
  {
    var u := s.uploads[id];
    assert Checks(u.parts, req[k]);
    assert u.parts[req[k].number].path in PathsOf(u.parts);
    assert req[..k + 1][..k] == req[..k];
    var m := Midway(s, tid, id, req, k);
    assert m.threads[tid] == Copying(id, req, k, Joined(s.files, u.parts, req[..k]));
    assert Apply(hs, m, CopyPart(tid)).threads == Midway(s, tid, id, req, k + 1).threads;
  }

  lemma {:induction false} CopySome(hs: Hashers, s: State, tid: Tid, id: Id, req: seq<PartRef>, k: nat)
    requires id in s.uploads && k <= |req| && AllCheck(s.uploads[id].parts, req) &&
             PathsOf(s.uploads[id].parts) <= s.files.Keys
    ensures RunFrom(hs, Midway(s, tid, id, req, 0), Copies(tid, k)) == Midway(s, tid, id, req, k)
  {
    hide Apply, Midway, AllCheck;
    if k > 0 {
      CopySome(hs, s, tid, id, req, k - 1);
      RunFromSplit(hs, Midway(s, tid, id, req, 0), Copies(tid, k - 1), [CopyPart(tid)]);
      RunOne(hs, Midway(s, tid, id, req, k - 1), CopyPart(tid));
      CopyOne(hs, s, tid, id, req, k - 1);
    }
  }

  lemma {:induction false} CompletionStarts(hs: Hashers, s: State, tid: Tid, id: Id, req: seq<PartRef>)
    requires Ready(s, tid, id)
    ensures Apply(hs, Apply(hs, s, BeginComplete(tid, id, req)), CheckParts(tid)) ==
            if CanComplete(s.uploads[id], req) then Midway(s, tid, id, req, 0) else s
  {
    hide AllCheck, Ascending;
    ThreadComesAndGoes(s.threads, tid, Completing(id, req));
    assert req[..0] == [];
    assert s.threads[tid := Completing(id, req)][tid := Copying(id, req, 0, [])] ==
           s.threads[tid := Copying(id, req, 0, [])];
  }

  lemma {:induction false} Releases(hs: Hashers, s: State, tid: Tid, id: Id, req: seq<PartRef>, k: nat, e: Event)
    requires Ready(s, tid, id) && k <= |req| && (e == FailCopy(tid) || (e == CommitObject(tid, false) && k == |req|))
    ensures Apply(hs, Midway(s, tid, id, req, k), e) == s
  {
    var u := s.uploads[id];
    var content := Joined(s.files, u.parts, req[..k]);
    ThreadComesAndGoes(s.threads, tid, Copying(id, req, k, content));
    assert s.uploads[id := u.(holder := Some(tid))][id := u] == s.uploads;
  }

  lemma {:induction false} Commits(hs: Hashers, s: State, tid: Tid, id: Id, req: seq<PartRef>)
    requires Ready(s, tid, id)
    ensures var u := s.uploads[id];
            Apply(hs, Midway(s, tid, id, req, |req|), CommitObject(tid, true)) ==
            s.(uploads := s.uploads[id := Upload(u.parts, u.done, Some(tid),
              u.commits + [Joined(s.files, u.parts, req)])],
               threads := s.threads[tid := Cleaning(id)])
  {
    hide Joined;
    var u := s.uploads[id];
    assert req[..|req|] == req;
    var m := Midway(s, tid, id, req, |req|);
    var done := u.(holder := Some(tid), commits := u.commits + [Joined(s.files, u.parts, req)]);
    assert m.uploads[id := done] == s.uploads[id := done];
    assert m.threads[tid := Cleaning(id)] == s.threads[tid := Cleaning(id)];
  }

  /** From the commit on: clean up, unlist, let go of the lock. */
  lemma {:induction false} CleansUp(hs: Hashers, s: State, tid: Tid, id: Id, commits: seq<Bytes>)
    requires Ready(s, tid, id)
    ensures var u := s.uploads[id];
            var m := s.(uploads := s.uploads[id := Upload(u.parts, u.done, Some(tid), commits)],
                        threads := s.threads[tid := Cleaning(id)]);
            Apply(hs, Apply(hs, m, CleanUp(tid)), Unlist(tid)) == Gone(s, id, commits)
  {
    var u := s.uploads[id];
    var m := s.(uploads := s.uploads[id := Upload(u.parts, u.done, Some(tid), commits)],
                threads := s.threads[tid := Cleaning(id)]);
    var m2 := Apply(hs, m, CleanUp(tid));
    assert m2.uploads == s.uploads[id := Upload(map[], true, Some(tid), commits)];
    assert m2.threads == s.threads[tid := Unlisting(id)];
    ThreadComesAndGoes(s.threads, tid, Unlisting(id));
    assert m2.uploads[id := Upload(map[], true, None, commits)] == s.uploads[id := Upload(map[], true, None, commits)];
  }

  lemma {:induction false} Finishes(hs: Hashers, s: State, tid: Tid, id: Id, req: seq<PartRef>)
    requires Ready(s, tid, id)
    ensures var m := Midway(s, tid, id, req, |req|);
            Apply(hs, Apply(hs, Apply(hs, m, CommitObject(tid, true)), CleanUp(tid)), Unlist(tid)) ==
            Gone(s, id, s.uploads[id].commits + [Joined(s.files, s.uploads[id].parts, req)])
  {
    hide Apply, Midway, Gone, Joined;
    Commits(hs, s, tid, id, req);
    CleansUp(hs, s, tid, id, s.uploads[id].commits + [Joined(s.files, s.uploads[id].parts, req)]);
  }

  /** completeMultipartUpload, start to end. */
  lemma {:induction false} CompleteRuns(hs: Hashers, s: State, tid: Tid, id: Id, req: seq<PartRef>, failAt: Option<nat>,
                                        ok: bool)
    requires Ready(s, tid, id) && PathsOf(s.uploads[id].parts) <= s.files.Keys
    ensures RunFrom(hs, s, CompleteSteps(tid, id, req, failAt, ok)) == AfterComplete(s, id, req, failAt, ok)
  {
    hide RunFrom, Apply, CanComplete, Midway, Gone, Joined;
    var fails := failAt.Some? && failAt.value < |req|;
    var k := if fails then failAt.value else |req|;
    var first := [BeginComplete(tid, id, req), CheckParts(tid)];
    var last := if fails then [FailCopy(tid)] else [CommitObject(tid, ok), CleanUp(tid), Unlist(tid)];
    RunTwo(hs, s, first[0], first[1]);
    CompletionStarts(hs, s, tid, id, req);
    RunFromSplit(hs, s, first, Copies(tid, k) + last);
    if CanComplete(s.uploads[id], req) {
      CopyThenEnd(hs, s, tid, id, req, k, last, ok);
    } else {
      CopiesAre(tid, k);
      NobodyThere(hs, s, tid, Copies(tid, k) + last);
    }
  }

  lemma {:induction false} CopyThenEnd(hs: Hashers, s: State, tid: Tid, id: Id, req: seq<PartRef>, k: nat,
                                       last: seq<Event>, ok: bool)
    requires Ready(s, tid, id) && PathsOf(s.uploads[id].parts) <= s.files.Keys && CanComplete(s.uploads[id], req) &&
             k <= |req|
    requires last == [FailCopy(tid)] || (k == |req| && last == [CommitObject(tid, ok), CleanUp(tid), Unlist(tid)])
    ensures RunFrom(hs, Midway(s, tid, id, req, 0), Copies(tid, k) + last) ==
            if last == [FailCopy(tid)] || !ok then s
            else Gone(s, id, s.uploads[id].commits + [Joined(s.files, s.uploads[id].parts, req)])
  {
    hide RunFrom, Apply, Midway, Gone, Joined;
    CopySome(hs, s, tid, id, req, k);
    RunFromSplit(hs, Midway(s, tid, id, req, 0), Copies(tid, k), last);
    var m := Midway(s, tid, id, req, k);
    if last == [FailCopy(tid)] {
      RunOne(hs, m, FailCopy(tid));
      Releases(hs, s, tid, id, req, k, FailCopy(tid));
    } else {
      RunThree(hs, m, CommitObject(tid, ok), CleanUp(tid), Unlist(tid));
      if ok {
        Finishes(hs, s, tid, id, req);
      } else {
        Releases(hs, s, tid, id, req, k, CommitObject(tid, false));
        NobodyThere(hs, s, tid, [CleanUp(tid), Unlist(tid)]);
        RunTwo(hs, s, CleanUp(tid), Unlist(tid));
      }
    }
  }

  /** abortMultipartUpload, start to end. */
  lemma {:induction false} AbortRuns(hs: Hashers, s: State, tid: Tid, id: Id)
    requires Ready(s, tid, id)
    ensures RunFrom(hs, s, AbortSteps(tid, id)) == AfterAbort(s, id)
  {
    hide RunFrom, Install, Release;
    RunThree(hs, s, BeginAbort(tid, id), AbortParts(tid), Unlist(tid));
    var u := s.uploads[id];
    var s1 := Apply(hs, s, BeginAbort(tid, id));
    var s2 := Apply(hs, s1, AbortParts(tid));
    assert s2.uploads == s.uploads[id := Upload(map[], true, None, u.commits)];
    assert s2.threads == s.threads[tid := Leaving(id)];
    ThreadComesAndGoes(s.threads, tid, Leaving(id));
  }
}
