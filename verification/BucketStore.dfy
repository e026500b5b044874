/** The open handle of a bucket and the writer that streams content into it. */
module BucketStore {
  import opened ByteStrings
  import opened Types
  import Successor
  import Listing
  import Scan
  import Paging
  import opened Cas
  import CasRun

  /** Which I/O call of an operation fails, if any. */
  datatype Fault =
    | NoFault
    | SyncFails | CloseFails
    | MkdirFails | RenameFails
    | BeginFails | QueryFails | ExecFails | TxCommitFails
    | RemoveFails

  datatype Result<+T> = Ok(value: T) | Err(error: StoreError)

  datatype ObjectInfo = ObjectInfo(name: Bytes, row: Row)

  datatype ListResult = ListResult(objects: seq<ObjectInfo>, prefixes: seq<Bytes>, nextPageToken: Bytes)

  datatype ListOutcome = Listed(result: ListResult) | ListPanicked

  datatype OpenResult = Opened(row: Row, content: Bytes) | OpenFailed(error: StoreError)

  // --- what the operations do, as runs of the step machine -------------------------------------------

  function CommitSteps(hs: Hashers, d: Disk, name: Bytes, content: Bytes, opts: PutOptions, now: int,
                       fault: Fault): seq<CasRun.Step>
  {
    if !ValidObjectName(name) || fault.SyncFails? || fault.CloseFails? then []
    else if hs.sha256(content) !in d.files && (fault.MkdirFails? || fault.RenameFails?) then
      [CasRun.LockCommit(name, content, opts), CasRun.Fail]
    else
      [CasRun.LockCommit(name, content, opts), CasRun.InstallFile] + TxSteps(now, fault)
  }

  function TxSteps(now: int, fault: Fault): seq<CasRun.Step>
  {
    match fault
    case BeginFails => [CasRun.Fail]
    case QueryFails => [CasRun.Fail]
    case ExecFails => [CasRun.Fail]
    case TxCommitFails => [CasRun.Fail]
    case RemoveFails => [CasRun.Transact(now), CasRun.Fail]
    case _ => [CasRun.Transact(now), CasRun.RemoveFile]
  }

  predicate TxFails(fault: Fault): (fails: bool)
    ensures fails <==> fault in {BeginFails, QueryFails, ExecFails, TxCommitFails}
  {
    fault.BeginFails? || fault.QueryFails? || fault.ExecFails? || fault.TxCommitFails?
  }

  lemma {:induction false} RunOne(hs: Hashers, s: CasRun.State, steps: seq<CasRun.Step>, step: CasRun.Step)
    ensures CasRun.Run(hs, s, steps + [step]) == CasRun.Apply(hs, CasRun.Run(hs, s, steps), step)
  {
    assert (steps + [step])[..|steps|] == steps;
  }

  lemma {:induction false} RunStep(hs: Hashers, s: CasRun.State, step: CasRun.Step)
    ensures CasRun.Run(hs, s, [step]) == CasRun.Apply(hs, s, step)
  {
    assert [step] == [] + [step];
    RunOne(hs, s, [], step);
  }

  lemma {:induction false} RunPair(hs: Hashers, s: CasRun.State, a: CasRun.Step, b: CasRun.Step)
    ensures CasRun.Run(hs, s, [a, b]) == CasRun.Apply(hs, CasRun.Apply(hs, s, a), b)
  {
    assert [a, b] == [a] + [b];
    RunStep(hs, s, a);
    RunOne(hs, s, [a], b);
  }

  lemma {:induction false} RunOn(hs: Hashers, s: CasRun.State, first: seq<CasRun.Step>, later: seq<CasRun.Step>)
    ensures CasRun.Run(hs, s, first + later) == CasRun.Run(hs, CasRun.Run(hs, s, first), later)
    decreases |later|
  {
    if later == [] {
      assert first + later == first;
    } else {
      var n := |later| - 1;
      assert first + later == (first + later[..n]) + [later[n]];
      RunOn(hs, s, first, later[..n]);
    }
  }

  function DeleteSteps(name: Bytes, conds: Conditions, fault: Fault): seq<CasRun.Step>
  {
    [CasRun.LockDelete(name, conds)] + TxSteps(0, fault)
  }

  function AfterTx(d: Disk, r: TxResult, fault: Fault): Disk
  {
    if TxFails(fault) || r.RolledBack? then d
    else if fault.RemoveFails? then r.disk
    else RemoveOrphan(r.disk, r.orphan)
  }

  lemma TxRuns(hs: Hashers, s: CasRun.State, now: int, fault: Fault)
    requires s.phase.Installed? || s.phase.Deleting?
    ensures CasRun.Run(hs, s, TxSteps(now, fault)) ==
            CasRun.State(AfterTx(s.disk, CasRun.TxOf(hs, s, now), fault), CasRun.Idle)
  {
    hide CommitTx, DeleteTx;
    if TxFails(fault) {
      RunStep(hs, s, CasRun.Fail);
    } else {
      RunPair(hs, s, CasRun.Transact(now), if fault.RemoveFails? then CasRun.Fail else CasRun.RemoveFile);
    }
  }

  lemma DeleteRuns(hs: Hashers, d: Disk, name: Bytes, conds: Conditions, fault: Fault)
    ensures CasRun.Run(hs, CasRun.State(d, CasRun.Idle), DeleteSteps(name, conds, fault)) ==
            CasRun.State(AfterTx(d, DeleteTx(d, name, conds), fault), CasRun.Idle)
  {
    hide DeleteTx, AfterTx, TxSteps, CommitTx, CasRun.Run;
    var s := CasRun.State(d, CasRun.Idle);
    var lock := CasRun.LockDelete(name, conds);
    RunStep(hs, s, lock);
    RunOn(hs, s, [lock], TxSteps(0, fault));
    TxRuns(hs, CasRun.State(d, CasRun.Deleting(name, conds)), 0, fault);
  }

  lemma DeletionsKeepNames(d: Disk, name: Bytes, conds: Conditions)
    ensures var r := DeleteTx(d, name, conds); r.Committed? ==> r.disk.objects.Keys <= d.objects.Keys
  {
  }

  lemma {:induction false} DeleteIsHealthy(hs: Hashers, used: set<Bytes>, d: Disk, name: Bytes, conds: Conditions,
                                           fault: Fault)
    requires CasRun.Good(hs, used, CasRun.State(d, CasRun.Idle))
    ensures CasRun.Good(hs, used, CasRun.State(AfterTx(d, DeleteTx(d, name, conds), fault), CasRun.Idle))
    ensures View(AfterTx(d, DeleteTx(d, name, conds), fault)) ==
            if !TxFails(fault) && DeleteTx(d, name, conds).Committed? then View(d) - {name} else View(d)
    ensures CasRun.Current(View(d), name) == AttributesOf(Existing(d, name))
  {
    hide Counted, Filed, Sized, Described, View, Passes, DeleteTx;
    CasRun.CurrentIsExisting(hs, used, d, name);
    DeletionsKeepNames(d, name, conds);
    if DeleteTx(d, name, conds).Committed? {
      ConsistentAfterDelete(hs, d, used, name, conds);
      CountedAfterDelete(d, name, conds);
      var r := DeleteTx(d, name, conds);
      ConsistentAfterRemoval(hs, r.disk, used, r.orphan);
    }
  }

  /** Whether Commit gives up before it has touched the blob files. */
  predicate FailsEarly(hs: Hashers, d: Disk, name: Bytes, content: Bytes, fault: Fault): (fails: bool)
    ensures ValidObjectName(name) && fault !in {SyncFails, CloseFails} && hs.sha256(content) in d.files ==> !fails
    ensures ValidObjectName(name) && fault !in {SyncFails, CloseFails, MkdirFails, RenameFails} ==> !fails
    ensures !ValidObjectName(name) || fault in {SyncFails, CloseFails} ==> fails
    ensures fault in {MkdirFails, RenameFails} && hs.sha256(content) !in d.files ==> fails
  {
    !ValidObjectName(name) || fault.SyncFails? || fault.CloseFails? ||
    (hs.sha256(content) !in d.files && (fault.MkdirFails? || fault.RenameFails?))
  }

  /** The blob files behind a commit, however it ends: the content's, once the install has succeeded, and without that
      of the content it replaces if no other name has it. */
  lemma {:induction false} CommitFiles(hs: Hashers, d: Disk, name: Bytes, content: Bytes, opts: PutOptions, now: int,
                                       fault: Fault)
    requires Counted(d)
    ensures var h := hs.sha256(content);
            var committed := !FailsEarly(hs, d, name, content, fault) && !TxFails(fault) &&
                             Passes(opts.conditions, AttributesOf(Existing(d, name)));
            var replaced := committed && !fault.RemoveFails? && name in d.objects && d.objects[name].hash != h &&
                            forall n :: n in d.objects && n != name ==> d.objects[n].hash != d.objects[name].hash;
            AfterCommit(hs, d, name, content, opts, now, fault).files.Keys ==
            (if FailsEarly(hs, d, name, content, fault) then d.files.Keys else d.files.Keys + {h}) -
            (if replaced then {d.objects[name].hash} else {})
  {
    hide Passes, CommitTx, FailsEarly, Counted, AfterTx;
    var i := Install(hs, d, content);
    assert i.objects == d.objects && i.blobs == d.blobs;
    SameCounts(d, i);
    TxFiles(hs, i, name, content, opts, now, fault);
  }

  lemma {:induction false} TxFiles(hs: Hashers, i: Disk, name: Bytes, content: Bytes, opts: PutOptions, now: int,
                                   fault: Fault)
    requires Counted(i)
    ensures var replaced := !TxFails(fault) && Passes(opts.conditions, AttributesOf(Existing(i, name))) &&
                            !fault.RemoveFails? && name in i.objects && i.objects[name].hash != hs.sha256(content) &&
                            forall n :: n in i.objects && n != name ==> i.objects[n].hash != i.objects[name].hash;
            AfterTx(i, CommitTx(hs, i, name, content, opts, now), fault).files.Keys ==
            i.files.Keys - (if replaced then {i.objects[name].hash} else {})
  {
    hide Passes, CommitTx, Counted, Refs;
    CommitOutcome(hs, i, name, content, opts, now);
    if CommitTx(hs, i, name, content, opts, now).Committed? {
      OrphansOfCommit(hs, i, name, content, opts, now);
      if name in i.objects {
        NoOtherName(i.objects, name);
      }
    }
  }

  lemma CommitFilesOf(hs: Hashers, used: set<Bytes>, d: Disk, name: Bytes, content: Bytes, opts: PutOptions, now: int,
                      fault: Fault)
    requires CasRun.Good(hs, used, CasRun.State(d, CasRun.Idle))
    ensures var h := hs.sha256(content);
            var committed := !FailsEarly(hs, d, name, content, fault) && !TxFails(fault) &&
                             Passes(opts.conditions, AttributesOf(Existing(d, name)));
            var replaced := committed && !fault.RemoveFails? && name in d.objects && d.objects[name].hash != h &&
                            forall n :: n in d.objects && n != name ==> d.objects[n].hash != d.objects[name].hash;
            AfterCommit(hs, d, name, content, opts, now, fault).files.Keys ==
            (if FailsEarly(hs, d, name, content, fault) then d.files.Keys else d.files.Keys + {h}) -
            (if replaced then {d.objects[name].hash} else {})
  {
    hide Passes, AfterCommit, FailsEarly, Counted, ValidObjectName;
    CommitFiles(hs, d, name, content, opts, now, fault);
  }

  lemma DeleteFilesOf(hs: Hashers, used: set<Bytes>, d: Disk, name: Bytes, conds: Conditions, fault: Fault)
    requires CasRun.Good(hs, used, CasRun.State(d, CasRun.Idle))
    ensures var deleted := !TxFails(fault) && name in d.objects && Passes(conds, AttributesOf(Existing(d, name)));
            var last := deleted && !fault.RemoveFails? &&
                        forall n :: n in d.objects && n != name ==> d.objects[n].hash != d.objects[name].hash;
            AfterTx(d, DeleteTx(d, name, conds), fault).files.Keys ==
            d.files.Keys - (if last then {d.objects[name].hash} else {})
  {
    hide Passes, AfterTx, DeleteTx, Counted, ValidObjectName;
    DeleteFiles(d, name, conds, fault);
  }

  lemma NoOtherName(objects: map<Bytes, Row>, name: Bytes)
    requires name in objects
    ensures Refs(objects, objects[name].hash) == {name} <==>
            forall n :: n in objects && n != name ==> objects[n].hash != objects[name].hash
  {
    var refs := Refs(objects, objects[name].hash);
    assert name in refs;
    forall n | n in objects && n != name && objects[n].hash == objects[name].hash ensures refs != {name} {
      assert n in refs;
    }
  }

  lemma SameCounts(d: Disk, i: Disk)
    requires Counted(d) && i.objects == d.objects && i.blobs == d.blobs
    ensures Counted(i)
  {
  }

  lemma {:induction false} DeleteFiles(d: Disk, name: Bytes, conds: Conditions, fault: Fault)
    requires Counted(d)
    ensures var deleted := !TxFails(fault) && name in d.objects && Passes(conds, AttributesOf(Existing(d, name)));
            var last := deleted && !fault.RemoveFails? &&
                        forall n :: n in d.objects && n != name ==> d.objects[n].hash != d.objects[name].hash;
            AfterTx(d, DeleteTx(d, name, conds), fault).files.Keys ==
            d.files.Keys - (if last then {d.objects[name].hash} else {})
  {
    hide Passes, DropRef, Counted;
    if DeleteTx(d, name, conds).Committed? {
      CountedAfterDelete(d, name, conds);
      NoOtherName(d.objects, name);
    }
  }

  function AfterCommit(hs: Hashers, d: Disk, name: Bytes, content: Bytes, opts: PutOptions, now: int,
                       fault: Fault): Disk
  {
    if FailsEarly(hs, d, name, content, fault) then d
    else
      var i := Install(hs, d, content);
      AfterTx(i, CommitTx(hs, i, name, content, opts, now), fault)
  }

  lemma CommitRuns(hs: Hashers, d: Disk, name: Bytes, content: Bytes, opts: PutOptions, now: int, fault: Fault)
    ensures CasRun.Run(hs, CasRun.State(d, CasRun.Idle), CommitSteps(hs, d, name, content, opts, now, fault)) ==
            CasRun.State(AfterCommit(hs, d, name, content, opts, now, fault), CasRun.Idle)
  {
    hide CommitTx, AfterTx, TxSteps, Install;
    var s := CasRun.State(d, CasRun.Idle);
    var lock := CasRun.LockCommit(name, content, opts);
    if FailsEarly(hs, d, name, content, fault) {
      RunPair(hs, s, lock, CasRun.Fail);
    } else {
      var i := CasRun.State(Install(hs, d, content), CasRun.Installed(name, content, opts));
      RunPair(hs, s, lock, CasRun.InstallFile);
      RunOn(hs, s, [lock, CasRun.InstallFile], TxSteps(now, fault));
      TxRuns(hs, i, now, fault);
    }
  }

  lemma {:induction false} CommitIsHealthy(hs: Hashers, used: set<Bytes>, d: Disk, name: Bytes, content: Bytes,
                                           opts: PutOptions, now: int, fault: Fault)
    requires CollisionFree(hs, used) && content in used && CasRun.Good(hs, used, CasRun.State(d, CasRun.Idle))
    ensures CasRun.Good(hs, used, CasRun.State(AfterCommit(hs, d, name, content, opts, now, fault), CasRun.Idle))
    ensures var existing := CasRun.Current(View(d), name);
            existing == AttributesOf(Existing(d, name)) &&
            View(AfterCommit(hs, d, name, content, opts, now, fault)) ==
            if !FailsEarly(hs, d, name, content, fault) && !TxFails(fault) && Passes(opts.conditions, existing)
            then View(d)[name := Object(content, NewAttributes(existing, opts, now))] else View(d)
  {
    hide Counted, Filed, Sized, Described, View, Passes, CommitTx, Install, NewAttributes;
    CasRun.CurrentIsExisting(hs, used, d, name);
    if !FailsEarly(hs, d, name, content, fault) {
      var i := Install(hs, d, content);
      ConsistentAfterInstall(hs, d, used, content);
      InstallKeepsRows(hs, d, content);
      CommitOutcome(hs, i, name, content, opts, now);
      var r := CommitTx(hs, i, name, content, opts, now);
      if r.Committed? {
        ConsistentAfterCommit(hs, i, used, name, content, opts, now);
        OrphansOfCommit(hs, i, name, content, opts, now);
        ConsistentAfterRemoval(hs, r.disk, used, r.orphan);
      }
    }
  }

  lemma InstallKeepsRows(hs: Hashers, d: Disk, content: Bytes)
    ensures Install(hs, d, content).objects == d.objects && Install(hs, d, content).blobs == d.blobs
  {
  }

  lemma CommitOutcome(hs: Hashers, d: Disk, name: Bytes, content: Bytes, opts: PutOptions, now: int)
    ensures var r := CommitTx(hs, d, name, content, opts, now);
            (r.Committed? <==> Passes(opts.conditions, AttributesOf(Existing(d, name)))) &&
            (r.Committed? ==> r.disk.objects.Keys == d.objects.Keys + {name} && r.disk.files == d.files)
  {
    hide Passes, AddRef, DropRef, NewRow;
  }

  // --- batches of rows -----------------------------------------------------------------------------------

  /** The rows of one query, in name order, up to a limit. */
  function Batch(names: set<Bytes>, next: Bytes, end: Bytes, limit: nat): seq<Bytes>
  {
    var rows := Sorted(Scan.Rows(names, next, end));
    if |rows| <= limit then rows else rows[..limit]
  }

  /** Behind its first row a query goes on as the query that starts right behind that row. */
  lemma RowsBehindFirst(names: set<Bytes>, next: Bytes, end: Bytes)
    requires Scan.Rows(names, next, end) != {}
    ensures var rows := Scan.Rows(names, next, end);
            Sorted(rows) != [] && Sorted(rows)[0] == Least(rows) &&
            Sorted(Scan.Rows(names, Least(rows) + [0], end)) == Sorted(rows)[1..]
  {
    var rows := Scan.Rows(names, next, end);
    var n := Least(rows);
    forall x | x in names ensures x in Scan.Rows(names, n + [0], end) <==> x in rows - {n} {
      LeastAbove(n, x);
      NotLess(n, x);
      LessIrreflexive(n);
      if Less(n, x) {
        LeqTransitive(next, n, x);
      }
    }
    assert Scan.Rows(names, n + [0], end) == rows - {n};
  }

  function Infos(objects: map<Bytes, Row>, ns: seq<Bytes>): seq<ObjectInfo>
  {
    if ns == [] then []
    else
      var n := ns[|ns| - 1];
      Infos(objects, ns[..|ns| - 1]) + (if n in objects then [ObjectInfo(n, objects[n])] else [])
  }

  function Names(batch: seq<ObjectInfo>): seq<Bytes>
  {
    seq(|batch|, i requires 0 <= i < |batch| => batch[i].name)
  }

  /** A page as the store returns it, with its objects and common prefixes apart. */
  function Deliver(objects: map<Bytes, Row>, o: Scan.Outcome): ListOutcome
  {
    match o
    case Panicked => ListPanicked
    case Page(es, token) => Listed(ListResult(Infos(objects, Listing.Objects(es)), Listing.Prefixes(es), token))
  }

  /** The first row of a query, and the query that is left behind it. */
  lemma BatchStep(names: set<Bytes>, next: Bytes, end: Bytes, limit: nat)
    requires limit > 0
    ensures var batch, rows := Batch(names, next, end, limit), Scan.Rows(names, next, end);
            if rows == {} then batch == []
            else batch != [] && batch[0] == Least(rows) && Batch(names, batch[0] + [0], end, limit - 1) == batch[1..]
  {
    if Scan.Rows(names, next, end) != {} {
      RowsBehindFirst(names, next, end);
    }
  }

  /** Row i of the batch is the first row of the query that starts at `at`. */
  predicate AtRow(names: set<Bytes>, batch: seq<ObjectInfo>, i: nat, at: Bytes, end: Bytes, limit: nat)
  {
    i <= |batch| <= limit && Names(batch)[i..] == Batch(names, at, end, limit - i)
  }

  lemma NextOfBatch(objects: map<Bytes, Row>, batch: seq<ObjectInfo>, i: nat, at: Bytes, end: Bytes, limit: nat)
    requires AtRow(objects.Keys, batch, i, at, end, limit) && i < |batch|
    ensures FirstRow(objects, at, end, batch[i].name)
    ensures AtRow(objects.Keys, batch, i + 1, batch[i].name + [0], end, limit)
  {
    var names := objects.Keys;
    BatchStep(names, at, end, limit - i);
    assert Names(batch)[i..][0] == batch[i].name;
    assert Names(batch)[i..][1..] == Names(batch)[i + 1..];
  }

  lemma EndOfBatch(names: set<Bytes>, batch: seq<ObjectInfo>, at: Bytes, end: Bytes, limit: nat)
    requires |batch| < limit && AtRow(names, batch, |batch|, at, end, limit)
    ensures Scan.Rows(names, at, end) == {}
  {
    BatchStep(names, at, end, limit - |batch|);
  }

  /** One turn of the scan, on the page collected so far. */
  lemma ScanTurn(q: Listing.Query, names: set<Bytes>, end: Bytes, next: Bytes, room: nat, es: seq<Listing.Entry>)
    ensures var rows := Scan.Rows(names, next, end);
            var o := Scan.Prepend(es, Scan.Walk(q, names, end, next, room));
            if rows == {} then o == Scan.Page(es, [])
            else
              var n := Least(rows);
              var e := Listing.EntryOf(q, n);
              if room == 0 then o == Scan.Page(es, n)
              else if |n| < |q.prefix| then o == Scan.Panicked
              else if Scan.Behind(e) == [] then o == Scan.Page(es + [e], [])
              else o == Scan.Prepend(es + [e], Scan.Walk(q, names, end, Scan.Behind(e), room - 1))
  {
    var rows := Scan.Rows(names, next, end);
    if rows != {} && room > 0 {
      var e := Listing.EntryOf(q, Least(rows));
      assert Least(rows) + [0] != [];
      if Scan.Behind(e) != [] {
        var rest := Scan.Walk(q, names, end, Scan.Behind(e), room - 1);
        if rest.Page? {
          assert es + ([e] + rest.entries) == es + [e] + rest.entries;
        }
      }
    }
  }

  lemma DeliverNext(objects: map<Bytes, Row>, es: seq<Listing.Entry>, e: Listing.Entry)
    requires e.Object? ==> e.name in objects
    ensures Infos(objects, Listing.Objects(es + [e])) ==
            Infos(objects, Listing.Objects(es)) + (if e.Object? then [ObjectInfo(e.name, objects[e.name])] else [])
    ensures Listing.Prefixes(es + [e]) == Listing.Prefixes(es) + (if e.Group? then [e.prefix] else [])
  {
    assert (es + [e])[..|es|] == es;
    var os := Listing.Objects(es);
    if e.Object? {
      assert Listing.Objects(es + [e]) == os + [e.name];
      assert (os + [e.name])[..|os|] == os;
    } else {
      assert Listing.Objects(es + [e]) == os;
    }
  }

  /** The scan stands at `at` with the page `es` collected, kept apart as infos and common prefixes. */
  ghost predicate Collected(q: Listing.Query, objects: map<Bytes, Row>, end: Bytes, all: Scan.Outcome, at: Bytes,
                            room: nat, es: seq<Listing.Entry>, infos: seq<ObjectInfo>, prefixes: seq<Bytes>)
  {
    infos == Infos(objects, Listing.Objects(es)) && prefixes == Listing.Prefixes(es) &&
    all == Scan.Prepend(es, Scan.Walk(q, objects.Keys, end, at, room))
  }

  lemma CollectNext(q: Listing.Query, objects: map<Bytes, Row>, end: Bytes, all: Scan.Outcome, at: Bytes, room: nat,
                    es: seq<Listing.Entry>, infos: seq<ObjectInfo>, prefixes: seq<Bytes>)
    requires Collected(q, objects, end, all, at, room, es, infos, prefixes)
    ensures var rows := Scan.Rows(objects.Keys, at, end);
            if rows == {} then Deliver(objects, all) == Listed(ListResult(infos, prefixes, []))
            else
              var n := Least(rows);
              if room == 0 then Deliver(objects, all) == Listed(ListResult(infos, prefixes, n))
              else if |n| < |q.prefix| then Deliver(objects, all) == ListPanicked
              else
                match Listing.EntryOf(q, n)
                case Object(_) =>
                  n in objects &&
                  Collected(q, objects, end, all, n + [0], room - 1,
                            es + [Listing.Object(n)], infos + [ObjectInfo(n, objects[n])], prefixes)
                case Group(cp) =>
                  if Successor.PrefixSuccessor(cp) == []
                  then Deliver(objects, all) == Listed(ListResult(infos, prefixes + [cp], []))
                  else Collected(q, objects, end, all, Successor.PrefixSuccessor(cp), room - 1,
                                 es + [Listing.Group(cp)], infos, prefixes + [cp])
  {
    hide Infos, Listing.Objects, Listing.Prefixes, Scan.Walk, Scan.Prepend, Index, Less;
    var rows := Scan.Rows(objects.Keys, at, end);
    ScanTurn(q, objects.Keys, end, at, room, es);
    if rows != {} {
      assert Least(rows) in objects.Keys;
      DeliverNext(objects, es, Listing.EntryOf(q, Least(rows)));
    }
  }

  lemma CollectEnd(q: Listing.Query, objects: map<Bytes, Row>, end: Bytes, all: Scan.Outcome, at: Bytes, room: nat,
                   es: seq<Listing.Entry>, infos: seq<ObjectInfo>, prefixes: seq<Bytes>)
    requires Collected(q, objects, end, all, at, room, es, infos, prefixes) && Scan.Rows(objects.Keys, at, end) == {}
    ensures Deliver(objects, all) == Listed(ListResult(infos, prefixes, []))
  {
    CollectNext(q, objects, end, all, at, room, es, infos, prefixes);
  }

  lemma CollectFull(q: Listing.Query, objects: map<Bytes, Row>, end: Bytes, all: Scan.Outcome, at: Bytes, room: nat,
                    es: seq<Listing.Entry>, infos: seq<ObjectInfo>, prefixes: seq<Bytes>, n: Bytes)
    requires Collected(q, objects, end, all, at, room, es, infos, prefixes) && FirstRow(objects, at, end, n)
    requires room == 0 || |n| < |q.prefix|
    ensures Deliver(objects, all) == if room == 0 then Listed(ListResult(infos, prefixes, n)) else ListPanicked
  {
    CollectNext(q, objects, end, all, at, room, es, infos, prefixes);
  }

  predicate FirstRow(objects: map<Bytes, Row>, at: Bytes, end: Bytes, n: Bytes)
  {
    Scan.Rows(objects.Keys, at, end) != {} && n == Least(Scan.Rows(objects.Keys, at, end))
  }

  lemma CollectObject(q: Listing.Query, objects: map<Bytes, Row>, end: Bytes, all: Scan.Outcome, at: Bytes, room: nat,
                      es: seq<Listing.Entry>, infos: seq<ObjectInfo>, prefixes: seq<Bytes>, info: ObjectInfo)
    requires Collected(q, objects, end, all, at, room, es, infos, prefixes) && FirstRow(objects, at, end, info.name)
    requires room > 0 && |q.prefix| <= |info.name| && Listing.EntryOf(q, info.name).Object?
    requires info.name in objects && info.row == objects[info.name]
    ensures Collected(q, objects, end, all, info.name + [0], room - 1,
                      es + [Listing.Object(info.name)], infos + [info], prefixes)
  {
    CollectNext(q, objects, end, all, at, room, es, infos, prefixes);
  }

  lemma CollectGroup(q: Listing.Query, objects: map<Bytes, Row>, end: Bytes, all: Scan.Outcome, at: Bytes, room: nat,
                     es: seq<Listing.Entry>, infos: seq<ObjectInfo>, prefixes: seq<Bytes>, n: Bytes, cp: Bytes)
    requires Collected(q, objects, end, all, at, room, es, infos, prefixes) && FirstRow(objects, at, end, n)
    requires room > 0 && |q.prefix| <= |n| && Listing.EntryOf(q, n) == Listing.Group(cp)
    ensures if Successor.PrefixSuccessor(cp) == []
            then Deliver(objects, all) == Listed(ListResult(infos, prefixes + [cp], []))
            else Collected(q, objects, end, all, Successor.PrefixSuccessor(cp), room - 1,
                           es + [Listing.Group(cp)], infos, prefixes + [cp])
  {
    CollectNext(q, objects, end, all, at, room, es, infos, prefixes);
  }

  lemma ScanStart(q: Listing.Query, objects: map<Bytes, Row>, token: Bytes, limit: int)
    ensures Collected(q, objects, Successor.PrefixSuccessor(q.prefix), Scan.List(q, objects.Keys, token, limit),
                      if Less(q.prefix, token) then token else q.prefix,
                      if limit <= 0 || limit > Scan.DEFAULT_MAX_RESULTS then Scan.DEFAULT_MAX_RESULTS else limit,
                      [], [], [])
  {
    var all := Scan.List(q, objects.Keys, token, limit);
    assert Scan.Prepend([], all) == all;
  }

  lemma {:induction false} InfosAreRows(objects: map<Bytes, Row>, ns: seq<Bytes>)
    requires forall n :: n in ns ==> n in objects
    ensures |Infos(objects, ns)| == |ns| && Names(Infos(objects, ns)) == ns
    ensures forall i :: 0 <= i < |ns| ==> Infos(objects, ns)[i].row == objects[ns[i]]
  {
    if ns != [] {
      var front := ns[..|ns| - 1];
      var infos := Infos(objects, front);
      InfosAreRows(objects, front);
      assert ns[|ns| - 1] in ns;
      forall i | 0 <= i < |front| ensures infos[i].name == front[i] { assert Names(infos)[i] == front[i]; }
    }
  }

  /** The scan lists as objects only names of the bucket. */
  lemma {:induction false} WalkListsNames(q: Listing.Query, names: set<Bytes>, end: Bytes, next: Bytes, room: nat)
    ensures var o := Scan.Walk(q, names, end, next, room);
            o.Page? ==> forall e :: e in o.entries && e.Object? ==> e.name in names
    decreases room
  {
    var rows := Scan.Rows(names, next, end);
    if rows != {} && room > 0 {
      var n := Least(rows);
      assert n in names;
      WalkListsNames(q, names, end, Scan.Behind(Listing.EntryOf(q, n)), room - 1);
    }
  }

  /** What a listing delivers: rows of the bucket, no more than wanted. */
  lemma {:induction false} DeliveredFits(q: Listing.Query, objects: map<Bytes, Row>, token: Bytes, limit: int)
    ensures var o, r := Scan.List(q, objects.Keys, token, limit),
            Deliver(objects, Scan.List(q, objects.Keys, token, limit));
            r.Listed? ==>
              var wanted := if 1 <= limit <= 1000 then limit else 1000;
              var count := |r.result.objects| + |r.result.prefixes|;
              Names(r.result.objects) == Listing.Objects(o.entries) &&
              count <= wanted && (r.result.nextPageToken != [] ==> count == wanted) &&
              forall i :: 0 <= i < |r.result.objects| ==>
                r.result.objects[i].name in objects && r.result.objects[i].row == objects[r.result.objects[i].name]
  {
    hide Scan.Walk, Infos, Listing.Objects, Listing.Prefixes;
    var o := Scan.List(q, objects.Keys, token, limit);
    if o.Page? {
      Scan.PageFits(q, objects.Keys, token, limit);
      WalkListsNames(q, objects.Keys, Successor.PrefixSuccessor(q.prefix), Scan.Start(q, token), Scan.Clamp(limit));
      Listing.ListsHoldEntries(o.entries);
      var ns := Listing.Objects(o.entries);
      InfosAreRows(objects, ns);
      forall i | 0 <= i < |ns| ensures Infos(objects, ns)[i].name ==
        ns[i] { assert Names(Infos(objects, ns))[i] == ns[i]; }
    }
  }

  /** And where the ranges are right, the page of the listing that was asked for. */
  lemma {:induction false} DeliveredIsPage(q: Listing.Query, objects: map<Bytes, Row>, token: Bytes, limit: int)
    requires [] !in objects && Listing.ExactFor(q, Listing.Ahead(objects.Keys, token))
    ensures var r := Deliver(objects, Scan.List(q, objects.Keys, token, limit));
            var m := set n | n in objects && HasPrefix(n, q.prefix) && Leq(token, n);
            var all := Listing.SimpleListing(q, m);
            var wanted := if 1 <= limit <= 1000 then limit else 1000;
            var es := if |all| <= wanted then all else all[..wanted];
            r.Listed? && Names(r.result.objects) == Listing.Objects(es) && r.result.prefixes == Listing.Prefixes(es) &&
            (r.result.nextPageToken != [] <==> |all| > wanted) &&
            (r.result.nextPageToken != [] ==>
              r.result.nextPageToken in m && Listing.EntryOf(q, r.result.nextPageToken) !in es &&
              forall n :: n in m && Listing.EntryOf(q, n) !in es ==> Leq(r.result.nextPageToken, n))
  {
    hide Scan.List, Infos, Listing.Objects, Listing.Prefixes, Listing.SimpleListing, Listing.EntryOf, Less, Names;
    Paging.PageHasWantedSize(q, objects.Keys, token, limit);
    DeliveredFits(q, objects, token, limit);
    assert (set n | n in objects && HasPrefix(n, q.prefix) && Leq(token, n)) ==
           (set n | n in objects.Keys && HasPrefix(n, q.prefix) && Leq(token, n));
  }

  class Bucket {
    const hs: Hashers
    var objects: map<Bytes, Row>
    var blobs: map<Hash, BlobRow>
    var files: map<Hash, Bytes>
    var tmp: map<nat, Bytes>
    var nextTemp: nat

    constructor (hs: Hashers)
      ensures this.hs == hs && OnDisk() == EMPTY_DISK && tmp == map[] && TempsFresh()
    {
      this.hs := hs;
      objects, blobs, files, tmp, nextTemp := map[], map[], map[], map[], 0;
    }

    function OnDisk(): Disk
      reads this
    {
      Disk(objects, blobs, files)
    }

    /** The class invariant, relative to the contents ever written. */
    predicate Healthy(used: set<Bytes>)
      reads this
    {
      CasRun.Good(hs, used, CasRun.State(OnDisk(), CasRun.Idle))
    }

    predicate TempsFresh()
      reads this
    {
      forall t :: t in tmp ==> t < nextTemp
    }

    function View(): map<Bytes, Object>
      reads this
    {
      Cas.View(OnDisk())
    }

    /** os.CreateTemp in the tmp directory. */
    method TempFile() returns (t: nat)
      requires TempsFresh()
      modifies this`tmp, this`nextTemp
      ensures TempsFresh() && t !in old(tmp) && tmp == old(tmp)[t := []] && t == old(nextTemp) && nextTemp == t + 1
    {
      t := nextTemp;
      nextTemp := nextTemp + 1;
      tmp := tmp[t := []];
    }

    method GetObject(name: Bytes) returns (r: Result<Row>)
      ensures r == if name in objects then Ok(objects[name]) else Err(ObjectNotFound)
    {
      if name in objects {
        return Ok(objects[name]);
      }
      return Err(ObjectNotFound);
    }

    /** Both steps of OpenObject with nothing in between. */
    method OpenObject(name: Bytes, ghost used: set<Bytes>) returns (r: OpenResult)
      requires Healthy(used)
      ensures r == if name in View() then Opened(objects[name], View()[name].content) else OpenFailed(ObjectNotFound)
    {
      var row := GetObject(name);
      if row.Err? {
        return OpenFailed(row.error);
      }
      if row.value.hash !in files {
        return OpenFailed(Io);
      }
      return Opened(row.value, files[row.value.hash]);
    }

    /** One query: the rows from `next` on, below `end` unless that is empty, in name order. */
    method QueryRows(next: Bytes, end: Bytes, limit: nat) returns (batch: seq<ObjectInfo>)
      ensures AtRow(objects.Keys, batch, 0, next, end, limit) && |batch| <= limit
      ensures forall i :: 0 <= i < |batch| ==> batch[i].name in objects && batch[i].row == objects[batch[i].name]
    {
      var names := Batch(objects.Keys, next, end, limit);
      SortedIsSorted(Scan.Rows(objects.Keys, next, end));
      assert forall i :: 0 <= i < |names| ==> names[i] in Sorted(Scan.Rows(objects.Keys, next, end));
      batch := seq(|names|, i requires 0 <= i < |names| && names[i] in objects reads this =>
                     ObjectInfo(names[i], objects[names[i]]));
    }

    /** The scan of the store, in batches. Its result does not depend on their size, which is 1000 in the source. */
    method ListObjects(q: Listing.Query, token: Bytes, limit: int, batchSize: nat := 1000) returns (r: ListOutcome)
      requires batchSize > 0
      ensures r == Deliver(objects, Scan.List(q, objects.Keys, token, limit))
      ensures Listing.ExactFor(q, Listing.Ahead(objects.Keys, token)) ==>
                r == Deliver(objects, Scan.PageOf(q, Listing.Matching(q, objects.Keys, token), Scan.Clamp(limit)))
      ensures r.Listed? ==>
                var wanted := if 1 <= limit <= 1000 then limit else 1000;
                var count := |r.result.objects| + |r.result.prefixes|;
                count <= wanted && (r.result.nextPageToken != [] ==> count == wanted) &&
                forall i :: 0 <= i < |r.result.objects| ==>
                  r.result.objects[i].name in objects && r.result.objects[i].row == objects[r.result.objects[i].name]
      ensures [] !in objects && Listing.ExactFor(q, Listing.Ahead(objects.Keys, token)) ==>
                var m := set n | n in objects && HasPrefix(n, q.prefix) && Leq(token, n);
                var all := Listing.SimpleListing(q, m);
                var wanted := if 1 <= limit <= 1000 then limit else 1000;
                var es := if |all| <= wanted then all else all[..wanted];
                r.Listed? &&
                Names(r.result.objects) == Listing.Objects(es) && r.result.prefixes == Listing.Prefixes(es) &&
                (r.result.nextPageToken != [] <==> |all| > wanted) &&
                (r.result.nextPageToken != [] ==>
                  r.result.nextPageToken in m && Listing.EntryOf(q, r.result.nextPageToken) !in es &&
                  forall n :: n in m && Listing.EntryOf(q, n) !in es ==> Leq(r.result.nextPageToken, n))
    {
      hide *;
      ScanStart(q, objects, token, limit);
      DeliveredFits(q, objects, token, limit);
      if [] !in objects && Listing.ExactFor(q, Listing.Ahead(objects.Keys, token)) {
        DeliveredIsPage(q, objects, token, limit);
      }
      if Listing.ExactFor(q, Listing.Ahead(objects.Keys, token)) {
        Scan.ListIsPage(q, objects.Keys, token, limit);
      }
      var maxResults := limit;
      if maxResults <= 0 || maxResults > Scan.DEFAULT_MAX_RESULTS {
        maxResults := Scan.DEFAULT_MAX_RESULTS;
      }
      var next := q.prefix;
      if Less(next, token) {
        next := token;
      }
      var end := Successor.ComputePrefixSuccessor(q.prefix);
      var infos: seq<ObjectInfo>, prefixes: seq<Bytes>, count := [], [], 0;
      ghost var es: seq<Listing.Entry> := [];
      ghost var all := Scan.List(q, objects.Keys, token, limit);
      label scan:
      while true
        invariant count <= maxResults
        invariant Collected(q, objects, end, all, next, maxResults - count, es, infos, prefixes)
        decreases maxResults - count
      {
        var batch := QueryRows(next, end, batchSize);
        ghost var at, before := next, count;
        var i := 0;
        while i < |batch|
          invariant 0 <= i <= |batch| <= batchSize
          invariant before + i == count <= maxResults
          invariant Collected(q, objects, end, all, at, maxResults - count, es, infos, prefixes)
          invariant AtRow(objects.Keys, batch, i, at, end, batchSize)
          invariant at == if i > 0 then batch[i - 1].name + [0] else next
        {
          var info := batch[i];
          NextOfBatch(objects, batch, i, at, end, batchSize);
          if count >= maxResults {
            CollectFull(q, objects, end, all, at, 0, es, infos, prefixes, info.name);
            return Listed(ListResult(infos, prefixes, info.name));
          }
          if |info.name| < |q.prefix| {
            CollectFull(q, objects, end, all, at, maxResults - count, es, infos, prefixes, info.name);
            return ListPanicked;
          }
          var grouped, cp := CommonPrefix(q, info.name);
          if grouped {
            CollectGroup(q, objects, end, all, at, maxResults - count, es, infos, prefixes, info.name, cp);
            prefixes, es, count := prefixes + [cp], es + [Listing.Group(cp)], count + 1;
            next := Successor.ComputePrefixSuccessor(cp);
            if next == [] {
              break scan;
            }
            continue scan;
          }
          CollectObject(q, objects, end, all, at, maxResults - count, es, infos, prefixes, info);
          infos, es, count := infos + [info], es + [Listing.Object(info.name)], count + 1;
          at := info.name + [0];
          i := i + 1;
        }
        if |batch| < batchSize {
          EndOfBatch(objects.Keys, batch, at, end, batchSize);
          CollectEnd(q, objects, end, all, at, maxResults - count, es, infos, prefixes);
          break;
        }
        next := batch[|batch| - 1].name + [0];
      }
      return Listed(ListResult(infos, prefixes, []));
    }

    /** The common prefix of a name, if the delimiter occurs behind the prefix. */
    method CommonPrefix(q: Listing.Query, name: Bytes) returns (found: bool, cp: Bytes)
      requires |q.prefix| <= |name|
      ensures Listing.EntryOf(q, name) == if found then Listing.Group(cp) else Listing.Object(name)
    {
      var rest := name[|q.prefix|..];
      if q.delimiter != [] {
        var idx := Index(rest, q.delimiter);
        if idx >= 0 {
          return true, q.prefix + rest[..idx + |q.delimiter|];
        }
      }
      return false, [];
    }

    /** The blob file goes after the transaction, still under the lock. */
    method RemoveOrphanFile(orphan: Option<Hash>, fault: Fault)
      modifies this`files
      ensures OnDisk() == if fault.RemoveFails? then old(OnDisk()) else RemoveOrphan(old(OnDisk()), orphan)
    {
      if orphan.Some? && !fault.RemoveFails? {
        files := files - {orphan.value};
      }
    }

    /** Moves the temp file to its place among the blobs, or finds one there already. */
    method InstallFile(t: nat, content: Bytes, fault: Fault) returns (ok: bool)
      requires t in tmp && tmp[t] == content
      modifies this`tmp, this`files
      ensures ok <==> hs.sha256(content) in old(files) || !(fault.MkdirFails? || fault.RenameFails?)
      ensures OnDisk() == if ok then Install(hs, old(OnDisk()), content) else old(OnDisk())
      ensures tmp == if ok && hs.sha256(content) !in old(files) then old(tmp) - {t} else old(tmp)
    {
      var h := hs.sha256(content);
      if h !in files {
        if fault.MkdirFails? || fault.RenameFails? {
          return false;
        }
        files := files[h := tmp[t]];
        tmp := tmp - {t};
      }
      return true;
    }

    /** The transaction of a commit and the removal behind it. */
    method CommitRows(name: Bytes, content: Bytes, size: nat, opts: PutOptions, now: int, fault: Fault)
      returns (r: Result<Row>)
      requires size == |content|
      modifies this`objects, this`blobs, this`files
      ensures OnDisk() == AfterTx(old(OnDisk()), CommitTx(hs, old(OnDisk()), name, content, opts, now), fault)
      ensures var existing := AttributesOf(Existing(old(OnDisk()), name));
              r == if fault.BeginFails? || fault.QueryFails? then Err(Io)
                   else if !Passes(opts.conditions, existing) then Err(PreconditionFailed)
                   else if fault.ExecFails? || fault.TxCommitFails? then Err(Io)
                   else Ok(NewRow(hs, content, NewAttributes(existing, opts, now)))
    {
      hide Passes, DropRef, AddRef, NewAttributes;
      if fault.BeginFails? || fault.QueryFails? {
        return Err(Io);
      }
      var existing := if name in objects then Some(objects[name]) else None;
      if !Passes(opts.conditions, AttributesOf(existing)) {
        return Err(PreconditionFailed);
      }
      if fault.ExecFails? || fault.TxCommitFails? {
        return Err(Io);
      }
      var row := NewRow(hs, content, NewAttributes(AttributesOf(existing), opts, now));
      var rows := AddRef(blobs, row.hash, size);
      var orphan := None;
      if existing.Some? {
        var (dropped, orphaned) := DropRef(rows, existing.value.hash);
        rows := dropped;
        if orphaned {
          orphan := Some(existing.value.hash);
        }
      }
      objects, blobs := objects[name := row], rows;
      RemoveOrphanFile(orphan, fault);
      return Ok(row);
    }

    method DeleteObject(name: Bytes, conds: Conditions, fault: Fault, ghost used: set<Bytes>) returns (r: Result<()>)
      requires Healthy(used)
      modifies this`objects, this`blobs, this`files
      ensures Healthy(used)
      ensures CasRun.State(OnDisk(), CasRun.Idle) ==
              CasRun.Run(hs, CasRun.State(old(OnDisk()), CasRun.Idle), DeleteSteps(name, conds, fault))
      ensures View() == if r.Ok? then old(View()) - {name} else old(View())
      ensures var existing := CasRun.Current(old(View()), name);
              r == if fault.BeginFails? || fault.QueryFails? then Err(Io)
                   else if !Passes(conds, existing) then Err(PreconditionFailed)
                   else if existing.None? then Err(ObjectNotFound)
                   else if fault.ExecFails? || fault.TxCommitFails? then Err(Io)
                   else Ok(())
      ensures var last := r.Ok? && !fault.RemoveFails? &&
                          forall n :: n in old(objects) && n != name ==>
                            old(objects)[n].hash != old(objects)[name].hash;
              files.Keys == old(files).Keys - (if last then {old(objects)[name].hash} else {})
    {
      hide CasRun.Run, CasRun.Good, Cas.View, Passes, DeleteSteps, CasRun.Current, DropRef;
      DeleteRuns(hs, OnDisk(), name, conds, fault);
      DeleteIsHealthy(hs, used, OnDisk(), name, conds, fault);
      DeleteFilesOf(hs, used, OnDisk(), name, conds, fault);
      if fault.BeginFails? || fault.QueryFails? {
        return Err(Io);
      }
      var existing := if name in objects then Some(objects[name]) else None;
      if !Passes(conds, AttributesOf(existing)) {
        return Err(PreconditionFailed);
      }
      if existing.None? {
        return Err(ObjectNotFound);
      }
      if fault.ExecFails? || fault.TxCommitFails? {
        return Err(Io);
      }
      var (rows, orphaned) := DropRef(blobs, existing.value.hash);
      objects, blobs := objects - {name}, rows;
      RemoveOrphanFile(if orphaned then Some(existing.value.hash) else None, fault);
      return Ok(());
    }
  }

  /** Streams content into a temp file, hashing as it goes; the hashers are modelled by what they have been fed. */
  class BlobWriter {
    const b: Bucket
    const temp: nat
    var hashed: Bytes
    var size: int
    var done: bool

    predicate Valid()
      reads this, b
    {
      size == |hashed| && b.TempsFresh() && (!done ==> temp in b.tmp && b.tmp[temp] == hashed)
    }

    constructor (b: Bucket)
      requires b.TempsFresh()
      modifies b`tmp, b`nextTemp
      ensures Valid() && this.b == b && !done && hashed == []
      ensures temp !in old(b.tmp) && b.tmp == old(b.tmp)[temp := []]
    {
      this.b := b;
      var t := b.TempFile();
      temp, hashed, size, done := t, [], 0, false;
    }

    /** Appends p, or as much of it as the temp file takes before an error. */
    method Write(p: Bytes, accepted: nat) returns (n: nat, err: Option<StoreError>)
      requires Valid() && accepted <= |p|
      modifies this`hashed, this`size, b`tmp
      ensures Valid()
      ensures if old(done) then n == 0 && err == Some(WriterFinished) && hashed == old(hashed) && b.tmp == old(b.tmp)
              else n == accepted && hashed == old(hashed) + p[..n] && b.tmp == old(b.tmp)[temp := hashed] &&
                   (err.None? <==> n == |p|)
    {
      if done {
        return 0, Some(WriterFinished);
      }
      b.tmp := b.tmp[temp := b.tmp[temp] + p[..accepted]];
      n := accepted;
      if n > 0 {
        hashed := hashed + p[..n];
        size := size + n;
      }
      err := if n == |p| then None else Some(Io);
    }

    method Abort()
      requires Valid()
      modifies this`done, b`tmp
      ensures Valid() && done && b.tmp == if old(done) then old(b.tmp) else old(b.tmp) - {temp}
    {
      if done {
        return;
      }
      done := true;
      b.tmp := b.tmp - {temp};
    }

    method Commit(name: Bytes, opts: PutOptions, now: int, fault: Fault, ghost used: set<Bytes>)
      returns (r: Result<Row>)
      requires Valid() && b.Healthy(used) && CollisionFree(b.hs, used) && hashed in used
      modifies this`done, b`tmp, b`objects, b`blobs, b`files
      ensures Valid() && done && hashed == old(hashed) && b.Healthy(used)
      ensures b.tmp == if old(done) then old(b.tmp) else old(b.tmp) - {temp}
      ensures old(done) ==> r == Err(WriterFinished) && b.OnDisk() == old(b.OnDisk())
      ensures !old(done) ==>
                CasRun.State(b.OnDisk(), CasRun.Idle) ==
                CasRun.Run(b.hs, CasRun.State(old(b.OnDisk()), CasRun.Idle),
                           CommitSteps(b.hs, old(b.OnDisk()), name, hashed, opts, now, fault))
      ensures !old(done) ==>
                var existing := CasRun.Current(old(b.View()), name);
                (r.Ok? <==> !FailsEarly(b.hs, old(b.OnDisk()), name, hashed, fault) && !TxFails(fault) &&
                            Passes(opts.conditions, existing)) &&
                (r.Ok? ==> r.value == NewRow(b.hs, hashed, NewAttributes(existing, opts, now))) &&
                (r == Err(InvalidName) <==> !ValidObjectName(name)) &&
                (r == Err(PreconditionFailed) <==>
                  !FailsEarly(b.hs, old(b.OnDisk()), name, hashed, fault) && !fault.BeginFails? && !fault.QueryFails? &&
                  !Passes(opts.conditions, existing))
      ensures b.View() == if r.Ok? then old(b.View())[name := Object(hashed, r.value.attributes)] else old(b.View())
      ensures r.Ok? ==>
                r.value.hash == b.hs.sha256(hashed) && r.value.size == |hashed| &&
                r.value.md5 == b.hs.md5(hashed) && r.value.crc32c == b.hs.crc32c(hashed) &&
                var a := r.value.attributes;
                a.contentType == opts.contentType && a.metadata == opts.metadata && a.metageneration == 1 &&
                a.created == now == a.updated &&
                var before := old(b.View());
                a.generation == if name in before && before[name].attributes.generation >= now
                                then before[name].attributes.generation + 1 else now
      ensures !old(done) ==>
                var h, before := b.hs.sha256(hashed), old(b.objects);
                var replaced := r.Ok? && !fault.RemoveFails? && name in before && before[name].hash != h &&
                                forall n :: n in before && n != name ==> before[n].hash != before[name].hash;
                (r.Err? ==> r.error in {InvalidName, PreconditionFailed, Io}) &&
                b.files.Keys == (if FailsEarly(b.hs, old(b.OnDisk()), name, hashed, fault) then old(b.files).Keys
                                 else old(b.files).Keys + {h}) -
                                (if replaced then {before[name].hash} else {})
    {
      hide CasRun.Run, CasRun.Good, Cas.View, Passes, CommitSteps, NewAttributes, NewRow, CommitTx, AfterTx,
        ValidObjectName, FailsEarly, TxFails;
      if done {
        return Err(WriterFinished);
      }
      done := true;
      CommitRuns(b.hs, b.OnDisk(), name, hashed, opts, now, fault);
      CommitIsHealthy(b.hs, used, b.OnDisk(), name, hashed, opts, now, fault);
      CommitFilesOf(b.hs, used, b.OnDisk(), name, hashed, opts, now, fault);
      r := Finish(name, opts, now, fault);
      b.tmp := b.tmp - {temp};
    }

    /** Commit from the check of the name to the end of the transaction. */
    method Finish(name: Bytes, opts: PutOptions, now: int, fault: Fault) returns (r: Result<Row>)
      requires size == |hashed| && temp in b.tmp && b.tmp[temp] == hashed
      modifies b`tmp, b`objects, b`blobs, b`files
      ensures var existing := AttributesOf(Existing(old(b.OnDisk()), name));
              r == if !ValidObjectName(name) then Err(InvalidName)
                   else if FailsEarly(b.hs, old(b.OnDisk()), name, hashed, fault) || fault in {BeginFails, QueryFails}
                   then Err(Io)
                   else if !Passes(opts.conditions, existing) then Err(PreconditionFailed)
                   else if TxFails(fault) then Err(Io)
                   else Ok(NewRow(b.hs, hashed, NewAttributes(existing, opts, now)))
      ensures b.OnDisk() == AfterCommit(b.hs, old(b.OnDisk()), name, hashed, opts, now, fault)
      ensures b.tmp - {temp} == old(b.tmp) - {temp} && b.tmp.Keys <= old(b.tmp).Keys
    {
      hide Passes, NewAttributes, NewRow, CommitTx, AfterTx;
      if !ValidObjectName(name) {
        return Err(InvalidName);
      }
      if fault.SyncFails? || fault.CloseFails? {
        return Err(Io);
      }
      var installed := b.InstallFile(temp, hashed, fault);
      if !installed {
        return Err(Io);
      }
      r := b.CommitRows(name, hashed, size, opts, now, fault);
    }
  }

  /** PutObject: a writer, io.Copy from a body that may break off, and a commit. */
  method PutObject(b: Bucket, name: Bytes, body: Bytes, broken: bool, opts: PutOptions, now: int, fault: Fault,
                   ghost used: set<Bytes>)
    returns (r: Result<Row>)
    requires b.TempsFresh() && b.Healthy(used) && CollisionFree(b.hs, used) && body in used
    modifies b
    ensures b.TempsFresh() && b.Healthy(used) && b.tmp == old(b.tmp)
    ensures r.Ok? <==> !broken && !FailsEarly(b.hs, old(b.OnDisk()), name, body, fault) && !TxFails(fault) &&
                       Passes(opts.conditions, CasRun.Current(old(b.View()), name))
    ensures r.Ok? ==>
              r.value == NewRow(b.hs, body, NewAttributes(CasRun.Current(old(b.View()), name), opts, now)) &&
              b.View() == old(b.View())[name := Object(body, r.value.attributes)]
    ensures !r.Ok? ==> b.View() == old(b.View())
    ensures r.Ok? ==>
              r.value.hash == b.hs.sha256(body) && r.value.size == |body| &&
              r.value.md5 == b.hs.md5(body) && r.value.crc32c == b.hs.crc32c(body) &&
              var a := r.value.attributes;
              a.contentType == opts.contentType && a.metadata == opts.metadata && a.metageneration == 1 &&
              a.created == now == a.updated &&
              var before := old(b.View());
              a.generation == if name in before && before[name].attributes.generation >= now
                              then before[name].attributes.generation + 1 else now
    ensures broken || fault in {SyncFails, CloseFails, BeginFails, QueryFails, ExecFails, TxCommitFails} ==> r.Err?
    ensures !broken && fault in {NoFault, RemoveFails} ==>
              (r.Ok? <==> ValidObjectName(name) && Passes(opts.conditions, CasRun.Current(old(b.View()), name)))
  {
    hide CasRun.Good, Cas.View, Passes, CommitSteps, CasRun.Run, CasRun.Current, NewAttributes, NewRow;
    var w := new BlobWriter(b);
    var n, err := w.Write(body, |body|);
    assert w.hashed == body;
    if broken {
      w.Abort();
      return Err(Io);
    }
    r := w.Commit(name, opts, now, fault, used);
  }
}
