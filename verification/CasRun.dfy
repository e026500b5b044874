/** One bucket as a step machine: mutations under commitMu, cut into their separate steps, with failures and crashes. */
module CasRun {
  import opened ByteStrings
  import opened Types
  import opened Cas

  /** How far the holder of commitMu has got. Readers hold nothing and so are not part of the state. */
  datatype Phase =
    | Idle
    | Committing(name: Bytes, content: Bytes, opts: PutOptions)
    | Installed(name: Bytes, content: Bytes, opts: PutOptions)
    | Deleting(name: Bytes, conds: Conditions)
    | Removing(orphan: Option<Hash>)

  datatype State = State(disk: Disk, phase: Phase)

  datatype Step =
    | LockCommit(name: Bytes, content: Bytes, opts: PutOptions)
    | LockDelete(name: Bytes, conds: Conditions)
    | InstallFile
    | Transact(now: int)
    | RemoveFile
    | Fail         // an I/O error wherever one is possible; a failed os.Remove is ignored, anything else ends the call
    | Crash        // the process dies; disk and tables stay as they are

  const INITIAL := State(EMPTY_DISK, Idle)

  function TxOf(hs: Hashers, s: State, now: int): TxResult
  {
    match s.phase
    case Installed(name, content, opts) => CommitTx(hs, s.disk, name, content, opts, now)
    case Deleting(name, conds) => DeleteTx(s.disk, name, conds)
    case _ => RolledBack(Io)
  }

  /** A step that is not possible in the state changes nothing. */
  function Apply(hs: Hashers, s: State, step: Step): State
  {
    match step
    case LockCommit(name, content, opts) =>
      if s.phase.Idle? && ValidObjectName(name) then s.(phase := Committing(name, content, opts)) else s
    case LockDelete(name, conds) =>
      if s.phase.Idle? then s.(phase := Deleting(name, conds)) else s
    case InstallFile =>
      if s.phase.Committing?
      then State(Install(hs, s.disk, s.phase.content), Installed(s.phase.name, s.phase.content, s.phase.opts)) else s
    case Transact(now) =>
      if s.phase.Installed? || s.phase.Deleting? then
        var r := TxOf(hs, s, now);
        if r.Committed? then State(r.disk, Removing(r.orphan)) else s.(phase := Idle)
      else s
    case RemoveFile =>
      if s.phase.Removing? then State(RemoveOrphan(s.disk, s.phase.orphan), Idle) else s
    case Fail => s.(phase := Idle)
    case Crash => s.(phase := Idle)
  }

  function Run(hs: Hashers, s: State, steps: seq<Step>): State
  {
    if steps == [] then s else Apply(hs, Run(hs, s, steps[..|steps| - 1]), steps[|steps| - 1])
  }

  function At(hs: Hashers, steps: seq<Step>, i: nat): State
    requires i <= |steps|
  {
    Run(hs, INITIAL, steps[..i])
  }

  predicate Uses(steps: seq<Step>, used: set<Bytes>)
  {
    forall i :: 0 <= i < |steps| && steps[i].LockCommit? ==> steps[i].content in used
  }

  lemma AtNext(hs: Hashers, steps: seq<Step>, i: nat)
    requires i < |steps|
    ensures At(hs, steps, i + 1) == Apply(hs, At(hs, steps, i), steps[i])
  {
    assert steps[..i + 1][..i] == steps[..i];
  }

  // --- what holds in every reachable state ------------------------------------------------------

  /** Whatever the hash function does: tables, files and the operation under way fit together. */
  predicate InOrder(hs: Hashers, s: State)
  {
    Sound(hs, s.disk) &&
    (forall n :: n in s.disk.objects ==> ValidObjectName(n)) &&
    match s.phase
    case Committing(name, _, _) => ValidObjectName(name)
    case Installed(name, content, _) => ValidObjectName(name) && hs.sha256(content) in s.disk.files
    case Removing(orphan) => orphan.Some? ==> orphan.value in s.disk.files && orphan.value !in s.disk.blobs
    case _ => true
  }

  lemma {:induction false} InOrderAfterTransact(hs: Hashers, s: State, now: int)
    requires InOrder(hs, s)
    ensures InOrder(hs, Apply(hs, s, Transact(now)))
  {
    hide Counted, AddRef, DropRef, Refs, Passes, ValidObjectName;
    match s.phase
    case Installed(name, content, opts) =>
      if CommitTx(hs, s.disk, name, content, opts, now).Committed? {
        SoundAfterCommit(hs, s.disk, name, content, opts, now);
        OrphansOfCommit(hs, s.disk, name, content, opts, now);
      }
    case Deleting(name, conds) =>
      if DeleteTx(s.disk, name, conds).Committed? {
        SoundAfterDelete(hs, s.disk, name, conds);
        CountedAfterDelete(s.disk, name, conds);
      }
    case _ =>
  }

  lemma {:induction false} InOrderAfterStep(hs: Hashers, s: State, step: Step)
    requires InOrder(hs, s)
    ensures InOrder(hs, Apply(hs, s, step))
  {
    hide Sound, CommitTx, DeleteTx, ValidObjectName;
    match step
    case Transact(now) => InOrderAfterTransact(hs, s, now);
    case InstallFile =>
      if s.phase.Committing? { SoundAfterInstall(hs, s.disk, s.phase.content); }
    case RemoveFile =>
      if s.phase.Removing? { SoundAfterRemoval(hs, s.disk, s.phase.orphan); }
    case _ =>
  }

  /** Safety of every run, at each point, mid-operation, after failures and after crashes, for any hash function. */
  lemma {:induction false} AlwaysInOrder(hs: Hashers, steps: seq<Step>, i: nat)
    requires i <= |steps|
    ensures InOrder(hs, At(hs, steps, i))
  {
    hide InOrder, Apply;
    if i > 0 {
      AlwaysInOrder(hs, steps, i - 1);
      AtNext(hs, steps, i - 1);
      InOrderAfterStep(hs, At(hs, steps, i - 1), steps[i - 1]);
    } else {
      InOrderAtFirst(hs);
    }
  }

  lemma InOrderAtFirst(hs: Hashers)
    ensures InOrder(hs, INITIAL)
  {
  }

  /** What holds besides as long as the contents in use do not collide. */
  predicate Good(hs: Hashers, used: set<Bytes>, s: State)
  {
    InOrder(hs, s) && Consistent(hs, s.disk, used) &&
    match s.phase
    case Committing(_, content, _) => content in used
    case Installed(_, content, _) => content in used
    case _ => true
  }

  lemma {:induction false} GoodAfterStep(hs: Hashers, used: set<Bytes>, s: State, step: Step)
    requires CollisionFree(hs, used) && Good(hs, used, s)
    requires step.LockCommit? ==> step.content in used
    ensures Good(hs, used, Apply(hs, s, step))
  {
    hide InOrder, Consistent, CommitTx, DeleteTx, CollisionFree;
    InOrderAfterStep(hs, s, step);
    match step
    case Transact(now) => ConsistentAfterTransact(hs, used, s, now);
    case InstallFile =>
      if s.phase.Committing? { ConsistentAfterInstall(hs, s.disk, used, s.phase.content); }
    case RemoveFile =>
      OrphanHasNoRow(hs, s);
      if s.phase.Removing? { ConsistentAfterRemoval(hs, s.disk, used, s.phase.orphan); }
    case _ =>
  }

  lemma OrphanHasNoRow(hs: Hashers, s: State)
    requires InOrder(hs, s)
    ensures s.phase.Removing? && s.phase.orphan.Some? ==> s.phase.orphan.value !in s.disk.blobs
  {
  }

  lemma {:induction false} ConsistentAfterTransact(hs: Hashers, used: set<Bytes>, s: State, now: int)
    requires CollisionFree(hs, used) && Good(hs, used, s)
    ensures Consistent(hs, Apply(hs, s, Transact(now)).disk, used)
  {
    hide Consistent, CommitTx, DeleteTx, CollisionFree;
    match s.phase
    case Installed(name, content, opts) =>
      if CommitTx(hs, s.disk, name, content, opts, now).Committed? {
        ConsistentAfterCommit(hs, s.disk, used, name, content, opts, now);
      }
    case Deleting(name, conds) =>
      if DeleteTx(s.disk, name, conds).Committed? {
        ConsistentAfterDelete(hs, s.disk, used, name, conds);
      }
    case _ =>
  }

  lemma {:induction false} AlwaysGood(hs: Hashers, used: set<Bytes>, steps: seq<Step>, i: nat)
    requires CollisionFree(hs, used) && Uses(steps, used) && i <= |steps|
    ensures Good(hs, used, At(hs, steps, i))
  {
    hide InOrder, Apply;
    if i > 0 {
      AlwaysGood(hs, used, steps, i - 1);
      AtNext(hs, steps, i - 1);
      GoodAfterStep(hs, used, At(hs, steps, i - 1), steps[i - 1]);
    } else {
      InOrderAtFirst(hs);
    }
  }

  // --- refinement of a plain map ------------------------------------------------------------------

  /** The same machine with a map for a disk: no hashes, no reference counts, no files. */
  datatype MapPhase = Resting | Putting(name: Bytes, content: Bytes, opts: PutOptions)
                    | Ready(name: Bytes, content: Bytes, opts: PutOptions)
                    | Dropping(name: Bytes, conds: Conditions) | Finishing

  datatype MapState = MapState(objects: map<Bytes, Object>, phase: MapPhase)

  function Current(m: map<Bytes, Object>, name: Bytes): (a: Option<Attributes>)
    ensures name !in m ==> a == None
    ensures name in m ==> a == Some(m[name].attributes)
  {
    if name in m then Some(m[name].attributes) else None
  }

  function MapApply(m: MapState, step: Step): MapState
  {
    match step
    case LockCommit(name, content, opts) =>
      if m.phase.Resting? && ValidObjectName(name) then m.(phase := Putting(name, content, opts)) else m
    case LockDelete(name, conds) =>
      if m.phase.Resting? then m.(phase := Dropping(name, conds)) else m
    case InstallFile =>
      if m.phase.Putting? then m.(phase := Ready(m.phase.name, m.phase.content, m.phase.opts)) else m
    case Transact(now) =>
      (match m.phase
       case Ready(name, content, opts) =>
         var existing := Current(m.objects, name);
         if Passes(opts.conditions, existing)
         then MapState(m.objects[name := Object(content, NewAttributes(existing, opts, now))], Finishing)
         else m.(phase := Resting)
       case Dropping(name, conds) =>
         if Passes(conds, Current(m.objects, name)) && name in m.objects
         then MapState(m.objects - {name}, Finishing)
         else m.(phase := Resting)
       case _ => m)
    case RemoveFile => if m.phase.Finishing? then m.(phase := Resting) else m
    case Fail => m.(phase := Resting)
    case Crash => m.(phase := Resting)
  }

  function MapRun(m: MapState, steps: seq<Step>): MapState
  {
    if steps == [] then m else MapApply(MapRun(m, steps[..|steps| - 1]), steps[|steps| - 1])
  }

  function Abstract(s: State): MapState
  {
    MapState(View(s.disk),
             match s.phase
             case Idle => Resting
             case Committing(name, content, opts) => Putting(name, content, opts)
             case Installed(name, content, opts) => Ready(name, content, opts)
             case Deleting(name, conds) => Dropping(name, conds)
             case Removing(_) => Finishing)
  }

  lemma CurrentIsExisting(hs: Hashers, used: set<Bytes>, d: Disk, name: Bytes)
    requires Consistent(hs, d, used)
    ensures Current(View(d), name) == AttributesOf(Existing(d, name))
  {
  }

  lemma StepRefines(hs: Hashers, used: set<Bytes>, s: State, step: Step)
    requires CollisionFree(hs, used) && Good(hs, used, s)
    ensures Abstract(Apply(hs, s, step)) == MapApply(Abstract(s), step)
  {
    hide View, Consistent, CommitTx, DeleteTx, Install;
    match step
    case Transact(now) => TransactRefines(hs, used, s, now);
    case InstallFile =>
      if s.phase.Committing? { ConsistentAfterInstall(hs, s.disk, used, s.phase.content); }
    case RemoveFile =>
      if s.phase.Removing? { ConsistentAfterRemoval(hs, s.disk, used, s.phase.orphan); }
    case _ =>
  }

  lemma TransactRefines(hs: Hashers, used: set<Bytes>, s: State, now: int)
    requires CollisionFree(hs, used) && Good(hs, used, s)
    ensures Abstract(Apply(hs, s, Transact(now))) == MapApply(Abstract(s), Transact(now))
  {
    hide View, Consistent, AddRef, DropRef, Passes, Sound, ValidObjectName, NewAttributes, NewRow;
    match s.phase
    case Installed(name, content, opts) =>
      CurrentIsExisting(hs, used, s.disk, name);
      if CommitTx(hs, s.disk, name, content, opts, now).Committed? {
        ConsistentAfterCommit(hs, s.disk, used, name, content, opts, now);
      }
    case Deleting(name, conds) =>
      CurrentIsExisting(hs, used, s.disk, name);
      ViewKeys(hs, used, s.disk);
      if DeleteTx(s.disk, name, conds).Committed? {
        ConsistentAfterDelete(hs, s.disk, used, name, conds);
      }
    case _ =>
  }

  lemma ViewKeys(hs: Hashers, used: set<Bytes>, d: Disk)
    requires Consistent(hs, d, used)
    ensures View(d).Keys == d.objects.Keys
  {
  }

  /** Refinement: every run of the store, failures and crashes included, is step by step the run of a plain map. */
  lemma {:induction false} RunsRefine(hs: Hashers, used: set<Bytes>, steps: seq<Step>)
    requires CollisionFree(hs, used) && Uses(steps, used)
    ensures Abstract(Run(hs, INITIAL, steps)) == MapRun(Abstract(INITIAL), steps)
    decreases |steps|
  {
    if steps != [] {
      var n := |steps| - 1;
      var before := Run(hs, INITIAL, steps[..n]);
      RunsRefine(hs, used, steps[..n]);
      AlwaysGood(hs, used, steps, n);
      StepRefines(hs, used, before, steps[n]);
    }
  }

  /** A commit under a one-letter name, from start to end. */
  function Put(letter: Byte, content: Bytes): seq<Step>
  {
    [LockCommit([letter], content, PutOptions([], map[], Conditions(None, None, None, None))), InstallFile,
      Transact(1), RemoveFile]
  }

  lemma {:induction false} RunNext(hs: Hashers, steps: seq<Step>, step: Step)
    ensures Run(hs, INITIAL, steps + [step]) == Apply(hs, Run(hs, INITIAL, steps), step)
    ensures MapRun(Abstract(INITIAL), steps + [step]) == MapApply(MapRun(Abstract(INITIAL), steps), step)
  {
    assert (steps + [step])[..|steps|] == steps;
  }

  lemma {:induction false} RunFour(hs: Hashers, steps: seq<Step>, more: seq<Step>)
    requires |more| == 4
    ensures var s := Run(hs, INITIAL, steps);
            Run(hs, INITIAL, steps + more) ==
            Apply(hs, Apply(hs, Apply(hs, Apply(hs, s, more[0]), more[1]), more[2]), more[3])
    ensures var m := MapRun(Abstract(INITIAL), steps);
            MapRun(Abstract(INITIAL), steps + more) ==
            MapApply(MapApply(MapApply(MapApply(m, more[0]), more[1]), more[2]), more[3])
  {
    hide Run, MapRun, Apply, MapApply, Abstract;
    RunNext(hs, steps, more[0]);
    RunNext(hs, steps + [more[0]], more[1]);
    RunNext(hs, steps + [more[0]] + [more[1]], more[2]);
    RunNext(hs, steps + [more[0]] + [more[1]] + [more[2]], more[3]);
    assert steps + more == steps + [more[0]] + [more[1]] + [more[2]] + [more[3]];
  }

  /** The four steps of putting a new name, in the store and in the map. */
  lemma {:induction false} PutFrom(hs: Hashers, s: State, m: MapState, letter: Byte, content: Bytes)
    requires ValidObjectName([letter]) && s.phase.Idle? && [letter] !in s.disk.objects && m.phase.Resting? &&
             [letter] !in m.objects
    ensures var p := Put(letter, content);
            var s' := Apply(hs, Apply(hs, Apply(hs, Apply(hs, s, p[0]), p[1]), p[2]), p[3]);
            var m' := MapApply(MapApply(MapApply(MapApply(m, p[0]), p[1]), p[2]), p[3]);
            s'.phase.Idle? && s'.disk.files == Install(hs, s.disk, content).files &&
            s'.disk.objects.Keys == s.disk.objects.Keys + {[letter]} &&
            s'.disk.objects[[letter]].hash == hs.sha256(content) &&
            m'.phase.Resting? && m'.objects.Keys == m.objects.Keys + {[letter]} &&
            m'.objects[[letter]].content == content
  {
    hide AddRef, NextGeneration;
  }

  /** Of two contents with one hash, the first to come is what the names of both give. */
  lemma {:induction false} CollisionsShow(hs: Hashers, a: Bytes, b: Bytes)
    requires a != b && hs.sha256(a) == hs.sha256(b)
    ensures var steps := Put(97, a) + Put(98, b);
            [98] in View(Run(hs, INITIAL, steps).disk) && View(Run(hs, INITIAL, steps).disk)[[98]].content == a &&
            [98] in MapRun(Abstract(INITIAL), steps).objects &&
            MapRun(Abstract(INITIAL), steps).objects[[98]].content == b
  {
    hide Run, MapRun, Apply, MapApply;
    NoSteps(hs);
    assert Put(97, a) == [] + Put(97, a);
    RunFour(hs, [], Put(97, a));
    PutFrom(hs, INITIAL, Abstract(INITIAL), 97, a);
    RunFour(hs, Put(97, a), Put(98, b));
    PutFrom(hs, Run(hs, INITIAL, Put(97, a)), MapRun(Abstract(INITIAL), Put(97, a)), 98, b);
  }

  lemma {:induction false} NoSteps(hs: Hashers)
    ensures Run(hs, INITIAL, []) == INITIAL && MapRun(Abstract(INITIAL), []) == Abstract(INITIAL)
  {
  }

  /** So the store is a plain map for all runs exactly if no two of the contents share a hash. */
  lemma {:induction false} RefinesIffCollisionFree(hs: Hashers, used: set<Bytes>)
    ensures CollisionFree(hs, used) <==>
            forall steps :: Uses(steps, used) ==> Abstract(Run(hs, INITIAL, steps)) == MapRun(Abstract(INITIAL), steps)
  {
    hide Run, MapRun, View;
    if CollisionFree(hs, used) {
      forall steps | Uses(steps, used) ensures Abstract(Run(hs, INITIAL, steps)) == MapRun(Abstract(INITIAL), steps) {
        RunsRefine(hs, used, steps);
      }
    } else {
      var a, b :| a in used && b in used && hs.sha256(a) == hs.sha256(b) && a != b;
      CollisionsShow(hs, a, b);
      assert Uses(Put(97, a) + Put(98, b), used);
    }
  }

  // --- readers that take no lock -----------------------------------------------------------------

  /** os.Open on the path of the row's hash. */
  function OpenBlob(d: Disk, row: Row): Option<Bytes>
  {
    if row.hash in d.files then Some(d.files[row.hash]) else None
  }

  /** The last reference to a blob goes at step k. */
  predicate DroppedAt(hs: Hashers, steps: seq<Step>, k: nat, h: Hash)
    requires k < |steps|
  {
    h in At(hs, steps, k).disk.blobs && h !in At(hs, steps, k + 1).disk.blobs
  }

  lemma {:induction false} KeptOrDropped(hs: Hashers, steps: seq<Step>, i: nat, j: nat, h: Hash)
    requires i <= j <= |steps| && h in At(hs, steps, i).disk.blobs
    ensures h in At(hs, steps, j).disk.blobs || exists k :: i <= k < j && DroppedAt(hs, steps, k, h)
    decreases j
  {
    if i < j {
      KeptOrDropped(hs, steps, i, j - 1, h);
      if h in At(hs, steps, j - 1).disk.blobs && h !in At(hs, steps, j).disk.blobs {
        assert DroppedAt(hs, steps, j - 1, h);
      }
    }
  }

  /** A reader that reads the row at i and opens the file at j gets content with that row's hash or, only if the last
      reference to the blob went in between, nothing; without collisions it is the content of that very version. */
  lemma LockFreeOpen(hs: Hashers, used: set<Bytes>, steps: seq<Step>, i: nat, j: nat, name: Bytes)
    requires i <= j <= |steps| && name in At(hs, steps, i).disk.objects
    ensures var row := At(hs, steps, i).disk.objects[name];
            match OpenBlob(At(hs, steps, j).disk, row)
            case Some(c) => hs.sha256(c) == row.hash
            case None => exists k :: i <= k < j && DroppedAt(hs, steps, k, row.hash)
    ensures CollisionFree(hs, used) && Uses(steps, used) ==>
              var d := At(hs, steps, i).disk;
              name in View(d) && View(d)[name].attributes == d.objects[name].attributes &&
              var c := OpenBlob(At(hs, steps, j).disk, d.objects[name]);
              c.Some? ==> c.value == View(d)[name].content && |c.value| == d.objects[name].size
  {
    AlwaysInOrder(hs, steps, i);
    AlwaysInOrder(hs, steps, j);
    KeptOrDropped(hs, steps, i, j, At(hs, steps, i).disk.objects[name].hash);
    if CollisionFree(hs, used) && Uses(steps, used) {
      AlwaysGood(hs, used, steps, i);
      AlwaysGood(hs, used, steps, j);
    }
  }

  /** Deleting or replacing one of several names with the same content leaves the others as they were. */
  lemma {:induction false} SharersUndisturbed(hs: Hashers, s: State, step: Step, name: Bytes)
    requires InOrder(hs, s) && name in s.disk.objects
    requires match s.phase case Installed(n, _, _) => n != name case Deleting(n, _) => n != name case _ => true
    ensures var d, d' := s.disk, Apply(hs, s, step).disk;
            name in d'.objects && d'.objects[name] == d.objects[name] &&
            OpenBlob(d', d'.objects[name]) == OpenBlob(d, d.objects[name]) && OpenBlob(d, d.objects[name]).Some?
  {
    hide Refs, Apply;
    InOrderAfterStep(hs, s, step);
    OtherRowsUntouched(hs, s, step, name);
    FilesNeverChange(hs, s, step, s.disk.objects[name].hash);
  }

  /** Files come and go, but none is written again. */
  lemma {:induction false} FilesNeverChange(hs: Hashers, s: State, step: Step, h: Hash)
    requires h in s.disk.files && h in Apply(hs, s, step).disk.files
    ensures Apply(hs, s, step).disk.files[h] == s.disk.files[h]
  {
    hide Passes, AddRef, DropRef, NewAttributes;
  }

  lemma OtherRowsUntouched(hs: Hashers, s: State, step: Step, name: Bytes)
    requires name in s.disk.objects
    requires match s.phase case Installed(n, _, _) => n != name case Deleting(n, _) => n != name case _ => true
    ensures var d' := Apply(hs, s, step).disk; name in d'.objects && d'.objects[name] == s.disk.objects[name]
  {
    hide Passes, AddRef, DropRef, NewAttributes;
  }

  // --- leaked files ------------------------------------------------------------------------------

  function Unreferenced(d: Disk): set<Hash>
  {
    d.files.Keys - d.blobs.Keys
  }

  /** The file that the operation under way has yet to refer to or to remove. */
  function InHand(hs: Hashers, s: State): set<Hash>
  {
    match s.phase
    case Installed(_, content, _) => {hs.sha256(content)}
    case Removing(orphan) => if orphan.Some? then {orphan.value} else {}
    case _ => {}
  }

  /** The operation under way lets go of its file: an error or a refused precondition behind the install, a failed
      removal, a crash. */
  predicate LetsGo(hs: Hashers, s: State, step: Step)
  {
    step.Fail? || step.Crash? || (step.Transact? && s.phase.Installed? && TxOf(hs, s, step.now).RolledBack?)
  }

  /** A step that leaves a file behind: one that lets go of a file in hand to which no blob row refers. */
  predicate Leaky(hs: Hashers, s: State, step: Step)
  {
    LetsGo(hs, s, step) && !(InHand(hs, s) <= s.disk.blobs.Keys)
  }

  function LeakySteps(hs: Hashers, steps: seq<Step>): nat
  {
    if steps == [] then 0
    else
      var n := |steps| - 1;
      LeakySteps(hs, steps[..n]) + One(Leaky(hs, Run(hs, INITIAL, steps[..n]), steps[n]))
  }

  /** What an operation leaves behind, once it has let go of the file in hand. */
  predicate Contained(hs: Hashers, s: State, s': State, leaky: bool)
  {
    Unreferenced(s'.disk) - InHand(hs, s') <= Unreferenced(s.disk) - (if leaky then {} else InHand(hs, s))
  }

  lemma {:induction false} LeakGrowthByTransact(hs: Hashers, s: State, now: int)
    requires Counted(s.disk)
    ensures Contained(hs, s, Apply(hs, s, Transact(now)), Leaky(hs, s, Transact(now)))
  {
    hide CommitTx, DeleteTx, Counted, Refs;
    match s.phase
    case Installed(name, content, opts) =>
      if CommitTx(hs, s.disk, name, content, opts, now).Committed? {
        OrphansOfCommit(hs, s.disk, name, content, opts, now);
        TransactionsKeepFiles(hs, s.disk, name, content, opts, now);
      }
    case Deleting(name, conds) =>
      if DeleteTx(s.disk, name, conds).Committed? {
        CountedAfterDelete(s.disk, name, conds);
        DeletionsKeepFiles(s.disk, name, conds);
      }
    case _ =>
  }

  lemma TransactionsKeepFiles(hs: Hashers, d: Disk, name: Bytes, content: Bytes, opts: PutOptions, now: int)
    ensures var r := CommitTx(hs, d, name, content, opts, now); r.Committed? ==> r.disk.files == d.files
  {
  }

  lemma DeletionsKeepFiles(d: Disk, name: Bytes, conds: Conditions)
    ensures var r := DeleteTx(d, name, conds); r.Committed? ==> r.disk.files == d.files
  {
  }

  lemma {:induction false} LeakGrowth(hs: Hashers, s: State, step: Step)
    requires Counted(s.disk)
    ensures Contained(hs, s, Apply(hs, s, step), Leaky(hs, s, step))
  {
    hide CommitTx, DeleteTx, Counted;
    if step.Transact? {
      LeakGrowthByTransact(hs, s, step.now);
    }
  }

  lemma AddOne(a: set<Hash>, b: set<Hash>, c: set<Hash>)
    requires a <= b && |c| <= 1
    ensures |a| <= |b - c| + 1
  {
    SmallerIsLess(a, b);
    assert b == (b - c) + (b * c) && |b * c| <= |c| by { SmallerIsLess(b * c, c); }
  }

  lemma SmallerIsLess(a: set<Hash>, b: set<Hash>)
    requires a <= b
    ensures |a| <= |b|
  {
    assert b == a + (b - a);
  }

  lemma {:induction false} LeaksAreCounted(hs: Hashers, steps: seq<Step>)
    ensures var s := Run(hs, INITIAL, steps); |Unreferenced(s.disk) - InHand(hs, s)| <= LeakySteps(hs, steps)
    decreases |steps|
  {
    hide InOrder, Apply, Leaky, InHand;
    if steps != [] {
      var n := |steps| - 1;
      LeaksAreCounted(hs, steps[..n]);
      AlwaysInOrder(hs, steps, n);
      OneMoreLeak(hs, Run(hs, INITIAL, steps[..n]), steps[n]);
    } else {
      assert Unreferenced(EMPTY_DISK) == {};
    }
  }

  lemma {:induction false} OneMoreLeak(hs: Hashers, s: State, step: Step)
    requires InOrder(hs, s)
    ensures var s' := Apply(hs, s, step);
            |Unreferenced(s'.disk) - InHand(hs, s')| <= |Unreferenced(s.disk) - InHand(hs, s)| + One(Leaky(hs, s, step))
  {
    hide Counted, Apply, Leaky, Unreferenced;
    var s' := Apply(hs, s, step);
    LeakGrowth(hs, s, step);
    if Leaky(hs, s, step) {
      AddOne(Unreferenced(s'.disk) - InHand(hs, s'), Unreferenced(s.disk), InHand(hs, s));
    } else {
      SmallerIsLess(Unreferenced(s'.disk) - InHand(hs, s'), Unreferenced(s.disk) - InHand(hs, s));
    }
  }

  /** Leak bound, for any hash function: between operations there are no more stray files than leaky steps; with none,
      files and blob rows agree, and a bucket without objects has no files left. */
  lemma LeakBound(hs: Hashers, steps: seq<Step>)
    requires Run(hs, INITIAL, steps).phase.Idle?
    ensures var d := Run(hs, INITIAL, steps).disk;
            |Unreferenced(d)| <= LeakySteps(hs, steps) &&
            (LeakySteps(hs, steps) == 0 ==> d.files.Keys == d.blobs.Keys) &&
            (LeakySteps(hs, steps) == 0 && d.objects == map[] ==> d.files == map[])
  {
    hide LeakySteps, InOrder;
    var s := Run(hs, INITIAL, steps);
    LeaksAreCounted(hs, steps);
    assert steps[..|steps|] == steps;
    AlwaysInOrder(hs, steps, |steps|);
    assert Unreferenced(s.disk) - InHand(hs, s) == Unreferenced(s.disk);
    EmptyBucket(hs, s);
  }

  /** A step that goes as it should: no error, no crash, and no precondition that refuses a commit. */
  predicate Smooth(hs: Hashers, s: State, step: Step)
  {
    !step.Fail? && !step.Crash? &&
    (step.Transact? && s.phase.Installed? ==>
      Passes(s.phase.opts.conditions, AttributesOf(Existing(s.disk, s.phase.name))))
  }

  /** In runs of such steps there are never stray files between operations, and deleting every object empties the
      bucket. */
  lemma {:induction false} SmoothRunsLeaveNothing(hs: Hashers, steps: seq<Step>)
    requires forall i :: 0 <= i < |steps| ==> Smooth(hs, At(hs, steps, i), steps[i])
    requires Run(hs, INITIAL, steps).phase.Idle?
    ensures var d := Run(hs, INITIAL, steps).disk;
            d.files.Keys == d.blobs.Keys && (d.objects == map[] ==> d.files == map[])
  {
    hide LeakySteps, Run, Smooth, At;
    SmoothIsNotLeaky(hs, steps);
    LeakBound(hs, steps);
  }

  lemma {:induction false} SmoothIsNotLeaky(hs: Hashers, steps: seq<Step>)
    requires forall i :: 0 <= i < |steps| ==> Smooth(hs, At(hs, steps, i), steps[i])
    ensures LeakySteps(hs, steps) == 0
    decreases |steps|
  {
    hide Apply, Passes, AddRef, DropRef, NewRow, Run;
    if steps != [] {
      var n := |steps| - 1;
      forall i | 0 <= i < n ensures Smooth(hs, At(hs, steps[..n], i), steps[..n][i]) {
        assert steps[..n][..i] == steps[..i];
        assert Smooth(hs, At(hs, steps, i), steps[i]);
      }
      SmoothIsNotLeaky(hs, steps[..n]);
      assert Smooth(hs, At(hs, steps, n), steps[n]);
    }
  }

  lemma EmptyBucket(hs: Hashers, s: State)
    requires InOrder(hs, s)
    ensures s.disk.blobs.Keys <= s.disk.files.Keys
    ensures Unreferenced(s.disk) == {} ==> s.disk.files.Keys == s.disk.blobs.Keys
    ensures Unreferenced(s.disk) == {} && s.disk.objects == map[] ==> s.disk.files == map[]
  {
    assert s.disk.files.Keys == s.disk.blobs.Keys + Unreferenced(s.disk);
    if s.disk.objects == map[] {
      assert forall h :: Refs(s.disk.objects, h) == {};
      assert s.disk.blobs == map[];
    }
  }

  // --- generations ---------------------------------------------------------------------------------

  /** Step k commits the name successfully. */
  predicate CommitsAt(hs: Hashers, steps: seq<Step>, k: nat, name: Bytes)
    requires k < |steps|
  {
    var s := At(hs, steps, k);
    steps[k].Transact? && s.phase.Installed? && s.phase.name == name && TxOf(hs, s, steps[k].now).Committed?
  }

  predicate PresentThroughout(hs: Hashers, steps: seq<Step>, name: Bytes, i: nat, j: nat)
    requires i <= j <= |steps|
  {
    forall k :: i <= k <= j ==> name in At(hs, steps, k).disk.objects
  }

  function GenerationAt(hs: Hashers, steps: seq<Step>, i: nat, name: Bytes): int
    requires i <= |steps|
  {
    var d := At(hs, steps, i).disk;
    if name in d.objects then d.objects[name].attributes.generation else 0
  }

  lemma GenerationAfterStep(hs: Hashers, s: State, step: Step, name: Bytes)
    requires name in s.disk.objects && name in Apply(hs, s, step).disk.objects
    ensures var s' := Apply(hs, s, step);
            s'.disk.objects[name].attributes.generation >= s.disk.objects[name].attributes.generation
  {
  }

  lemma {:induction false} GenerationsNeverFall(hs: Hashers, steps: seq<Step>, i: nat, j: nat, name: Bytes)
    requires i <= j <= |steps| && PresentThroughout(hs, steps, name, i, j)
    ensures GenerationAt(hs, steps, i, name) <= GenerationAt(hs, steps, j, name)
    decreases j
  {
    if i < j {
      GenerationsNeverFall(hs, steps, i, j - 1, name);
      AtNext(hs, steps, j - 1);
      GenerationAfterStep(hs, At(hs, steps, j - 1), steps[j - 1], name);
    }
  }

  lemma CommitRaises(hs: Hashers, steps: seq<Step>, k: nat, name: Bytes)
    requires k < |steps| && CommitsAt(hs, steps, k, name)
    ensures name in At(hs, steps, k + 1).disk.objects
    ensures name in At(hs, steps, k).disk.objects ==>
              GenerationAt(hs, steps, k, name) < GenerationAt(hs, steps, k + 1, name)
    ensures name !in At(hs, steps, k).disk.objects ==> GenerationAt(hs, steps, k + 1, name) == steps[k].now
    ensures var c := At(hs, steps, k).phase.opts.conditions.generationMatch;
            c.Some? ==> GenerationAt(hs, steps, k, name) == c.value
  {
    AtNext(hs, steps, k);
  }

  /** For any clock, successive commits of a name that is not deleted in between have ascending generations. */
  lemma CommitsAscend(hs: Hashers, steps: seq<Step>, k: nat, l: nat, name: Bytes)
    requires k < l < |steps| && CommitsAt(hs, steps, k, name) && CommitsAt(hs, steps, l, name)
    requires PresentThroughout(hs, steps, name, k + 1, l)
    ensures GenerationAt(hs, steps, k + 1, name) < GenerationAt(hs, steps, l + 1, name)
  {
    GenerationsNeverFall(hs, steps, k + 1, l, name);
    CommitRaises(hs, steps, l, name);
    assert name in At(hs, steps, l).disk.objects;
  }

  /** Step k is about to commit the name, on condition that its generation is g. */
  predicate GuardedAt(hs: Hashers, steps: seq<Step>, k: nat, name: Bytes, g: int)
    requires k < |steps|
  {
    var s := At(hs, steps, k);
    steps[k].Transact? && s.phase.Installed? && s.phase.name == name &&
    s.phase.opts.conditions.generationMatch == Some(g)
  }

  /** Only a commit of an absent name, asked for as generation 0 with the clock at zero or before, can leave a name
      that a second such request still accepts. */
  predicate Excludes(hs: Hashers, steps: seq<Step>, k: nat, name: Bytes, g: int)
    requires k < |steps| && steps[k].Transact?
  {
    g != 0 || steps[k].now > 0 || name in At(hs, steps, k).disk.objects
  }

  /** Compare and swap, for any clock: of the commits that ask for the same generation, only one gets through. */
  lemma OnlyOneGuardedCommit(hs: Hashers, steps: seq<Step>, k: nat, l: nat, name: Bytes, g: int)
    requires k < l < |steps| && GuardedAt(hs, steps, k, name, g) && GuardedAt(hs, steps, l, name, g)
    requires Excludes(hs, steps, k, name, g)
    requires CommitsAt(hs, steps, k, name) && PresentThroughout(hs, steps, name, k + 1, l)
    ensures !CommitsAt(hs, steps, l, name)
  {
    CommitRaises(hs, steps, k, name);
    GenerationsNeverFall(hs, steps, k + 1, l, name);
    if CommitsAt(hs, steps, l, name) {
      CommitRaises(hs, steps, l, name);
    }
  }

  /** Some continuation of the run gets a second commit through with the same generation match. */
  ghost predicate SecondGetsThrough(hs: Hashers, steps: seq<Step>, name: Bytes, g: int)
    requires steps != []
  {
    exists more: seq<Step> ::
      more != [] && GuardedAt(hs, steps + more, |steps + more| - 1, name, g) &&
      CommitsAt(hs, steps + more, |steps + more| - 1, name) &&
      PresentThroughout(hs, steps + more, name, |steps|, |steps + more| - 1)
  }

  function Guard(g: Option<int>): PutOptions
  {
    PutOptions([], map[], Conditions(g, None, None, None))
  }

  /** A commit from start to end, behind a commit whose orphan is yet to be removed. */
  function Again(name: Bytes, guard: Option<int>, now: int): seq<Step>
  {
    [RemoveFile, LockCommit(name, [], Guard(guard)), InstallFile, Transact(now)]
  }

  lemma {:induction false} RunBehind(hs: Hashers, steps: seq<Step>, more: seq<Step>, i: nat)
    requires i < |more|
    ensures At(hs, steps + more, |steps| + i + 1) == Apply(hs, At(hs, steps + more, |steps| + i), more[i])
  {
    AtNext(hs, steps + more, |steps| + i);
  }

  lemma {:induction false} AtSplit(hs: Hashers, steps: seq<Step>, more: seq<Step>)
    ensures At(hs, steps + more, |steps|) == At(hs, steps, |steps|)
    ensures At(hs, steps + more, |steps + more|) == Run(hs, INITIAL, steps + more)
  {
    assert (steps + more)[..|steps|] == steps == steps[..|steps|];
    assert (steps + more)[..|steps + more|] == steps + more;
  }

  lemma {:induction false} AgainFrom(hs: Hashers, s: State, name: Bytes, guard: Option<int>, now: int)
    requires s.phase.Removing? && ValidObjectName(name) && name in s.disk.objects
    requires guard in {None, Some(s.disk.objects[name].attributes.generation)}
    ensures var more := Again(name, guard, now);
            var s1 := Apply(hs, s, more[0]);
            var s2 := Apply(hs, s1, more[1]);
            var s3 := Apply(hs, s2, more[2]);
            var s4 := Apply(hs, s3, more[3]);
            s1.disk.objects == s2.disk.objects == s3.disk.objects == s.disk.objects &&
            s3.phase == Installed(name, [], Guard(guard)) && TxOf(hs, s3, now).Committed? &&
            s4.phase.Removing? && name in s4.disk.objects &&
            s4.disk.objects[name].attributes.generation == NextGeneration(Some(s.disk.objects[name].attributes), now)
  {
    hide AddRef, DropRef, ValidObjectName, NextGeneration;
  }

  /** What the four steps of another commit of a present name do. */
  lemma {:induction false} CommitAgain(hs: Hashers, steps: seq<Step>, name: Bytes, guard: Option<int>, now: int)
    requires var s := At(hs, steps, |steps|);
             s.phase.Removing? && ValidObjectName(name) && name in s.disk.objects &&
             guard in {None, Some(s.disk.objects[name].attributes.generation)}
    ensures var all, n := steps + Again(name, guard, now), |steps|;
            PresentThroughout(hs, all, name, n, n + 4) && CommitsAt(hs, all, n + 3, name) &&
            (guard.Some? ==> GuardedAt(hs, all, n + 3, name, guard.value)) &&
            At(hs, all, n + 4).phase.Removing? && GenerationAt(hs, all, n + 4, name) ==
              NextGeneration(Some(At(hs, steps, n).disk.objects[name].attributes), now)
  {
    hide Apply, TxOf, ValidObjectName, NextGeneration, At;
    var more := Again(name, guard, now);
    AgainFrom(hs, At(hs, steps, |steps|), name, guard, now);
    AtSplit(hs, steps, more);
    RunBehind(hs, steps, more, 0);
    RunBehind(hs, steps, more, 1);
    RunBehind(hs, steps, more, 2);
    RunBehind(hs, steps, more, 3);
  }

  lemma {:induction false} AtFront(hs: Hashers, steps: seq<Step>, more: seq<Step>, i: nat)
    requires i <= |steps|
    ensures At(hs, steps + more, i) == At(hs, steps, i)
  {
    assert (steps + more)[..i] == steps[..i];
  }

  lemma {:induction false} CommittedName(hs: Hashers, steps: seq<Step>, name: Bytes)
    requires steps != [] && CommitsAt(hs, steps, |steps| - 1, name)
    ensures var s, d := At(hs, steps, |steps|), At(hs, steps, |steps| - 1).disk;
            s.phase.Removing? && ValidObjectName(name) && name in s.disk.objects &&
            (name !in d.objects ==> GenerationAt(hs, steps, |steps|, name) == steps[|steps| - 1].now)
  {
    hide ValidObjectName, Sound, CommitTx;
    AlwaysInOrder(hs, steps, |steps| - 1);
    AtNext(hs, steps, |steps| - 1);
    CommitRaises(hs, steps, |steps| - 1, name);
  }

  /** With the clock at zero a second guarded commit follows at once; before zero, behind an unguarded one. */
  lemma {:induction false} ZeroClockLetsTwoThrough(hs: Hashers, steps: seq<Step>, name: Bytes)
    requires steps != [] && CommitsAt(hs, steps, |steps| - 1, name)
    requires name !in At(hs, steps, |steps| - 1).disk.objects && steps[|steps| - 1].now <= 0
    ensures SecondGetsThrough(hs, steps, name, 0)
  {
    hide GuardedAt, ValidObjectName, At, TxOf;
    var n := |steps|;
    CommittedName(hs, steps, name);
    var last := Again(name, Some(0), 0);
    if steps[n - 1].now == 0 {
      CommitAgain(hs, steps, name, Some(0), 0);
      assert |steps + last| - 1 == n + 3;
      ThroughAgain(hs, steps, last, name);
    } else {
      var first := Again(name, None, 0);
      CommitAgain(hs, steps, name, None, 0);
      CommitAgain(hs, steps + first, name, Some(0), 0);
      assert steps + first + last == steps + (first + last);
      forall k | n <= k <= n + 4 ensures name in At(hs, steps + (first + last), k).disk.objects {
        AtFront(hs, steps + first, last, k);
      }
      ThroughAgain(hs, steps, first + last, name);
    }
  }

  lemma {:induction false} ThroughAgain(hs: Hashers, steps: seq<Step>, more: seq<Step>, name: Bytes)
    requires steps != [] && more != []
    requires var all := steps + more;
             GuardedAt(hs, all, |all| - 1, name, 0) && CommitsAt(hs, all, |all| - 1, name) &&
             PresentThroughout(hs, all, name, |steps|, |all| - 1)
    ensures SecondGetsThrough(hs, steps, name, 0)
  {
  }

  /** The condition is exact: behind a guarded commit, another with the same guard can follow iff it does not hold. */
  lemma {:induction false} GuardExcludesIff(hs: Hashers, steps: seq<Step>, name: Bytes, g: int)
    requires steps != [] && GuardedAt(hs, steps, |steps| - 1, name, g) && CommitsAt(hs, steps, |steps| - 1, name)
    ensures Excludes(hs, steps, |steps| - 1, name, g) <==> !SecondGetsThrough(hs, steps, name, g)
  {
    hide At, TxOf, CommitTx;
    var k := |steps| - 1;
    if !Excludes(hs, steps, k, name, g) {
      ZeroClockLetsTwoThrough(hs, steps, name);
    } else if SecondGetsThrough(hs, steps, name, g) {
      var more: seq<Step> :| more != [] && GuardedAt(hs, steps + more, |steps + more| - 1, name, g) &&
        CommitsAt(hs, steps + more, |steps + more| - 1, name) &&
        PresentThroughout(hs, steps + more, name, |steps|, |steps + more| - 1);
      AtFront(hs, steps, more, k);
      OnlyOneGuardedCommit(hs, steps + more, k, |steps + more| - 1, name, g);
    }
  }

  predicate PositiveClock(steps: seq<Step>)
  {
    forall i :: 0 <= i < |steps| && steps[i].Transact? ==> steps[i].now > 0
  }

  lemma {:induction false} GenerationsArePositive(hs: Hashers, steps: seq<Step>, i: nat, name: Bytes)
    requires PositiveClock(steps) && i <= |steps|
    ensures name in At(hs, steps, i).disk.objects ==> GenerationAt(hs, steps, i, name) > 0
    decreases i
  {
    if i > 0 {
      GenerationsArePositive(hs, steps, i - 1, name);
      AtNext(hs, steps, i - 1);
    }
  }

  /** GenerationMatch = 0 asks for an absent object, exactly. */
  lemma MatchZeroMeansAbsent(hs: Hashers, steps: seq<Step>, i: nat, name: Bytes)
    requires PositiveClock(steps) && i <= |steps|
    ensures var d := At(hs, steps, i).disk;
            Passes(Conditions(Some(0), None, None, None), AttributesOf(Existing(d, name))) <==> name !in d.objects
  {
    GenerationsArePositive(hs, steps, i, name);
  }
}
