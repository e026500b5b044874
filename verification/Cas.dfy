/** The tables and blob files of one bucket, and the atomic changes that commits and deletes make to them. */
module Cas {
  import opened ByteStrings
  import opened Types

  datatype Disk = Disk(objects: map<Bytes, Row>, blobs: map<Hash, BlobRow>, files: map<Hash, Bytes>)

  /** What a user sees of a bucket: for each name a content and its attributes. */
  datatype Object = Object(content: Bytes, attributes: Attributes)

  const EMPTY_DISK := Disk(map[], map[], map[])

  // --- the changes ----------------------------------------------------------------------------

  /** Move the finished temp file into place, unless a file of that hash is already there. */
  function Install(hs: Hashers, d: Disk, content: Bytes): Disk
  {
    var h := hs.sha256(content);
    if h in d.files then d else d.(files := d.files[h := content])
  }

  /** INSERT ... ON CONFLICT DO UPDATE SET refcount = refcount + 1; the size of an existing row stays. */
  function AddRef(blobs: map<Hash, BlobRow>, h: Hash, size: nat): (r: map<Hash, BlobRow>)
    ensures r.Keys == blobs.Keys + {h} && forall k :: k in blobs && k != h ==> r[k] == blobs[k]
    ensures h in blobs ==> r[h].size == blobs[h].size && r[h].refcount == blobs[h].refcount + 1
    ensures h !in blobs ==> r[h] == BlobRow(size, 1)
  {
    if h in blobs then blobs[h := BlobRow(blobs[h].size, blobs[h].refcount + 1)] else blobs[h := BlobRow(size, 1)]
  }

  /** decrefBlob: the new table, and whether the blob file is orphaned. */
  function DropRef(blobs: map<Hash, BlobRow>, h: Hash): (map<Hash, BlobRow>, bool)
  {
    if h !in blobs then (blobs, false)
    else
      var refcount := blobs[h].refcount - 1;
      if refcount <= 0 then (blobs - {h}, true) else (blobs[h := BlobRow(blobs[h].size, refcount)], false)
  }

  function Existing(d: Disk, name: Bytes): Option<Row>
  {
    if name in d.objects then Some(d.objects[name]) else None
  }

  function AttributesOf(row: Option<Row>): Option<Attributes>
  {
    if row.Some? then Some(row.value.attributes) else None
  }

  function NewRow(hs: Hashers, content: Bytes, a: Attributes): (row: Row)
    ensures row.attributes == a && row.size == |content|
    ensures row.hash == hs.sha256(content) && row.md5 == hs.md5(content) && row.crc32c == hs.crc32c(content)
  {
    Row(a, hs.sha256(content), |content|, hs.md5(content), hs.crc32c(content))
  }

  datatype TxResult = Committed(disk: Disk, orphan: Option<Hash>) | RolledBack(error: StoreError)

  /** The transaction of Commit. */
  function CommitTx(hs: Hashers, d: Disk, name: Bytes, content: Bytes, opts: PutOptions, now: int): TxResult
  {
    var existing := Existing(d, name);
    if !Passes(opts.conditions, AttributesOf(existing)) then RolledBack(PreconditionFailed)
    else
      var row := NewRow(hs, content, NewAttributes(AttributesOf(existing), opts, now));
      var added := AddRef(d.blobs, row.hash, |content|);
      var (blobs, orphaned) := if existing.Some? then DropRef(added, existing.value.hash) else (added, false);
      Committed(Disk(d.objects[name := row], blobs, d.files), if orphaned then Some(existing.value.hash) else None)
  }

  /** The transaction of DeleteObject. */
  function DeleteTx(d: Disk, name: Bytes, conds: Conditions): TxResult
  {
    var existing := Existing(d, name);
    if !Passes(conds, AttributesOf(existing)) then RolledBack(PreconditionFailed)
    else if existing.None? then RolledBack(ObjectNotFound)
    else
      var (blobs, orphaned) := DropRef(d.blobs, existing.value.hash);
      Committed(Disk(d.objects - {name}, blobs, d.files), if orphaned then Some(existing.value.hash) else None)
  }

  function RemoveOrphan(d: Disk, orphan: Option<Hash>): Disk
  {
    if orphan.Some? then d.(files := d.files - {orphan.value}) else d
  }

  // --- consistency ------------------------------------------------------------------------------

  function Refs(objects: map<Bytes, Row>, h: Hash): set<Bytes>
  {
    set n | n in objects && objects[n].hash == h
  }

  /** Each blob row counts the object rows with its hash, of which there is at least one, and each object row has a
      blob row. */
  predicate Counted(d: Disk)
  {
    (forall n :: n in d.objects ==> d.objects[n].hash in d.blobs) &&
    (forall h :: h in d.blobs ==> d.blobs[h].refcount == |Refs(d.objects, h)| && d.blobs[h].refcount >= 1)
  }

  /** Each file is named by its hash, and each blob row has its file. */
  predicate Filed(hs: Hashers, d: Disk)
  {
    (forall h :: h in d.files ==> hs.sha256(d.files[h]) == h) && (forall h :: h in d.blobs ==> h in d.files)
  }

  /** What holds whatever the hash function does. */
  predicate Sound(hs: Hashers, d: Disk)
  {
    Counted(d) && Filed(hs, d)
  }

  predicate Sized(d: Disk, used: set<Bytes>)
  {
    (forall h :: h in d.files ==> d.files[h] in used) &&
    (forall h :: h in d.blobs && h in d.files ==> d.blobs[h].size == |d.files[h]|)
  }

  predicate Described(hs: Hashers, d: Disk)
  {
    forall n :: n in d.objects && d.objects[n].hash in d.files ==>
      d.objects[n] == NewRow(hs, d.files[d.objects[n].hash], d.objects[n].attributes)
  }

  /** What holds besides if no two contents in use share a hash: rows tell the truth about their files. */
  predicate Consistent(hs: Hashers, d: Disk, used: set<Bytes>)
  {
    Sound(hs, d) && Sized(d, used) && Described(hs, d)
  }

  /** The user's view of a disk. */
  function View(d: Disk): map<Bytes, Object>
  {
    map n | n in d.objects && d.objects[n].hash in d.files ::
      Object(d.files[d.objects[n].hash], d.objects[n].attributes)
  }

  // --- reference counts ---------------------------------------------------------------------------

  function RefCount(blobs: map<Hash, BlobRow>, h: Hash): int
  {
    if h in blobs then blobs[h].refcount else 0
  }

  predicate Positive(blobs: map<Hash, BlobRow>)
  {
    forall h :: h in blobs ==> blobs[h].refcount >= 1
  }

  function One(yes: bool): int
  {
    if yes then 1 else 0
  }

  /** Counted, with absent blob rows read as zero. */
  lemma CountedIffTallied(d: Disk)
    ensures Counted(d) <==> Positive(d.blobs) && forall h :: RefCount(d.blobs, h) == |Refs(d.objects, h)|
  {
    if Counted(d) {
      forall h ensures RefCount(d.blobs, h) == |Refs(d.objects, h)| {
        if h !in d.blobs { assert Refs(d.objects, h) == {}; }
      }
    }
    if Positive(d.blobs) && forall h :: RefCount(d.blobs, h) == |Refs(d.objects, h)| {
      forall n | n in d.objects ensures d.objects[n].hash in d.blobs {
        assert n in Refs(d.objects, d.objects[n].hash);
        assert RefCount(d.blobs, d.objects[n].hash) == |Refs(d.objects, d.objects[n].hash)|;
      }
      forall h | h in d.blobs ensures d.blobs[h].refcount == |Refs(d.objects, h)| {
        assert RefCount(d.blobs, h) == |Refs(d.objects, h)|;
      }
    }
  }

  lemma AddRefAdds(blobs: map<Hash, BlobRow>, h: Hash, size: nat, k: Hash)
    requires Positive(blobs)
    ensures Positive(AddRef(blobs, h, size))
    ensures RefCount(AddRef(blobs, h, size), k) == RefCount(blobs, k) + One(k == h)
  {
  }

  lemma DropRefDrops(blobs: map<Hash, BlobRow>, h: Hash, k: Hash)
    requires Positive(blobs) && h in blobs
    ensures Positive(DropRef(blobs, h).0)
    ensures RefCount(DropRef(blobs, h).0, k) == RefCount(blobs, k) - One(k == h)
    ensures DropRef(blobs, h).1 <==> RefCount(blobs, h) == 1
    ensures DropRef(blobs, h).0.Keys == blobs.Keys - (if DropRef(blobs, h).1 then {h} else {})
  {
  }

  lemma RefsAfterPut(objects: map<Bytes, Row>, name: Bytes, row: Row, h: Hash)
    ensures |Refs(objects[name := row], h)| ==
            |Refs(objects, h)| + One(row.hash == h) - One(name in objects && objects[name].hash == h)
  {
    RefsAfterDelete(objects, name, h);
    var others := Refs(objects - {name}, h);
    if row.hash == h {
      assert Refs(objects[name := row], h) == others + {name};
    } else {
      assert Refs(objects[name := row], h) == others;
    }
  }

  lemma RefsAfterDelete(objects: map<Bytes, Row>, name: Bytes, h: Hash)
    ensures |Refs(objects - {name}, h)| == |Refs(objects, h)| - One(name in objects && objects[name].hash == h)
  {
    var others := Refs(objects - {name}, h);
    if name in objects && objects[name].hash == h {
      assert Refs(objects, h) == others + {name};
    } else {
      assert Refs(objects, h) == others;
    }
  }

  function Orphans(r: TxResult): set<Hash>
  {
    if r.Committed? && r.orphan.Some? then {r.orphan.value} else {}
  }

  /** The blob table behind a commit: the old content loses a reference after the new one has gained it. */
  lemma BlobsAfterCommit(d: Disk, name: Bytes, h: Hash, size: nat, k: Hash)
    requires Counted(d)
    ensures var added := AddRef(d.blobs, h, size);
            var blobs := if name in d.objects then DropRef(added, d.objects[name].hash).0 else added;
            Positive(blobs) &&
            RefCount(blobs, k) ==
            RefCount(d.blobs, k) + One(k == h) - One(name in d.objects && d.objects[name].hash == k)
  {
    AddRefAdds(d.blobs, h, size, k);
    if name in d.objects {
      DropRefDrops(AddRef(d.blobs, h, size), d.objects[name].hash, k);
    }
  }

  /** A commit orphans the replaced blob if this name was all that referred to it; the new content never. */
  lemma OrphansOfCommit(hs: Hashers, d: Disk, name: Bytes, content: Bytes, opts: PutOptions, now: int)
    requires Counted(d) && CommitTx(hs, d, name, content, opts, now).Committed?
    ensures var r, h := CommitTx(hs, d, name, content, opts, now), hs.sha256(content);
            Orphans(r) == (set n | n in {name} && n in d.objects && d.objects[n].hash != h &&
                                   Refs(d.objects, d.objects[n].hash) == {n} :: d.objects[n].hash) &&
            Orphans(r) <= d.blobs.Keys && h !in Orphans(r) &&
            r.disk.blobs.Keys == d.blobs.Keys + {h} - Orphans(r)
  {
    hide Refs;
    var h := hs.sha256(content);
    var added := AddRef(d.blobs, h, |content|);
    AddRefAdds(d.blobs, h, |content|, h);
    if name in d.objects {
      var replaced := d.objects[name].hash;
      AddRefAdds(d.blobs, h, |content|, replaced);
      DropRefDrops(added, replaced, replaced);
      OnlyReference(d.objects, name);
    }
  }

  lemma OnlyReference(objects: map<Bytes, Row>, name: Bytes)
    requires name in objects
    ensures |Refs(objects, objects[name].hash)| == 1 <==> Refs(objects, objects[name].hash) == {name}
  {
    var refs := Refs(objects, objects[name].hash);
    assert refs == {name} + (refs - {name});
  }

  lemma CountedAfterCommit(hs: Hashers, d: Disk, name: Bytes, content: Bytes, opts: PutOptions, now: int)
    requires Counted(d) && CommitTx(hs, d, name, content, opts, now).Committed?
    ensures Counted(CommitTx(hs, d, name, content, opts, now).disk)
  {
    hide Refs, AddRef, DropRef, RefCount;
    var r := CommitTx(hs, d, name, content, opts, now);
    CountedIffTallied(d);
    CountedIffTallied(r.disk);
    forall k ensures RefCount(r.disk.blobs, k) == |Refs(r.disk.objects, k)| {
      RefsAfterPut(d.objects, name, r.disk.objects[name], k);
      BlobsAfterCommit(d, name, hs.sha256(content), |content|, k);
      assert RefCount(d.blobs, k) == |Refs(d.objects, k)|;
    }
    BlobsAfterCommit(d, name, hs.sha256(content), |content|, []);
  }

  /** A delete takes one reference, and orphans the blob exactly if that was the last one. */
  lemma CountedAfterDelete(d: Disk, name: Bytes, conds: Conditions)
    requires Counted(d) && DeleteTx(d, name, conds).Committed?
    ensures var r := DeleteTx(d, name, conds);
            Counted(r.disk) && Orphans(r) <= d.blobs.Keys && r.disk.blobs.Keys == d.blobs.Keys - Orphans(r) &&
            Orphans(r) == if Refs(d.objects, d.objects[name].hash) == {name} then {d.objects[name].hash} else {}
  {
    hide Refs, DropRef, RefCount;
    var r := DeleteTx(d, name, conds);
    CountedIffTallied(d);
    CountedIffTallied(r.disk);
    forall k ensures RefCount(r.disk.blobs, k) == |Refs(r.disk.objects, k)| {
      RefsAfterDelete(d.objects, name, k);
      DropRefDrops(d.blobs, d.objects[name].hash, k);
      assert RefCount(d.blobs, k) == |Refs(d.objects, k)|;
    }
    DropRefDrops(d.blobs, d.objects[name].hash, d.objects[name].hash);
    assert RefCount(d.blobs, d.objects[name].hash) == |Refs(d.objects, d.objects[name].hash)|;
    OnlyReference(d.objects, name);
  }

  // --- soundness and consistency behind each change -------------------------------------------------

  lemma {:induction false} SoundAfterInstall(hs: Hashers, d: Disk, content: Bytes)
    requires Sound(hs, d)
    ensures Sound(hs, Install(hs, d, content)) && hs.sha256(content) in Install(hs, d, content).files
  {
    hide Refs;
  }

  lemma {:induction false} SoundAfterCommit(hs: Hashers, d: Disk, name: Bytes, content: Bytes, opts: PutOptions,
                                            now: int)
    requires Sound(hs, d) && hs.sha256(content) in d.files
    requires CommitTx(hs, d, name, content, opts, now).Committed?
    ensures Sound(hs, CommitTx(hs, d, name, content, opts, now).disk)
  {
    hide Counted, Refs, AddRef, DropRef, Passes;
    CountedAfterCommit(hs, d, name, content, opts, now);
    OrphansOfCommit(hs, d, name, content, opts, now);
  }

  lemma {:induction false} SoundAfterDelete(hs: Hashers, d: Disk, name: Bytes, conds: Conditions)
    requires Sound(hs, d) && DeleteTx(d, name, conds).Committed?
    ensures Sound(hs, DeleteTx(d, name, conds).disk)
  {
    hide Counted, Refs, DropRef, Passes;
    CountedAfterDelete(d, name, conds);
  }

  lemma {:induction false} SoundAfterRemoval(hs: Hashers, d: Disk, orphan: Option<Hash>)
    requires Sound(hs, d) && (orphan.Some? ==> orphan.value !in d.blobs)
    ensures Sound(hs, RemoveOrphan(d, orphan))
  {
    hide Refs;
  }

  lemma {:induction false} ConsistentAfterInstall(hs: Hashers, d: Disk, used: set<Bytes>, content: Bytes)
    requires Consistent(hs, d, used) && content in used
    ensures Consistent(hs, Install(hs, d, content), used)
    ensures hs.sha256(content) in Install(hs, d, content).files
    ensures View(Install(hs, d, content)) == View(d)
  {
    hide View, Refs, NewRow;
    MoreFilesSameView(d, Install(hs, d, content));
  }

  /** Files that no row asks for do not show. */
  lemma {:induction false} MoreFilesSameView(d: Disk, d': Disk)
    requires d'.objects == d.objects
    requires forall n :: n in d.objects ==>
               var h := d.objects[n].hash; h in d.files && h in d'.files && d'.files[h] == d.files[h]
    ensures View(d') == View(d)
  {
    assert View(d').Keys == View(d).Keys;
  }

  lemma BlobSizesAfterCommit(hs: Hashers, d: Disk, name: Bytes, content: Bytes, opts: PutOptions, now: int)
    requires CommitTx(hs, d, name, content, opts, now).Committed?
    ensures var r := CommitTx(hs, d, name, content, opts, now);
            forall h :: h in r.disk.blobs ==>
              (h in d.blobs && r.disk.blobs[h].size == d.blobs[h].size) ||
              (h == hs.sha256(content) && r.disk.blobs[h].size == |content|)
  {
  }

  lemma {:induction false} SizedAfterCommit(hs: Hashers, d: Disk, used: set<Bytes>, name: Bytes, content: Bytes,
                                            opts: PutOptions, now: int)
    requires Filed(hs, d) && Sized(d, used) && CollisionFree(hs, used) && content in used
    requires hs.sha256(content) in d.files
    requires CommitTx(hs, d, name, content, opts, now).Committed?
    ensures Sized(CommitTx(hs, d, name, content, opts, now).disk, used)
  {
    BlobSizesAfterCommit(hs, d, name, content, opts, now);
    hide AddRef, DropRef, Passes;
    assert d.files[hs.sha256(content)] == content;
  }

  lemma {:induction false} ViewAfterCommit(hs: Hashers, d: Disk, used: set<Bytes>, name: Bytes, content: Bytes,
                                           opts: PutOptions, now: int)
    requires Filed(hs, d) && Sized(d, used) && Described(hs, d) && CollisionFree(hs, used) && content in used
    requires hs.sha256(content) in d.files
    requires CommitTx(hs, d, name, content, opts, now).Committed?
    ensures var r := CommitTx(hs, d, name, content, opts, now);
            Described(hs, r.disk) &&
            View(r.disk) == View(d)[name := Object(content, NewAttributes(AttributesOf(Existing(d, name)), opts, now))]
  {
    hide AddRef, DropRef, Passes, NewAttributes;
    assert d.files[hs.sha256(content)] == content;
  }

  /** The transaction of a commit keeps the bucket consistent and is seen as one map update. */
  lemma ConsistentAfterCommit(hs: Hashers, d: Disk, used: set<Bytes>, name: Bytes, content: Bytes, opts: PutOptions,
                              now: int)
    requires Consistent(hs, d, used) && CollisionFree(hs, used) && content in used
    requires hs.sha256(content) in d.files
    requires CommitTx(hs, d, name, content, opts, now).Committed?
    ensures var r := CommitTx(hs, d, name, content, opts, now);
            Consistent(hs, r.disk, used) &&
            View(r.disk) == View(d)[name := Object(content, NewAttributes(AttributesOf(Existing(d, name)), opts, now))]
  {
    hide Counted, Filed, Sized, Described, View, CommitTx, NewAttributes;
    SoundAfterCommit(hs, d, name, content, opts, now);
    SizedAfterCommit(hs, d, used, name, content, opts, now);
    ViewAfterCommit(hs, d, used, name, content, opts, now);
  }

  lemma {:induction false} ConsistentAfterDelete(hs: Hashers, d: Disk, used: set<Bytes>, name: Bytes, conds: Conditions)
    requires Consistent(hs, d, used) && DeleteTx(d, name, conds).Committed?
    ensures var r := DeleteTx(d, name, conds);
            Consistent(hs, r.disk, used) && View(r.disk) == View(d) - {name}
  {
    hide Counted, Passes, View;
    SoundAfterDelete(hs, d, name, conds);
    CountedAfterDelete(d, name, conds);
    BlobSizesAfterDelete(d, name, conds);
    ViewOfFewer(d, DeleteTx(d, name, conds).disk, name);
  }

  lemma BlobSizesAfterDelete(d: Disk, name: Bytes, conds: Conditions)
    requires DeleteTx(d, name, conds).Committed?
    ensures var r := DeleteTx(d, name, conds);
            forall h :: h in r.disk.blobs ==> h in d.blobs && r.disk.blobs[h].size == d.blobs[h].size
  {
  }

  lemma {:induction false} ViewOfFewer(d: Disk, d': Disk, name: Bytes)
    requires d'.files == d.files && d'.objects == d.objects - {name}
    ensures View(d') == View(d) - {name}
  {
    assert View(d').Keys == (View(d) - {name}).Keys;
  }

  /** Removing a file that no blob row refers to is invisible. */
  lemma {:induction false} ConsistentAfterRemoval(hs: Hashers, d: Disk, used: set<Bytes>, orphan: Option<Hash>)
    requires Consistent(hs, d, used) && (orphan.Some? ==> orphan.value !in d.blobs)
    ensures Consistent(hs, RemoveOrphan(d, orphan), used)
    ensures View(RemoveOrphan(d, orphan)) == View(d)
  {
    hide View, Refs, NewRow;
    MoreFilesSameView(d, RemoveOrphan(d, orphan));
  }
}
