/** The upload handlers of the GCS front end: resumable sessions over the store's writer. */
module GcsUpload {
  import opened ByteStrings
  import opened Types
  import opened Cas
  import opened BucketStore
  import CasRun
  import opened Resumable
  import ContentRanges

  /** A checksum that the client may supply: absent, not decodable, or decoded. */
  datatype Claim<T> = NoClaim | Undecodable | Claimed(value: T)

  datatype Meta = Meta(name: Bytes, contentType: Bytes, metadata: map<Bytes, Bytes>, md5: Claim<Bytes>,
    crc32c: Claim<nat>)

  datatype UploadError = NameRequired | BadMd5 | BadCrc32c | Store(error: StoreError)

  datatype Upload = Uploaded(row: Row) | Rejected(error: UploadError)

  predicate Agrees<T(==)>(claim: Claim<T>, actual: T): (ok: bool)
    ensures claim.NoClaim? ==> ok
    ensures claim.Undecodable? ==> !ok
    ensures claim.Claimed? ==> (ok <==> claim.value == actual)
  {
    claim.NoClaim? || (claim.Claimed? && claim.value == actual)
  }

  /** Nothing stands in the way of storing the content: name, checksums, the install, the transaction, preconditions. */
  ghost predicate Succeeds(hs: Hashers, d: Disk, content: Bytes, meta: Meta, conds: Conditions, fault: Fault)
  {
    meta.name != [] && Agrees(meta.md5, hs.md5(content)) && Agrees(meta.crc32c, hs.crc32c(content)) &&
    !FailsEarly(hs, d, meta.name, content, fault) && !TxFails(fault) &&
    Passes(conds, CasRun.Current(Cas.View(d), meta.name))
  }

  function Options(meta: Meta, conds: Conditions): PutOptions
  {
    PutOptions(meta.contentType, meta.metadata, conds)
  }

  /** The row of the content when it is stored. */
  function StoredRow(hs: Hashers, d: Disk, content: Bytes, meta: Meta, conds: Conditions, now: int): Row
  {
    NewRow(hs, content, NewAttributes(CasRun.Current(Cas.View(d), meta.name), Options(meta, conds), now))
  }

  /** commitUpload: client checksums first, then the commit; the writer is finished either way. */
  method CommitUpload(w: BlobWriter, meta: Meta, conds: Conditions, now: int, fault: Fault, ghost used: set<Bytes>)
    returns (u: Upload)
    requires w.Valid() && !w.done && w.b.Healthy(used) && CollisionFree(w.b.hs, used) && w.hashed in used
    modifies w`done, w.b`tmp, w.b`objects, w.b`blobs, w.b`files
    ensures w.Valid() && w.done && w.hashed == old(w.hashed) && w.b.Healthy(used) && w.b.tmp == old(w.b.tmp) - {w.temp}
    ensures u == Rejected(NameRequired) <==> meta.name == []
    ensures u == Rejected(BadMd5) <==>
              meta.name != [] &&
              (meta.md5.Undecodable? || (meta.md5.Claimed? && meta.md5.value != w.b.hs.md5(w.hashed)))
    ensures u == Rejected(BadCrc32c) <==>
              meta.name != [] && (meta.md5 == NoClaim || meta.md5 == Claimed(w.b.hs.md5(w.hashed))) &&
              (meta.crc32c.Undecodable? || (meta.crc32c.Claimed? && meta.crc32c.value != w.b.hs.crc32c(w.hashed)))
    ensures u.Uploaded? ==>
              (meta.md5 == NoClaim || meta.md5 == Claimed(w.b.hs.md5(w.hashed))) &&
              (meta.crc32c == NoClaim || meta.crc32c == Claimed(w.b.hs.crc32c(w.hashed)))
    ensures meta.name != [] && (meta.md5 == NoClaim || meta.md5 == Claimed(w.b.hs.md5(w.hashed))) &&
            (meta.crc32c == NoClaim || meta.crc32c == Claimed(w.b.hs.crc32c(w.hashed))) &&
            fault in {NoFault, RemoveFails} ==>
              (u.Uploaded? <==>
                ValidObjectName(meta.name) && Passes(conds, CasRun.Current(old(w.b.View()), meta.name)))
    ensures u.Uploaded? ==>
              u.row.hash == w.b.hs.sha256(w.hashed) && u.row.size == |w.hashed| &&
              u.row.md5 == w.b.hs.md5(w.hashed) && u.row.crc32c == w.b.hs.crc32c(w.hashed) &&
              var a := u.row.attributes;
              a.contentType == meta.contentType && a.metadata == meta.metadata && a.metageneration == 1 &&
              a.created == now == a.updated &&
              var before := old(w.b.View());
              a.generation == if meta.name in before && before[meta.name].attributes.generation >= now
                              then before[meta.name].attributes.generation + 1 else now
    ensures u.Uploaded? <==> Succeeds(w.b.hs, old(w.b.OnDisk()), w.hashed, meta, conds, fault)
    ensures u.Uploaded? ==> u.row == StoredRow(w.b.hs, old(w.b.OnDisk()), w.hashed, meta, conds, now)
    ensures w.b.View() == if u.Uploaded? then old(w.b.View())[meta.name := Object(w.hashed, u.row.attributes)]
                          else old(w.b.View())
  {
    hide CasRun.Good, Cas.View, Passes, CasRun.Run, CommitSteps, CasRun.Current, NewAttributes, NewRow, FailsEarly,
      ValidObjectName, TxFails, Agrees, CollisionFree;
    if meta.name == [] {
      w.Abort();
      return Rejected(NameRequired);
    }
    if !Agrees(meta.md5, w.b.hs.md5(w.hashed)) {
      w.Abort();
      return Rejected(BadMd5);
    }
    if !Agrees(meta.crc32c, w.b.hs.crc32c(w.hashed)) {
      w.Abort();
      return Rejected(BadCrc32c);
    }
    var r := w.Commit(meta.name, Options(meta, conds), now, fault, used);
    u := if r.Ok? then Uploaded(r.value) else Rejected(Store(r.error));
  }

  function Received(contentRange: Bytes, body: Body): Request
  {
    Request(ContentRanges.Parse(contentRange), body)
  }

  class UploadSession {
    const bw: BlobWriter
    const meta: Meta
    const conds: Conditions
    var offset: nat
    var done: bool

    constructor (bw: BlobWriter, meta: Meta, conds: Conditions)
      ensures this.bw == bw && this.meta == meta && this.conds == conds && offset == 0 && !done
    {
      this.bw, this.meta, this.conds, this.offset, this.done := bw, meta, conds, 0, false;
    }

    predicate Valid()
      reads this, bw, bw.b
    {
      bw.Valid() && (bw.done ==> done)
    }

    function View(): Session
      reads this, bw
    {
      Session(bw.hashed, offset, done)
    }

    /** io.Copy from the request body into the writer. */
    method Copy(body: Body) returns (n: nat, ok: bool)
      requires Valid() && !bw.done
      modifies bw`hashed, bw`size, bw.b`tmp
      ensures Valid() && !bw.done
      ensures n == |body.delivered| && ok == !body.broken
      ensures bw.hashed == old(bw.hashed) + body.delivered && bw.b.tmp == old(bw.b.tmp)[bw.temp := bw.hashed]
    {
      var k, err := bw.Write(body.delivered, |body.delivered|);
      assert body.delivered[..|body.delivered|] == body.delivered;
      return k, !body.broken;
    }

    /** What a request does to the session, under the session's lock: `done` is set when it is to be committed. */
    method Receive(contentRange: Bytes, body: Body) returns (reply: Reply)
      requires Valid()
      modifies this`offset, this`done, bw`hashed, bw`size, bw.b`tmp
      ensures Valid() && (View(), reply) == Handle(old(View()), Received(contentRange, body))
      ensures bw.done == old(bw.done) && (!bw.done ==> bw.b.tmp == old(bw.b.tmp)[bw.temp := bw.hashed])
    {
      hide ContentRanges.Parse;
      if done {
        return AlreadyFinalized;
      }
      var total: Option<nat> := None;
      match ContentRanges.Parse(contentRange) {
        case Probe(t) =>
          total := t;
        case Chunk(start, end, t) =>
          total := t;
          if start != offset {
            return Incomplete(offset);
          }
          var n, ok := Copy(body);
          if !ok {
            return CopyFailed;
          }
          if n != end - start + 1 {
            return WrongLength;
          }
          offset := offset + n;
        case NoRange =>
          var n, ok := Copy(body);
          if !ok {
            return CopyFailed;
          }
          offset := offset + n;
          total := Some(offset);
        case Malformed =>
          return InvalidRange;
      }
      if total.Some? && offset == total.value {
        done := true;
        return Finalize;
      }
      return Incomplete(offset);
    }
  }

  class Server {
    var sessions: map<Bytes, UploadSession>

    constructor ()
      ensures sessions == map[]
    {
      sessions := map[];
    }

    method StartResumableUpload(b: Bucket, id: Bytes, meta: Meta, conds: Conditions)
      requires b.TempsFresh() && id !in sessions
      modifies this, b`tmp, b`nextTemp
      ensures sessions.Keys == old(sessions).Keys + {id}
      ensures forall i :: i in old(sessions) ==> sessions[i] == old(sessions)[i]
      ensures var s := sessions[id];
              fresh(s) && fresh(s.bw) && s.Valid() && s.bw.b == b && s.meta == meta && s.conds == conds &&
              s.View() == FRESH
    {
      var w := new BlobWriter(b);
      var s := new UploadSession(w, meta, conds);
      sessions := sessions[id := s];
    }

    /** One chunk, probe or whole-body request, from the lookup to the reply; an absent Content-Range is empty. */
    method HandleResumableChunk(id: Bytes, contentRange: Bytes, body: Body, now: int, fault: Fault,
                                ghost used: set<Bytes>)
      returns (reply: Reply, upload: Option<Upload>)
      requires id in sessions ==>
                 var s := sessions[id];
                 s.Valid() && s.bw.b.Healthy(used) && CollisionFree(s.bw.b.hs, used) &&
                 Handle(s.View(), Received(contentRange, body)).0.content in used
      modifies this, if id in sessions then {sessions[id], sessions[id].bw, sessions[id].bw.b} else {}
      ensures id !in old(sessions) ==> reply == NoSuchSession && sessions == old(sessions) && upload.None?
      ensures id in old(sessions) ==>
                var s := old(sessions)[id];
                var (after, expected) := Handle(old(s.View()), Received(contentRange, body));
                s.Valid() && s.View() == after && reply == expected &&
                s.bw.b.Healthy(used) &&
                sessions == (if reply.Finalize? then old(sessions) - {id} else old(sessions)) &&
                (reply.Finalize? <==> upload.Some?) &&
                (upload.Some? ==>
                  (upload.value.Uploaded? <==>
                    Succeeds(s.bw.b.hs, old(s.bw.b.OnDisk()), s.View().content, s.meta, s.conds, fault))) &&
                (upload.Some? && upload.value.Uploaded? ==>
                  upload.value.row ==
                  StoredRow(s.bw.b.hs, old(s.bw.b.OnDisk()), s.View().content, s.meta, s.conds, now))
      ensures id in old(sessions) ==>
                var s := old(sessions)[id];
                var before := old(s.bw.b.View());
                s.bw.b.View() == if upload.Some? && upload.value.Uploaded?
                                 then before[s.meta.name := Object(s.View().content, upload.value.row.attributes)]
                                 else before
      ensures id in old(sessions) && !old(sessions[id].bw.done) ==>
                var s := old(sessions)[id];
                s.bw.b.tmp == if reply.Finalize? then old(s.bw.b.tmp) - {s.bw.temp}
                              else old(s.bw.b.tmp)[s.bw.temp := s.View().content]
      ensures id in old(sessions) && !old(sessions[id].done) && contentRange == [] ==>
                var s, was := old(sessions)[id], old(sessions[id].View());
                s.View().content == was.content + body.delivered &&
                if body.broken then reply == CopyFailed && s.View().offset == was.offset && !s.View().done
                else
                  reply == Finalize && upload.Some? && s.View().offset == was.offset + |body.delivered| && s.View().done
      ensures id in old(sessions) && !old(sessions[id].done) ==>
                var t, was, n := old(sessions)[id].View(), old(sessions[id].View()), |body.delivered|;
                match ContentRanges.Parse(contentRange)
                case NoRange => true
                case Chunk(start, end, total) =>
                  if start != was.offset then reply == Incomplete(was.offset) && t == was
                  else
                    t.content == was.content + body.delivered &&
                    if body.broken then reply == CopyFailed && t.offset == was.offset && !t.done
                    else if n != end - start + 1 then reply == WrongLength && t.offset == was.offset && !t.done
                    else
                      t.offset == was.offset + n && (t.done <==> total == Some(was.offset + n)) &&
                      reply == if total == Some(was.offset + n) then Finalize else Incomplete(was.offset + n)
                case Probe(total) =>
                  t.content == was.content && t.offset == was.offset && (t.done <==> total == Some(was.offset)) &&
                  reply == if total == Some(was.offset) then Finalize else Incomplete(was.offset)
                case Malformed => reply == InvalidRange && t == was
      ensures id in old(sessions) && old(sessions[id].done) ==>
                reply == AlreadyFinalized && old(sessions)[id].View() == old(sessions[id].View())
      // what is stored in the end
      ensures id in old(sessions) && upload.Some? ==>
                var s, u := old(sessions)[id], upload.value;
                var content, meta, hs := s.View().content, s.meta, s.bw.b.hs;
                (u == Rejected(BadMd5) <==>
                  meta.name != [] &&
                  (meta.md5.Undecodable? || (meta.md5.Claimed? && meta.md5.value != hs.md5(content)))) &&
                (u == Rejected(BadCrc32c) <==>
                  meta.name != [] && (meta.md5 == NoClaim || meta.md5 == Claimed(hs.md5(content))) &&
                  (meta.crc32c.Undecodable? || (meta.crc32c.Claimed? && meta.crc32c.value != hs.crc32c(content)))) &&
                (u.Uploaded? ==>
                  (meta.md5 == NoClaim || meta.md5 == Claimed(hs.md5(content))) &&
                  (meta.crc32c == NoClaim || meta.crc32c == Claimed(hs.crc32c(content))) &&
                  u.row.size == |content| && u.row.md5 == hs.md5(content) && u.row.crc32c == hs.crc32c(content) &&
                  u.row.attributes.contentType == meta.contentType && u.row.attributes.metadata == meta.metadata &&
                  u.row.attributes.metageneration == 1 &&
                  u.row.attributes.created == now == u.row.attributes.updated)
    {
      hide CasRun.Good, Cas.View, Passes, CasRun.Current, FailsEarly, Cas.NewRow, NewAttributes, CollisionFree,
        Succeeds, StoredRow, ContentRanges.Parse;
      upload := None;
      if id !in sessions {
        return NoSuchSession, None;
      }
      var s := sessions[id];
      if !s.done {
        RequestsMean(s.View(), Received(contentRange, body));
      }
      reply := s.Receive(contentRange, body);
      if reply.Finalize? {
        sessions := sessions - {id};
        var u := CommitUpload(s.bw, s.meta, s.conds, now, fault, used);
        upload := Some(u);
      }
    }
  }
}
