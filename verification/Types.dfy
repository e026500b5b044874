/** Object rows, preconditions and the checksum functions of the store. */
module Types {
  import opened ByteStrings

  datatype Option<+T> = None | Some(value: T)

  type Hash = Bytes

  /** The checksum functions, which the model does not look into. */
  datatype Hashers = Hashers(sha256: Bytes -> Hash, md5: Bytes -> Bytes, crc32c: Bytes -> nat)

  /** No two of these contents share a sha256. */
  ghost predicate CollisionFree(hs: Hashers, used: set<Bytes>)
  {
    forall a, b :: a in used && b in used && hs.sha256(a) == hs.sha256(b) ==> a == b
  }

  datatype Conditions = Conditions(
    generationMatch: Option<int>,
    generationNotMatch: Option<int>,
    metagenerationMatch: Option<int>,
    metagenerationNotMatch: Option<int>)

  datatype PutOptions = PutOptions(contentType: Bytes, metadata: map<Bytes, Bytes>, conditions: Conditions)

  /** What a reader of an object learns besides its content. */
  datatype Attributes = Attributes(
    generation: int,
    metageneration: int,
    contentType: Bytes,
    metadata: map<Bytes, Bytes>,
    created: int,
    updated: int)

  datatype Row = Row(attributes: Attributes, hash: Hash, size: nat, md5: Bytes, crc32c: nat)

  datatype BlobRow = BlobRow(size: nat, refcount: int)

  datatype StoreError =
    | ObjectNotFound
    | PreconditionFailed
    | InvalidName
    | WriterFinished
    | Io

  /** Conditions.check: an absent object matches generation 0, and passes every "not match". */
  predicate Passes(c: Conditions, existing: Option<Attributes>): (ok: bool)
    ensures ok <==>
              match existing
              case Some(a) =>
                c.generationMatch in {None, Some(a.generation)} && c.generationNotMatch != Some(a.generation) &&
                c.metagenerationMatch in {None, Some(a.metageneration)} &&
                c.metagenerationNotMatch != Some(a.metageneration)
              case None => c.generationMatch in {None, Some(0)} && c.metagenerationMatch in {None, Some(0)}
  {
    var gen := if existing.Some? then existing.value.generation else 0;
    var metagen := if existing.Some? then existing.value.metageneration else 0;
    if c.generationMatch.Some? && gen != c.generationMatch.value then false
    else if c.generationNotMatch.Some? && existing.Some? && gen == c.generationNotMatch.value then false
    else if c.metagenerationMatch.Some? && metagen != c.metagenerationMatch.value then false
    else !(c.metagenerationNotMatch.Some? && existing.Some? && metagen == c.metagenerationNotMatch.value)
  }

  /** Names are not empty, not ".", not "..", hold no NUL, LF or CR, and have at most 1024 bytes. */
  predicate ValidObjectName(name: Bytes): (ok: bool)
    ensures ok ==> 1 <= |name| <= 1024 && forall i :: 0 <= i < |name| ==> name[i] != 0 && name[i] != 10 && name[i] != 13
    ensures !ok ==> name in {[], [46], [46, 46]} || |name| > 1024 || exists c :: c in name && c in {0, 10, 13}
    ensures name in {[46], [46, 46]} ==> !ok
  {
    name != [] && name != ['.' as int] && name != ['.' as int, '.' as int] &&
    0 !in name && 10 !in name && 13 !in name && |name| <= 1024
  }

  /** The generation of a commit: the clock in microseconds, moved past the generation it replaces. */
  function NextGeneration(existing: Option<Attributes>, now: int): (g: int)
    ensures g >= now && (existing.None? ==> g == now)
    ensures existing.Some? ==> g > existing.value.generation
  {
    if existing.Some? && existing.value.generation >= now then existing.value.generation + 1 else now
  }

  /** What a commit records besides the content: type and metadata as they were given, and the clock twice. */
  function NewAttributes(existing: Option<Attributes>, opts: PutOptions, now: int): (a: Attributes)
    ensures a.contentType == opts.contentType && a.metadata == opts.metadata && a.metageneration == 1
    ensures a.created == now && a.updated == now
    ensures a.generation == if existing.Some? && existing.value.generation >= now then existing.value.generation + 1
                            else now
  {
    Attributes(NextGeneration(existing, now), 1, opts.contentType, opts.metadata, now, now)
  }
}
