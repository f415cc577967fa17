/** A chunked upload: chunks are written to a staging file and the whole is then put in place, never
    over an existing file. Any write may stop part-way. */
module UploadTransfer {
  import opened ByteStrings
  import opened Wrappers

  datatype TransferError =
    | AlreadyCommitted
    | InvalidChunk
    | ChunkTooLarge
    | SizeMismatch
    | ChunkConflict
    | OffsetMismatch
    | Incomplete
    | HashMismatch
    | TargetExists
    | IoError

  datatype Receipt = Receipt(transfer: string, path: string, size: nat, sha256: string)

  /** The file after writing `data` at an offset within it. */
  function WriteAt(file: Bytes, offset: nat, data: Bytes): (r: Bytes)
    requires offset <= |file|
    ensures |r| == if offset + |data| > |file| then offset + |data| else |file|
    ensures r[..offset] == file[..offset]
    ensures r[offset..offset + |data|] == data
  {
    file[..offset] + data + if offset + |data| < |file| then file[offset + |data|..] else []
  }

  /** The directory an upload ends up in; other programs may change it between calls. */
  class Destination {
    var files: map<string, Bytes>

    constructor (files: map<string, Bytes>)
      ensures this.files == files
    {
      this.files := files;
    }
  }

  class Transfer {
    const key: string
    const path: string
    const size: nat
    const sha256: string
    const chunkBytes: nat
    const digest: Bytes -> string
    var staged: Bytes
    var nextOffset: nat
    var committed: Option<Receipt>
    ghost var accepted: Bytes      // the chunks accepted so far, in order
    ghost var placed: nat          // how often this transfer created the target
    ghost var faults: nat          // how often reading or writing failed

    ghost predicate Valid()
      reads this
    {
      && nextOffset <= |staged| <= size
      && staged[..nextOffset] == accepted
      && (committed.Some? ==> committed.value == Receipt(key, path, size, sha256) && placed > 0)
      && (placed > 0 ==> |accepted| == size && digest(accepted) == sha256)
    }

    constructor (key: string, path: string, size: nat, sha256: string, chunkBytes: nat, digest: Bytes -> string)
      ensures Valid() && accepted == [] && committed.None? && placed == 0 && faults == 0
      ensures this.key == key && this.chunkBytes == chunkBytes
      ensures this.size == size && this.sha256 == sha256 && this.path == path && this.digest == digest
    {
      this.key, this.path, this.size, this.sha256 := key, path, size, sha256;
      this.chunkBytes, this.digest := chunkBytes, digest;
      staged, nextOffset, committed, accepted, placed, faults := [], 0, None, [], 0, 0;
    }

    method Fault() returns (fault: bool)
      modifies `faults
      ensures faults == old(faults) + if fault then 1 else 0
    {
      fault := *;
      faults := faults + if fault then 1 else 0;
    }

    /** `_upload_chunk` with the decoded data, or None where decoding failed. */
    method UploadChunk(offset: int, decoded: Option<Bytes>) returns (failure: Option<TransferError>)
      requires Valid()
      modifies this
      ensures Valid() && committed == old(committed) && placed == old(placed)
      // A chunk is accepted exactly at the next offset; everything else leaves what was accepted.
      ensures failure.None? ==>
                && old(committed).None? && decoded.Some? && 0 < |decoded.value| <= chunkBytes
                && 0 <= offset && offset + |decoded.value| <= size
                && if offset == |old(accepted)| then accepted == old(accepted) + decoded.value
                   else offset + |decoded.value| <= |old(accepted)|
                        && accepted == old(accepted) && accepted[offset..offset + |decoded.value|] == decoded.value
      ensures failure.Some? ==> accepted == old(accepted)
      // Every refusal has its reason, and only reading and writing the staging file may fail without one.
      ensures failure == Some(AlreadyCommitted) <==> old(committed).Some?
      ensures failure == Some(InvalidChunk) <==>
                committed.None? && (offset < 0 || decoded.None? || decoded.value == [])
      ensures failure == Some(ChunkTooLarge) <==>
                committed.None? && offset >= 0 && decoded.Some? && |decoded.value| > chunkBytes
      ensures failure == Some(SizeMismatch) ==> decoded.Some? && offset + |decoded.value| > size
      ensures failure == Some(OffsetMismatch) ==>
                decoded.Some? && offset != |accepted| && offset + |decoded.value| > |accepted|
      ensures failure == Some(IoError) ==>
                && faults > old(faults) && decoded.Some? && 0 <= offset
                && (offset == |old(accepted)| || offset + |decoded.value| <= |old(accepted)|)
      ensures failure.Some? ==>
                failure.value in {AlreadyCommitted, InvalidChunk, ChunkTooLarge, SizeMismatch, OffsetMismatch,
                                  ChunkConflict, IoError}
      ensures failure == Some(ChunkConflict) ==>
                decoded.Some? && 0 <= offset && offset + |decoded.value| <= |accepted|
                && accepted[offset..offset + |decoded.value|] != decoded.value
    {
      if committed.Some? {
        return Some(AlreadyCommitted);
      }
      if offset < 0 || decoded.None? || decoded.value == [] {
        return Some(InvalidChunk);
      }
      var data := decoded.value;
      if |data| > chunkBytes {
        return Some(ChunkTooLarge);
      }
      var end := offset + |data|;
      if end > size {
        return Some(SizeMismatch);
      }
      if offset < nextOffset && end <= nextOffset {
        var unreadable := Fault();
        if unreadable {
          return Some(IoError);
        }
        assert accepted[offset..end] == staged[offset..end];
        if staged[offset..end] != data {
          return Some(ChunkConflict);
        }
      } else if offset != nextOffset {
        return Some(OffsetMismatch);
      } else {
        var fault := Fault();
        if fault {
          var written :| 0 <= written <= |data|;
          staged := WriteAt(staged, offset, data[..written]);
          assert staged[..nextOffset] == accepted;
          return Some(IoError);
        }
        staged := WriteAt(staged, offset, data);
        assert staged[..end] == staged[..offset] + staged[offset..end];
        nextOffset := end;
        accepted := accepted + data;
      }
      return None;
    }

    /** `_upload_commit`. The link that puts the file in place is atomic and refuses an existing
        target; the clean-up after it may fail, and so may the one after the receipt is kept. */
    method Commit(destination: Destination) returns (r: Result<Receipt, TransferError>)
      requires Valid()
      modifies this, destination
      ensures Valid() && accepted == old(accepted)
      ensures old(committed).Some? ==>
                && r == Ok(old(committed).value) && committed == old(committed)
                && placed == old(placed) && destination.files == old(destination.files)
      ensures r.Ok? ==> committed == Some(r.value) && r.value == Receipt(key, path, size, sha256)
      // The target changes only from absent to the complete upload with its declared digest.
      ensures placed == old(placed) ==> destination.files == old(destination.files)
      ensures placed != old(placed) ==>
                && placed == old(placed) + 1 && path !in old(destination.files)
                && destination.files == old(destination.files)[path := accepted]
                && |accepted| == size && digest(accepted) == sha256
      ensures committed.Some? && old(committed).None? ==> placed == old(placed) + 1
      ensures old(committed).None? && path in old(destination.files) ==> r.Err? && committed.None?
      ensures r == Err(Incomplete) <==> |accepted| < size
      ensures r == Err(HashMismatch) ==> digest(accepted) != sha256
      ensures r == Err(TargetExists) ==> path in old(destination.files)
      ensures r == Err(IoError) ==> faults > old(faults)
      ensures r.Err? ==> r.error in {Incomplete, HashMismatch, TargetExists, IoError}
    {
      if committed.Some? {
        return Ok(committed.value);
      }
      if nextOffset != size {
        return Err(Incomplete);
      }
      assert staged == accepted;
      var fault := Fault();
      if fault {
        return Err(IoError);
      }
      if digest(staged) != sha256 {
        return Err(HashMismatch);
      }
      if path in destination.files {
        return Err(TargetExists);
      }
      fault := Fault();
      if fault {
        return Err(IoError);
      }
      var copy := [];
      while |copy| < |staged|
        invariant |copy| <= |staged| && copy == staged[..|copy|]
        decreases |staged| - |copy|
      {
        var n := if |copy| + chunkBytes <= |staged| && chunkBytes > 0 then chunkBytes else |staged| - |copy|;
        copy := copy + staged[|copy|..|copy| + n];
      }
      destination.files := destination.files[path := copy];
      placed := placed + 1;
      fault := Fault();
      if fault {
        return Err(IoError);
      }
      committed := Some(Receipt(key, path, size, sha256));
      fault := Fault();
      if fault {
        return Err(IoError);
      }
      return Ok(committed.value);
    }
  }

  datatype Call = ChunkCall(offset: int, decoded: Option<Bytes>) | CommitCall

  /** Other programs at work in the destination: anything, except that the target, once it is there, is
      neither removed nor overwritten. */
  method Interfere(destination: Destination, path: string)
    modifies destination
    ensures path in old(destination.files) ==>
              path in destination.files && destination.files[path] == old(destination.files)[path]
  {
    var files: map<string, Bytes> := *;
    destination.files := if path in destination.files then files[path := destination.files[path]] else files;
  }

  /** The target came from this transfer at most once, and is then all that was accepted. */
  ghost predicate PlacedOnce(t: Transfer, files: map<string, Bytes>)
    reads t
  {
    t.placed <= 1 && (t.placed == 1 ==> t.path in files && files[t.path] == t.accepted)
  }

  /** Any sequence of chunk and commit calls while other programs work in the destination. The accepted
      bytes are the accepted chunks in order; the target is created at most once, as the whole upload,
      even when a commit fails after that; and every successful commit returns the same receipt. The
      proviso on `Interfere` is needed: a target removed after a commit that failed late would be
      created again by the next one. */
  method UploadAll(t: Transfer, destination: Destination, calls: seq<Call>)
    returns (receipts: seq<Receipt>, ghost taken: seq<Bytes>)
    requires t.Valid() && t.accepted == [] && t.committed.None? && t.placed == 0
    modifies t, destination
    ensures t.Valid() && PlacedOnce(t, destination.files)
    ensures t.accepted == Concat(taken) && forall chunk <- taken :: exists call <- calls :: IsChunk(call, chunk)
    ensures forall r <- receipts :: r == Receipt(t.key, t.path, t.size, t.sha256)
    ensures t.placed == 1 ==> |Concat(taken)| == t.size && t.digest(Concat(taken)) == t.sha256
    ensures receipts != [] ==> t.placed == 1
    ensures t.path in old(destination.files) ==> t.placed == 0
  {
    receipts, taken := [], [];
    for i := 0 to |calls|
      invariant t.Valid() && PlacedOnce(t, destination.files) && t.accepted == Concat(taken)
      invariant forall chunk <- taken :: exists call <- calls :: IsChunk(call, chunk)
      invariant forall r <- receipts :: r == Receipt(t.key, t.path, t.size, t.sha256)
      invariant receipts != [] ==> t.placed == 1
      invariant t.path in old(destination.files) ==> t.placed == 0 && t.path in destination.files
    {
      Interfere(destination, t.path);
      assert calls[i] in calls;
      match calls[i]
      case ChunkCall(offset, decoded) =>
        taken := TakeChunk(t, offset, decoded, taken);
      case CommitCall =>
        var r := t.Commit(destination);
        receipts := if r.Ok? then receipts + [r.value] else receipts;
    }
  }

  predicate IsChunk(call: Call, chunk: Bytes) {
    call.ChunkCall? && call.decoded == Some(chunk)
  }

  /** A chunk call, and the chunks accepted up to then. Nothing is accepted any more once the upload has
      all its bytes. */
  method TakeChunk(t: Transfer, offset: int, decoded: Option<Bytes>, ghost taken: seq<Bytes>)
    returns (ghost next: seq<Bytes>)
    requires t.Valid() && t.accepted == Concat(taken)
    modifies t
    ensures t.Valid() && t.committed == old(t.committed) && t.placed == old(t.placed)
    ensures t.accepted == Concat(next)
    ensures next == taken || (decoded.Some? && next == taken + [decoded.value])
    ensures |old(t.accepted)| == t.size ==> t.accepted == old(t.accepted)
  {
    ghost var before := t.accepted;
    var failure := t.UploadChunk(offset, decoded);
    next := taken;
    if failure.None? && t.accepted != before {
      ConcatOneMore(taken, decoded.value);
      next := taken + [decoded.value];
    }
  }

  function Concat(chunks: seq<Bytes>): Bytes {
    if chunks == [] then [] else chunks[0] + Concat(chunks[1..])
  }

  lemma {:induction false} ConcatOneMore(chunks: seq<Bytes>, chunk: Bytes)
    ensures Concat(chunks + [chunk]) == Concat(chunks) + chunk
  {
    if chunks == [] {
      assert Concat([chunk]) == chunk + Concat([]);
    } else {
      ConcatOneMore(chunks[1..], chunk);
      assert (chunks + [chunk])[1..] == chunks[1..] + [chunk];
    }
  }
}
