/** The chunked-upload controller: `Upload` stores and checks one chunk and
    decides whether to start the merge; `MergeChunks` concatenates chunks
    1..totalChunks into the target file, deleting each chunk as soon as it has
    been copied. */
module UploadControl {
  import opened Chunks

  /** What `upload` answers the client. */
  datatype Response =
    | EmptyFile                      // the payload had no bytes
    | Md5Mismatch                    // the stored chunk's digest differs from the claimed one
    | MergeStarted                   // the chunk was the one numbered totalChunks; a merge was handed off
    | ChunkSaved(chunkNumber: int32) // the chunk was stored and nothing else happens

  /** How `mergeChunks` ends: normally, or by the exception raised when the
      next chunk file to copy does not exist. */
  datatype MergeOutcome = Merged | MissingPart(index: int)

  class UploadController {
    /** The digest the controller computes over a stored chunk (MD5 rendered as hex). */
    const md5Of: seq<byte> -> string
    /** The upload directory. */
    var files: Store

    constructor (md5Of: seq<byte> -> string, files: Store)
      ensures this.md5Of == md5Of && this.files == files
    {
      this.md5Of := md5Of;
      this.files := files;
    }

    /** Receives chunk `chunkNumber` of `totalChunks` of the file `fileName`,
        with the digest `md5` the client claims for it. */
    method Upload(fileName: string, payload: seq<byte>, md5: string, chunkNumber: int32, totalChunks: int32)
      returns (r: Response)
      modifies this
      // an empty payload is refused before anything is written
      ensures payload == [] ==> r == EmptyFile && files == old(files)
      // a corrupted chunk leaves no file under its name, even one an earlier upload stored
      ensures payload != [] && md5Of(payload) != md5 ==>
                r == Md5Mismatch && files == old(files) - {ChunkName(fileName, chunkNumber as int)}
      // a sound chunk is stored under its name, replacing any earlier one; no other file changes
      ensures payload != [] && md5Of(payload) == md5 ==>
                files == old(files)[ChunkName(fileName, chunkNumber as int) := payload]
      // the merge starts exactly when the chunk's number is the total, whatever else is present
      ensures r == MergeStarted <==> payload != [] && md5Of(payload) == md5 && chunkNumber == totalChunks
      ensures r.ChunkSaved? <==> payload != [] && md5Of(payload) == md5 && chunkNumber != totalChunks
      ensures r.ChunkSaved? ==> r.chunkNumber == chunkNumber
    {
      if payload == [] {
        return EmptyFile;
      }
      var chunkFile := ChunkName(fileName, chunkNumber as int);
      files := files[chunkFile := payload];
      var calculated := md5Of(files[chunkFile]);
      if calculated != md5 {
        files := files - {chunkFile};
        return Md5Mismatch;
      }
      if chunkNumber == totalChunks {
        return MergeStarted;
      }
      return ChunkSaved(chunkNumber);
    }

    /** Truncates (or creates) `fileName`, then for i = 1..totalChunks appends
        chunk i to it and deletes chunk i. Stops at the first missing chunk,
        leaving what was already copied and deleted as it is. */
    method MergeChunks(fileName: string, totalChunks: int32) returns (outcome: MergeOutcome)
      modifies this
      // the merge runs to the end exactly when every chunk 1..totalChunks was present
      ensures outcome.Merged? <==> PartsPresent(old(files), fileName, totalChunks as int)
      // otherwise it stops at the first missing chunk
      ensures outcome.MissingPart? ==>
                && 1 <= outcome.index <= totalChunks as int
                && PartsPresent(old(files), fileName, outcome.index - 1)
                && ChunkName(fileName, outcome.index) !in old(files)
      // after a full merge the target holds chunks 1..totalChunks in order (its
      // earlier content is gone), those chunks are deleted, nothing else changes
      ensures outcome.Merged? ==>
                files == (old(files) - PartKeys(fileName, totalChunks as int))
                         [fileName := Joined(old(files), fileName, totalChunks as int)]
      // after stopping at chunk k the target holds chunks 1..k-1, which alone are deleted
      ensures outcome.MissingPart? ==>
                files == (old(files) - PartKeys(fileName, outcome.index - 1))
                         [fileName := Joined(old(files), fileName, outcome.index - 1)]
    {
      FileNameNotInPartKeys(fileName, 0);
      PartKeysEmpty(fileName, 0);
      files := files[fileName := []];
      var i: int := 1;
      while i <= totalChunks as int
        invariant 1 <= i <= (if totalChunks < 1 then 1 else totalChunks as int + 1)
        invariant PartsPresent(old(files), fileName, i - 1)
        invariant files == (old(files) - PartKeys(fileName, i - 1))
                           [fileName := Joined(old(files), fileName, i - 1)]
      {
        var chunkFile := ChunkName(fileName, i);
        if chunkFile !in files {
          ChunkNameIsNotFileName(fileName, i);
          PartKeysMembership(fileName, i - 1, i);
          return MissingPart(i);
        }
        MergeStep(old(files), fileName, i, files);
        files := files[fileName := files[fileName] + files[chunkFile]];
        files := files - {chunkFile};
        i := i + 1;
      }
      if totalChunks < 1 {
        PartKeysEmpty(fileName, totalChunks as int);
      }
      return Merged;
    }
  }
}
