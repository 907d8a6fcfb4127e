/** Whole upload sessions driven through the controller, with the merge run as
    the separate step the controller hands off. What each session ends with is
    proved from the contracts of `Upload` and `MergeChunks` alone. */
module Scenarios {
  import opened Chunks
  import opened UploadControl
  import Decimal

  /** The names of chunks 1, 2 and 3 of one upload are pairwise different,
      and together they are exactly the names of chunks 1..3. */
  lemma FirstThreeChunkNames(fileName: string)
    ensures ChunkName(fileName, 1) != ChunkName(fileName, 2)
    ensures ChunkName(fileName, 1) != ChunkName(fileName, 3)
    ensures ChunkName(fileName, 2) != ChunkName(fileName, 3)
    ensures PartKeys(fileName, 3) == {ChunkName(fileName, 1), ChunkName(fileName, 2), ChunkName(fileName, 3)}
  {
    ChunkNameInjective(fileName, 1, 2);
    ChunkNameInjective(fileName, 1, 3);
    ChunkNameInjective(fileName, 2, 3);
    PartKeysStep(fileName, 3);
    PartKeysStep(fileName, 2);
    PartKeysStep(fileName, 1);
    PartKeysEmpty(fileName, 0);
  }

  /** Three chunks arrive in the order 2, 1, 3, and chunk 2 is first sent
      corrupted and then resent. The merged file is chunk 1, then 2, then 3,
      the corrupted bytes are not in it, and no chunk file is left behind. */
  method OutOfOrderSession(md5Of: seq<byte> -> string, fileName: string,
                           c1: seq<byte>, c2: seq<byte>, c3: seq<byte>, corrupted: seq<byte>)
    returns (responses: seq<Response>, outcome: MergeOutcome, merged: seq<byte>, leftover: set<string>)
    requires c1 != [] && c2 != [] && c3 != [] && corrupted != []
    requires md5Of(corrupted) != md5Of(c2)
    ensures responses == [Md5Mismatch, ChunkSaved(2), ChunkSaved(1), MergeStarted]
    ensures outcome == Merged
    ensures merged == c1 + c2 + c3
    ensures leftover == {}
  {
    var n1, n2, n3 := ChunkName(fileName, 1), ChunkName(fileName, 2), ChunkName(fileName, 3);
    FirstThreeChunkNames(fileName);
    var controller := new UploadController(md5Of, map[]);
    var r0 := controller.Upload(fileName, corrupted, md5Of(c2), 2, 3);
    assert controller.files == map[];
    var r1 := controller.Upload(fileName, c2, md5Of(c2), 2, 3);
    assert controller.files == map[n2 := c2];
    var r2 := controller.Upload(fileName, c1, md5Of(c1), 1, 3);
    assert controller.files == map[n2 := c2, n1 := c1];
    var r3 := controller.Upload(fileName, c3, md5Of(c3), 3, 3);
    ghost var before := controller.files;
    assert before == map[n2 := c2, n1 := c1, n3 := c3];
    responses := [r0, r1, r2, r3];
    assert PartsPresent(before, fileName, 3) by {
      forall j | 1 <= j <= 3 ensures ChunkName(fileName, j) in before {
        assert j == 1 || j == 2 || j == 3;
      }
    }
    assert Joined(before, fileName, 3) == c1 + c2 + c3;
    assert before.Keys == PartKeys(fileName, 3);
    outcome := controller.MergeChunks(fileName, 3);
    merged := controller.files[fileName];
    leftover := set k | k in controller.files && k != fileName;
    assert controller.files.Keys == {fileName};
  }

  /** Every upload writes into the same directory, and an upload may itself be
      named like a chunk. An upload named "x.part1" merges into the very file
      that holds chunk 1 of the upload "x", replacing those bytes by its own. */
  method SharedDirectorySession(md5Of: seq<byte> -> string, c: seq<byte>, d: seq<byte>)
    returns (chunkName: string, responses: seq<Response>, outcome: MergeOutcome, chunkFile: seq<byte>)
    requires c != [] && d != []
    ensures chunkName == ChunkName("x", 1) == "x.part1"
    ensures responses == [ChunkSaved(1), MergeStarted]
    ensures outcome == Merged
    ensures chunkFile == d
  {
    chunkName := ChunkName("x", 1);
    assert Decimal.IntToString(1) == "1";
    var controller := new UploadController(md5Of, map[]);
    var r0 := controller.Upload("x", c, md5Of(c), 1, 2);
    assert controller.files[chunkName] == c;
    var r1 := controller.Upload(chunkName, d, md5Of(d), 1, 1);
    responses := [r0, r1];
    ghost var before := controller.files;
    assert PartsPresent(before, chunkName, 1) by {
      forall j | 1 <= j <= 1 ensures ChunkName(chunkName, j) in before {
        assert j == 1;
      }
    }
    assert Joined(before, chunkName, 1) == d;
    outcome := controller.MergeChunks(chunkName, 1);
    chunkFile := controller.files[chunkName];
  }

  /** The chunk numbered totalChunks arrives first. The controller starts the
      merge all the same; the merge finds chunk 1 missing, fails, and leaves an
      empty target file beside the chunk that did arrive. */
  method LastChunkFirstSession(md5Of: seq<byte> -> string, fileName: string, c3: seq<byte>)
    returns (response: Response, outcome: MergeOutcome, merged: seq<byte>, kept: bool)
    requires c3 != []
    ensures response == MergeStarted
    ensures outcome == MissingPart(1)
    ensures merged == []
    ensures kept
  {
    var controller := new UploadController(md5Of, map[]);
    response := controller.Upload(fileName, c3, md5Of(c3), 3, 3);
    ChunkNameInjective(fileName, 1, 3);
    outcome := controller.MergeChunks(fileName, 3);
    merged := controller.files[fileName];
    ChunkNameIsNotFileName(fileName, 3);
    PartKeysMembership(fileName, 0, 3);
    kept := ChunkName(fileName, 3) in controller.files && controller.files[ChunkName(fileName, 3)] == c3;
  }
}
