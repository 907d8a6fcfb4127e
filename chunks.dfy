/** The upload directory seen as a keyed store of byte files, the names under
    which the chunks of one upload are kept there, and the bytes a complete
    merge of those chunks produces. */
module Chunks {
  import Decimal

  newtype byte = x: int | 0 <= x < 0x100

  /** Java's `int`, the type of `chunkNumber` and `totalChunks`. */
  newtype int32 = x: int | -0x8000_0000 <= x < 0x8000_0000

  /** The upload directory: file name to file contents. */
  type Store = map<string, seq<byte>>

  /** The file name of chunk `index` of `fileName`: the original name, then
      ".part", then the index in decimal. */
  function ChunkName(fileName: string, index: int): (s: string)
    ensures |s| > |fileName + ".part"| && s[..|fileName + ".part"|] == fileName + ".part"
  {
    fileName + ".part" + Decimal.IntToString(index)
  }

  /** Distinct chunk numbers of one upload are stored under distinct names, so
      one chunk never overwrites another. */
  lemma ChunkNameInjective(fileName: string, i: int, j: int)
    ensures ChunkName(fileName, i) == ChunkName(fileName, j) ==> i == j
  {
    var prefix := fileName + ".part";
    assert ChunkName(fileName, i)[|prefix|..] == Decimal.IntToString(i);
    assert ChunkName(fileName, j)[|prefix|..] == Decimal.IntToString(j);
    Decimal.IntToStringInjective(i, j);
  }

  /** No chunk of an upload is stored under the name of that same upload's
      merged file, so writing the merged output never clobbers one of its own
      chunks. (Uploads share one directory, so another upload's chunk can
      carry that name: see `Scenarios.SharedDirectorySession`.) */
  lemma ChunkNameIsNotFileName(fileName: string, index: int)
    ensures ChunkName(fileName, index) != fileName
    ensures |ChunkName(fileName, index)| > |fileName|
  {
  }

  /** Chunks 1..n of `fileName` are all in the directory. */
  ghost predicate PartsPresent(store: Store, fileName: string, n: int) {
    forall j :: 1 <= j <= n ==> ChunkName(fileName, j) in store
  }

  /** The names of chunks 1..n of `fileName`. */
  function PartKeys(fileName: string, n: int): set<string> {
    set j | 1 <= j <= n :: ChunkName(fileName, j)
  }

  /** The bytes of chunks 1..n of `fileName`, concatenated in ascending index order. */
  function Joined(store: Store, fileName: string, n: int): seq<byte>
    requires PartsPresent(store, fileName, n)
    decreases n
  {
    if n <= 0 then [] else Joined(store, fileName, n - 1) + store[ChunkName(fileName, n)]
  }

  /** Every chunk name of `fileName` is the name of exactly one chunk number. */
  lemma PartKeysMembership(fileName: string, n: int, index: int)
    ensures ChunkName(fileName, index) in PartKeys(fileName, n) <==> 1 <= index <= n
  {
    forall j | 1 <= j <= n
      ensures ChunkName(fileName, j) == ChunkName(fileName, index) ==> j == index
    {
      ChunkNameInjective(fileName, j, index);
    }
  }

  /** The merged file never appears among the names of its own upload's chunks. */
  lemma FileNameNotInPartKeys(fileName: string, n: int)
    ensures fileName !in PartKeys(fileName, n)
  {
    forall j | 1 <= j <= n
      ensures ChunkName(fileName, j) != fileName
    {
      ChunkNameIsNotFileName(fileName, j);
    }
  }

  /** Growing the range by one chunk adds exactly that chunk's name. */
  lemma PartKeysStep(fileName: string, n: int)
    requires 1 <= n
    ensures PartKeys(fileName, n) == PartKeys(fileName, n - 1) + {ChunkName(fileName, n)}
  {
  }

  /** An empty range names no chunk. */
  lemma PartKeysEmpty(fileName: string, n: int)
    requires n <= 0
    ensures PartKeys(fileName, n) == {}
  {
  }

  /** One step of the merge: with chunks 1..i-1 already moved into the target,
      appending chunk i to it and deleting chunk i leaves chunks 1..i moved. */
  lemma MergeStep(before: Store, fileName: string, i: int, files: Store)
    requires 1 <= i
    requires PartsPresent(before, fileName, i - 1)
    requires files == (before - PartKeys(fileName, i - 1))[fileName := Joined(before, fileName, i - 1)]
    requires ChunkName(fileName, i) in files
    ensures PartsPresent(before, fileName, i)
    ensures var part := ChunkName(fileName, i);
            files[fileName := files[fileName] + files[part]] - {part}
            == (before - PartKeys(fileName, i))[fileName := Joined(before, fileName, i)]
  {
    var part := ChunkName(fileName, i);
    PartKeysMembership(fileName, i - 1, i);
    PartKeysStep(fileName, i);
    FileNameNotInPartKeys(fileName, i);
    assert part in before && files[part] == before[part];
  }

  /** The merge of the first j chunks is a prefix of the merge of the first n. */
  lemma {:induction false} JoinedPrefix(store: Store, fileName: string, j: int, n: int)
    requires 0 <= j <= n
    requires PartsPresent(store, fileName, n)
    ensures PartsPresent(store, fileName, j)
    ensures |Joined(store, fileName, j)| <= |Joined(store, fileName, n)|
    ensures Joined(store, fileName, n)[..|Joined(store, fileName, j)|] == Joined(store, fileName, j)
  {
    if j < n {
      JoinedPrefix(store, fileName, j, n - 1);
      var whole := Joined(store, fileName, n);
      var prev := Joined(store, fileName, n - 1);
      assert whole[..|prev|] == prev;
    }
  }

  /** Chunk j's bytes sit in the merged output straight after those of chunks
      1..j-1: the merge preserves index order. */
  lemma JoinedPlacesPart(store: Store, fileName: string, j: int, n: int)
    requires 1 <= j <= n
    requires PartsPresent(store, fileName, n)
    ensures var before := Joined(store, fileName, j - 1);
            var part := store[ChunkName(fileName, j)];
            |before| + |part| <= |Joined(store, fileName, n)| &&
            Joined(store, fileName, n)[|before|..|before| + |part|] == part
  {
    JoinedPrefix(store, fileName, j, n);
    var before := Joined(store, fileName, j - 1);
    var part := store[ChunkName(fileName, j)];
    var upTo := Joined(store, fileName, j);
    assert upTo[|before|..] == part;
    assert Joined(store, fileName, n)[|before|..|before| + |part|] == upTo[|before|..];
  }

  /** The merged bytes depend only on the contents of chunks 1..n, not on
      anything else in the directory nor on the order in which they arrived. */
  lemma {:induction false} JoinedDependsOnlyOnParts(s1: Store, s2: Store, fileName: string, n: int)
    requires PartsPresent(s1, fileName, n)
    requires forall j :: 1 <= j <= n ==>
               ChunkName(fileName, j) in s2 && s2[ChunkName(fileName, j)] == s1[ChunkName(fileName, j)]
    ensures PartsPresent(s2, fileName, n)
    ensures Joined(s1, fileName, n) == Joined(s2, fileName, n)
  {
    if n > 0 {
      JoinedDependsOnlyOnParts(s1, s2, fileName, n - 1);
      var part := ChunkName(fileName, n);
      assert s2[part] == s1[part];
    }
  }
}
