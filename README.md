# Chunked upload: store, verify, merge

A model of the chunked-upload controller of a small Spring web service. A client
sends a large file as numbered chunks. Each request carries the chunk's bytes,
the MD5 digest the client claims for them, the chunk number and the total
number of chunks. The controller:

- refuses an empty chunk;
- stores the chunk in the upload directory as `<file name>.part<chunk number>`;
- recomputes the stored chunk's digest and deletes the chunk again if it
  differs from the claimed one;
- when the chunk's number equals the total, hands a merge off to a worker and
  answers at once.

The merge truncates (or creates) the file `<file name>`. It then walks
i = 1..total, appending chunk i to the file and deleting chunk i straight after
copying it. It stops with an exception at the first chunk file that does not
exist.

The upload directory is the field `files: map<string, seq<byte>>` of the class
`UploadControl.UploadController`. `Upload` and `MergeChunks` are methods that
update it in place. `MergeChunks` is a `while` loop whose invariant says that
after step i, chunks 1..i are deleted and the target holds their
concatenation. The digest is the function-valued constant `md5Of`, fixed when
the controller is built. The chunk name uses a real decimal rendering of the
chunk number (module `Decimal`). That rendering is proved injective through a
parser that inverts it, so two chunks of one file never share a name. Since a
chunk name is always longer than the file name, the merged output of an upload
never overwrites a chunk of the same upload. Uploads share one directory,
though, and nothing keeps them apart: an upload named `x.part1` merges into
the file that holds chunk 1 of the upload `x` (`SharedDirectorySession`).

Modules:

- `Decimal` (decimal.dfy): Java's rendering of an `int` in a string
  concatenation, and its inverse.
- `Chunks` (chunks.dfy): bytes, Java `int`, the directory as a store, chunk
  names, and `Joined`, the in-order concatenation of chunks 1..n.
- `UploadControl` (upload_controller.dfy): the controller class.
- `Scenarios` (scenarios.dfy): three whole sessions proved from the methods'
  contracts alone: `OutOfOrderSession`, `SharedDirectorySession` and
  `LastChunkFirstSession`.

Behaviour of the code that the model keeps as it is:

- The merge starts when the arriving chunk's number equals the total, not when
  all chunks are present. `LastChunkFirstSession` shows the result: chunk 3 of
  3 arrives first, the merge fails on chunk 1, and an empty target file is left
  behind.
- Each chunk is deleted right after it is copied into the final file, not
  after the whole merge succeeds, and there is no temporary file. So a merge
  that fails at chunk k has already consumed chunks 1..k-1 and leaves their
  concatenation under the final name.
- Nothing stops two merges of the same file from running at once: there is no
  lock.
- A chunk is stored before its digest is checked and deleted on a mismatch. A
  corrupted re-send of a chunk therefore also removes an earlier good copy of
  that chunk.
- Chunk files and merged files of all uploads live in one directory with no
  separation, so a merged file can replace a chunk of another upload.

## Model

| member | source | states |
|---|---|---|
| UploadControl.UploadController.Upload | src/main/java/com/jiang/controller/UploadController.java:31-81 | An empty payload gives `EmptyFile` and leaves the directory unchanged. A digest mismatch gives `Md5Mismatch` and removes the chunk's name from the directory, even if an earlier good chunk had it; no other file changes. A matching chunk is stored under its name, replacing any earlier one, with nothing else changed. A merge starts exactly when the chunk number equals the total, whatever other chunks exist; otherwise the answer is `ChunkSaved(chunkNumber)`. |
| UploadControl.UploadController.MergeChunks | src/main/java/com/jiang/controller/UploadController.java:91-103 | Runs to the end exactly when chunks 1..total were all present. It then leaves the target holding their in-order concatenation, with its earlier content discarded. Chunks 1..total are deleted and nothing else changes. Otherwise it stops at the first missing chunk k. Chunks 1..k-1 are then deleted, the target holds exactly their concatenation, and everything else is unchanged. |
| UploadControl.UploadController.constructor | src/main/java/com/jiang/controller/UploadController.java:24-28 | The controller starts over the given directory contents and digest function. |
| Chunks.ChunkName | src/main/java/com/jiang/controller/UploadController.java:51 | The chunk name is `fileName + ".part" + Decimal.IntToString(index)`; its contract states it is strictly longer than `fileName + ".part"` and starts with it. |
| Chunks.ChunkNameInjective | src/main/java/com/jiang/controller/UploadController.java:51 | Two chunk numbers of one file give the same chunk name only if they are equal. |
| Chunks.ChunkNameIsNotFileName | src/main/java/com/jiang/controller/UploadController.java:93-96 | A chunk name is strictly longer than its own upload's file name and so never equals that upload's merged file's name. |
| Chunks.PartKeysMembership | src/main/java/com/jiang/controller/UploadController.java:95-96 | The name of chunk `index` is among the names of chunks 1..n exactly when 1 <= index <= n. |
| Chunks.FileNameNotInPartKeys | src/main/java/com/jiang/controller/UploadController.java:93-98 | The merged file is never among the chunks of its own upload that the merge deletes. |
| Chunks.MergeStep | src/main/java/com/jiang/controller/UploadController.java:95-98 | If chunks 1..i-1 are already appended and deleted and chunk i exists, appending chunk i to the target and deleting it leaves chunks 1..i appended and deleted, with every other file unchanged. |
| Chunks.JoinedPrefix | src/main/java/com/jiang/controller/UploadController.java:95-97 | The concatenation of chunks 1..j is a prefix of the concatenation of chunks 1..n for j <= n: appending never rewrites earlier output. |
| Chunks.JoinedPlacesPart | src/main/java/com/jiang/controller/UploadController.java:95-97 | In the merged output, chunk j's bytes come right after those of chunks 1..j-1 (ascending index order). |
| Chunks.JoinedDependsOnlyOnParts | src/main/java/com/jiang/controller/UploadController.java:95-97 | Two directories that agree on chunks 1..n give the same merged bytes, whatever else they hold and whatever order the chunks arrived in. |
| Decimal.NatToString | src/main/java/com/jiang/controller/UploadController.java:51 | A natural number renders as a non-empty string of decimal digits without a leading zero. |
| Decimal.IntToString | src/main/java/com/jiang/controller/UploadController.java:51 | The rendering of a chunk number is non-empty and starts with '-' exactly when the number is negative. |
| Decimal.ParseNatToString | src/main/java/com/jiang/controller/UploadController.java:51 | Parsing the decimal digits of n gives back n. |
| Decimal.ParseIntToString | src/main/java/com/jiang/controller/UploadController.java:51 | Parsing the rendering of any int, negative ones included, gives back that int. |
| Decimal.IntToStringInjective | src/main/java/com/jiang/controller/UploadController.java:51 | Different chunk numbers render to different text. |
| Scenarios.OutOfOrderSession | src/main/java/com/jiang/controller/UploadController.java:31-103 | Chunks arrive in the order 2, 1, 3, and chunk 2 is first sent corrupted. The answers are mismatch, saved 2, saved 1, then merge started. The merge succeeds and yields chunk 1, 2, 3 in order, without the corrupted bytes, and no chunk file is left. |
| Scenarios.SharedDirectorySession | src/main/java/com/jiang/controller/UploadController.java:51-98 | Chunk 1 of the upload `x` is stored as `x.part1`; a one-chunk upload named `x.part1` then merges into that same file, which afterwards holds the second upload's bytes. |
| Scenarios.LastChunkFirstSession | src/main/java/com/jiang/controller/UploadController.java:68-98 | When chunk total of total arrives first, the merge is started anyway. It fails on chunk 1 and leaves an empty target file, and the chunk that arrived is kept. |

## Left out

- HTTP binding, `MultipartFile` and the response strings: the answer is the `Response` datatype. Only its cases are modelled, not the wording of the messages.
- Logging: it has no effect on behaviour.
- The configured upload directory and its creation with `mkdirs`: the model has one implicit directory.
- The MD5 algorithm and its hex encoding (`DigestUtils.md5DigestAsHex`): a library call, modelled as the arbitrary function `md5Of` fixed per controller.
- The thread-pool hand-off of the merge and any race between concurrent uploads and merges: the merge is a separate, later call to `MergeChunks`.
- I/O exceptions from storing a chunk or writing the output stream: these are environment faults. Only the missing-chunk failure of the merge loop is modelled, as `MissingPart(k)`.
- A `null` original file name, which Java would render as "null": the file name is always a string here.
- UploadControl.UploadController.MergeChunks: the loop counter is an unbounded integer. Java's `i++` wraps to `Integer.MIN_VALUE` after `Integer.MAX_VALUE`. The two differ only when `totalChunks` is `Integer.MAX_VALUE` and all 2^31-1 chunks are present.
- The failure of `File.delete` for a chunk: it is ignored by the code and always succeeds in the model.
- File-name semantics: names containing `/` or `..`, the empty name, and file systems that ignore case or refuse some characters. A file name is an arbitrary string and two names are the same file exactly when they are equal strings.
- The cause of silently failed deletes: `calculateMd5` (line 85) opens an input stream on the chunk and never closes it. On a file system that refuses to delete open files, the deletes at lines 61 and 98 can then fail without any error. The model has no open handles, so every delete succeeds.
- A separate namespace per upload: the code keeps chunk and merged files of all uploads side by side, and so does the model. No property says that one upload cannot touch another's files; `Scenarios.SharedDirectorySession` exhibits the clash.
