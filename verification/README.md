# authfs and zipfuse in Dafny

A model, with proofs, of the two file systems in this repository:

* **authfs** serves files that live in an untrusted place. A reader checks every chunk against an
  fs-verity Merkle tree whose root was signed. A writer keeps the leaf hashes of a new file in private
  memory while the bytes go to a store that may lie.
* **zipfuse** serves the members of a zip archive: an inode table built from the archive's paths,
  buffers shared by all openers of a file, and directory listings in pages.

`dafny verify dfyconfig.toml` checks everything.

## What is proved

**Reading.** From the signature to the bytes (`ReadSigned`): whatever the data source and the tree
source answer, call by call, a read that succeeds returns exactly the requested range of the signed
content, or the two descriptors collide, or a block that was served during this very read differs
from the true block and has its hash. Over honest sources a read succeeds if and only if the file has
at most 2^61 bytes or nothing is to be read. Underneath lie the geometry of the root-first tree layout
(levels contiguous, nodes one-to-one with chunks, each step of the walk pointing at the node of the step
before) and the exact limit of its 64-bit arithmetic: no operation overflows if and only if the file
has at most 2^61 bytes.

**The whole way.** `ReadWritten` joins both ends: a file written against a store that lies, signed over
its private leaves and recorded size at any moment, and read back from sources that lie, yields exactly
the content that the writer's successful calls produced, extended with zeros to the recorded size, or a
named collision, zero hash or misleading answer. One case is excepted, and for it the claim is false.
The reader derives from the signed size how many pages lie between a chunk and the root. If these are
more than the tree of the signed leaves has (a *gap*), a block of the content can be taken for a page of
hashes. There is no gap if and only if the content has at least two chunks and the recorded size implies
a tree of the same height (`NoGapIff`). So there always is one for a file of one chunk, because the
writer signs the leaf as the root while the reader takes every root as the hash of a page; and there can
be one whenever the recorded size runs ahead of the content, that is, between the chunk steps of a write
and after a write that was cut short, until a resize or enough further writes catch up. Chunk reads
succeed if and only if the blocks served form a chain up to the root (`ReadIffChained`). For every
content and size with a gap, if the content begins with the right hash, the read can return something
else than was written, without a collision (`AheadReadCanDiffer`); `InterruptedReadDiffers` and
`OneChunkReadCanDiffer` are such inputs for two chunks and for one.

**Building.** Hashing level by level gives the root of the recursively defined tree, always ends in
one hash, and from two chunks on is the root that the reader computes. The digest determines the
file: two files with one digest are equal, or their descriptors collide, or the nodes at one place
of their trees do.

**Writing.** For any sequence of chunk steps and resizes, with the store answering and failing as it
likes, every leaf is the hash of the corresponding chunk of the *trusted content*, that is, of the
plain file to which exactly the writes and resizes reported successful were applied, unless some
answer misled the editor, and then that event is a witness (`RunTracksTrusted`). Every `write_at`
applies some prefix of its buffer; if it reports a count, that is the length of the prefix, and after an
error of the store it reports none. Over a plain byte file, every interleaving of the chunk steps of any
number of writers and of resizes keeps the leaves equal to those of the file in every intermediate
state; the recorded size catches up when all have finished; and writers on disjoint ranges leave a file
that does not depend on the schedule.

**zipfuse.** `from_zip` succeeds exactly when every entry is readable and well named and none has a file
at a proper prefix of its path, as fixed by the first entry that reaches that prefix; whether it
otherwise fails or stops is decided by the first component that does not fit (`BuildStopsIff`). A table
that is built is a rooted tree in which a path resolves exactly when it is a prefix of some entry, with
the prescribed mode, size, kind and archive index. A shared buffer stays while someone has it open, and
holds what the open that inserted it had read, whatever later opens would read. Hence a reader that
holds a directory open and resumes each page at the offset reported with the last entry it used lists
every entry exactly once, whatever others open and release meanwhile (`DirectoryListedOnce`).

## How it is modelled

* The hash is an arbitrary function `H` from byte strings to 32 bytes. Nothing is assumed about it.
  Collisions are never claimed to "exist" (they do, for every such function); results name the two
  blocks that collide.
* A chunk source is a function of the number of the call and the chunk index, so it may change its
  answer at any time. A reply overwrites the front of a zeroed 4096-byte buffer.
* The store behind an editor follows a script that is arbitrary; a store whose every act is honest is
  a plain byte file that may still write less than it was asked to, or nothing.
* Reply writers, signature checks, decompression, archive errors and the server's I/O errors are
  parameters.
* A walk over the tree whose 64-bit arithmetic would overflow ends the read without data.
* Integers are unbounded. Where the program's width matters it is stated: the walk
  (`WalkFitsExactlyUpToLimit`), descriptor sizes, `i64` offsets on the wire, and `u32` open counts.
* Locks are taken to exclude each other; a chunk step of a write and a whole resize are atomic.
* `hide` statements in proofs only leave out function bodies that a proof does not need.

Where the program and its comments disagree, the model follows the program:

* `authfs/src/fsverity/editor.rs:224-228` says that a truncation verifies the data it reads back. The
  program does not compare it with the old leaf. `ResizeTracksIffReadBackTrue` gives the exact
  consequence.
* `zipfuse/src/main.rs:229-231` says that a buffer is released when nobody has the file open. The
  decremented count is never stored, so this holds if and only if there never were two openers at
  once (`MatchedRunsAreAccounted`, `OverlapLeavesBuffer`).
* The debug assertion at `authfs/src/fsverity/builder.rs:113` compares `(file_size - 1) / 4096` with the
  number of leaves; the true relation is that number minus one (`LeavesOfSize`). The assertion is not part
  of the model.
* For a file of one chunk the builder follows the standard and takes the leaf as the root, while the
  verifier hashes a page that holds the leaf (`OneChunkRoots`, `OneChunkRootsCanDiffer`). What this does
  to reading is in `OneChunk`, and together with sizes that run ahead in `SizeAhead`.

## Files

`Common` bytes and chunks, `Crypto` hashing and byte layouts, `Geometry` tree shape and walk, `Merkle`
the tree three ways, `Verifier` checked reading, `OneChunk` files of one chunk, `SizeAhead` reading with
a size that runs ahead, `FuseRead` byte ranges, `Builder` leaf list and digest, `EditorModel` and
`Editor` checked writing, `Store` the file behind it, `Interleaving` many callers, `RoundTrip` writer to
reader, `CutShort` an interrupted write, `RemoteFile` the FD server and its clients; `InodeModel` and
`Inode` the inode table, `OpenBuffers` shared buffers, `ZipFuse` open files and directory pages.

## Model

| member | source | states |
|---|---|---|
| Common.DivideRoundup | authfs/src/common.rs:20-22 | the result is the least `q` with `a <= q * b` |
| Common.ChunkedSizeIter.Next | authfs/src/common.rs:41-53 | yields the first pending piece, which stays inside one aligned window, and leaves the others pending |
| Common.TilingIsExact | authfs/src/common.rs:24-53 | the pieces are non-empty, cover the range in order without gap or overlap, never cross a boundary, and are full except at the two ends |
| Common.TilingIsUnique | authfs/src/common.rs:24-53 | no other list of pieces has these properties |
| Geometry.Log128CeilIsLeast | authfs/src/fsverity/common.rs:41-46 | `128^k >= n` if and only if `k` is at least the result |
| Geometry.NodesInOneDivision | authfs/src/fsverity/verifier.rs:81-86 | one rounded-up division of the file size per level agrees with rounding up level by level |
| Geometry.TopLevelIsSingle | authfs/src/fsverity/verifier.rs:78-86 | a level has a single node if and only if it is at or above the computed height |
| Geometry.LevelsAreDisjoint | authfs/src/fsverity/verifier.rs:90-95 | levels are stored root first and do not overlap |
| Geometry.LayoutOrder | authfs/src/fsverity/verifier.rs:90-95 | the root is chunk 0, each level follows the one above it, and nodes of a level follow each other |
| Geometry.NodeChunkInjective | authfs/src/fsverity/verifier.rs:79-101 | different nodes lie in different chunks of the tree; only the root is chunk 0 |
| Geometry.NodeChunkSurjective | authfs/src/fsverity/verifier.rs:79-101 | every chunk of the tree is a node of some level |
| Geometry.WalkTakesPathSteps | authfs/src/fsverity/verifier.rs:71-111 | the scan over running level offsets, reversed, visits on each level the node and slot on the path of the chunk |
| Geometry.PathLinksLevels | authfs/src/fsverity/verifier.rs:81-100 | each slot lies inside one chunk and belongs to the very node visited in the step before; the last step is at chunk 0 |
| Geometry.WalkFitsExactlyUpToLimit | authfs/src/fsverity/verifier.rs:76-101 | no 64-bit operation of the walk overflows if and only if the file has at most 2^61 bytes |
| Crypto.LeByteAt | authfs/src/fsverity/common.rs:62-67 | little-endian: byte `k` of a number is its digit of weight 256^k |
| Crypto.Descriptor | authfs/src/fsverity/common.rs:55-77 | the layout of the 256 descriptor bytes by offset |
| Crypto.FormattedDigest | authfs/src/fsverity/verifier.rs:113-126 | the layout of the signed 44 bytes by offset |
| Crypto.DescriptorInjective | authfs/src/fsverity/common.rs:55-77 | a descriptor determines root hash and file size |
| Crypto.DigestBindsRoot | authfs/src/fsverity/verifier.rs:113-126 | equal digests or signed data come from one root and size, or the two descriptors collide |
| Merkle.PageSlot | authfs/src/fsverity/builder.rs:37-45 | slot `p % 128` of page `p / 128` holds hash `p` |
| Merkle.LevelsMatchRecursion | authfs/src/fsverity/builder.rs:37-45 | hashing all pages of a level, repeatedly, computes the recursively defined nodes |
| Merkle.DigestBindsContent | authfs/src/fsverity/builder.rs:101-135 | two files with one digest are equal, or their descriptors collide, or the nodes at one place of their trees collide |
| Merkle.PagesInLayout | authfs/src/fsverity/verifier.rs:79-101 | the chunk that the geometry assigns to a node holds the node's page in the serialised tree |
| Merkle.RootsAgree | authfs/src/fsverity/verifier.rs:143-148 | from two chunks on, the hash of tree chunk 0 is the root of the standard |
| Merkle.OneChunkRoots | authfs/src/fsverity/builder.rs:108-111 | what the two roots of a one-chunk file are |
| Merkle.OneChunkRootsCanDiffer | authfs/src/fsverity/verifier.rs:143-148 | a hash function and a one-chunk file for which they differ |
| Verifier.TruePageOnPath | authfs/src/fsverity/verifier.rs:52-62 | the true page on the path holds the path's hash in its slot and hashes to the next one |
| Verifier.FoldIsSound | authfs/src/fsverity/verifier.rs:52-63 | a fold that reaches the true root started from the true hash, unless a served page collides |
| Verifier.FoldIsComplete | authfs/src/fsverity/verifier.rs:52-63 | over true pages, the fold that starts from the true hash reaches the true root |
| Verifier.VerityCheckSound | authfs/src/fsverity/verifier.rs:39-64 | a check that reports the true root saw the true chunk, or the chunk or a served page collides with the true one |
| Verifier.VerityCheckComplete | authfs/src/fsverity/verifier.rs:39-64 | over a true tree, a chunk of a non-empty file is accepted with the true root if and only if the file has at most 2^61 bytes |
| Verifier.OpenReaderIff | authfs/src/fsverity/verifier.rs:136-156 | opens exactly for a full first page whose hash, with the size, the signature verifies; insufficient data, a bad signature and a failure each exactly under their own condition |
| Verifier.OpenedReaderIsSigned | authfs/src/fsverity/verifier.rs:136-156 | a reader that opens has the signed file's size and root, or the two descriptors collide |
| Verifier.SignedFileOpens | authfs/src/fsverity/verifier.rs:136-156 | with the true root page and size, a signed file opens |
| Verifier.VerifiedReadSound | authfs/src/fsverity/verifier.rs:159-170 | over any sources, a chunk read fails, or yields the true chunk, or exhibits a collision |
| Verifier.VerifiedReadComplete | authfs/src/fsverity/verifier.rs:159-170 | over honest sources, a chunk read yields exactly the chunk's bytes up to files of 2^61 bytes, and fails above |
| OneChunk.OneChunkCheck | authfs/src/fsverity/verifier.rs:39-64 | for one chunk, one page is read, compared in its first 32 bytes, and hashed |
| OneChunk.OneChunkReadIff | authfs/src/fsverity/verifier.rs:159-170 | with the builder's root, a chunk read succeeds if and only if the served page is the content's block and begins with the served chunk's hash, or the page collides with that block |
| OneChunk.OpenedWithStandardSignature | authfs/src/fsverity/verifier.rs:136-156 | a reader opened with a signature over the builder's root has that root and size, or two descriptors collide |
| OneChunk.OneChunkFileIsReadableIff | authfs/src/fsverity/verifier.rs:136-156 | a one-chunk file signed over the builder's root and served truthfully opens if and only if the page of its leaf is its own block, or named blocks or descriptors collide; in the first case it is also read |
| OneChunk.OneChunkReadCanDiffer | authfs/src/fsverity/builder.rs:108-111 | inputs, for every hash function, for which such a file opens and reads as other bytes without a collision between blocks |
| OneChunk.WrittenAndReadDiffer | authfs/src/fsverity/builder.rs:108-111 | for some hash function these bytes are not the ones written |
| SizeAhead.ReadIffChained | authfs/src/fsverity/verifier.rs:39-64 | for any size and root, a chunk read succeeds if and only if the size is at most 2^61 and each block served holds the hash of the one below it, up to the root |
| SizeAhead.NoGapIff | authfs/src/fsverity/verifier.rs:78-86 | the signed size implies no more pages than the signed leaves have if and only if there are two chunks and the heights agree |
| SizeAhead.NodeSlot | authfs/src/fsverity/builder.rs:37-45 | a slot of a node holds the hash of the child there, or zeros if there is none |
| SizeAhead.AheadReadSound | authfs/src/fsverity/verifier.rs:159-170 | over any sources and for any size from the content's on, a chunk read fails, or a block served collides or has the zero hash, or it yields the content's chunk if there is no gap and took a block of the content for a page if there is one |
| SizeAhead.AheadReadCanDiffer | authfs/src/fsverity/verifier.rs:52-63 | for every hash function, content and size with a gap: inputs for which the read returns other bytes without a collision |
| FuseRead.RangeIsExact | authfs/src/fusefs.rs:149-150 | a byte string is the range of a read if and only if it has no more than was asked for, nothing past the end, and every byte of the file that was asked for in its place |
| FuseRead.NothingToReadIff | authfs/src/fusefs.rs:149-150 | nothing is to be read exactly for an empty request or one from the end on |
| FuseRead.FailureMeans | authfs/src/fusefs.rs:157-168 | each error of a piece exactly under its own condition |
| FuseRead.ReadPiece | authfs/src/fusefs.rs:153-165 | the piece is cut out of the zero-padded reply; a failed or short reply is the error |
| FuseRead.ReadChunks | authfs/src/fusefs.rs:142-175 | the bytes written are the pieces of the replies in order; over true replies, success means exactly the requested range clipped at the end, byte by byte, failure a prefix of it; it succeeds if and only if no piece fails, else the first failure is reported |
| FuseRead.AssembledIsRange | authfs/src/fusefs.rs:142-175 | over true replies, the pieces in order are the requested range |
| FuseRead.HonestReadsDoNotFail | authfs/src/fusefs.rs:142-175 | over honest sources and a willing reply writer no piece fails, if and only if the file has at most 2^61 bytes or nothing is read |
| FuseRead.ReadSigned | authfs/src/fusefs.rs:276-299 | from the signature to the bytes: exactly the range of the signed content, or an explicit collision; over honest sources, success if and only if the file has at most 2^61 bytes or nothing is to be read |
| Builder.MerkleLeaves.Resize | authfs/src/fsverity/builder.rs:64-69 | the whole new state: one leaf per chunk of the new size, new ones those of zeros |
| Builder.MerkleLeaves.UpdateHash | authfs/src/fsverity/builder.rs:73-85 | the whole new state: the leaf set, gaps filled with zero leaves, the size raised |
| Builder.MerkleLeaves.CalculateRootHash | authfs/src/fsverity/builder.rs:101-129 | never the invalid state: always the root of the leaf list, 32 zero bytes for none and the leaf itself for one |
| Builder.EmptyFileDigest | authfs/src/fsverity/builder.rs:103-107 | the root of an empty file is 32 zero bytes; the 256 bytes whose hash is its digest |
| Builder.LeafRootIsStandard | authfs/src/fsverity/builder.rs:101-129 | for the leaves of a file, of any number of chunks, that is the root of the standard |
| Builder.MerkleLeaves.CalculateFsverityDigest | authfs/src/fsverity/builder.rs:131-135 | for the leaves and size of a file, its standard digest |
| Builder.LeavesOfSize | authfs/src/fsverity/builder.rs:113 | the quotient in the debug assertion is always one less than the number of leaves |
| Builder.HeightFromChunkCount | authfs/src/fsverity/builder.rs:114-115 | the height computed from the number of leaves is the one of the file |
| Builder.FoldEndsInOneHash | authfs/src/fsverity/builder.rs:117-126 | after one page hashing per level exactly one hash is left, for every number of leaves |
| Builder.FoldedRoot | authfs/src/fsverity/builder.rs:112-127 | the fold over the leaves of two or more chunks is the recursive root |
| Common.ChunkLength | authfs/src/file.rs:22-29 | a chunk has 4096 bytes, less at the end of the file, none past it, and they are the file's |
| Store.UntrustedFile.ReadChunk | authfs/src/file.rs:22-29 | an honest store answers with the chunk's bytes, less at the end, none past it |
| Store.UntrustedFile.WriteAllAt | authfs/src/file.rs:41-51 | over a plain file, any series of short or empty writes is one write of the whole buffer, holes zero-filled |
| Store.UntrustedFile.RetryingEndsIff | authfs/src/file.rs:41-51 | retrying ends for every buffer from every call on, if and only if the store never reports empty writes for ever |
| EditorModel.LeavesAfterSplice | authfs/src/fsverity/builder.rs:73-85 | updating one leaf gives the leaves of the written file, also past the end and across holes |
| EditorModel.SucceedsIff | authfs/src/fsverity/editor.rs:98-151 | exactly when a chunk step and a resize succeed, by what the store answered |
| EditorModel.ChunkWriteTracks | authfs/src/fsverity/editor.rs:98-151 | a chunk step keeps the leaves those of the trusted content, whatever the store answers, unless the read-back collides |
| EditorModel.ResizeTracksIffReadBackTrue | authfs/src/fsverity/editor.rs:220-254 | a successful resize keeps the leaves true if and only if it does not cut inside a chunk or the kept bytes were read back true, collisions apart |
| EditorModel.UntrueReadBackBreaksLink | authfs/src/fsverity/editor.rs:233-248 | a file, a cut and a read-back for which the leaves go wrong |
| EditorModel.FailedResizeTracksIffNothingCut | authfs/src/fsverity/editor.rs:246-250 | when the store fails after the leaf was changed, the leaves stay true if and only if the cut changes nothing, collisions apart |
| EditorModel.FailedResizeBreaksLink | authfs/src/fsverity/editor.rs:246-250 | a file and a cut, truly read back, for which they go wrong |
| EditorModel.ResizeAgainRestores | authfs/src/fsverity/editor.rs:220-254 | after a late failure, a resize to the same size that succeeds over a true read-back makes the leaves true again, whatever the changed leaf had become |
| EditorModel.RetriedResizeTracks | authfs/src/fsverity/editor.rs:220-254 | the same for a failed resize event followed by a successful one |
| EditorModel.ResizeTracks | authfs/src/fsverity/editor.rs:220-254 | a resize that was not misled keeps the leaves those of the trusted content |
| EditorModel.RunTracksTrusted | authfs/src/fsverity/editor.rs:159-254 | over any sequence of chunk steps and resizes, the leaves are those of the trusted content, or some event misled the editor |
| Editor.VerifiedFileEditor.NewHash | authfs/src/fsverity/editor.rs:98-151 | computes the new leaf, reading back and checking only a partly written existing chunk |
| Editor.VerifiedFileEditor.WriteChunk | authfs/src/fsverity/editor.rs:175-215 | one locked chunk step: content spliced and size raised if it is done, nothing changed otherwise |
| Editor.VerifiedFileEditor.WriteAt | authfs/src/fsverity/editor.rs:159-218 | a prefix of the buffer is applied; a reported count is its length; a short count is reported exactly when a later chunk could not be hashed; over a faithful store everything is written |
| Editor.VerifiedFileEditor.Resize | authfs/src/fsverity/editor.rs:220-254 | exactly when it succeeds, and the whole leaf list afterwards, also after a late failure; success cuts or zero-extends the content and sets the size; over a faithful store it succeeds |
| Editor.VerifiedFileEditor.CalculateFsverityDigest | authfs/src/fsverity/editor.rs:91-96 | while the leaves are those of the content, its standard digest if and only if the recorded size is its size or two descriptors collide; always over a faithful store |
| Interleaving.AdvanceConsistent | authfs/src/fsverity/editor.rs:172-216 | a chunk step of any writer, at any time, succeeds and keeps leaves and sizes in order |
| Interleaving.CutConsistent | authfs/src/fsverity/editor.rs:220-254 | so does a resize between chunk steps of unfinished writers |
| Interleaving.InterleavingsStayConsistent | authfs/src/fsverity/editor.rs:172-217 | in every state of every interleaving the leaves are those of the file and the size is at least its size; equal once all writers have finished |
| Interleaving.WritersAreBegins | authfs/src/fsverity/editor.rs:159-173 | the writers of a run are the writes of its schedule, one each, with the bytes and offsets given there |
| Interleaving.DisjointBeginsCompose | authfs/src/fsverity/editor.rs:159-217 | if the writes of a schedule are on disjoint ranges and have finished, the file has the bytes of each at its offset, zeros elsewhere, and ends with the last byte of one of them |
| Interleaving.DisjointBeginsCommute | authfs/src/fsverity/editor.rs:172-217 | schedules of the same such writes leave the same file and leaves |
| Interleaving.DisjointWritersCompose | authfs/src/fsverity/editor.rs:172-217 | writers on disjoint ranges have their bytes in place in every state; other bytes are zero |
| Interleaving.DisjointWritersCommute | authfs/src/fsverity/editor.rs:172-217 | once they have finished, file and leaves do not depend on the schedule |
| RoundTrip.ReadWritten | authfs/src/fsverity/editor.rs:17-53 | a trusted writer, an untrusted store, a signature over the private leaves at any moment, untrusted sources, a read: success means exactly the range of the content written, extended with zeros to the recorded size, or an explicit collision, zero hash or misleading event, or, only with a gap, a block of the content that was taken for a page |
| RoundTrip.AheadServed | authfs/src/fusefs.rs:142-175 | the same for one read with the writer's root and size |
| RoundTrip.ExtendedLeavesIff | authfs/src/fsverity/builder.rs:64-69 | extending a file with zeros keeps its leaves if and only if it keeps the number of chunks |
| RoundTrip.OpenedWithLeafSignature | authfs/src/fsverity/verifier.rs:136-156 | a reader opened with a signature over a leaf list has its root and recorded size, or two descriptors collide |
| CutShort.InterruptedAfter | authfs/src/fsverity/editor.rs:210-215 | what the writer has after each step of a write that is cut short: the recorded size is the end of the whole write from the first step on |
| CutShort.InterruptedReadDiffers | authfs/src/fsverity/editor.rs:210-215 | an input of two chunks, for every hash function, with no misled event and no collision, for which the first chunk reads as other bytes |
| RoundTrip.LeafSignatureSignsFile | authfs/src/fsverity/builder.rs:131-135 | a leaf list is that of the content extended to the recorded size if and only if it has one leaf per chunk of that size; a signature over it is then one over that file's standard digest, and from two chunks on for the root the reader checks |
| RoundTrip.OneChunkServed | authfs/src/fusefs.rs:142-175 | a successful read of one chunk returns the range asked for, of the content or of the chunk that was served and whose hash the content begins with, or the page collides |
| RoundTrip.SealedFileIsReadable | authfs/src/fsverity/builder.rs:101-135 | from two chunks on, a file signed over the builder's root opens, and its chunks are read up to 2^61 bytes and fail above |
| RoundTrip.SealedDigest | authfs/src/fsverity/editor.rs:91-96 | from two chunks on, the editor's digest is the one inside the data the reader has verified |
| RemoteFile.ReadIntoBuf | authfs/fd_server/src/main.rs:229-235 | the requested range of the file, clipped at its end, byte by byte |
| RemoteFile.WireLimits | authfs/src/file/remote_file.rs:36-37 | the largest offsets and sizes on the wire |
| RemoteFile.ReadFileAnswers | authfs/fd_server/src/main.rs:113-125 | a read request is answered exactly for sizes up to 16384, offsets from 0 on, known descriptors and readable files; each status exactly under its own condition |
| RemoteFile.FdService.WriteFile | authfs/fd_server/src/main.rs:188-208 | succeeds exactly for writable descriptors, valid arguments and a file that takes the write; then one splice of a prefix; each status exactly under its own condition |
| RemoteFile.FdService.Resize | authfs/fd_server/src/main.rs:210-226 | the same for a resize |
| RemoteFile.LocalReadChunk | authfs/src/file/local_file.rs:44-54 | fails exactly when the file is too short for the recorded size or cannot be read; else fills the buffer with the chunk's bytes and leaves the rest of it alone |
| RemoteFile.RemoteReadChunk | authfs/src/file/remote_file.rs:30-47 | succeeds exactly for known descriptors, offsets of 63 bits and readable files; then the chunk's bytes, and the rest of the buffer left alone |
| RemoteFile.RemoteRefinesLocal | authfs/src/file/remote_file.rs:30-47 | a remote read of a known file equals a local one if and only if the offset fits in 63 bits and the server can read the file |
| RemoteFile.RemoteWriteAt | authfs/src/file/remote_file.rs:110-120 | succeeds exactly for writable files, valid arguments and a file that takes the write; then a splice of a prefix, else no change |
| RemoteFile.RemoteResize | authfs/src/file/remote_file.rs:122-131 | succeeds exactly for writable files, valid sizes and a file that takes it; then the file is cut or extended |
| InodeModel.PathEffect | zipfuse/src/inode.rs:184-220 | an entry changes exactly the prefixes of its path |
| InodeModel.PathSucceedsIff | zipfuse/src/inode.rs:186-199 | an entry succeeds if and only if its names are good and no proper prefix of its path is a file |
| InodeModel.TreeIsExpected | zipfuse/src/inode.rs:174-222 | at every path, the node that the archive prescribes: kind and size from the first entry that reaches it, mode from the last that sets it |
| InodeModel.NodeFromArchive | zipfuse/src/inode.rs:184-220 | the node at a path from the archive alone: kind and size from the first entry at or below it; the mode from the last directory entry for exactly that path, with 0x140 or 0 where that has none; otherwise the file entry's mode or 0, or 0x140 |
| InodeModel.FileModeCanBeReplaced | zipfuse/src/inode.rs:200-204 | an archive whose file gets the mode of a later directory entry with the same path |
| InodeModel.BuildSucceedsIff | zipfuse/src/inode.rs:165-223 | building succeeds if and only if every entry fits |
| InodeModel.DotDotIsRejected | zipfuse/src/inode.rs:187-190 | a `..` component is an error and not a crash, if all entries and components before it fit |
| InodeModel.BadComponentStops | zipfuse/src/inode.rs:196-198 | a NUL byte, or a parent that is a file, stops the program, if all before it fits |
| InodeModel.UnreadableIsRejected | zipfuse/src/inode.rs:176-180 | an unreadable or invalidly named entry is an error, if all before it fits |
| InodeModel.PathStops | zipfuse/src/inode.rs:186-199 | the first component that does not fit decides between an error and a stop |
| InodeModel.BuildStopsIff | zipfuse/src/inode.rs:165-223 | exactly when building stops the program and exactly when it is an error, by the first entry and component that do not fit |
| InodeModel.TreeHasExactlyThePrefixes | zipfuse/src/inode.rs:174-222 | the paths of the tree are the non-empty prefixes of the entries |
| InodeModel.TidyArchiveBuilds | zipfuse/src/inode.rs:165-223 | an archive without clashing paths builds, and each file has the least index with its path |
| Inode.InodeTable.constructor | zipfuse/src/inode.rs:168-172 | the invalid inode and an empty root |
| Inode.InodeTable.Put | zipfuse/src/inode.rs:134-138 | appended; its number is the old length |
| Inode.InodeTable.Add | zipfuse/src/inode.rs:152-162 | the tree gains exactly the new path |
| Inode.InodeTable.SetMode | zipfuse/src/inode.rs:200-204 | one node changes its mode and nothing else changes |
| Inode.InodeTable.Component | zipfuse/src/inode.rs:186-220 | one component finds or creates the inode of the next prefix |
| Inode.InodeTable.FromZip | zipfuse/src/inode.rs:165-223 | succeeds, bails out or stops as the archive prescribes, and the table represents the expected tree |
| Inode.ResolveFindsExactlyTheTree | zipfuse/src/inode.rs:142-148 | looking a path up from the root finds its inode, exactly for the paths of the tree |
| Inode.TableIsRootedTree | zipfuse/src/inode.rs:105-162 | every inode from 2 on has exactly one parent and name, parents come earlier and are directories, kinds match, inode 0 and the root are never entered |
| Inode.TableAgreesWithArchive | zipfuse/src/inode.rs:164-223 | a path resolves if and only if it is a prefix of some entry, with the prescribed inode; two more inodes than prefixes |
| Inode.InodeFromArchive | zipfuse/src/inode.rs:164-223 | the inode that a path resolves to has kind, archive index, size and mode as in the row of `NodeFromArchive` |
| OpenBuffers.MatchedRunsAreAccounted | zipfuse/src/main.rs:192-241 | buffers stay while open, have a count that is never 0 and at most the number of opens, and are removed if and only if nobody has them open and there never were two openers at once |
| OpenBuffers.OverlapLeavesBuffer | zipfuse/src/main.rs:229-241 | two overlapping openers leave their buffer behind |
| OpenBuffers.HeldBufferIsStable | zipfuse/src/main.rs:192-217 | while someone has it open a buffer keeps its bytes, whatever later opens would read |
| OpenBuffers.BufferHasInserter | zipfuse/src/main.rs:192-217 | every buffer holds what the open that inserted it had read, and has not changed since |
| ZipFuse.PageEnd | zipfuse/src/main.rs:327-338 | the page is closed by the first entry that fills the room, and is not empty before the end |
| ZipFuse.RoomForEntries | zipfuse/src/main.rs:329-337 | the room for entries is the sum; for one it is the least multiple of 8 that holds the fixed part and the name |
| ZipFuse.PageEndUnique | zipfuse/src/main.rs:327-338 | that end is unique |
| ZipFuse.DirIter.Next | zipfuse/src/main.rs:355-371 | yields the next entry with the offset just after it |
| ZipFuse.PagingIsExact | zipfuse/src/main.rs:312-371 | over any sequence of calls, each resumed at the offset reported with the last entry used, the entries used are the first ones of the snapshot, once each and in order |
| ZipFuse.PagingFinishes | zipfuse/src/main.rs:312-371 | a reader that uses something of every page gets the whole directory |
| ZipFuse.SessionListsOneBuffer | zipfuse/src/main.rs:267-345 | a reader that holds a directory open finds one buffer in all its calls, so its listing is exact whatever others do |
| ZipFuse.DirectoryListedOnce | zipfuse/src/main.rs:267-371 | from `opendir` to the last page: every entry of the directory is listed exactly once, with its inode and kind |
| ZipFuse.ListDirectory | zipfuse/src/main.rs:312-371 | a reader that drives `readdir` and `next`, with any room and any positive number of entries used per page, ends with the whole snapshot |
| ZipFuse.Snapshot | zipfuse/src/main.rs:283-287 | every entry of the directory exactly once, in some order |
| ZipFuse.FileSystem.Open | zipfuse/src/main.rs:186-217 | the whole new state; a fresh buffer holds the archive member that the inode names; fails exactly for a missing inode, a directory or an unreadable member |
| ZipFuse.ReadMember | zipfuse/src/main.rs:186-265 | over a table built from the archive, opening and reading the path of a file yields the bytes of the first archive member with that path |
| ZipFuse.FileSystem.ReleaseFile | zipfuse/src/main.rs:219-242 | the whole new state, and the failures |
| ZipFuse.FileSystem.Read | zipfuse/src/main.rs:244-265 | the bytes from the offset on, clipped at the end of the buffer; stops the program if and only if an open file ends before the offset |
| ZipFuse.FileSystem.OpenDir | zipfuse/src/main.rs:267-291 | the whole new state; a fresh buffer is a snapshot of the directory |
| ZipFuse.FileSystem.ReleaseDir | zipfuse/src/main.rs:293-310 | the whole new state, and the failures |
| ZipFuse.FileSystem.ReadDir | zipfuse/src/main.rs:312-345 | an iterator over the page that starts at the offset; stops the program if and only if an open directory ends before it |

## Left out

- Store.UntrustedFile.WriteAllAt: the store must not report empty writes for ever, since the program would then ask for ever (`RetryingEndsIff`).
- Editor.VerifiedFileEditor.WriteAt: the end of the write must fit in 64 bits, since the iterator's arithmetic would overflow otherwise; the saturating addition is modelled but then never saturates.
- Interleaving.DisjointWritersCompose: only without resizes, since a resize may cut off bytes that a writer has placed.
- ZipFuse.FileSystem.Open: the 32-bit open count must not be at its maximum; it never exceeds the number of opens (`MatchedRunsAreAccounted`).
- RemoteFile.ReadIntoBuf: a file that changes between the query of its size and the read.
- Editor reads: `read_chunk` of the editor passes the store's answer through without a check, so nothing is claimed about it.
- SHA-256 and its bindings, signature formats, zip decoding, and the rules that make an archive name "enclosed".
- The server's `readFsverityMerkleTree` and `readFsveritySignature`: the same checks as `readFile` over other files or kernel calls.
- FUSE plumbing: stat results, lookup by number, mount flags, attribute changes.
- Debug assertions.
- virtmanager, vm, compos and microdroid: process control, argument formatting and image layout.
