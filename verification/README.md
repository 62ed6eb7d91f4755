# Dupletti, modelled in Dafny

Dupletti finds duplicate files. It walks a directory and hashes every file it
has not indexed yet. Each file's path, content digest and size are stored in
the `file_digests` table of an SQLite database. Files whose digests are
byte-equal are then grouped into "bags", listed largest file first.

For videos it keeps a 64-cell colour histogram per file, in the
`video_hash` and `video_histograms` tables. Videos are grouped as near
duplicates when the L1 distance between their histograms is below a
threshold. The grouping is the transitive closure of that relation and is
computed with an array-based union-find.

This project models that core as pure functions and small methods over
sequences, sets and maps:

| module | file | models |
|---|---|---|
| `Base` | base.dfy | shared error/result types, byte, `Concat`, `Sum` |
| `Database` | database.rs | the `file_digests` table as a map from row id to row; `Database::new`, insert, lookup, delete, listing |
| `Batching` | filehashing.rs | the commit loop that buffers the `Ok` results from the channel and flushes full batches |
| `FileHashing` | filehashing.rs, main.rs | the chunked read in `get_hash`, `_create_filedigest`, the transactional `insert_many_filedigests`, `process_filelist` |
| `Indexing` | main.rs | `remove_outdated_files`, `filter_out_files_already_in_database`, `update_database` |
| `Sorting` | — | the sorts the source takes from the standard library, stated by their contracts |
| `Similarities` | similarities.rs | `find_similarities`, `into_resultbag`, `get_list_of_similar_files` |
| `ColorHistogram` | videohash.rs, videohistogram.rs | pixel bucketing, counting and scaling of the colour histogram, with the u64 pixel counter of one copy and the i32 counter of the other |
| `VideoTables` | videohash.rs, videohistogram.rs | the shared shape of the two video passes: candidate selection, batch insert by id, update pass |
| `VideoHashes` | videohash.rs | the `video_hash` pass, `l1_distance`, `calculate_distances` |
| `UnionFind` | videohash.rs | `_find`, which re-points every element it leaves at its parent's grandparent, and `_union`, over a parent array |
| `Connectivity` | — | undirected reachability, the reference for the union-find |
| `SimilarVideos` | videohash.rs | `find_similar_files` |
| `SimilarExample` | videohash.rs | the unit test of `find_similar_files` |
| `VideoHistograms` | videohistogram.rs | the `video_histograms` pass |

Several pieces are replaced by parameters:

- The file system is a map from readable paths to their contents.
- The content hash is a function parameter.
- A decodable video is the sequence of its frames' RGB bytes.
- The parallel producers behind the channel are an arbitrary sequence of
  results.

`main.rs` repeats `get_hash` and `process_filelist` word for word, apart
from a log message. `FileHashing.GetHash` and `FileHashing.ProcessFilelist`
model both copies.

The core argument for near-duplicate grouping works as follows:

- `UnionFind` defines the root of an element by well-founded recursion on
  a ghost rank. The source keeps no rank.
- `SimilarVideos.Tracks` holds while the join loop runs: two elements share
  a root exactly when the edges joined so far connect them.
- `Connectivity.AddEdge` says exactly what one new edge connects.
- `SimilarVideos.SimilarBags` characterises the result. The bags are the
  connected components with at least two members, in increasing order and
  pairwise disjoint.

## Model

| member | source | states |
|---|---|---|
| Database.NextId | src/database.rs:40-50 | the rowid given to a new row is fresh and exceeds every stored id (SQLite's rule for an `INTEGER PRIMARY KEY`) |
| Database.Open | src/database.rs:30-52 | with reset, `file_digests` and `video_histograms` are empty and `video_hash` is kept; without reset nothing changes; the path-unique invariant survives |
| Database.GetAllFileDigests | src/database.rs:54-71 | lists every stored row exactly once with its id, path, digest and size, and nothing else |
| Database.InsertFileDigest | src/database.rs:73-85 | fails exactly when the path is already stored (UNIQUE); otherwise adds one row under a fresh id with the given path, digest and size, keeps every other row, and keeps paths unique |
| Database.LookupFileDigest | src/database.rs:87-101 | succeeds exactly when the id is stored and returns that row; otherwise reports the missing id |
| Database.DeleteFileDigest | src/database.rs:103-107 | removes only the given id, reports 1 if it existed and 0 otherwise, and leaves every other row as it was |
| Database.InsertThenLookup | src/database.rs:129-143 | looking up the new id after an insert returns the inserted file with the caller's id replaced; every other id looks up as before |
| Database.DeleteThenLookup | src/database.rs:103-107 | after a delete the id is no longer found and every other id looks up as before |
| Database.InsertLookupExample | src/database.rs:204-216 | the unit tests: three inserts into a fresh table then a lookup of id 2; a second insert of the same path fails |
| FileHashing.InsertManyFileDigests | src/filehashing.rs:17-33 | all or nothing: succeeds exactly when no path repeats within the batch or is already stored, and then adds exactly one row per file and keeps the old rows; otherwise reports the first path whose insert is ignored, the files before it being insertable |
| FileHashing.RefusedWhy | src/filehashing.rs:24-28 | after an insertable prefix, a file is the first refused exactly when its path is already stored or repeats an earlier path of the batch |
| FileHashing.CommitDigestBatches | src/filehashing.rs:100-105 | the batches commit in order; the pass succeeds exactly when all of them together are fresh; on failure, the batches before the failing one stay committed |
| FileHashing.GetHash | src/filehashing.rs:36-51 | an unopenable path is an error; otherwise the hash of the whole content, fed in chunks that concatenate to the content, all full 1024-byte chunks except a shorter last one |
| FileHashing.CreateFileDigest | src/filehashing.rs:53-62 | the digest of a readable file carries id -1, the hash of its contents and its length; an unreadable file is an error |
| FileHashing.OksPaths | src/filehashing.rs:64-76 | the paths of the successful digests are exactly the readable paths of the list |
| FileHashing.OksDistinct | src/filehashing.rs:64-76 | the successful digests of a list of distinct paths have distinct paths |
| FileHashing.ProcessFilelist | src/filehashing.rs:64-108 | for paths that are valid UTF-8, the pass succeeds exactly when no readable path of the list is stored already; then the stored paths grow by exactly the readable paths, each with its own row; unreadable paths are skipped; old rows stay and every new row belongs to a readable listed path |
| Batching.Batches | src/filehashing.rs:78-106 | the flushed batches concatenate to the successful results in arrival order; with a positive batch size every batch is full except a non-empty last one; with batch size 0 there is one batch per result |
| Batching.BatchCount | src/filehashing.rs:85-106 | with k successes and batch size B the number of batches n satisfies k <= n*B < k+B, that is, the ceiling of k/B |
| Batching.FullBatches | src/filehashing.rs:85-99 | batches that are all full hold exactly their count times the batch size |
| Indexing.RestrictPaths | src/main.rs:104-113 | after pruning, the stored paths are the old stored paths that are still current |
| Indexing.RemoveOutdatedFiles | src/main.rs:104-113 | deletes exactly the rows whose path is not in the current list and leaves the others untouched |
| Indexing.FilterOutFilesAlreadyInDatabase | src/main.rs:115-128 | the paths still to index are exactly the current paths minus the stored ones |
| Indexing.UpdateDatabase | src/main.rs:187-206 | for paths that are valid UTF-8, always succeeds; with clean_unfound, the stored paths become the surviving old ones plus the readable found ones, that is, exactly the found paths when all are readable; without it nothing is removed; afterwards no readable found path is unindexed, so a second run hashes nothing; new rows hold their files' digests; paths stay unique |
| Indexing.FilterOutExample | src/main.rs:262-307 | the unit test: with a, b and c stored, the found files a to e leave exactly d and e to index |
| Indexing.RemoveOutdatedExample | src/main.rs:309-355 | the unit test: with d gone, pruning keeps exactly the rows of a, b, c and e |
| Sorting.SortBy | src/similarities.rs:76 | the result is sorted by the key and is a permutation of the input |
| Sorting.SortAsc | src/similarities.rs:51 | the result is ascending and is a permutation of the input |
| Similarities.BuildBucketsInv | src/similarities.rs:24-46 | after the outer loop, every bag sits under its digest's first four bytes, holds exactly the ids of the files with its digest, no two bags of a bucket share a digest, and every file has a bag |
| Similarities.FindSimilarities | src/similarities.rs:23-57 | the result is exactly the reference grouping (for each digest shared by two or more files, their ids ascending); every list is ascending and longer than one |
| Similarities.SameGroupIffEqualDigest | src/similarities.rs:34-45 | two different files share a returned list exactly when their digests are byte-equal |
| Similarities.GroupedIffShared | src/similarities.rs:47-56 | a file is in some list exactly when another file has its digest, so a unique digest appears in no list |
| Similarities.GroupsDisjoint | src/similarities.rs:23-57 | with distinct ids, two lists sharing an id are the same list |
| Similarities.FindSimilaritiesTest | src/similarities.rs:189-229 | the unit test: digests 0,1,2,3 / 0,1,2,3 / 1,1,2,4 / 1,1,2,4 / 1,1,2,6 give lists [1,2] and [3,4] |
| Similarities.LookupEntries | src/similarities.rs:62-71 | the lookups of one list succeed exactly when every id is stored and keep the list's order; otherwise they fail at the first missing id |
| Similarities.IntoResultBag | src/similarities.rs:59-78 | fails exactly when some id is missing, reporting it; otherwise the bags are the lists' entries, each in its list's order, sorted by first file's size, largest first |
| Similarities.ListingBags | src/similarities.rs:80-87 | the bags built from a full listing each hold two or more stored files with equal digests in ascending id order; any two rows with equal digests share a bag; an entry of one bag is in no later bag, so no bag or file is listed twice |
| Similarities.GetListOfSimilarFiles | src/similarities.rs:80-87 | on a table whose digests are at least 4 bytes, succeeds with bags of duplicates, largest first, in strictly ascending id order within a bag, any two equal-digest rows together, no entry in two positions of the result |
| ColorHistogram.Bucket | src/videohash.rs:158-171 | a channel byte shifted right by 6 is in 0..3 and names the quarter of 0..255 the byte lies in |
| ColorHistogram.Cell | src/videohash.rs:158-171 | the flattened index of a bucket triple is below 64 |
| ColorHistogram.CellDecode | src/videohash.rs:158-171 | the red, green and blue buckets can be read back from the cell index, so flattening is injective |
| ColorHistogram.TallySum | src/videohash.rs:158-171 | the 64 counts add up to the number of pixels counted |
| ColorHistogram.Scaled | src/videohash.rs:173-179 | a scaled count lies in 0..255 and is the floor of 255 times the cell's share of pixels; with no pixel it is 0 |
| ColorHistogram.CountCells | src/videohash.rs:158-171 | the frame-by-frame count equals the reference tally of all pixels, num_pixel is the number of pixels, and the cell counts add up to num_pixel |
| ColorHistogram.CalculateColorHistogram | src/videohash.rs:155-180 | the computed histogram equals the reference: each cell is its pixel count scaled to 255 over all pixels |
| ColorHistogram.EmptyHistogram | src/videohash.rs:173-179 | the histogram is all zeros exactly when the video has no frame |
| ColorHistogram.Wrap32 | src/videohistogram.rs:128-136 | the i32 counter's value lies in -2^31..2^31-1, equals the exact count below 2^31 and is 2^32 less from there up to 2^32 |
| ColorHistogram.WrapAdd | src/videohistogram.rs:136 | wrapping after every increment lands where wrapping once at the end does |
| ColorHistogram.SaturatingScale | src/videohistogram.rs:141-143 | the `as u8` cast of the f64 share saturates: with a positive count it is the scaled count, 255 once the cell holds all counted pixels, 0 for a negative count, 255 for +inf and 0 for NaN |
| ColorHistogram.CountCellsNarrow | src/videohistogram.rs:124-138 | the cell counts equal the reference tally and add up to the number of pixels; the i32 num_pixel is that total wrapped to 32 bits, and equal to it below 2^31 |
| ColorHistogram.CalculateHistogram | src/videohistogram.rs:121-147 | the computed histogram equals the reference with every count scaled by the wrapped i32 pixel count |
| ColorHistogram.NarrowAgrees | src/videohistogram.rs:121-147 | for videos under 131072 frames (2^31 pixels) the i32 histogram equals the exact one |
| ColorHistogram.LongVideoZeroed | src/videohistogram.rs:128-143 | for videos of 131072 to 262143 frames the exact histogram has a non-zero cell, while the i32 counter is negative and the histogram it gives is all zeros |
| VideoTables.FilesWithout | src/videohash.rs:25-39 | selects exactly the stored rows whose id has no entry yet and whose lower-cased last three path characters are a listed extension, each once |
| VideoTables.InsertManyById | src/videohash.rs:41-53 | all or nothing: succeeds exactly when no id repeats or is already present, then adds exactly the batch; otherwise reports the first id whose insert is ignored, the entries before it being insertable |
| VideoTables.RefusedIdWhy | src/videohash.rs:41-53 | after an insertable prefix, an entry is the first refused exactly when its id is already stored or repeats an earlier id of the batch |
| VideoTables.CommitIdBatches | src/videohash.rs:236-251 | the batches commit in order; the pass succeeds exactly when all together are fresh; on failure the earlier batches stay |
| VideoTables.UpdateTable | src/videohash.rs:204-254 | the pass succeeds; afterwards an id has an entry exactly when it had one or its stored path has a listed extension and decodes; old entries are unchanged and each new one is its video's histogram for the pass's counter width |
| VideoHashes.FilesWithVideohash | src/videohash.rs:55-74 | the join lists exactly the ids present in both tables, with path and size from `file_digests` and the histogram from `video_hash`, each id once |
| VideoHashes.UpdateHashes | src/videohash.rs:204-254 | the `video_hash` pass over mp4/avi/mkv/wmv/flv: other tables untouched, every decodable selected video gains its histogram, nothing else changes |
| VideoHashes.WithoutVideohashExample | src/videohash.rs:349-368 | the unit test: of a.mp4, b.jpg, c.wmv (already hashed) and d.avi, exactly a.mp4 and d.avi are selected |
| VideoHashes.WithVideohashExample | src/videohash.rs:370-403 | the unit test: with hashes for ids 3 and 4, the join yields exactly c.wmv and d.avi with their histograms and sizes |
| VideoHashes.Wrap16 | src/videohash.rs:256-262 | the i16 accumulator's wrap-around lands in -32768..32767 and differs from the exact value by a multiple of 65536 |
| VideoHashes.L1Distance | src/videohash.rs:256-262 | the returned u16 is the sum of absolute cell differences over the first histogram, taken mod 65536 |
| VideoHashes.L1Bound | src/videohash.rs:256-262 | every cell adds at most 255, so the distance of 64-cell histograms is at most 16320 |
| VideoHashes.L1Exact | src/videohash.rs:13-14 | for histograms of at most 128 cells (the program stores 64) the sum stays below 32768, so the i16 accumulator never wraps and the distance is exact |
| VideoHashes.L1Symmetric | src/videohash.rs:256-262 | on equally long histograms the distance does not depend on the argument order |
| VideoHashes.L1Zero | src/videohash.rs:256-262 | the exact sum of absolute cell differences, before the 16-bit cast, is zero exactly when the first histogram is a prefix of the second |
| VideoHashes.L1DistanceZero | src/videohash.rs:256-262 | for histograms of at most 128 cells the returned u16 distance is zero exactly when the first histogram is a prefix of the second |
| VideoHashes.CalculateDistances | src/videohash.rs:264-278 | an n by n matrix with zero diagonal and dist[i][j] = dist[j][i] = l1_distance(h_i, h_j) for i < j |
| VideoHashes.Mirror | src/videohash.rs:269-274 | writing a pair sets both dist[i][j] and dist[j][i] and leaves every other cell |
| UnionFind.Find | src/videohash.rs:287-295 | returns the root of the index, whose parent is itself; re-pointing each element it leaves at its parent's grandparent keeps every index's root and the array well formed |
| UnionFind.RootIsSelf | src/videohash.rs:287-295 | an index is its own root exactly when it is its own parent |
| UnionFind.Link | src/videohash.rs:296-306 | pointing one root at another moves exactly the first root's elements under the second and keeps the forest well formed |
| UnionFind.Union | src/videohash.rs:296-306 | afterwards every element of x's set has y's root and every other element keeps its root; with one root already, the set of roots is unchanged; otherwise exactly x's root is linked under y's |
| Connectivity.NoEdges | src/videohash.rs:309-311 | before any join every element is connected only to itself |
| Connectivity.AddEdge | src/videohash.rs:312-321 | a new edge connects exactly what was connected plus what reaches its ends from either side |
| SimilarVideos.UnionTracks | src/videohash.rs:312-321 | a union keeps the loop invariant: two elements share a root exactly when the edges joined so far connect them |
| SimilarVideos.GroupByRoot | src/videohash.rs:323-330 | the map from root to group holds, for every root, exactly the indices with that root in increasing order, and every index is covered |
| SimilarVideos.KeepShared | src/videohash.rs:332 | keeps exactly the groups of two or more, each once |
| SimilarVideos.FindSimilarFiles | src/videohash.rs:280-333 | the bags are the connected components of the join graph with two or more members, in increasing order and pairwise disjoint; a pair joins when the earlier histogram is not all zeros and the distance is below the threshold |
| SimilarVideos.JoinedTogether | src/videohash.rs:312-321 | two different files whose pair meets the join rule end up in the same bag |
| SimilarExample.FindSimilarExample | src/videohash.rs:406-434 | the unit test: histograms ff00ff00, ff01ff00, 000000a0, 00ff00ff, 000000a2 at threshold 128 give bags of ids {1,2} and {3,5} |
| VideoHistograms.UpdateHistograms | src/videohistogram.rs:162-204 | the `video_histograms` pass over mp4/avi/mkv/wmv: other tables untouched, every decodable selected video gains its i32-counted histogram, old entries unchanged; the new histogram is the exact one for videos under 131072 frames and all zeros from there up to 262143 frames |
| VideoHistograms.WithoutHistogramExample | src/videohistogram.rs:219-240 | the unit test: of a.mp4, b.jpg, c.wmv (already done) and d.avi, exactly a.mp4 and d.avi are selected |
| VideoHistograms.FlvOnlyHashed | src/videohistogram.rs:18-32 | an flv file is selected by the `video_hash` pass but never by the `video_histograms` pass |

## Findings

| source | as written | input that shows it | evidently intended | confidence | as-written member | corrected member |
|---|---|---|---|---|---|---|
| src/videohistogram.rs:128 | `let mut num_pixel = 0;` has no type, and Rust makes it an i32 | a video of 140000 frames (about 78 minutes at 30 frames a second): 2 293 760 000 pixels, above 2^31 - 1 | a u64 counter, as the same loop in src/videohash.rs:160 has | not executed | ColorHistogram.LongVideoZeroed | ColorHistogram.CalculateColorHistogram |

The counter wraps to a negative value. Every share is then negative, and the u8 cast turns it into 0, so the stored histogram is all zeros. `LongVideoZeroed` proves this for 131072 to 262143 frames, and proves that the exact histogram of such a video has a non-zero cell. The corrected definition is the u64 copy. `EmptyHistogram` proves it is all zeros only for a video without frames, and the `video_hash` pass uses it. The `video_histograms` pass is modelled as written, since that is what the program stores. `VideoHistograms.UpdateHistograms` states both regimes.

## Left out

- Video decoding with ffmpeg, the scaling to 128 x 128 and the frame iterator are foreign code. A video is the sequence of its frames' RGB bytes. A path missing from the `videos` map fails to decode.
- ColorHistogram.Scaled: the source normalises in f64 as `(255.0 * count) / num_pixel`, truncated to u8. The model takes the exact rational floor of 255 * count / num_pixel. The two can differ only when the exact quotient lies within one rounding error below an integer, which needs pixel counts far beyond any real video. With no pixel at all the f64 quotient is NaN, which the cast turns into 0, as the model does.
- The Blake2b hash is a function parameter, so only "the digest is a function of the contents" is modelled.
- FileHashing.GetHash: it assumes every read returns min(1024, remaining) bytes. A short read in the middle of a file would end the source's loop early and hash a prefix. A read error panics through `unwrap()`; that is not modelled.
- The rayon pool, the mpsc channel and the database mutex of `update_hashes` are concurrency. The results the receiver sees are an arbitrary sequence, and every contract holds for every order. A failure to take the lock is not modelled.
- File sizes from `fs::metadata` are the lengths of the contents.
- Directory traversal with glob (`list_files_in_directory`) is I/O. The found paths are an input set.
- The SQL engine and query text are not modelled; tables are maps. No row order is promised. SQL errors other than the constraint violations are left out. Constraint violations are the duplicate path of `file_digests` and the duplicate id of the video tables.
- Database.Open: `Database::new` creates only `file_digests`. The video tables are modelled as maps in the same store, which the video passes assume exist.
- The rowid is an unbounded integer. The 64-bit overflow of SQLite's rowid and the u64 file size are not modelled.
- VideoHistograms.UpdateHistograms: the i32 pixel counter of `calculate_histogram` is modelled as wrapping, as a release build does. A debug build panics with an add overflow inside the rayon worker at the 2^31st pixel, which aborts the process; that is not modelled. Past 2^32 pixels the wrapped counter can be positive again and smaller than the cell counts; `SaturatingScale` covers that case, but no lemma describes those videos.
- ColorHistogram.CalculateColorHistogram: the u64 pixel counter of `calculate_color_histogram` is taken as exact. It could wrap only past 2^64 pixels.
- Indexing.UpdateDatabase, FileHashing.ProcessFilelist: paths are strings, so every path is taken to be valid UTF-8. The source finds and compares paths as OS bytes (`PathBuf`) but stores `to_string_lossy()` of them. A path that is not valid UTF-8 is stored with U+FFFD in place of the bad bytes and never matches its stored row. The next run then hashes it again. Without clean_unfound that re-insert hits the UNIQUE path and fails the run. With clean_unfound the row is deleted and inserted again under a new id. Two such paths with the same lossy form fail even the first run. For such paths the model's "always succeeds" and "a second run hashes nothing" do not hold.
- VideoHashes.L1Distance: the i16 accumulator is modelled as wrapping, as a release build does. A debug build panics instead. `L1Exact` shows no wrap happens for the 64-cell histograms the program stores.
- SimilarVideos.FindSimilarFiles returns bags of positions in its input rather than references to the `VideoHash` values. `SimilarExample` maps positions back to ids.
- SimilarExample.FindSimilarExample takes the joined rows in id order; the source's test relies on the same unpromised SQL order.
- UnionFind: the rank is ghost and exists only to prove termination of root-finding. The source's `_union` keeps no rank and always links x's root under y's. `Union` returns a new ghost ranking after each link.
- Logging, throughput measurement, CLI parsing, `main` and `src/interface.rs` are plumbing, I/O and a web server. `Database::rename_file`, which the interface calls, is not part of this model.
