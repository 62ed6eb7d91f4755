/** The video_histograms pass (src/videohistogram.rs): the same pipeline as
    the video_hash pass, over its own table and with "flv" not among the
    selected extensions. */
module VideoHistograms {
  import opened Base
  import opened Database
  import opened ColorHistogram
  import opened VideoTables
  import opened VideoHashes

  /** The extensions get_files_without_histogram selects ('avi' is listed
      twice in the query; a set holds it once). */
  const HistogramExtensions: set<string> := {"mp4", "avi", "mkv", "wmv"}

  /** update_histograms: computes the histogram of every stored video with
      one of the four extensions and no video_histograms row, and commits
      them. Only the video_histograms table changes; it keeps its rows and
      gains one for every such video that can be decoded. The histograms are
      those of calculate_histogram, whose i32 pixel counter wraps: for videos
      under 131072 frames they are the exact histograms, and from there up
      to 262143 frames they are all zeros. */
  method UpdateHistograms(s: Store, videos: map<string, seq<seq<byte>>>, batchSize: nat)
    returns (r: Store, outcome: Outcome)
    requires Decodable(videos)
    ensures outcome == Pass
    ensures r.digests == s.digests && r.videoHashes == s.videoHashes
    ensures forall id :: id in r.histograms <==>
      id in s.histograms || (id in s.digests.rows && HasExtension(s.digests.rows[id].path, HistogramExtensions)
                             && s.digests.rows[id].path in videos)
    ensures forall id :: id in s.histograms ==> r.histograms[id] == s.histograms[id]
    ensures forall id :: id in r.histograms && id !in s.histograms ==>
      r.histograms[id] == NarrowHistogramOf(videos[s.digests.rows[id].path])
    ensures forall id :: id in r.histograms && id !in s.histograms && |videos[s.digests.rows[id].path]| < 0x2_0000 ==>
      r.histograms[id] == ColorHistogramOf(videos[s.digests.rows[id].path])
    ensures forall id :: id in r.histograms && id !in s.histograms && 0x2_0000 <= |videos[s.digests.rows[id].path]| < 0x4_0000 ==>
      r.histograms[id] == ZeroHistogram
  {
    var table;
    table, outcome := UpdateTable(I32, s.digests, s.histograms, HistogramExtensions, videos, batchSize);
    r := s.(histograms := table);
    forall id | id in r.histograms && id !in s.histograms && |videos[s.digests.rows[id].path]| < 0x2_0000
      ensures r.histograms[id] == ColorHistogramOf(videos[s.digests.rows[id].path])
    {
      NarrowAgrees(videos[s.digests.rows[id].path]);
    }
    forall id | id in r.histograms && id !in s.histograms && 0x2_0000 <= |videos[s.digests.rows[id].path]| < 0x4_0000
      ensures r.histograms[id] == ZeroHistogram
    {
      LongVideoZeroed(videos[s.digests.rows[id].path]);
    }
  }

  /** The selection test: with a histogram stored for file 3, files 1 and 4
      are waiting; file 2 is no video. */
  lemma WithoutHistogramExample()
    ensures forall c :: Selected(SelectionTable(), map[3 := [0]], HistogramExtensions, c) <==>
      c == Candidate(1, "/tmp/a.mp4", 1) || c == Candidate(4, "/tmp/d.avi", 1)
  {
    SelectionPaths();
  }

  /** A ".flv" file is picked up by the video_hash pass but not by this one. */
  lemma FlvOnlyHashed(path: string)
    requires Lower(LastThree(path)) == "flv"
    ensures HasExtension(path, HashExtensions) && !HasExtension(path, HistogramExtensions)
  {
  }
}
