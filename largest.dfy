/** find_largest_video_file (ufc.py:177-200): the biggest video file of a
    download folder, since a sample or a thumbnail may sit beside it. */
module Largest {
  import opened Text

  /** An entry of `video_path.iterdir()`: its path, suffix, whether it is a
      file, and `stat().st_size`. */
  datatype Candidate = Candidate(path: string, suffix: string, isFile: bool, size: nat)

  /** The filter of ufc.py:194-197: a file with one of the four suffixes,
      compared case-sensitively. */
  predicate IsVideo(c: Candidate) {
    c.isFile && c.suffix in [".mp4", ".mkv", ".avi", ".mov"]
  }

  /** The list comprehension of ufc.py:194-197, in listing order. */
  function Videos(entries: seq<Candidate>): (vs: seq<Candidate>)
    ensures |vs| <= |entries|
    ensures forall c :: c in vs ==> c in entries && IsVideo(c)
    ensures forall c :: c in entries && IsVideo(c) ==> c in vs
  {
    if entries == [] then []
    else
      var init := entries[..|entries| - 1];
      var last := entries[|entries| - 1];
      assert entries == init + [last];
      Videos(init) + (if IsVideo(last) then [last] else [])
  }

  /** The filter keeps the listing order: filtering a concatenation
      concatenates the filtered parts. */
  lemma {:induction false} VideosConcat(a: seq<Candidate>, b: seq<Candidate>)
    ensures Videos(a + b) == Videos(a) + Videos(b)
    decreases |b|
  {
    if b != [] {
      var init := b[..|b| - 1];
      var last := b[|b| - 1];
      assert (a + b)[..|a + b| - 1] == a + init;
      assert (a + b)[|a + b| - 1] == last;
      VideosConcat(a, init);
    } else {
      assert a + b == a;
    }
  }

  /** vs[i] is as large as every video and larger than each one before it:
      the element `max` returns, which keeps the first of equal sizes. */
  ghost predicate IsFirstLargest(vs: seq<Candidate>, i: int) {
    0 <= i < |vs|
    && (forall j :: 0 <= j < |vs| ==> vs[j].size <= vs[i].size)
    && (forall j :: 0 <= j < i ==> vs[j].size < vs[i].size)
  }

  /** The filter loop, then the maximum by size (ufc.py:194-200). */
  method FindLargestVideoFile(entries: seq<Candidate>) returns (r: Option<Candidate>)
    ensures r.None? <==> Videos(entries) == []
    ensures r.Some? ==> exists i :: IsFirstLargest(Videos(entries), i) && Videos(entries)[i] == r.value
  {
    var videos: seq<Candidate> := [];
    for k := 0 to |entries|
      invariant videos == Videos(entries[..k])
    {
      assert entries[..k + 1][..k] == entries[..k];
      if IsVideo(entries[k]) {
        videos := videos + [entries[k]];
      }
    }
    assert entries[..|entries|] == entries;
    if videos == [] {
      return None;
    }
    var best := 0;
    for k := 1 to |videos|
      invariant 0 <= best < k
      invariant forall j :: 0 <= j < k ==> videos[j].size <= videos[best].size
      invariant forall j :: 0 <= j < best ==> videos[j].size < videos[best].size
    {
      if videos[k].size > videos[best].size {
        best := k;
      }
    }
    assert IsFirstLargest(videos, best);
    return Some(videos[best]);
  }
}
