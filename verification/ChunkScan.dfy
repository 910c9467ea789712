/** Scanning a large file in chunks. A scan keeps a tail of the last chunk and searches that tail
    followed by the next chunk, so what it sees is a window on the file. The search for a marker is
    the first such scan. */
module ChunkScan {

  type Byte = b: int | 0 <= b < 256
  type Bytes = seq<Byte>

  // ---------------------------------------------------------------------------------------------
  // Chunks and windows
  // ---------------------------------------------------------------------------------------------

  function Flatten(chunks: seq<Bytes>): Bytes {
    if chunks == [] then [] else Flatten(chunks[..|chunks| - 1]) + chunks[|chunks| - 1]
  }

  /** The offset in the file at which chunk `j` starts, or at which the file ends. */
  function Offset(chunks: seq<Bytes>, j: nat): nat
    requires j <= |chunks|
  {
    |Flatten(chunks[..j])|
  }

  /** `s[start:]`, as Python cuts it for a negative, zero or positive start. */
  function SliceFrom(s: Bytes, start: int): Bytes {
    var from := if start < 0 then |s| + start else start;
    s[if from < 0 then 0 else if from > |s| then |s| else from..]
  }

  /** From the end for a negative start; a start of 0 keeps everything, not nothing. */
  lemma SliceExact(s: Bytes, n: int)
    requires 0 <= n
    ensures SliceFrom(s, n) == if n <= |s| then s[n..] else []
    ensures 0 < n <= |s| ==> SliceFrom(s, -n) == s[|s| - n..]
    ensures n == 0 || n > |s| ==> SliceFrom(s, -n) == s
  {
  }

  /** What is searched when chunk `j` has been read, with tails cut at `start`. */
  function Window(chunks: seq<Bytes>, start: int, j: nat): Bytes
    requires j < |chunks|
  {
    (if j == 0 then [] else SliceFrom(chunks[j - 1], start)) + chunks[j]
  }

  /** Where in the file window `j` begins. */
  function WindowStart(chunks: seq<Bytes>, start: int, j: nat): int
    requires j < |chunks|
  {
    Offset(chunks, j) - (if j == 0 then 0 else |SliceFrom(chunks[j - 1], start)|)
  }

  lemma {:induction false} PrefixOfFile(chunks: seq<Bytes>, j: nat)
    requires j <= |chunks|
    ensures Offset(chunks, j) <= |Flatten(chunks)|
    ensures Flatten(chunks[..j]) == Flatten(chunks)[..Offset(chunks, j)]
    decreases |chunks| - j
  {
    if j == |chunks| {
      assert chunks[..j] == chunks;
    } else {
      PrefixOfFile(chunks, j + 1);
      assert chunks[..j + 1][..j] == chunks[..j];
    }
  }

  lemma OffsetStep(chunks: seq<Bytes>, j: nat)
    requires j < |chunks|
    ensures Offset(chunks, j + 1) == Offset(chunks, j) + |chunks[j]| <= |Flatten(chunks)|
    ensures Flatten(chunks)[Offset(chunks, j)..Offset(chunks, j + 1)] == chunks[j]
  {
    assert chunks[..j + 1][..j] == chunks[..j];
    PrefixOfFile(chunks, j + 1);
    var file, a, b := Flatten(chunks), Offset(chunks, j), Offset(chunks, j + 1);
    assert file[..b] == Flatten(chunks[..j]) + chunks[j];
    assert file[..b][a..] == file[a..b];
  }

  lemma JoinStretches(file: Bytes, a: nat, b: nat, c: nat)
    requires a <= b <= c <= |file|
    ensures file[a..b] + file[b..c] == file[a..c]
  {
  }

  lemma StretchOfStretch(file: Bytes, a: nat, c: nat, i: nat, k: nat)
    requires a <= i <= k <= c <= |file|
    ensures file[a..c][i - a..k - a] == file[i..k]
  {
    forall x | 0 <= x < k - i ensures file[a..c][i - a..k - a][x] == file[i..k][x] {
      assert file[a..c][i - a + x] == file[i + x];
    }
  }

  lemma TailIsEnd(chunk: Bytes, start: int)
    ensures var n := |SliceFrom(chunk, start)|; n <= |chunk| && SliceFrom(chunk, start) == chunk[|chunk| - n..|chunk|]
  {
  }

  lemma TailThenChunk(file: Bytes, a: nat, b: nat, c: nat, start: int)
    requires a <= b <= c <= |file|
    ensures var tail := SliceFrom(file[a..b], start);
            |tail| <= b - a && tail + file[b..c] == file[b - |tail|..c]
  {
    TailIsEnd(file[a..b], start);
    var n := |SliceFrom(file[a..b], start)|;
    StretchOfStretch(file, a, b, b - n, b);
    JoinStretches(file, b - n, b, c);
  }

  /** Every window is the stretch of the file it says it is. */
  lemma WindowIsFile(chunks: seq<Bytes>, start: int, j: nat)
    requires j < |chunks|
    ensures 0 <= WindowStart(chunks, start, j) <= Offset(chunks, j) <= Offset(chunks, j + 1) <= |Flatten(chunks)|
    ensures Window(chunks, start, j)
         == Flatten(chunks)[WindowStart(chunks, start, j)..Offset(chunks, j + 1)]
  {
    OffsetStep(chunks, j);
    if j == 0 {
      assert [] + chunks[0] == chunks[0];
    } else {
      OffsetStep(chunks, j - 1);
      TailThenChunk(Flatten(chunks), Offset(chunks, j - 1), Offset(chunks, j), Offset(chunks, j + 1), start);
    }
  }

  /** The chunk that holds position `p` of the file. */
  lemma {:induction false} ChunkHolding(chunks: seq<Bytes>, p: nat) returns (j: nat)
    requires p < |Flatten(chunks)|
    ensures j < |chunks| && Offset(chunks, j) <= p < Offset(chunks, j + 1)
  {
    var last := |chunks| - 1;
    assert chunks[..last + 1] == chunks;
    if p < Offset(chunks, last) {
      var init := chunks[..last];
      j := ChunkHolding(init, p);
      assert init[..j] == chunks[..j] && init[..j + 1] == chunks[..j + 1];
    } else {
      j := last;
    }
  }

  /** Every chunk but the last has at least `size` bytes. */
  predicate ReadInChunks(chunks: seq<Bytes>, size: int) {
    forall j | 0 <= j < |chunks| - 1 :: |chunks[j]| >= size
  }

  /** A stretch shorter than the overlap allows lies whole in the window of the chunk it ends in. */
  lemma StretchFits(chunks: seq<Bytes>, keep: int, p: nat, end: nat) returns (j: nat)
    requires keep > 0 && ReadInChunks(chunks, keep) && p < end <= |Flatten(chunks)| && end - p <= keep + 1
    ensures j < |chunks| && WindowStart(chunks, -keep, j) <= p && end <= Offset(chunks, j + 1)
  {
    j := ChunkHolding(chunks, end - 1);
    if j > 0 {
      OffsetStep(chunks, j - 1);
      assert |chunks[j - 1]| >= keep;
    }
  }

  // ---------------------------------------------------------------------------------------------
  // Reading a file
  // ---------------------------------------------------------------------------------------------

  const READ_SIZE: nat := 0x10_0000

  /** The chunks that reads of `size` bytes give, up to the empty one at the end of the file. */
  function ChunksOf(file: Bytes, size: nat): seq<Bytes>
    requires size > 0
  {
    if file == [] then []
    else if |file| <= size then [file]
    else [file[..size]] + ChunksOf(file[size..], size)
  }

  lemma {:induction false} FlattenFirst(first: Bytes, rest: seq<Bytes>)
    ensures Flatten([first] + rest) == first + Flatten(rest)
    decreases |rest|
  {
    var chunks := [first] + rest;
    if rest == [] {
      assert chunks[..0] == [];
    } else {
      assert chunks[..|chunks| - 1] == [first] + rest[..|rest| - 1];
      FlattenFirst(first, rest[..|rest| - 1]);
    }
  }

  /** Together the chunks are the file, and none is empty. */
  lemma {:induction false} ChunksOfFile(file: Bytes, size: nat)
    requires size > 0
    ensures Flatten(ChunksOf(file, size)) == file
    ensures forall j | 0 <= j < |ChunksOf(file, size)| :: ChunksOf(file, size)[j] != []
    decreases |file|
  {
    if |file| > size {
      ChunksOfFile(file[size..], size);
      FlattenFirst(file[..size], ChunksOf(file[size..], size));
      assert file[..size] + file[size..] == file;
    } else if file != [] {
      FlattenFirst(file, []);
      assert [file] + [] == [file];
    }
  }

  lemma {:induction false} ChunksAreFull(file: Bytes, size: nat, least: int)
    requires size > 0 && least <= size
    ensures ReadInChunks(ChunksOf(file, size), least)
    decreases |file|
  {
    if |file| > size {
      ChunksAreFull(file[size..], size, least);
    }
  }

  // ---------------------------------------------------------------------------------------------
  // The marker
  // ---------------------------------------------------------------------------------------------

  predicate OccursAt(marker: Bytes, s: Bytes, p: nat) {
    p + |marker| <= |s| && s[p..p + |marker|] == marker
  }

  /** `marker in s`. */
  predicate Occurs(marker: Bytes, s: Bytes) {
    exists p | 0 <= p <= |s| :: OccursAt(marker, s, p)
  }

  /** An occurrence in the file that some window shows whole. */
  ghost predicate Shown(chunks: seq<Bytes>, marker: Bytes, j: nat, p: nat) {
    && j < |chunks| && OccursAt(marker, Flatten(chunks), p)
    && WindowStart(chunks, 1 - |marker|, j) <= p && p + |marker| <= Offset(chunks, j + 1)
  }

  lemma OccursInStretch(marker: Bytes, file: Bytes, a: nat, c: nat, p: nat)
    requires a <= c <= |file| && a <= p && p + |marker| <= c
    ensures OccursAt(marker, file[a..c], p - a) <==> OccursAt(marker, file, p)
  {
    StretchOfStretch(file, a, c, p, p + |marker|);
  }

  lemma WindowShows(chunks: seq<Bytes>, marker: Bytes, j: nat)
    requires j < |chunks|
    ensures Occurs(marker, Window(chunks, 1 - |marker|, j)) <==> exists p: nat :: Shown(chunks, marker, j, p)
  {
    WindowIsFile(chunks, 1 - |marker|, j);
    var file, a, c := Flatten(chunks), WindowStart(chunks, 1 - |marker|, j), Offset(chunks, j + 1);
    if Occurs(marker, file[a..c]) {
      var q :| 0 <= q <= |file[a..c]| && OccursAt(marker, file[a..c], q);
      OccursInStretch(marker, file, a, c, a + q);
      assert Shown(chunks, marker, j, a + q);
    }
    if p: nat :| Shown(chunks, marker, j, p) {
      OccursInStretch(marker, file, a, c, p);
      assert OccursAt(marker, file[a..c], p - a);
    }
  }

  /** The scan as the program runs it. It reports exactly the occurrences some window shows whole. */
  method CarriesMarker(chunks: seq<Bytes>, marker: Bytes) returns (found: bool)
    ensures found <==> exists j: nat, p: nat :: Shown(chunks, marker, j, p)
  {
    var tail: Bytes := [];
    for j := 0 to |chunks|
      invariant j > 0 ==> tail == SliceFrom(chunks[j - 1], 1 - |marker|)
      invariant j == 0 ==> tail == []
      invariant forall i: nat, p: nat | i < j :: !Shown(chunks, marker, i, p)
    {
      var chunk := chunks[j];
      assert tail + chunk == Window(chunks, 1 - |marker|, j);
      WindowShows(chunks, marker, j);
      if Occurs(marker, tail + chunk) {
        return true;
      }
      tail := SliceFrom(chunk, 1 - |marker|);
    }
    found := false;
  }

  /** When no chunk but the last is shorter than the marker less one byte, the scan agrees with the
      whole file - except that an empty marker is not found in an empty file. */
  lemma MarkerScanExact(chunks: seq<Bytes>, marker: Bytes)
    requires ReadInChunks(chunks, |marker| - 1) && forall j | 0 <= j < |chunks| :: chunks[j] != []
    ensures (exists j: nat, p: nat :: Shown(chunks, marker, j, p))
       <==> Occurs(marker, Flatten(chunks)) && (marker != [] || chunks != [])
  {
    var file := Flatten(chunks);
    if marker == [] {
      assert OccursAt(marker, file, 0);
      if chunks != [] {
        WindowIsFile(chunks, 1, 0);
        assert Shown(chunks, marker, 0, 0);
      }
    } else if Occurs(marker, file) {
      var p :| 0 <= p <= |file| && OccursAt(marker, file, p);
      if |marker| == 1 {
        var j := ChunkHolding(chunks, p);
        WindowIsFile(chunks, 0, j);
        assert Shown(chunks, marker, j, p);
      } else {
        var j := StretchFits(chunks, |marker| - 1, p, p + |marker|);
        assert Shown(chunks, marker, j, p);
      }
    }
  }

  /** So, read as the program reads it, a file carries a marker that is no longer than a read and one
      byte exactly when the scan finds it; an empty marker aside. */
  lemma FileScanExact(file: Bytes, marker: Bytes)
    requires 0 < |marker| <= READ_SIZE + 1
    ensures (exists j: nat, p: nat :: Shown(ChunksOf(file, READ_SIZE), marker, j, p)) <==> Occurs(marker, file)
  {
    ChunksOfFile(file, READ_SIZE);
    ChunksAreFull(file, READ_SIZE, |marker| - 1);
    MarkerScanExact(ChunksOf(file, READ_SIZE), marker);
  }
}
