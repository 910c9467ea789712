/** The search for the highest minor version named by a `GLIBC_2.` symbol version in a file. */
module GlibcScan {
  import opened ChunkScan

  const PREFIX: Bytes :=
    ['G' as int, 'L' as int, 'I' as int, 'B' as int, 'C' as int, '_' as int, '2' as int, '.' as int]
  const KEEP := 16

  predicate IsDigit(b: Byte) {
    48 <= b <= 57
  }

  predicate AllDigits(s: Bytes) {
    forall i | 0 <= i < |s| :: IsDigit(s[i])
  }

  function Number(digits: Bytes): nat
    requires AllDigits(digits)
  {
    if digits == [] then 0
    else Number(digits[..|digits| - 1]) * 10 + (digits[|digits| - 1] - 48)
  }

  /** A number written in decimal. */
  function Decimal(n: nat): (digits: Bytes)
    ensures AllDigits(digits) && digits != []
  {
    if n < 10 then [48 + n] else Decimal(n / 10) + [48 + n % 10]
  }

  /** Digits are read as the number they are written for. */
  lemma {:induction false} NumberOfDecimal(n: nat)
    ensures Number(Decimal(n)) == n
  {
    if n < 10 {
      assert Number([]) == 0;
    } else {
      NumberOfDecimal(n / 10);
      var digits := Decimal(n);
      assert digits[..|digits| - 1] == Decimal(n / 10);
    }
  }

  /** And digits that do not start with a zero are those of the number they are read as. */
  lemma {:induction false} DecimalOfNumber(digits: Bytes)
    requires AllDigits(digits) && digits != [] && (|digits| > 1 ==> digits[0] != 48)
    ensures Decimal(Number(digits)) == digits
    ensures |digits| > 1 ==> Number(digits) >= 10
    decreases |digits|
  {
    var init := digits[..|digits| - 1];
    if init == [] {
      assert digits == [digits[0]] && Number(init) == 0;
    } else {
      DecimalOfNumber(init);
      assert |init| == 1 ==> Number(init) == init[0] - 48 by {
        assert Number(init[..0]) == 0;
      }
      assert init + [digits[|digits| - 1]] == digits;
    }
  }

  /** The end of the run of digits that starts at `i`. */
  function DigitsEnd(s: Bytes, i: nat): (end: nat)
    requires i <= |s|
    ensures i <= end <= |s| && AllDigits(s[i..end])
    ensures end < |s| ==> !IsDigit(s[end])
    decreases |s| - i
  {
    if i < |s| && IsDigit(s[i]) then DigitsEnd(s, i + 1) else i
  }

  /** The pattern `GLIBC_2\.(\d+)` matches at `p`. */
  predicate Match(s: Bytes, p: nat) {
    p + |PREFIX| < |s| && s[p..p + |PREFIX|] == PREFIX && IsDigit(s[p + |PREFIX|])
  }

  function MatchEnd(s: Bytes, p: nat): nat
    requires Match(s, p)
  {
    DigitsEnd(s, p + |PREFIX|)
  }

  function Minor(s: Bytes, p: nat): nat
    requires Match(s, p)
  {
    Number(s[p + |PREFIX|..MatchEnd(s, p)])
  }

  /** `m` is the highest minor version named in `s`, or 0 if none is. */
  ghost predicate IsMaxMinor(s: Bytes, m: nat) {
    && (forall p: nat | Match(s, p) :: Minor(s, p) <= m)
    && (m == 0 || exists p: nat :: Match(s, p) && Minor(s, p) == m)
  }

  /** Of the matches before `n`, one has the highest minor version. */
  lemma {:induction false} HighestBefore(s: Bytes, n: nat) returns (m: nat)
    ensures forall p: nat | p < n && Match(s, p) :: Minor(s, p) <= m
    ensures m == 0 || exists p: nat :: Match(s, p) && Minor(s, p) == m
  {
    if n == 0 {
      m := 0;
    } else {
      m := HighestBefore(s, n - 1);
      if Match(s, n - 1) && Minor(s, n - 1) > m {
        m := Minor(s, n - 1);
      }
    }
  }

  /** Every file has exactly one highest minor version. */
  lemma MaxMinorUnique(s: Bytes) returns (m: nat)
    ensures forall k: nat :: IsMaxMinor(s, k) <==> k == m
  {
    m := HighestBefore(s, |s|);
  }

  // ---------------------------------------------------------------------------------------------
  // One buffer
  // ---------------------------------------------------------------------------------------------

  lemma PrefixBytes(s: Bytes, p: nat)
    requires p + |PREFIX| <= |s| && s[p..p + |PREFIX|] == PREFIX
    ensures s[p] == 71 && forall i | p < i < p + |PREFIX| :: s[i] != 71
  {
    assert forall i | p <= i < p + |PREFIX| :: s[i] == s[p..p + |PREFIX|][i - p] == PREFIX[i - p];
  }

  /** No match begins inside another, so searching on from its end misses none. */
  lemma NoMatchInside(s: Bytes, p: nat, q: nat)
    requires Match(s, p) && p < q < MatchEnd(s, p)
    ensures !Match(s, q)
  {
    PrefixBytes(s, p);
    if q >= p + |PREFIX| {
      assert IsDigit(s[p + |PREFIX|..MatchEnd(s, p)][q - p - |PREFIX|]);
    }
    if q + |PREFIX| <= |s| && s[q..q + |PREFIX|] == PREFIX {
      PrefixBytes(s, q);
    }
  }

  /** The search of one buffer, from left to right, raising `best`. */
  method SearchBuffer(s: Bytes, before: nat) returns (best: nat)
    ensures before <= best && forall p: nat | Match(s, p) :: Minor(s, p) <= best
    ensures best == before || exists p: nat :: Match(s, p) && Minor(s, p) == best
  {
    best := before;
    var i := 0;
    while i < |s|
      invariant i <= |s| && before <= best
      invariant forall p: nat | p < i && Match(s, p) :: Minor(s, p) <= best
      invariant best == before || exists p: nat :: Match(s, p) && Minor(s, p) == best
    {
      if Match(s, i) {
        forall p: nat | i < p < MatchEnd(s, i) ensures !Match(s, p) {
          NoMatchInside(s, i, p);
        }
        if Minor(s, i) > best {
          best := Minor(s, i);
        }
        i := MatchEnd(s, i);
      } else {
        i := i + 1;
      }
    }
  }

  // ---------------------------------------------------------------------------------------------
  // The chunked scan
  // ---------------------------------------------------------------------------------------------

  /** What the scan searches once it has read chunk `j`. */
  function Searched(chunks: seq<Bytes>, j: nat): Bytes
    requires j < |chunks|
  {
    Window(chunks, -KEEP, j)
  }

  /** `best` is the highest minor version any window names, or 0. */
  ghost predicate IsBest(chunks: seq<Bytes>, best: nat) {
    && (forall j: nat, q: nat | j < |chunks| && Match(Searched(chunks, j), q) ::
          Minor(Searched(chunks, j), q) <= best)
    && (best == 0
        || exists j: nat, q: nat :: && j < |chunks| && Match(Searched(chunks, j), q)
                                    && Minor(Searched(chunks, j), q) == best)
  }

  method MaxGlibcMinor(chunks: seq<Bytes>) returns (best: nat)
    ensures IsBest(chunks, best)
  {
    best := 0;
    var tail: Bytes := [];
    for k := 0 to |chunks|
      invariant k > 0 ==> tail == SliceFrom(chunks[k - 1], -KEEP)
      invariant k == 0 ==> tail == []
      invariant forall j: nat, q: nat | j < k && Match(Searched(chunks, j), q) ::
                  Minor(Searched(chunks, j), q) <= best
      invariant best == 0
                || exists j: nat, q: nat :: && j < k && Match(Searched(chunks, j), q)
                                            && Minor(Searched(chunks, j), q) == best
    {
      var buffer := tail + chunks[k];
      assert buffer == Searched(chunks, k);
      best := SearchBuffer(buffer, best);
      tail := SliceFrom(chunks[k], -KEEP);
    }
  }

  // ---------------------------------------------------------------------------------------------
  // A window and the file
  // ---------------------------------------------------------------------------------------------

  lemma {:induction false} DigitsEndInStretch(file: Bytes, a: nat, c: nat, i: nat)
    requires a <= i <= c <= |file|
    ensures DigitsEnd(file[a..c], i - a) + a
         == if DigitsEnd(file, i) <= c then DigitsEnd(file, i) else c
    decreases c - i
  {
    if i < c {
      assert file[a..c][i - a] == file[i];
      if IsDigit(file[i]) {
        DigitsEndInStretch(file, a, c, i + 1);
      }
    }
  }

  /** A match in a window is a match in the file, cut where the window ends. */
  lemma MatchInStretch(file: Bytes, a: nat, c: nat, p: nat)
    requires a <= p && a <= c <= |file|
    ensures Match(file[a..c], p - a) <==> Match(file, p) && p + |PREFIX| < c
    ensures Match(file[a..c], p - a) ==>
              MatchEnd(file[a..c], p - a) + a == if MatchEnd(file, p) <= c then MatchEnd(file, p) else c
  {
    if p + |PREFIX| < c {
      StretchOfStretch(file, a, c, p, p + |PREFIX|);
      assert file[a..c][p - a + |PREFIX|] == file[p + |PREFIX|];
      DigitsEndInStretch(file, a, c, p + |PREFIX|);
    }
  }

  lemma {:induction false} NumberOfPrefix(digits: Bytes, n: nat)
    requires AllDigits(digits) && n <= |digits|
    ensures Number(digits[..n]) <= Number(digits)
    ensures n < |digits| && Number(digits) > 0 ==> Number(digits[..n]) < Number(digits)
    decreases |digits|
  {
    if n == |digits| {
      assert digits[..n] == digits;
    } else {
      var init := digits[..|digits| - 1];
      NumberOfPrefix(init, n);
      assert init[..n] == digits[..n];
    }
  }

  lemma BeginningOfStretch(file: Bytes, a: nat, b: nat, c: nat)
    requires a <= b <= c <= |file|
    ensures file[a..c][..b - a] == file[a..b]
  {
  }

  /** A number cut by the window's end is never above the full one, and below it unless that is 0. */
  lemma MinorInStretch(file: Bytes, a: nat, c: nat, p: nat)
    requires a <= p && a <= c <= |file| && Match(file, p) && p + |PREFIX| < c
    ensures Match(file[a..c], p - a) && Minor(file[a..c], p - a) <= Minor(file, p)
    ensures MatchEnd(file, p) <= c ==> Minor(file[a..c], p - a) == Minor(file, p)
    ensures c < MatchEnd(file, p) && Minor(file, p) > 0 ==> Minor(file[a..c], p - a) < Minor(file, p)
  {
    MatchInStretch(file, a, c, p);
    var first, end := p + |PREFIX|, MatchEnd(file, p);
    var cut := if end <= c then end else c;
    StretchOfStretch(file, a, c, first, cut);
    NumberOfPrefix(file[first..end], cut - first);
    BeginningOfStretch(file, first, cut, end);
  }

  // ---------------------------------------------------------------------------------------------
  // The scan and the file
  // ---------------------------------------------------------------------------------------------

  /** A match in the file that the window of chunk `j` shows to its end. */
  ghost predicate ShownWhole(chunks: seq<Bytes>, j: nat, p: nat) {
    && j < |chunks| && Match(Flatten(chunks), p)
    && WindowStart(chunks, -KEEP, j) <= p && MatchEnd(Flatten(chunks), p) <= Offset(chunks, j + 1)
  }

  /** A match a window has is a match of the file, and names no more than it. */
  lemma SearchedMatch(chunks: seq<Bytes>, j: nat, q: nat) returns (p: nat)
    requires j < |chunks| && Match(Searched(chunks, j), q)
    ensures Match(Flatten(chunks), p) && Minor(Searched(chunks, j), q) <= Minor(Flatten(chunks), p)
    ensures Minor(Searched(chunks, j), q) == Minor(Flatten(chunks), p) > 0 ==> ShownWhole(chunks, j, p)
  {
    WindowIsFile(chunks, -KEEP, j);
    var file, a, c := Flatten(chunks), WindowStart(chunks, -KEEP, j), Offset(chunks, j + 1);
    p := a + q;
    MatchInStretch(file, a, c, p);
    MinorInStretch(file, a, c, p);
  }

  /** A match shown whole is found for what it is. */
  lemma ShownIsSearched(chunks: seq<Bytes>, j: nat, p: nat) returns (q: nat)
    requires ShownWhole(chunks, j, p)
    ensures Match(Searched(chunks, j), q) && Minor(Searched(chunks, j), q) == Minor(Flatten(chunks), p)
  {
    WindowIsFile(chunks, -KEEP, j);
    var file, a, c := Flatten(chunks), WindowStart(chunks, -KEEP, j), Offset(chunks, j + 1);
    q := p - a;
    MinorInStretch(file, a, c, p);
  }

  /** Whatever the file and the chunks, the scan never reports more than the file names, and it
      reports the highest exactly when a window shows some place that names it to its end. */
  lemma ScanExactIff(chunks: seq<Bytes>, best: nat, m: nat)
    requires IsBest(chunks, best) && IsMaxMinor(Flatten(chunks), m)
    ensures best <= m
    ensures best == m <==> m == 0 || exists j: nat, p: nat ::
                             ShownWhole(chunks, j, p) && Minor(Flatten(chunks), p) == m
  {
    if best > 0 {
      var j: nat, q: nat :| j < |chunks| && Match(Searched(chunks, j), q) && Minor(Searched(chunks, j), q) == best;
      var p := SearchedMatch(chunks, j, q);
      assert best == m ==> ShownWhole(chunks, j, p) && Minor(Flatten(chunks), p) == m;
    }
    if j: nat, p: nat :| ShownWhole(chunks, j, p) && Minor(Flatten(chunks), p) == m {
      var q := ShownIsSearched(chunks, j, p);
    }
  }

  /** Every version in the file has at most `n` digits. */
  ghost predicate NumbersUpTo(file: Bytes, n: nat) {
    forall p: nat | Match(file, p) :: MatchEnd(file, p) - (p + |PREFIX|) <= n
  }

  /** Read in chunks of at least 16 bytes, a file whose versions have at most nine digits is
      measured exactly: the 16 bytes carried over recover any number cut by a boundary. */
  lemma GlibcScanExact(chunks: seq<Bytes>, best: nat, m: nat)
    requires ReadInChunks(chunks, KEEP) && NumbersUpTo(Flatten(chunks), 9)
    requires IsBest(chunks, best) && IsMaxMinor(Flatten(chunks), m)
    ensures best == m
  {
    ScanExactIff(chunks, best, m);
    if m > 0 {
      var p: nat :| Match(Flatten(chunks), p) && Minor(Flatten(chunks), p) == m;
      var j := StretchFits(chunks, KEEP, p, MatchEnd(Flatten(chunks), p));
      assert ShownWhole(chunks, j, p);
    }
  }

  /** So is any file with such versions, as the program reads it. */
  lemma FileGlibcExact(file: Bytes, best: nat, m: nat)
    requires NumbersUpTo(file, 9) && IsBest(ChunksOf(file, READ_SIZE), best) && IsMaxMinor(file, m)
    ensures best == m
  {
    ChunksOfFile(file, READ_SIZE);
    ChunksAreFull(file, READ_SIZE, KEEP);
    GlibcScanExact(ChunksOf(file, READ_SIZE), best, m);
  }

  function Ones(n: nat): Bytes {
    seq(n, _ => 49)
  }

  function Zeros(n: nat): Bytes {
    seq(n, _ => 0)
  }

  /** A file's only version, cut before its last byte, with its first letter out of the tail's reach. */
  lemma CutVersionIsMissed(first: Bytes, last: Bytes, k: nat, best: nat, m: nat)
    requires |last| == 1 && |first| >= KEEP && k + KEEP < |first|
    requires Match(first + last, k) && MatchEnd(first + last, k) == |first| + 1 && Minor(first + last, k) > 0
    requires forall p: nat | Match(first + last, p) :: p == k
    requires IsBest([first, last], best) && IsMaxMinor(first + last, m)
    ensures best < m
  {
    TwoChunks(first, last);
    ScanExactIff([first, last], best, m);
    assert WindowStart([first, last], -KEEP, 1) == |first| - KEEP;
  }

  /** Ten digits are one too many: where the first chunk ends one digit early, the file's only version
      loses that digit to the boundary and its first letter to the tail. */
  lemma TenDigitsCutAtBoundary(k: nat, best: nat, m: nat)
    requires IsBest([Zeros(k) + PREFIX + Ones(9), Ones(1)], best)
    requires IsMaxMinor(Zeros(k) + PREFIX + Ones(10), m)
    ensures NumbersUpTo(Zeros(k) + PREFIX + Ones(10), 10)
    ensures best < m
  {
    OneVersion(k, 10);
    LastDigitApart(k);
    CutVersionIsMissed(Zeros(k) + PREFIX + Ones(9), Ones(1), k, best, m);
  }

  lemma LastDigitApart(k: nat)
    ensures Zeros(k) + PREFIX + Ones(10) == Zeros(k) + PREFIX + Ones(9) + Ones(1)
  {
    assert Ones(10) == Ones(9) + Ones(1);
  }

  /** Read as the program reads it, by `READ_SIZE` bytes, this file is such a one. */
  lemma TenDigitsCanBeMissed(best: nat, m: nat)
    requires IsBest(ChunksOf(Zeros(READ_SIZE - 17) + PREFIX + Ones(10), READ_SIZE), best)
    requires IsMaxMinor(Zeros(READ_SIZE - 17) + PREFIX + Ones(10), m)
    ensures NumbersUpTo(Zeros(READ_SIZE - 17) + PREFIX + Ones(10), 10)
    ensures best < m
  {
    BoundaryFile(READ_SIZE - 17);
    TenDigitsCutAtBoundary(READ_SIZE - 17, best, m);
  }

  lemma BoundaryFile(k: nat)
    ensures ChunksOf(Zeros(k) + PREFIX + Ones(10), k + 17) == [Zeros(k) + PREFIX + Ones(9), Ones(1)]
  {
    LastDigitApart(k);
    TwoReads(Zeros(k) + PREFIX + Ones(9), Ones(1));
  }

  lemma TwoReads(first: Bytes, rest: Bytes)
    requires 0 < |rest| <= |first|
    ensures ChunksOf(first + rest, |first|) == [first, rest]
  {
    var file := first + rest;
    assert file[..|first|] == first && file[|first|..] == rest;
    assert rest[..|rest|] == rest;
  }

  lemma OneVersion(k: nat, n: nat)
    requires n > 0
    ensures var file := Zeros(k) + PREFIX + Ones(n);
            && Match(file, k) && MatchEnd(file, k) == |file| && Minor(file, k) > 0
            && forall p: nat | Match(file, p) :: p == k
  {
    var file := Zeros(k) + PREFIX + Ones(n);
    assert file[k..k + 8] == PREFIX && file[k + 8..] == Ones(n);
    AllDigitsToEnd(file, k + 8);
    forall p: nat | Match(file, p) ensures p == k {
      OnlyMatch(file, k, p);
    }
    assert file[k + 8..|file|] == Ones(n);
    assert Ones(n)[n - 1] == 49;
  }

  lemma TwoChunks(a: Bytes, b: Bytes)
    ensures Flatten([a, b]) == a + b
    ensures Offset([a, b], 0) == 0 && Offset([a, b], 1) == |a| && Offset([a, b], 2) == |a| + |b|
  {
    assert [a, b][..1] == [a] && [a, b][..2] == [a, b] && [a][..0] == [] && [a, b][..0] == [];
    assert Flatten([a]) == Flatten([]) + a == a;
  }

  lemma {:induction false} AllDigitsToEnd(s: Bytes, i: nat)
    requires i <= |s| && AllDigits(s[i..])
    ensures DigitsEnd(s, i) == |s|
    decreases |s| - i
  {
    if i < |s| {
      assert s[i..][0] == s[i];
      assert s[i + 1..] == s[i..][1..];
      AllDigitsToEnd(s, i + 1);
    }
  }

  lemma OnlyMatch(s: Bytes, k: nat, p: nat)
    requires Match(s, k) && MatchEnd(s, k) == |s| && Match(s, p) && forall i | 0 <= i < k :: s[i] == 0
    ensures p == k
  {
    PrefixBytes(s, p);
    if p > k {
      NoMatchInside(s, k, p);
    }
  }
}
