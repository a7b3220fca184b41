/** Ranking of sources (PopcornKit/Sources/Models/Torrent.swift:185-253,
    PopcornTime/Flows/Movie Details/SelectTorrentQualityButton.swift:15-21, 147-161, 219-251,
    PopcornTime/Flows/Movie Details/PreloadTorrentViewModel.swift:141-163). */
module SourceRanking {
  import opened Sequences
  import opened Torrents
  import FailureRegistry
  import Sorting
  import BestByKey
  import QualityLabels

  function Tier(source: ReleaseSource): int {
    match source
    case Screener => 0
    case Unknown => 1
    case DvdRip => 2
    case Hdtv => 3
    case WebRip => 4
    case WebDl => 5
    case BluRay => 6
  }

  function Resolution(quality: Option<string>): int {
    var q := Lower(if quality.Some? then quality.value else "");
    if q == "2160p" || q == "4k" then 50
    else if q == "1080p" then 40
    else if q == "720p" then 30
    else if q == "480p" then 20
    else if q == "3d" then 10
    else 0
  }

  /** The integer part of the binary logarithm. */
  function FloorLog2(n: int): (k: nat)
    requires n >= 1
  {
    if n == 1 then 0 else 1 + FloorLog2(n / 2)
  }

  function Fifth(n: int): int {
    n * n * n * n * n
  }

  lemma FifthPositive(n: int)
    requires n >= 1
    ensures Fifth(n) >= 1
  {
    assert n * n >= 1;
    assert n * n * n >= 1;
    assert n * n * n * n >= 1;
  }

  /** `Int(log2(seeds + 1) * 5)` is the integer part of the logarithm of the fifth power. */
  function SeedBonus(seeds: int): (b: int)
    requires seeds >= 0
    ensures 0 <= b <= 99
  {
    FifthPositive(seeds + 1);
    var b := FloorLog2(Fifth(seeds + 1));
    if b < 99 then b else 99
  }

  function QualityScore(t: Torrent): int
    requires t.seeds >= 0
  {
    Tier(t.source) * 1000 + Resolution(t.quality) + SeedBonus(t.seeds)
  }

  /** The score of a torrent. A negative seed count, on which the program stops, scores 0 here and
      is excluded (`Seeded`) from every statement about picks. */
  function Score(t: Torrent): int {
    if t.seeds >= 0 then QualityScore(t) else 0
  }

  /** The failures counted per URL at some moment. */
  type Counts = string -> nat

  function Adjusted(t: Torrent, counts: Counts): int {
    Score(t) - FailureRegistry.Penalty(counts(t.url))
  }

  // ---------- What dominates what ----------

  function Pow2(k: nat): int {
    if k == 0 then 1 else 2 * Pow2(k - 1)
  }

  lemma {:induction false} FloorLog2Bounds(n: int)
    requires n >= 1
    ensures Pow2(FloorLog2(n)) <= n < Pow2(FloorLog2(n) + 1)
  {
    if n > 1 { FloorLog2Bounds(n / 2); }
  }

  lemma {:induction false} Pow2Monotone(a: nat, b: nat)
    requires a <= b
    ensures 1 <= Pow2(a) <= Pow2(b)
  {
    if a < b { Pow2Monotone(a, b - 1); } else if a > 0 { Pow2Monotone(a - 1, b - 1); }
  }

  lemma FloorLog2Monotone(m: int, n: int)
    requires 1 <= m <= n
    ensures FloorLog2(m) <= FloorLog2(n)
  {
    FloorLog2Bounds(m);
    FloorLog2Bounds(n);
    if FloorLog2(n) + 1 <= FloorLog2(m) { Pow2Monotone(FloorLog2(n) + 1, FloorLog2(m)); }
  }

  lemma MulMonotone(a: int, b: int, c: int, d: int)
    requires 1 <= a <= b && 1 <= c <= d
    ensures 1 <= a * c <= b * d
  {
    assert a * c <= b * c <= b * d;
  }

  lemma FifthMonotone(m: int, n: int)
    requires 1 <= m <= n
    ensures 1 <= Fifth(m) <= Fifth(n)
  {
    MulMonotone(m, n, m, n);
    MulMonotone(m * m, n * n, m, n);
    MulMonotone(m * m * m, n * n * n, m, n);
    MulMonotone(m * m * m * m, n * n * n * n, m, n);
  }

  /** More seeds never lower the score, and within a tier at most 149 points are at stake. */
  lemma ScoreWithinTier(t: Torrent, more: int)
    requires 0 <= t.seeds <= more
    ensures Tier(t.source) * 1000 <= QualityScore(t) <= QualityScore(t.(seeds := more)) <= Tier(t.source) * 1000 + 149
  {
    FifthMonotone(t.seeds + 1, more + 1);
    FloorLog2Monotone(Fifth(t.seeds + 1), Fifth(more + 1));
  }

  /** The release sources from worst to best. */
  const SOURCES: seq<ReleaseSource> := [Screener, Unknown, DvdRip, Hdtv, WebRip, WebDl, BluRay]

  /** A better release source always wins when neither torrent is penalised, whatever the
      resolutions and seeds. */
  lemma HigherTierWins(a: Torrent, b: Torrent, i: nat, j: nat)
    requires i < j < |SOURCES| && b.source == SOURCES[i] && a.source == SOURCES[j]
    requires a.seeds >= 0 && b.seeds >= 0
    ensures QualityScore(a) > QualityScore(b)
  {
    ScoreWithinTier(a, a.seeds);
    ScoreWithinTier(b, b.seeds);
  }

  /** The known labels from lowest to highest. */
  const LABELS: seq<string> := ["3d", "480p", "720p", "1080p", "2160p"]

  lemma LabelRank(i: nat)
    requires i < |LABELS|
    ensures Resolution(Some(LABELS[i])) == 10 * (i + 1)
  {
    assert Lower(LABELS[i]) == LABELS[i];
  }

  /** Between torrents alike in source and seeds, each step up in resolution is worth 10 points. */
  lemma ResolutionDecides(t: Torrent, i: nat, j: nat)
    requires t.seeds >= 0 && i < |LABELS| && j < |LABELS|
    ensures QualityScore(t.(quality := Some(LABELS[j]))) - QualityScore(t.(quality := Some(LABELS[i]))) == 10 * (j - i)
  {
    LabelRank(i);
    LabelRank(j);
  }

  lemma AdjustedBounds(t: Torrent, counts: Counts)
    requires t.seeds >= 0
    ensures Tier(t.source) * 1000 - 1500 <= Adjusted(t, counts) <= Tier(t.source) * 1000 + 149
    ensures Adjusted(t, counts) >= Tier(t.source) * 1000 - 100 * counts(t.url)
  {
    ScoreWithinTier(t, t.seeds);
  }

  /** `a` outranks the screener `b` under the failures `counts`. */
  ghost predicate BeatsScreener(a: Torrent, b: Torrent, counts: Counts) {
    b.source == Screener && a.seeds >= 0 && b.seeds >= 0 ==> Adjusted(a, counts) > Adjusted(b, counts)
  }

  /** Every torrent of this source outranks every screener, whatever either's failures. */
  ghost predicate AlwaysBeatsScreeners(source: ReleaseSource) {
    forall a: Torrent, b: Torrent, counts: Counts :: a.source == source ==> BeatsScreener(a, b, counts)
  }

  lemma BareTorrent(source: ReleaseSource, url: string) returns (t: Torrent)
    ensures t.seeds >= 0 && (t.source, t.url, QualityScore(t)) == (source, url, Tier(source) * 1000)
  {
    t := Torrent(url, None, 0, 0, None, source);
    assert Lower("") == "";
  }

  lemma TopTorrent(source: ReleaseSource, url: string) returns (t: Torrent)
    ensures t.seeds >= 0 && (t.source, t.url, QualityScore(t)) == (source, url, Tier(source) * 1000 + 149)
  {
    var seeds := FullBonus();
    t := Torrent(url, Some("2160p"), seeds, 0, None, source);
    assert Lower("2160p") == "2160p";
  }

  /** The barest torrent of a source with `n` failures, against the best screener with none. */
  lemma SunkBelowScreener(source: ReleaseSource, n: nat) returns (a: Torrent, b: Torrent, counts: Counts)
    requires Tier(source) * 1000 - FailureRegistry.Penalty(n) <= 149
    ensures a.source == source && counts(a.url) == n && !BeatsScreener(a, b, counts)
  {
    a := BareTorrent(source, "a");
    b := TopTorrent(Screener, "b");
    counts := url => if url == "a" then n else 0;
    assert counts(b.url) == 0;
  }

  /** That is so exactly for the sources rated DVDRip or better: the penalty can sink an
      unlabelled release below a screener. */
  lemma ScreenersLoseExactlyToLabelled(source: ReleaseSource)
    ensures AlwaysBeatsScreeners(source) <==> source != Screener && source != Unknown
  {
    if Tier(source) >= 2 {
      forall a: Torrent, b: Torrent, counts: Counts | a.source == source ensures BeatsScreener(a, b, counts) {
        if b.source == Screener && a.seeds >= 0 && b.seeds >= 0 {
          AdjustedBounds(a, counts);
          AdjustedBounds(b, counts);
        }
      }
    } else {
      var a, b, counts := SunkBelowScreener(source, 15);
    }
  }

  /** Every unlabelled release with `n` failures outranks every screener. */
  ghost predicate UnlabelledBeatsScreeners(n: nat) {
    forall a: Torrent, b: Torrent, counts: Counts :: a.source == Unknown && counts(a.url) == n ==> BeatsScreener(a, b, counts)
  }

  /** For unlabelled releases it holds up to exactly eight counted failures. */
  lemma UnlabelledBeatsScreenersUpToEight(n: nat)
    ensures UnlabelledBeatsScreeners(n) <==> n <= 8
  {
    if n <= 8 {
      forall a: Torrent, b: Torrent, counts: Counts | a.source == Unknown && counts(a.url) == n
        ensures BeatsScreener(a, b, counts)
      {
        if b.source == Screener && a.seeds >= 0 && b.seeds >= 0 {
          AdjustedBounds(a, counts);
          AdjustedBounds(b, counts);
        }
      }
    } else {
      var a, b, counts := SunkBelowScreener(Unknown, n);
    }
  }

  lemma {:induction false} Pow2Add(a: nat, b: nat)
    ensures Pow2(a) * Pow2(b) == Pow2(a + b)
  {
    if a > 0 {
      Pow2Add(a - 1, b);
      assert Pow2(a) * Pow2(b) == 2 * (Pow2(a - 1) * Pow2(b));
    }
  }

  lemma FifthOfPow2(a: nat)
    ensures Fifth(Pow2(a)) == Pow2(5 * a)
  {
    var n := Pow2(a);
    Pow2Add(a, a);
    Pow2Add(2 * a, a);
    Pow2Add(3 * a, a);
    Pow2Add(4 * a, a);
    assert n * n == Pow2(2 * a);
    assert n * n * n == Pow2(3 * a);
    assert n * n * n * n == Pow2(4 * a);
  }

  lemma BonusOfPow2(k: nat)
    requires 5 * k >= 99
    ensures Pow2(k) >= 1 && SeedBonus(Pow2(k) - 1) == 99
  {
    Pow2Monotone(0, k);
    FifthOfPow2(k);
    FloorLog2OfPow2(5 * k);
  }

  lemma Pow2Of20()
    ensures Pow2(20) == 1_048_576
  {
    assert Pow2(5) == 32;
    Pow2Add(5, 5);
    Pow2Add(10, 10);
  }

  /** The bonus does reach 99. */
  lemma FullBonus() returns (seeds: int)
    ensures seeds == 1_048_575 && SeedBonus(seeds) == 99
  {
    BonusOfPow2(20);
    Pow2Of20();
    seeds := 1_048_575;
  }

  lemma {:induction false} FloorLog2OfPow2(k: nat)
    ensures Pow2(k) >= 1 && FloorLog2(Pow2(k)) == k
  {
    Pow2Monotone(0, k);
    if k > 0 {
      FloorLog2OfPow2(k - 1);
      assert Pow2(k) / 2 == Pow2(k - 1);
    }
  }

  lemma FloorLog2ExactlyWhen(n: int, k: nat)
    requires n >= 1
    ensures FloorLog2(n) == k <==> Pow2(k) <= n < Pow2(k + 1)
    ensures FloorLog2(n) >= k <==> Pow2(k) <= n
  {
    var l := FloorLog2(n);
    FloorLog2Bounds(n);
    if l < k { Pow2Monotone(l + 1, k); } else { Pow2Monotone(k, l); }
    if l > k { Pow2Monotone(k + 1, l); }
  }

  /** The bonus is five times the binary logarithm of the seeds and one, rounded down and capped: it is
      `b` when the fifth power lies between the powers of two of `b` and `b + 1`. */
  lemma SeedBonusExactlyWhen(seeds: int, b: nat)
    requires seeds >= 0
    ensures var n := seeds + 1;
            && (b < 99 ==> (SeedBonus(seeds) == b <==> Pow2(b) <= n * n * n * n * n < Pow2(b + 1)))
            && (SeedBonus(seeds) == 99 <==> Pow2(99) <= n * n * n * n * n)
  {
    FifthPositive(seeds + 1);
    FloorLog2ExactlyWhen(Fifth(seeds + 1), b);
    FloorLog2ExactlyWhen(Fifth(seeds + 1), 99);
  }

  lemma {:induction false} Pow2Doubles(k: nat)
    ensures Pow2(0) == 1 && Pow2(k + 1) == Pow2(k) + Pow2(k)
  {}

  /** The tier of a source is its place among the sources. */
  lemma TierIsRank(i: nat)
    requires i < |SOURCES|
    ensures Tier(SOURCES[i]) == i
  {}

  /** The resolution part: labels are compared without case, and 4k counts as 2160p. */
  lemma ResolutionIgnoresCase()
    ensures Resolution(Some("4K")) == Resolution(Some("4k")) == Resolution(Some("2160p")) == 50
    ensures Resolution(Some("3D")) == Resolution(Some("3d")) == 10
  {
    LabelRank(4);
    LabelRank(0);
    assert Lower("4K") == "4k" == Lower("4k") && Lower("3D") == "3d";
  }

  /** Other labels, or none, count for nothing. */
  lemma OtherLabelsCountNothing(quality: Option<string>)
    requires quality.Some? ==> Lower(quality.value) !in LABELS && Lower(quality.value) != "4k"
    ensures Resolution(quality) == 0
  {
    assert LABELS[0] in LABELS && LABELS[1] in LABELS && LABELS[2] in LABELS && LABELS[3] in LABELS && LABELS[4] in LABELS;
    assert Lower("") == "";
  }

  /** A score is the tier in thousands, the resolution and the bonus. */
  lemma ScoreIsSum(t: Torrent, i: nat)
    requires t.seeds >= 0 && i < |SOURCES| && t.source == SOURCES[i]
    ensures QualityScore(t) == 1000 * i + Resolution(t.quality) + SeedBonus(t.seeds)
  {}

  // ---------- One torrent per quality ----------

  function Bucket(t: Torrent): string {
    if t.quality.Some? then t.quality.value else "0p"
  }

  /** Torrents share a bucket when they have the same quality; none counts as "0p". */
  lemma SameBucketExactlyWhen(a: Torrent, b: Torrent)
    ensures Bucket(a) == Bucket(b) <==>
      || a.quality == b.quality
      || (a.quality == None && b.quality == Some("0p"))
      || (a.quality == Some("0p") && b.quality == None)
  {}

  ghost predicate Seeded(s: seq<Torrent>) {
    forall i :: 0 <= i < |s| ==> s[i].seeds >= 0
  }

  /** `r` lists one torrent per quality: the first of the highest score in its bucket. */
  ghost predicate IsCollapse(s: seq<Torrent>, r: seq<Torrent>) {
    BestByKey.Lists(BestByKey.Best(s, Bucket, Score), Bucket, r)
  }

  method CollapsedSelectableTorrents(selectable: seq<Torrent>) returns (r: seq<Torrent>)
    requires Seeded(selectable)
    ensures IsCollapse(selectable, r)
    ensures Sorting.WeakOn(Precedes, selectable) ==> Sorting.Sorted(r, Precedes)
  {
    var byQuality := BestByKey.DedupFlat(selectable, Bucket, Score);
    forall k | k in byQuality ensures byQuality[k] in selectable && Bucket(byQuality[k]) == k {
      BestByKey.BestEntry(selectable, Bucket, Score, k);
    }
    var values := BestByKey.Values(byQuality, Bucket);
    r := Sorting.Sort(values, Precedes);
    Sorting.SortDistinct(values, Precedes);
    forall t ensures t in r <==> t in values { Sorting.SortSameElements(values, Precedes, t); }
    if Sorting.WeakOn(Precedes, selectable) { Sorting.SortWeak(values, Precedes, selectable); }
  }

  /** Collapsed torrents come from the pool, and each pool torrent has a representative of its
      own quality and at least its score. */
  lemma Representative(s: seq<Torrent>, r: seq<Torrent>, t: Torrent)
    requires IsCollapse(s, r) && t in s
    ensures exists c :: c in r && c in s && Bucket(c) == Bucket(t) && Score(c) >= Score(t)
  {
    BestByKey.BestCovers(s, Bucket, Score, t);
    BestByKey.BestEntry(s, Bucket, Score, Bucket(t));
    var c := BestByKey.Best(s, Bucket, Score)[Bucket(t)];
    assert c in r;
  }

  lemma CollapseWithin(s: seq<Torrent>, r: seq<Torrent>, c: Torrent)
    requires IsCollapse(s, r) && c in r
    ensures c in s
  {
    BestByKey.BestEntry(s, Bucket, Score, Bucket(c));
  }

  lemma CollapseNonEmpty(s: seq<Torrent>, r: seq<Torrent>)
    requires IsCollapse(s, r)
    ensures r == [] <==> s == []
  {
    if s != [] { Representative(s, r, s[0]); }
    if r != [] { CollapseWithin(s, r, r[0]); }
  }

  // ---------- What the collapse costs ----------

  /** Swift's `max(by:)` by adjusted score: the first of the highest. */
  function Pick(pool: seq<Torrent>, counts: Counts): (t: Torrent)
    requires pool != []
    ensures t in pool && forall x :: x in pool ==> Adjusted(x, counts) <= Adjusted(t, counts)
  {
    var adjusted := (t: Torrent) => Adjusted(t, counts);
    var i := FirstMax(pool, adjusted);
    assert forall j :: 0 <= j < |pool| ==> adjusted(pool[j]) <= adjusted(pool[i]);
    pool[i]
  }

  /** The pick among the collapsed pool scores at most what the pick among the whole pool does and
      at least 1500 less; without failures in the pool they score the same. */
  lemma CollapseCostsAtMost1500(s: seq<Torrent>, r: seq<Torrent>, counts: Counts)
    requires Seeded(s) && s != [] && IsCollapse(s, r) && r != []
    ensures Adjusted(Pick(s, counts), counts) - 1500 <= Adjusted(Pick(r, counts), counts) <= Adjusted(Pick(s, counts), counts)
    ensures (forall t :: t in s ==> counts(t.url) == 0) ==> Adjusted(Pick(r, counts), counts) == Adjusted(Pick(s, counts), counts)
  {
    CollapseWithin(s, r, Pick(r, counts));
    var fetched := Pick(s, counts);
    Representative(s, r, fetched);
    var c :| c in r && c in s && Bucket(c) == Bucket(fetched) && Score(c) >= Score(fetched);
    PenaltyWithin(counts(c.url));
    PenaltyWithin(counts(fetched.url));
    assert Adjusted(c, counts) <= Adjusted(Pick(r, counts), counts);
  }

  lemma PenaltyWithin(n: nat)
    ensures 0 <= FailureRegistry.Penalty(n) <= 1500 && (n == 0 ==> FailureRegistry.Penalty(n) == 0)
  {}

  /** `t` is the first of the highest plain score among the pool's torrents of its quality. */
  ghost predicate Kept(s: seq<Torrent>, t: Torrent) {
    exists i :: BestByKey.FirstBest(s, Bucket, Score, Bucket(t), i) && s[i] == t
  }

  lemma KeptAreCollapsed(s: seq<Torrent>, r: seq<Torrent>, t: Torrent)
    requires IsCollapse(s, r)
    ensures t in r <==> Kept(s, t)
  {
    var k := Bucket(t);
    BestByKey.BestIsFirstBest(s, Bucket, Score, k);
    if Kept(s, t) {
      var i :| BestByKey.FirstBest(s, Bucket, Score, k, i) && s[i] == t;
      assert s[i] in s;
      var j :| BestByKey.FirstBest(s, Bucket, Score, k, j) && s[j] == BestByKey.Best(s, Bucket, Score)[k];
      BestByKey.FirstBestUnique(s, Bucket, Score, k, i, j);
    }
  }

  // ---------- Serving for a larger pool ----------

  /** `a` scores at least as high as `b` even when only `a` takes the highest penalty; torrents of
      one URL share their penalty. */
  predicate OutlastsPenalty(a: Torrent, b: Torrent) {
    Score(a) - (if a.url == b.url then 0 else 1500) >= Score(b)
  }

  /** Every torrent of `s` left out of `r` has one in `r` that outscores it under any failures. */
  ghost predicate Outlasts(s: seq<Torrent>, r: seq<Torrent>) {
    forall t :: t in s && t !in r ==> exists k :: k in r && OutlastsPenalty(k, t)
  }

  /** Under these failures the best of `r` is as good as the best of `s`. */
  predicate Serves(s: seq<Torrent>, r: seq<Torrent>, counts: Counts)
    requires s != [] && r != []
  {
    Adjusted(Pick(r, counts), counts) == Adjusted(Pick(s, counts), counts)
  }

  lemma OutlastingServes(s: seq<Torrent>, r: seq<Torrent>, counts: Counts)
    requires s != [] && r != [] && (forall t :: t in r ==> t in s) && Outlasts(s, r)
    ensures Serves(s, r, counts)
  {
    var best := Pick(s, counts);
    if best !in r {
      var k :| k in r && OutlastsPenalty(k, best);
      PenaltyWithin(counts(k.url));
      PenaltyWithin(counts(best.url));
      assert Adjusted(k, counts) >= Adjusted(best, counts);
    }
  }

  /** Fifteen failures for every URL but one. */
  function FailingBut(url: string): Counts {
    u => if u == url then 0 else 15
  }

  lemma UnoutlastedIsMissed(s: seq<Torrent>, r: seq<Torrent>, t: Torrent)
    requires s != [] && r != [] && t in s && forall k :: k in r ==> !OutlastsPenalty(k, t)
    ensures !Serves(s, r, FailingBut(t.url))
  {
    var counts := FailingBut(t.url);
    assert FailureRegistry.Penalty(0) == 0 && FailureRegistry.Penalty(15) == 1500;
    var k := Pick(r, counts);
    assert Adjusted(k, counts) < Adjusted(t, counts);
  }

  /** A smaller pool serves for a larger one under every failure history if and only if whatever it
      leaves out is outscored by at least the highest penalty, or within its own URL. */
  lemma ServesUnderEveryHistoryExactlyWhen(s: seq<Torrent>, r: seq<Torrent>)
    requires Seeded(s) && s != [] && r != [] && forall t :: t in r ==> t in s
    ensures (forall counts: Counts :: Serves(s, r, counts)) <==> Outlasts(s, r)
  {
    if Outlasts(s, r) {
      forall counts: Counts ensures Serves(s, r, counts) { OutlastingServes(s, r, counts); }
    } else {
      var t :| t in s && t !in r && forall k :: k in r ==> !OutlastsPenalty(k, t);
      UnoutlastedIsMissed(s, r, t);
    }
  }

  /** The collapse loses nothing under every failure history if and only if every torrent that does
      not lead its quality is so outscored by some leader. */
  lemma LosslessExactlyWhen(s: seq<Torrent>, r: seq<Torrent>)
    requires Seeded(s) && s != [] && IsCollapse(s, r) && r != []
    ensures (forall counts: Counts :: Serves(s, r, counts))
            <==> forall t :: t in s && !Kept(s, t) ==> exists k :: Kept(s, k) && OutlastsPenalty(k, t)
  {
    forall t ensures t in r <==> Kept(s, t) { KeptAreCollapsed(s, r, t); }
    forall t | t in r ensures t in s { CollapseWithin(s, r, t); }
    ServesUnderEveryHistoryExactlyWhen(s, r);
  }

  /** The loss is real: of two equally scored torrents of one quality the collapse keeps the
      first, however often it failed, and the prefetcher warms the other. */
  lemma LossCanBeFull(x: Torrent, y: Torrent, counts: Counts, r: seq<Torrent>)
    requires Seeded([x, y]) && Bucket(x) == Bucket(y) && Score(x) == Score(y) && x.url != y.url
    requires counts(x.url) >= 15 && counts(y.url) == 0 && IsCollapse([x, y], r) && r != []
    ensures Pick(r, counts) == x && Pick([x, y], counts) == y
    ensures Adjusted(Pick(r, counts), counts) == Adjusted(Pick([x, y], counts), counts) - 1500
  {
    var s := [x, y];
    assert s[..1] == [x] && [x][..0] == [];
    assert BestByKey.Best([x], Bucket, Score) == map[Bucket(x) := x];
    assert BestByKey.Best(s, Bucket, Score) == map[Bucket(x) := x];
    assert Pick(r, counts) in r && Pick(s, counts) in s;
    assert x in s && y in s;
  }

  // ---------- Highest and lowest ----------

  /** The ends of the sorted collapse are extreme for the whole pool. */
  lemma LastIsHighest(s: seq<Torrent>, r: seq<Torrent>, t: Torrent)
    requires IsCollapse(s, r) && Sorting.WeakOn(Precedes, s) && Sorting.Sorted(r, Precedes) && t in s
    ensures r != [] && !Precedes(r[|r| - 1], t) && !Precedes(t, r[0])
  {
    Representative(s, r, t);
    var c :| c in r && c in s && Bucket(c) == Bucket(t) && Score(c) >= Score(t);
    var last, first := r[|r| - 1], r[0];
    CollapseWithin(s, r, last);
    CollapseWithin(s, r, first);
    var i :| 0 <= i < |r| && r[i] == c;
    assert !Precedes(last, c) && !Precedes(c, first) by {
      assert i < |r| - 1 ==> !Precedes(last, r[i]);
      assert i > 0 ==> !Precedes(r[i], first);
    }
    assert !Precedes(c, t) && !Precedes(t, c) by {
      if c.quality.Some? && t.quality.Some? {
        assert Precedes(c, t) == Precedes(t, t) == Precedes(t, c);
      }
    }
  }

  /** Swift's `max()` by `Torrent <`. */
  function HighestOf(s: seq<Torrent>): (t: Torrent)
    requires s != []
    ensures t in s
  {
    var n := |s| - 1;
    if n == 0 then s[0]
    else
      var t := HighestOf(s[..n]);
      if Precedes(t, s[n]) then s[n] else t
  }

  /** Swift's `min()` by `Torrent <`. */
  function LowestOf(s: seq<Torrent>): (t: Torrent)
    requires s != []
    ensures t in s
  {
    var n := |s| - 1;
    if n == 0 then s[0]
    else
      var t := LowestOf(s[..n]);
      if Precedes(s[n], t) then s[n] else t
  }

  lemma {:induction false} HighestIsHighest(s: seq<Torrent>, all: seq<Torrent>, x: Torrent)
    requires s != [] && Sorting.WeakOn(Precedes, all) && x in s && forall t :: t in s ==> t in all
    ensures !Precedes(HighestOf(s), x)
  {
    var n := |s| - 1;
    assert s == s[..n] + [s[n]];
    if n > 0 {
      HighestIsHighest(s[..n], all, HighestOf(s[..n]));
      if x in s[..n] { HighestIsHighest(s[..n], all, x); }
    }
  }

  lemma {:induction false} LowestIsLowest(s: seq<Torrent>, all: seq<Torrent>, x: Torrent)
    requires s != [] && Sorting.WeakOn(Precedes, all) && x in s && forall t :: t in s ==> t in all
    ensures !Precedes(x, LowestOf(s))
  {
    var n := |s| - 1;
    assert s == s[..n] + [s[n]];
    if n > 0 {
      LowestIsLowest(s[..n], all, LowestOf(s[..n]));
      if x in s[..n] { LowestIsLowest(s[..n], all, x); }
    }
  }

  /** The stored preference; any unlisted value acts as `Optimal`. */
  datatype Mode = Highest | Low | Optimal | Selectable

  /** What the play button starts by itself, from the collapsed pool; `None` shows the picker. */
  function AutoSelect(mode: Mode, collapsed: seq<Torrent>, counts: Counts): Option<Torrent> {
    if collapsed == [] then None
    else match mode
      case Highest => Some(collapsed[|collapsed| - 1])
      case Low => Some(collapsed[0])
      case Optimal => Some(Pick(collapsed, counts))
      case Selectable => None
  }

  /** What the prefetcher warms, from the whole pool; it is not asked in `Selectable` mode. */
  function AutoPickTarget(mode: Mode, pool: seq<Torrent>, counts: Counts): Option<Torrent> {
    if pool == [] then None
    else match mode
      case Highest => Some(HighestOf(pool))
      case Low => Some(LowestOf(pool))
      case _ => Some(Pick(pool, counts))
  }

  /** The button starts nothing by itself exactly when it has no torrent or shows the picker, and
      the prefetcher nothing exactly when there is no torrent. */
  lemma NothingPickedExactlyWhen(mode: Mode, pool: seq<Torrent>, counts: Counts)
    ensures AutoSelect(mode, pool, counts).None? <==> pool == [] || mode.Selectable?
    ensures AutoPickTarget(mode, pool, counts).None? <==> pool == []
    ensures AutoSelect(mode, pool, counts).Some? ==> AutoSelect(mode, pool, counts).value in pool
    ensures AutoPickTarget(mode, pool, counts).Some? ==> AutoPickTarget(mode, pool, counts).value in pool
  {}

  // ---------- The button's pool and the prefetcher's ----------

  /** The audio languages inferred for a torrent. */
  type Languages = Torrent -> set<string>

  function Speaks(languages: Languages, language: string): Torrent -> bool {
    t => language in languages(t)
  }

  /** The torrents in the preferred language, or all without a preference. */
  function PreferredLanguageTorrents(all: seq<Torrent>, preferred: string, languages: Languages): seq<Torrent> {
    if preferred == "" then all else Filter(all, Speaks(languages, Lower(preferred)))
  }

  /** The button's pool; the prefetcher's is always `all`. */
  function SelectableTorrents(all: seq<Torrent>, preferred: string, languages: Languages): seq<Torrent> {
    var filtered := PreferredLanguageTorrents(all, preferred, languages);
    if filtered == [] then all else filtered
  }

  lemma SelectableWithin(all: seq<Torrent>, preferred: string, languages: Languages)
    ensures forall t :: t in SelectableTorrents(all, preferred, languages) ==> t in all
    ensures SelectableTorrents(all, preferred, languages) == [] <==> all == []
  {
    forall t | t in SelectableTorrents(all, preferred, languages) ensures t in all {
      InFilter(all, Speaks(languages, Lower(preferred)), t);
    }
  }

  /** The button's pool holds the torrents in the preferred language; all of them without a
      preference, or when none is in that language. */
  lemma SelectableExactly(all: seq<Torrent>, preferred: string, languages: Languages, t: Torrent)
    ensures t in SelectableTorrents(all, preferred, languages) <==>
      && t in all
      && (preferred == "" || Lower(preferred) in languages(t) || forall x :: x in all ==> Lower(preferred) !in languages(x))
  {
    var speaks := Speaks(languages, Lower(preferred));
    var filtered := Filter(all, speaks);
    forall x ensures x in filtered <==> x in all && speaks(x) { InFilter(all, speaks, x); }
    if filtered != [] { assert filtered[0] in filtered; }
  }

  ghost predicate NoFailures(s: seq<Torrent>, counts: Counts) {
    forall t :: t in s ==> counts(t.url) == 0
  }

  /** In this mode `b` is better than `a`: of a higher label for "Highest", of a lower one for "Low",
      of a higher plain score for "Optimal". */
  predicate Beats(mode: Mode, b: Torrent, a: Torrent) {
    match mode
    case Highest => Precedes(a, b)
    case Low => Precedes(b, a)
    case _ => Score(b) > Score(a)
  }

  /** Some torrent of the button's pool is beaten by none of all. */
  ghost predicate SomeUnbeaten(mode: Mode, sel: seq<Torrent>, all: seq<Torrent>) {
    exists t :: t in sel && UnbeatenIn(mode, t, all)
  }

  ghost predicate UnbeatenIn(mode: Mode, t: Torrent, all: seq<Torrent>) {
    forall x :: x in all ==> !Beats(mode, x, t)
  }

  /** What the button plays. */
  function Played(mode: Mode, r: seq<Torrent>, counts: Counts): Torrent
    requires r != [] && !mode.Selectable?
  {
    AutoSelect(mode, r, counts).value
  }

  /** What the prefetcher warms. */
  function Warmed(mode: Mode, all: seq<Torrent>, counts: Counts): Torrent
    requires all != []
  {
    AutoPickTarget(mode, all, counts).value
  }

  /** The comparison the mode relies on is an order on the pool. */
  ghost predicate Ordered(mode: Mode, s: seq<Torrent>) {
    mode.Optimal? || Sorting.WeakOn(Precedes, s)
  }

  lemma WarmedIsUnbeaten(mode: Mode, all: seq<Torrent>, counts: Counts)
    requires all != [] && !mode.Selectable? && Ordered(mode, all) && (mode.Optimal? ==> NoFailures(all, counts))
    ensures Warmed(mode, all, counts) in all && UnbeatenIn(mode, Warmed(mode, all, counts), all)
  {
    var w := Warmed(mode, all, counts);
    forall x | x in all ensures !Beats(mode, x, w) {
      if mode.Highest? {
        HighestIsHighest(all, all, x);
      } else if mode.Low? {
        LowestIsLowest(all, all, x);
      } else {
        assert Adjusted(x, counts) <= Adjusted(Pick(all, counts), counts);
      }
    }
  }

  lemma WeakOnWithin(sel: seq<Torrent>, all: seq<Torrent>)
    requires Sorting.WeakOn(Precedes, all) && forall t :: t in sel ==> t in all
    ensures Sorting.WeakOn(Precedes, sel)
  {}

  /** The button plays a torrent its own pool does not beat. */
  lemma PlayedIsUnbeaten(mode: Mode, sel: seq<Torrent>, r: seq<Torrent>, counts: Counts)
    requires sel != [] && IsCollapse(sel, r) && r != [] && !mode.Selectable? && Ordered(mode, sel)
    requires mode.Optimal? || Sorting.Sorted(r, Precedes)
    requires mode.Optimal? ==> Seeded(sel) && NoFailures(sel, counts)
    ensures Played(mode, r, counts) in sel && UnbeatenIn(mode, Played(mode, r, counts), sel)
  {
    var p := Played(mode, r, counts);
    CollapseWithin(sel, r, p);
    if mode.Optimal? {
      CollapseCostsAtMost1500(sel, r, counts);
      forall x | x in sel ensures !Beats(mode, x, p) {
        assert Adjusted(x, counts) <= Adjusted(Pick(sel, counts), counts);
      }
    } else {
      forall x | x in sel ensures !Beats(mode, x, p) { LastIsHighest(sel, r, x); }
    }
  }

  /** Being unbeaten passes on to whatever is not worse. */
  lemma UnbeatenPassesOn(mode: Mode, t: Torrent, p: Torrent, all: seq<Torrent>)
    requires Ordered(mode, all) && t in all && p in all && UnbeatenIn(mode, t, all) && !Beats(mode, t, p)
    ensures UnbeatenIn(mode, p, all)
  {
    forall x | x in all ensures !Beats(mode, x, p) {
      assert !Beats(mode, x, t);
    }
  }

  /** In every automatic mode, with no failures where scores decide, the button plays a torrent as
      good as the one the prefetcher warmed if and only if the language filter leaves in the button's
      pool a torrent that none of all torrents beats. */
  lemma ButtonAgreesExactlyWhen(mode: Mode, all: seq<Torrent>, preferred: string, languages: Languages,
                                r: seq<Torrent>, counts: Counts)
    requires all != [] && IsCollapse(SelectableTorrents(all, preferred, languages), r) && !mode.Selectable?
    requires Ordered(mode, all) && (mode.Optimal? || Sorting.Sorted(r, Precedes))
    requires mode.Optimal? ==> Seeded(all) && NoFailures(all, counts)
    ensures r != [] && AutoSelect(mode, r, counts).Some? && AutoPickTarget(mode, all, counts).Some?
    ensures !Beats(mode, Played(mode, r, counts), Warmed(mode, all, counts))
    ensures !Beats(mode, Warmed(mode, all, counts), Played(mode, r, counts))
            <==> SomeUnbeaten(mode, SelectableTorrents(all, preferred, languages), all)
  {
    var sel := SelectableTorrents(all, preferred, languages);
    SelectableWithin(all, preferred, languages);
    CollapseNonEmpty(sel, r);
    if !mode.Optimal? { WeakOnWithin(sel, all); }
    if mode.Optimal? { SeededWithin(sel, all); }
    PlayedIsUnbeaten(mode, sel, r, counts);
    WarmedIsUnbeaten(mode, all, counts);
    var p, w := Played(mode, r, counts), Warmed(mode, all, counts);
    if !Beats(mode, w, p) {
      UnbeatenPassesOn(mode, w, p, all);
    }
    if SomeUnbeaten(mode, sel, all) {
      var t :| t in sel && UnbeatenIn(mode, t, all);
      UnbeatenPassesOn(mode, t, p, all);
    }
  }

  lemma SeededWithin(sel: seq<Torrent>, all: seq<Torrent>)
    requires Seeded(all) && forall t :: t in sel ==> t in all
    ensures Seeded(sel)
  {
    forall i | 0 <= i < |sel| ensures sel[i].seeds >= 0 { assert sel[i] in all; }
  }

  /** Where the filter changes nothing the pools are one, and it holds an unbeaten torrent. */
  lemma UnfilteredPoolsAreOne(mode: Mode, all: seq<Torrent>, preferred: string, languages: Languages, counts: Counts)
    requires all != [] && !mode.Selectable? && Ordered(mode, all) && (mode.Optimal? ==> NoFailures(all, counts))
    requires preferred == "" || (forall t :: t in all ==> Lower(preferred) !in languages(t))
    ensures SelectableTorrents(all, preferred, languages) == all && SomeUnbeaten(mode, all, all)
  {
    WarmedIsUnbeaten(mode, all, counts);
    if preferred != "" {
      var filtered := Filter(all, Speaks(languages, Lower(preferred)));
      if filtered != [] {
        InFilter(all, Speaks(languages, Lower(preferred)), filtered[0]);
      }
    }
  }

  // ---------- The very torrent ----------

  /** A list the button can hold for a pool: one torrent per quality, in order. */
  ghost predicate IsArranged(sel: seq<Torrent>, r: seq<Torrent>) {
    IsCollapse(sel, r) && Sorting.Sorted(r, Precedes)
  }

  predicate Leads(sel: seq<Torrent>, t: Torrent) {
    Bucket(t) in BestByKey.Best(sel, Bucket, Score) && BestByKey.Best(sel, Bucket, Score)[Bucket(t)] == t
  }

  /** The dictionary's values in the order of the pool. */
  function Leaders(sel: seq<Torrent>): seq<Torrent> {
    FirstSeen(Filter(sel, (t: Torrent) => Leads(sel, t)))
  }

  lemma LeadersAreCollapse(sel: seq<Torrent>)
    ensures IsCollapse(sel, Leaders(sel))
  {
    var leads := (t: Torrent) => Leads(sel, t);
    FirstSeenDistinct(Filter(sel, leads));
    forall t ensures t in Leaders(sel) <==> Leads(sel, t) {
      FirstSeenHas(Filter(sel, leads), t);
      InFilter(sel, leads, t);
      if Leads(sel, t) { BestByKey.BestEntry(sel, Bucket, Score, Bucket(t)); }
    }
  }

  /** A listing rearranged. */
  lemma SameCollapse(sel: seq<Torrent>, r: seq<Torrent>, r': seq<Torrent>)
    requires IsCollapse(sel, r) && Distinct(r') && forall t :: t in r' <==> t in r
    ensures IsCollapse(sel, r')
  {}

  lemma {:induction false} WithoutOne(r: seq<Torrent>, b: Torrent)
    requires Distinct(r)
    ensures Distinct(Filter(r, (t: Torrent) => t != b))
    ensures forall t :: t in Filter(r, (x: Torrent) => x != b) <==> t in r && t != b
  {
    var keep := (t: Torrent) => t != b;
    FilterDistinct(r, keep);
    forall t ensures t in Filter(r, keep) <==> t in r && t != b { InFilter(r, keep, t); }
  }

  /** Of two listed torrents either can come first unless the order forbids it. */
  lemma ArrangedEitherWay(sel: seq<Torrent>, a: Torrent, b: Torrent)
    requires Sorting.WeakOn(Precedes, sel) && Kept(sel, a) && Kept(sel, b) && a != b && !Precedes(b, a)
    ensures exists r :: IsArranged(sel, r) && Sorting.StandsBefore(r, a, b)
  {
    var l := Leaders(sel);
    LeadersAreCollapse(sel);
    KeptAreCollapsed(sel, l, a);
    KeptAreCollapsed(sel, l, b);
    forall t | t in l ensures t in sel { CollapseWithin(sel, l, t); }
    WithoutOne(l, b);
    var front := Filter(l, (t: Torrent) => t != b);
    DistinctSnoc(front, b);
    var r := Sorting.Sort(front + [b], Precedes);
    Sorting.SortAfter(front, b, Precedes, sel, a);
    Sorting.SortWeak(front + [b], Precedes, sel);
    Sorting.SortDistinct(front + [b], Precedes);
    forall t ensures t in r <==> t in l { Sorting.SortSameElements(front + [b], Precedes, t); }
    SameCollapse(sel, l, r);
    assert IsArranged(sel, r);
  }

  lemma SomeArranged(sel: seq<Torrent>)
    requires Sorting.WeakOn(Precedes, sel)
    ensures exists r :: IsArranged(sel, r)
  {
    var l := Leaders(sel);
    LeadersAreCollapse(sel);
    var r := Sorting.Sort(l, Precedes);
    forall t | t in l ensures t in sel { CollapseWithin(sel, l, t); }
    Sorting.SortWeak(l, Precedes, sel);
    Sorting.SortDistinct(l, Precedes);
    forall t ensures t in r <==> t in l { Sorting.SortSameElements(l, Precedes, t); }
    SameCollapse(sel, l, r);
    assert IsArranged(sel, r);
  }

  /** Among listed torrents the mode takes `w` rather than `k`, whatever order they are listed in:
      for "Optimal" by adjusted score, and between equal ones by the order of the list. */
  predicate TakenBefore(mode: Mode, w: Torrent, k: Torrent, counts: Counts) {
    match mode
    case Highest => Precedes(k, w)
    case Low => Precedes(w, k)
    case _ => Adjusted(k, counts) < Adjusted(w, counts) || (Adjusted(k, counts) == Adjusted(w, counts) && Precedes(w, k))
  }

  /** `w` leads its quality in the pool, and the mode takes it rather than any other leader. */
  ghost predicate SurelyPlayed(mode: Mode, sel: seq<Torrent>, w: Torrent, counts: Counts) {
    Kept(sel, w) && forall k :: Kept(sel, k) && k != w ==> TakenBefore(mode, w, k, counts)
  }

  lemma PlayedIsListed(mode: Mode, r: seq<Torrent>, counts: Counts)
    requires r != [] && !mode.Selectable?
    ensures Played(mode, r, counts) in r
  {}

  /** The first of the highest is not one that an equal or higher one stands before. */
  lemma PickIsFirst(r: seq<Torrent>, counts: Counts, a: Torrent, b: Torrent)
    requires Distinct(r) && Sorting.StandsBefore(r, a, b) && Adjusted(a, counts) >= Adjusted(b, counts)
    ensures r != [] && Pick(r, counts) != b
  {
    var adjusted := (t: Torrent) => Adjusted(t, counts);
    var i, j :| 0 <= i < j < |r| && r[i] == a && r[j] == b;
    var top := FirstMax(r, adjusted);
    assert adjusted(r[i]) <= adjusted(r[top]);
    assert i < top ==> adjusted(r[i]) < adjusted(r[top]);
  }

  lemma SurelyPlayedIsPlayed(mode: Mode, sel: seq<Torrent>, w: Torrent, counts: Counts, r: seq<Torrent>)
    requires IsArranged(sel, r) && SurelyPlayed(mode, sel, w, counts) && !mode.Selectable?
    ensures r != [] && Played(mode, r, counts) == w
  {
    KeptAreCollapsed(sel, r, w);
    var p := Played(mode, r, counts);
    PlayedIsListed(mode, r, counts);
    KeptAreCollapsed(sel, r, p);
    if p != w {
      var i :| 0 <= i < |r| && r[i] == w;
      if mode.Optimal? {
        OptimalSkipsNone(r, counts, w, i);
      }
    }
  }

  lemma OptimalSkipsNone(r: seq<Torrent>, counts: Counts, w: Torrent, i: nat)
    requires Distinct(r) && Sorting.Sorted(r, Precedes) && i < |r| && r[i] == w != Pick(r, counts)
    ensures !TakenBefore(Optimal, w, Pick(r, counts), counts)
  {
    var adjusted := (t: Torrent) => Adjusted(t, counts);
    var top := FirstMax(r, adjusted);
    assert adjusted(r[i]) <= adjusted(r[top]);
    assert i < top ==> adjusted(r[i]) < adjusted(r[top]);
  }

  /** A leader the mode does not rank below `w` can be played in its place. */
  lemma RivalIsPlayed(mode: Mode, sel: seq<Torrent>, w: Torrent, k: Torrent, counts: Counts) returns (r: seq<Torrent>)
    requires Sorting.WeakOn(Precedes, sel) && !mode.Selectable?
    requires Kept(sel, w) && Kept(sel, k) && k != w && !TakenBefore(mode, w, k, counts)
    ensures IsArranged(sel, r) && r != [] && Played(mode, r, counts) != w
  {
    if mode.Highest? {
      ArrangedEitherWay(sel, w, k);
      r :| IsArranged(sel, r) && Sorting.StandsBefore(r, w, k);
    } else if mode.Low? || !Precedes(w, k) {
      ArrangedEitherWay(sel, k, w);
      r :| IsArranged(sel, r) && Sorting.StandsBefore(r, k, w);
      if mode.Optimal? && Adjusted(k, counts) >= Adjusted(w, counts) { PickIsFirst(r, counts, k, w); }
    } else {
      SomeArranged(sel);
      r :| IsArranged(sel, r);
      KeptAreCollapsed(sel, r, k);
    }
  }

  /** Whatever list the button holds, it plays the very torrent the prefetcher warmed, if and only if
      that torrent leads its quality in the button's pool and the mode takes it rather than any other
      leader. */
  lemma SameTorrentExactlyWhen(mode: Mode, all: seq<Torrent>, preferred: string, languages: Languages, counts: Counts)
    requires all != [] && Seeded(all) && Sorting.WeakOn(Precedes, all) && !mode.Selectable?
    ensures var sel, w := SelectableTorrents(all, preferred, languages), Warmed(mode, all, counts);
            (forall r :: IsArranged(sel, r) ==> r != [] && Played(mode, r, counts) == w) <==> SurelyPlayed(mode, sel, w, counts)
  {
    var sel, w := SelectableTorrents(all, preferred, languages), Warmed(mode, all, counts);
    SelectableWithin(all, preferred, languages);
    WeakOnWithin(sel, all);
    if SurelyPlayed(mode, sel, w, counts) {
      forall r | IsArranged(sel, r) ensures r != [] && Played(mode, r, counts) == w {
        SurelyPlayedIsPlayed(mode, sel, w, counts, r);
      }
    } else {
      SomeArranged(sel);
      var r :| IsArranged(sel, r);
      CollapseNonEmpty(sel, r);
      PlayedIsListed(mode, r, counts);
      KeptAreCollapsed(sel, r, Played(mode, r, counts));
      if Kept(sel, w) {
        var k :| Kept(sel, k) && k != w && !TakenBefore(mode, w, k, counts);
        r := RivalIsPlayed(mode, sel, w, k, counts);
      }
    }
  }

  /** `w` leads its quality and outscores every other leader. */
  ghost predicate OutscoresLeaders(sel: seq<Torrent>, w: Torrent, counts: Counts) {
    Kept(sel, w) && forall k :: Kept(sel, k) && k != w ==> Adjusted(k, counts) < Adjusted(w, counts)
  }

  lemma OutscoringIsPicked(sel: seq<Torrent>, r: seq<Torrent>, w: Torrent, counts: Counts)
    requires IsCollapse(sel, r) && OutscoresLeaders(sel, w, counts)
    ensures r != [] && Pick(r, counts) == w
  {
    KeptAreCollapsed(sel, r, w);
    KeptAreCollapsed(sel, r, Pick(r, counts));
  }

  function Fronted(l: seq<Torrent>, k: Torrent): seq<Torrent> {
    [k] + Filter(l, (t: Torrent) => t != k)
  }

  lemma FrontedIsCollapse(sel: seq<Torrent>, l: seq<Torrent>, k: Torrent)
    requires IsCollapse(sel, l) && k in l
    ensures IsCollapse(sel, Fronted(l, k))
  {
    WithoutOne(l, k);
    SameCollapse(sel, l, Fronted(l, k));
  }

  lemma FrontedStandsBefore(l: seq<Torrent>, k: Torrent, w: Torrent)
    requires Distinct(l) && w in l && w != k
    ensures Sorting.StandsBefore(Fronted(l, k), k, w)
  {
    var rest := Filter(l, (t: Torrent) => t != k);
    WithoutOne(l, k);
    var j :| 0 <= j < |rest| && rest[j] == w;
    assert Fronted(l, k)[0] == k && Fronted(l, k)[j + 1] == w;
  }

  lemma OutscoredCanBeMissed(sel: seq<Torrent>, w: Torrent, counts: Counts) returns (r: seq<Torrent>)
    requires sel != [] && !OutscoresLeaders(sel, w, counts)
    ensures IsCollapse(sel, r) && r != [] && Pick(r, counts) != w
  {
    r := Leaders(sel);
    LeadersAreCollapse(sel);
    CollapseNonEmpty(sel, r);
    KeptAreCollapsed(sel, r, w);
    if Kept(sel, w) {
      var k :| Kept(sel, k) && k != w && Adjusted(k, counts) >= Adjusted(w, counts);
      KeptAreCollapsed(sel, r, k);
      FrontedIsCollapse(sel, r, k);
      FrontedStandsBefore(r, k, w);
      r := Fronted(r, k);
      PickIsFirst(r, counts, k, w);
    }
  }

  /** Where labels are not ordered the list can be in any order, and "Optimal" surely plays the
      torrent warmed if and only if it leads its quality and outscores every other leader. */
  lemma SameTorrentInAnyOrderExactlyWhen(all: seq<Torrent>, preferred: string, languages: Languages, counts: Counts)
    requires all != [] && Seeded(all)
    ensures var sel, w := SelectableTorrents(all, preferred, languages), Warmed(Optimal, all, counts);
            (forall r :: IsCollapse(sel, r) ==> r != [] && Played(Optimal, r, counts) == w) <==> OutscoresLeaders(sel, w, counts)
  {
    var sel, w := SelectableTorrents(all, preferred, languages), Warmed(Optimal, all, counts);
    SelectableWithin(all, preferred, languages);
    if OutscoresLeaders(sel, w, counts) {
      forall r | IsCollapse(sel, r) ensures r != [] && Played(Optimal, r, counts) == w {
        OutscoringIsPicked(sel, r, w, counts);
      }
    } else {
      var r := OutscoredCanBeMissed(sel, w, counts);
    }
  }

  /** The collapse alone parts them: of a WEBRip and a BluRay release of one quality, in this order,
      the prefetcher warms the first for "Highest" and "Low", and the button plays the second. */
  lemma CollapseHidesTheFirst(x: Torrent, y: Torrent, languages: Languages, counts: Counts, r: seq<Torrent>)
    requires x.source == WebRip && y.source == BluRay && x.seeds >= 0 && y.seeds >= 0
    requires x.quality == y.quality && IsArranged(SelectableTorrents([x, y], "", languages), r)
    ensures r == [y]
    ensures Warmed(Highest, [x, y], counts) == x == Warmed(Low, [x, y], counts)
    ensures Played(Highest, r, counts) == y == Played(Low, r, counts)
  {
    ScoreWithinTier(x, x.seeds);
    ScoreWithinTier(y, y.seeds);
    if x.quality.Some? { LessIrreflexive(x.quality.value); }
    TwoLeaders(x, y);
    assert y in r && forall t :: t in r ==> t == y;
    OnlyOne(r, y);
    EndsOfPair(x, y);
  }

  lemma TwoLeaders(x: Torrent, y: Torrent)
    ensures BestByKey.Best([x, y], Bucket, Score)
         == if Bucket(x) != Bucket(y) then map[Bucket(x) := x, Bucket(y) := y]
            else if Score(x) >= Score(y) then map[Bucket(x) := x] else map[Bucket(y) := y]
  {
    assert [x, y][..1] == [x] && [x][..0] == [];
    assert BestByKey.Best([x], Bucket, Score) == map[Bucket(x) := x];
  }

  lemma OnlyOne(r: seq<Torrent>, y: Torrent)
    requires Distinct(r) && y in r && forall t :: t in r ==> t == y
    ensures r == [y]
  {
    assert r[0] in r && r[|r| - 1] in r;
    assert r[0] == r[|r| - 1];
  }

  lemma EndsOfPair(x: Torrent, y: Torrent)
    ensures HighestOf([x, y]) == if Precedes(x, y) then y else x
    ensures LowestOf([x, y]) == if Precedes(y, x) then y else x
  {
    assert [x, y][..1] == [x];
  }

  /** Between labels that tie, such as 1080p and 2160p, the button's list can be in either order: for
      "Highest" and "Low", and for "Optimal" between equal scores, it plays now one torrent and now
      the other. The prefetcher always warms the first of the pool. */
  lemma TiesAreUndetermined(mode: Mode, x: Torrent, y: Torrent, languages: Languages, counts: Counts)
    requires x.seeds >= 0 && y.seeds >= 0 && Bucket(x) != Bucket(y) && !Precedes(x, y) && !Precedes(y, x) && !mode.Selectable?
    requires mode.Optimal? ==> Adjusted(x, counts) == Adjusted(y, counts)
    ensures var sel := SelectableTorrents([x, y], "", languages); IsArranged(sel, [x, y]) && IsArranged(sel, [y, x])
    ensures Warmed(mode, [x, y], counts) == x
    ensures Played(mode, [x, y], counts) == (if mode.Highest? then y else x)
    ensures Played(mode, [y, x], counts) == (if mode.Highest? then x else y)
  {
    TwoLeaders(x, y);
    EndsOfPair(x, y);
    FirstOfPair(x, y, counts);
    FirstOfPair(y, x, counts);
  }

  lemma FirstOfPair(x: Torrent, y: Torrent, counts: Counts)
    ensures Adjusted(x, counts) == Adjusted(y, counts) ==> Pick([x, y], counts) == x
  {
    assert [x, y][0] == x && [x, y][1] == y;
  }

  lemma TopLabelsTie(x: Torrent, y: Torrent)
    requires x.quality == Some("2160p") && y.quality == Some("1080p")
    ensures Bucket(x) != Bucket(y) && !Precedes(x, y) && !Precedes(y, x)
  {
    QualityLabels.CommentedOrderFails();
    assert "2160p"[0] != "1080p"[0];
  }

  /** Under every failure history the button plays as good a torrent as the prefetcher warms if and
      only if whatever filter and collapse leave out is outscored by at least the highest penalty,
      or within its own URL. */
  lemma PrefetchServesExactlyWhen(all: seq<Torrent>, preferred: string, languages: Languages, r: seq<Torrent>)
    requires all != [] && Seeded(all) && IsCollapse(SelectableTorrents(all, preferred, languages), r)
    ensures r != []
    ensures (forall counts: Counts :: Serves(all, r, counts)) <==> Outlasts(all, r)
  {
    var sel := SelectableTorrents(all, preferred, languages);
    SelectableWithin(all, preferred, languages);
    CollapseNonEmpty(sel, r);
    forall t | t in r ensures t in all { CollapseWithin(sel, r, t); }
    ServesUnderEveryHistoryExactlyWhen(all, r);
  }

  /** The filter does separate them: of a BluRay and a WEB-DL release of one quality the prefetcher
      warms the first and the button, set to the language of the second alone, plays the second. */
  lemma FilterHidesTheBest(x: Torrent, y: Torrent, preferred: string, languages: Languages, r: seq<Torrent>, counts: Counts)
    requires x.source == BluRay && y.source == WebDl && x.seeds >= 0 && y.seeds >= 0 && NoFailures([x, y], counts)
    requires preferred != "" && Lower(preferred) in languages(y) && Lower(preferred) !in languages(x)
    requires IsCollapse(SelectableTorrents([x, y], preferred, languages), r)
    ensures r != [] && Warmed(Optimal, [x, y], counts) == x && Played(Optimal, r, counts) == y
  {
    var all, sel := [x, y], SelectableTorrents([x, y], preferred, languages);
    var speaks := Speaks(languages, Lower(preferred));
    forall t ensures t in PreferredLanguageTorrents(all, preferred, languages) <==> t in all && speaks(t) {
      InFilter(all, speaks, t);
    }
    assert y in all && x in all;
    CollapseNonEmpty(sel, r);
    CollapseWithin(sel, r, Played(Optimal, r, counts));
    ScoreWithinTier(x, x.seeds);
    ScoreWithinTier(y, y.seeds);
    assert Warmed(Optimal, all, counts) in all;
  }

  /** Pools whose labels all have compatible lengths, such as 2, 4 and 5, are ordered. */
  lemma CompatiblePoolIsOrdered(s: seq<Torrent>, lengths: set<nat>)
    requires QualityLabels.Compatible(lengths)
    requires forall t :: t in s ==> t.quality.Some? && |t.quality.value| in lengths
    ensures Sorting.WeakOn(Precedes, s)
  {
    QualityLabels.OrderExactlyWhenCompatible(lengths);
    forall x, y, z | x in s && y in s && z in s
      ensures Precedes(x, y) ==> !Precedes(y, x)
      ensures !Precedes(x, y) && !Precedes(y, z) ==> !Precedes(x, z)
    {
      var a, b, c := x.quality.value, y.quality.value, z.quality.value;
      QualityLabels.CompatibleOrders(lengths, a, b, c);
      QualityLabels.CompatibleOrders(lengths, a, b, a);
    }
  }
}
