/**
 * Which file of a torrent is fetched: the loop shared by the movie prefetcher
 * (PreloadTorrentViewModel.swift:104-118) and the session warmer (Session.swift:357-368), and the
 * player's own rule (PreloadTorrentViewModel.swift:720-739).
 */
module FileSelection {
  import opened Sequences
  import opened Numerals
  import HtmlDecoding

  datatype Media = Movie | Episode(number: int)

  datatype File = File(offset: nat, name: string, size: int)

  /** The first position holding the largest value. */
  ghost predicate IsFirstLargest(sizes: seq<int>, i: int) {
    && 0 <= i < |sizes|
    && (forall j :: 0 <= j < |sizes| ==> sizes[j] <= sizes[i])
    && (forall j :: 0 <= j < i ==> sizes[j] < sizes[i])
  }

  /** The prefetcher's and the warmer's selector. The running maximum starts at 0. */
  method LargestFile(sizes: seq<int>) returns (maxIndex: nat)
    ensures sizes != [] ==> maxIndex < |sizes|
    ensures IsWarmed(sizes, maxIndex)
  {
    if |sizes| <= 1 { return 0; }
    var maxSize := 0;
    maxIndex := 0;
    for i := 0 to |sizes|
      invariant maxIndex < |sizes| && maxSize >= 0
      invariant forall j :: 0 <= j < i ==> sizes[j] <= maxSize
      invariant maxSize == 0 ==> maxIndex == 0
      invariant maxSize > 0 ==> maxIndex < i && sizes[maxIndex] == maxSize && forall j :: 0 <= j < maxIndex ==> sizes[j] < maxSize
    {
      if sizes[i] > maxSize {
        maxSize := sizes[i];
        maxIndex := i;
      }
    }
  }

  /** The index the loop returns: the first largest when some file of several has a positive
      size, and 0 otherwise. */
  ghost predicate IsWarmed(sizes: seq<int>, i: int) {
    if |sizes| > 1 && exists j :: 0 <= j < |sizes| && sizes[j] > 0 then IsFirstLargest(sizes, i) else i == 0
  }

  lemma OneFirstLargest(sizes: seq<int>, i: int, j: int)
    requires IsFirstLargest(sizes, i) && IsFirstLargest(sizes, j)
    ensures i == j
  {
    assert sizes[i] == sizes[j];
  }

  // ---------- The player ----------

  /** "E%02d", lower-cased. */
  function EpisodeTag(number: int): string {
    if number < 0 then "e-" + Digits(-number, 10)
    else "e" + (if number < 10 then "0" else "") + Digits(number, 10)
  }

  predicate OccursAt(s: string, part: string, i: nat) {
    i + |part| <= |s| && s[i..i + |part|] == part
  }

  predicate Contains(s: string, part: string) {
    exists i :: 0 <= i <= |s| && OccursAt(s, part, i)
  }

  /** Whether the player considers a file of this name. */
  predicate Eligible(media: Media, name: string) {
    media.Movie? || Contains(Lower(name), EpisodeTag(media.number))
  }

  function Zipped(names: seq<string>, sizes: seq<int>): (files: seq<File>)
    ensures |files| == if |names| <= |sizes| then |names| else |sizes|
    ensures forall i :: 0 <= i < |files| ==> files[i] == File(i, names[i], sizes[i])
  {
    var n := if |names| <= |sizes| then |names| else |sizes|;
    seq(n, i requires 0 <= i < n => File(i, names[i], sizes[i]))
  }

  function Biggest(files: seq<File>): Option<nat> {
    if files == [] then None else Some(files[FirstMax(files, (f: File) => f.size)].offset)
  }

  /** The player's pick; `None` is where it turns to the user. */
  function SelectFileToStream(names: seq<string>, sizes: seq<int>, media: Media): Option<nat> {
    if |names| == 1 then Some(0)
    else
      var files := Zipped(names, sizes);
      Biggest(if media.Episode? then Filter(files, (f: File) => Eligible(media, f.name)) else files)
  }

  ghost predicate InOrder(files: seq<File>) {
    forall a, b :: 0 <= a < b < |files| ==> files[a].offset < files[b].offset
  }

  /** `files` lists exactly the eligible files of the torrent, in the torrent's order. */
  ghost predicate Selects(names: seq<string>, sizes: seq<int>, media: Media, files: seq<File>) {
    && (forall f :: f in files <==> f in Zipped(names, sizes) && Eligible(media, f.name))
    && InOrder(files)
  }

  lemma {:induction false} FilterKeepsOrder(files: seq<File>, keep: File -> bool)
    requires InOrder(files)
    ensures InOrder(Filter(files, keep))
  {
    if files != [] {
      FilterKeepsOrder(files[1..], keep);
      var rest := Filter(files[1..], keep);
      forall b | 0 <= b < |rest| ensures files[0].offset < rest[b].offset {
        InFilter(files[1..], keep, rest[b]);
        assert rest[b] in files[1..];
      }
    }
  }

  lemma EligibleFiles(names: seq<string>, sizes: seq<int>, media: Media)
    ensures Selects(names, sizes, media,
              if media.Episode? then Filter(Zipped(names, sizes), (f: File) => Eligible(media, f.name)) else Zipped(names, sizes))
  {
    var files, keep := Zipped(names, sizes), (f: File) => Eligible(media, f.name);
    if media.Episode? {
      FilterKeepsOrder(files, keep);
      forall f ensures f in Filter(files, keep) <==> f in files && keep(f) { InFilter(files, keep, f); }
    }
  }

  /** Position `i` is an eligible file. */
  ghost predicate Playable(names: seq<string>, sizes: seq<int>, media: Media, i: int) {
    0 <= i < |names| && i < |sizes| && Eligible(media, names[i])
  }

  /** Position `i` is the first of the largest eligible files. */
  ghost predicate IsFirstLargestPlayable(names: seq<string>, sizes: seq<int>, media: Media, i: int) {
    && Playable(names, sizes, media, i)
    && (forall j :: Playable(names, sizes, media, j) ==> sizes[j] <= sizes[i])
    && (forall j :: Playable(names, sizes, media, j) && j < i ==> sizes[j] < sizes[i])
  }

  lemma SelectedIsPlayable(names: seq<string>, sizes: seq<int>, media: Media, files: seq<File>, a: nat)
    requires Selects(names, sizes, media, files) && a < |files|
    ensures var i := files[a].offset;
            Playable(names, sizes, media, i) && files[a] == File(i, names[i], sizes[i])
  {
    assert files[a] in files;
  }

  lemma PlayableIsSelected(names: seq<string>, sizes: seq<int>, media: Media, files: seq<File>, i: nat) returns (a: nat)
    requires Selects(names, sizes, media, files) && Playable(names, sizes, media, i)
    ensures a < |files| && files[a] == File(i, names[i], sizes[i])
  {
    assert Zipped(names, sizes)[i] in files;
    a :| 0 <= a < |files| && files[a] == Zipped(names, sizes)[i];
  }

  lemma NoneBeatsTop(files: seq<File>, top: nat, a: nat)
    requires InOrder(files) && top < |files| && a < |files|
    requires forall a :: 0 <= a < |files| ==> files[a].size <= files[top].size
    requires forall a :: 0 <= a < top ==> files[a].size < files[top].size
    ensures files[a].size <= files[top].size
    ensures files[a].offset < files[top].offset ==> files[a].size < files[top].size
  {
    assert a > top ==> files[top].offset < files[a].offset;
  }

  lemma TopIsFirstLargest(names: seq<string>, sizes: seq<int>, media: Media, files: seq<File>, top: nat)
    requires Selects(names, sizes, media, files) && top < |files|
    requires forall a :: 0 <= a < |files| ==> files[a].size <= files[top].size
    requires forall a :: 0 <= a < top ==> files[a].size < files[top].size
    ensures IsFirstLargestPlayable(names, sizes, media, files[top].offset)
  {
    SelectedIsPlayable(names, sizes, media, files, top);
    var i := files[top].offset;
    forall j | Playable(names, sizes, media, j) ensures sizes[j] <= sizes[i] && (j < i ==> sizes[j] < sizes[i]) {
      var a := PlayableIsSelected(names, sizes, media, files, j);
      NoneBeatsTop(files, top, a);
    }
  }

  lemma BiggestIsFirstLargest(names: seq<string>, sizes: seq<int>, media: Media, files: seq<File>)
    requires Selects(names, sizes, media, files)
    ensures Biggest(files).None? <==> forall i :: !Playable(names, sizes, media, i)
    ensures Biggest(files).Some? ==> IsFirstLargestPlayable(names, sizes, media, Biggest(files).value)
  {
    if files != [] {
      TopIsFirstLargest(names, sizes, media, files, FirstMax(files, (f: File) => f.size));
    } else {
      forall i ensures !Playable(names, sizes, media, i) {
        if Playable(names, sizes, media, i) { var a := PlayableIsSelected(names, sizes, media, files, i); }
      }
    }
  }

  /** With several files the player takes the first largest eligible one, and asks the user
      exactly when there is none. */
  lemma PlayerPicksLargestEligible(names: seq<string>, sizes: seq<int>, media: Media)
    requires |names| != 1
    ensures var pick := SelectFileToStream(names, sizes, media);
            || (pick.None? && forall i :: !Playable(names, sizes, media, i))
            || (pick.Some? && IsFirstLargestPlayable(names, sizes, media, pick.value))
  {
    EligibleFiles(names, sizes, media);
    var files := if media.Episode? then Filter(Zipped(names, sizes), (f: File) => Eligible(media, f.name)) else Zipped(names, sizes);
    BiggestIsFirstLargest(names, sizes, media, files);
  }

  // ---------- The data prefetched is the data played ----------

  /** For a movie the selectors agree exactly when some file has a positive size or the first file
      is a largest one. */
  lemma MoviePicksAgreeExactlyWhen(names: seq<string>, sizes: seq<int>, warmed: nat)
    requires |names| == |sizes| > 0 && IsWarmed(sizes, warmed)
    ensures SelectFileToStream(names, sizes, Movie) == Some(warmed)
            <==> (exists j :: 0 <= j < |sizes| && sizes[j] > 0) || (forall j :: 0 <= j < |sizes| ==> sizes[j] <= sizes[0])
  {
    if |names| > 1 {
      PlayerPicksLargestEligible(names, sizes, Movie);
      assert Playable(names, sizes, Movie, 0);
      var pick := SelectFileToStream(names, sizes, Movie).value;
      assert forall j :: 0 <= j < |sizes| ==> Playable(names, sizes, Movie, j);
      assert IsFirstLargest(sizes, pick);
      if IsFirstLargest(sizes, warmed) { OneFirstLargest(sizes, pick, warmed); }
    }
  }

  /** Sizes are never negative, so what is prefetched for a movie is what is played: the first
      largest file. */
  lemma MoviePicksAgree(names: seq<string>, sizes: seq<int>, warmed: nat)
    requires |names| == |sizes| > 0 && (forall j :: 0 <= j < |sizes| ==> sizes[j] >= 0) && IsWarmed(sizes, warmed)
    ensures SelectFileToStream(names, sizes, Movie) == Some(warmed) && IsFirstLargest(sizes, warmed)
  {
    MoviePicksAgreeExactlyWhen(names, sizes, warmed);
    if |sizes| > 1 { PlayerPicksLargestEligible(names, sizes, Movie); }
    assert forall j :: 0 <= j < |sizes| ==> Playable(names, sizes, Movie, j);
  }

  lemma FirstLargestIsPlayed(names: seq<string>, sizes: seq<int>, media: Media, top: nat)
    requires |names| == |sizes| && IsFirstLargest(sizes, top)
    ensures SelectFileToStream(names, sizes, media) == Some(top) <==> |names| == 1 || Eligible(media, names[top])
  {
    if |names| > 1 {
      PlayerPicksLargestEligible(names, sizes, media);
      if Eligible(media, names[top]) {
        assert Playable(names, sizes, media, top);
      }
    }
  }

  /** For an episode the warmed file is the one played exactly when the name of the first largest
      file carries the episode's tag, or it is the only file. */
  lemma EpisodePicksAgreeExactlyWhen(names: seq<string>, sizes: seq<int>, number: int, warmed: nat, top: nat)
    requires |names| == |sizes| && (forall j :: 0 <= j < |sizes| ==> sizes[j] >= 0)
    requires IsWarmed(sizes, warmed) && IsFirstLargest(sizes, top)
    ensures SelectFileToStream(names, sizes, Episode(number)) == Some(warmed)
            <==> |names| == 1 || Eligible(Episode(number), names[top])
  {
    MoviePicksAgree(names, sizes, warmed);
    OneFirstLargest(sizes, warmed, top);
    FirstLargestIsPlayed(names, sizes, Episode(number), top);
  }

  /** An extra file larger than the episode is warmed in its place. */
  lemma WarmedFileMayNotBePlayed()
    ensures IsWarmed([5, 9], 1) && SelectFileToStream(["show.E01.mkv", "extras.mkv"], [5, 9], Episode(1)) == Some(0)
  {
    var names, sizes, media := ["show.E01.mkv", "extras.mkv"], [5, 9], Episode(1);
    assert IsWarmed(sizes, 1) by { assert sizes[1] > 0; }
    assert Eligible(media, names[0]) by {
      assert OccursAt(Lower(names[0]), EpisodeTag(1), 5);
    }
    assert !Eligible(media, names[1]) by {
      var low := Lower(names[1]);
      assert forall i :: 0 <= i < |low| ==> low[i] != '0';
      assert EpisodeTag(1)[1] == '0';
      forall i | 0 <= i <= |low| ensures !OccursAt(low, EpisodeTag(1), i) {
        assert i + 1 < |low| ==> low[i + 1] != '0';
      }
    }
    PlayerPicksLargestEligible(names, sizes, media);
    assert Playable(names, sizes, media, 0);
  }

  // ---------- The episode tag ----------

  lemma {:induction false} DigitsLength(n: nat)
    ensures |Digits(n, 10)| == 1 <==> n < 10
    ensures |Digits(n, 10)| == 2 <==> 10 <= n < 100
  {
    if n >= 10 {
      DigitsLength(n / 10);
      assert |Digits(n, 10)| == |Digits(n / 10, 10)| + 1;
    }
  }

  lemma LeadingZero(d: string)
    requires d != []
    ensures HtmlDecoding.DigitsValue("0" + d, 10) == HtmlDecoding.DigitsValue(d, 10)
    decreases |d|
  {
    var z := "0" + d;
    assert z[..|z| - 1] == "0" + d[..|d| - 1];
    if |d| == 1 {
      assert z[..1] == "0" && "0"[..0] == [];
      assert d[..0] == [];
      assert HtmlDecoding.DigitsValue("0", 10) == Some(0);
    } else {
      LeadingZero(d[..|d| - 1]);
    }
  }

  /** The tag is an `e` and the decimal digits of the episode's number, two of them below 100. */
  lemma TagIsNumber(n: nat)
    ensures var tag := EpisodeTag(n);
            |tag| >= 3 && tag[0] == 'e' && HtmlDecoding.DigitsValue(tag[1..], 10) == Some(n)
    ensures |EpisodeTag(n)| == 3 <==> n < 100
  {
    HtmlDecoding.DigitsRead(n, 10);
    DigitsLength(n);
    LeadingZero(Digits(n, 10));
    var tag := EpisodeTag(n);
    assert tag[1..] == if n < 10 then "0" + Digits(n, 10) else Digits(n, 10);
  }

  /** A negative number is tagged with its sign. */
  lemma NegativeTagIsNumber(n: int)
    requires n < 0
    ensures var tag := EpisodeTag(n);
            |tag| >= 3 && tag[..2] == "e-" && HtmlDecoding.DigitsValue(tag[2..], 10) == Some(-n)
  {
    HtmlDecoding.DigitsRead(-n, 10);
    var tag := EpisodeTag(n);
    assert tag[2..] == Digits(-n, 10);
  }
}
