/** Which episode to offer next (PopcornTime/Model/Show+Extension.swift:14-46). */
module LatestEpisode {
  import opened Sequences
  import Sorting

  datatype Episode = Episode(id: string, season: int, number: int)

  /** What the watched list knows of an episode id. */
  datatype Watching = Watching(watched: string -> bool, progress: string -> real)

  predicate ByNumber(a: Episode, b: Episode) { a.number < b.number }

  predicate BySeason(a: Episode, b: Episode) { a.season < b.season }

  predicate Ascending(a: int, b: int) { a < b }

  function Last<T>(s: seq<T>): Option<T> {
    if s == [] then None else Some(s[|s| - 1])
  }

  function First<T>(s: seq<T>): Option<T> {
    if s == [] then None else Some(s[0])
  }

  function Seasons(s: seq<Episode>): (r: seq<int>)
    ensures |r| == |s| && forall i :: 0 <= i < |s| ==> r[i] == s[i].season
  {
    seq(|s|, i requires 0 <= i < |s| => s[i].season)
  }

  function SeasonNumbers(show: seq<Episode>): seq<int> {
    Sorting.Sort(FirstSeen(Seasons(show)), Ascending)
  }

  function IsStarted(w: Watching): Episode -> bool {
    (e: Episode) => w.progress(e.id) > 0.0 || w.watched(e.id)
  }

  function IsUnwatched(w: Watching): Episode -> bool {
    (e: Episode) => !w.watched(e.id)
  }

  function InSeason(season: int): Episode -> bool {
    (e: Episode) => e.season == season
  }

  function HasNumber(number: int): Episode -> bool {
    (e: Episode) => e.number == number
  }

  function LatestInSeason(started: seq<Episode>, season: int): Option<Episode> {
    Last(Sorting.Sort(Filter(started, InSeason(season)), ByNumber))
  }

  function PerSeason(started: seq<Episode>, seasons: seq<int>): seq<Episode> {
    if seasons == [] then []
    else
      var front := PerSeason(started, seasons[..|seasons| - 1]);
      match LatestInSeason(started, seasons[|seasons| - 1])
      case None => front
      case Some(e) => front + [e]
  }

  function NextEpisode(episodes: seq<Episode>, latest: Episode): Option<Episode> {
    First(Filter(Filter(episodes, InSeason(latest.season)), HasNumber(latest.number + 1)))
  }

  function NextOpening(episodes: seq<Episode>, latest: Episode): Option<Episode> {
    First(Sorting.Sort(Filter(episodes, InSeason(latest.season + 1)), ByNumber))
  }

  function FirstUnwatched(perSeason: seq<Episode>, w: Watching): Option<Episode> {
    First(Filter(Sorting.Sort(perSeason, BySeason), IsUnwatched(w)))
  }

  function Choose(next: Option<Episode>, opening: Option<Episode>, unwatched: Option<Episode>, latest: Episode): Episode {
    if next.Some? then next.value
    else if opening.Some? then opening.value
    else if unwatched.Some? && unwatched.value != latest then unwatched.value
    else latest
  }

  /** What follows a watched latest episode. */
  function Following(episodes: seq<Episode>, perSeason: seq<Episode>, latest: Episode, w: Watching): Episode {
    Choose(NextEpisode(episodes, latest), NextOpening(episodes, latest), FirstUnwatched(perSeason, w), latest)
  }

  function Offered(show: seq<Episode>, episodes: seq<Episode>, w: Watching): Option<Episode> {
    match Latest(show, episodes, w)
    case None => None
    case Some(latest) => if w.watched(latest.id) then Some(Following(episodes, Tops(show, episodes, w), latest, w)) else Some(latest)
  }

  /** One more season of the loop. */
  lemma PerSeasonNext(started: seq<Episode>, seasons: seq<int>, i: nat)
    requires i < |seasons|
    ensures PerSeason(started, seasons[..i + 1]) ==
      match LatestInSeason(started, seasons[i])
      case None => PerSeason(started, seasons[..i])
      case Some(e) => PerSeason(started, seasons[..i]) + [e]
  {
    assert seasons[..i + 1][..i] == seasons[..i];
  }

  method LatestUnwatchedEpisode(show: seq<Episode>, episodes: seq<Episode>, w: Watching) returns (r: Option<Episode>)
    ensures r == Offered(show, episodes, w)
  {
    var currentlyWatching := Filter(episodes, IsStarted(w));
    var perSeason: seq<Episode> := [];
    var seasons := SeasonNumbers(show);
    for i := 0 to |seasons|
      invariant perSeason == PerSeason(currentlyWatching, seasons[..i])
    {
      PerSeasonNext(currentlyWatching, seasons, i);
      var last := Last(Sorting.Sort(Filter(currentlyWatching, InSeason(seasons[i])), ByNumber));
      if last.None? { continue; }
      perSeason := perSeason + [last.value];
    }
    assert seasons[..|seasons|] == seasons;
    var latest := Last(Sorting.Sort(perSeason, BySeason));
    if latest.Some? && w.watched(latest.value.id) {
      r := Some(Following(episodes, perSeason, latest.value, w));
    } else {
      r := latest;
    }
  }

  // ---------- The latest started episode ----------

  /** Season first, then number. */
  predicate Before(a: Episode, b: Episode) {
    a.season < b.season || (a.season == b.season && a.number < b.number)
  }

  /** No two entries share season and number. */
  ghost predicate UniqueKeys(s: seq<Episode>) {
    forall i, j :: 0 <= i < j < |s| ==> s[i].season != s[j].season || s[i].number != s[j].number
  }

  ghost predicate Separated<T>(s: seq<T>, lt: (T, T) -> bool) {
    forall i, j :: 0 <= i < j < |s| ==> lt(s[i], s[j]) || lt(s[j], s[i])
  }

  lemma EndsOfSorted<T(!new)>(s: seq<T>, lt: (T, T) -> bool)
    requires s != [] && Sorting.Transitive(lt) && Separated(s, lt)
    ensures var r := Sorting.Sort(s, lt);
            && |r| == |s| && r[0] in s && r[|r| - 1] in s
            && forall x :: x in s ==> (x == r[0] || lt(r[0], x)) && (x == r[|r| - 1] || lt(x, r[|r| - 1]))
  {
    var r := Sorting.Sort(s, lt);
    Sorting.SortSorted(s, lt);
    Sorting.SortMultiset(s, lt);
    Sorting.SortSameElements(s, lt, r[0]);
    Sorting.SortSameElements(s, lt, r[|r| - 1]);
    forall x | x in s ensures (x == r[0] || lt(r[0], x)) && (x == r[|r| - 1] || lt(x, r[|r| - 1])) {
      Sorting.SortSameElements(s, lt, x);
      var i :| 0 <= i < |r| && r[i] == x;
    }
  }

  lemma SortEmpty<T>(s: seq<T>, lt: (T, T) -> bool)
    ensures Sorting.Sort(s, lt) == [] <==> s == []
  {
    Sorting.SortMultiset(s, lt);
  }

  lemma {:induction false} FilterUnique(s: seq<Episode>, keep: Episode -> bool)
    requires UniqueKeys(s)
    ensures UniqueKeys(Filter(s, keep))
  {
    if s != [] {
      FilterUnique(s[1..], keep);
      var rest := Filter(s[1..], keep);
      forall j | 0 <= j < |rest| ensures s[0].season != rest[j].season || s[0].number != rest[j].number {
        InFilter(s[1..], keep, rest[j]);
        var k :| 0 <= k < |s[1..]| && s[1..][k] == rest[j];
        assert s[k + 1] == rest[j];
      }
    }
  }

  lemma SeasonSeparated(s: seq<Episode>, season: int)
    requires UniqueKeys(s)
    ensures Separated(Filter(s, InSeason(season)), ByNumber)
  {
    var f := Filter(s, InSeason(season));
    FilterUnique(s, InSeason(season));
    forall i | 0 <= i < |f| ensures f[i].season == season { InFilter(s, InSeason(season), f[i]); }
  }

  /** `e` is the highest number among the episodes of its season. */
  ghost predicate TopOfSeason(s: seq<Episode>, e: Episode) {
    e in s && forall x :: x in s && x.season == e.season ==> x == e || x.number < e.number
  }

  lemma LatestInSeasonIs(s: seq<Episode>, season: int)
    requires UniqueKeys(s)
    ensures var o := LatestInSeason(s, season);
            || (o.None? && forall x :: x in s ==> x.season != season)
            || (o.Some? && o.value.season == season && TopOfSeason(s, o.value))
  {
    var f := Filter(s, InSeason(season));
    SeasonSeparated(s, season);
    SortEmpty(f, ByNumber);
    forall x ensures x in f <==> x in s && x.season == season { InFilter(s, InSeason(season), x); }
    if f != [] {
      EndsOfSorted(f, ByNumber);
      assert f[0] in f;
    } else {
      assert forall x :: x in s && x.season == season ==> x in f;
    }
  }

  /** One entry for every listed season with an episode, the top one. */
  lemma {:induction false} PerSeasonIs(s: seq<Episode>, seasons: seq<int>)
    requires UniqueKeys(s) && Distinct(seasons)
    ensures forall e :: e in PerSeason(s, seasons) <==> e.season in seasons && TopOfSeason(s, e)
    ensures Separated(PerSeason(s, seasons), BySeason)
  {
    if seasons != [] {
      var n := |seasons| - 1;
      var front, season := seasons[..n], seasons[n];
      PerSeasonIs(s, front);
      LatestInSeasonIs(s, season);
      assert seasons == front + [season];
      var per := PerSeason(s, front);
      forall i | 0 <= i < |per| ensures per[i].season != season {
        assert per[i] in per;
        assert per[i].season in front;
      }
    }
  }

  lemma SeasonNumbersAre(show: seq<Episode>)
    ensures Distinct(SeasonNumbers(show))
    ensures forall n :: n in SeasonNumbers(show) <==> n in Seasons(show)
  {
    var seen := FirstSeen(Seasons(show));
    FirstSeenDistinct(Seasons(show));
    Sorting.SortDistinct(seen, Ascending);
    forall n ensures n in SeasonNumbers(show) <==> n in Seasons(show) {
      Sorting.SortSameElements(seen, Ascending, n);
      FirstSeenHas(Seasons(show), n);
    }
  }

  /** A started episode of a season the show lists. */
  ghost predicate Candidate(show: seq<Episode>, episodes: seq<Episode>, w: Watching, e: Episode) {
    e in episodes && (w.progress(e.id) > 0.0 || w.watched(e.id)) && e.season in Seasons(show)
  }

  /** The latest of all started episodes, by season and then number. */
  ghost predicate LatestStarted(show: seq<Episode>, episodes: seq<Episode>, w: Watching, m: Episode) {
    && Candidate(show, episodes, w, m)
    && forall e :: Candidate(show, episodes, w, e) ==> e == m || Before(e, m)
  }

  /** The latest started episode of its season. */
  ghost predicate SeasonTop(show: seq<Episode>, episodes: seq<Episode>, w: Watching, e: Episode) {
    && Candidate(show, episodes, w, e)
    && forall x :: Candidate(show, episodes, w, x) && x.season == e.season ==> x == e || x.number < e.number
  }

  function Tops(show: seq<Episode>, episodes: seq<Episode>, w: Watching): seq<Episode> {
    PerSeason(Filter(episodes, IsStarted(w)), SeasonNumbers(show))
  }

  lemma StartedIs(episodes: seq<Episode>, w: Watching)
    ensures forall e :: e in Filter(episodes, IsStarted(w)) <==> e in episodes && (w.progress(e.id) > 0.0 || w.watched(e.id))
  {
    forall e ensures e in Filter(episodes, IsStarted(w)) <==> e in episodes && (w.progress(e.id) > 0.0 || w.watched(e.id)) {
      InFilter(episodes, IsStarted(w), e);
    }
  }

  /** The loop collects exactly the latest started episode of each season. */
  lemma TopsAre(show: seq<Episode>, episodes: seq<Episode>, w: Watching)
    requires UniqueKeys(episodes)
    ensures Separated(Tops(show, episodes, w), BySeason)
    ensures forall e :: e in Tops(show, episodes, w) <==> SeasonTop(show, episodes, w, e)
  {
    FilterUnique(episodes, IsStarted(w));
    SeasonNumbersAre(show);
    PerSeasonIs(Filter(episodes, IsStarted(w)), SeasonNumbers(show));
    StartedIs(episodes, w);
  }

  lemma SeasonHasTop(show: seq<Episode>, episodes: seq<Episode>, w: Watching, e: Episode)
    requires UniqueKeys(episodes) && Candidate(show, episodes, w, e)
    ensures exists t :: SeasonTop(show, episodes, w, t) && t.season == e.season
  {
    var started := Filter(episodes, IsStarted(w));
    FilterUnique(episodes, IsStarted(w));
    StartedIs(episodes, w);
    LatestInSeasonIs(started, e.season);
    assert SeasonTop(show, episodes, w, LatestInSeason(started, e.season).value);
  }

  function Latest(show: seq<Episode>, episodes: seq<Episode>, w: Watching): Option<Episode> {
    Last(Sorting.Sort(Tops(show, episodes, w), BySeason))
  }

  /** The scan by seasons finds exactly the latest started episode, and nothing only when none
      is started. */
  lemma ScanFindsLatest(show: seq<Episode>, episodes: seq<Episode>, w: Watching)
    requires UniqueKeys(episodes)
    ensures var latest := Latest(show, episodes, w);
            || (latest.None? && forall e :: !Candidate(show, episodes, w, e))
            || (latest.Some? && LatestStarted(show, episodes, w, latest.value))
  {
    var tops := Tops(show, episodes, w);
    TopsAre(show, episodes, w);
    SortEmpty(tops, BySeason);
    if tops != [] {
      EndsOfSorted(tops, BySeason);
      assert tops[0] in tops;
      LastTopIsLatest(show, episodes, w, Latest(show, episodes, w).value);
    } else {
      forall e ensures !Candidate(show, episodes, w, e) {
        if Candidate(show, episodes, w, e) {
          SeasonHasTop(show, episodes, w, e);
        }
      }
    }
  }

  lemma LastTopIsLatest(show: seq<Episode>, episodes: seq<Episode>, w: Watching, m: Episode)
    requires UniqueKeys(episodes) && SeasonTop(show, episodes, w, m)
    requires forall t :: SeasonTop(show, episodes, w, t) ==> t == m || BySeason(t, m)
    ensures LatestStarted(show, episodes, w, m)
  {
    forall e | Candidate(show, episodes, w, e) ensures e == m || Before(e, m) {
      SeasonHasTop(show, episodes, w, e);
      var t :| SeasonTop(show, episodes, w, t) && t.season == e.season;
    }
  }

  // ---------- The episode offered ----------

  ghost predicate NextInSeason(episodes: seq<Episode>, m: Episode, e: Episode) {
    e in episodes && e.season == m.season && e.number == m.number + 1
  }

  ghost predicate OfNextSeason(episodes: seq<Episode>, m: Episode, e: Episode) {
    e in episodes && e.season == m.season + 1
  }

  /** Unwatched, and the latest started of its season. */
  ghost predicate OpenTop(show: seq<Episode>, episodes: seq<Episode>, w: Watching, e: Episode) {
    SeasonTop(show, episodes, w, e) && !w.watched(e.id)
  }

  /** What to offer when `m` is the latest started episode, said without filters or sorting. */
  ghost predicate Offers(show: seq<Episode>, episodes: seq<Episode>, w: Watching, m: Episode, r: Episode) {
    if !w.watched(m.id) then r == m
    else if exists e :: NextInSeason(episodes, m, e) then NextInSeason(episodes, m, r)
    else if exists e :: OfNextSeason(episodes, m, e) then
      OfNextSeason(episodes, m, r) && forall e :: OfNextSeason(episodes, m, e) ==> e == r || r.number < e.number
    else if exists e :: OpenTop(show, episodes, w, e) then
      OpenTop(show, episodes, w, r) && forall e :: OpenTop(show, episodes, w, e) ==> e == r || r.season < e.season
    else r == m
  }

  ghost predicate IsNext(episodes: seq<Episode>, m: Episode, o: Option<Episode>) {
    || (o.Some? && NextInSeason(episodes, m, o.value))
    || (o.None? && forall e :: !NextInSeason(episodes, m, e))
  }

  ghost predicate IsOpening(episodes: seq<Episode>, m: Episode, o: Option<Episode>) {
    || (o.Some? && OfNextSeason(episodes, m, o.value)
        && forall e :: OfNextSeason(episodes, m, e) ==> e == o.value || o.value.number < e.number)
    || (o.None? && forall e :: !OfNextSeason(episodes, m, e))
  }

  ghost predicate IsFirstOpen(show: seq<Episode>, episodes: seq<Episode>, w: Watching, o: Option<Episode>) {
    || (o.Some? && OpenTop(show, episodes, w, o.value)
        && forall e :: OpenTop(show, episodes, w, e) ==> e == o.value || o.value.season < e.season)
    || (o.None? && forall e :: !OpenTop(show, episodes, w, e))
  }

  lemma NextIs(episodes: seq<Episode>, m: Episode)
    ensures IsNext(episodes, m, NextEpisode(episodes, m))
  {
    var season := Filter(episodes, InSeason(m.season));
    var f := Filter(season, HasNumber(m.number + 1));
    forall e ensures e in f <==> NextInSeason(episodes, m, e) {
      InFilter(episodes, InSeason(m.season), e);
      InFilter(season, HasNumber(m.number + 1), e);
    }
    if f != [] { assert f[0] in f; }
  }

  lemma SeasonMembers(episodes: seq<Episode>, season: int)
    ensures forall e :: e in Filter(episodes, InSeason(season)) <==> e in episodes && e.season == season
  {
    forall e ensures e in Filter(episodes, InSeason(season)) <==> e in episodes && e.season == season {
      InFilter(episodes, InSeason(season), e);
    }
  }

  lemma OpeningIs(episodes: seq<Episode>, m: Episode)
    requires UniqueKeys(episodes)
    ensures IsOpening(episodes, m, NextOpening(episodes, m))
  {
    var f := Filter(episodes, InSeason(m.season + 1));
    SeasonSeparated(episodes, m.season + 1);
    SeasonMembers(episodes, m.season + 1);
    FirstOfSorted(f, ByNumber);
    if f != [] { assert OfNextSeason(episodes, m, f[0]); }
  }

  lemma FirstOfSorted<T(!new)>(s: seq<T>, lt: (T, T) -> bool)
    requires Sorting.Transitive(lt) && Separated(s, lt)
    ensures var o := First(Sorting.Sort(s, lt));
            || (s == [] && o.None?)
            || (o.Some? && o.value in s && forall x :: x in s ==> x == o.value || lt(o.value, x))
  {
    SortEmpty(s, lt);
    if s != [] { EndsOfSorted(s, lt); }
  }

  /** The first kept element of a strictly sorted list precedes every other kept one. */
  lemma {:induction false} FirstKept<T>(s: seq<T>, keep: T -> bool, lt: (T, T) -> bool)
    requires Sorting.StrictlySorted(s, lt)
    ensures var f := First(Filter(s, keep));
            || (f.None? && forall x :: x in s ==> !keep(x))
            || (f.Some? && f.value in s && keep(f.value) && forall x :: x in s && keep(x) ==> x == f.value || lt(f.value, x))
  {
    if s != [] {
      assert s == [s[0]] + s[1..];
      if !keep(s[0]) { FirstKept(s[1..], keep, lt); }
    }
  }

  lemma FirstUnwatchedIs(per: seq<Episode>, w: Watching)
    requires Separated(per, BySeason)
    ensures var o := FirstUnwatched(per, w);
            || (o.None? && forall e :: e in per ==> w.watched(e.id))
            || (o.Some? && o.value in per && !w.watched(o.value.id)
                && forall e :: e in per && !w.watched(e.id) ==> e == o.value || o.value.season < e.season)
  {
    var sorted := Sorting.Sort(per, BySeason);
    Sorting.SortSorted(per, BySeason);
    FirstKept(sorted, IsUnwatched(w), BySeason);
    forall e ensures e in sorted <==> e in per { Sorting.SortSameElements(per, BySeason, e); }
  }

  lemma OpenIs(show: seq<Episode>, episodes: seq<Episode>, w: Watching)
    requires UniqueKeys(episodes)
    ensures IsFirstOpen(show, episodes, w, FirstUnwatched(Tops(show, episodes, w), w))
  {
    var per := Tops(show, episodes, w);
    TopsAre(show, episodes, w);
    FirstUnwatchedIs(per, w);
    assert forall e :: OpenTop(show, episodes, w, e) <==> e in per && !w.watched(e.id);
  }

  lemma ChosenIsOffered(show: seq<Episode>, episodes: seq<Episode>, w: Watching, m: Episode,
                        next: Option<Episode>, opening: Option<Episode>, open: Option<Episode>)
    requires w.watched(m.id)
    requires IsNext(episodes, m, next) && IsOpening(episodes, m, opening) && IsFirstOpen(show, episodes, w, open)
    ensures Offers(show, episodes, w, m, Choose(next, opening, open, m))
  {}

  /** Nothing is offered exactly when nothing is started; otherwise the offer is the one the
      latest started episode calls for. */
  lemma OfferedIs(show: seq<Episode>, episodes: seq<Episode>, w: Watching)
    requires UniqueKeys(episodes)
    ensures Offered(show, episodes, w).None? <==> forall e :: !Candidate(show, episodes, w, e)
    ensures Offered(show, episodes, w).Some? ==>
              exists m :: LatestStarted(show, episodes, w, m) && Offers(show, episodes, w, m, Offered(show, episodes, w).value)
  {
    ScanFindsLatest(show, episodes, w);
    var latest := Latest(show, episodes, w);
    if latest.Some? && w.watched(latest.value.id) {
      var m := latest.value;
      NextIs(episodes, m);
      OpeningIs(episodes, m);
      OpenIs(show, episodes, w);
      ChosenIsOffered(show, episodes, w, m, NextEpisode(episodes, m), NextOpening(episodes, m),
                      FirstUnwatched(Tops(show, episodes, w), w));
    }
  }

  /** Whatever is offered is an episode of the list. */
  lemma OfferedIsListed(show: seq<Episode>, episodes: seq<Episode>, w: Watching)
    requires UniqueKeys(episodes) && Offered(show, episodes, w).Some?
    ensures Offered(show, episodes, w).value in episodes
  {
    OfferedIs(show, episodes, w);
  }

  ghost predicate NothingStarted(episodes: seq<Episode>, w: Watching) {
    forall e :: e in episodes ==> !IsStarted(w)(e)
  }

  ghost predicate IdListed(show: seq<Episode>, episodes: seq<Episode>, id: string) {
    exists x :: x in episodes && x.id == id && x.season in Seasons(show)
  }

  /** Every id in the list belongs to some episode of a season the show lists. */
  ghost predicate IdsListed(show: seq<Episode>, episodes: seq<Episode>) {
    forall e :: e in episodes ==> IdListed(show, episodes, e.id)
  }

  ghost predicate NoneMeansNothingStarted(show: seq<Episode>, episodes: seq<Episode>, w: Watching) {
    Offered(show, episodes, w).None? <==> NothingStarted(episodes, w)
  }

  lemma OfferedNone(show: seq<Episode>, episodes: seq<Episode>, w: Watching)
    requires UniqueKeys(episodes)
    ensures Offered(show, episodes, w).None? <==> forall e :: !Candidate(show, episodes, w, e)
  {
    OfferedIs(show, episodes, w);
  }

  lemma ListedIdsAreCovered(show: seq<Episode>, episodes: seq<Episode>, w: Watching)
    requires UniqueKeys(episodes) && IdsListed(show, episodes)
    ensures NoneMeansNothingStarted(show, episodes, w)
  {
    OfferedNone(show, episodes, w);
    if !NothingStarted(episodes, w) {
      var e :| e in episodes && IsStarted(w)(e);
      assert IdListed(show, episodes, e.id);
      var x :| x in episodes && x.id == e.id && x.season in Seasons(show);
      assert Candidate(show, episodes, w, x);
    }
  }

  /** Whatever was watched, nothing is offered exactly when nothing is started, if and only if every
      id in the list belongs to some episode of a listed season. */
  lemma NoneMeansNothingStartedExactlyWhen(show: seq<Episode>, episodes: seq<Episode>)
    requires UniqueKeys(episodes)
    ensures (forall w :: NoneMeansNothingStarted(show, episodes, w)) <==> IdsListed(show, episodes)
  {
    if IdsListed(show, episodes) {
      forall w ensures NoneMeansNothingStarted(show, episodes, w) { ListedIdsAreCovered(show, episodes, w); }
    } else {
      var e :| e in episodes && !IdListed(show, episodes, e.id);
      var w := Watching(id => id == e.id, id => 0.0);
      OfferedNone(show, episodes, w);
      assert IsStarted(w)(e);
      assert !NoneMeansNothingStarted(show, episodes, w);
    }
  }

  /** So it is for any part of the show's own episodes, all of them or a season's. */
  lemma OwnEpisodesAreCovered(show: seq<Episode>, episodes: seq<Episode>, w: Watching)
    requires UniqueKeys(episodes) && forall e :: e in episodes ==> e.season in Seasons(show)
    ensures Offered(show, episodes, w).None? <==> NothingStarted(episodes, w)
  {
    ListedIdsAreCovered(show, episodes, w);
  }

  /** A scan of some other list misses every episode of a season the show does not list. */
  lemma UnlistedSeasonsAreMissed(e: Episode, w: Watching)
    requires IsStarted(w)(e)
    ensures Offered([], [e], w).None?
  {
    OfferedIs([], [e], w);
  }
}
