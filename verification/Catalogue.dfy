/** Merging catalogue pages and title details
    (PopcornKit/Sources/Managers/MirrorAggregator.swift:320-385). */
module Catalogue {
  import opened Sequences
  import opened Torrents
  import opened MirrorMerge
  import Sorting

  /** Everything but the id and the torrents is held in `info`. */
  datatype Movie = Movie(id: string, info: string, torrents: seq<Torrent>)

  datatype Episode = Episode(season: int, number: int, info: string, torrents: seq<Torrent>)

  datatype Show = Show(id: string, info: string, episodes: seq<Episode>)

  // ---------- Grouping by a key ----------

  function KeyEquals<T, K(==)>(key: T -> K, k: K): T -> bool {
    (x: T) => key(x) == k
  }

  /** The elements with key `k`, in order. */
  function Group<T, K(==)>(s: seq<T>, key: T -> K, k: K): seq<T> {
    Filter(s, KeyEquals(key, k))
  }

  lemma InKeys<T, K>(s: seq<T>, key: T -> K, k: K)
    ensures k in Mapped(s, key) <==> exists x :: x in s && key(x) == k
  {
    if k in Mapped(s, key) {
      var i :| 0 <= i < |s| && Mapped(s, key)[i] == k;
      assert s[i] in s;
    }
    if x :| x in s && key(x) == k {
      var i :| 0 <= i < |s| && s[i] == x;
      assert Mapped(s, key)[i] == k;
    }
  }

  lemma InGroup<T, K>(s: seq<T>, key: T -> K, k: K, x: T)
    ensures x in Group(s, key, k) <==> x in s && key(x) == k
  {
    InFilter(s, KeyEquals(key, k), x);
  }

  lemma {:induction false} GroupNonEmpty<T, K>(s: seq<T>, key: T -> K, k: K)
    ensures Group(s, key, k) != [] <==> k in Mapped(s, key)
  {
    if s != [] {
      var n := |s| - 1;
      GroupNonEmpty(s[..n], key, k);
      FilterSnoc(s, KeyEquals(key, k));
      assert Mapped(s, key) == Mapped(s[..n], key) + [key(s[n])];
    }
  }

  /** The dictionary of groups and the order in which its keys were first seen. */
  datatype Groups<!K, T> = Groups(byKey: map<K, seq<T>>, order: seq<K>)

  /** One pass of the grouping loop. */
  function AddTo<T, K(==)>(g: Groups<K, T>, key: T -> K, x: T): Groups<K, T> {
    var k := key(x);
    if k in g.byKey then Groups(g.byKey[k := g.byKey[k] + [x]], g.order)
    else Groups(g.byKey[k := [x]], g.order + [k])
  }

  function GroupFold<T, K(==)>(s: seq<T>, key: T -> K): Groups<K, T> {
    if s == [] then Groups(map[], []) else AddTo(GroupFold(s[..|s| - 1], key), key, s[|s| - 1])
  }

  lemma KeysSnoc<T, K>(s: seq<T>, key: T -> K, x: T)
    ensures Mapped(s + [x], key) == Mapped(s, key) + [key(x)]
  {}

  /** The loop builds, for every key that occurs, its group, and lists the keys by first occurrence. */
  lemma {:induction false} GroupFoldIs<T, K>(s: seq<T>, key: T -> K, k: K)
    ensures k in GroupFold(s, key).byKey <==> k in Mapped(s, key)
    ensures k in Mapped(s, key) ==> GroupFold(s, key).byKey[k] == Group(s, key, k)
    ensures GroupFold(s, key).order == FirstSeen(Mapped(s, key))
  {
    if s != [] {
      var n := |s| - 1;
      var x := s[n];
      GroupFoldIs(s[..n], key, k);
      GroupFoldIs(s[..n], key, key(x));
      assert s == s[..n] + [x];
      KeysSnoc(s[..n], key, x);
      assert Mapped(s, key)[..n] == Mapped(s[..n], key);
      FirstSeenHas(Mapped(s[..n], key), key(x));
      GroupNonEmpty(s[..n], key, k);
      FilterSnoc(s, KeyEquals(key, k));
    }
  }

  lemma GroupOf<T, K>(s: seq<T>, key: T -> K, k: K)
    requires k in GroupFold(s, key).order
    ensures k in GroupFold(s, key).byKey && GroupFold(s, key).byKey[k] == Group(s, key, k) != []
  {
    GroupFoldIs(s, key, k);
    FirstSeenHas(Mapped(s, key), k);
    GroupNonEmpty(s, key, k);
  }

  lemma GroupFoldNext<T, K>(done: seq<T>, list: seq<T>, j: nat, key: T -> K)
    requires j < |list|
    ensures GroupFold(done + list[..j + 1], key) == AddTo(GroupFold(done + list[..j], key), key, list[j])
  {
    var all := done + list[..j + 1];
    assert all[..|all| - 1] == done + list[..j];
  }

  /** The nested loops that group the elements of all lists by key. */
  method GroupBy<T, K(==)>(lists: seq<seq<T>>, key: T -> K) returns (g: Groups<K, T>)
    ensures g == GroupFold(Flatten(lists), key)
  {
    var groups: map<K, seq<T>>, order: seq<K> := map[], [];
    for i := 0 to |lists|
      invariant Groups(groups, order) == GroupFold(Flatten(lists[..i]), key)
    {
      var list := lists[i];
      ghost var done := Flatten(lists[..i]);
      assert done + list[..0] == done;
      for j := 0 to |list|
        invariant Groups(groups, order) == GroupFold(done + list[..j], key)
      {
        var x := list[j];
        GroupFoldNext(done, list, j, key);
        assert [] + [x] == [x];
        if key(x) !in groups { order := order + [key(x)]; }
        groups := groups[key(x) := (if key(x) in groups then groups[key(x)] else []) + [x]];
      }
      FlattenNext(lists, i);
    }
    assert lists[..|lists|] == lists;
    g := Groups(groups, order);
  }

  // ---------- Movies ----------

  function MovieId(m: Movie): string { m.id }

  function MovieSize(m: Movie): int { |m.torrents| }

  function MovieTorrents(variants: seq<Movie>): seq<seq<Torrent>> {
    seq(|variants|, i requires 0 <= i < |variants| => variants[i].torrents)
  }

  /** The variant with the most torrents, the first on a tie, carrying the torrents of all. */
  ghost predicate MergedMovie(variants: seq<Movie>, m: Movie) {
    && variants != []
    && m == variants[FirstMax(variants, MovieSize)].(torrents := m.torrents)
    && IsMerge(Flatten(MovieTorrents(variants)), m.torrents)
  }

  method MergeMovieInfo(variants: seq<Movie>) returns (r: Option<Movie>)
    ensures variants == [] ==> r == None
    ensures variants != [] ==> r.Some? && MergedMovie(variants, r.value)
  {
    if variants == [] { return None; }
    var canonical := variants[FirstMax(variants, MovieSize)];
    var torrents := BestTorrents(MovieTorrents(variants));
    r := Some(canonical.(torrents := torrents));
  }

  /** The merged page: each id once, in the order first seen, merged from all its variants. */
  ghost predicate MergedMovies(all: seq<Movie>, r: seq<Movie>) {
    && Mapped(r, MovieId) == FirstSeen(Mapped(all, MovieId))
    && AllMerged(all, r)
  }

  ghost predicate AllMerged(all: seq<Movie>, r: seq<Movie>) {
    forall i :: 0 <= i < |r| ==> MovieMergedFrom(all, r[i])
  }

  ghost predicate MovieMergedFrom(all: seq<Movie>, m: Movie) {
    MergedMovie(Group(all, MovieId, m.id), m)
  }

  lemma MergedMovieId(all: seq<Movie>, id: string, m: Movie)
    requires MergedMovie(Group(all, MovieId, id), m)
    ensures m.id == id
  {
    var variants := Group(all, MovieId, id);
    var c := variants[FirstMax(variants, MovieSize)];
    assert c in variants;
    InGroup(all, MovieId, id, c);
  }

  method MergeMovieGroup(ghost all: seq<Movie>, groups: Groups<string, Movie>, id: string) returns (m: Movie)
    requires groups == GroupFold(all, MovieId) && id in groups.order
    ensures m.id == id && MovieMergedFrom(all, m)
  {
    GroupOf(all, MovieId, id);
    var merged := MergeMovieInfo(groups.byKey[id]);
    m := merged.value;
    MergedMovieId(all, id, m);
  }

  method MergeMovies(lists: seq<seq<Movie>>) returns (r: seq<Movie>)
    ensures MergedMovies(Flatten(lists), r)
  {
    ghost var all := Flatten(lists);
    var groups := GroupBy(lists, MovieId);
    var order := groups.order;
    r := [];
    for i := 0 to |order|
      invariant Mapped(r, MovieId) == order[..i]
      invariant AllMerged(all, r)
    {
      var merged := MergeMovieGroup(all, groups, order[i]);
      KeysSnoc(r, MovieId, merged);
      assert order[..i + 1] == order[..i] + [order[i]];
      r := r + [merged];
    }
    assert order[..|order|] == order;
    GroupFoldIs(all, MovieId, "");
  }

  // ---------- Shows ----------

  type EpisodeKey = (int, int)

  function KeyOf(e: Episode): EpisodeKey { (e.season, e.number) }

  predicate KeyLess(a: EpisodeKey, b: EpisodeKey) {
    a.0 < b.0 || (a.0 == b.0 && a.1 < b.1)
  }

  predicate EpisodeLess(a: Episode, b: Episode) {
    KeyLess(KeyOf(a), KeyOf(b))
  }

  function ShowSize(s: Show): int { |s.episodes| }

  function EpisodeTorrents(variants: seq<Episode>): seq<seq<Torrent>> {
    seq(|variants|, i requires 0 <= i < |variants| => variants[i].torrents)
  }

  function EpisodeLists(variants: seq<Show>): seq<seq<Episode>> {
    seq(|variants|, i requires 0 <= i < |variants| => variants[i].episodes)
  }

  /** The first variant of an episode, carrying the torrents of all. */
  ghost predicate MergedEpisode(variants: seq<Episode>, e: Episode) {
    && variants != []
    && e == variants[0].(torrents := e.torrents)
    && IsMerge(Flatten(EpisodeTorrents(variants)), e.torrents)
  }

  /** `e` is merged from all the episodes of `all` with its key. */
  ghost predicate MergedFrom(all: seq<Episode>, e: Episode) {
    MergedEpisode(Group(all, KeyOf, KeyOf(e)), e)
  }

  /** The variant with the most episodes, the first on a tie, carrying every season and episode
      number of any variant exactly once, in increasing order. */
  ghost predicate MergedShow(variants: seq<Show>, s: Show) {
    && variants != []
    && s == variants[FirstMax(variants, ShowSize)].(episodes := s.episodes)
    && MergedEpisodes(Flatten(EpisodeLists(variants)), s.episodes)
  }

  ghost predicate MergedEpisodes(all: seq<Episode>, episodes: seq<Episode>) {
    && Sorting.StrictlySorted(episodes, EpisodeLess)
    && (forall k :: k in Mapped(episodes, KeyOf) <==> k in Mapped(all, KeyOf))
    && (forall e :: e in episodes ==> MergedFrom(all, e))
  }

  method MergeEpisode(variants: seq<Episode>) returns (r: Option<Episode>)
    ensures variants == [] ==> r == None
    ensures variants != [] ==> r.Some? && MergedEpisode(variants, r.value)
  {
    if variants == [] { return None; }
    var torrents := BestTorrents(EpisodeTorrents(variants));
    r := Some(variants[0].(torrents := torrents));
  }

  /** The values of the episode dictionary, in no particular order, each merged. */
  method MergeGroups(ghost all: seq<Episode>, groups: map<EpisodeKey, seq<Episode>>) returns (listed: seq<Episode>)
    requires groups == GroupFold(all, KeyOf).byKey
    ensures Distinct(Mapped(listed, KeyOf))
    ensures forall k :: k in Mapped(listed, KeyOf) <==> k in groups
    ensures forall e :: e in listed ==> MergedFrom(all, e)
  {
    var rest := groups.Keys;
    listed := [];
    while rest != {}
      invariant rest <= groups.Keys
      invariant Distinct(Mapped(listed, KeyOf))
      invariant forall k :: k in Mapped(listed, KeyOf) <==> k in groups && k !in rest
      invariant forall e :: e in listed ==> MergedFrom(all, e)
      decreases rest
    {
      var k :| k in rest;
      GroupFoldIs(all, KeyOf, k);
      GroupNonEmpty(all, KeyOf, k);
      var merged := MergeEpisode(groups[k]);
      MergedEpisodeKey(all, k, merged.value);
      KeysSnoc(listed, KeyOf, merged.value);
      DistinctSnoc(Mapped(listed, KeyOf), k);
      listed := listed + [merged.value];
      rest := rest - {k};
    }
  }

  lemma MergedEpisodeKey(all: seq<Episode>, k: EpisodeKey, e: Episode)
    requires MergedEpisode(Group(all, KeyOf, k), e)
    ensures KeyOf(e) == k
  {
    InGroup(all, KeyOf, k, Group(all, KeyOf, k)[0]);
  }

  lemma SortEpisodes(all: seq<Episode>, listed: seq<Episode>)
    requires Distinct(Mapped(listed, KeyOf))
    requires forall k :: k in Mapped(listed, KeyOf) <==> k in Mapped(all, KeyOf)
    requires forall e :: e in listed ==> MergedFrom(all, e)
    ensures MergedEpisodes(all, Sorting.Sort(listed, EpisodeLess))
  {
    var r := Sorting.Sort(listed, EpisodeLess);
    forall i, j | 0 <= i < j < |listed| ensures EpisodeLess(listed[i], listed[j]) || EpisodeLess(listed[j], listed[i]) {
      assert Mapped(listed, KeyOf)[i] != Mapped(listed, KeyOf)[j];
    }
    Sorting.SortSorted(listed, EpisodeLess);
    forall e ensures e in r <==> e in listed { Sorting.SortSameElements(listed, EpisodeLess, e); }
    SameKeys(r, listed);
  }

  lemma SameKeys(a: seq<Episode>, b: seq<Episode>)
    requires forall e :: e in a <==> e in b
    ensures forall k :: k in Mapped(a, KeyOf) <==> k in Mapped(b, KeyOf)
  {
    forall k ensures k in Mapped(a, KeyOf) <==> k in Mapped(b, KeyOf) {
      InKeys(a, KeyOf, k);
      InKeys(b, KeyOf, k);
    }
  }

  method MergeShowInfo(variants: seq<Show>) returns (r: Option<Show>)
    ensures variants == [] ==> r == None
    ensures variants != [] ==> r.Some? && MergedShow(variants, r.value)
  {
    if variants == [] { return None; }
    var canonical := variants[FirstMax(variants, ShowSize)];
    ghost var all := Flatten(EpisodeLists(variants));
    var groups := GroupBy(EpisodeLists(variants), KeyOf);
    var listed := MergeGroups(all, groups.byKey);
    forall k ensures k in groups.byKey <==> k in Mapped(all, KeyOf) { GroupFoldIs(all, KeyOf, k); }
    SortEpisodes(all, listed);
    r := Some(canonical.(episodes := Sorting.Sort(listed, EpisodeLess)));
  }

  // ---------- Independence of the order of arrival ----------

  lemma InEpisodeLists(variants: seq<Show>, e: Episode)
    ensures e in Flatten(EpisodeLists(variants)) <==> exists v :: v in variants && e in v.episodes
  {
    var lists := EpisodeLists(variants);
    InFlatten(lists, e);
    if i :| 0 <= i < |lists| && e in lists[i] { assert variants[i] in variants; }
    if v :| v in variants && e in v.episodes {
      var i :| 0 <= i < |variants| && variants[i] == v;
      assert e in lists[i];
    }
  }

  lemma InEpisodeTorrents(variants: seq<Episode>, t: Torrent)
    ensures t in Flatten(EpisodeTorrents(variants)) <==> exists e :: e in variants && t in e.torrents
  {
    var lists := EpisodeTorrents(variants);
    InFlatten(lists, t);
    if i :| 0 <= i < |lists| && t in lists[i] { assert variants[i] in variants; }
    if e :| e in variants && t in e.torrents {
      var i :| 0 <= i < |variants| && variants[i] == e;
      assert t in lists[i];
    }
  }

  lemma GroupTorrents(a: seq<Episode>, b: seq<Episode>, k: EpisodeKey)
    requires forall e :: e in a <==> e in b
    ensures Seeds(Flatten(EpisodeTorrents(Group(a, KeyOf, k)))) == Seeds(Flatten(EpisodeTorrents(Group(b, KeyOf, k))))
  {
    var ga, gb := Group(a, KeyOf, k), Group(b, KeyOf, k);
    forall e ensures e in ga <==> e in gb {
      InGroup(a, KeyOf, k, e);
      InGroup(b, KeyOf, k, e);
    }
    forall t ensures t in Flatten(EpisodeTorrents(ga)) <==> t in Flatten(EpisodeTorrents(gb)) {
      InEpisodeTorrents(ga, t);
      InEpisodeTorrents(gb, t);
    }
    SeedsIgnoreOrder(Flatten(EpisodeTorrents(ga)), Flatten(EpisodeTorrents(gb)));
  }

  lemma SortedKeysUnique(a: seq<Episode>, b: seq<Episode>)
    requires Sorting.StrictlySorted(a, EpisodeLess) && Sorting.StrictlySorted(b, EpisodeLess)
    requires forall k :: k in Mapped(a, KeyOf) <==> k in Mapped(b, KeyOf)
    ensures Mapped(a, KeyOf) == Mapped(b, KeyOf)
  {
    Sorting.SortedUnique(Mapped(a, KeyOf), Mapped(b, KeyOf), KeyLess);
  }

  /** Whatever the order in which the variants of a show arrive, and however often each does,
      the merged show lists the same seasons and episodes with the same URLs and seed counts. */
  lemma MergedShowIgnoresOrder(vs: seq<Show>, ws: seq<Show>, s: Show, s': Show)
    requires forall v :: v in vs <==> v in ws
    requires MergedShow(vs, s) && MergedShow(ws, s')
    ensures Mapped(s.episodes, KeyOf) == Mapped(s'.episodes, KeyOf) && |s.episodes| == |s'.episodes|
    ensures forall i :: 0 <= i < |s.episodes| ==> Seeds(s.episodes[i].torrents) == Seeds(s'.episodes[i].torrents)
  {
    var a, b := Flatten(EpisodeLists(vs)), Flatten(EpisodeLists(ws));
    forall e ensures e in a <==> e in b {
      InEpisodeLists(vs, e);
      InEpisodeLists(ws, e);
    }
    SameKeys(a, b);
    SortedKeysUnique(s.episodes, s'.episodes);
    assert |s.episodes| == |Mapped(s.episodes, KeyOf)| && |s'.episodes| == |Mapped(s'.episodes, KeyOf)|;
    forall i | 0 <= i < |s.episodes| ensures Seeds(s.episodes[i].torrents) == Seeds(s'.episodes[i].torrents) {
      var e, e' := s.episodes[i], s'.episodes[i];
      assert Mapped(s.episodes, KeyOf)[i] == KeyOf(e) && Mapped(s'.episodes, KeyOf)[i] == KeyOf(e');
      assert e in s.episodes && e' in s'.episodes;
      EpisodeSeeds(a, e);
      EpisodeSeeds(b, e');
      GroupTorrents(a, b, KeyOf(e));
    }
  }

  lemma EpisodeSeeds(all: seq<Episode>, e: Episode)
    requires MergedFrom(all, e)
    ensures Seeds(e.torrents) == Seeds(Flatten(EpisodeTorrents(Group(all, KeyOf, KeyOf(e)))))
  {
    MergeKeepsBest(Flatten(EpisodeTorrents(Group(all, KeyOf, KeyOf(e)))), e.torrents);
  }

  lemma InMovieTorrents(variants: seq<Movie>, t: Torrent)
    ensures t in Flatten(MovieTorrents(variants)) <==> exists m :: m in variants && t in m.torrents
  {
    var lists := MovieTorrents(variants);
    InFlatten(lists, t);
    if i :| 0 <= i < |lists| && t in lists[i] { assert variants[i] in variants; }
    if m :| m in variants && t in m.torrents {
      var i :| 0 <= i < |variants| && variants[i] == m;
      assert t in lists[i];
    }
  }

  lemma MovieGroupSeeds(a: seq<Movie>, b: seq<Movie>, id: string, m: Movie, m': Movie)
    requires forall x :: x in a <==> x in b
    requires MergedMovie(Group(a, MovieId, id), m) && MergedMovie(Group(b, MovieId, id), m')
    ensures Seeds(m.torrents) == Seeds(m'.torrents)
  {
    var ga, gb := Group(a, MovieId, id), Group(b, MovieId, id);
    forall x ensures x in ga <==> x in gb {
      InGroup(a, MovieId, id, x);
      InGroup(b, MovieId, id, x);
    }
    var ta, tb := Flatten(MovieTorrents(ga)), Flatten(MovieTorrents(gb));
    forall t ensures t in ta <==> t in tb {
      InMovieTorrents(ga, t);
      InMovieTorrents(gb, t);
    }
    SeedsIgnoreOrder(ta, tb);
    MergeKeepsBest(ta, m.torrents);
    MergeKeepsBest(tb, m'.torrents);
  }

  /** A merged page lists each id once; and pages built from the same movies, in whatever order
      and grouping they arrive, list the same ids with the same URLs and seed counts. */
  lemma MergedMoviesIgnoreOrder(a: seq<Movie>, b: seq<Movie>, r: seq<Movie>, r': seq<Movie>)
    requires forall x :: x in a <==> x in b
    requires MergedMovies(a, r) && MergedMovies(b, r')
    ensures Distinct(Mapped(r, MovieId))
    ensures forall id :: id in Mapped(r, MovieId) <==> id in Mapped(r', MovieId)
    ensures forall i, j :: 0 <= i < |r| && 0 <= j < |r'| && r[i].id == r'[j].id
              ==> Seeds(r[i].torrents) == Seeds(r'[j].torrents)
  {
    FirstSeenDistinct(Mapped(a, MovieId));
    forall id ensures id in Mapped(r, MovieId) <==> id in Mapped(r', MovieId) {
      FirstSeenHas(Mapped(a, MovieId), id);
      FirstSeenHas(Mapped(b, MovieId), id);
      InKeys(a, MovieId, id);
      InKeys(b, MovieId, id);
    }
    forall i, j | 0 <= i < |r| && 0 <= j < |r'| && r[i].id == r'[j].id
      ensures Seeds(r[i].torrents) == Seeds(r'[j].torrents)
    {
      MovieGroupSeeds(a, b, r[i].id, r[i], r'[j]);
    }
  }

  // ---------- Which variant is chosen, and how episodes are ordered ----------

  /** A merged movie carries the details of the first variant that has the most torrents. */
  lemma RichestMovieIsChosen(variants: seq<Movie>, m: Movie)
    requires MergedMovie(variants, m)
    ensures exists i :: 0 <= i < |variants| && m.id == variants[i].id && m.info == variants[i].info
              && (forall j :: 0 <= j < |variants| ==> |variants[j].torrents| <= |variants[i].torrents|)
              && (forall j :: 0 <= j < i ==> |variants[j].torrents| < |variants[i].torrents|)
  {
    var i := FirstMax(variants, MovieSize);
    assert forall j :: 0 <= j < |variants| ==> MovieSize(variants[j]) <= MovieSize(variants[i]);
    assert forall j :: 0 <= j < i ==> MovieSize(variants[j]) < MovieSize(variants[i]);
  }

  /** A merged show carries the details of the first variant that has the most episodes. */
  lemma RichestShowIsChosen(variants: seq<Show>, s: Show)
    requires MergedShow(variants, s)
    ensures exists i :: 0 <= i < |variants| && s.id == variants[i].id && s.info == variants[i].info
              && (forall j :: 0 <= j < |variants| ==> |variants[j].episodes| <= |variants[i].episodes|)
              && (forall j :: 0 <= j < i ==> |variants[j].episodes| < |variants[i].episodes|)
  {
    var i := FirstMax(variants, ShowSize);
    assert forall j :: 0 <= j < |variants| ==> ShowSize(variants[j]) <= ShowSize(variants[i]);
    assert forall j :: 0 <= j < i ==> ShowSize(variants[j]) < ShowSize(variants[i]);
  }

  /** Its episodes come by season and then by number, no two alike. */
  lemma MergedEpisodesIncrease(variants: seq<Show>, s: Show, i: nat, j: nat)
    requires MergedShow(variants, s) && i < j < |s.episodes|
    ensures s.episodes[i].season <= s.episodes[j].season
    ensures s.episodes[i].season == s.episodes[j].season ==> s.episodes[i].number < s.episodes[j].number
  {
    assert EpisodeLess(s.episodes[i], s.episodes[j]);
  }

  /** Every season and number any variant has is there, and none else. */
  lemma MergedEpisodesCover(variants: seq<Show>, s: Show, season: int, number: int)
    requires MergedShow(variants, s)
    ensures (exists e :: e in s.episodes && e.season == season && e.number == number)
            <==> exists v, e :: v in variants && e in v.episodes && e.season == season && e.number == number
  {
    var all := Flatten(EpisodeLists(variants));
    InKeys(s.episodes, KeyOf, (season, number));
    InKeys(all, KeyOf, (season, number));
    if e :| e in all && KeyOf(e) == (season, number) {
      InEpisodeLists(variants, e);
    }
    if v, e :| v in variants && e in v.episodes && e.season == season && e.number == number {
      InEpisodeLists(variants, e);
      assert KeyOf(e) == (season, number);
    }
    if e :| e in s.episodes && e.season == season && e.number == number { assert KeyOf(e) == (season, number); }
  }
}
