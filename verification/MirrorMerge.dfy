/** Merging what several mirrors return (PopcornKit/Sources/Managers/MirrorAggregator.swift).
    Responses arrive in the order the requests finish, so the results that matter are the
    ones that do not depend on that order. */
module MirrorMerge {
  import opened Sequences
  import opened Torrents
  import Sorting
  import BestByKey

  // ---------- One torrent per URL ----------

  type ByUrl = map<string, Torrent>

  function Url(t: Torrent): string { t.url }

  function SeedCount(t: Torrent): int { t.seeds }

  /** The dedup loop: per URL, the first torrent with the most seeds. The flat and the nested
      copies of the loop compute it alike. */
  function Best(s: seq<Torrent>): ByUrl {
    BestByKey.Best(s, Url, SeedCount)
  }

  function Keep(m: ByUrl, t: Torrent): ByUrl {
    BestByKey.Keep(m, t, Url, SeedCount)
  }

  ghost predicate HasUrl(s: seq<Torrent>, url: string) {
    HasKey(s, Url, url)
  }

  lemma UrlsOccur(s: seq<Torrent>, url: string)
    ensures url in Best(s) <==> HasUrl(s, url)
  {
    BestByKey.BestIsFirstBest(s, Url, SeedCount, url);
  }

  // ---------- Merging is a join ----------

  /** Two merged maps together: more seeds win, the left one on a tie. */
  function MergeMaps(a: ByUrl, b: ByUrl): ByUrl {
    map u | u in a.Keys + b.Keys :: if u in a && (u !in b || a[u].seeds >= b[u].seeds) then a[u] else b[u]
  }

  lemma MergeKeep(a: ByUrl, b: ByUrl, t: Torrent)
    ensures MergeMaps(a, Keep(b, t)) == Keep(MergeMaps(a, b), t)
  {
    var l, r := MergeMaps(a, Keep(b, t)), Keep(MergeMaps(a, b), t);
    assert l.Keys == r.Keys;
    forall u | u in l ensures l[u] == r[u] {
      if u != t.url {
        assert r[u] == MergeMaps(a, b)[u];
      }
    }
  }

  /** Responses can be merged in stages: merging a concatenation merges the merged parts. */
  lemma {:induction false} BestConcat(a: seq<Torrent>, b: seq<Torrent>)
    ensures Best(a + b) == MergeMaps(Best(a), Best(b))
  {
    if b == [] {
      assert a + b == a;
    } else {
      var n := |b| - 1;
      BestConcat(a, b[..n]);
      assert a + b == (a + b[..n]) + [b[n]];
      BestByKey.BestSnoc(a + b[..n], b[n], Url, SeedCount);
      MergeKeep(Best(a), Best(b[..n]), b[n]);
    }
  }

  lemma UrlsMatch(s: seq<Torrent>)
    ensures forall u :: u in Best(s) ==> Best(s)[u].url == u
  {
    forall u | u in Best(s) ensures Best(s)[u].url == u { BestByKey.BestEntry(s, Url, SeedCount, u); }
  }

  /** The part of a merge that does not depend on the order of arrival: URL to seed count. */
  function Seeds(s: seq<Torrent>): map<string, int> {
    map u | u in Best(s) :: Best(s)[u].seeds
  }

  function Join(a: map<string, int>, b: map<string, int>): map<string, int> {
    map u | u in a.Keys + b.Keys :: if u in a && (u !in b || a[u] >= b[u]) then a[u] else b[u]
  }

  /** Independent reading of `Seeds`: `v` is the largest seed count listed under `u`. */
  ghost predicate MostSeeds(s: seq<Torrent>, u: string, v: int) {
    && (exists t :: t in s && t.url == u && t.seeds == v)
    && (forall t :: t in s && t.url == u ==> t.seeds <= v)
  }

  lemma BestEntry(s: seq<Torrent>, u: string)
    requires u in Best(s)
    ensures Best(s)[u] in s && Best(s)[u].url == u && MostSeeds(s, u, Best(s)[u].seeds)
  {
    BestByKey.BestEntry(s, Url, SeedCount, u);
    forall t | t in s && t.url == u ensures t.seeds <= Best(s)[u].seeds {
      assert Url(t) == u && SeedCount(t) <= SeedCount(Best(s)[u]);
    }
  }

  lemma SeedsAreMost(s: seq<Torrent>, u: string, v: int)
    ensures u in Seeds(s) && Seeds(s)[u] == v <==> MostSeeds(s, u, v)
  {
    UrlsOccur(s, u);
    if u in Best(s) { BestEntry(s, u); }
  }

  lemma SeedsJoin(a: seq<Torrent>, b: seq<Torrent>)
    ensures Seeds(a + b) == Join(Seeds(a), Seeds(b))
  {
    BestConcat(a, b);
  }

  /** The seed map is the same for any responses with the same torrents: any order of arrival,
      any repetition, any grouping into lists. */
  lemma SeedsIgnoreOrder(a: seq<Torrent>, b: seq<Torrent>)
    requires forall t :: t in a <==> t in b
    ensures Seeds(a) == Seeds(b)
  {
    forall u ensures u in Seeds(a) <==> u in Seeds(b) {
      UrlsOccur(a, u);
      UrlsOccur(b, u);
    }
    forall u | u in Seeds(a) ensures Seeds(a)[u] == Seeds(b)[u] {
      SeedsAreMost(a, u, Seeds(a)[u]);
      SeedsAreMost(b, u, Seeds(a)[u]);
    }
  }

  /** The whole merged entries are the same for every order of the responses if and only if
      torrents that tie for the most seeds of a URL are equal: a tie goes to whichever came first. */
  ghost predicate TiesAgree(s: seq<Torrent>) {
    forall t, t' :: t in s && t' in s && t.url == t'.url && t.seeds == t'.seeds && MostSeeds(s, t.url, t.seeds) ==> t == t'
  }

  ghost predicate OrderIndependent(s: seq<Torrent>) {
    forall p :: multiset(p) == multiset(s) ==> Best(p) == Best(s)
  }

  lemma SameElements(p: seq<Torrent>, s: seq<Torrent>)
    requires multiset(p) == multiset(s)
    ensures forall t :: t in p <==> t in s
  {
    assert forall t :: t in p <==> t in multiset(p);
    assert forall t :: t in s <==> t in multiset(s);
  }

  lemma SameEntry(s: seq<Torrent>, p: seq<Torrent>, u: string)
    requires TiesAgree(s) && multiset(p) == multiset(s) && u in Best(s) && u in Best(p)
    requires Best(p)[u].seeds == Best(s)[u].seeds
    ensures Best(p)[u] == Best(s)[u]
  {
    BestEntry(p, u);
    BestEntry(s, u);
    assert Best(p)[u] in multiset(p);
  }

  lemma SameSeeds(s: seq<Torrent>, p: seq<Torrent>)
    requires multiset(p) == multiset(s)
    ensures Best(p).Keys == Best(s).Keys && forall u :: u in Best(s) ==> Best(p)[u].seeds == Best(s)[u].seeds
  {
    SameElements(p, s);
    SeedsIgnoreOrder(p, s);
    assert Best(p).Keys == Seeds(p).Keys && Best(s).Keys == Seeds(s).Keys;
    assert forall u :: u in Best(s) ==> Best(s)[u].seeds == Seeds(s)[u] && Best(p)[u].seeds == Seeds(p)[u];
  }

  lemma AgreeingTiesSuffice(s: seq<Torrent>, p: seq<Torrent>)
    requires TiesAgree(s) && multiset(p) == multiset(s)
    ensures Best(p) == Best(s)
  {
    SameSeeds(s, p);
    forall u | u in Best(s) ensures Best(p)[u] == Best(s)[u] {
      SameEntry(s, p, u);
    }
  }

  /** Moving one of the tied torrents to the front makes it win. */
  lemma FrontWins(t: Torrent, rest: seq<Torrent>)
    requires forall x :: x in rest && x.url == t.url ==> x.seeds <= t.seeds
    ensures t.url in Best([t] + rest) && Best([t] + rest)[t.url] == t
  {
    var p := [t] + rest;
    assert p[0] in p;
    UrlsOccur(p, t.url);
    BestByKey.BestIsFirstBest(p, Url, SeedCount, t.url);
    var i :| BestByKey.FirstBest(p, Url, SeedCount, t.url, i) && p[i] == Best(p)[t.url];
    assert BestByKey.FirstBest(p, Url, SeedCount, t.url, 0) by {
      assert forall j :: 0 < j < |p| ==> p[j] in rest;
    }
    BestByKey.FirstBestUnique(p, Url, SeedCount, t.url, 0, i);
  }

  lemma ToFront(s: seq<Torrent>, t: Torrent) returns (rest: seq<Torrent>)
    requires t in s
    ensures multiset([t] + rest) == multiset(s)
    ensures forall x :: x in rest ==> x in s
  {
    var i :| 0 <= i < |s| && s[i] == t;
    rest := s[..i] + s[i + 1..];
    assert s == s[..i] + [t] + s[i + 1..];
  }

  lemma OrderIndependentExactlyWhenTiesAgree(s: seq<Torrent>)
    ensures OrderIndependent(s) <==> TiesAgree(s)
  {
    if TiesAgree(s) {
      forall p | multiset(p) == multiset(s) ensures Best(p) == Best(s) { AgreeingTiesSuffice(s, p); }
    } else {
      var t, t' :| t in s && t' in s && t.url == t'.url && t.seeds == t'.seeds && MostSeeds(s, t.url, t.seeds) && t != t';
      var p := TiedWinner(s, t);
      var p' := TiedWinner(s, t');
      assert Best(p) != Best(p');
    }
  }

  lemma TiedWinner(s: seq<Torrent>, t: Torrent) returns (p: seq<Torrent>)
    requires t in s && MostSeeds(s, t.url, t.seeds)
    ensures multiset(p) == multiset(s) && t.url in Best(p) && Best(p)[t.url] == t
  {
    var rest := ToFront(s, t);
    FrontWins(t, rest);
    p := [t] + rest;
  }

  // ---------- The merged list ----------

  /** `r` lists the merged entries of `s`, each once, in some order. */
  ghost predicate IsMerge(s: seq<Torrent>, r: seq<Torrent>) {
    Distinct(r) && forall t :: t in r <==> t.url in Best(s) && Best(s)[t.url] == t
  }

  /** A merged list has one entry per URL, and its URLs are those of the input. */
  lemma OneEntryPerUrl(s: seq<Torrent>, r: seq<Torrent>)
    requires IsMerge(s, r)
    ensures forall i, j :: 0 <= i < j < |r| ==> r[i].url != r[j].url
    ensures forall u :: HasUrl(r, u) <==> HasUrl(s, u)
  {
    forall i, j | 0 <= i < j < |r| ensures r[i].url != r[j].url {
      assert r[i] in r && r[j] in r;
    }
    UrlsMatch(s);
    forall u ensures HasUrl(r, u) <==> HasUrl(s, u) {
      UrlsOccur(s, u);
      UrlsOccur(r, u);
      assert u in Best(s) ==> Best(s)[u] in r;
    }
  }

  /** A merged list stands for the whole input: merging it again gives the same entries. */
  lemma MergeKeepsBest(s: seq<Torrent>, r: seq<Torrent>)
    requires IsMerge(s, r)
    ensures Best(r) == Best(s) && Seeds(r) == Seeds(s)
  {
    UrlsMatch(s);
    forall u ensures u in Best(r) <==> u in Best(s) {
      UrlsOccur(r, u);
      assert u in Best(s) ==> Best(s)[u] in r;
    }
    forall u | u in Best(s) ensures Best(r)[u] == Best(s)[u] {
      BestEntry(r, u);
    }
  }

  /** Merging responses in stages gives what merging them at once gives. */
  lemma StagedMerge(a: seq<Torrent>, b: seq<Torrent>, ra: seq<Torrent>, rb: seq<Torrent>)
    requires IsMerge(a, ra) && IsMerge(b, rb)
    ensures Best(ra + rb) == Best(a + b)
  {
    MergeKeepsBest(a, ra);
    MergeKeepsBest(b, rb);
    BestConcat(ra, rb);
    BestConcat(a, b);
  }

  /** The values of the dictionary in some order, sorted by a comparison that may leave ties. */
  method BestTorrents(lists: seq<seq<Torrent>>) returns (r: seq<Torrent>)
    ensures IsMerge(Flatten(lists), r)
    ensures Sorting.WeakOn(Precedes, Flatten(lists)) ==> Sorting.Sorted(r, Precedes)
  {
    var byUrl := BestByKey.DedupLists(lists, Url, SeedCount);
    r := SortedValues(Flatten(lists), byUrl);
  }

  /** The same from the flat copy of the loop, as in `parseTorrentsResponse` and the movie
      initialiser. */
  method ParsedTorrents(collected: seq<Torrent>) returns (r: seq<Torrent>)
    ensures IsMerge(collected, r)
    ensures Sorting.WeakOn(Precedes, collected) ==> Sorting.Sorted(r, Precedes)
  {
    var byUrl := BestByKey.DedupFlat(collected, Url, SeedCount);
    r := SortedValues(collected, byUrl);
  }

  method SortedValues(ghost s: seq<Torrent>, byUrl: ByUrl) returns (r: seq<Torrent>)
    requires byUrl == Best(s)
    ensures IsMerge(s, r)
    ensures Sorting.WeakOn(Precedes, s) ==> Sorting.Sorted(r, Precedes)
  {
    UrlsMatch(s);
    var values := BestByKey.Values(byUrl, Url);
    r := Sorting.Sort(values, Precedes);
    Sorting.SortDistinct(values, Precedes);
    forall t ensures t in r <==> t in values { Sorting.SortSameElements(values, Precedes, t); }
    if Sorting.WeakOn(Precedes, s) {
      forall t | t in values ensures t in s { BestEntry(s, t.url); }
      Sorting.SortWeak(values, Precedes, s);
    }
  }
}
