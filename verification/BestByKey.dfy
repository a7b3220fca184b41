/** The loop the program uses wherever it keeps one element per key: an element replaces the
    one held under its key only with a higher score. */
module BestByKey {
  import opened Sequences

  function Keep<T, K(==)>(m: map<K, T>, t: T, key: T -> K, score: T -> int): map<K, T> {
    if key(t) in m && score(m[key(t)]) >= score(t) then m else m[key(t) := t]
  }

  function Best<T, K(==)>(s: seq<T>, key: T -> K, score: T -> int): map<K, T> {
    if s == [] then map[] else Keep(Best(s[..|s| - 1], key, score), s[|s| - 1], key, score)
  }

  lemma BestSnoc<T, K>(s: seq<T>, t: T, key: T -> K, score: T -> int)
    ensures Best(s + [t], key, score) == Keep(Best(s, key, score), t, key, score)
  {
    assert (s + [t])[..|s|] == s;
  }

  /** Position `i` holds the first of the elements with key `k` that score highest. */
  ghost predicate FirstBest<T, K>(s: seq<T>, key: T -> K, score: T -> int, k: K, i: int) {
    && 0 <= i < |s| && key(s[i]) == k
    && (forall j :: 0 <= j < |s| && key(s[j]) == k ==> score(s[j]) <= score(s[i]))
    && (forall j :: 0 <= j < i && key(s[j]) == k ==> score(s[j]) < score(s[i]))
  }

  /** What the loop computes, for every input: exactly the keys that occur, each with the first
      element of highest score. */
  lemma {:induction false} BestIsFirstBest<T, K>(s: seq<T>, key: T -> K, score: T -> int, k: K)
    ensures k in Best(s, key, score) <==> HasKey(s, key, k)
    ensures k in Best(s, key, score) ==> exists i :: FirstBest(s, key, score, k, i) && s[i] == Best(s, key, score)[k]
  {
    if s != [] {
      var n := |s| - 1;
      var front := s[..n];
      var before := Best(front, key, score);
      BestIsFirstBest(front, key, score, k);
      assert s == front + [s[n]];
      if k in Best(s, key, score) {
        if k in before && !(key(s[n]) == k && score(before[k]) < score(s[n])) {
          var i :| FirstBest(front, key, score, k, i) && front[i] == before[k];
          assert FirstBest(s, key, score, k, i);
        } else {
          assert key(s[n]) == k;
          assert FirstBest(s, key, score, k, n) by {
            if k in before {
              var i :| FirstBest(front, key, score, k, i) && front[i] == before[k];
              assert forall j :: 0 <= j < n && key(s[j]) == k ==> score(front[j]) <= score(front[i]);
            } else {
              assert forall j :: 0 <= j < n ==> s[j] in front;
            }
          }
        }
      }
    }
  }

  lemma BestEntry<T, K>(s: seq<T>, key: T -> K, score: T -> int, k: K)
    requires k in Best(s, key, score)
    ensures var t := Best(s, key, score)[k];
            t in s && key(t) == k && forall x :: x in s && key(x) == k ==> score(x) <= score(t)
  {
    BestIsFirstBest(s, key, score, k);
    var i :| FirstBest(s, key, score, k, i) && s[i] == Best(s, key, score)[k];
    assert s[i] in s;
  }

  lemma BestCovers<T, K>(s: seq<T>, key: T -> K, score: T -> int, t: T)
    requires t in s
    ensures key(t) in Best(s, key, score) && score(Best(s, key, score)[key(t)]) >= score(t)
  {
    BestIsFirstBest(s, key, score, key(t));
    BestEntry(s, key, score, key(t));
  }

  lemma FirstBestUnique<T, K>(s: seq<T>, key: T -> K, score: T -> int, k: K, i: int, j: int)
    requires FirstBest(s, key, score, k, i) && FirstBest(s, key, score, k, j)
    ensures i == j
  {}

  /** The flat form of the loop. */
  method DedupFlat<T, K(==)>(collected: seq<T>, key: T -> K, score: T -> int) returns (m: map<K, T>)
    ensures m == Best(collected, key, score)
  {
    m := map[];
    for i := 0 to |collected|
      invariant m == Best(collected[..i], key, score)
    {
      var t := collected[i];
      assert collected[..i + 1] == collected[..i] + [t];
      BestSnoc(collected[..i], t, key, score);
      if key(t) in m && score(m[key(t)]) >= score(t) { continue; }
      m := m[key(t) := t];
    }
    assert collected[..|collected|] == collected;
  }

  lemma BestNext<T, K>(done: seq<T>, list: seq<T>, j: nat, key: T -> K, score: T -> int)
    requires j < |list|
    ensures Best(done + list[..j + 1], key, score) == Keep(Best(done + list[..j], key, score), list[j], key, score)
  {
    assert done + list[..j + 1] == done + list[..j] + [list[j]];
    BestSnoc(done + list[..j], list[j], key, score);
  }

  /** The nested form of the loop: the same result as the flat one on all lists together. */
  method DedupLists<T, K(==)>(lists: seq<seq<T>>, key: T -> K, score: T -> int) returns (m: map<K, T>)
    ensures m == Best(Flatten(lists), key, score)
  {
    m := map[];
    for i := 0 to |lists|
      invariant m == Best(Flatten(lists[..i]), key, score)
    {
      var list := lists[i];
      ghost var done := Flatten(lists[..i]);
      assert done + list[..0] == done;
      for j := 0 to |list|
        invariant m == Best(done + list[..j], key, score)
      {
        var t := list[j];
        BestNext(done, list, j, key, score);
        if key(t) in m && score(m[key(t)]) >= score(t) { continue; }
        m := m[key(t) := t];
      }
      FlattenNext(lists, i);
    }
    assert lists[..|lists|] == lists;
  }

  /** `r` lists the entries of `m`, each once, in some order. */
  ghost predicate Lists<T(!new), K>(m: map<K, T>, key: T -> K, r: seq<T>) {
    Distinct(r) && forall t :: t in r <==> key(t) in m && m[key(t)] == t
  }

  /** `Array(m.values)`: every entry once, in no particular order. */
  method Values<T(==,!new), K(==)>(m: map<K, T>, key: T -> K) returns (listed: seq<T>)
    requires forall k :: k in m ==> key(m[k]) == k
    ensures Lists(m, key, listed)
  {
    var rest := m.Keys;
    listed := [];
    while rest != {}
      invariant rest <= m.Keys && Distinct(listed)
      invariant forall t :: t in listed <==> key(t) in m && key(t) !in rest && m[key(t)] == t
      decreases rest
    {
      var k :| k in rest;
      assert m[k] !in listed;
      DistinctSnoc(listed, m[k]);
      listed := listed + [m[k]];
      rest := rest - {k};
    }
  }
}
