/** The bounded list of recently played magnets (PopcornTime/Model/Session.swift:152-174). */
module RecentlyPlayed {
  import opened Sequences

  const CAPACITY: nat := 20

  function Prefix<T>(s: seq<T>, n: nat): seq<T> {
    if |s| <= n then s else s[..n]
  }

  function Without(list: seq<string>, x: string): seq<string> {
    Filter(list, OtherThan(x))
  }

  function OtherThan(x: string): string -> bool {
    (y: string) => y != x
  }

  function Played(list: seq<string>, magnet: string): seq<string> {
    if magnet == "" then list else Prefix([magnet] + Without(list, magnet), CAPACITY)
  }

  class Session {
    var recentlyPlayedMagnets: seq<string>

    constructor ()
      ensures recentlyPlayedMagnets == []
    {
      recentlyPlayedMagnets := [];
    }

    method RecordRecentlyPlayed(magnetURL: string)
      modifies this
      ensures recentlyPlayedMagnets == Played(old(recentlyPlayedMagnets), magnetURL)
    {
      if magnetURL == "" { return; }
      var list := recentlyPlayedMagnets;
      list := Without(list, magnetURL);
      list := [magnetURL] + list;
      recentlyPlayedMagnets := Prefix(list, CAPACITY);
    }
  }

  /** The list after a history of plays, oldest first. */
  function AfterPlays(history: seq<string>): seq<string> {
    if history == [] then [] else Played(AfterPlays(history[..|history| - 1]), history[|history| - 1])
  }

  /** The whole history, newest first, without empty magnets. */
  function Newest(history: seq<string>): seq<string> {
    if history == [] then []
    else
      var last := history[|history| - 1];
      if last == "" then Newest(history[..|history| - 1]) else [last] + Newest(history[..|history| - 1])
  }

  lemma {:induction false} WithoutAbsent(s: seq<string>, x: string)
    requires x !in s
    ensures Without(s, x) == s
  {
    if s != [] {
      WithoutAbsent(s[1..], x);
      assert s == [s[0]] + s[1..];
    }
  }

  lemma MoveToFrontSnoc(x: string, front: seq<string>, last: string)
    ensures last in [x] + Without(front, x) <==> last in front || last == x
    ensures last !in front && last != x ==> [x] + Without(front + [last], x) == [x] + Without(front, x) + [last]
    ensures last !in front && last == x ==> Without(front + [last], x) == Without(front, x)
  {
    InFilter(front, OtherThan(x), last);
    FilterConcat(front, [last], OtherThan(x));
  }

  /** Putting an element in front of a history moves it to the front of the de-duplicated history. */
  lemma {:induction false} FirstSeenCons(x: string, s: seq<string>)
    ensures FirstSeen([x] + s) == [x] + Without(FirstSeen(s), x)
  {
    if s == [] {
      assert [x] + s == [] + [x];
      FirstSeenSnoc([], x);
    } else {
      var n := |s| - 1;
      FirstSeenCons(x, s[..n]);
      assert s == s[..n] + [s[n]];
      assert [x] + s == ([x] + s[..n]) + [s[n]];
      FirstSeenSnoc(s[..n], s[n]);
      FirstSeenSnoc([x] + s[..n], s[n]);
      MoveToFrontSnoc(x, FirstSeen(s[..n]), s[n]);
    }
  }

  /** Cutting a list short before moving an element to the front loses nothing of what is kept. */
  lemma TruncationCommutes(list: seq<string>, x: string)
    requires Distinct(list)
    ensures Prefix([x] + Without(Prefix(list, CAPACITY), x), CAPACITY) == Prefix([x] + Without(list, x), CAPACITY)
  {
    if |list| > CAPACITY {
      var a, b := list[..CAPACITY], list[CAPACITY..];
      assert list == a + b;
      FilterConcat(a, b, OtherThan(x));
      if x in a {
        DropOne(a, x);
        assert x !in b by { assert forall i :: 0 <= i < |b| ==> b[i] == list[CAPACITY + i]; }
        WithoutAbsent(b, x);
      } else {
        WithoutAbsent(a, x);
      }
    }
  }

  lemma {:induction false} DropOne(s: seq<string>, x: string)
    requires Distinct(s) && x in s
    ensures |Without(s, x)| == |s| - 1
  {
    if s[0] == x {
      assert x !in s[1..] by { assert forall i :: 0 <= i < |s| - 1 ==> s[1..][i] == s[i + 1]; }
      WithoutAbsent(s[1..], x);
    } else {
      DropOne(s[1..], x);
    }
  }

  /** After any plays, the stored list is the first 20 distinct magnets of the whole history,
      newest first: the bounded list refines the unbounded one. */
  lemma {:induction false} StoresNewestDistinct(history: seq<string>)
    ensures AfterPlays(history) == Prefix(FirstSeen(Newest(history)), 20)
  {
    if history != [] {
      var n := |history| - 1;
      var x := history[n];
      StoresNewestDistinct(history[..n]);
      if x != "" {
        var older := Newest(history[..n]);
        FirstSeenDistinct(older);
        TruncationCommutes(FirstSeen(older), x);
        FirstSeenCons(x, older);
      }
    }
  }
}
