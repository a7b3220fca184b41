/** Adding the forced trackers to a magnet link
    (PopcornKit/Sources/Models/Torrent.swift:255-298, PopcornKit/Sources/Managers/YTSApi.swift:219-227;
    magnet URI format of BEP 9). The list of forced trackers is a parameter. */
module MagnetTrackers {
  import opened Sequences
  import opened PercentEncoding
  import HtmlDecoding

  predicate StartsWith(s: string, p: string) {
    |s| >= |p| && s[..|p|] == p
  }

  predicate EndsWith(s: string, p: string) {
    |s| >= |p| && s[|s| - |p|..] == p
  }

  predicate IsMagnet(s: string) {
    |s| >= 7 && Lower(s[..7]) == "magnet:"
  }

  /** Replaces every `&amp;`, from the left and without overlap, by `&`. */
  function Normalize(s: string): string {
    if s == [] then []
    else if StartsWith(s, HtmlDecoding.AMP) then ['&'] + Normalize(s[5..])
    else [s[0]] + Normalize(s[1..])
  }

  predicate HasAmp(s: string) {
    s != [] && (StartsWith(s, HtmlDecoding.AMP) || HasAmp(s[1..]))
  }

  /** Trackers are compared without query, `/announce`, final slash and case. */
  function TrackerKey(tracker: string): string {
    var t := Split(tracker, '?')[0];
    var t := if EndsWith(t, "/announce") then t[..|t| - 9] else t;
    var t := if EndsWith(t, "/") then t[..|t| - 1] else t;
    Lower(t)
  }

  /** The key of a `tr=` component with a decodable value. */
  function ComponentKey(c: string): Option<string> {
    if !StartsWith(c, "tr=") then None
    else match RemovingPercentEncoding(c[3..])
      case None => None
      case Some(tracker) => Some(TrackerKey(tracker))
  }

  function Singleton(k: Option<string>): set<string> {
    if k.Some? then {k.value} else {}
  }

  function KeysBy(components: seq<string>, key: string -> Option<string>): set<string> {
    if components == [] then {}
    else KeysBy(components[..|components| - 1], key) + Singleton(key(components[|components| - 1]))
  }

  function Existing(magnet: string): set<string> {
    KeysBy(Split(magnet, '&'), ComponentKey)
  }

  function Component(tracker: string): string {
    "tr=" + AddingPercentEncoding(tracker, UrlQueryAllowed)
  }

  /** The elements whose key is neither present nor that of an earlier one, in order. */
  function MissingBy(existing: set<string>, forced: seq<string>, key: string -> string): seq<string>
    decreases |forced|
  {
    if forced == [] then []
    else if key(forced[0]) in existing then MissingBy(existing, forced[1..], key)
    else [forced[0]] + MissingBy(existing + {key(forced[0])}, forced[1..], key)
  }

  /** The forced trackers still to be added, in order. */
  function Missing(existing: set<string>, forced: seq<string>): seq<string> {
    MissingBy(existing, forced, TrackerKey)
  }

  function Components(trackers: seq<string>): (cs: seq<string>)
    ensures |cs| == |trackers| && forall i :: 0 <= i < |cs| ==> cs[i] == Component(trackers[i])
  {
    seq(|trackers|, i requires 0 <= i < |trackers| => Component(trackers[i]))
  }

  function SuffixOf(components: seq<string>): string {
    if components == [] then [] else ['&'] + components[0] + SuffixOf(components[1..])
  }

  function Suffix(trackers: seq<string>): string {
    SuffixOf(Components(trackers))
  }

  lemma SuffixCons(tracker: string, rest: seq<string>)
    ensures Suffix([tracker] + rest) == ['&'] + Component(tracker) + Suffix(rest)
  {
    assert Components([tracker] + rest) == [Component(tracker)] + Components(rest);
    assert ([Component(tracker)] + Components(rest))[1..] == Components(rest);
  }

  function Augmented(raw: string, forced: seq<string>): string {
    if !IsMagnet(raw) then raw
    else
      var normalized := Normalize(raw);
      normalized + Suffix(Missing(Existing(normalized), forced))
  }

  // ---------- When two trackers are the same ----------

  /** A bare tracker address: no query, no final slash, no `/announce`. */
  predicate Bare(host: string) {
    '?' !in host && !EndsWith(host, "/") && !EndsWith(host, "/announce")
  }

  lemma EndsWithTail(s: string, p: string)
    ensures EndsWith(s + p, p) && (s + p)[..|s|] == s
  {}

  lemma DropQuery(t: string, query: string)
    requires '?' !in t
    ensures Split(t, '?')[0] == t && Split(t + "?" + query, '?')[0] == t
  {
    SplitWithout(t, '?');
    SplitAtFirst(t, '?', query);
  }

  lemma KeyIgnoresQuery(t: string, query: string)
    requires '?' !in t
    ensures TrackerKey(t + "?" + query) == TrackerKey(t)
  {
    DropQuery(t, query);
  }

  lemma KeyOfAnnounce(host: string)
    requires Bare(host)
    ensures '?' !in host + "/announce" && TrackerKey(host + "/announce") == Lower(host)
  {
    var t := host + "/announce";
    assert '?' !in t;
    SplitWithout(t, '?');
    EndsWithTail(host, "/announce");
  }

  lemma KeyOfSlash(host: string)
    requires Bare(host)
    ensures '?' !in host + "/" && TrackerKey(host + "/") == Lower(host)
  {
    var t := host + "/";
    assert '?' !in t;
    SplitWithout(t, '?');
    EndsWithTail(host, "/");
    assert !EndsWith(t, "/announce") by {
      if |t| >= 9 { assert t[|t| - 9..][8] == '/' && "/announce"[8] == 'e'; }
    }
  }

  /** All the spellings of a tracker have one key: with or without a final slash or `/announce`,
      and with any query after that. */
  lemma SpellingsShareAKey(host: string, query: string)
    requires Bare(host)
    ensures TrackerKey(host) == TrackerKey(host + "/") == TrackerKey(host + "/announce") == Lower(host)
    ensures TrackerKey(host + "?" + query) == TrackerKey(host + "/announce" + "?" + query) == Lower(host)
  {
    SplitWithout(host, '?');
    KeyOfSlash(host);
    KeyOfAnnounce(host);
    KeyIgnoresQuery(host, query);
    KeyIgnoresQuery(host + "/announce", query);
  }

  // ---------- The loops ----------

  lemma KeysBySnoc(components: seq<string>, c: string, key: string -> Option<string>)
    ensures KeysBy(components + [c], key) == KeysBy(components, key) + Singleton(key(c))
  {
    assert (components + [c])[..|components|] == components;
  }

  method AugmentMagnetWithForcedTrackers(raw: string, forced: seq<string>) returns (result: string)
    ensures result == Augmented(raw, forced)
  {
    if !IsMagnet(raw) { return raw; }
    var normalized := Normalize(raw);
    var components := Split(normalized, '&');
    var existing: set<string> := {};
    for i := 0 to |components|
      invariant existing == KeysBy(components[..i], ComponentKey)
    {
      var component := components[i];
      assert components[..i + 1] == components[..i] + [component];
      KeysBySnoc(components[..i], component, ComponentKey);
      if !StartsWith(component, "tr=") { continue; }
      var decoded := RemovingPercentEncoding(component[3..]);
      if decoded.Some? { existing := existing + {TrackerKey(decoded.value)}; }
    }
    assert components[..|components|] == components;
    result := AppendTrackers(normalized, existing, forced);
  }

  /** One pass of the loop over the forced trackers. */
  lemma SuffixNext(existing: set<string>, forced: seq<string>, i: nat)
    requires i < |forced|
    ensures var key := TrackerKey(forced[i]);
            Suffix(Missing(existing, forced[i..])) ==
              if key in existing then Suffix(Missing(existing, forced[i + 1..]))
              else ['&'] + Component(forced[i]) + Suffix(Missing(existing + {key}, forced[i + 1..]))
  {
    assert forced[i..][0] == forced[i] && forced[i..][1..] == forced[i + 1..];
    SuffixCons(forced[i], Missing(existing + {TrackerKey(forced[i])}, forced[i + 1..]));
  }

  /** `result` still lacks the trackers missing from position `i` on to become `goal`. */
  ghost predicate Remains(result: string, existing: set<string>, forced: seq<string>, i: nat, goal: string)
    requires i <= |forced|
  {
    result + Suffix(Missing(existing, forced[i..])) == goal
  }

  lemma Regroup(a: string, b: string, c: string)
    ensures a + (b + c) == (a + b) + c
  {}

  lemma RemainsNext(result: string, existing: set<string>, forced: seq<string>, i: nat, goal: string)
    requires i < |forced| && Remains(result, existing, forced, i, goal)
    ensures var key := TrackerKey(forced[i]);
            if key in existing then Remains(result, existing, forced, i + 1, goal)
            else Remains(result + (['&'] + Component(forced[i])), existing + {key}, forced, i + 1, goal)
  {
    SuffixNext(existing, forced, i);
    Regroup(result, ['&'] + Component(forced[i]), Suffix(Missing(existing + {TrackerKey(forced[i])}, forced[i + 1..])));
  }

  lemma RemainsAtEnds(normalized: string, existing: set<string>, forced: seq<string>)
    ensures Remains(normalized, existing, forced, 0, normalized + Suffix(Missing(existing, forced)))
    ensures forall result, goal :: Remains(result, existing, forced, |forced|, goal) ==> result == goal
  {
    assert forced[0..] == forced && Suffix(Missing(existing, forced[|forced|..])) == [];
  }

  method AppendTrackers(normalized: string, present: set<string>, forced: seq<string>) returns (result: string)
    ensures result == normalized + Suffix(Missing(present, forced))
  {
    ghost var goal := normalized + Suffix(Missing(present, forced));
    RemainsAtEnds(normalized, present, forced);
    var existing := present;
    result := normalized;
    for i := 0 to |forced|
      invariant Remains(result, existing, forced, i, goal)
    {
      RemainsNext(result, existing, forced, i, goal);
      var key := TrackerKey(forced[i]);
      if key in existing { continue; }
      result := result + (['&'] + Component(forced[i]));
      existing := existing + {key};
    }
    RemainsAtEnds(normalized, existing, forced);
  }

  // ---------- Components of an augmented magnet ----------

  lemma LongerFirstPiece(c: char, rest: seq<string>, more: seq<string>)
    requires rest != []
    ensures ([[c] + rest[0]] + rest[1..]) + more == [[c] + (rest + more)[0]] + (rest + more)[1..]
    ensures ([[]] + rest) + more == [[]] + (rest + more)
  {
    assert (rest + more)[1..] == rest[1..] + more;
  }

  lemma {:induction false} SplitConcat(a: string, sep: char, b: string)
    ensures Split(a + [sep] + b, sep) == Split(a, sep) + Split(b, sep)
  {
    var s := a + [sep] + b;
    if a == [] {
      assert s[1..] == b;
      assert Split(a, sep) == [[]];
    } else {
      assert s[1..] == a[1..] + [sep] + b;
      SplitConcat(a[1..], sep, b);
      LongerFirstPiece(a[0], Split(a[1..], sep), Split(b, sep));
    }
  }

  /** A text without `&` stays without it: other bytes never encode to one. */
  lemma {:induction false} EncodingKeepsOut(s: string)
    requires '&' !in s
    ensures '&' !in AddingPercentEncoding(s, UrlQueryAllowed)
  {
    if s != [] {
      EncodingKeepsOut(s[1..]);
      assert s == [s[0]] + s[1..];
      EncodingConcat([s[0]], s[1..], UrlQueryAllowed);
      BytesKeepOut(Utf8.EncodeChar(s[0]));
      assert Utf8.Encode([s[0]]) == Utf8.EncodeChar(s[0]) by { assert [s[0]][1..] == []; }
    }
  }

  lemma {:induction false} BytesKeepOut(bs: seq<Utf8.byte>)
    requires forall i :: 0 <= i < |bs| ==> bs[i] != '&' as int
    ensures '&' !in EncodeBytes(bs, UrlQueryAllowed)
  {
    if bs != [] {
      BytesKeepOut(bs[1..]);
      ByteKeepsOut(bs[0]);
    }
  }

  lemma ByteKeepsOut(b: Utf8.byte)
    requires b != '&' as int
    ensures '&' !in EncodeByte(b, UrlQueryAllowed)
  {
    HexDigitValue(b / 16);
    HexDigitValue(b % 16);
    assert HexValue('&').None?;
  }

  /** Trackers that hold no `&`, as all the program's do. */
  ghost predicate Plain(trackers: seq<string>) {
    forall i :: 0 <= i < |trackers| ==> '&' !in trackers[i]
  }

  lemma ComponentRead(tracker: string)
    requires '&' !in tracker
    ensures '&' !in Component(tracker) && ComponentKey(Component(tracker)) == Some(TrackerKey(tracker))
  {
    EncodingKeepsOut(tracker);
    var e := AddingPercentEncoding(tracker, UrlQueryAllowed);
    RoundTrip(tracker, UrlQueryAllowed);
    assert Component(tracker)[..3] == "tr=" && Component(tracker)[3..] == e;
  }

  lemma {:induction false} InKeysBy(components: seq<string>, key: string -> Option<string>, k: string)
    ensures k in KeysBy(components, key) <==> exists c :: c in components && key(c) == Some(k)
  {
    if components != [] {
      var n := |components| - 1;
      InKeysBy(components[..n], key, k);
      assert components == components[..n] + [components[n]];
    }
  }

  lemma SuffixStep(magnet: string, components: seq<string>)
    requires components != []
    ensures magnet + SuffixOf(components) == (magnet + ['&'] + components[0]) + SuffixOf(components[1..])
  {}

  lemma AppendAssoc(a: seq<string>, components: seq<string>)
    requires components != []
    ensures (a + [components[0]]) + components[1..] == a + components
  {}

  lemma {:induction false} SplitWithSuffix(magnet: string, components: seq<string>)
    requires forall i :: 0 <= i < |components| ==> '&' !in components[i]
    ensures Split(magnet + SuffixOf(components), '&') == Split(magnet, '&') + components
    decreases |components|
  {
    if components == [] {
      assert magnet + SuffixOf(components) == magnet;
      assert Split(magnet, '&') + components == Split(magnet, '&');
    } else {
      SuffixStep(magnet, components);
      SplitWithSuffix(magnet + ['&'] + components[0], components[1..]);
      SplitOneMore(magnet, components[0]);
      AppendAssoc(Split(magnet, '&'), components);
    }
  }

  lemma SplitOneMore(magnet: string, c: string)
    requires '&' !in c
    ensures Split(magnet + ['&'] + c, '&') == Split(magnet, '&') + [c]
  {
    SplitWithout(c, '&');
    SplitConcat(magnet, '&', c);
  }

  lemma KeysOfComponents(trackers: seq<string>, k: string)
    requires Plain(trackers)
    ensures k in KeysBy(Components(trackers), ComponentKey) <==> HasKey(trackers, TrackerKey, k)
  {
    InKeysBy(Components(trackers), ComponentKey, k);
    if t :| t in trackers && TrackerKey(t) == k {
      var i :| 0 <= i < |trackers| && trackers[i] == t;
      ComponentRead(trackers[i]);
      assert Components(trackers)[i] in Components(trackers);
    }
    if c :| c in Components(trackers) && ComponentKey(c) == Some(k) {
      var i :| 0 <= i < |trackers| && Components(trackers)[i] == c;
      ComponentRead(trackers[i]);
      assert trackers[i] in trackers;
    }
  }

  lemma KeysByConcat(a: seq<string>, b: seq<string>, key: string -> Option<string>, k: string)
    ensures k in KeysBy(a + b, key) <==> k in KeysBy(a, key) || k in KeysBy(b, key)
  {
    InKeysBy(a + b, key, k);
    InKeysBy(a, key, k);
    InKeysBy(b, key, k);
  }

  /** The trackers of a lengthened magnet: those it had and those added. */
  lemma ExistingWithSuffix(magnet: string, trackers: seq<string>, k: string)
    requires Plain(trackers)
    ensures k in Existing(magnet + Suffix(trackers)) <==> k in Existing(magnet) || HasKey(trackers, TrackerKey, k)
  {
    var cs := Components(trackers);
    forall i | 0 <= i < |cs| ensures '&' !in cs[i] { ComponentRead(trackers[i]); }
    SplitWithSuffix(magnet, cs);
    KeysByConcat(Split(magnet, '&'), cs, ComponentKey, k);
    KeysOfComponents(trackers, k);
  }

  // ---------- Which trackers are added ----------

  lemma {:induction false} MissingIsNew(existing: set<string>, forced: seq<string>, key: string -> string)
    ensures forall i :: 0 <= i < |MissingBy(existing, forced, key)| ==>
              MissingBy(existing, forced, key)[i] in forced && key(MissingBy(existing, forced, key)[i]) !in existing
    ensures forall i, j :: 0 <= i < j < |MissingBy(existing, forced, key)| ==>
              key(MissingBy(existing, forced, key)[i]) != key(MissingBy(existing, forced, key)[j])
    decreases |forced|
  {
    if forced != [] {
      var k := key(forced[0]);
      assert forall t :: t in forced[1..] ==> t in forced;
      if k in existing {
        MissingIsNew(existing, forced[1..], key);
      } else {
        MissingIsNew(existing + {k}, forced[1..], key);
      }
    }
  }

  lemma {:induction false} MissingCovers(existing: set<string>, forced: seq<string>, key: string -> string, t: string)
    requires t in forced
    ensures key(t) in existing || HasKey(MissingBy(existing, forced, key), key, key(t))
    decreases |forced|
  {
    var k := key(forced[0]);
    assert forced == [forced[0]] + forced[1..];
    if k in existing {
      if t != forced[0] { MissingCovers(existing, forced[1..], key, t); }
    } else {
      var rest := MissingBy(existing + {k}, forced[1..], key);
      var all := [forced[0]] + rest;
      assert forced[0] in all;
      if key(t) != k {
        MissingCovers(existing + {k}, forced[1..], key, t);
        if key(t) !in existing {
          var x :| x in rest && key(x) == key(t);
          assert x in all;
        }
      }
    }
  }

  lemma {:induction false} NothingMissing(existing: set<string>, forced: seq<string>, key: string -> string)
    requires forall i :: 0 <= i < |forced| ==> key(forced[i]) in existing
    ensures MissingBy(existing, forced, key) == []
  {
    if forced != [] { NothingMissing(existing, forced[1..], key); }
  }

  /** Every forced tracker is a tracker of the augmented magnet. */
  ghost predicate Covers(magnet: string, forced: seq<string>) {
    forall i :: 0 <= i < |forced| ==> TrackerKey(forced[i]) in Existing(magnet)
  }

  lemma SuffixCovers(normalized: string, forced: seq<string>)
    requires Plain(forced)
    ensures Plain(Missing(Existing(normalized), forced))
    ensures Covers(normalized + Suffix(Missing(Existing(normalized), forced)), forced)
  {
    var missing := Missing(Existing(normalized), forced);
    MissingIsNew(Existing(normalized), forced, TrackerKey);
    forall i | 0 <= i < |missing| ensures '&' !in missing[i] { assert missing[i] in forced; }
    forall i | 0 <= i < |forced| ensures TrackerKey(forced[i]) in Existing(normalized + Suffix(missing)) {
      MissingCovers(Existing(normalized), forced, TrackerKey, forced[i]);
      ExistingWithSuffix(normalized, missing, TrackerKey(forced[i]));
    }
  }

  /** An augmented magnet is the normalised one followed by forced trackers, pairwise different
      and none of them there before, after which every forced tracker is present. */
  lemma AugmentationAddsWhatIsMissing(raw: string, forced: seq<string>)
    requires Plain(forced) && IsMagnet(raw)
    ensures var n := Normalize(raw);
            var added := Missing(Existing(n), forced);
            && Augmented(raw, forced) == n + Suffix(added)
            && (forall i :: 0 <= i < |added| ==> added[i] in forced && TrackerKey(added[i]) !in Existing(n))
            && (forall i, j :: 0 <= i < j < |added| ==> TrackerKey(added[i]) != TrackerKey(added[j]))
            && Covers(Augmented(raw, forced), forced)
  {
    MissingIsNew(Existing(Normalize(raw)), forced, TrackerKey);
    SuffixCovers(Normalize(raw), forced);
  }

  /** What is appended, component by component: after those of the normalised magnet, one `tr=` for
      each missing tracker, in order, that decodes to it. */
  lemma AppendedComponents(raw: string, forced: seq<string>)
    requires Plain(forced) && IsMagnet(raw)
    ensures var n := Normalize(raw);
            var added := Missing(Existing(n), forced);
            && Split(Augmented(raw, forced), '&') == Split(n, '&') + Components(added)
            && forall i :: 0 <= i < |added| ==>
                 Components(added)[i][..3] == "tr=" && RemovingPercentEncoding(Components(added)[i][3..]) == Some(added[i])
  {
    var n := Normalize(raw);
    var added := Missing(Existing(n), forced);
    SuffixCovers(n, forced);
    forall i | 0 <= i < |added|
      ensures '&' !in Components(added)[i]
      ensures Components(added)[i][..3] == "tr=" && RemovingPercentEncoding(Components(added)[i][3..]) == Some(added[i])
    {
      ComponentRead(added[i]);
      ComponentDecodes(added[i]);
    }
    SplitWithSuffix(n, Components(added));
  }

  lemma ComponentDecodes(tracker: string)
    ensures Component(tracker)[..3] == "tr=" && RemovingPercentEncoding(Component(tracker)[3..]) == Some(tracker)
  {
    RoundTrip(tracker, UrlQueryAllowed);
    assert Component(tracker)[3..] == AddingPercentEncoding(tracker, UrlQueryAllowed);
  }

  /** An address of allowed characters, as all the program's are, is appended as it is. */
  lemma AddressesAreVerbatim(tracker: string)
    ensures Component(tracker) == "tr=" + tracker <==> AllAllowed(tracker, UrlQueryAllowed)
  {
    PercentEncoding.FixedExactlyWhen(tracker, UrlQueryAllowed);
    assert Component(tracker)[3..] == AddingPercentEncoding(tracker, UrlQueryAllowed) && ("tr=" + tracker)[3..] == tracker;
  }

  /** A component names a tracker with key `k`. */
  ghost predicate Names(c: string, k: string) {
    exists t :: |c| >= 3 && c[..3] == "tr=" && RemovingPercentEncoding(c[3..]) == Some(t) && TrackerKey(t) == k
  }

  /** The keys present in a magnet are those its components name. */
  lemma ExistingExactlyWhen(magnet: string, k: string)
    ensures k in Existing(magnet) <==> exists c :: c in Split(magnet, '&') && Names(c, k)
  {
    InKeysBy(Split(magnet, '&'), ComponentKey, k);
    assert forall c :: ComponentKey(c) == Some(k) <==> Names(c, k);
  }

  /** A magnet is what begins with `magnet:`, in any case. */
  lemma IsMagnetExactlyWhen(s: string)
    ensures IsMagnet(s) <==> |s| >= 7 && forall i :: 0 <= i < 7 ==> s[i] == "magnet:"[i] || s[i] == "MAGNET:"[i]
  {
    if |s| >= 7 {
      forall i | 0 <= i < 7 ensures LowerChar(s[i]) == "magnet:"[i] <==> s[i] == "magnet:"[i] || s[i] == "MAGNET:"[i] {
        LowerLetter(s[i], "magnet:"[i], "MAGNET:"[i]);
      }
      assert forall i :: 0 <= i < 7 ==> Lower(s[..7])[i] == LowerChar(s[i]);
      if forall i :: 0 <= i < 7 ==> LowerChar(s[i]) == "magnet:"[i] { assert Lower(s[..7]) == "magnet:"; }
    }
  }

  lemma LowerLetter(c: char, lower: char, upper: char)
    requires ('a' <= lower <= 'z' && upper as int == lower as int - 32) || (lower == ':' == upper)
    ensures LowerChar(c) == lower <==> c == lower || c == upper
  {}

  /** Every other URL is left alone. */
  lemma OthersAreLeftAlone(raw: string, forced: seq<string>)
    requires raw == "" || (raw[0] != 'm' && raw[0] != 'M')
    ensures Augmented(raw, forced) == raw
  {
    IsMagnetExactlyWhen(raw);
  }

  // ---------- Normalisation ----------

  /** Normalising changes a text exactly when it holds `&amp;`, and then shortens it. */
  lemma {:induction false} NormalizeChanges(s: string)
    ensures |Normalize(s)| <= |s|
    ensures HasAmp(s) ==> |Normalize(s)| < |s|
    ensures !HasAmp(s) ==> Normalize(s) == s
  {
    if s != [] {
      if StartsWith(s, HtmlDecoding.AMP) {
        NormalizeChanges(s[5..]);
      } else {
        NormalizeChanges(s[1..]);
        assert s == [s[0]] + s[1..];
      }
    }
  }

  lemma StartsWithAmp(n: string, t: string)
    requires n != [] && (t == [] || t[0] == '&')
    ensures StartsWith(n + t, HtmlDecoding.AMP) <==> StartsWith(n, HtmlDecoding.AMP)
  {
    var s := n + t;
    if |n| >= 5 {
      assert s[..5] == n[..5];
    } else if |s| >= 5 {
      assert s[..5][|n|] == '&';
      assert HtmlDecoding.AMP[|n|] != '&';
    }
  }

  /** A tail that starts with `&` and holds no `&amp;` does not make one. */
  lemma {:induction false} HasAmpTail(n: string, t: string)
    requires !HasAmp(t) && (t == [] || t[0] == '&')
    ensures HasAmp(n + t) == HasAmp(n)
    decreases |n|
  {
    if n == [] {
      assert n + t == t;
    } else {
      StartsWithAmp(n, t);
      assert (n + t)[1..] == n[1..] + t;
      HasAmpTail(n[1..], t);
    }
  }

  lemma {:induction false} NoAmpersand(s: string)
    requires '&' !in s
    ensures !HasAmp(s)
  {
    if s != [] {
      assert s[0] != '&';
      NoAmpersand(s[1..]);
    }
  }

  lemma OneComponentHasNoAmp(c: string)
    requires '&' !in c && c != [] && c[0] == 't'
    ensures !HasAmp(['&'] + c)
  {
    var s := ['&'] + c;
    assert s[1..] == c && s[1] == 't';
    NoAmpersand(c);
    assert HtmlDecoding.AMP[1] == 'a';
    assert !StartsWith(s, HtmlDecoding.AMP) by { if |s| >= 5 { assert s[..5][1] == 't'; } }
  }

  lemma {:induction false} SuffixHasNoAmp(components: seq<string>)
    requires forall i :: 0 <= i < |components| ==> '&' !in components[i] && components[i] != [] && components[i][0] == 't'
    ensures !HasAmp(SuffixOf(components))
    ensures SuffixOf(components) == [] || SuffixOf(components)[0] == '&'
  {
    if components != [] {
      SuffixHasNoAmp(components[1..]);
      OneComponentHasNoAmp(components[0]);
      HasAmpTail(['&'] + components[0], SuffixOf(components[1..]));
    }
  }

  lemma TrackersHaveNoAmp(trackers: seq<string>)
    requires Plain(trackers)
    ensures !HasAmp(Suffix(trackers)) && (Suffix(trackers) == [] || Suffix(trackers)[0] == '&')
  {
    var cs := Components(trackers);
    forall i | 0 <= i < |cs| ensures '&' !in cs[i] && cs[i] != [] && cs[i][0] == 't' {
      ComponentRead(trackers[i]);
      assert Component(trackers[i])[0] == "tr="[0];
    }
    SuffixHasNoAmp(cs);
  }

  lemma {:induction false} NormalizeKeepsHead(s: string, k: nat)
    requires k <= |s| && '&' !in s[..k]
    ensures |Normalize(s)| >= k && Normalize(s)[..k] == s[..k]
  {
    if k > 0 {
      assert s[0] in s[..k];
      assert !StartsWith(s, HtmlDecoding.AMP) by { if |s| >= 5 { assert s[..5][0] == s[0] && HtmlDecoding.AMP[0] == '&'; } }
      assert s[1..][..k - 1] == s[..k][1..];
      NormalizeKeepsHead(s[1..], k - 1);
      assert Normalize(s)[..k] == [s[0]] + Normalize(s[1..])[..k - 1];
      assert s[..k] == [s[0]] + s[..k][1..];
    }
  }

  lemma NormalizeKeepsMagnet(s: string)
    requires IsMagnet(s)
    ensures IsMagnet(Normalize(s))
  {
    var p := s[..7];
    forall i | 0 <= i < 7 ensures p[i] != '&' {
      assert Lower(p)[i] == LowerChar(p[i]) && "magnet:"[i] != '&';
    }
    NormalizeKeepsHead(s, 7);
  }

  lemma MagnetWithTail(n: string, t: string)
    requires IsMagnet(n)
    ensures IsMagnet(n + t)
  {
    assert (n + t)[..7] == n[..7];
  }

  // ---------- What normalising does to the components ----------

  /** Drops one leading `amp;`. */
  function Strip(c: string): string {
    if StartsWith(c, "amp;") then c[4..] else c
  }

  function StripAll(components: seq<string>): (r: seq<string>)
    ensures |r| == |components| && forall i :: 0 <= i < |r| ==> r[i] == Strip(components[i])
  {
    seq(|components|, i requires 0 <= i < |components| => Strip(components[i]))
  }

  lemma {:induction false} FirstComponent(s: string, p: string)
    requires '&' !in p
    ensures StartsWith(Split(s, '&')[0], p) <==> StartsWith(s, p)
  {
    if p != [] {
      var c := Split(s, '&')[0];
      if s != [] && s[0] != '&' {
        FirstComponent(s[1..], p[1..]);
        assert p == [p[0]] + p[1..];
        var d := Split(s[1..], '&')[0];
        assert c == [s[0]] + d;
        assert |d| >= |p| - 1 ==> c[..|p|] == [s[0]] + d[..|p| - 1];
        assert |s| >= |p| ==> s[..|p|] == [s[0]] + s[1..][..|p| - 1];
      } else if s != [] {
        assert p[0] in p;
        assert |s| >= |p| ==> s[..|p|][0] == '&';
      }
    }
  }

  lemma SplitCons(c: char, s: string)
    requires c != '&'
    ensures Split([c] + s, '&') == [[c] + Split(s, '&')[0]] + Split(s, '&')[1..]
  {
    assert ([c] + s)[1..] == s;
  }

  lemma {:induction false} SplitPlainHead(a: string, s: string)
    requires '&' !in a
    ensures Split(a + s, '&') == [a + Split(s, '&')[0]] + Split(s, '&')[1..]
    decreases |a|
  {
    var first, others := Split(s, '&')[0], Split(s, '&')[1..];
    if a == [] {
      assert a + s == s && a + first == first;
    } else {
      SplitPlainHead(a[1..], s);
      SplitCons(a[0], a[1..] + s);
      assert [a[0]] + (a[1..] + s) == a + s;
      assert ([a[1..] + first] + others)[1..] == others;
      assert [a[0]] + (a[1..] + first) == a + first;
    }
  }

  /** Normalising strips one `amp;` from every component but the first. */
  lemma {:induction false} NormalizeStrips(s: string)
    ensures Split(Normalize(s), '&') == [Split(s, '&')[0]] + StripAll(Split(s, '&')[1..])
    decreases |s|
  {
    if s == [] {
    } else if StartsWith(s, HtmlDecoding.AMP) {
      StripsAtAmp(s);
    } else if s[0] == '&' {
      StripsAtAmpersand(s);
    } else {
      NormalizeStrips(s[1..]);
      var rest, out := Split(s[1..], '&'), Split(Normalize(s[1..]), '&');
      assert Normalize(s)[0] == s[0] && Normalize(s)[1..] == Normalize(s[1..]);
      assert out[1..] == StripAll(rest[1..]);
      assert ([[s[0]] + rest[0]] + rest[1..])[1..] == rest[1..];
    }
  }

  lemma SplitAmpersand(r: string)
    ensures Split(['&'] + r, '&') == [[]] + Split(r, '&')
  {
    assert (['&'] + r)[1..] == r;
  }

  lemma StripAllCons(c: string, rest: seq<string>)
    ensures StripAll([c] + rest) == [Strip(c)] + StripAll(rest)
  {}

  lemma StripAmp(d: string)
    ensures Strip("amp;" + d) == d
  {
    assert ("amp;" + d)[..4] == "amp;";
  }

  lemma NormalizeAtAmp(s: string)
    requires StartsWith(s, HtmlDecoding.AMP)
    ensures s == ['&'] + ("amp;" + s[5..]) && Normalize(s) == ['&'] + Normalize(s[5..])
  {
    assert s == s[..5] + s[5..];
  }

  lemma StripsAtAmp(s: string)
    requires StartsWith(s, HtmlDecoding.AMP)
    ensures Split(Normalize(s), '&') == [Split(s, '&')[0]] + StripAll(Split(s, '&')[1..])
    decreases |s|, 0
  {
    var r := s[5..];
    var rest := Split(r, '&');
    NormalizeAtAmp(s);
    NormalizeStrips(r);
    SplitAmpersand(Normalize(r));
    SplitAmpersand("amp;" + r);
    SplitPlainHead("amp;", r);
    StripAllCons("amp;" + rest[0], rest[1..]);
    StripAmp(rest[0]);
  }

  lemma NotAfterAmpersand(s: string)
    requires s != [] && s[0] == '&' && !StartsWith(s, HtmlDecoding.AMP)
    ensures !StartsWith(s[1..], "amp;")
  {
    if |s| >= 5 {
      assert s[..5] == ['&'] + s[1..][..4];
      assert HtmlDecoding.AMP == ['&'] + "amp;";
    }
  }

  lemma StripsAtAmpersand(s: string)
    requires s != [] && s[0] == '&' && !StartsWith(s, HtmlDecoding.AMP)
    ensures Split(Normalize(s), '&') == [Split(s, '&')[0]] + StripAll(Split(s, '&')[1..])
    decreases |s|, 0
  {
    var rest := Split(s[1..], '&');
    NormalizeStrips(s[1..]);
    FirstComponent(s[1..], "amp;");
    NotAfterAmpersand(s);
    SplitAmpersand(Normalize(s[1..]));
    SplitAmpersand(s[1..]);
    assert s == ['&'] + s[1..] && rest == [rest[0]] + rest[1..];
    StripAllCons(rest[0], rest[1..]);
  }

  lemma StrippedHas(cs: seq<string>, c: string)
    requires cs != [] && c in cs && Strip(c) == c
    ensures c in [cs[0]] + StripAll(cs[1..])
  {
    var i :| 0 <= i < |cs| && cs[i] == c;
    var ds := [cs[0]] + StripAll(cs[1..]);
    if i > 0 { assert StripAll(cs[1..])[i - 1] == c; }
    assert ds[i] == c;
  }

  lemma StripOther(c: string)
    requires c != [] && c[0] == 't'
    ensures Strip(c) == c
  {
    if |c| >= 4 { assert c[..4][0] == 't'; }
  }

  lemma KeepsComponent(s: string, c: string)
    requires c in Split(s, '&') && c != [] && c[0] == 't'
    ensures c in Split(Normalize(s), '&')
  {
    NormalizeStrips(s);
    StripOther(c);
    StrippedHas(Split(s, '&'), c);
  }

  lemma TrackerComponent(c: string)
    requires ComponentKey(c).Some?
    ensures c != [] && c[0] == 't'
  {
    assert c[..3][0] == "tr="[0];
  }

  /** So normalising loses no tracker. */
  lemma NormalizeKeepsTrackers(s: string, k: string)
    requires k in Existing(s)
    ensures k in Existing(Normalize(s))
  {
    InKeysBy(Split(s, '&'), ComponentKey, k);
    InKeysBy(Split(Normalize(s), '&'), ComponentKey, k);
    var c :| c in Split(s, '&') && ComponentKey(c) == Some(k);
    TrackerComponent(c);
    KeepsComponent(s, c);
  }

  // ---------- Augmenting twice ----------

  /** Augmenting is idempotent on a magnet exactly when one normalisation removes every `&amp;`. */
  lemma IdempotentExactlyWhen(raw: string, forced: seq<string>)
    requires Plain(forced) && IsMagnet(raw)
    ensures Augmented(Augmented(raw, forced), forced) == Augmented(raw, forced) <==> !HasAmp(Normalize(raw))
  {
    var n := Normalize(raw);
    var missing := Missing(Existing(n), forced);
    NormalizeKeepsMagnet(raw);
    SuffixCovers(n, forced);
    FixedExactlyWhen(n, missing, forced);
  }

  /** A magnet that covers the forced trackers is left alone exactly when it holds no `&amp;`. */
  lemma CoveredIsFixed(magnet: string, forced: seq<string>)
    requires IsMagnet(magnet) && Covers(magnet, forced)
    ensures Augmented(magnet, forced) == Normalize(magnet)
    ensures Augmented(magnet, forced) == magnet <==> !HasAmp(magnet)
  {
    var n := Normalize(magnet);
    forall i | 0 <= i < |forced| ensures TrackerKey(forced[i]) in Existing(n) {
      NormalizeKeepsTrackers(magnet, TrackerKey(forced[i]));
    }
    NothingMissing(Existing(n), forced, TrackerKey);
    assert Components([]) == [];
    assert Suffix([]) == [];
    assert n + [] == n;
    NormalizeChanges(magnet);
  }

  lemma FixedExactlyWhen(base: string, trackers: seq<string>, forced: seq<string>)
    requires IsMagnet(base) && Plain(trackers) && Covers(base + Suffix(trackers), forced)
    ensures Augmented(base + Suffix(trackers), forced) == base + Suffix(trackers) <==> !HasAmp(base)
  {
    TrackersHaveNoAmp(trackers);
    HasAmpTail(base, Suffix(trackers));
    MagnetWithTail(base, Suffix(trackers));
    CoveredIsFixed(base + Suffix(trackers), forced);
  }

  /** The magnet built for a YTS torrent. */
  function YtsMagnet(infoHash: string, displayName: string, forced: seq<string>): string {
    YtsBase(infoHash, displayName) + ['&'] + Join(Components(forced), '&')
  }

  function YtsBase(infoHash: string, displayName: string): string {
    "magnet:?xt=urn:btih:" + Lower(infoHash) + "&dn=" + AddingPercentEncoding(displayName, UrlQueryAllowed)
  }

  lemma {:induction false} JoinIsSuffix(components: seq<string>)
    requires components != []
    ensures ['&'] + Join(components, '&') == SuffixOf(components)
  {
    if |components| == 1 {
      assert components[1..] == [];
    } else {
      JoinIsSuffix(components[1..]);
    }
  }

  /** A YTS magnet already carries every forced tracker, so augmenting leaves it unchanged,
      exactly when its hash and name bring in no `&amp;`. */
  lemma YtsMagnetIsFixed(infoHash: string, displayName: string, forced: seq<string>)
    requires Plain(forced) && forced != []
    ensures var m := YtsMagnet(infoHash, displayName, forced);
            Augmented(m, forced) == m <==> !HasAmp(YtsBase(infoHash, displayName))
  {
    var base := YtsBase(infoHash, displayName);
    assert base[..7] == "magnet:" && Lower("magnet:") == "magnet:";
    YtsIsSuffixed(infoHash, displayName, forced);
    forall i | 0 <= i < |forced| ensures TrackerKey(forced[i]) in Existing(base + Suffix(forced)) {
      ExistingWithSuffix(base, forced, TrackerKey(forced[i]));
    }
    FixedExactlyWhen(base, forced, forced);
  }

  lemma TwoComponents(first: string, second: string)
    requires '&' !in first && '&' !in second
    ensures Split(first + ['&'] + second, '&') == [first, second]
  {
    SplitOneMore(first, second);
    SplitWithout(first, '&');
  }

  lemma YtsBaseComponents(infoHash: string, name: string)
    requires '&' !in Lower(infoHash) && '&' !in name
    ensures var first := "magnet:?xt=urn:btih:" + Lower(infoHash);
            Split(first + "&dn=" + name, '&') == [first, "dn=" + name]
  {
    var first, second := "magnet:?xt=urn:btih:" + Lower(infoHash), "dn=" + name;
    TwoComponents(first, second);
    Regroup(first, ['&'], second);
    assert "&dn=" + name == ['&'] + second;
    Regroup(first, "&dn=", name);
  }

  /** The components of a YTS magnet: the hash in lower case, the name, and every forced tracker. */
  lemma YtsComponents(infoHash: string, displayName: string, forced: seq<string>)
    requires Plain(forced) && forced != [] && '&' !in Lower(infoHash) && '&' !in displayName
    ensures var name := AddingPercentEncoding(displayName, UrlQueryAllowed);
            && RemovingPercentEncoding(name) == Some(displayName)
            && Split(YtsMagnet(infoHash, displayName, forced), '&')
               == ["magnet:?xt=urn:btih:" + Lower(infoHash), "dn=" + name] + Components(forced)
  {
    var base := YtsBase(infoHash, displayName);
    RoundTrip(displayName, UrlQueryAllowed);
    EncodingKeepsOut(displayName);
    YtsBaseComponents(infoHash, AddingPercentEncoding(displayName, UrlQueryAllowed));
    YtsIsSuffixed(infoHash, displayName, forced);
    forall i | 0 <= i < |forced| ensures '&' !in Components(forced)[i] { ComponentRead(forced[i]); }
    SplitWithSuffix(base, Components(forced));
  }

  lemma YtsIsSuffixed(infoHash: string, displayName: string, forced: seq<string>)
    requires forced != []
    ensures YtsMagnet(infoHash, displayName, forced) == YtsBase(infoHash, displayName) + Suffix(forced)
  {
    JoinIsSuffix(Components(forced));
    assert YtsMagnet(infoHash, displayName, forced)
        == YtsBase(infoHash, displayName) + (['&'] + Join(Components(forced), '&'));
  }

  // ---------- The program's trackers ----------

  const FORCED_TRACKERS: seq<string> := [
    "udp://tracker.opentrackr.org:1337",
    "udp://tracker.openbittorrent.com:1337",
    "udp://p4p.arenabg.com:1337",
    "udp://exodus.desync.com:6969",
    "udp://tracker.torrent.eu.org:451",
    "udp://tracker-udp.gbitt.info:80",
    "udp://open.stealth.si:80",
    "udp://tracker.dler.org:6969",
    "udp://explodie.org:6969",
    "udp://tracker.therarbg.to:6969",
    "udp://tracker.bittor.pw:1337",
    "udp://tr4ck3r.duckdns.org:6969",
    "wss://tracker.openwebtorrent.com"
  ]

  lemma ForcedTrackersArePlain()
    ensures Plain(FORCED_TRACKERS) && FORCED_TRACKERS != []
  {
    PlainTo3();
    PlainTo6();
    PlainTo9();
    PlainToEnd();
    var f := FORCED_TRACKERS;
    assert f == f[..3] + f[3..6] + f[6..9] + f[9..];
  }

  lemma PlainTo3()
    ensures Plain(FORCED_TRACKERS[..3])
  {}

  lemma PlainTo6()
    ensures Plain(FORCED_TRACKERS[3..6])
  {}

  lemma PlainTo9()
    ensures Plain(FORCED_TRACKERS[6..9])
  {}

  lemma PlainToEnd()
    ensures Plain(FORCED_TRACKERS[9..])
  {}
}
