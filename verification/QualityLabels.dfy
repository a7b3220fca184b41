/** The order on quality labels behind `Torrent <`
    (PopcornKit/Sources/Models/Torrent.swift:317-347), and exactly when it is an order. */
module QualityLabels {
  import opened Sequences
  import opened Torrents

  /** The labels whose length is in `lengths`. */
  predicate Among(name: string, lengths: set<nat>) {
    |name| in lengths
  }

  /** On these labels the comparison is a strict weak order. */
  ghost predicate StrictWeakOn(lengths: set<nat>) {
    && (forall a :: Among(a, lengths) ==> !LabelPrecedes(a, a))
    && (forall a, b, c :: Among(a, lengths) && Among(b, lengths) && Among(c, lengths) ==>
          && (LabelPrecedes(a, b) && LabelPrecedes(b, c) ==> LabelPrecedes(a, c))
          && (!LabelPrecedes(a, b) && !LabelPrecedes(b, c) ==> !LabelPrecedes(a, c)))
  }

  /** Some two labels of these lengths are ordered. */
  predicate SomeOrdered(lengths: set<nat>) {
    4 in lengths || (5 in lengths && 3 in lengths) || (2 in lengths && exists n :: n in lengths && n > 2)
  }

  /** No length mixes labels that tie with both ends of an ordered pair. */
  predicate Compatible(lengths: set<nat>) {
    && !(3 in lengths && 4 in lengths)
    && (forall n :: n in lengths && n <= 1 ==> !SomeOrdered(lengths))
    && (forall n :: n in lengths && n >= 6 ==> !(4 in lengths) && !(3 in lengths && 5 in lengths))
  }

  lemma CompatibleOrders(lengths: set<nat>, a: string, b: string, c: string)
    requires Compatible(lengths) && Among(a, lengths) && Among(b, lengths) && Among(c, lengths)
    ensures !LabelPrecedes(a, a)
    ensures LabelPrecedes(a, b) && LabelPrecedes(b, c) ==> LabelPrecedes(a, c)
    ensures !LabelPrecedes(a, b) && !LabelPrecedes(b, c) ==> !LabelPrecedes(a, c)
  {
    LessIrreflexive(a);
    LessTotal(a, b);
    LessTotal(b, c);
    if Less(a, b) && Less(b, c) { LessTransitive(a, b, c); }
    if Less(a, c) && Less(b, a) { LessTransitive(b, a, c); }
    if Less(c, b) && Less(b, a) { LessTransitive(c, b, a); }
    if Less(a, c) && Less(c, b) { LessTransitive(a, c, b); }
    if Less(a, c) && Less(c, a) { LessTransitive(a, c, a); }
  }

  function Filler(n: nat): (s: string)
    ensures |s| == n
  {
    seq(n, _ => 'a')
  }

  lemma Four()
    ensures LabelPrecedes("480p", "720p")
  {}

  /** An ordered pair with a third label tied to both. */
  ghost predicate Broken(a: string, b: string, c: string) {
    LabelPrecedes(a, c) && !LabelPrecedes(a, b) && !LabelPrecedes(b, c)
  }

  lemma IncompatibleBreaks(lengths: set<nat>)
    requires !Compatible(lengths)
    ensures exists a, b, c :: Among(a, lengths) && Among(b, lengths) && Among(c, lengths) && Broken(a, b, c)
  {
    Four();
    var a, b, c := "480p", Filler(3), "720p";
    if 3 in lengths && 4 in lengths {
    } else if n :| n in lengths && n <= 1 && SomeOrdered(lengths) {
      b := Filler(n);
      if 4 in lengths {
      } else if 5 in lengths && 3 in lengths {
        a, c := Filler(3), Filler(5);
      } else {
        var m :| m in lengths && m > 2;
        a, c := Filler(m), Filler(2);
      }
    } else {
      var n :| n in lengths && n >= 6 && (4 in lengths || (3 in lengths && 5 in lengths));
      b := Filler(n);
      if !(4 in lengths) {
        a, c := Filler(3), Filler(5);
      }
    }
    assert Among(a, lengths) && Among(b, lengths) && Among(c, lengths) && Broken(a, b, c);
  }

  /** The comparison of `Torrent <` is a strict weak order on the labels of given lengths if and
      only if the lengths are compatible; in particular on lengths 2, 4 and 5. */
  lemma OrderExactlyWhenCompatible(lengths: set<nat>)
    ensures StrictWeakOn(lengths) <==> Compatible(lengths)
    ensures Compatible({2, 4, 5})
  {
    if Compatible(lengths) {
      forall a | Among(a, lengths) ensures !LabelPrecedes(a, a) { CompatibleOrders(lengths, a, a, a); }
      forall a, b, c | Among(a, lengths) && Among(b, lengths) && Among(c, lengths)
        ensures LabelPrecedes(a, b) && LabelPrecedes(b, c) ==> LabelPrecedes(a, c)
        ensures !LabelPrecedes(a, b) && !LabelPrecedes(b, c) ==> !LabelPrecedes(a, c)
      {
        CompatibleOrders(lengths, a, b, c);
      }
    } else {
      IncompatibleBreaks(lengths);
    }
  }

  // ---------- The order the play button's comment gives ----------

  /** Lowest to highest, according to SelectTorrentQualityButton.swift:223-225. */
  const COMMENTED: seq<string> := ["3D", "480p", "720p", "1080p", "2160p"]

  /** On these labels `Torrent <` is the commented order. */
  ghost predicate CommentedOn(labels: set<string>) {
    forall i, j :: 0 <= i < |COMMENTED| && 0 <= j < |COMMENTED| && COMMENTED[i] in labels && COMMENTED[j] in labels ==>
      (LabelPrecedes(COMMENTED[i], COMMENTED[j]) <==> i < j)
  }

  /** How `Torrent <` really orders the five labels: 3D last, 1080p and 2160p level. */
  lemma CommentedPairs(i: nat, j: nat)
    requires i < |COMMENTED| && j < |COMMENTED|
    ensures LabelPrecedes(COMMENTED[i], COMMENTED[j]) <==> (j == 0 < i) || (1 <= i < j && !(i == 3 && j == 4))
  {}

  /** Against the comment, 3D comes last rather than first, and 1080p and 2160p tie. */
  lemma CommentedOrderFails()
    ensures LabelPrecedes("2160p", "3D") && !LabelPrecedes("3D", "480p")
    ensures !LabelPrecedes("1080p", "2160p") && !LabelPrecedes("2160p", "1080p")
  {}

  /** `Torrent <` orders a set of the commented labels as the comment says if and only if it holds
      at most one of 1080p and 2160p, and 3D only by itself. */
  lemma CommentedOrderExactlyWhen(labels: set<string>)
    requires forall l :: l in labels ==> l in COMMENTED
    ensures CommentedOn(labels)
            <==> !("1080p" in labels && "2160p" in labels) && ("3D" in labels ==> labels == {"3D"})
  {
    if CommentedOn(labels) {
      CommentedPairs(3, 4);
      forall j: nat | 1 <= j < |COMMENTED| ensures !LabelPrecedes(COMMENTED[0], COMMENTED[j]) { CommentedPairs(0, j); }
    } else {
      var i, j :| 0 <= i < |COMMENTED| && 0 <= j < |COMMENTED| && COMMENTED[i] in labels && COMMENTED[j] in labels
                  && LabelPrecedes(COMMENTED[i], COMMENTED[j]) != (i < j);
      CommentedPairs(i, j);
    }
  }
}
