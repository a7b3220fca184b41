/** The two lists of subtitles kept in step
    (PopcornTime/Flows/PlayerOptions/SubtitlesViewModel.swift:33-79). */
module Subtitles {
  import opened Sequences

  datatype Subtitle = Subtitle(name: string, language: string, fileId: int, fileName: string, iso639: string)

  /** The saved selection and the rows shown. */
  datatype Lists = Lists(saved: seq<Subtitle>, view: seq<Subtitle>)

  function OtherRow(other: string): Subtitle {
    Subtitle("", other, 0, "", "")
  }

  // ---------- Selecting ----------

  /** The position of the first subtitle in a language, or the length when there is none. */
  function IndexOfLanguage(s: seq<Subtitle>, language: string): (i: nat)
    ensures i <= |s| && (i < |s| ==> s[i].language == language)
    ensures forall j :: 0 <= j < i ==> s[j].language != language
  {
    if s == [] || s[0].language == language then 0 else 1 + IndexOfLanguage(s[1..], language)
  }

  /** The loop over the rows as they were when it began, from row `k` on: a row in the language
      is replaced and ends the loop; a row equal to the last one inserts in front. */
  function ScanRows(rows: seq<Subtitle>, k: nat, l: Lists, subtitle: Subtitle): Lists
    requires k <= |rows| && forall r :: r in rows ==> r in l.view
    decreases |rows| - k
  {
    if k == |rows| then l
    else if subtitle.language == rows[k].language then
      Lists(l.saved + [subtitle], l.view[FirstIndex(l.view, rows[k]) := subtitle])
    else if assert rows[k] in l.view; rows[k] == l.view[|l.view| - 1] then
      ScanRows(rows, k + 1, Lists(l.saved + [subtitle], [subtitle] + l.view), subtitle)
    else ScanRows(rows, k + 1, l, subtitle)
  }

  /** `didSelectSubtitle`; `None` stands for a failed forced unwrapping. */
  function Selected(l: Lists, subtitle: Subtitle): Option<Lists> {
    var i := IndexOfLanguage(l.saved, subtitle.language);
    if i < |l.saved| then
      if l.saved[i] in l.view
      then Some(Lists(l.saved[i := subtitle], l.view[FirstIndex(l.view, l.saved[i]) := subtitle]))
      else None
    else if subtitle in l.view then Some(Lists(l.saved + [subtitle], l.view))
    else Some(ScanRows(l.view, 0, l, subtitle))
  }

  /** `generateSubtitles`: the current subtitle, or English, or any, above the last row, with the
      saved ones not yet shown put in front; `None` when there is no subtitle at all. */
  function Generated(saved: seq<Subtitle>, other: string, current: Option<Subtitle>, english: Option<Subtitle>,
                     fallback: Option<Subtitle>): Option<seq<Subtitle>>
  {
    var head := if current.Some? then current else if english.Some? then english else fallback;
    if head.None? then None else Some(WithSaved(saved, [head.value, OtherRow(other)]))
  }

  function WithSaved(saved: seq<Subtitle>, rows: seq<Subtitle>): seq<Subtitle> {
    if saved == [] then rows
    else
      var front := WithSaved(saved[..|saved| - 1], rows);
      if saved[|saved| - 1] in front then front else [saved[|saved| - 1]] + front
  }

  class SubtitlesViewModel {
    const selectOther: string
    var subtitlesSelectedForVideo: seq<Subtitle>
    var subtitlesInView: seq<Subtitle>

    ghost function Abstract(): Lists
      reads this
    {
      Lists(subtitlesSelectedForVideo, subtitlesInView)
    }

    constructor (selectOther: string, saved: seq<Subtitle>)
      ensures this.selectOther == selectOther && Abstract() == Lists(saved, [])
    {
      this.selectOther := selectOther;
      subtitlesSelectedForVideo, subtitlesInView := saved, [];
    }

    method GenerateSubtitles(current: Option<Subtitle>, english: Option<Subtitle>, fallback: Option<Subtitle>)
      returns (rows: Option<seq<Subtitle>>)
      ensures rows == Generated(subtitlesSelectedForVideo, selectOther, current, english, fallback)
    {
      var head := if current.Some? then current else if english.Some? then english else fallback;
      if head.None? { return None; }
      var newSubtitles := [head.value, OtherRow(selectOther)];
      var saved := subtitlesSelectedForVideo;
      for i := 0 to |saved|
        invariant newSubtitles == WithSaved(saved[..i], [head.value, OtherRow(selectOther)])
      {
        assert saved[..i + 1][..i] == saved[..i];
        if saved[i] !in newSubtitles {
          newSubtitles := [saved[i]] + newSubtitles;
        }
      }
      assert saved[..|saved|] == saved;
      rows := Some(newSubtitles);
    }

    /** No selection changes nothing; `ok` is false where a forced unwrapping fails. */
    method DidSelectSubtitle(choice: Option<Subtitle>) returns (ok: bool)
      modifies this
      ensures choice.None? ==> ok && Abstract() == old(Abstract())
      ensures choice.Some? ==> ok == Selected(old(Abstract()), choice.value).Some?
      ensures choice.Some? && ok ==> Abstract() == Selected(old(Abstract()), choice.value).value
    {
      if choice.None? { return true; }
      var subtitle := choice.value;
      var i := 0;
      while i < |subtitlesSelectedForVideo|
        invariant 0 <= i <= |subtitlesSelectedForVideo|
        invariant Abstract() == old(Abstract())
        invariant forall j :: 0 <= j < i ==> subtitlesSelectedForVideo[j].language != subtitle.language
      {
        var savedSubtitle := subtitlesSelectedForVideo[i];
        if savedSubtitle.language == subtitle.language {
          subtitlesSelectedForVideo := subtitlesSelectedForVideo[i := subtitle];
          if savedSubtitle !in subtitlesInView { return false; }
          var index := FirstIndex(subtitlesInView, savedSubtitle);
          subtitlesInView := subtitlesInView[index := subtitle];
          return true;
        }
        i := i + 1;
      }
      if subtitle !in subtitlesInView {
        var rows := subtitlesInView;
        var k := 0;
        while k < |rows|
          invariant 0 <= k <= |rows| && forall r :: r in rows ==> r in subtitlesInView
          invariant ScanRows(rows, k, Abstract(), subtitle) == ScanRows(rows, 0, old(Abstract()), subtitle)
        {
          var savedSubtitle := rows[k];
          assert savedSubtitle in rows;
          if subtitle.language == savedSubtitle.language {
            var index := FirstIndex(subtitlesInView, savedSubtitle);
            subtitlesInView := subtitlesInView[index := subtitle];
            subtitlesSelectedForVideo := subtitlesSelectedForVideo + [subtitle];
            return true;
          }
          if savedSubtitle == subtitlesInView[|subtitlesInView| - 1] {
            subtitlesInView := [subtitle] + subtitlesInView;
            subtitlesSelectedForVideo := subtitlesSelectedForVideo + [subtitle];
          }
          k := k + 1;
        }
      } else {
        subtitlesSelectedForVideo := subtitlesSelectedForVideo + [subtitle];
      }
      ok := true;
    }
  }

  // ---------- What every selection keeps ----------

  /** At most one saved subtitle per language, every saved one shown, and the "other" row once,
      at the end. */
  ghost predicate InStep(l: Lists, other: string) {
    && (forall i, j :: 0 <= i < j < |l.saved| ==> l.saved[i].language != l.saved[j].language)
    && (forall s :: s in l.saved ==> s in l.view && s.language != other)
    && OtherRowLast(l.view, other)
  }

  /** The step succeeds and leaves the lists in step. */
  ghost predicate LandsInStep(after: Option<Lists>, other: string) {
    exists l :: after == Some(l) && InStep(l, other)
  }

  ghost predicate OtherRowLast(view: seq<Subtitle>, other: string) {
    && view != [] && view[|view| - 1] == OtherRow(other)
    && forall i :: 0 <= i < |view| - 1 ==> view[i].language != other
  }

  lemma ScanStep(l: Lists, k: nat, subtitle: Subtitle)
    requires k < |l.view|
    ensures ScanRows(l.view, k, l, subtitle) ==
      if subtitle.language == l.view[k].language then Lists(l.saved + [subtitle], l.view[FirstIndex(l.view, l.view[k]) := subtitle])
      else if l.view[k] == l.view[|l.view| - 1] then
        ScanRows(l.view, k + 1, Lists(l.saved + [subtitle], [subtitle] + l.view), subtitle)
      else ScanRows(l.view, k + 1, l, subtitle)
  {}

  lemma FirstInLanguage(view: seq<Subtitle>, k: nat, language: string)
    requires k < |view| && view[k].language == language && forall j :: 0 <= j < k ==> view[j].language != language
    ensures IndexOfLanguage(view, language) == k && FirstIndex(view, view[k]) == k
  {
    assert view[k] !in view[..k] by { assert forall j :: 0 <= j < k ==> view[..k][j].language != language; }
    FirstIndexIs(view, view[k], k);
  }

  /** On lists in step the row loop replaces the first row in the language, or inserts once. */
  lemma {:induction false} ScanInStep(l: Lists, other: string, k: nat, subtitle: Subtitle)
    requires OtherRowLast(l.view, other) && subtitle.language != other && k < |l.view|
    requires forall j :: 0 <= j < k ==> l.view[j].language != subtitle.language
    ensures var i := IndexOfLanguage(l.view, subtitle.language);
            ScanRows(l.view, k, l, subtitle) ==
              Lists(l.saved + [subtitle], if i < |l.view| then l.view[i := subtitle] else [subtitle] + l.view)
    decreases |l.view| - k
  {
    ScanStep(l, k, subtitle);
    if l.view[k].language == subtitle.language {
      FirstInLanguage(l.view, k, subtitle.language);
    } else if k < |l.view| - 1 {
      assert l.view[k] != l.view[|l.view| - 1];
      ScanInStep(l, other, k + 1, subtitle);
    }
  }

  lemma ReplaceRow(view: seq<Subtitle>, other: string, i: nat, subtitle: Subtitle)
    requires OtherRowLast(view, other) && i < |view| && view[i].language != other && subtitle.language != other
    ensures OtherRowLast(view[i := subtitle], other)
    ensures forall s :: s in view && s != view[i] ==> s in view[i := subtitle]
    ensures subtitle in view[i := subtitle]
  {
    var v := view[i := subtitle];
    assert v[i] == subtitle;
    forall s | s in view && s != view[i] ensures s in v {
      var j :| 0 <= j < |view| && view[j] == s;
      assert v[j] == s;
    }
  }

  /** Every selection of a real subtitle succeeds and keeps the lists in step; afterwards it is
      the saved subtitle of its language and the other languages are as before. */
  lemma SelectionKeepsStep(l: Lists, other: string, subtitle: Subtitle)
    requires InStep(l, other) && subtitle.language != other
    ensures LandsInStep(Selected(l, subtitle), other)
    ensures forall s :: s in Selected(l, subtitle).value.saved <==>
              s == subtitle || (s in l.saved && s.language != subtitle.language)
  {
    var i := IndexOfLanguage(l.saved, subtitle.language);
    if i < |l.saved| {
      SelectSaved(l, other, subtitle, i);
    } else {
      SelectNew(l, other, subtitle);
    }
  }

  lemma SelectSaved(l: Lists, other: string, subtitle: Subtitle, i: nat)
    requires InStep(l, other) && subtitle.language != other
    requires i == IndexOfLanguage(l.saved, subtitle.language) < |l.saved|
    ensures Selected(l, subtitle).Some? && InStep(Selected(l, subtitle).value, other)
    ensures forall s :: s in Selected(l, subtitle).value.saved <==>
              s == subtitle || (s in l.saved && s.language != subtitle.language)
  {
    var was := l.saved[i];
    assert was in l.saved;
    var index := FirstIndex(l.view, was);
    ReplaceRow(l.view, other, index, subtitle);
    var saved := l.saved[i := subtitle];
    forall s ensures s in saved <==> s == subtitle || (s in l.saved && s.language != subtitle.language) {
      if s in l.saved && s.language != subtitle.language {
        var j :| 0 <= j < |l.saved| && l.saved[j] == s;
        assert saved[j] == s;
      }
      assert saved[i] == subtitle;
    }
  }

  lemma AppendedSaved(l: Lists, other: string, subtitle: Subtitle)
    requires InStep(l, other) && IndexOfLanguage(l.saved, subtitle.language) == |l.saved|
    ensures forall s :: s in l.saved ==> s.language != subtitle.language
    ensures forall s :: s in l.saved + [subtitle] <==> s == subtitle || (s in l.saved && s.language != subtitle.language)
  {}

  /** Saved as the last one and shown in some view that shows what was saved, it keeps the lists in step. */
  lemma AppendedInStep(l: Lists, other: string, subtitle: Subtitle, view: seq<Subtitle>)
    requires InStep(l, other) && subtitle.language != other && forall s :: s in l.saved ==> s.language != subtitle.language
    requires OtherRowLast(view, other) && subtitle in view && forall s :: s in l.saved ==> s in view
    ensures InStep(Lists(l.saved + [subtitle], view), other)
  {
    forall i | 0 <= i < |l.saved| ensures l.saved[i].language != subtitle.language { assert l.saved[i] in l.saved; }
  }

  lemma SelectNew(l: Lists, other: string, subtitle: Subtitle)
    requires InStep(l, other) && subtitle.language != other
    requires IndexOfLanguage(l.saved, subtitle.language) == |l.saved|
    ensures Selected(l, subtitle).Some? && InStep(Selected(l, subtitle).value, other)
    ensures Selected(l, subtitle).value.saved == l.saved + [subtitle]
    ensures forall s :: s in l.saved + [subtitle] <==> s == subtitle || (s in l.saved && s.language != subtitle.language)
  {
    AppendedSaved(l, other, subtitle);
    var view := l.view;
    if subtitle !in l.view {
      ScanInStep(l, other, 0, subtitle);
      var i := IndexOfLanguage(l.view, subtitle.language);
      if i < |l.view| {
        ReplaceRow(l.view, other, i, subtitle);
        view := l.view[i := subtitle];
      } else {
        view := [subtitle] + l.view;
      }
    }
    AppendedInStep(l, other, subtitle, view);
  }

  ghost predicate ShowsLanguage(view: seq<Subtitle>, language: string) {
    exists s :: s in view && s.language == language
  }

  /** The rows after a selection: the subtitle selected, every row of another language, and nothing
      new besides; one row more than before exactly when its language was not shown. */
  ghost predicate ShowsSelection(view: seq<Subtitle>, subtitle: Subtitle, after: seq<Subtitle>) {
    && subtitle in after
    && (forall s :: s in view && s.language != subtitle.language ==> s in after)
    && (forall s :: s in after ==> s == subtitle || s in view)
    && |after| == |view| + if ShowsLanguage(view, subtitle.language) then 0 else 1
  }

  lemma ReplacedRowShows(view: seq<Subtitle>, i: nat, subtitle: Subtitle)
    requires i < |view| && view[i].language == subtitle.language
    ensures ShowsSelection(view, subtitle, view[i := subtitle])
  {
    var v := view[i := subtitle];
    assert v[i] == subtitle && view[i] in view;
    forall s | s in view && s.language != subtitle.language ensures s in v {
      var j :| 0 <= j < |view| && view[j] == s;
      assert v[j] == s;
    }
  }

  lemma SelectionShows(l: Lists, other: string, subtitle: Subtitle)
    requires InStep(l, other) && subtitle.language != other
    ensures Selected(l, subtitle).Some? && ShowsSelection(l.view, subtitle, Selected(l, subtitle).value.view)
  {
    var i := IndexOfLanguage(l.saved, subtitle.language);
    if i < |l.saved| {
      assert l.saved[i] in l.saved;
      ReplacedRowShows(l.view, FirstIndex(l.view, l.saved[i]), subtitle);
    } else if subtitle !in l.view {
      ScanInStep(l, other, 0, subtitle);
      var j := IndexOfLanguage(l.view, subtitle.language);
      if j < |l.view| {
        ReplacedRowShows(l.view, j, subtitle);
      } else {
        assert forall s :: s in l.view ==> s.language != subtitle.language;
      }
    }
  }

  // ---------- Every sequence of selections ----------

  lemma {:induction false} WithSavedInStep(saved: seq<Subtitle>, rows: seq<Subtitle>, other: string)
    requires OtherRowLast(rows, other) && forall s :: s in saved ==> s.language != other
    ensures OtherRowLast(WithSaved(saved, rows), other)
    ensures forall s :: s in saved ==> s in WithSaved(saved, rows)
  {
    if saved != [] {
      var n := |saved| - 1;
      assert saved == saved[..n] + [saved[n]];
      WithSavedInStep(saved[..n], rows, other);
    }
  }

  /** The row above the last: the current subtitle, else English, else any. */
  predicate IsHead(head: Subtitle, current: Option<Subtitle>, english: Option<Subtitle>, fallback: Option<Subtitle>) {
    || current == Some(head)
    || (current.None? && english == Some(head))
    || (current.None? && english.None? && fallback == Some(head))
  }

  /** `front` lists what is saved and not among `rows`, each once, the last saved first. */
  ghost predicate Fronts(saved: seq<Subtitle>, rows: seq<Subtitle>, front: seq<Subtitle>) {
    && Distinct(front) && (forall s :: s in front <==> s in saved && s !in rows)
    && forall i, j :: 0 <= i < j < |front| ==> SavedBefore(saved, front[j], front[i])
  }

  /** `a` was first saved before `b`. */
  ghost predicate SavedBefore(saved: seq<Subtitle>, a: Subtitle, b: Subtitle) {
    a in saved && b in saved && FirstIndex(saved, a) < FirstIndex(saved, b)
  }

  lemma {:induction false} WithSavedFronts(saved: seq<Subtitle>, rows: seq<Subtitle>)
    ensures exists front :: Fronts(saved, rows, front) && WithSaved(saved, rows) == front + rows
  {
    if saved == [] {
      assert [] + rows == rows;
      assert Fronts(saved, rows, []);
    } else {
      var n, last := |saved| - 1, saved[|saved| - 1];
      WithSavedFronts(saved[..n], rows);
      var front :| Fronts(saved[..n], rows, front) && WithSaved(saved[..n], rows) == front + rows;
      assert saved[..n] + [last] == saved;
      FrontsNext(saved[..n], last, rows, front);
      assert WithSaved(saved, rows) == Longer(front, last, rows) + rows by { PutInFront(last, front, rows); }
      assert Fronts(saved, rows, Longer(front, last, rows));
    }
  }

  function Longer(front: seq<Subtitle>, last: Subtitle, rows: seq<Subtitle>): seq<Subtitle> {
    if last in front + rows then front else [last] + front
  }

  lemma PutInFront(last: Subtitle, front: seq<Subtitle>, rows: seq<Subtitle>)
    ensures [last] + (front + rows) == ([last] + front) + rows
  {}

  lemma SavedBeforeNext(saved: seq<Subtitle>, last: Subtitle, a: Subtitle, b: Subtitle)
    requires SavedBefore(saved, a, b)
    ensures SavedBefore(saved + [last], a, b)
  {
    var all := saved + [last];
    assert all[..|saved|] == saved;
    FirstIndexInPrefix(all, |saved|, a);
    FirstIndexInPrefix(all, |saved|, b);
  }

  lemma LastIsSavedLast(saved: seq<Subtitle>, last: Subtitle, a: Subtitle)
    requires a in saved && last !in saved
    ensures SavedBefore(saved + [last], a, last)
  {
    var all := saved + [last];
    assert all[..|saved|] == saved;
    FirstIndexInPrefix(all, |saved|, a);
    FirstIndexIs(all, last, |saved|);
  }

  lemma LongerHas(saved: seq<Subtitle>, last: Subtitle, rows: seq<Subtitle>, front: seq<Subtitle>)
    requires Fronts(saved, rows, front)
    ensures var longer := Longer(front, last, rows);
            Distinct(longer) && forall s :: s in longer <==> s in saved + [last] && s !in rows
  {
    var longer := Longer(front, last, rows);
    forall s ensures s in longer <==> s in saved + [last] && s !in rows {
      assert s in front + rows <==> s in front || s in rows;
    }
  }

  lemma FrontsNext(saved: seq<Subtitle>, last: Subtitle, rows: seq<Subtitle>, front: seq<Subtitle>)
    requires Fronts(saved, rows, front)
    ensures Fronts(saved + [last], rows, Longer(front, last, rows))
  {
    var longer := Longer(front, last, rows);
    LongerHas(saved, last, rows, front);
    forall i, j | 0 <= i < j < |longer| ensures SavedBefore(saved + [last], longer[j], longer[i]) {
      LongerInOrder(saved, last, rows, front, i, j);
    }
  }

  lemma LongerInOrder(saved: seq<Subtitle>, last: Subtitle, rows: seq<Subtitle>, front: seq<Subtitle>, i: nat, j: nat)
    requires Fronts(saved, rows, front) && i < j < |Longer(front, last, rows)|
    ensures SavedBefore(saved + [last], Longer(front, last, rows)[j], Longer(front, last, rows)[i])
  {
    if last in front + rows {
      SavedBeforeNext(saved, last, front[j], front[i]);
    } else if i > 0 {
      SavedBeforeNext(saved, last, front[j - 1], front[i - 1]);
    } else {
      assert front[j - 1] in front;
      LastIsSavedLast(saved, last, front[j - 1]);
    }
  }

  /** The rows generated: the saved subtitles not yet shown, the last saved first, then the current
      subtitle, or English, or any, and then the "other" row; and no rows exactly without a subtitle. */
  lemma GeneratedRows(saved: seq<Subtitle>, other: string, current: Option<Subtitle>, english: Option<Subtitle>,
                      fallback: Option<Subtitle>)
    ensures Generated(saved, other, current, english, fallback).None? <==> current.None? && english.None? && fallback.None?
    ensures forall rows :: Generated(saved, other, current, english, fallback) == Some(rows) ==>
      exists front, head :: IsHead(head, current, english, fallback) && Fronts(saved, [head, OtherRow(other)], front)
                            && rows == front + [head, Subtitle("", other, 0, "", "")]
  {
    if !(current.None? && english.None? && fallback.None?) {
      var head := (if current.Some? then current else if english.Some? then english else fallback).value;
      WithSavedFronts(saved, [head, OtherRow(other)]);
      assert IsHead(head, current, english, fallback);
    }
  }

  datatype Event =
    | Select(subtitle: Subtitle)
    | Show(current: Option<Subtitle>, english: Option<Subtitle>, fallback: Option<Subtitle>)

  function Step(l: Lists, other: string, e: Event): Option<Lists> {
    match e
    case Select(subtitle) => Selected(l, subtitle)
    case Show(current, english, fallback) =>
      match Generated(l.saved, other, current, english, fallback)
      case None => None
      case Some(rows) => Some(l.(view := rows))
  }

  function Run(l: Lists, other: string, events: seq<Event>): Option<Lists>
    decreases |events|
  {
    if events == [] then Some(l)
    else match Step(l, other, events[0])
      case None => None
      case Some(next) => Run(next, other, events[1..])
  }

  /** No real subtitle uses the name of the "other" row, and rows are only generated when there
      is a subtitle to show. */
  ghost predicate Real(e: Event, other: string) {
    match e
    case Select(subtitle) => subtitle.language != other
    case Show(current, english, fallback) =>
      && (current.Some? || english.Some? || fallback.Some?)
      && (current.Some? ==> current.value.language != other)
      && (english.Some? ==> english.value.language != other)
      && (fallback.Some? ==> fallback.value.language != other)
  }

  lemma ShowKeepsStep(l: Lists, other: string, e: Event)
    requires e.Show? && Real(e, other)
    requires forall i, j :: 0 <= i < j < |l.saved| ==> l.saved[i].language != l.saved[j].language
    requires forall s :: s in l.saved ==> s.language != other
    ensures LandsInStep(Step(l, other, e), other)
  {
    var head := if e.current.Some? then e.current else if e.english.Some? then e.english else e.fallback;
    WithSavedInStep(l.saved, [head.value, OtherRow(other)], other);
  }

  /** Once the rows have been generated, no sequence of selections and regenerations ever fails
      an unwrapping, and the lists stay in step throughout. */
  lemma {:induction false} RunKeepsStep(l: Lists, other: string, events: seq<Event>)
    requires InStep(l, other) && forall i :: 0 <= i < |events| ==> Real(events[i], other)
    ensures LandsInStep(Run(l, other, events), other)
    decreases |events|
  {
    if events != [] {
      match events[0] {
        case Select(subtitle) => SelectionKeepsStep(l, other, subtitle);
        case Show(_, _, _) => ShowKeepsStep(l, other, events[0]);
      }
      RunKeepsStep(Step(l, other, events[0]).value, other, events[1..]);
    }
  }

  lemma FromTheStart(other: string, show: Event, events: seq<Event>)
    requires show.Show? && Real(show, other) && forall i :: 0 <= i < |events| ==> Real(events[i], other)
    ensures LandsInStep(Run(Lists([], []), other, [show] + events), other)
  {
    ShowKeepsStep(Lists([], []), other, show);
    assert ([show] + events)[1..] == events;
    RunKeepsStep(Step(Lists([], []), other, show).value, other, events);
  }

  // ---------- Duplicated rows ----------

  /** A selection makes a row appear twice if and only if it replaces a saved subtitle of its
      language by one that is already shown. */
  lemma DuplicatesExactlyWhen(l: Lists, other: string, subtitle: Subtitle)
    requires InStep(l, other) && subtitle.language != other && Distinct(l.view)
    ensures Selected(l, subtitle).Some?
    ensures Distinct(Selected(l, subtitle).value.view) <==>
            !(exists s :: s in l.saved && s.language == subtitle.language && s != subtitle && subtitle in l.view)
  {
    SelectionKeepsStep(l, other, subtitle);
    var i := IndexOfLanguage(l.saved, subtitle.language);
    if i < |l.saved| {
      var was := l.saved[i];
      assert was in l.saved;
      var index := FirstIndex(l.view, was);
      var view := l.view[index := subtitle];
      if subtitle != was && subtitle in l.view {
        var j :| 0 <= j < |l.view| && l.view[j] == subtitle;
        assert view[j] == view[index];
      }
      assert forall s :: s in l.saved && s.language == subtitle.language ==> s == was;
    } else if subtitle !in l.view {
      ScanInStep(l, other, 0, subtitle);
    }
  }

  /** Such duplicates do occur: select one subtitle of a language, show the rows again with
      another one current, then select that one. */
  lemma DuplicatesAreReachable(x: Subtitle, a: Subtitle, other: string)
    requires x.language == a.language != other && x != a
    ensures var events := [Show(Some(x), None, None), Select(x), Show(Some(a), None, None), Select(a)];
            Run(Lists([], []), other, events) == Some(Lists([a], [a, a, OtherRow(other)]))
  {
    var o := OtherRow(other);
    var show, again := Show(Some(x), None, None), Show(Some(a), None, None);
    ReachOne(x, o);
    ReachTwo(x, a, o);
    assert WithSaved([], [x, o]) == [x, o];
    RunCons(Lists([x], [x, a, o]), other, Select(a), [], Lists([a], [a, a, o]));
    RunCons(Lists([x], [x, o]), other, again, [Select(a)], Lists([x], [x, a, o]));
    RunCons(Lists([], [x, o]), other, Select(x), [again, Select(a)], Lists([x], [x, o]));
    RunCons(Lists([], []), other, show, [Select(x), again, Select(a)], Lists([], [x, o]));
    assert [show, Select(x), again, Select(a)] == [show] + [Select(x), again, Select(a)];
  }

  lemma RunCons(l: Lists, other: string, e: Event, rest: seq<Event>, next: Lists)
    requires Step(l, other, e) == Some(next)
    ensures Run(l, other, [e] + rest) == Run(next, other, rest)
  {
    assert ([e] + rest)[1..] == rest;
  }

  lemma ReachOne(x: Subtitle, o: Subtitle)
    ensures Selected(Lists([], [x, o]), x) == Some(Lists([x], [x, o]))
  {
    assert [] + [x] == [x];
  }

  lemma ReachTwo(x: Subtitle, a: Subtitle, o: Subtitle)
    requires x.language == a.language != o.language && x != a
    ensures WithSaved([x], [a, o]) == [x, a, o]
    ensures Selected(Lists([x], [x, a, o]), a) == Some(Lists([a], [a, a, o]))
  {
    assert [x][..0] == [];
    assert [x] + [a, o] == [x, a, o];
    assert [x][0 := a] == [a] && [x, a, o][0 := a] == [a, a, o];
  }
}
